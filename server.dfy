/** The listening peer (LAN/server.py): its filter lower-cases the whole typed line
    before splitting and masking, and its loop sends first, then receives. */
module ChatServer {
  import opened Ascii
  import opened Tokens
  import opened WordFilter
  import opened Protocol

  /** The text the server transmits for a typed line. */
  function Masked(x: seq<string>, message: string): string {
    Join(MaskTokens(x, Split(Lower(message))))
  }

  /** The filter as the server runs it: lower-case and split into a token array, mask
      the array in place, join with single spaces. */
  method MaskMessage(x: seq<string>, message: string) returns (out: string)
    ensures out == Masked(x, message)
  {
    var ts := Split(Lower(message));
    var m := new string[|ts|](i requires 0 <= i < |ts| => ts[i]);
    assert m[..] == ts;
    MaskInPlace(m, x);
    out := Join(m[..]);
  }

  /** Token by token: the output has as many tokens as the typed line, a token whose
      lower-case form is blacklisted becomes stars of the token's length, and any
      other token comes out lower-cased. */
  lemma MaskedTokens(x: seq<string>, message: string)
    ensures |Split(Masked(x, message))| == |Split(message)|
    ensures forall i :: 0 <= i < |Split(message)| ==>
      Split(Masked(x, message))[i] ==
        (if Lower(Split(message)[i]) in x then Stars(|Split(message)[i]|)
         else Lower(Split(message)[i]))
  {
    SplitLower(message);
    MaskedText(x, Split(Lower(message)));
  }

  /** A single-spaced line without upper-case letters none of whose tokens is
      blacklisted is sent exactly as typed. */
  lemma PassThrough(x: seq<string>, message: string)
    requires SingleSpaced(message) && NoUpper(message)
    requires forall i :: 0 <= i < |Split(message)| ==> Split(message)[i] !in x
    ensures Masked(x, message) == message
  {
    LowerFixedPoint(message);
    assert MaskTokens(x, Split(message)) == Split(message);
    JoinSplit(message);
  }

  /** The output is single-spaced, and empty exactly when the typed line is empty or
      only whitespace. */
  lemma MaskedLayout(x: seq<string>, message: string)
    ensures SingleSpaced(Masked(x, message))
    ensures Masked(x, message) == "" <==> AllSpace(message)
  {
    SplitLower(message);
    MaskedText(x, Split(Lower(message)));
  }

  /** Masking the server's own output again gives the same text. */
  lemma MaskedIdempotent(x: seq<string>, message: string)
    ensures Masked(x, Masked(x, message)) == Masked(x, message)
  {
    var ts := Split(Lower(message));
    var ms := MaskTokens(x, ts);
    MaskedText(x, ts);
    SplitLower(Join(ms));
    SplitLower(message);
    MaskedLowerCase(x, ts);
    MaskTokensIdempotent(x, ts);
  }

  /** The masked tokens of a lower-cased line are their own lower-case forms. */
  lemma MaskedLowerCase(x: seq<string>, ts: seq<string>)
    requires forall i :: 0 <= i < |ts| ==> NoUpper(ts[i])
    ensures LowerAll(MaskTokens(x, ts)) == MaskTokens(x, ts)
  {
    var ms := MaskTokens(x, ts);
    forall i | 0 <= i < |ms| ensures Lower(ms[i]) == ms[i] {
      LowerFixedPoint(ms[i]);
    }
  }

  /** The events of the server's loop over the given turns: each turn sends the masked
      typed line, then receives at most RecvBufferSize characters. */
  function Trace(x: seq<string>, turns: seq<Turn>): seq<Event>
    decreases |turns|
  {
    if |turns| == 0 then []
    else
      var t := turns[|turns| - 1];
      Trace(x, turns[..|turns| - 1]) + [Sent(Masked(x, t.typed)), Received(Recv(t.pending))]
  }

  /** The server's trace is accepted by the protocol machine: it starts with a send,
      strictly alternates, and every receive is bounded; it holds two events per turn,
      and the `k`-th turn sends the masked `k`-th line and receives from the `k`-th
      pending data. */
  lemma {:induction false} TraceFollowsProtocol(x: seq<string>, turns: seq<Turn>)
    decreases |turns|
    ensures |Trace(x, turns)| == 2 * |turns|
    ensures Alternates(Server, Trace(x, turns))
    ensures forall k :: 0 <= k < |turns| ==>
      Trace(x, turns)[2 * k] == Sent(Masked(x, turns[k].typed)) &&
      Trace(x, turns)[2 * k + 1] == Received(Recv(turns[k].pending))
  {
    if |turns| > 0 {
      var n := |turns| - 1;
      var init := turns[..n];
      TraceFollowsProtocol(x, init);
      var pre := Trace(x, init);
      var e1, e2 := Sent(Masked(x, turns[n].typed)), Received(Recv(turns[n].pending));
      assert Trace(x, turns) == pre + [e1, e2];
      AlternatesExtend(Server, pre, e1, e2);
      TraceEventsStep(x, turns, pre, e1, e2);
    }
  }

  /** The step case of TraceFollowsProtocol for the events of each turn. */
  lemma TraceEventsStep(x: seq<string>, turns: seq<Turn>, pre: seq<Event>, e1: Event, e2: Event)
    requires |turns| > 0 && |pre| == 2 * (|turns| - 1)
    requires e1 == Sent(Masked(x, turns[|turns| - 1].typed)) && e2 == Received(Recv(turns[|turns| - 1].pending))
    requires forall k :: 0 <= k < |turns| - 1 ==>
      pre[2 * k] == Sent(Masked(x, turns[..|turns| - 1][k].typed)) &&
      pre[2 * k + 1] == Received(Recv(turns[..|turns| - 1][k].pending))
    ensures forall k :: 0 <= k < |turns| ==>
      (pre + [e1, e2])[2 * k] == Sent(Masked(x, turns[k].typed)) &&
      (pre + [e1, e2])[2 * k + 1] == Received(Recv(turns[k].pending))
  {
    var t := pre + [e1, e2];
    forall k | 0 <= k < |turns|
      ensures t[2 * k] == Sent(Masked(x, turns[k].typed))
      ensures t[2 * k + 1] == Received(Recv(turns[k].pending))
    {
      if k < |turns| - 1 {
        assert turns[..|turns| - 1][k] == turns[k];
        assert t[2 * k] == pre[2 * k] && t[2 * k + 1] == pre[2 * k + 1];
      }
    }
  }

  /** The server's `while 1` loop over finitely many turns. */
  method Run(x: seq<string>, turns: seq<Turn>) returns (trace: seq<Event>)
    ensures trace == Trace(x, turns)
    ensures Accepts(FirstPhase(Server), trace)
  {
    trace := [];
    var i := 0;
    while i < |turns|
      invariant 0 <= i <= |turns|
      invariant trace == Trace(x, turns[..i])
    {
      var out := MaskMessage(x, turns[i].typed);
      trace := trace + [Sent(out)];
      var incoming := Recv(turns[i].pending);
      trace := trace + [Received(incoming)];
      assert turns[..i + 1][..i] == turns[..i];
      i := i + 1;
    }
    assert turns[..i] == turns;
    TraceFollowsProtocol(x, turns);
    MachineMatchesAlternation(Server, trace);
  }
}
