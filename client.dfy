/** The dialing peer (LAN/client.py): its filter splits the typed line as it is and
    tests each raw token against the lower-cased blacklist, so matching is
    case-sensitive; its loop receives first, then sends. */
module ChatClient {
  import opened Ascii
  import opened Tokens
  import opened WordFilter
  import opened Protocol
  import ChatServer

  /** The text the client transmits for a typed line. */
  function Masked(x: seq<string>, message: string): string {
    Join(MaskTokens(x, Split(message)))
  }

  /** The filter as the client runs it: split into a token array, mask the array in
      place, join with single spaces. */
  method MaskMessage(x: seq<string>, message: string) returns (out: string)
    ensures out == Masked(x, message)
  {
    var ts := Split(message);
    var m := new string[|ts|](i requires 0 <= i < |ts| => ts[i]);
    assert m[..] == ts;
    MaskInPlace(m, x);
    out := Join(m[..]);
  }

  /** Token by token: the output has as many tokens as the typed line, a token that is
      exactly a blacklist entry becomes stars of its length, and any other token is
      passed through with its casing and punctuation. */
  lemma MaskedTokens(x: seq<string>, message: string)
    ensures |Split(Masked(x, message))| == |Split(message)|
    ensures forall i :: 0 <= i < |Split(message)| ==>
      Split(Masked(x, message))[i] ==
        (if Split(message)[i] in x then Stars(|Split(message)[i]|) else Split(message)[i])
  {
    MaskedText(x, Split(message));
  }

  /** Against a lower-case blacklist, such as the loaded one, a token containing an
      upper-case letter is never masked. */
  lemma UpperCaseTokensPass(content: string, message: string, i: nat)
    requires i < |Split(message)| && !NoUpper(Split(message)[i])
    ensures i < |Split(Masked(LoadBlacklist(content), message))|
    ensures Split(Masked(LoadBlacklist(content), message))[i] == Split(message)[i]
  {
    MaskedTokens(LoadBlacklist(content), message);
  }

  /** A single-spaced line none of whose tokens is blacklisted is sent exactly as
      typed. */
  lemma PassThrough(x: seq<string>, message: string)
    requires SingleSpaced(message)
    requires forall i :: 0 <= i < |Split(message)| ==> Split(message)[i] !in x
    ensures Masked(x, message) == message
  {
    assert MaskTokens(x, Split(message)) == Split(message);
    JoinSplit(message);
  }

  /** The output is single-spaced, and empty exactly when the typed line is empty or
      only whitespace. */
  lemma MaskedLayout(x: seq<string>, message: string)
    ensures SingleSpaced(Masked(x, message))
    ensures Masked(x, message) == "" <==> AllSpace(message)
  {
    MaskedText(x, Split(message));
  }

  /** Masking the client's own output again gives the same text. */
  lemma MaskedIdempotent(x: seq<string>, message: string)
    ensures Masked(x, Masked(x, message)) == Masked(x, message)
  {
    MaskedText(x, Split(message));
    MaskTokensIdempotent(x, Split(message));
  }

  /** On a line without upper-case letters the two peers' filters agree. */
  lemma AgreesWithServerWithoutUpperCase(x: seq<string>, message: string)
    requires NoUpper(message)
    ensures Masked(x, message) == ChatServer.Masked(x, message)
  {
    LowerFixedPoint(message);
  }

  /** The events of the client's loop over the given turns: each turn receives at most
      RecvBufferSize characters, then sends the masked typed line. */
  function Trace(x: seq<string>, turns: seq<Turn>): seq<Event>
    decreases |turns|
  {
    if |turns| == 0 then []
    else
      var t := turns[|turns| - 1];
      Trace(x, turns[..|turns| - 1]) + [Received(Recv(t.pending)), Sent(Masked(x, t.typed))]
  }

  /** The client's trace is accepted by the protocol machine: it starts with a
      receive, strictly alternates, and every receive is bounded; it holds two events
      per turn, and the `k`-th turn receives from the `k`-th pending data and sends the
      masked `k`-th line. */
  lemma {:induction false} TraceFollowsProtocol(x: seq<string>, turns: seq<Turn>)
    decreases |turns|
    ensures |Trace(x, turns)| == 2 * |turns|
    ensures Alternates(Client, Trace(x, turns))
    ensures forall k :: 0 <= k < |turns| ==>
      Trace(x, turns)[2 * k] == Received(Recv(turns[k].pending)) &&
      Trace(x, turns)[2 * k + 1] == Sent(Masked(x, turns[k].typed))
  {
    if |turns| > 0 {
      var n := |turns| - 1;
      var init := turns[..n];
      TraceFollowsProtocol(x, init);
      var pre := Trace(x, init);
      var e1, e2 := Received(Recv(turns[n].pending)), Sent(Masked(x, turns[n].typed));
      assert Trace(x, turns) == pre + [e1, e2];
      AlternatesExtend(Client, pre, e1, e2);
      TraceEventsStep(x, turns, pre, e1, e2);
    }
  }

  /** The step case of TraceFollowsProtocol for the events of each turn. */
  lemma TraceEventsStep(x: seq<string>, turns: seq<Turn>, pre: seq<Event>, e1: Event, e2: Event)
    requires |turns| > 0 && |pre| == 2 * (|turns| - 1)
    requires e1 == Received(Recv(turns[|turns| - 1].pending)) && e2 == Sent(Masked(x, turns[|turns| - 1].typed))
    requires forall k :: 0 <= k < |turns| - 1 ==>
      pre[2 * k] == Received(Recv(turns[..|turns| - 1][k].pending)) &&
      pre[2 * k + 1] == Sent(Masked(x, turns[..|turns| - 1][k].typed))
    ensures forall k :: 0 <= k < |turns| ==>
      (pre + [e1, e2])[2 * k] == Received(Recv(turns[k].pending)) &&
      (pre + [e1, e2])[2 * k + 1] == Sent(Masked(x, turns[k].typed))
  {
    var t := pre + [e1, e2];
    forall k | 0 <= k < |turns|
      ensures t[2 * k] == Received(Recv(turns[k].pending))
      ensures t[2 * k + 1] == Sent(Masked(x, turns[k].typed))
    {
      if k < |turns| - 1 {
        assert turns[..|turns| - 1][k] == turns[k];
        assert t[2 * k] == pre[2 * k] && t[2 * k + 1] == pre[2 * k + 1];
      }
    }
  }

  /** The client's `while 1` loop over finitely many turns. */
  method Run(x: seq<string>, turns: seq<Turn>) returns (trace: seq<Event>)
    ensures trace == Trace(x, turns)
    ensures Accepts(FirstPhase(Client), trace)
  {
    trace := [];
    var i := 0;
    while i < |turns|
      invariant 0 <= i <= |turns|
      invariant trace == Trace(x, turns[..i])
    {
      var incoming := Recv(turns[i].pending);
      trace := trace + [Received(incoming)];
      var out := MaskMessage(x, turns[i].typed);
      trace := trace + [Sent(out)];
      assert turns[..i + 1][..i] == turns[..i];
      i := i + 1;
    }
    assert turns[..i] == turns;
    TraceFollowsProtocol(x, turns);
    MachineMatchesAlternation(Client, trace);
  }
}
