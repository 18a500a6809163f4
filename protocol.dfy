/** The turn-taking protocol of the two chat peers, without sockets: what each
    peer does is recorded as a trace of events, a receive takes at most
    RecvBufferSize characters of what the other side has written, and a small state
    machine says which traces a peer may produce. */
module Protocol {

  /** The argument of `recv`: the largest chunk one receive returns. */
  const RecvBufferSize: nat := 1024

  datatype Role = Server | Client

  /** The two states of a peer's loop. */
  datatype Phase = Sending | Receiving

  /** What a peer observably does on its connection. */
  datatype Event = Sent(text: string) | Received(text: string)

  /** One iteration of a peer's loop, as its environment decides it: the data the
      other side has made available for this turn's receive, and the line the local
      user types for this turn's send. */
  datatype Turn = Turn(pending: string, typed: string)

  /** The listener sends first; the dialer receives first. */
  function FirstPhase(role: Role): Phase {
    match role
    case Server => Sending
    case Client => Receiving
  }

  function Other(p: Phase): Phase {
    match p
    case Sending => Receiving
    case Receiving => Sending
  }

  /** `recv(1024)`: the first at most RecvBufferSize characters of the pending data. */
  function Recv(pending: string): (r: string)
    ensures |r| <= RecvBufferSize
    ensures |r| <= |pending| && r == pending[..|r|]
    ensures |pending| <= RecvBufferSize ==> r == pending
    ensures |pending| > RecvBufferSize ==> |r| == RecvBufferSize
  {
    if |pending| <= RecvBufferSize then pending else pending[..RecvBufferSize]
  }

  /** The phase a peer is in at its `i`-th event. */
  function PhaseAt(role: Role, i: nat): Phase {
    if i % 2 == 0 then FirstPhase(role) else Other(FirstPhase(role))
  }

  /** The event agrees with the phase, and a receive is within the buffer size. */
  predicate Allowed(p: Phase, e: Event) {
    match e
    case Sent(_) => p == Sending
    case Received(t) => p == Receiving && |t| <= RecvBufferSize
  }

  /** The state machine: starting in phase `p`, every event must be allowed in the
      current phase, and each event moves the machine to the other phase. */
  predicate Accepts(p: Phase, trace: seq<Event>)
    decreases |trace|
  {
    |trace| == 0 || (Allowed(p, trace[0]) && Accepts(Other(p), trace[1..]))
  }

  /** A positional description of the same traces: sends and receives strictly
      alternate, starting with the role's first phase, and every receive is bounded. */
  predicate Alternates(role: Role, trace: seq<Event>) {
    forall i :: 0 <= i < |trace| ==> Allowed(PhaseAt(role, i), trace[i])
  }

  lemma {:induction false} AcceptsFrom(p: Phase, trace: seq<Event>)
    decreases |trace|
    ensures Accepts(p, trace) <==>
      forall i :: 0 <= i < |trace| ==> Allowed(if i % 2 == 0 then p else Other(p), trace[i])
  {
    if |trace| > 0 {
      AcceptsFrom(Other(p), trace[1..]);
      assert Other(Other(p)) == p;
      if forall i :: 0 <= i < |trace| ==> Allowed(if i % 2 == 0 then p else Other(p), trace[i]) {
        forall j | 0 <= j < |trace| - 1
          ensures Allowed(if j % 2 == 0 then Other(p) else p, trace[1..][j])
        {
          assert trace[1..][j] == trace[j + 1];
        }
      }
      if Accepts(p, trace) {
        forall i | 0 <= i < |trace|
          ensures Allowed(if i % 2 == 0 then p else Other(p), trace[i])
        {
          if i > 0 { assert trace[i] == trace[1..][i - 1]; }
        }
      }
    }
  }

  /** The state machine started in the role's first phase accepts exactly the
      alternating, bounded traces. */
  lemma MachineMatchesAlternation(role: Role, trace: seq<Event>)
    ensures Accepts(FirstPhase(role), trace) <==> Alternates(role, trace)
  {
    AcceptsFrom(FirstPhase(role), trace);
  }

  /** Two events, one full turn, appended to an alternating trace of even length keep
      it alternating when they follow the role's order. */
  lemma AlternatesExtend(role: Role, trace: seq<Event>, e1: Event, e2: Event)
    requires Alternates(role, trace) && |trace| % 2 == 0
    requires Allowed(FirstPhase(role), e1) && Allowed(Other(FirstPhase(role)), e2)
    ensures Alternates(role, trace + [e1, e2])
  {
    var t := trace + [e1, e2];
    forall i | 0 <= i < |t| ensures Allowed(PhaseAt(role, i), t[i]) {
      if i < |trace| {
        assert t[i] == trace[i];
      }
    }
  }
}
