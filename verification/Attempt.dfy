/** Attempt accounting of one request: connections, upstream messages, usage knowledge and the one
    terminal step. */
module Attempt {
  datatype Protocol = Http1 | Http2

  datatype Phase =
    Accepted | Connecting | Connected | Uploading | WaitingHeaders | StreamingCommitted | BufferedReady | Completed | Cancelled

  datatype Usage = Absent | Unknown | Partial | Complete

  datatype TransportAction = NoAction | ResetHttp2Stream | CloseAndEvictHttp1Connection | AwaitTransportConfirmation

  datatype Disposition = Disposition(action: TransportAction, usage: Usage, messages: nat, retryAllowed: bool,
                                     releaseAfterTransport: bool, destroyBufferFirst: bool, preservePrefix: bool)

  datatype Error = InvalidTransition | ConnectionBudget | MessagesBudget | AlreadyTerminal | InvalidUsage

  datatype Outcome = Done | Ordinal(n: nat) | Disposed(d: Disposition) | Failed(error: Error)

  datatype State = State(phase: Phase, connections: nat, messages: nat, usage: Usage, terminal: bool)

  const START := State(Accepted, 0, 0, Absent, false)

  datatype Op =
    | BeginConnection | ConnectionEstablished | FirstRequestByte | RequestUploadComplete
    | CommitStreamingResponse | BufferComplete | ObserveUsage(knowledge: Usage) | CompleteDelivery | Cancel(protocol: Protocol)

  function Rank(u: Usage): nat {
    match u
    case Absent => 0
    case Unknown => 1
    case Partial => 2
    case Complete => 3
  }

  function CloseAction(protocol: Protocol): TransportAction {
    if protocol.Http1? then CloseAndEvictHttp1Connection else ResetHttp2Stream
  }

  /** What a cancellation asks of the transport, by phase. */
  function Dispose(s: State, protocol: Protocol): Disposition {
    match s.phase
    case Accepted => Disposition(NoAction, Absent, s.messages, false, false, false, false)
    case Connecting => Disposition(AwaitTransportConfirmation, Absent, s.messages, false, true, false, false)
    case Connected => Disposition(AwaitTransportConfirmation, Absent, s.messages, false, true, false, false)
    case Uploading => Disposition(CloseAction(protocol), Unknown, s.messages, false, true, false, false)
    case WaitingHeaders => Disposition(CloseAction(protocol), Unknown, s.messages, false, true, false, false)
    case BufferedReady => Disposition(NoAction, s.usage, s.messages, false, false, true, false)
    case _ => Disposition(CloseAction(protocol), Unknown, s.messages, false, true, false, true)
  }

  /** The transition graph; each operation is allowed in the phases named here. */
  function Apply(s: State, op: Op): (State, Outcome) {
    match op
    case BeginConnection =>
      if s.terminal then (s, Failed(AlreadyTerminal))
      else if s.connections >= 3 then (s, Failed(ConnectionBudget))
      else (s.(connections := s.connections + 1, phase := Connecting), Ordinal(s.connections + 1))
    case ConnectionEstablished => Advance(s, Connecting, Connected)
    case FirstRequestByte =>
      if s.terminal then (s, Failed(AlreadyTerminal))
      else if s.phase != Connected then (s, Failed(InvalidTransition))
      else if s.messages >= 3 then (s, Failed(MessagesBudget))
      else (s.(messages := s.messages + 1, usage := Unknown, phase := Uploading), Ordinal(s.messages + 1))
    case RequestUploadComplete => Advance(s, Uploading, WaitingHeaders)
    case CommitStreamingResponse => Respond(s, StreamingCommitted)
    case BufferComplete => Respond(s, BufferedReady)
    case ObserveUsage(k) =>
      if s.terminal then (s, Failed(AlreadyTerminal))
      else if s.messages == 0 || k == Absent || Rank(k) < Rank(s.usage) then (s, Failed(InvalidUsage))
      else (s.(usage := k), Done)
    case CompleteDelivery =>
      if s.phase.StreamingCommitted? || s.phase.BufferedReady? then (s.(phase := Completed, terminal := true), Done)
      else (s, Failed(InvalidTransition))
    case Cancel(protocol) =>
      if s.terminal || s.phase.Completed? || s.phase.Cancelled? then (s, Failed(AlreadyTerminal)) else
        var d := Dispose(s, protocol);
        (s.(phase := Cancelled, usage := d.usage, terminal := true), Disposed(d))
  }

  function Advance(s: State, expected: Phase, next: Phase): (State, Outcome) {
    if s.terminal then (s, Failed(AlreadyTerminal))
    else if s.phase != expected then (s, Failed(InvalidTransition))
    else (s.(phase := next), Done)
  }

  function Respond(s: State, next: Phase): (State, Outcome) {
    if s.phase.Uploading? || s.phase.WaitingHeaders? then (s.(phase := next), Done) else (s, Failed(InvalidTransition))
  }

  class AttemptState {
    var phase: Phase
    var connections: nat
    var messages: nat
    var usage: Usage
    var terminal: bool

    ghost function View(): State
      reads this
    {
      State(phase, connections, messages, usage, terminal)
    }

    constructor ()
      ensures View() == START
    {
      phase, connections, messages, usage, terminal := Accepted, 0, 0, Absent, false;
    }

    method EnsurePhase(expected: Phase) returns (outcome: Outcome)
      ensures outcome == if terminal then Failed(AlreadyTerminal) else if phase == expected then Done else Failed(InvalidTransition)
    {
      if terminal {
        return Failed(AlreadyTerminal);
      }
      outcome := if phase == expected then Done else Failed(InvalidTransition);
    }

    method DoBeginConnection() returns (outcome: Outcome)
      modifies this
      ensures (View(), outcome) == Apply(old(View()), BeginConnection)
    {
      if terminal {
        return Failed(AlreadyTerminal);
      }
      if connections >= 3 {
        return Failed(ConnectionBudget);
      }
      connections := connections + 1;
      phase := Connecting;
      outcome := Ordinal(connections);
    }

    method DoConnectionEstablished() returns (outcome: Outcome)
      modifies this
      ensures (View(), outcome) == Apply(old(View()), ConnectionEstablished)
    {
      outcome := EnsurePhase(Connecting);
      if outcome.Done? {
        phase := Connected;
      }
    }

    method DoFirstRequestByte() returns (outcome: Outcome)
      modifies this
      ensures (View(), outcome) == Apply(old(View()), FirstRequestByte)
    {
      outcome := EnsurePhase(Connected);
      if outcome.Failed? {
        return;
      }
      if messages >= 3 {
        return Failed(MessagesBudget);
      }
      messages := messages + 1;
      usage := Unknown;
      phase := Uploading;
      outcome := Ordinal(messages);
    }

    method DoRequestUploadComplete() returns (outcome: Outcome)
      modifies this
      ensures (View(), outcome) == Apply(old(View()), RequestUploadComplete)
    {
      outcome := EnsurePhase(Uploading);
      if outcome.Done? {
        phase := WaitingHeaders;
      }
    }

    method DoCommitStreamingResponse() returns (outcome: Outcome)
      modifies this
      ensures (View(), outcome) == Apply(old(View()), CommitStreamingResponse)
    {
      if !(phase.Uploading? || phase.WaitingHeaders?) {
        return Failed(InvalidTransition);
      }
      phase := StreamingCommitted;
      outcome := Done;
    }

    method DoBufferComplete() returns (outcome: Outcome)
      modifies this
      ensures (View(), outcome) == Apply(old(View()), BufferComplete)
    {
      if !(phase.Uploading? || phase.WaitingHeaders?) {
        return Failed(InvalidTransition);
      }
      phase := BufferedReady;
      outcome := Done;
    }

    method DoObserveUsage(knowledge: Usage) returns (outcome: Outcome)
      modifies this
      ensures (View(), outcome) == Apply(old(View()), ObserveUsage(knowledge))
    {
      if terminal {
        return Failed(AlreadyTerminal);
      }
      if messages == 0 || knowledge == Absent || Rank(knowledge) < Rank(usage) {
        return Failed(InvalidUsage);
      }
      usage := knowledge;
      outcome := Done;
    }

    method DoCompleteDelivery() returns (outcome: Outcome)
      modifies this
      ensures (View(), outcome) == Apply(old(View()), CompleteDelivery)
    {
      if !(phase.StreamingCommitted? || phase.BufferedReady?) {
        return Failed(InvalidTransition);
      }
      phase := Completed;
      terminal := true;
      outcome := Done;
    }

    method DoCancel(protocol: Protocol) returns (outcome: Outcome)
      modifies this
      ensures (View(), outcome) == Apply(old(View()), Cancel(protocol))
    {
      if terminal || phase.Completed? || phase.Cancelled? {
        return Failed(AlreadyTerminal);
      }
      var d := Dispose(State(phase, connections, messages, usage, terminal), protocol);
      phase := Cancelled;
      usage := d.usage;
      terminal := true;
      outcome := Disposed(d);
    }
  }

  // ----- every run -----

  /** Messages are bounded by connections, connections by the budget, and while a connection is being
      made one more message is covered by it.  Until the end nothing is known of usage exactly while
      no message was sent. */
  predicate Inv(s: State) {
    && s.messages <= s.connections <= 3
    && (s.phase.Connecting? || s.phase.Connected? ==> s.messages < s.connections)
    && (s.terminal <==> s.phase.Completed? || s.phase.Cancelled?)
    && (!s.terminal ==> (s.usage.Absent? <==> s.messages == 0))
    && (s.phase.Accepted? ==> s.connections == 0)
    && (Sent(s.phase) ==> s.messages > 0)
  }

  predicate Sent(phase: Phase) {
    phase.Uploading? || phase.WaitingHeaders? || phase.StreamingCommitted? || phase.BufferedReady? || phase.Completed?
  }

  /** A run: the state after the operations, and how many of them connected, sent or ended. */
  datatype Tally = Tally(state: State, connected: nat, sent: nat, ended: nat)

  predicate Ends(op: Op) {
    op.CompleteDelivery? || op.Cancel?
  }

  function Run(ops: seq<Op>): Tally {
    if ops == [] then Tally(START, 0, 0, 0) else
      var before, op := Run(ops[..|ops| - 1]), ops[|ops| - 1];
      var (after, outcome) := Apply(before.state, op);
      if outcome.Failed? then before.(state := after) else
        Tally(after,
              before.connected + if op.BeginConnection? then 1 else 0,
              before.sent + if op.FirstRequestByte? then 1 else 0,
              before.ended + if Ends(op) then 1 else 0)
  }

  lemma StepKeepsInv(s: State, op: Op)
    requires Inv(s)
    ensures Inv(Apply(s, op).0)
  {
  }

  /** When an operation succeeds. */
  predicate Allowed(s: State, op: Op) {
    match op
    case BeginConnection => !s.terminal && s.connections < 3
    case ConnectionEstablished => s.phase == Connecting
    case FirstRequestByte => s.phase == Connected
    case RequestUploadComplete => s.phase == Uploading
    case CommitStreamingResponse => s.phase == Uploading || s.phase == WaitingHeaders
    case BufferComplete => s.phase == Uploading || s.phase == WaitingHeaders
    case ObserveUsage(k) => !s.terminal && s.messages > 0 && !k.Absent? && !Falls(s.usage, k)
    case CompleteDelivery => s.phase == StreamingCommitted || s.phase == BufferedReady
    case Cancel(_) => !s.terminal
  }

  /** Going from the one to the other is knowing less. */
  predicate Falls(from: Usage, to: Usage) {
    || (from.Complete? && !to.Complete?)
    || (from.Partial? && (to.Unknown? || to.Absent?))
    || (from.Unknown? && to.Absent?)
  }

  /** In every state that a run can reach, an operation succeeds exactly when its phase allows it, and
      for a connection when fewer than three were begun. */
  lemma SucceedsIff(s: State, op: Op)
    requires Inv(s)
    ensures !Apply(s, op).1.Failed? <==> Allowed(s, op)
  {
  }

  /** What a cancellation asks for: to reset or close what has gone on the wire, to wait for a
      connection that is being made, and for nothing where there is none or the response is complete.
      The lease is kept until the transport is done, a complete response is dropped first, a prefix
      that was delivered is preserved, and nothing is ever retried. */
  lemma CancelAsksFor(s: State, protocol: Protocol)
    requires Inv(s) && !s.terminal
    ensures Apply(s, Cancel(protocol)).1.Disposed?
    ensures var d := Apply(s, Cancel(protocol)).1.d;
            && (d.action.NoAction? <==> s.phase.Accepted? || s.phase.BufferedReady?)
            && (d.action.AwaitTransportConfirmation? <==> s.phase.Connecting? || s.phase.Connected?)
            && (d.action.CloseAndEvictHttp1Connection? ==> protocol.Http1?) && (d.action.ResetHttp2Stream? ==> protocol.Http2?)
            && (d.releaseAfterTransport <==> !d.action.NoAction?)
            && (d.destroyBufferFirst <==> s.phase.BufferedReady?)
            && (d.preservePrefix <==> s.phase.StreamingCommitted?)
            && !d.retryAllowed && d.messages == s.messages
            && d.usage == (if s.phase.BufferedReady? then s.usage else if Sent(s.phase) then Unknown else Absent)
            && Apply(s, Cancel(protocol)).0 == State(Cancelled, s.connections, s.messages, d.usage, true)
  {
  }

  /** On every run the counters count what succeeded, the request ends at most once, and it has ended
      exactly when its state is terminal. */
  lemma {:induction false} RunIsAccounted(ops: seq<Op>)
    ensures var t := Run(ops);
            && Inv(t.state)
            && t.connected == t.state.connections && t.sent == t.state.messages
            && t.ended <= 1 && (t.ended == 1 <==> t.state.terminal)
  {
    if ops != [] {
      RunIsAccounted(ops[..|ops| - 1]);
      var before, op := Run(ops[..|ops| - 1]), ops[|ops| - 1];
      StepKeepsInv(before.state, op);
      FailureChangesNothing(before.state, op);
    }
  }

  /** A failing operation changes nothing, and only a failing one leaves everything as it was, but
      for repeating what is known of usage. */
  lemma FailureChangesNothing(s: State, op: Op)
    ensures Apply(s, op).1.Failed? ==> Apply(s, op).0 == s
    ensures Apply(s, op).0 == s && Inv(s) ==> Apply(s, op).1.Failed? || op == ObserveUsage(s.usage)
  {
  }

  /** The messages budget can never be the reason for an error: the connection budget is met first. */
  lemma {:induction false} MessagesBudgetUnreachable(ops: seq<Op>, op: Op)
    ensures Apply(Run(ops).state, op).1 != Failed(MessagesBudget)
  {
    RunIsAccounted(ops);
  }

  /** After the end every operation fails. */
  lemma TerminalRefuses(s: State, op: Op)
    requires Inv(s) && s.terminal
    ensures Apply(s, op).0 == s && Apply(s, op).1.Failed?
  {
  }

  lemma {:induction false} RefusedOnce(ops: seq<Op>, op: Op)
    requires Run(ops).state.terminal
    ensures Run(ops + [op]) == Run(ops)
  {
    RunIsAccounted(ops);
    TerminalRefuses(Run(ops).state, op);
    assert (ops + [op])[..|ops|] == ops;
  }

  /** After the end nothing changes any more, whatever follows. */
  lemma {:induction false} TerminalAbsorbs(ops: seq<Op>, more: seq<Op>)
    requires Run(ops).state.terminal
    ensures Run(ops + more) == Run(ops)
    decreases |more|
  {
    if more == [] {
      assert ops + more == ops;
    } else {
      var n := |more| - 1;
      TerminalAbsorbs(ops, more[..n]);
      RefusedOnce(ops + more[..n], more[n]);
      assert ops + more == (ops + more[..n]) + [more[n]];
    }
  }

  /** When a successful operation may lower what is known of usage: a cancellation while a retry is
      being connected or while more than a message is known, and the first byte of a retry after that. */
  predicate Forgets(s: State, op: Op) {
    || (op.Cancel? && (s.phase.Connecting? || s.phase.Connected?) && s.messages > 0)
    || (op.Cancel? && (s.phase.Uploading? || s.phase.WaitingHeaders? || s.phase.StreamingCommitted?)
        && (s.usage.Partial? || s.usage.Complete?))
    || (op.FirstRequestByte? && s.phase.Connected? && (s.usage.Partial? || s.usage.Complete?))
  }

  /** Usage knowledge grows on exactly the steps that do not forget. */
  lemma {:induction false} UsageGrowsUnlessForgotten(ops: seq<Op>, op: Op)
    ensures var s := Run(ops).state;
            Rank(Apply(s, op).0.usage) >= Rank(s.usage) <==> s.terminal || !Forgets(s, op)
  {
    RunIsAccounted(ops);
  }

  lemma {:induction false} RunExtends(ops: seq<Op>, op: Op)
    ensures Run(ops + [op]).state == Apply(Run(ops).state, op).0
  {
    assert (ops + [op])[..|ops|] == ops;
    FailureChangesNothing(Run(ops).state, op);
  }

  lemma UploadedRun() returns (ops: seq<Op>)
    ensures Run(ops).state == State(Uploading, 1, 1, Unknown, false)
  {
    RunExtends([], BeginConnection);
    ops := [] + [BeginConnection];
    RunExtends(ops, ConnectionEstablished);
    ops := ops + [ConnectionEstablished];
    RunExtends(ops, FirstRequestByte);
    ops := ops + [FirstRequestByte];
  }

  /** There are runs that do forget: complete usage observed while streaming is unknown again after a
      cancellation. */
  lemma CancelForgetsCompleteUsage()
    ensures exists ops :: Run(ops).state.usage == Complete && Run(ops + [Cancel(Http2)]).state.usage == Unknown
  {
    var ops := UploadedRun();
    RunExtends(ops, CommitStreamingResponse);
    ops := ops + [CommitStreamingResponse];
    RunExtends(ops, ObserveUsage(Complete));
    ops := ops + [ObserveUsage(Complete)];
    RunExtends(ops, Cancel(Http2));
    assert Run(ops).state.usage == Complete && Run(ops + [Cancel(Http2)]).state.usage == Unknown;
  }
}
