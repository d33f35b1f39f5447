/** Singleflight credential maintenance as an interleaved step system. */
module Singleflight {
  // Callers enter under the flight-map lock and either join the flight in the map or insert one and
  // spawn its worker.  The worker runs, publishes its result, notifies, and finally removes its
  // flight if the map still points at it.  Waiters loop: arm a notification, look for the result,
  // sleep.  Every step is atomic; any caller waiting on something may also be dropped.

  import opened Wrappers

  type Key = string

  datatype Error = Conflict | WaitingEgress | RateLimited(after: nat) | Transient | InvalidAuthentication
    | AccountMismatch | ManualRecoveryRequired | WorkerTimeout | EvidencePending

  datatype Commit = Commit(tokenVersion: nat, credentialRevision: nat)

  datatype SharedResult = Ok(operationId: string, commit: Commit, shared: bool) | Err(error: Error)

  // ----- what a worker does -----

  datatype AuthKind = OauthSubscription | ConsoleApiKey | OtherKind

  datatype Operation = Operation(id: string, account: Option<string>, kind: AuthKind, joinedExisting: bool)

  /** The answers the repository and the adapter give, were they asked. */
  datatype Answers = Answers(
    begin: Result<Operation, Error>, awaited: Result<Commit, Error>, executed: Result<Option<string>, Error>,
    marked: Result<(), Error>, committed: Result<Commit, Error>)

  datatype Call = Begin | Await | Execute | MarkFailure(error: Error) | CommitCandidate

  /** The worker's straight path: its result and the calls it makes, in order.  The adapter's answer
      is the account the new material was verified for. */
  function ExecuteWorker(q: Answers): (SharedResult, seq<Call>) {
    match q.begin
    case Bad(e) => (Err(e), [Begin])
    case Good(op) =>
      if op.joinedExisting then
        match q.awaited
        case Bad(e) => (Err(e), [Begin, Await])
        case Good(commit) => (Ok(op.id, commit, true), [Begin, Await])
      else
        match q.executed
        case Bad(e) => Fail(q, e)
        case Good(verified) =>
          if verified != op.account && !(op.kind.ConsoleApiKey? && verified.None? && op.account.None?) then
            Fail(q, AccountMismatch)
          else
            match q.committed
            case Bad(e) => (Err(e), [Begin, Execute, CommitCandidate])
            case Good(commit) => (Ok(op.id, commit, false), [Begin, Execute, CommitCandidate])
  }

  function Fail(q: Answers, e: Error): (SharedResult, seq<Call>) {
    (Err(match q.marked case Good(_) => e case Bad(m) => m), [Begin, Execute, MarkFailure(e)])
  }

  /** The worker runs to its end, or the timeout drops it while it waits for its call number
      `begun`, which may or may not take effect. */
  datatype Finish = Whole | Cut(begun: nat)

  /** What one execution comes to: its result, and the calls begun. */
  function Observed(q: Answers, finish: Finish): (SharedResult, seq<Call>) {
    var (result, calls) := ExecuteWorker(q);
    match finish
    case Whole => (result, calls)
    case Cut(begun) => (Err(WorkerTimeout), if begun <= |calls| then calls[..begun] else calls)
  }

  /** This worker owns the operation, and the material is for the operation's own account. */
  predicate OwnMaterial(q: Answers) {
    q.begin.Good? && !q.begin.value.joinedExisting && q.executed.Good? && q.executed.value == q.begin.value.account
  }

  /** The timeout left time to begin a third call. */
  predicate ReachedThird(finish: Finish) {
    finish.Cut? ==> finish.begun >= 3
  }

  lemma WorkerPath(q: Answers)
    ensures var (result, calls) := ExecuteWorker(q);
            && (OwnMaterial(q) ==> calls == [Begin, Execute, CommitCandidate] && (result.Ok? <==> q.committed.Good?)
                                   && (result.Ok? ==> !result.shared))
            && (!OwnMaterial(q) ==> (result.Ok? ==> result.shared)
                                    && (calls == [Begin] || calls == [Begin, Await]
                                        || exists e :: calls == [Begin, Execute, MarkFailure(e)]))
  {
    if q.begin.Good? && !q.begin.value.joinedExisting && !OwnMaterial(q) {
      var e := if q.executed.Bad? then q.executed.error else AccountMismatch;
      assert ExecuteWorker(q).1 == [Begin, Execute, MarkFailure(e)];
    }
  }

  /** The answers a success was built from: the operation begun, and the commit of its candidate or, if
      the operation was under way already, the one awaited. */
  predicate SucceedsWith(q: Answers, operationId: string, commit: Commit) {
    && q.begin.Good? && operationId == q.begin.value.id
    && if q.begin.value.joinedExisting then q.awaited == Good(commit) else OwnMaterial(q) && q.committed == Good(commit)
  }

  /** Why the refresh itself failed: the adapter's own error, or material for another account. */
  predicate RefreshFails(q: Answers, e: Error) {
    && q.begin.Good? && !q.begin.value.joinedExisting
    && (q.executed == Bad(e) || (q.executed.Good? && q.executed.value != q.begin.value.account && e == AccountMismatch))
  }

  /** The error a failure reports: that of the call that failed, where a failed refresh reports its own
      error unless marking the failure fails too. */
  ghost predicate FailsWith(q: Answers, e: Error) {
    || q.begin == Bad(e)
    || (q.begin.Good? && q.begin.value.joinedExisting && q.awaited == Bad(e))
    || (q.begin.Good? && OwnMaterial(q) && q.committed == Bad(e))
    || (RefreshFails(q, e) && q.marked.Good?)
    || ((exists cause :: RefreshFails(q, cause)) && q.marked == Bad(e))
  }

  /** What an uncut worker answers, and what it marks, is what its calls were answered. */
  lemma WorkerAnswers(q: Answers)
    ensures var (result, calls) := ExecuteWorker(q);
            && (forall id, commit :: SucceedsWith(q, id, commit) <==> result.Ok? && result.operationId == id && result.commit == commit)
            && (forall e :: FailsWith(q, e) <==> result == Err(e))
            && (forall e :: MarkFailure(e) in calls <==> RefreshFails(q, e))
            && (Await in calls <==> q.begin.Good? && q.begin.value.joinedExisting)
  {
    var (result, calls) := ExecuteWorker(q);
    if q.begin.Good? && !q.begin.value.joinedExisting && !OwnMaterial(q) {
      var cause := if q.executed.Bad? then q.executed.error else AccountMismatch;
      assert RefreshFails(q, cause) && forall e :: RefreshFails(q, e) ==> e == cause;
      assert result == Err(match q.marked case Good(_) => cause case Bad(m) => m);
      assert calls == [Begin, Execute, MarkFailure(cause)] && calls[2] == MarkFailure(cause);
    }
  }

  /** New material is committed exactly when this worker owns the operation, the material is for the
      operation's own account and the timeout leaves time for it; an unshared success is a commit that
      was answered; and nothing is ever both committed and marked as failed.  The exemption for
      console keys never makes a difference. */
  lemma CommitsOnlyOwnAccount(q: Answers, finish: Finish)
    ensures CommitCandidate in Observed(q, finish).1 <==> OwnMaterial(q) && ReachedThird(finish)
    ensures Observed(q, finish).0.Ok? && !Observed(q, finish).0.shared <==>
            OwnMaterial(q) && q.committed.Good? && finish.Whole?
    ensures CommitCandidate in Observed(q, finish).1 ==> forall e :: MarkFailure(e) !in Observed(q, finish).1
  {
    WorkerPath(q);
    var calls := ExecuteWorker(q).1;
    if OwnMaterial(q) { assert calls[2] == CommitCandidate; }
    if OwnMaterial(q) && ReachedThird(finish) { assert Observed(q, finish).1[2] == CommitCandidate; }
    if finish.Cut? && finish.begun <= |calls| {
      assert forall x :: x in calls[..finish.begun] ==> exists k :: 0 <= k < finish.begun && calls[k] == x;
    }
  }

  /** Refreshing is followed by a commit or a failure mark exactly if the timeout leaves time for it:
      a worker dropped while it refreshes leaves neither. */
  lemma RefreshIsSettledUnlessCut(q: Answers, finish: Finish)
    requires Execute in Observed(q, finish).1
    ensures CommitCandidate in Observed(q, finish).1 || (exists e :: MarkFailure(e) in Observed(q, finish).1)
            <==> ReachedThird(finish)
  {
    WorkerPath(q);
    var calls := ExecuteWorker(q).1;
    if ReachedThird(finish) {
      assert |calls| == 3 && Observed(q, finish).1 == calls;
      assert calls[2] in calls;
    } else {
      assert Observed(q, finish).1 == calls[..finish.begun];
      assert forall x :: x in calls[..finish.begun] ==> x == Begin || x == Execute;
    }
  }

  // ----- callers and flights -----

  /** Where a flight's worker is. */
  datatype Worker = Unspawned | Running | Computed(outcome: SharedResult) | Published | Notified | Retired

  /** A flight; its identity is its index in the heap of all flights ever created. */
  datatype Flight = Flight(key: Key, worker: Worker, result: Option<SharedResult>, notifications: nat, executions: nat)

  /** Where a call to `maintain` is.  `ticket` is the notification count when it armed itself. */
  datatype Phase =
    | Idle
    | Leading(flight: nat)
    | Joined(flight: nat, leader: bool)
    | Armed(flight: nat, leader: bool, ticket: nat)
    | Blocked(flight: nat, leader: bool, ticket: nat)
    | Done(flight: nat, leader: bool, result: SharedResult)
    | Dropped

  datatype Caller = Caller(key: Key, phase: Phase)

  datatype State = State(flights: map<Key, nat>, heap: seq<Flight>, callers: seq<Caller>)

  datatype Action =
    | Enter(c: nat)
    | Spawn(c: nat)
    | Arm(c: nat)
    | Check(c: nat)
    | Wake(c: nat)
    | Drop(c: nat)
    | Work(f: nat, answers: Answers, finish: Finish)
    | Publish(f: nat)
    | Notify(f: nat)
    | Retire(f: nat)

  /** What a caller returns: followers of a success see it marked as shared. */
  function Delivered(r: SharedResult, leader: bool): SharedResult {
    if !leader && r.Ok? then r.(shared := true) else r
  }

  // ----- the steps -----

  predicate OfCaller(a: Action) {
    a.Enter? || a.Spawn? || a.Arm? || a.Check? || a.Wake? || a.Drop?
  }

  /** The flight a caller is attached to. */
  predicate Attached(p: Phase) {
    p.Leading? || p.Joined? || p.Armed? || p.Blocked? || p.Done?
  }

  predicate Waiting(p: Phase) {
    p.Joined? || p.Armed? || p.Blocked?
  }

  predicate Enabled(s: State, a: Action)
    requires Sane(s)
  {
    if OfCaller(a) then
      a.c < |s.callers| &&
      var p := s.callers[a.c].phase;
      match a
      case Enter(_) => p.Idle?
      case Spawn(_) => p.Leading?
      case Arm(_) => p.Joined?
      case Check(_) => p.Armed?
      case Wake(_) => p.Blocked? && s.heap[p.flight].notifications != p.ticket
      case Drop(_) => p.Idle? || Waiting(p)
      case _ => false
    else
      a.f < |s.heap| &&
      var w := s.heap[a.f].worker;
      match a
      case Work(_, _, _) => w.Running?
      case Publish(_) => w.Computed?
      case Notify(_) => w.Published?
      case Retire(_) => w.Notified?
      case _ => false
  }

  /** Every caller points into the heap, and so does the map. */
  predicate Sane(s: State) {
    && (forall c :: 0 <= c < |s.callers| && Attached(s.callers[c].phase) ==> s.callers[c].phase.flight < |s.heap|)
    && (forall k :: k in s.flights ==> s.flights[k] < |s.heap|)
  }

  function SetPhase(s: State, c: nat, p: Phase): State
    requires c < |s.callers|
  {
    s.(callers := s.callers[c := s.callers[c].(phase := p)])
  }

  function SetFlight(s: State, f: nat, flight: Flight): State
    requires f < |s.heap|
  {
    s.(heap := s.heap[f := flight])
  }

  function Apply(s: State, a: Action): State
    requires Sane(s) && Enabled(s, a)
  {
    match a
    case Enter(c) =>
      var key := s.callers[c].key;
      if key in s.flights then SetPhase(s, c, Joined(s.flights[key], false)) else
        var created := Flight(key, Unspawned, None, 0, 0);
        SetPhase(State(s.flights[key := |s.heap|], s.heap + [created], s.callers), c, Leading(|s.heap|))
    case Spawn(c) =>
      var f := s.callers[c].phase.flight;
      SetFlight(SetPhase(s, c, Joined(f, true)), f, s.heap[f].(worker := Running))
    case Arm(c) =>
      var p := s.callers[c].phase;
      SetPhase(s, c, Armed(p.flight, p.leader, s.heap[p.flight].notifications))
    case Check(c) =>
      var p := s.callers[c].phase;
      var result := s.heap[p.flight].result;
      SetPhase(s, c, if result.Some? then Done(p.flight, p.leader, Delivered(result.value, p.leader))
                     else Blocked(p.flight, p.leader, p.ticket))
    case Wake(c) =>
      var p := s.callers[c].phase;
      SetPhase(s, c, Joined(p.flight, p.leader))
    case Drop(c) =>
      SetPhase(s, c, Dropped)
    case Work(f, answers, finish) =>
      SetFlight(s, f, s.heap[f].(worker := Computed(Observed(answers, finish).0), executions := s.heap[f].executions + 1))
    case Publish(f) =>
      SetFlight(s, f, s.heap[f].(worker := Published, result := Some(s.heap[f].worker.outcome)))
    case Notify(f) =>
      SetFlight(s, f, s.heap[f].(worker := Notified, notifications := s.heap[f].notifications + 1))
    case Retire(f) =>
      var key := s.heap[f].key;
      var s' := SetFlight(s, f, s.heap[f].(worker := Retired));
      if key in s.flights && s.flights[key] == f then s'.(flights := s.flights - {key}) else s'
  }

  // ----- the invariant -----

  /** A flight's record agrees with how far its worker has come; until the worker retires, the map
      points at the flight. */
  predicate FlightOk(s: State, f: nat)
    requires f < |s.heap|
  {
    var flight := s.heap[f];
    var w := flight.worker;
    && (flight.result.Some? <==> w.Published? || w.Notified? || w.Retired?)
    && flight.notifications == (if w.Notified? || w.Retired? then 1 else 0)
    && flight.executions == (if w.Unspawned? || w.Running? then 0 else 1)
    && (w.Retired? || (flight.key in s.flights && s.flights[flight.key] == f))
    && (w.Unspawned? ==> exists c :: 0 <= c < |s.callers| && s.callers[c].phase == Leading(f))
  }

  /** A caller agrees with its flight. */
  predicate CallerOk(s: State, c: nat)
    requires Sane(s) && c < |s.callers|
  {
    var p := s.callers[c].phase;
    Attached(p) ==>
      var flight := s.heap[p.flight];
      && flight.key == s.callers[c].key
      && (p.Leading? ==> flight.worker.Unspawned?)
      && (p.Armed? ==> p.ticket <= flight.notifications)
      && (p.Blocked? ==> p.ticket == 0)
      && (p.Done? ==> flight.result.Some? && p.result == Delivered(flight.result.value, p.leader))
  }

  predicate Inv(s: State) {
    && Sane(s)
    && (forall f :: 0 <= f < |s.heap| ==> FlightOk(s, f))
    && (forall c :: 0 <= c < |s.callers| ==> CallerOk(s, c))
    && (forall k :: k in s.flights ==> s.heap[s.flights[k]].key == k && !s.heap[s.flights[k]].worker.Retired?)
    && (forall c, d :: 0 <= c < d < |s.callers| && s.callers[c].phase.Leading? && s.callers[d].phase.Leading? ==>
          s.callers[c].phase != s.callers[d].phase)
  }

  predicate Initial(s: State) {
    && s.flights == map[] && s.heap == []
    && forall c :: 0 <= c < |s.callers| ==> s.callers[c].phase.Idle?
  }

  lemma InitialInv(s: State)
    requires Initial(s)
    ensures Inv(s)
  {
  }

  lemma EnterInv(s: State, c: nat)
    requires Inv(s) && Enabled(s, Enter(c))
    ensures Inv(Apply(s, Enter(c)))
  {
    var s' := Apply(s, Enter(c));
    forall f | 0 <= f < |s'.heap|
      ensures FlightOk(s', f)
    {
      if f < |s.heap| {
        assert FlightOk(s, f);
        if s.heap[f].worker.Unspawned? {
          var d :| 0 <= d < |s.callers| && s.callers[d].phase == Leading(f);
          assert s'.callers[d].phase == Leading(f);
        }
      } else {
        assert s'.callers[c].phase == Leading(f);
      }
    }
    forall d | 0 <= d < |s'.callers|
      ensures CallerOk(s', d)
    {
      assert CallerOk(s, d);
    }
  }

  lemma CallerInv(s: State, a: Action)
    requires Inv(s) && OfCaller(a) && !a.Enter? && Enabled(s, a)
    ensures Inv(Apply(s, a))
  {
    var s' := Apply(s, a);
    assert CallerOk(s, a.c);
    forall f | 0 <= f < |s'.heap|
      ensures FlightOk(s', f)
    {
      assert FlightOk(s, f);
      if s'.heap[f].worker.Unspawned? {
        var d :| 0 <= d < |s.callers| && s.callers[d].phase == Leading(f);
        assert s'.callers[d].phase == Leading(f);
      }
    }
    forall d | 0 <= d < |s'.callers|
      ensures CallerOk(s', d)
    {
      assert CallerOk(s, d);
      if a.Check? { assert FlightOk(s, s.callers[a.c].phase.flight); }
    }
  }

  lemma WorkerInv(s: State, a: Action)
    requires Inv(s) && !OfCaller(a) && Enabled(s, a)
    ensures Inv(Apply(s, a))
  {
    var s' := Apply(s, a);
    assert FlightOk(s, a.f);
    forall f | 0 <= f < |s'.heap|
      ensures FlightOk(s', f)
    {
      assert FlightOk(s, f);
      if s'.heap[f].worker.Unspawned? {
        var d :| 0 <= d < |s.callers| && s.callers[d].phase == Leading(f);
        assert s'.callers[d].phase == Leading(f);
      }
    }
    forall d | 0 <= d < |s'.callers|
      ensures CallerOk(s', d)
    {
      assert CallerOk(s, d);
    }
  }

  lemma StepInv(s: State, a: Action)
    requires Inv(s) && Enabled(s, a)
    ensures Inv(Apply(s, a))
  {
    if a.Enter? { EnterInv(s, a.c); } else if OfCaller(a) { CallerInv(s, a); } else { WorkerInv(s, a); }
  }

  // ----- runs -----

  ghost predicate IsRun(states: seq<State>, actions: seq<Action>) {
    && |states| == |actions| + 1
    && Initial(states[0])
    && forall i :: 0 <= i < |actions| ==> StepAt(states, actions, i)
  }

  ghost predicate StepAt(states: seq<State>, actions: seq<Action>, i: nat)
    requires i < |actions| && i + 1 < |states|
  {
    Sane(states[i]) && Enabled(states[i], actions[i]) && states[i + 1] == Apply(states[i], actions[i])
  }

  lemma {:induction false} RunInv(states: seq<State>, actions: seq<Action>, i: nat)
    requires IsRun(states, actions) && i < |states|
    ensures Inv(states[i])
  {
    if i == 0 {
      InitialInv(states[0]);
    } else {
      RunInv(states, actions, i - 1);
      assert StepAt(states, actions, i - 1);
      StepInv(states[i - 1], actions[i - 1]);
    }
  }

  /** At most one worker per credential: two flights of one credential are never both between
      insertion and removal. */
  lemma OneWorkerPerKey(states: seq<State>, actions: seq<Action>, i: nat, f: nat, g: nat)
    requires IsRun(states, actions) && i < |states|
    requires f < |states[i].heap| && g < |states[i].heap| && states[i].heap[f].key == states[i].heap[g].key
    requires !states[i].heap[f].worker.Retired? && !states[i].heap[g].worker.Retired?
    ensures f == g
  {
    RunInv(states, actions, i);
    assert FlightOk(states[i], f) && FlightOk(states[i], g);
  }

  /** A worker that retires always finds its own flight in the map, and removes that and no other. */
  lemma RetiresOwnFlight(states: seq<State>, actions: seq<Action>, i: nat)
    requires IsRun(states, actions) && i < |actions| && actions[i].Retire?
    ensures var s, f := states[i], actions[i].f;
            && f < |s.heap| && s.heap[f].key in s.flights && s.flights[s.heap[f].key] == f
            && states[i + 1].flights == s.flights - {s.heap[f].key}
            && forall k :: k in s.flights && k != s.heap[f].key ==> s.flights[k] != f
  {
    RunInv(states, actions, i);
    assert StepAt(states, actions, i);
    assert FlightOk(states[i], actions[i].f);
  }

  /** How often the worker of flight `f` ran. */
  function Runs(actions: seq<Action>, f: nat): nat {
    if actions == [] then 0 else
      var last := actions[|actions| - 1];
      Runs(actions[..|actions| - 1], f) + if last.Work? && last.f == f then 1 else 0
  }

  lemma {:induction false} RunsStep(actions: seq<Action>, i: nat, f: nat)
    requires 0 < i <= |actions|
    ensures Runs(actions[..i], f)
         == Runs(actions[..i - 1], f) + if actions[i - 1].Work? && actions[i - 1].f == f then 1 else 0
  {
    assert actions[..i][..i - 1] == actions[..i - 1];
  }

  /** The action is an execution of the worker of flight `f` that comes to `outcome`. */
  predicate Executes(a: Action, f: nat, outcome: SharedResult) {
    a.Work? && a.f == f && Observed(a.answers, a.finish).0 == outcome
  }

  ghost predicate Produced(actions: seq<Action>, f: nat, outcome: SharedResult) {
    exists j :: 0 <= j < |actions| && Executes(actions[j], f, outcome)
  }

  /** What is stored for a flight, in its worker or as its result, is what its worker produced. */
  ghost predicate Honest(s: State, actions: seq<Action>) {
    forall f :: 0 <= f < |s.heap| ==>
      && s.heap[f].executions == Runs(actions, f)
      && (s.heap[f].worker.Computed? ==> Produced(actions, f, s.heap[f].worker.outcome))
      && (s.heap[f].result.Some? ==> Produced(actions, f, s.heap[f].result.value))
  }

  lemma {:induction false} RunsBeyond(states: seq<State>, actions: seq<Action>, i: nat, f: nat)
    requires IsRun(states, actions) && i < |states| && f >= |states[i].heap|
    ensures Runs(actions[..i], f) == 0
  {
    if i > 0 {
      assert StepAt(states, actions, i - 1);
      RunsBeyond(states, actions, i - 1, f);
      RunsStep(actions, i, f);
      assert |states[i - 1].heap| <= |states[i].heap|;
    }
  }

  lemma {:induction false} RunHonest(states: seq<State>, actions: seq<Action>, i: nat)
    requires IsRun(states, actions) && i < |states|
    ensures Honest(states[i], actions[..i])
  {
    if i > 0 {
      RunHonest(states, actions, i - 1);
      assert StepAt(states, actions, i - 1);
      var s, a, s' := states[i - 1], actions[i - 1], states[i];
      var before, now := actions[..i - 1], actions[..i];
      assert now[..i - 1] == before && now[i - 1] == a;
      forall f | 0 <= f < |s'.heap|
        ensures s'.heap[f].executions == Runs(now, f)
        ensures s'.heap[f].worker.Computed? ==> Produced(now, f, s'.heap[f].worker.outcome)
        ensures s'.heap[f].result.Some? ==> Produced(now, f, s'.heap[f].result.value)
      {
        if f < |s.heap| {
          StillProduced(before, now, f);
          if a.Work? && a.f == f { assert Executes(now[i - 1], f, Observed(a.answers, a.finish).0); }
        } else {
          RunsBeyond(states, actions, i - 1, f);
        }
      }
    }
  }

  lemma StillProduced(before: seq<Action>, now: seq<Action>, f: nat)
    requires before <= now
    ensures forall o :: Produced(before, f, o) ==> Produced(now, f, o)
  {
    forall o | Produced(before, f, o)
      ensures Produced(now, f, o)
    {
      var j :| 0 <= j < |before| && Executes(before[j], f, o);
      assert Executes(now[j], f, o);
    }
  }

  /** Every caller that returns gets the result of the one and only execution of its flight's
      worker, a follower's success marked as shared. */
  lemma EveryCallerGetsTheResult(states: seq<State>, actions: seq<Action>, i: nat, c: nat)
    requires IsRun(states, actions) && i < |states| && c < |states[i].callers|
    requires states[i].callers[c].phase.Done?
    ensures var p := states[i].callers[c].phase;
            && p.flight < |states[i].heap| && states[i].heap[p.flight].key == states[i].callers[c].key
            && Runs(actions[..i], p.flight) == 1
            && exists outcome :: Produced(actions[..i], p.flight, outcome) && p.result == Delivered(outcome, p.leader)
  {
    RunInv(states, actions, i);
    RunHonest(states, actions, i);
    var p := states[i].callers[c].phase;
    assert CallerOk(states[i], c) && FlightOk(states[i], p.flight);
    assert Produced(actions[..i], p.flight, states[i].heap[p.flight].result.value);
  }

  /** A success is shared for every follower, and for a leader exactly if its worker joined an
      operation that was under way already. */
  lemma SharedUnlessOwn(states: seq<State>, actions: seq<Action>, i: nat, c: nat)
    requires IsRun(states, actions) && i < |states| && c < |states[i].callers|
    requires states[i].callers[c].phase.Done? && states[i].callers[c].phase.result.Ok?
    ensures var p := states[i].callers[c].phase;
            exists j :: 0 <= j < i && actions[j].Work? && actions[j].f == p.flight && actions[j].answers.begin.Good?
                        && (p.result.shared <==> !p.leader || actions[j].answers.begin.value.joinedExisting)
  {
    EveryCallerGetsTheResult(states, actions, i, c);
    var p := states[i].callers[c].phase;
    var outcome :| Produced(actions[..i], p.flight, outcome) && p.result == Delivered(outcome, p.leader);
    var j :| 0 <= j < i && Executes(actions[..i][j], p.flight, outcome);
    assert actions[..i][j] == actions[j];
    WorkerPath(actions[j].answers);
  }

  /** A caller that is told of an unshared success led its flight, and the flight's worker committed
      new material for the operation's own account. */
  lemma UnsharedSuccessIsACommit(states: seq<State>, actions: seq<Action>, i: nat, c: nat)
    requires IsRun(states, actions) && i < |states| && c < |states[i].callers|
    requires states[i].callers[c].phase.Done?
    requires states[i].callers[c].phase.result.Ok? && !states[i].callers[c].phase.result.shared
    ensures states[i].callers[c].phase.leader
    ensures exists j :: 0 <= j < i && actions[j].Work? && actions[j].f == states[i].callers[c].phase.flight
                        && CommitCandidate in Observed(actions[j].answers, actions[j].finish).1
                        && OwnMaterial(actions[j].answers)
                        && actions[j].answers.begin.value.id == states[i].callers[c].phase.result.operationId
                        && actions[j].answers.committed == Good(states[i].callers[c].phase.result.commit)
  {
    EveryCallerGetsTheResult(states, actions, i, c);
    var p := states[i].callers[c].phase;
    var outcome :| Produced(actions[..i], p.flight, outcome) && p.result == Delivered(outcome, p.leader);
    var j :| 0 <= j < i && Executes(actions[..i][j], p.flight, outcome);
    assert actions[..i][j] == actions[j];
    CommitsOnlyOwnAccount(actions[j].answers, actions[j].finish);
    WorkerAnswers(actions[j].answers);
    assert SucceedsWith(actions[j].answers, p.result.operationId, p.result.commit);
  }

  /** On every run, a caller that returns a success has the identifier of the operation begun by the
      worker of its flight and the very commit it was answered; and one that returns an error has the
      one its worker met, or learns that the worker ran out of time. */
  lemma ReturnsWhatWasAnswered(states: seq<State>, actions: seq<Action>, i: nat, c: nat)
    requires IsRun(states, actions) && i < |states| && c < |states[i].callers|
    requires states[i].callers[c].phase.Done?
    ensures var p := states[i].callers[c].phase;
            exists j :: 0 <= j < i && actions[j].Work? && actions[j].f == p.flight
                        && AnsweredBy(p.result, actions[j].answers, actions[j].finish)
  {
    EveryCallerGetsTheResult(states, actions, i, c);
    var p := states[i].callers[c].phase;
    var outcome :| Produced(actions[..i], p.flight, outcome) && p.result == Delivered(outcome, p.leader);
    var j :| 0 <= j < i && Executes(actions[..i][j], p.flight, outcome);
    assert actions[..i][j] == actions[j];
    WorkerAnswers(actions[j].answers);
    assert AnsweredBy(p.result, actions[j].answers, actions[j].finish);
  }

  ghost predicate AnsweredBy(result: SharedResult, q: Answers, finish: Finish) {
    match result
    case Ok(id, commit, _) => finish.Whole? && SucceedsWith(q, id, commit)
    case Err(e) => if finish.Cut? then e == WorkerTimeout else FailsWith(q, e)
  }

  /** No flight is ever executed twice. */
  lemma {:induction false} AtMostOneExecution(states: seq<State>, actions: seq<Action>, i: nat, f: nat)
    requires IsRun(states, actions) && i < |states|
    ensures Runs(actions[..i], f) <= 1
  {
    RunInv(states, actions, i);
    if f < |states[i].heap| {
      RunHonest(states, actions, i);
      assert FlightOk(states[i], f);
    } else {
      RunsBeyond(states, actions, i, f);
    }
  }

  // ----- nobody is left waiting -----

  /** Steps a flight's worker still has to take. */
  function WorkerWeight(w: Worker): nat {
    match w
    case Unspawned => 5
    case Running => 4
    case Computed(_) => 3
    case Published => 2
    case Notified => 1
    case Retired => 0
  }

  /** An upper bound on the steps a caller still has to take.  A waiter that armed itself before
      the notification may go round its loop once more; one that armed itself afterwards may not. */
  function CallerWeight(s: State, p: Phase): nat
    requires Attached(p) ==> p.flight < |s.heap|
  {
    match p
    case Idle => 13
    case Leading(_) => 7
    case Joined(f, _) => if s.heap[f].notifications == 0 then 6 else 3
    case Armed(_, _, ticket) => if ticket == 0 then 5 else 2
    case Blocked(_, _, _) => 4
    case Done(_, _, _) => 0
    case Dropped => 0
  }

  function HeapWeight(heap: seq<Flight>): nat {
    if heap == [] then 0 else WorkerWeight(heap[0].worker) + HeapWeight(heap[1..])
  }

  function CallersWeight(s: State, n: nat): nat
    requires Sane(s) && n <= |s.callers|
  {
    if n == 0 then 0 else CallersWeight(s, n - 1) + CallerWeight(s, s.callers[n - 1].phase)
  }

  function Weight(s: State): nat
    requires Sane(s)
  {
    HeapWeight(s.heap) + CallersWeight(s, |s.callers|)
  }

  lemma {:induction false} HeapWeightSet(heap: seq<Flight>, f: nat, flight: Flight)
    requires f < |heap|
    ensures HeapWeight(heap[f := flight]) == HeapWeight(heap) - WorkerWeight(heap[f].worker) + WorkerWeight(flight.worker)
  {
    if f > 0 {
      assert heap[f := flight][1..] == heap[1..][f - 1 := flight];
      HeapWeightSet(heap[1..], f - 1, flight);
    } else {
      assert heap[f := flight][1..] == heap[1..];
    }
  }

  lemma {:induction false} HeapWeightAppend(heap: seq<Flight>, flight: Flight)
    ensures HeapWeight(heap + [flight]) == HeapWeight(heap) + WorkerWeight(flight.worker)
  {
    if heap == [] {
      assert [flight][1..] == [];
    } else {
      assert (heap + [flight])[1..] == heap[1..] + [flight];
      HeapWeightAppend(heap[1..], flight);
    }
  }

  /** Callers that do not move get no heavier, and the one that does loses weight. */
  lemma {:induction false} CallersWeightDrops(s: State, s': State, c: nat, loss: nat, n: nat)
    requires Sane(s) && Sane(s') && |s.callers| == |s'.callers| && n <= |s.callers|
    requires forall d :: 0 <= d < |s.callers| && d != c ==>
               CallerWeight(s', s'.callers[d].phase) <= CallerWeight(s, s.callers[d].phase)
    requires c < |s.callers| ==> CallerWeight(s', s'.callers[c].phase) + loss <= CallerWeight(s, s.callers[c].phase)
    ensures CallersWeight(s', n) + (if c < n then loss else 0) <= CallersWeight(s, n)
  {
    if n > 0 {
      CallersWeightDrops(s, s', c, loss, n - 1);
    }
  }

  lemma CreatorDescends(s: State, c: nat)
    requires Inv(s) && Enabled(s, Enter(c)) && s.callers[c].key !in s.flights
    ensures Sane(Apply(s, Enter(c))) && Weight(Apply(s, Enter(c))) < Weight(s)
  {
    StepInv(s, Enter(c));
    HeapWeightAppend(s.heap, Flight(s.callers[c].key, Unspawned, None, 0, 0));
    CallersWeightDrops(s, Apply(s, Enter(c)), c, 6, |s.callers|);
  }

  lemma CallerDescends(s: State, a: Action)
    requires Inv(s) && OfCaller(a) && Enabled(s, a) && (a.Enter? ==> s.callers[a.c].key in s.flights)
    ensures Sane(Apply(s, a)) && Weight(Apply(s, a)) < Weight(s)
  {
    StepInv(s, a);
    assert CallerOk(s, a.c);
    if Attached(s.callers[a.c].phase) {
      assert FlightOk(s, s.callers[a.c].phase.flight);
    }
    if a.Spawn? {
      HeapWeightSet(s.heap, s.callers[a.c].phase.flight, s.heap[s.callers[a.c].phase.flight].(worker := Running));
    }
    CallersWeightDrops(s, Apply(s, a), a.c, 1, |s.callers|);
  }

  lemma WorkerDescends(s: State, a: Action)
    requires Inv(s) && !OfCaller(a) && Enabled(s, a)
    ensures Sane(Apply(s, a)) && Weight(Apply(s, a)) < Weight(s)
  {
    var s' := Apply(s, a);
    StepInv(s, a);
    assert FlightOk(s, a.f);
    HeapWeightSet(s.heap, a.f, s'.heap[a.f]);
    CallersWeightDrops(s, s', |s.callers|, 0, |s.callers|);
  }

  /** Every step makes progress: no interleaving can run forever. */
  lemma StepDescends(s: State, a: Action)
    requires Inv(s) && Enabled(s, a)
    ensures Sane(Apply(s, a)) && Weight(Apply(s, a)) < Weight(s)
  {
    if a.Enter? && s.callers[a.c].key !in s.flights {
      CreatorDescends(s, a.c);
    } else if OfCaller(a) {
      CallerDescends(s, a);
    } else {
      WorkerDescends(s, a);
    }
  }

  lemma {:induction false} InitialWeight(s: State, n: nat)
    requires Initial(s) && n <= |s.callers|
    ensures CallersWeight(s, n) == 13 * n
  {
    if n > 0 { InitialWeight(s, n - 1); }
  }

  /** A run over `n` callers takes at most 13 n steps, whatever the interleaving. */
  lemma {:induction false} RunsAreBounded(states: seq<State>, actions: seq<Action>, i: nat)
    requires IsRun(states, actions) && i < |states|
    ensures Sane(states[i]) && Weight(states[i]) + i <= 13 * |states[0].callers|
  {
    RunInv(states, actions, i);
    if i == 0 {
      InitialWeight(states[0], |states[0].callers|);
    } else {
      RunsAreBounded(states, actions, i - 1);
      RunInv(states, actions, i - 1);
      assert StepAt(states, actions, i - 1);
      StepDescends(states[i - 1], actions[i - 1]);
    }
  }

  /** Nothing can move, other than by dropping a waiter. */
  ghost predicate Quiescent(s: State)
    requires Sane(s)
  {
    forall a :: Enabled(s, a) ==> a.Drop?
  }

  /** Every call has returned or was dropped, every worker has retired after running exactly once,
      and the map is empty. */
  ghost predicate Finished(s: State) {
    && (forall c :: 0 <= c < |s.callers| ==> s.callers[c].phase.Done? || s.callers[c].phase.Dropped?)
    && (forall f :: 0 <= f < |s.heap| ==> s.heap[f].worker.Retired? && s.heap[f].executions == 1)
    && s.flights == map[]
  }

  /** A worker that has not retired, or its leader, can move. */
  lemma WorkerCanMove(s: State, f: nat) returns (a: Action)
    requires Inv(s) && f < |s.heap| && !s.heap[f].worker.Retired?
    ensures Enabled(s, a) && !a.Drop?
  {
    assert FlightOk(s, f);
    match s.heap[f].worker
    case Unspawned =>
      var c :| 0 <= c < |s.callers| && s.callers[c].phase == Leading(f);
      a := Spawn(c);
    case Running =>
      a := Work(f, Answers(Bad(Transient), Bad(Transient), Bad(Transient), Bad(Transient), Bad(Transient)), Whole);
    case Computed(_) => a := Publish(f);
    case Published => a := Notify(f);
    case Notified => a := Retire(f);
  }

  lemma CallerCanMove(s: State, c: nat) returns (a: Action)
    requires Inv(s) && c < |s.callers| && !s.callers[c].phase.Done? && !s.callers[c].phase.Dropped?
    requires forall f :: 0 <= f < |s.heap| ==> s.heap[f].worker.Retired?
    ensures Enabled(s, a) && !a.Drop?
  {
    assert CallerOk(s, c);
    match s.callers[c].phase
    case Idle => a := Enter(c);
    case Leading(_) => a := Spawn(c);
    case Joined(_, _) => a := Arm(c);
    case Armed(_, _, _) => a := Check(c);
    case Blocked(f, _, _) =>
      assert FlightOk(s, f);
      a := Wake(c);
  }

  lemma UnfinishedCanMove(s: State) returns (a: Action)
    requires Inv(s) && !Finished(s)
    ensures Enabled(s, a) && !a.Drop?
  {
    if f :| 0 <= f < |s.heap| && !s.heap[f].worker.Retired? {
      a := WorkerCanMove(s, f);
    } else {
      forall f | 0 <= f < |s.heap|
        ensures s.heap[f].worker.Retired? && s.heap[f].executions == 1
      {
        assert FlightOk(s, f);
      }
      assert s.flights == map[];
      var c :| 0 <= c < |s.callers| && !s.callers[c].phase.Done? && !s.callers[c].phase.Dropped?;
      a := CallerCanMove(s, c);
    }
  }

  /** When nothing can move any more everything is finished: no deadlock and no lost wake-up. */
  lemma QuiescentIsFinished(states: seq<State>, actions: seq<Action>, i: nat)
    requires IsRun(states, actions) && i < |states| && Sane(states[i])
    ensures Quiescent(states[i]) ==> Finished(states[i])
  {
    RunInv(states, actions, i);
    if !Finished(states[i]) {
      var a := UnfinishedCanMove(states[i]);
    }
  }

  // ----- a waiter that was notified -----

  /** Steps a notified waiter still has to take by itself. */
  function StepsLeft(p: Phase): nat {
    match p
    case Blocked(_, _, _) => 3
    case Joined(_, _) => 2
    case Armed(_, _, _) => 1
    case _ => 0
  }

  /** The waiter's own next step. */
  function NextOwn(p: Phase, c: nat): Action {
    match p
    case Blocked(_, _, _) => Wake(c)
    case Joined(_, _) => Arm(c)
    case _ => Check(c)
  }

  /** How many of the actions are steps of caller `c`. */
  function OwnSteps(actions: seq<Action>, c: nat): nat {
    if actions == [] then 0 else
      var last := actions[|actions| - 1];
      OwnSteps(actions[..|actions| - 1], c) + if OfCaller(last) && last.c == c then 1 else 0
  }

  /** Caller `c`, once waiting as `p` on a notified flight with the given result, after `own` steps. */
  predicate OnItsWay(s: State, c: nat, p: Phase, result: SharedResult, own: nat)
    requires Waiting(p)
  {
    && Sane(s) && c < |s.callers| && p.flight < |s.heap|
    && s.heap[p.flight].notifications > 0 && s.heap[p.flight].result == Some(result)
    && var q := s.callers[c].phase;
       || (q.Dropped? && own <= 3)
       || (q == Done(p.flight, p.leader, Delivered(result, p.leader)) && own == StepsLeft(p))
       || (Waiting(q) && q.flight == p.flight && q.leader == p.leader && own + StepsLeft(q) == StepsLeft(p)
           && Enabled(s, NextOwn(q, c)))
  }

  lemma NextOwnEnabled(s: State, c: nat)
    requires Inv(s) && c < |s.callers| && Waiting(s.callers[c].phase)
    requires s.heap[s.callers[c].phase.flight].notifications > 0
    ensures Enabled(s, NextOwn(s.callers[c].phase, c))
    ensures s.heap[s.callers[c].phase.flight].result.Some?
  {
    assert CallerOk(s, c) && FlightOk(s, s.callers[c].phase.flight);
  }

  lemma ResultStays(s: State, a: Action, f: nat)
    requires Inv(s) && Enabled(s, a) && f < |s.heap| && s.heap[f].notifications > 0
    ensures f < |Apply(s, a).heap| && Apply(s, a).heap[f].notifications > 0
    ensures Apply(s, a).heap[f].result == s.heap[f].result
  {
    assert FlightOk(s, f);
  }

  /** Only its own steps move a caller. */
  lemma OthersLeaveAlone(s: State, a: Action, c: nat)
    requires Sane(s) && Enabled(s, a) && c < |s.callers| && !(OfCaller(a) && a.c == c)
    ensures c < |Apply(s, a).callers| && Apply(s, a).callers[c] == s.callers[c]
  {
  }

  /** What another step does to the way of a waiter: its own steps bring it on, others do not
      disturb it. */
  lemma WayStep(s: State, a: Action, c: nat, p: Phase, result: SharedResult, own: nat)
    requires Inv(s) && Enabled(s, a) && Waiting(p) && OnItsWay(s, c, p, result, own)
    ensures OnItsWay(Apply(s, a), c, p, result, own + if OfCaller(a) && a.c == c then 1 else 0)
  {
    var s' := Apply(s, a);
    StepInv(s, a);
    ResultStays(s, a, p.flight);
    if !(OfCaller(a) && a.c == c) { OthersLeaveAlone(s, a, c); }
    if Waiting(s'.callers[c].phase) {
      assert s'.callers[c].phase.flight == p.flight;
      NextOwnEnabled(s', c);
    }
  }

  lemma {:induction false} OwnStepsExtend(actions: seq<Action>, k: nat, j: nat, c: nat)
    requires k < j <= |actions|
    ensures OwnSteps(actions[k..j], c)
         == OwnSteps(actions[k..j - 1], c) + if OfCaller(actions[j - 1]) && actions[j - 1].c == c then 1 else 0
  {
    assert actions[k..j][..j - k - 1] == actions[k..j - 1] && actions[k..j][j - k - 1] == actions[j - 1];
  }

  lemma WayGoesOn(s: State, a: Action, s': State, c: nat, p: Phase, result: SharedResult, own: nat, own': nat)
    requires Inv(s) && Enabled(s, a) && s' == Apply(s, a) && Waiting(p) && OnItsWay(s, c, p, result, own)
    requires own' == own + if OfCaller(a) && a.c == c then 1 else 0
    ensures OnItsWay(s', c, p, result, own')
  {
    WayStep(s, a, c, p, result, own);
  }

  lemma RunStep(states: seq<State>, actions: seq<Action>, i: nat)
    requires IsRun(states, actions) && i < |actions|
    ensures Inv(states[i]) && Enabled(states[i], actions[i]) && states[i + 1] == Apply(states[i], actions[i])
  {
    assert StepAt(states, actions, i);
    RunInv(states, actions, i);
  }

  /** At moment `j` of the run, counting steps from moment `k`. */
  ghost predicate OnItsWayAt(states: seq<State>, actions: seq<Action>, k: nat, j: nat, c: nat, p: Phase, result: SharedResult)
    requires k <= j <= |actions| && j < |states| && Waiting(p)
  {
    OnItsWay(states[j], c, p, result, OwnSteps(actions[k..j], c))
  }

  lemma {:induction false} WayStarts(states: seq<State>, actions: seq<Action>, k: nat, c: nat, p: Phase, result: SharedResult)
    requires k <= |actions| && k < |states| && Waiting(p) && OnItsWay(states[k], c, p, result, 0)
    ensures OnItsWayAt(states, actions, k, k, c, p, result)
  {
    assert actions[k..k] == [];
  }

  lemma {:induction false} WayExtends(states: seq<State>, actions: seq<Action>, k: nat, j: nat, c: nat, p: Phase, result: SharedResult)
    requires IsRun(states, actions) && k < j < |states| && Waiting(p)
    requires OnItsWayAt(states, actions, k, j - 1, c, p, result)
    ensures OnItsWayAt(states, actions, k, j, c, p, result)
  {
    RunStep(states, actions, j - 1);
    OwnStepsExtend(actions, k, j, c);
    WayGoesOn(states[j - 1], actions[j - 1], states[j], c, p, result, OwnSteps(actions[k..j - 1], c), OwnSteps(actions[k..j], c));
  }

  lemma {:induction false} StaysOnItsWay(states: seq<State>, actions: seq<Action>, k: nat, j: nat, c: nat, p: Phase, result: SharedResult)
    requires IsRun(states, actions) && k <= j < |states| && Waiting(p) && OnItsWayAt(states, actions, k, k, c, p, result)
    ensures OnItsWayAt(states, actions, k, j, c, p, result)
    decreases j
  {
    if j > k {
      StaysOnItsWay(states, actions, k, j - 1, c, p, result);
      WayExtends(states, actions, k, j, c, p, result);
    }
  }

  /** Once its flight was notified, a waiter returns, whatever the others do: at every later moment
      of the run it has returned with the flight's result after exactly the steps its place in the
      loop asks for, three at most, or was dropped, or its own next step is enabled. */
  lemma {:induction false} WaiterReturns(states: seq<State>, actions: seq<Action>, k: nat, j: nat, c: nat)
    requires IsRun(states, actions) && k <= j < |states| && Sane(states[k])
    requires c < |states[k].callers| && Waiting(states[k].callers[c].phase)
    requires states[k].heap[states[k].callers[c].phase.flight].notifications > 0
    ensures states[k].heap[states[k].callers[c].phase.flight].result.Some?
    ensures OnItsWay(states[j], c, states[k].callers[c].phase,
                     states[k].heap[states[k].callers[c].phase.flight].result.value, OwnSteps(actions[k..j], c))
  {
    RunInv(states, actions, k);
    NextOwnEnabled(states[k], c);
    var p := states[k].callers[c].phase;
    WayStarts(states, actions, k, c, p, states[k].heap[p.flight].result.value);
    StaysOnItsWay(states, actions, k, j, c, p, states[k].heap[p.flight].result.value);
  }

  /** In particular, left to itself it returns by at most three steps of its own. */
  lemma {:induction false} WaiterAlone(s: State, c: nat) returns (s': State, steps: seq<Action>)
    requires Inv(s) && c < |s.callers| && Waiting(s.callers[c].phase)
    requires s.heap[s.callers[c].phase.flight].notifications > 0
    ensures |steps| == StepsLeft(s.callers[c].phase) && Leads(s, steps, s')
    ensures forall a :: a in steps ==> a == Wake(c) || a == Arm(c) || a == Check(c)
    ensures s.heap[s.callers[c].phase.flight].result.Some? && c < |s'.callers|
    ensures s'.callers[c].phase == Done(s.callers[c].phase.flight, s.callers[c].phase.leader,
                                        Delivered(s.heap[s.callers[c].phase.flight].result.value, s.callers[c].phase.leader))
    decreases StepsLeft(s.callers[c].phase)
  {
    var a := NextOwn(s.callers[c].phase, c);
    NextOwnEnabled(s, c);
    StepInv(s, a);
    var next := Apply(s, a);
    if a.Check? {
      s', steps := next, [a];
      assert steps[1..] == [];
    } else {
      var rest;
      s', rest := WaiterAlone(next, c);
      steps := [a] + rest;
      assert steps[1..] == rest;
    }
  }

  /** The steps, each enabled in turn, lead from one state to the other. */
  predicate Leads(s: State, steps: seq<Action>, s': State)
    decreases |steps|
  {
    if steps == [] then s' == s
    else Sane(s) && Enabled(s, steps[0]) && Leads(Apply(s, steps[0]), steps[1..], s')
  }
}
