/** Fairness over whole runs of the queue, at every level of the hierarchy. */
module FairQueueRuns {
  import opened Wrappers
  import opened FairQueueSpec
  import opened FairQueueLaws

  datatype Op = PushOp(e: Entry) | PopOp(run: Runnable) | RemoveOp(rid: Id)

  ghost function Step(n: Node, op: Op, depth: nat): Node
    requires depth <= LEVELS
  {
    match op
    case PushOp(e) => Push(n, e, depth)
    case PopOp(run) => Pop(n, run).0
    case RemoveOp(rid) => Remove(n, rid).0
  }

  /** The entry an operation hands out to run, if it is a pop and finds one. */
  ghost function Served(n: Node, op: Op): Option<Entry> {
    match op
    case PopOp(run) => Pop(n, run).1
    case _ => None
  }

  /** The node at `path` below `n`. */
  function SubNode(n: Node, path: seq<Id>): Option<Node>
    decreases path
  {
    if path == [] then Some(n)
    else if n.Fifo? then None
    else match Lookup(n.kids, path[0])
      case None => None
      case Some(child) => SubNode(child, path[1..])
  }

  // ----- one operation, seen from a node inside the tree -----

  /** The operation passed by this node, or it acted on it as it would on a queue of its own. */
  ghost predicate SeenFrom(m: Node, m': Node, op: Op, served: Option<Entry>, path: seq<Id>) {
    || (m' == m && (served.Some? ==> !(path <= Lane(served.value))))
    || (|path| <= LEVELS && m' == Step(m, op, |path|) && served == Served(m, op)
        && (op.PushOp? ==> path <= Lane(op.e)))
  }

  lemma OneLonger(prefix: seq<Id>, path: seq<Id>)
    requires path != []
    ensures prefix + [path[0]] + path[1..] == prefix + path && prefix + [path[0]] <= prefix + path
  {
  }

  lemma {:induction false} SubNodeWellFormed(n: Node, prefix: seq<Id>, path: seq<Id>)
    requires WellFormed(n, prefix) && SubNode(n, path).Some?
    ensures WellFormed(SubNode(n, path).value, prefix + path)
    decreases path
  {
    if path == [] {
      assert prefix + path == prefix;
    } else {
      LookupWellFormed(n.kids, prefix, path[0]);
      SubNodeWellFormed(Lookup(n.kids, path[0]).value, prefix + [path[0]], path[1..]);
      assert prefix + [path[0]] + path[1..] == prefix + path;
    }
  }

  /** A node that exists before and after an operation has either been left alone or been operated
      on exactly as a queue of its own would be. */
  lemma {:induction false} StepBelow(n: Node, prefix: seq<Id>, op: Op, path: seq<Id>)
    requires WellFormed(n, prefix) && (op.PushOp? ==> prefix <= Lane(op.e))
    requires SubNode(n, path).Some? && SubNode(Step(n, op, |prefix|), path).Some?
    ensures SeenFrom(SubNode(n, path).value, SubNode(Step(n, op, |prefix|), path).value, op,
                     Served(n, op), prefix + path)
    decreases path
  {
    if path == [] {
      assert prefix + path == prefix;
    } else {
      var id := path[0];
      var child, child' := Lookup(n.kids, id).value, Lookup(Step(n, op, |prefix|).kids, id).value;
      OneLonger(prefix, path);
      LookupWellFormed(n.kids, prefix, id);
      ChildStep(n.kids, prefix, op, id);
      if !(child' == child && (Served(n, op).Some? ==> !(prefix + [id] <= Lane(Served(n, op).value)))) {
        StepBelow(child, prefix + [id], op, path[1..]);
      }
    }
  }

  /** The same for a child. */
  lemma {:induction false} ChildStep(kids: seq<Child>, prefix: seq<Id>, op: Op, id: Id)
    requires WellFormed(Ring(kids), prefix) && (op.PushOp? ==> prefix <= Lane(op.e))
    requires Lookup(kids, id).Some? && Lookup(Step(Ring(kids), op, |prefix|).kids, id).Some?
    ensures SeenFrom(Lookup(kids, id).value, Lookup(Step(Ring(kids), op, |prefix|).kids, id).value, op,
                     Served(Ring(kids), op), prefix + [id])
  {
    match op
    case PushOp(e) => PushChild(kids, prefix, e, id);
    case PopOp(run) => PopSeen(kids, prefix, run, id);
    case RemoveOp(rid) => RemoveChild(kids, prefix, rid, id);
  }

  lemma {:induction false} PopSeen(kids: seq<Child>, prefix: seq<Id>, run: Runnable, id: Id)
    requires WellFormed(Ring(kids), prefix)
    requires Lookup(kids, id).Some? && Lookup(Pop(Ring(kids), run).0.kids, id).Some?
    ensures SeenFrom(Lookup(kids, id).value, Lookup(Pop(Ring(kids), run).0.kids, id).value, PopOp(run),
                     Pop(Ring(kids), run).1, prefix + [id])
  {
    PopChild(kids, prefix, run, id);
    assert |prefix + [id]| <= LEVELS;
  }

  lemma {:induction false} PushChild(kids: seq<Child>, prefix: seq<Id>, e: Entry, id: Id)
    requires WellFormed(Ring(kids), prefix) && prefix <= Lane(e) && Lookup(kids, id).Some?
    ensures var child, child' := Lookup(kids, id).value, Lookup(Push(Ring(kids), e, |prefix|).kids, id);
            child' == if prefix + [id] <= Lane(e) then Some(Push(child, e, |prefix| + 1)) else Some(child)
  {
    PushLookup(kids, e, |prefix|, id);
    assert prefix + [id] <= Lane(e) <==> Lane(e)[|prefix|] == id;
  }

  lemma {:induction false} PopChild(kids: seq<Child>, prefix: seq<Id>, run: Runnable, id: Id)
    requires WellFormed(Ring(kids), prefix) && Lookup(kids, id).Some?
    ensures var child, child' := Lookup(kids, id).value, Lookup(Pop(Ring(kids), run).0.kids, id);
            var e := Pop(Ring(kids), run).1;
            if e.Some? && prefix + [id] <= Lane(e.value)
            then e == Pop(child, run).1 && (child'.Some? ==> child'.value == Pop(child, run).0)
            else child' == Some(child)
  {
    if FirstRunnable(kids, run) < |kids| {
      PopLookup(kids, run, id);
      PopEntry(Ring(kids), run, prefix);
      var lane := Lane(Pop(Ring(kids), run).1.value);
      assert prefix + [id] <= lane <==> lane[|prefix|] == id;
    }
  }

  lemma {:induction false} RemoveChild(kids: seq<Child>, prefix: seq<Id>, rid: Id, id: Id)
    requires WellFormed(Ring(kids), prefix) && Lookup(kids, id).Some?
    ensures var child, child' := Lookup(kids, id).value, Lookup(Remove(Ring(kids), rid).0.kids, id);
            child'.Some? ==> child'.value == child || child'.value == Remove(child, rid).0
  {
    if FirstHolder(kids, rid) < |kids| {
      RemoveLookup(kids, rid, id);
    }
  }

  // ----- one operation, and the order of a ring -----

  lemma {:induction false} FindIs(kids: seq<Child>, i: nat)
    requires Distinct(kids) && i < |kids|
    ensures Find(kids, kids[i].id) == i
  {
    LookupAt(kids, i);
  }

  lemma {:induction false} PushPlace(kids: seq<Child>, e: Entry, depth: nat, u: Id)
    requires Distinct(kids) && depth < LEVELS && Find(kids, u) < |kids|
    ensures Find(Push(Ring(kids), e, depth).kids, u) == Find(kids, u)
  {
    var kids' := Push(Ring(kids), e, depth).kids;
    PushLookup(kids, e, depth, u);
    assert kids'[Find(kids, u)].id == u;
    FindIs(kids', Find(kids, u));
  }

  /** Where a child stands after child `i` was taken out of the ring. */
  function AfterDrop(i: nat, k: nat): nat
    requires k != i
  {
    if k < i then k else k - 1
  }

  lemma {:induction false} RemovePlace(kids: seq<Child>, rid: Id, u: Id)
    requires Distinct(kids) && Find(kids, u) < |kids| && Lookup(Remove(Ring(kids), rid).0.kids, u).Some?
    ensures var i := FirstHolder(kids, rid);
            Find(Remove(Ring(kids), rid).0.kids, u)
            == if |Remove(Ring(kids), rid).0.kids| == |kids| || Find(kids, u) == i then Find(kids, u)
               else AfterDrop(i, Find(kids, u))
  {
    var i, k := FirstHolder(kids, rid), Find(kids, u);
    if i < |kids| {
      var kids' := Remove(Ring(kids), rid).0.kids;
      RemoveLookup(kids, rid, u);
      FindIs(kids, i);
      var k' := if |kids'| == |kids| || k < i then k else k - 1;
      assert kids'[k'].id == u;
      FindIs(kids', k');
    }
  }

  /** Where a child stands after child `i` was served. */
  lemma {:induction false} PopPlace(kids: seq<Child>, run: Runnable, u: Id)
    requires Distinct(kids) && FirstRunnable(kids, run) < |kids|
    requires Find(kids, u) < |kids| && Lookup(Pop(Ring(kids), run).0.kids, u).Some?
    ensures var i, k := FirstRunnable(kids, run), Find(kids, u);
            var kids' := Pop(Ring(kids), run).0.kids;
            Find(kids', u) == if k > i then k - i - 1 else if k < i then |kids| - 1 - i + k else |kids| - 1
  {
    var i, k := FirstRunnable(kids, run), Find(kids, u);
    var kids' := Pop(Ring(kids), run).0.kids;
    PopLookup(kids, run, u);
    FindIs(kids, i);
    var k' := if k > i then k - i - 1 else if k < i then |kids| - 1 - i + k else |kids| - 1;
    assert kids'[k'].id == u;
    FindIs(kids', k');
  }

  /** `served` came from below the node at `path`. */
  predicate Below(served: Option<Entry>, path: seq<Id>) {
    served.Some? && |path| < LEVELS && path <= Lane(served.value)
  }

  /** Two children that stay keep their order and nobody falls behind. */
  ghost predicate KeepsOrder(kids: seq<Child>, kids': seq<Child>, u: Id, v: Id) {
    && Find(kids', u) <= Find(kids, u)
    && (Find(kids', u) < Find(kids', v) <==> Find(kids, u) < Find(kids, v))
  }

  /** What one service below a ring does to two of its runnable children: the one served was in
      front of the other and goes behind it; if neither is served, both advance. */
  ghost predicate Rotates(kids: seq<Child>, kids': seq<Child>, w: Id, u: Id, v: Id) {
    if w == u then u != v ==> Find(kids, u) < Find(kids, v) && Find(kids', v) < Find(kids', u)
    else if w == v then Find(kids, v) < Find(kids, u) && Find(kids', u) < Find(kids', v)
    else KeepsOrder(kids, kids', u, v) && Find(kids', u) < Find(kids, u)
  }

  ghost predicate Present(kids: seq<Child>, id: Id) {
    Lookup(kids, id).Some?
  }

  lemma {:induction false} RemoveOrder(kids: seq<Child>, rid: Id, u: Id, v: Id)
    requires Distinct(kids) && Present(kids, u) && Present(kids, v)
    requires Present(Remove(Ring(kids), rid).0.kids, u) && Present(Remove(Ring(kids), rid).0.kids, v)
    ensures KeepsOrder(kids, Remove(Ring(kids), rid).0.kids, u, v)
  {
    RemovePlace(kids, rid, u);
    RemovePlace(kids, rid, v);
    var i := FirstHolder(kids, rid);
    if i < |kids| && |Remove(Ring(kids), rid).0.kids| != |kids| {
      RemoveLookup(kids, rid, u);
      RemoveLookup(kids, rid, v);
      assert kids[Find(kids, u)].id == u && kids[Find(kids, v)].id == v;
    }
  }

  lemma {:induction false} PopOrder(kids: seq<Child>, run: Runnable, u: Id, v: Id)
    requires Distinct(kids) && FirstRunnable(kids, run) < |kids|
    requires Present(kids, u) && HasRunnable(Lookup(kids, u).value, run)
    requires Present(kids, v) && HasRunnable(Lookup(kids, v).value, run)
    requires Present(Pop(Ring(kids), run).0.kids, u) && Present(Pop(Ring(kids), run).0.kids, v)
    ensures Rotates(kids, Pop(Ring(kids), run).0.kids, kids[FirstRunnable(kids, run)].id, u, v)
  {
    var i := FirstRunnable(kids, run);
    PopPlace(kids, run, u);
    PopPlace(kids, run, v);
    FindIs(kids, i);
    assert kids[Find(kids, u)].id == u && kids[Find(kids, v)].id == v;
  }

  lemma {:induction false} RingStep(kids: seq<Child>, kids': seq<Child>, op: Op, served: Option<Entry>, path: seq<Id>, u: Id, v: Id)
    requires WellFormed(Ring(kids), path) && SeenFrom(Ring(kids), Ring(kids'), op, served, path)
    requires served.Some? ==> op.PopOp?
    requires Present(kids, u) && Present(kids', u) && Present(kids, v) && Present(kids', v)
    requires Below(served, path) ==> HasRunnable(Lookup(kids, u).value, op.run) && HasRunnable(Lookup(kids, v).value, op.run)
    ensures if Below(served, path) then Rotates(kids, kids', Lane(served.value)[|path|], u, v)
            else KeepsOrder(kids, kids', u, v)
  {
    if Below(served, path) {
      PopEntry(Ring(kids), op.run, path);
      PopOrder(kids, op.run, u, v);
    } else if kids' != kids {
      match op
      case PushOp(e) =>
        PushPlace(kids, e, |path|, u);
        PushPlace(kids, e, |path|, v);
      case RemoveOp(rid) =>
        RemoveOrder(kids, rid, u, v);
      case PopOp(run) =>
        if FirstRunnable(kids, run) < |kids| { PopEntry(Ring(kids), run, path); }
    }
  }

  // ----- runs -----

  datatype Run = Run(states: seq<Node>, ops: seq<Op>)

  /** Any sequence of operations, from any well-formed queue. */
  ghost predicate IsRun(r: Run) {
    && |r.states| == |r.ops| + 1
    && WellFormed(r.states[0], [])
    && forall i :: 0 <= i < |r.ops| ==> r.states[i + 1] == Step(r.states[i], r.ops[i], 0)
  }

  lemma {:induction false} RunWellFormed(r: Run, i: nat)
    requires IsRun(r) && i < |r.states|
    ensures WellFormed(r.states[i], [])
  {
    if i > 0 {
      RunWellFormed(r, i - 1);
      match r.ops[i - 1]
      case PushOp(e) => PushWellFormed(r.states[i - 1], e, []);
      case PopOp(run) => PopWellFormed(r.states[i - 1], run, []);
      case RemoveOp(rid) => RemoveWellFormed(r.states[i - 1], rid, []);
    }
  }

  ghost function ServedAt(r: Run, i: nat): Option<Entry>
    requires IsRun(r) && i < |r.ops|
  {
    Served(r.states[i], r.ops[i])
  }

  /** The children of the ring at `path`, if there is one. */
  function RingAt(n: Node, path: seq<Id>): Option<seq<Child>> {
    match SubNode(n, path)
    case Some(Ring(kids)) => Some(kids)
    case _ => None
  }

  /** Throughout the run, `id` has something queued at `path`. */
  ghost predicate StaysQueued(r: Run, path: seq<Id>, id: Id) {
    forall i :: 0 <= i < |r.states| ==> RingAt(r.states[i], path).Some? && Present(RingAt(r.states[i], path).value, id)
  }

  /** Whenever an entry below `path` is served, `id` had a runnable head there too. */
  ghost predicate AlwaysRunnable(r: Run, path: seq<Id>, id: Id)
    requires IsRun(r) && StaysQueued(r, path, id)
  {
    forall i :: 0 <= i < |r.ops| && Below(ServedAt(r, i), path) ==>
      r.ops[i].PopOp? && HasRunnable(Lookup(RingAt(r.states[i], path).value, id).value, r.ops[i].run)
  }

  /** How many of the first `i` operations served an entry below `path`. */
  ghost function Services(r: Run, path: seq<Id>, i: nat): nat
    requires IsRun(r) && i <= |r.ops|
  {
    if i == 0 then 0
    else Services(r, path, i - 1) + if ServedAt(r, i - 1).Some? && path <= Lane(ServedAt(r, i - 1).value) then 1 else 0
  }

  /** One operation of a run, seen from the ring at `path`. */
  lemma RunStep(r: Run, i: nat, path: seq<Id>, u: Id, v: Id)
    requires IsRun(r) && i < |r.ops|
    requires StaysQueued(r, path, u) && AlwaysRunnable(r, path, u)
    requires StaysQueued(r, path, v) && AlwaysRunnable(r, path, v)
    ensures var kids, kids' := RingAt(r.states[i], path).value, RingAt(r.states[i + 1], path).value;
            if Below(ServedAt(r, i), path) then Rotates(kids, kids', Lane(ServedAt(r, i).value)[|path|], u, v)
            else KeepsOrder(kids, kids', u, v)
  {
    RunWellFormed(r, i);
    SubNodeWellFormed(r.states[i], [], path);
    assert RingAt(r.states[i], path).Some? && RingAt(r.states[i + 1], path).Some?;
    StepBelow(r.states[i], [], r.ops[i], path);
    assert [] + path == path;
    RingStep(RingAt(r.states[i], path).value, RingAt(r.states[i + 1], path).value, r.ops[i], ServedAt(r, i), path, u, v);
  }

  /** A service below `path` goes to exactly one child. */
  lemma ServiceSplits(served: Option<Entry>, path: seq<Id>, id: Id)
    requires |path| < LEVELS && served.Some?
    ensures path + [id] <= Lane(served.value) <==> path <= Lane(served.value) && Lane(served.value)[|path|] == id
  {
  }

  lemma PathIsShort(r: Run, path: seq<Id>, u: Id)
    requires IsRun(r) && StaysQueued(r, path, u)
    ensures |path| < LEVELS
  {
    SubNodeWellFormed(r.states[0], [], path);
    assert [] + path == path;
    assert RingAt(r.states[0], path).Some?;
  }

  /** No starvation: while a child stays queued and runnable, every service below its ring that
      goes to somebody else brings it one place forward. */
  lemma {:induction false} NoStarvation(r: Run, path: seq<Id>, u: Id, i: nat)
    requires IsRun(r) && i <= |r.ops| && StaysQueued(r, path, u) && AlwaysRunnable(r, path, u)
    requires Services(r, path + [u], i) == 0
    ensures Services(r, path, i) + Find(RingAt(r.states[i], path).value, u) <= Find(RingAt(r.states[0], path).value, u)
  {
    if i > 0 {
      NoStarvation(r, path, u, i - 1);
      RunStep(r, i - 1, path, u, u);
      PathIsShort(r, path, u);
      if ServedAt(r, i - 1).Some? { ServiceSplits(ServedAt(r, i - 1), path, u); }
    }
  }

  // ----- the same without staying queued -----

  /** `id` has something queued at `path`. */
  ghost predicate Queued(n: Node, path: seq<Id>, id: Id) {
    RingAt(n, path).Some? && Present(RingAt(n, path).value, id)
  }

  /** Whenever an entry below `path` is served, `id` has a runnable head there; between services it
      may leave and come back. */
  ghost predicate RunnableWhenServed(r: Run, path: seq<Id>, id: Id)
    requires IsRun(r)
  {
    forall i :: 0 <= i < |r.ops| && Below(ServedAt(r, i), path) ==>
      r.ops[i].PopOp? && Queued(r.states[i], path, id)
      && HasRunnable(Lookup(RingAt(r.states[i], path).value, id).value, r.ops[i].run)
  }

  /** Where `id` stands, or stood when it left. */
  ghost function Place(r: Run, path: seq<Id>, id: Id, i: nat): nat
    requires i < |r.states|
  {
    if Queued(r.states[i], path, id) then Find(RingAt(r.states[i], path).value, id)
    else if i == 0 then 0
    else Place(r, path, id, i - 1)
  }

  /** The places `id` lost in the first `i` operations. */
  ghost function Lost(r: Run, path: seq<Id>, id: Id, i: nat): nat
    requires i < |r.states|
  {
    if i == 0 then 0 else
      var (before, after) := (Place(r, path, id, i - 1), Place(r, path, id, i));
      Lost(r, path, id, i - 1) + if after > before then after - before else 0
  }

  lemma {:induction false} SomethingBelow(n: Node, path: seq<Id>)
    requires SubNode(n, path).Some? && !IsEmpty(SubNode(n, path).value)
    ensures !IsEmpty(n)
  {
  }

  /** A pop that serves from below a child pops that child. */
  lemma {:induction false} PopFollows(kids: seq<Child>, prefix: seq<Id>, run: Runnable, id: Id)
    requires WellFormed(Ring(kids), prefix) && Lookup(kids, id).Some?
    requires Pop(Ring(kids), run).1.Some? && prefix + [id] <= Lane(Pop(Ring(kids), run).1.value)
    ensures var child := Lookup(kids, id).value;
            && WellFormed(child, prefix + [id])
            && Pop(child, run).1 == Pop(Ring(kids), run).1
            && (!IsEmpty(Pop(child, run).0) ==> Lookup(Pop(Ring(kids), run).0.kids, id) == Some(Pop(child, run).0))
  {
    var i := FirstRunnable(kids, run);
    PopEntry(Ring(kids), run, prefix);
    assert id == (prefix + [id])[|prefix|] == kids[i].id;
    PopLookup(kids, run, id);
    LookupWellFormed(kids, prefix, id);
  }

  lemma {:induction false} OneDown(kids: seq<Child>, path: seq<Id>, child: Node)
    requires path != [] && Lookup(kids, path[0]) == Some(child)
    ensures SubNode(Ring(kids), path) == SubNode(child, path[1..])
  {
  }

  /** The node is still there, popped, unless that has emptied it. */
  ghost predicate LeftPopped(n: Node, run: Runnable, path: seq<Id>, m: Node) {
    && Pop(m, run).1 == Pop(n, run).1
    && (!IsEmpty(Pop(m, run).0) ==> SubNode(Pop(n, run).0, path) == Some(Pop(m, run).0))
  }

  lemma {:induction false} LeftOneUp(kids: seq<Child>, prefix: seq<Id>, run: Runnable, path: seq<Id>, child: Node, m: Node)
    requires WellFormed(Ring(kids), prefix) && path != [] && Lookup(kids, path[0]) == Some(child)
    requires Pop(Ring(kids), run).1.Some? && prefix + [path[0]] <= Lane(Pop(Ring(kids), run).1.value)
    requires LeftPopped(child, run, path[1..], m)
    ensures LeftPopped(Ring(kids), run, path, m)
  {
    PopFollows(kids, prefix, run, path[0]);
    if !IsEmpty(Pop(m, run).0) {
      SomethingBelow(Pop(child, run).0, path[1..]);
      OneDown(Pop(Ring(kids), run).0.kids, path, Pop(child, run).0);
    }
  }

  /** A pop that serves from below a node and does not empty it leaves it in place, popped. */
  lemma {:induction false} PopReaches(n: Node, prefix: seq<Id>, run: Runnable, path: seq<Id>)
    requires WellFormed(n, prefix) && SubNode(n, path).Some?
    requires Pop(n, run).1.Some? && prefix + path <= Lane(Pop(n, run).1.value)
    ensures LeftPopped(n, run, path, SubNode(n, path).value)
    decreases path
  {
    if path != [] {
      var id, child := path[0], Lookup(n.kids, path[0]).value;
      OneLonger(prefix, path);
      PopFollows(n.kids, prefix, run, id);
      PopReaches(child, prefix + [id], run, path[1..]);
      LeftOneUp(n.kids, prefix, run, path, child, SubNode(n, path).value);
    }
  }

  /** A service that goes to a sibling leaves `id` in the ring, at least one place further on. */
  lemma {:induction false} ServiceAdvances(kids: seq<Child>, run: Runnable, path: seq<Id>, id: Id)
    requires WellFormed(Ring(kids), path) && Pop(Ring(kids), run).1.Some?
    requires Present(kids, id) && HasRunnable(Lookup(kids, id).value, run)
    requires Lane(Pop(Ring(kids), run).1.value)[|path|] != id
    ensures var kids' := Pop(Ring(kids), run).0.kids;
            Present(kids', id) && kids' != [] && Find(kids', id) < Find(kids, id)
  {
    PopEntry(Ring(kids), run, path);
    PopLookup(kids, run, id);
    PopOrder(kids, run, id, id);
  }

  lemma {:induction false} RingPopped(n: Node, kids: seq<Child>, run: Runnable, path: seq<Id>)
    requires SubNode(n, path) == Some(Ring(kids)) && LeftPopped(n, run, path, Ring(kids))
    requires Pop(Ring(kids), run).0.kids != []
    ensures RingAt(Pop(n, run).0, path) == Some(Pop(Ring(kids), run).0.kids)
  {
  }

  lemma {:induction false} DeepServiceAdvances(n: Node, run: Runnable, path: seq<Id>, id: Id, kids: seq<Child>)
    requires WellFormed(n, []) && SubNode(n, path) == Some(Ring(kids))
    requires Present(kids, id) && HasRunnable(Lookup(kids, id).value, run)
    requires Pop(n, run).1.Some? && |path| < LEVELS && path <= Lane(Pop(n, run).1.value)
    requires Lane(Pop(n, run).1.value)[|path|] != id
    ensures Queued(Pop(n, run).0, path, id)
    ensures Find(RingAt(Pop(n, run).0, path).value, id) < Find(kids, id)
  {
    assert [] + path == path;
    SubNodeWellFormed(n, [], path);
    PopReaches(n, [], run, path);
    ServiceAdvances(kids, run, path, id);
    RingPopped(n, kids, run, path);
  }

  lemma {:induction false} RunServiceAdvances(r: Run, path: seq<Id>, id: Id, i: nat)
    requires IsRun(r) && i < |r.ops| && RunnableWhenServed(r, path, id)
    requires Below(ServedAt(r, i), path) && Lane(ServedAt(r, i).value)[|path|] != id
    ensures Queued(r.states[i], path, id) && Queued(r.states[i + 1], path, id)
    ensures Find(RingAt(r.states[i + 1], path).value, id) < Find(RingAt(r.states[i], path).value, id)
  {
    RunWellFormed(r, i);
    DeepServiceAdvances(r.states[i], r.ops[i].run, path, id, RingAt(r.states[i], path).value);
  }

  /** While `id` stays, no operation but its own service costs it a place. */
  lemma {:induction false} NothingLostWhileQueued(r: Run, path: seq<Id>, id: Id, i: nat)
    requires IsRun(r) && i < |r.ops| && RunnableWhenServed(r, path, id)
    requires Queued(r.states[i], path, id) && Queued(r.states[i + 1], path, id)
    requires !(Below(ServedAt(r, i), path) && Lane(ServedAt(r, i).value)[|path|] == id)
    ensures Lost(r, path, id, i + 1) == Lost(r, path, id, i)
  {
    RunWellFormed(r, i);
    SubNodeWellFormed(r.states[i], [], path);
    StepBelow(r.states[i], [], r.ops[i], path);
    assert [] + path == path;
    RingStep(RingAt(r.states[i], path).value, RingAt(r.states[i + 1], path).value, r.ops[i], ServedAt(r, i), path, id, id);
  }

  /** However often a child leaves and comes back: as long as it is runnable whenever its ring is
      served, at most as many services go to others as it had places in front of it, and lost. */
  lemma {:induction false} ServicesAccounted(r: Run, path: seq<Id>, id: Id, i: nat)
    requires IsRun(r) && i <= |r.ops| && |path| < LEVELS && RunnableWhenServed(r, path, id)
    requires Services(r, path + [id], i) == 0
    ensures Services(r, path, i) + Place(r, path, id, i) <= Place(r, path, id, 0) + Lost(r, path, id, i)
  {
    if i > 0 {
      ServicesAccounted(r, path, id, i - 1);
      var served := ServedAt(r, i - 1);
      if served.Some? {
        ServiceSplits(served, path, id);
        if Below(served, path) { RunServiceAdvances(r, path, id, i - 1); }
      }
    }
  }

  ghost function Ahead(r: Run, path: seq<Id>, i: nat, u: Id, v: Id): int
    requires IsRun(r) && i < |r.states| && StaysQueued(r, path, u)
  {
    if Find(RingAt(r.states[i], path).value, u) < Find(RingAt(r.states[i], path).value, v) then 1 else 0
  }

  /** Strict alternation: of two children that stay queued and runnable, the difference of the
      services they received is exactly the change in which of them stands ahead. */
  lemma {:induction false} Alternation(r: Run, path: seq<Id>, u: Id, v: Id, i: nat)
    requires IsRun(r) && i <= |r.ops| && u != v
    requires StaysQueued(r, path, u) && AlwaysRunnable(r, path, u)
    requires StaysQueued(r, path, v) && AlwaysRunnable(r, path, v)
    ensures Services(r, path + [u], i) - Services(r, path + [v], i) == Ahead(r, path, 0, u, v) - Ahead(r, path, i, u, v)
  {
    if i > 0 {
      Alternation(r, path, u, v, i - 1);
      RunStep(r, i - 1, path, u, v);
      PathIsShort(r, path, u);
      if ServedAt(r, i - 1).Some? {
        ServiceSplits(ServedAt(r, i - 1), path, u);
        ServiceSplits(ServedAt(r, i - 1), path, v);
      }
    }
  }

  /** Fair shares: over any stretch of any run, two children of one ring that stay queued and
      runnable are served equally often, give or take one. */
  lemma {:induction false} FairShares(r: Run, path: seq<Id>, u: Id, v: Id)
    requires IsRun(r)
    requires StaysQueued(r, path, u) && AlwaysRunnable(r, path, u)
    requires StaysQueued(r, path, v) && AlwaysRunnable(r, path, v)
    ensures -1 <= Services(r, path + [u], |r.ops|) - Services(r, path + [v], |r.ops|) <= 1
  {
    if u != v { Alternation(r, path, u, v, |r.ops|); }
  }

  // ----- why the child has to stay queued -----

  /** A user with one key, session and agent. */
  function Solo(entries: seq<Entry>): Node {
    Ring([Child("k", Ring([Child("s", Ring([Child("g", Fifo(entries))]))]))])
  }

  function Of(user: Id, requestId: Id): Entry {
    Entry(requestId, user, "k", "s", "g", 0)
  }

  lemma {:induction false} PopFirst(first: Child, rest: seq<Child>, run: Runnable)
    requires HasRunnable(first.node, run)
    ensures HasRunnable(Ring([first] + rest), run)
    ensures var (served, e) := Pop(first.node, run);
            Pop(Ring([first] + rest), run) == (Ring(rest + Kept(first.id, served)), e)
  {
    var kids := [first] + rest;
    assert kids[0] == first && FirstRunnable(kids, run) == 0;
    assert kids[1..] + kids[..0] == rest;
  }

  lemma {:induction false} PopOnly(only: Child, run: Runnable)
    requires HasRunnable(only.node, run) && !IsEmpty(Pop(only.node, run).0)
    ensures HasRunnable(Ring([only]), run)
    ensures var (served, e) := Pop(only.node, run);
            Pop(Ring([only]), run) == (Ring([Child(only.id, served)]), e)
  {
    PopFirst(only, [], run);
    assert [only] + [] == [only];
    assert [] + Kept(only.id, Pop(only.node, run).0) == [Child(only.id, Pop(only.node, run).0)];
  }

  lemma {:induction false} PopSolo(entries: seq<Entry>, run: Runnable)
    requires |entries| >= 2 && run(entries[0])
    ensures HasRunnable(Solo(entries), run) && Pop(Solo(entries), run) == (Solo(entries[1..]), Some(entries[0]))
  {
    PopOnly(Child("g", Fifo(entries)), run);
    PopOnly(Child("s", Ring([Child("g", Fifo(entries))])), run);
    PopOnly(Child("k", Ring([Child("s", Ring([Child("g", Fifo(entries))]))])), run);
  }

  lemma {:induction false} RemoveFirst(first: Child, rest: seq<Child>, rid: Id)
    requires Contains(first.node, rid)
    ensures Contains(Ring([first] + rest), rid)
    ensures var (left, e) := Remove(first.node, rid);
            Remove(Ring([first] + rest), rid) == (Ring(Kept(first.id, left) + rest), e)
  {
    var kids := [first] + rest;
    assert kids[0] == first && FirstHolder(kids, rid) == 0;
    assert kids[..0] + kids[1..] == [] + rest;
    assert forall c: Child :: kids[0 := c] == [c] + rest;
  }

  lemma {:induction false} RemoveOnly(only: Child, rid: Id)
    requires Contains(only.node, rid) && IsEmpty(Remove(only.node, rid).0)
    ensures Contains(Ring([only]), rid) && Remove(Ring([only]), rid) == (Ring([]), Remove(only.node, rid).1)
  {
    RemoveFirst(only, [], rid);
    assert [only] + [] == [only];
  }

  lemma {:induction false} RemoveSolo(e: Entry)
    ensures Contains(Solo([e]), e.requestId) && Remove(Solo([e]), e.requestId) == (Ring([]), Some(e))
  {
    assert Position([e], e.requestId) == 0 && Contains(Fifo([e]), e.requestId);
    RemoveOnly(Child("g", Fifo([e])), e.requestId);
    RemoveOnly(Child("s", Ring([Child("g", Fifo([e]))])), e.requestId);
    RemoveOnly(Child("k", Ring([Child("s", Ring([Child("g", Fifo([e]))]))])), e.requestId);
  }

  lemma {:induction false} PushSolo(user: Id, rid: Id)
    ensures var e := Of(user, rid);
            Push(EmptyNode(1), e, 1) == Solo([e])
  {
    var e := Of(user, rid);
    assert [] + [e] == [e];
    assert forall c: Child :: [] + [c] == [c];
    assert Push(EmptyNode(3), e, 3) == Ring([] + [Child("g", Fifo([e]))]);
    assert Push(EmptyNode(2), e, 2) == Ring([] + [Child("s", Push(EmptyNode(3), e, 3))]);
    assert Push(EmptyNode(1), e, 1) == Ring([] + [Child("k", Push(EmptyNode(2), e, 2))]);
  }

  /** One round of a client that keeps user "b" runnable but takes its entry back and queues another
      one: "a" is served and "b" is behind it again. */
  lemma {:induction false} RequeueLosesPlace(entries: seq<Entry>, b: Id, b': Id, all: Runnable)
    requires |entries| >= 2 && forall e: Entry :: all(e)
    ensures var ka, kb := Child("a", Solo(entries)), Child("b", Solo([Of("b", b)]));
            var (popped, e) := Pop(Ring([ka] + [kb]), all);
            && e == Some(entries[0])
            && popped == Ring([kb] + [Child("a", Solo(entries[1..]))])
            && Push(Remove(popped, b).0, Of("b", b'), 0)
               == Ring([Child("a", Solo(entries[1..]))] + [Child("b", Solo([Of("b", b')]))])
  {
    var ka, kb := Child("a", Solo(entries)), Child("b", Solo([Of("b", b)]));
    var ka' := Child("a", Solo(entries[1..]));
    PopSolo(entries, all);
    PopFirst(ka, [kb], all);
    RemoveSolo(Of("b", b));
    RemoveFirst(kb, [ka'], b);
    assert Kept("b", Ring([])) + [ka'] == [ka'];
    PushSolo("b", b');
    assert [ka'][1..] == [] && Find([ka'], "b") == 1;
    assert Push(Ring([ka']), Of("b", b'), 0) == Ring([ka'] + [Child("b", Solo([Of("b", b')]))]);
  }

  /** Two users: "a" with these entries, then "b" with one. */
  function Two(entries: seq<Entry>, b: Id): Node {
    Ring([Child("a", Solo(entries))] + [Child("b", Solo([Of("b", b)]))])
  }

  /** Between the pop and the removal of a round. */
  function Passed(entries: seq<Entry>, b: Id): Node {
    Ring([Child("b", Solo([Of("b", b)]))] + [Child("a", Solo(entries))])
  }

  /** A run with one more such round. */
  ghost function OneMoreRound(r: Run, rest: seq<Entry>, b: Id, b': Id, all: Runnable): Run {
    Run(r.states + [Passed(rest, b), Remove(Passed(rest, b), b).0, Two(rest, b')],
        r.ops + [PopOp(all), RemoveOp(b), PushOp(Of("b", b'))])
  }

  /** The run of that client: one round per identifier that "b" is queued under next. */
  ghost function Requeue(entries: seq<Entry>, bs: seq<Id>, all: Runnable): Run
    requires 0 < |bs| <= |entries|
  {
    if |bs| == 1 then Run([Two(entries, bs[0])], []) else
      var n := |bs| - 1;
      OneMoreRound(Requeue(entries, bs[..n], all), entries[n..], bs[n - 1], bs[n], all)
  }

  ghost predicate OfA(entries: seq<Entry>) {
    forall i :: 0 <= i < |entries| ==> Lane(entries[i]) == ["a", "k", "s", "g"]
  }

  lemma SoloWellFormed(entries: seq<Entry>, user: Id)
    requires entries != [] && forall i :: 0 <= i < |entries| ==> Lane(entries[i]) == [user, "k", "s", "g"]
    ensures WellFormed(Solo(entries), [user])
  {
    assert [user] + ["k"] + ["s"] + ["g"] == [user, "k", "s", "g"];
    assert WellFormed(Fifo(entries), [user] + ["k"] + ["s"] + ["g"]);
    assert WellFormed(Ring([Child("g", Fifo(entries))]), [user] + ["k"] + ["s"]);
    assert WellFormed(Ring([Child("s", Ring([Child("g", Fifo(entries))]))]), [user] + ["k"]);
  }

  lemma TwoWellFormed(entries: seq<Entry>, b: Id)
    requires entries != [] && OfA(entries)
    ensures WellFormed(Two(entries, b), [])
  {
    SoloWellFormed(entries, "a");
    SoloWellFormed([Of("b", b)], "b");
    assert [] + ["a"] == ["a"] && [] + ["b"] == ["b"] && "a" != "b";
  }

  /** What one round does, in the terms of a run. */
  lemma {:induction false} RequeueRound(entries: seq<Entry>, b: Id, b': Id, all: Runnable)
    requires |entries| >= 2 && forall e: Entry :: all(e)
    ensures Step(Two(entries, b), PopOp(all), 0) == Passed(entries[1..], b)
    ensures Served(Two(entries, b), PopOp(all)) == Some(entries[0])
    ensures Step(Remove(Passed(entries[1..], b), b).0, PushOp(Of("b", b')), 0) == Two(entries[1..], b')
  {
    RequeueLosesPlace(entries, b, b', all);
  }

  /** "b" can be served at the start of a round. */
  lemma {:induction false} RunnableInTwo(entries: seq<Entry>, b: Id, all: Runnable)
    requires all(Of("b", b))
    ensures RingAt(Two(entries, b), []).Some? && Present(RingAt(Two(entries, b), []).value, "b")
    ensures HasRunnable(Lookup(RingAt(Two(entries, b), []).value, "b").value, all)
    ensures Find(RingAt(Two(entries, b), []).value, "b") == 1
  {
    var kids := [Child("a", Solo(entries))] + [Child("b", Solo([Of("b", b)]))];
    FindIs2(kids);
    var fifo := Fifo([Of("b", b)]);
    assert HasRunnable(fifo, all);
    assert HasRunnable(Ring([Child("g", fifo)]), all) by { assert [Child("g", fifo)][0].node == fifo; }
    assert HasRunnable(Ring([Child("s", Ring([Child("g", fifo)]))]), all) by {
      assert [Child("s", Ring([Child("g", fifo)]))][0].node == Ring([Child("g", fifo)]);
    }
    var s := Ring([Child("s", Ring([Child("g", fifo)]))]);
    assert HasRunnable(Ring([Child("k", s)]), all) by { assert [Child("k", s)][0].node == s; }
  }

  lemma {:induction false} FindIs2(kids: seq<Child>)
    requires |kids| == 2 && kids[0].id == "a" && kids[1].id == "b"
    ensures Find(kids, "b") == 1 && Lookup(kids, "b") == Some(kids[1].node)
  {
    assert "a" != "b" && kids[1..][0] == kids[1];
  }

  /** A longer run serves in its first part what the shorter one serves. */
  lemma {:induction false} ServicesPrefix(r: Run, longer: Run, path: seq<Id>, i: nat)
    requires IsRun(r) && IsRun(longer) && r.states <= longer.states && r.ops <= longer.ops && i <= |r.ops|
    ensures Services(longer, path, i) == Services(r, path, i)
    decreases i
  {
    if i > 0 {
      ServicesPrefix(r, longer, path, i - 1);
      assert ServedAt(longer, i - 1) == ServedAt(r, i - 1);
    }
  }

  /** Wherever this run pops, "b" is queued and has a runnable head. */
  ghost predicate BAlwaysRunnable(r: Run) {
    && |r.states| == |r.ops| + 1
    && forall i :: 0 <= i < |r.ops| && r.ops[i].PopOp? ==>
         && RingAt(r.states[i], []).Some? && Present(RingAt(r.states[i], []).value, "b")
         && HasRunnable(Lookup(RingAt(r.states[i], []).value, "b").value, r.ops[i].run)
  }

  /** A run by `n` rounds: what it is after them, and what has been served. */
  ghost predicate Starves(r: Run, entries: seq<Entry>, bs: seq<Id>, all: Runnable) {
    && IsRun(r) && bs != [] && |r.ops| == 3 * (|bs| - 1) && |entries| > |bs| - 1
    && r.states[|r.ops|] == Two(entries[|bs| - 1..], bs[|bs| - 1])
    && BAlwaysRunnable(r)
    && Services(r, ["a"], |r.ops|) == |bs| - 1 && Services(r, ["b"], |r.ops|) == 0
  }

  /** Being runnable at every pop is not enough: for every number of rounds there is a run that
      serves "a" that often and "b" never, although "b", second in the ring at the start, has a
      runnable head whenever something is popped. */
  lemma {:induction false} RequeueStarves(entries: seq<Entry>, bs: seq<Id>, all: Runnable)
    requires bs != [] && |entries| > |bs| && OfA(entries) && forall e: Entry :: all(e)
    ensures Starves(Requeue(entries, bs, all), entries, bs, all)
    ensures Find(RingAt(Requeue(entries, bs, all).states[0], []).value, "b") == 1
    decreases |bs|
  {
    if |bs| == 1 {
      TwoWellFormed(entries, bs[0]);
      RunnableInTwo(entries, bs[0], all);
      assert entries[0..] == entries;
    } else {
      var n := |bs| - 1;
      RequeueStarves(entries, bs[..n], all);
      var r := Requeue(entries, bs[..n], all);
      StarvesOnce(r, entries, bs, all);
      assert OneMoreRound(r, entries[n..], bs[n - 1], bs[n], all).states[0] == r.states[0];
    }
  }

  /** One round more. */
  lemma {:induction false} StarvesOnce(r: Run, entries: seq<Entry>, bs: seq<Id>, all: Runnable)
    requires |bs| >= 2 && |entries| > |bs| && OfA(entries) && forall e: Entry :: all(e)
    requires Starves(r, entries, bs[..|bs| - 1], all)
    ensures Starves(OneMoreRound(r, entries[|bs| - 1..], bs[|bs| - 2], bs[|bs| - 1], all), entries, bs, all)
  {
    var n := |bs| - 1;
    var now := entries[n - 1..];
    assert now[1..] == entries[n..] && now[0] == entries[n - 1] && bs[..n][n - 1] == bs[n - 1];
    assert Lane(entries[n - 1])[0] == "a";
    RoundOnce(r, all, bs[n - 1], bs[n], now);
  }

  lemma {:induction false} RoundOnce(r: Run, all: Runnable, b: Id, b': Id, now: seq<Entry>)
    requires IsRun(r) && BAlwaysRunnable(r) && r.states[|r.ops|] == Two(now, b)
    requires |now| >= 2 && now[0].user == "a" && forall e: Entry :: all(e)
    ensures var longer := OneMoreRound(r, now[1..], b, b', all);
            && IsRun(longer) && BAlwaysRunnable(longer) && longer.states[|longer.ops|] == Two(now[1..], b')
            && Services(longer, ["a"], |longer.ops|) == Services(r, ["a"], |r.ops|) + 1
            && Services(longer, ["b"], |longer.ops|) == Services(r, ["b"], |r.ops|)
  {
    RoundExtends(r, all, b, b', now);
    RoundRunnable(r, all, b, b', now);
    var longer := OneMoreRound(r, now[1..], b, b', all);
    assert longer.states[|r.ops|] == r.states[|r.ops|];
    ServicesPrefix(r, longer, ["a"], |r.ops|);
    ServicesPrefix(r, longer, ["b"], |r.ops|);
    RoundServices(longer, |r.ops|, now, b, all);
  }

  lemma RoundExtends(r: Run, all: Runnable, b: Id, b': Id, now: seq<Entry>)
    requires IsRun(r) && |now| >= 2 && (forall e: Entry :: all(e)) && r.states[|r.ops|] == Two(now, b)
    ensures IsRun(OneMoreRound(r, now[1..], b, b', all))
    ensures OneMoreRound(r, now[1..], b, b', all).states[0] == r.states[0]
  {
    RequeueRound(now, b, b', all);
    var longer, m := OneMoreRound(r, now[1..], b, b', all), |r.ops|;
    RoundStates(r, now[1..], b, b', all);
    forall i | 0 <= i < |longer.ops| ensures longer.states[i + 1] == Step(longer.states[i], longer.ops[i], 0) {
      if i < m { assert r.states[i + 1] == Step(r.states[i], r.ops[i], 0); }
    }
  }

  /** The longer run is the old one and then the three steps of a round. */
  lemma {:induction false} RoundStates(r: Run, rest: seq<Entry>, b: Id, b': Id, all: Runnable)
    requires |r.states| == |r.ops| + 1
    ensures var (longer, m) := (OneMoreRound(r, rest, b, b', all), |r.ops|);
            && |longer.ops| == m + 3 && |longer.states| == m + 4
            && (forall i :: 0 <= i <= m ==> longer.states[i] == r.states[i])
            && (forall i :: 0 <= i < m ==> longer.ops[i] == r.ops[i])
            && longer.states[m + 1] == Passed(rest, b) && longer.ops[m] == PopOp(all)
            && longer.states[m + 2] == Remove(Passed(rest, b), b).0 && longer.ops[m + 1] == RemoveOp(b)
            && longer.states[m + 3] == Two(rest, b') && longer.ops[m + 2] == PushOp(Of("b", b'))
  {
  }

  lemma RoundRunnable(r: Run, all: Runnable, b: Id, b': Id, now: seq<Entry>)
    requires |r.states| == |r.ops| + 1 && BAlwaysRunnable(r) && now != []
    requires (forall e: Entry :: all(e)) && r.states[|r.ops|] == Two(now, b)
    ensures BAlwaysRunnable(OneMoreRound(r, now[1..], b, b', all))
  {
    RunnableInTwo(now, b, all);
    var longer, m := OneMoreRound(r, now[1..], b, b', all), |r.ops|;
    forall i | 0 <= i < |longer.ops| && longer.ops[i].PopOp?
      ensures RingAt(longer.states[i], []).Some? && Present(RingAt(longer.states[i], []).value, "b")
              && HasRunnable(Lookup(RingAt(longer.states[i], []).value, "b").value, longer.ops[i].run)
    {
      if i < m {
        assert longer.states[i] == r.states[i] && longer.ops[i] == r.ops[i];
      } else {
        assert i == m && longer.states[m] == r.states[m];
      }
    }
  }

  /** A round serves "a" once. */
  lemma RoundServices(r: Run, m: nat, now: seq<Entry>, b: Id, all: Runnable)
    requires IsRun(r) && |r.ops| == m + 3 && r.states[m] == Two(now, b) && |now| >= 2 && forall e: Entry :: all(e)
    requires r.ops[m] == PopOp(all) && r.ops[m + 1].RemoveOp? && r.ops[m + 2].PushOp? && now[0].user == "a"
    ensures Services(r, ["a"], m + 3) == Services(r, ["a"], m) + 1 && Services(r, ["b"], m + 3) == Services(r, ["b"], m)
  {
    RequeueRound(now, b, b, all);
    assert ServedAt(r, m) == Some(now[0]) && ServedAt(r, m + 1) == None && ServedAt(r, m + 2) == None;
    assert Lane(now[0])[0] == "a" && "a" != "b";
    forall path: seq<Id> ensures Services(r, path, m + 3) == Services(r, path, m) + if path <= Lane(now[0]) then 1 else 0 {
      assert Services(r, path, m + 1) == Services(r, path, m) + if path <= Lane(now[0]) then 1 else 0;
      assert Services(r, path, m + 2) == Services(r, path, m + 1);
      assert Services(r, path, m + 3) == Services(r, path, m + 2);
    }
    assert ["a"] <= Lane(now[0]) && !(["b"] <= Lane(now[0]));
  }
}
