/** What the fair queue's operations keep and conserve, at every level and for every input. */
module FairQueueLaws {
  import opened Wrappers
  import opened FairQueueSpec

  // ----- children by identifier -----

  lemma {:induction false} LookupAt(kids: seq<Child>, i: nat)
    requires Distinct(kids) && i < |kids|
    ensures Find(kids, kids[i].id) == i
    ensures Lookup(kids, kids[i].id) == Some(kids[i].node)
  {
    assert kids[Find(kids, kids[i].id)].id == kids[i].id;
  }

  /** `id` names child `at`, or nobody. */
  lemma LookupIs(kids: seq<Child>, id: Id, at: nat)
    requires Distinct(kids)
    requires at < |kids| ==> kids[at].id == id
    requires at >= |kids| ==> forall j :: 0 <= j < |kids| ==> kids[j].id != id
    ensures Lookup(kids, id) == if at < |kids| then Some(kids[at].node) else None
  {
    if at < |kids| { LookupAt(kids, at); }
  }

  /** Replacing one child's node touches only that child. */
  lemma LookupUpdate(kids: seq<Child>, i: nat, node: Node, id: Id)
    requires Distinct(kids) && i < |kids|
    ensures Distinct(kids[i := Child(kids[i].id, node)])
    ensures Lookup(kids[i := Child(kids[i].id, node)], id)
         == if id == kids[i].id then Some(node) else Lookup(kids, id)
  {
    LookupAt(kids, i);
    LookupIs(kids[i := Child(kids[i].id, node)], id, Find(kids, id));
  }

  /** Serving child `i` touches only that child, whatever the rotation does to the order. */
  lemma LookupRotate(kids: seq<Child>, i: nat, tail: seq<Child>, id: Id)
    requires Distinct(kids) && i < |kids|
    requires |tail| <= 1 && (tail != [] ==> tail[0].id == kids[i].id)
    ensures Distinct(kids[i + 1..] + kids[..i] + tail)
    ensures Lookup(kids[i + 1..] + kids[..i] + tail, id)
         == if id != kids[i].id then Lookup(kids, id) else if tail == [] then None else Some(tail[0].node)
  {
    var after := kids[i + 1..] + kids[..i] + tail;
    var n := |kids| - i - 1;
    forall a | 0 <= a < |after|
      ensures after[a] == if a < n then kids[i + 1 + a] else if a < n + i then kids[a - n] else tail[0]
    {
    }
    var k := Find(kids, id);
    LookupAt(kids, i);
    LookupIs(after, id, if k < i then n + k else if k == i then n + i else if k < |kids| then k - i - 1 else |kids|);
  }

  /** Dropping child `i` touches only that child. */
  lemma LookupDrop(kids: seq<Child>, i: nat, id: Id)
    requires Distinct(kids) && i < |kids|
    ensures Distinct(kids[..i] + kids[i + 1..])
    ensures Lookup(kids[..i] + kids[i + 1..], id) == if id == kids[i].id then None else Lookup(kids, id)
  {
    var after := kids[..i] + kids[i + 1..];
    assert forall a :: 0 <= a < |after| ==> after[a] == if a < i then kids[a] else kids[a + 1];
    var k := Find(kids, id);
    LookupAt(kids, i);
    LookupIs(after, id, if k < i then k else if k == i then |kids| else k - 1);
  }

  lemma {:induction false} LookupAppend(kids: seq<Child>, c: Child, id: Id)
    requires Distinct(kids) && Find(kids, c.id) == |kids|
    ensures Distinct(kids + [c])
    ensures Lookup(kids + [c], id) == if id == c.id then Some(c.node) else Lookup(kids, id)
  {
    var k := Find(kids, id);
    LookupIs(kids + [c], id, if k < |kids| || id == c.id then k else |kids| + 1);
  }

  /** `kids` with a child called `id`, at the back and empty if it was missing. */
  function Ensured(kids: seq<Child>, id: Id, depth: nat): (r: seq<Child>)
    ensures Find(r, id) < |r|
  {
    if Find(kids, id) < |kids| then kids else
      FindAppended(kids, Child(id, EmptyNode(depth + 1)));
      kids + [Child(id, EmptyNode(depth + 1))]
  }

  lemma {:induction false} FindAppended(kids: seq<Child>, c: Child)
    requires Find(kids, c.id) == |kids|
    ensures Find(kids + [c], c.id) == |kids|
  {
    if kids != [] {
      FindAppended(kids[1..], c);
      assert (kids + [c])[1..] == kids[1..] + [c];
    }
  }

  /** Making sure the child exists and then pushing into it is the whole push. */
  lemma {:induction false} PushInTwoSteps(kids: seq<Child>, e: Entry, depth: nat)
    requires depth < LEVELS
    ensures var id := Lane(e)[depth];
            var ensured := Ensured(kids, id, depth);
            var i := Find(ensured, id);
            Push(Ring(kids), e, depth) == Ring(ensured[i := Child(id, Push(ensured[i].node, e, depth + 1))])
  {
    var id := Lane(e)[depth];
    if Find(kids, id) == |kids| {
      FindAppended(kids, Child(id, EmptyNode(depth + 1)));
    }
  }

  lemma {:induction false} PushLookup(kids: seq<Child>, e: Entry, d: nat, id: Id)
    requires Distinct(kids) && d < LEVELS
    ensures Distinct(Push(Ring(kids), e, d).kids)
    ensures var own := Lane(e)[d];
            var child := if Lookup(kids, own).Some? then Lookup(kids, own).value else EmptyNode(d + 1);
            Lookup(Push(Ring(kids), e, d).kids, id)
            == if id == own then Some(Push(child, e, d + 1)) else Lookup(kids, id)
  {
    var own := Lane(e)[d];
    var i := Find(kids, own);
    if i < |kids| {
      LookupUpdate(kids, i, Push(kids[i].node, e, d + 1), id);
    } else {
      LookupAppend(kids, Child(own, Push(EmptyNode(d + 1), e, d + 1)), id);
    }
  }

  /** The child that was served is the one that changes. */
  lemma {:induction false} PopLookup(kids: seq<Child>, run: Runnable, id: Id)
    requires Distinct(kids) && FirstRunnable(kids, run) < |kids|
    ensures Distinct(Pop(Ring(kids), run).0.kids)
    ensures var i := FirstRunnable(kids, run);
            var served := Pop(kids[i].node, run).0;
            && Lookup(kids, kids[i].id) == Some(kids[i].node)
            && Lookup(Pop(Ring(kids), run).0.kids, id)
               == if id != kids[i].id then Lookup(kids, id) else if IsEmpty(served) then None else Some(served)
  {
    var i := FirstRunnable(kids, run);
    var served := Pop(kids[i].node, run).0;
    LookupRotate(kids, i, Kept(kids[i].id, served), id);
    LookupAt(kids, i);
  }

  lemma {:induction false} RemoveLookup(kids: seq<Child>, rid: Id, id: Id)
    requires Distinct(kids) && FirstHolder(kids, rid) < |kids|
    ensures Distinct(Remove(Ring(kids), rid).0.kids)
    ensures var i := FirstHolder(kids, rid);
            var rest := Remove(kids[i].node, rid).0;
            && Lookup(kids, kids[i].id) == Some(kids[i].node)
            && Lookup(Remove(Ring(kids), rid).0.kids, id)
               == if id != kids[i].id then Lookup(kids, id) else if IsEmpty(rest) then None else Some(rest)
  {
    var i := FirstHolder(kids, rid);
    var rest := Remove(kids[i].node, rid).0;
    if IsEmpty(rest) { LookupDrop(kids, i, id); } else { LookupUpdate(kids, i, rest, id); }
    LookupAt(kids, i);
  }

  // ----- the invariant is kept -----

  /** A child that may hang below `prefix` under the name `id`. */
  ghost predicate GoodChild(c: Option<Node>, prefix: seq<Id>, id: Id) {
    c.Some? ==> !IsEmpty(c.value) && WellFormed(c.value, prefix + [id])
  }

  lemma {:induction false} LookupWellFormed(kids: seq<Child>, prefix: seq<Id>, id: Id)
    requires WellFormed(Ring(kids), prefix)
    ensures GoodChild(Lookup(kids, id), prefix, id)
  {
  }

  /** A ring is well formed when its children are distinct and each one looked up is good. */
  lemma {:induction false} WellFormedByLookup(kids: seq<Child>, prefix: seq<Id>)
    requires |prefix| < LEVELS && Distinct(kids)
    requires forall id :: GoodChild(Lookup(kids, id), prefix, id)
    ensures WellFormed(Ring(kids), prefix)
  {
    forall i | 0 <= i < |kids|
      ensures !IsEmpty(kids[i].node) && WellFormed(kids[i].node, prefix + [kids[i].id])
    {
      LookupAt(kids, i);
      assert GoodChild(Lookup(kids, kids[i].id), prefix, kids[i].id);
    }
  }

  lemma {:induction false} PushNonEmpty(n: Node, e: Entry, depth: nat)
    requires depth <= LEVELS && (n.Ring? ==> depth < LEVELS)
    ensures !IsEmpty(Push(n, e, depth))
  {
  }

  lemma {:induction false} PushWellFormed(n: Node, e: Entry, prefix: seq<Id>)
    requires WellFormed(n, prefix) && prefix <= Lane(e)
    ensures WellFormed(Push(n, e, |prefix|), prefix)
    decreases LEVELS - |prefix|
  {
    match n
    case Fifo(entries) =>
    case Ring(kids) =>
      var own := Lane(e)[|prefix|];
      var child := if Lookup(kids, own).Some? then Lookup(kids, own).value else EmptyNode(|prefix| + 1);
      LookupWellFormed(kids, prefix, own);
      PushWellFormed(child, e, prefix + [own]);
      PushNonEmpty(child, e, |prefix| + 1);
      forall id
        ensures GoodChild(Lookup(Push(n, e, |prefix|).kids, id), prefix, id)
      {
        PushLookup(kids, e, |prefix|, id);
        LookupWellFormed(kids, prefix, id);
      }
      PushLookup(kids, e, |prefix|, own);
      WellFormedByLookup(Push(n, e, |prefix|).kids, prefix);
  }

  lemma {:induction false} PopWellFormed(n: Node, run: Runnable, prefix: seq<Id>)
    requires WellFormed(n, prefix)
    ensures WellFormed(Pop(n, run).0, prefix)
    decreases n
  {
    match n
    case Fifo(entries) =>
    case Ring(kids) =>
      var i := FirstRunnable(kids, run);
      if i < |kids| {
        PopWellFormed(kids[i].node, run, prefix + [kids[i].id]);
        forall id
          ensures GoodChild(Lookup(Pop(n, run).0.kids, id), prefix, id)
        {
          PopLookup(kids, run, id);
          LookupWellFormed(kids, prefix, id);
        }
        PopLookup(kids, run, kids[i].id);
        WellFormedByLookup(Pop(n, run).0.kids, prefix);
      }
  }

  lemma {:induction false} RemoveWellFormed(n: Node, rid: Id, prefix: seq<Id>)
    requires WellFormed(n, prefix)
    ensures WellFormed(Remove(n, rid).0, prefix)
    decreases n
  {
    match n
    case Fifo(entries) =>
    case Ring(kids) =>
      var i := FirstHolder(kids, rid);
      if i < |kids| {
        RemoveWellFormed(kids[i].node, rid, prefix + [kids[i].id]);
        forall id
          ensures GoodChild(Lookup(Remove(n, rid).0.kids, id), prefix, id)
        {
          RemoveLookup(kids, rid, id);
          LookupWellFormed(kids, prefix, id);
        }
        RemoveLookup(kids, rid, kids[i].id);
        WellFormedByLookup(Remove(n, rid).0.kids, prefix);
      }
  }

  // ----- lanes are FIFO queues, independent of each other -----

  lemma {:induction false} ContentsOfRing(kids: seq<Child>, path: seq<Id>)
    requires path != []
    ensures Contents(Ring(kids), path)
         == match Lookup(kids, path[0]) case None => [] case Some(c) => Contents(c, path[1..])
  {
  }

  lemma {:induction false} ContentsOfEmpty(n: Node, path: seq<Id>)
    requires IsEmpty(n)
    ensures Contents(n, path) == []
  {
  }

  /** What a pop serves was allowed to run and was filed below this node. */
  lemma {:induction false} PopEntry(n: Node, run: Runnable, prefix: seq<Id>)
    requires WellFormed(n, prefix) && Pop(n, run).1.Some?
    ensures run(Pop(n, run).1.value) && prefix <= Lane(Pop(n, run).1.value)
    ensures n.Ring? ==> prefix + [n.kids[FirstRunnable(n.kids, run)].id] <= Lane(Pop(n, run).1.value)
    decreases n
  {
    match n
    case Fifo(entries) =>
    case Ring(kids) =>
      var i := FirstRunnable(kids, run);
      PopEntry(kids[i].node, run, prefix + [kids[i].id]);
  }

  /** `path` is the rest of the lane of `e` below depth `d`. */
  predicate LeadsTo(path: seq<Id>, e: Entry, d: nat) {
    d <= LEVELS && path == Lane(e)[d..]
  }

  lemma LeadsToStep(path: seq<Id>, e: Entry, d: nat)
    requires d < LEVELS && |path| == LEVELS - d
    ensures LeadsTo(path, e, d) <==> path[0] == Lane(e)[d] && LeadsTo(path[1..], e, d + 1)
  {
    assert path == [path[0]] + path[1..];
    assert Lane(e)[d..] == [Lane(e)[d]] + Lane(e)[d + 1..];
  }

  /** The node an entry is filed in, one level down. */
  function Below(kids: seq<Child>, e: Entry, d: nat): Node
    requires d < LEVELS
  {
    var found := Lookup(kids, Lane(e)[d]);
    if found.Some? then found.value else EmptyNode(d + 1)
  }

  lemma {:induction false} BelowWellFormed(kids: seq<Child>, e: Entry, prefix: seq<Id>)
    requires WellFormed(Ring(kids), prefix) && prefix <= Lane(e) && |prefix| < LEVELS
    ensures WellFormed(Below(kids, e, |prefix|), prefix + [Lane(e)[|prefix|]])
    ensures prefix + [Lane(e)[|prefix|]] <= Lane(e)
  {
  }

  lemma {:induction false} ContentsBelow(kids: seq<Child>, e: Entry, d: nat, path: seq<Id>)
    requires Distinct(kids) && d < LEVELS && path != []
    ensures Contents(Push(Ring(kids), e, d), path)
         == if path[0] == Lane(e)[d] then Contents(Push(Below(kids, e, d), e, d + 1), path[1..]) else Contents(Ring(kids), path)
    ensures path[0] == Lane(e)[d] ==> Contents(Ring(kids), path) == Contents(Below(kids, e, d), path[1..])
  {
    PushLookup(kids, e, d, path[0]);
    ContentsOfRing(kids, path);
    ContentsOfRing(Push(Ring(kids), e, d).kids, path);
    ContentsOfEmpty(EmptyNode(d + 1), path[1..]);
  }

  /** Push appends to the entry's own lane and leaves every other lane alone. */
  lemma {:induction false} PushContents(n: Node, e: Entry, prefix: seq<Id>, path: seq<Id>)
    requires WellFormed(n, prefix) && prefix <= Lane(e) && |prefix| + |path| == LEVELS
    ensures Contents(Push(n, e, |prefix|), path)
         == Contents(n, path) + if LeadsTo(path, e, |prefix|) then [e] else []
    decreases LEVELS - |prefix|
  {
    match n
    case Fifo(entries) =>
    case Ring(kids) =>
      var own := Lane(e)[|prefix|];
      LeadsToStep(path, e, |prefix|);
      ContentsBelow(kids, e, |prefix|, path);
      if path[0] == own {
        BelowWellFormed(kids, e, prefix);
        PushContents(Below(kids, e, |prefix|), e, prefix + [own], path[1..]);
      }
  }

  /** A successful pop takes the head of the popped entry's own lane and leaves every other lane
      alone. */
  lemma {:induction false} PopContents(n: Node, run: Runnable, prefix: seq<Id>, path: seq<Id>)
    requires WellFormed(n, prefix) && Pop(n, run).1.Some? && |prefix| + |path| == LEVELS
    ensures var (after, e) := Pop(n, run);
            Contents(n, path)
            == (if LeadsTo(path, e.value, |prefix|) then [e.value] else []) + Contents(after, path)
    decreases n
  {
    match n
    case Fifo(entries) =>
    case Ring(kids) =>
      var i := FirstRunnable(kids, run);
      var (served, e) := Pop(kids[i].node, run);
      PopEntry(n, run, prefix);
      assert Lane(e.value)[|prefix|] == kids[i].id;
      LeadsToStep(path, e.value, |prefix|);
      PopLookup(kids, run, path[0]);
      ContentsOfRing(kids, path);
      ContentsOfRing(Pop(n, run).0.kids, path);
      if path[0] == kids[i].id {
        PopContents(kids[i].node, run, prefix + [kids[i].id], path[1..]);
        if IsEmpty(served) { ContentsOfEmpty(served, path[1..]); }
      }
  }

  lemma {:induction false} RemoveEntry(n: Node, rid: Id, prefix: seq<Id>)
    requires WellFormed(n, prefix) && Remove(n, rid).1.Some?
    ensures Remove(n, rid).1.value.requestId == rid && prefix <= Lane(Remove(n, rid).1.value)
    ensures n.Ring? ==> prefix + [n.kids[FirstHolder(n.kids, rid)].id] <= Lane(Remove(n, rid).1.value)
    decreases n
  {
    match n
    case Fifo(entries) =>
    case Ring(kids) =>
      var i := FirstHolder(kids, rid);
      RemoveEntry(kids[i].node, rid, prefix + [kids[i].id]);
  }

  /** `after` is `before` without its first entry of request `rid`, which is `e`. */
  predicate TakenOut(before: seq<Entry>, after: seq<Entry>, rid: Id, e: Entry) {
    var i := Position(before, rid);
    i < |before| && before[i] == e && after == before[..i] + before[i + 1..]
  }

  /** A successful removal takes the first entry with that request id out of one lane, keeping the
      order of the rest, and leaves every other lane alone. */
  lemma {:induction false} RemoveContents(n: Node, rid: Id, prefix: seq<Id>, path: seq<Id>)
    requires WellFormed(n, prefix) && Remove(n, rid).1.Some? && |prefix| + |path| == LEVELS
    ensures var (rest, e) := Remove(n, rid);
            if LeadsTo(path, e.value, |prefix|) then TakenOut(Contents(n, path), Contents(rest, path), rid, e.value)
            else Contents(rest, path) == Contents(n, path)
    decreases n
  {
    match n
    case Fifo(entries) =>
    case Ring(kids) =>
      var i := FirstHolder(kids, rid);
      var (rest, e) := Remove(kids[i].node, rid);
      RemoveEntry(n, rid, prefix);
      assert Lane(e.value)[|prefix|] == kids[i].id;
      LeadsToStep(path, e.value, |prefix|);
      RemoveLookup(kids, rid, path[0]);
      ContentsOfRing(kids, path);
      ContentsOfRing(Remove(n, rid).0.kids, path);
      if path[0] == kids[i].id {
        RemoveContents(kids[i].node, rid, prefix + [kids[i].id], path[1..]);
        if IsEmpty(rest) { ContentsOfEmpty(rest, path[1..]); }
      }
  }

  ghost predicate Holds(lane: seq<Entry>, rid: Id) {
    exists j :: 0 <= j < |lane| && lane[j].requestId == rid
  }

  /** `Remove` finds a request exactly when some lane holds it: one direction. */
  lemma {:induction false} HeldInSomeLane(n: Node, rid: Id, prefix: seq<Id>) returns (path: seq<Id>)
    requires WellFormed(n, prefix) && Contains(n, rid)
    ensures |prefix| + |path| == LEVELS && Holds(Contents(n, path), rid)
    decreases n
  {
    match n
    case Fifo(entries) =>
      path := [];
    case Ring(kids) =>
      var i := FirstHolder(kids, rid);
      var rest := HeldInSomeLane(kids[i].node, rid, prefix + [kids[i].id]);
      LookupAt(kids, i);
      path := [kids[i].id] + rest;
      ContentsOfRing(kids, path);
      assert path[1..] == rest;
  }

  /** ... and the other. */
  lemma {:induction false} HeldInLane(n: Node, rid: Id, path: seq<Id>)
    requires Holds(Contents(n, path), rid)
    ensures Contains(n, rid)
    decreases n
  {
    match n
    case Fifo(entries) =>
    case Ring(kids) =>
      var i := Find(kids, path[0]);
      HeldInLane(kids[i].node, rid, path[1..]);
  }

  // ----- counting -----

  lemma {:induction false} SizeOfConcat(a: seq<Child>, b: seq<Child>)
    ensures SizeOf(a + b) == SizeOf(a) + SizeOf(b)
  {
    if a == [] {
      assert a + b == b;
    } else {
      assert (a + b)[1..] == a[1..] + b;
      SizeOfConcat(a[1..], b);
    }
  }

  lemma {:induction false} SizeOfSplit(kids: seq<Child>, i: nat)
    requires i < |kids|
    ensures SizeOf(kids) == SizeOf(kids[..i]) + Size(kids[i].node) + SizeOf(kids[i + 1..])
  {
    SizeOfConcat(kids[..i], kids[i..]);
    assert kids == kids[..i] + kids[i..];
    assert kids[i..][1..] == kids[i + 1..];
  }

  lemma SizeOfReplace(kids: seq<Child>, i: nat, c: Child)
    requires i < |kids|
    ensures SizeOf(kids[i := c]) == SizeOf(kids) - Size(kids[i].node) + Size(c.node)
  {
    SizeOfSplit(kids, i);
    SizeOfSplit(kids[i := c], i);
    assert kids[i := c][..i] == kids[..i] && kids[i := c][i + 1..] == kids[i + 1..];
  }

  lemma SizeOfSingle(c: Child)
    ensures SizeOf([c]) == Size(c.node)
  {
    assert [c][1..] == [];
  }

  /** A well-formed node is empty exactly when nothing is queued below it. */
  lemma {:induction false} SizeZero(n: Node, prefix: seq<Id>)
    requires WellFormed(n, prefix)
    ensures Size(n) == 0 <==> IsEmpty(n)
    decreases n
  {
    match n
    case Fifo(entries) =>
    case Ring(kids) =>
      if kids != [] {
        SizeZero(kids[0].node, prefix + [kids[0].id]);
      }
  }

  lemma {:induction false} PushSize(n: Node, e: Entry, prefix: seq<Id>)
    requires WellFormed(n, prefix) && prefix <= Lane(e)
    ensures Size(Push(n, e, |prefix|)) == Size(n) + 1
    decreases LEVELS - |prefix|
  {
    match n
    case Fifo(entries) =>
    case Ring(kids) =>
      var id := Lane(e)[|prefix|];
      var i := Find(kids, id);
      var child := if i < |kids| then kids[i].node else EmptyNode(|prefix| + 1);
      PushSize(child, e, prefix + [id]);
      var c := Child(id, Push(child, e, |prefix| + 1));
      if i < |kids| {
        SizeOfReplace(kids, i, c);
      } else {
        SizeOfConcat(kids, [c]);
        SizeOfSingle(c);
      }
  }

  lemma {:induction false} PopSize(n: Node, run: Runnable, prefix: seq<Id>)
    requires WellFormed(n, prefix) && Pop(n, run).1.Some?
    ensures Size(n) == Size(Pop(n, run).0) + 1
    decreases n
  {
    match n
    case Fifo(entries) =>
    case Ring(kids) =>
      var i := FirstRunnable(kids, run);
      var served := Pop(kids[i].node, run).0;
      var tail := Kept(kids[i].id, served);
      PopSize(kids[i].node, run, prefix + [kids[i].id]);
      PopWellFormed(kids[i].node, run, prefix + [kids[i].id]);
      SizeZero(served, prefix + [kids[i].id]);
      SizeOfSplit(kids, i);
      SizeOfSingle(Child(kids[i].id, served));
      SizeOfConcat(kids[i + 1..], kids[..i]);
      SizeOfConcat(kids[i + 1..] + kids[..i], tail);
  }

  lemma {:induction false} RemoveSize(n: Node, rid: Id, prefix: seq<Id>)
    requires WellFormed(n, prefix) && Remove(n, rid).1.Some?
    ensures Size(n) == Size(Remove(n, rid).0) + 1
    decreases n
  {
    match n
    case Fifo(entries) =>
    case Ring(kids) =>
      var i := FirstHolder(kids, rid);
      var rest := Remove(kids[i].node, rid).0;
      RemoveSize(kids[i].node, rid, prefix + [kids[i].id]);
      RemoveWellFormed(kids[i].node, rid, prefix + [kids[i].id]);
      SizeZero(rest, prefix + [kids[i].id]);
      SizeOfSplit(kids, i);
      SizeOfConcat(kids[..i], kids[i + 1..]);
      SizeOfReplace(kids, i, Child(kids[i].id, rest));
  }

  /** What a pop on the whole queue keeps: the invariant, and the count up to the entry served. */
  lemma {:induction false} PopKeeps(n: Node, run: Runnable)
    requires WellFormed(n, [])
    ensures WellFormed(Pop(n, run).0, [])
    ensures Size(n) == Size(Pop(n, run).0) + if Pop(n, run).1.Some? then 1 else 0
  {
    PopWellFormed(n, run, []);
    if HasRunnable(n, run) { PopSize(n, run, []); }
  }

  lemma {:induction false} RemoveKeeps(n: Node, rid: Id)
    requires WellFormed(n, [])
    ensures WellFormed(Remove(n, rid).0, [])
    ensures Size(n) == Size(Remove(n, rid).0) + if Remove(n, rid).1.Some? then 1 else 0
  {
    RemoveWellFormed(n, rid, []);
    if Contains(n, rid) { RemoveSize(n, rid, []); }
  }

  // ----- the entry that is served -----

  /** The first element of `heads` that may run. */
  function FirstMatch(heads: seq<Entry>, run: Runnable): Option<Entry> {
    if heads == [] then None else if run(heads[0]) then Some(heads[0]) else FirstMatch(heads[1..], run)
  }

  lemma {:induction false} FirstMatchConcat(a: seq<Entry>, b: seq<Entry>, run: Runnable)
    ensures FirstMatch(a + b, run) == if FirstMatch(a, run).Some? then FirstMatch(a, run) else FirstMatch(b, run)
  {
    if a == [] {
      assert a + b == b;
    } else {
      assert (a + b)[1..] == a[1..] + b;
      FirstMatchConcat(a[1..], b, run);
    }
  }

  /** Pop serves the first runnable agent head in nested ring order, and nothing else. */
  lemma {:induction false} PopServesFirstRunnableHead(n: Node, run: Runnable)
    ensures Pop(n, run).1 == FirstMatch(Heads(n), run)
    decreases n, 0
  {
    match n
    case Fifo(entries) =>
    case Ring(kids) =>
      FirstMatchOfHeads(kids, run);
  }

  lemma {:induction false} FirstMatchOfHeads(kids: seq<Child>, run: Runnable)
    ensures var i := FirstRunnable(kids, run);
            FirstMatch(HeadsOf(kids), run) == if i < |kids| then Pop(kids[i].node, run).1 else None
    decreases kids
  {
    if kids != [] {
      PopServesFirstRunnableHead(kids[0].node, run);
      FirstMatchConcat(Heads(kids[0].node), HeadsOf(kids[1..]), run);
      FirstMatchOfHeads(kids[1..], run);
    }
  }

  /** The first `t` children were asked and had nothing to run. */
  ghost predicate PassedOver(kids: seq<Child>, t: nat, run: Runnable) {
    t <= |kids| && forall j :: 0 <= j < t ==> !HasRunnable(kids[j].node, run)
  }

  ghost function Rotated(kids: seq<Child>, t: nat): seq<Child>
    requires t <= |kids|
  {
    kids[t..] + kids[..t]
  }

  /** One turn of the ring: either the front child has nothing either and the rotation goes on, or
      the turn is the whole pop. */
  lemma Turn(kids: seq<Child>, t: nat, run: Runnable)
    requires PassedOver(kids, t, run) && t < |kids| && !IsEmpty(kids[t].node)
    ensures Rotated(kids, t) != [] && Rotated(kids, t)[0] == kids[t]
    ensures var (served, e) := Pop(kids[t].node, run);
            var after := Rotated(kids, t)[1..] + Kept(kids[t].id, served);
            if e.Some? then Pop(Ring(kids), run) == (Ring(after), e)
            else after == Rotated(kids, t + 1) && PassedOver(kids, t + 1, run)
  {
    var before := kids[t..] + kids[..t];
    assert before[1..] == kids[t + 1..] + kids[..t];
    assert kids[..t + 1] == kids[..t] + [kids[t]];
    if HasRunnable(kids[t].node, run) {
      assert FirstRunnable(kids, run) == t;
    }
  }

  /** A full round without a runnable head leaves the ring as it was. */
  lemma FullRound(kids: seq<Child>, run: Runnable)
    requires PassedOver(kids, |kids|, run)
    ensures Rotated(kids, |kids|) == kids && Pop(Ring(kids), run) == (Ring(kids), None)
  {
  }

  /** One step of the search for a request, after `i` children did not hold it. */
  lemma {:induction false} SearchStep(kids: seq<Child>, i: nat, rid: Id)
    requires i < |kids| && forall j :: 0 <= j < i ==> !Contains(kids[j].node, rid)
    ensures var (rest, e) := Remove(kids[i].node, rid);
            var after := if IsEmpty(rest) then kids[..i] + kids[i + 1..] else kids[i := Child(kids[i].id, rest)];
            if e.Some? then Remove(Ring(kids), rid) == (Ring(after), e)
            else !IsEmpty(kids[i].node) ==> after == kids
  {
    if Contains(kids[i].node, rid) {
      assert FirstHolder(kids, rid) == i;
    }
  }

  // ----- draining -----

  /** The entries of one lane, in order. */
  function OfLane(entries: seq<Entry>, lane: seq<Id>): seq<Entry> {
    if entries == [] then []
    else (if Lane(entries[0]) == lane then [entries[0]] else []) + OfLane(entries[1..], lane)
  }

  lemma {:induction false} OfLaneConcat(a: seq<Entry>, b: seq<Entry>, lane: seq<Id>)
    ensures OfLane(a + b, lane) == OfLane(a, lane) + OfLane(b, lane)
  {
    if a == [] {
      assert a + b == b;
    } else {
      assert (a + b)[1..] == a[1..] + b;
      OfLaneConcat(a[1..], b, lane);
    }
  }

  /** What came out followed by what is left is, lane by lane, what was there before. */
  ghost predicate DrainedSoFar(before: Node, now: Node, out: seq<Entry>) {
    forall lane: seq<Id> :: |lane| == LEVELS ==> OfLane(out, lane) + Contents(now, lane) == Contents(before, lane)
  }

  lemma {:induction false} DrainStep(before: Node, now: Node, out: seq<Entry>, run: Runnable)
    requires WellFormed(now, []) && DrainedSoFar(before, now, out) && Pop(now, run).1.Some?
    ensures DrainedSoFar(before, Pop(now, run).0, out + [Pop(now, run).1.value])
  {
    forall lane: seq<Id> | |lane| == LEVELS
      ensures OfLane(out + [Pop(now, run).1.value], lane) + Contents(Pop(now, run).0, lane) == Contents(before, lane)
    {
      PopLane(now, run, lane);
      DrainLane(out, Pop(now, run).1.value, lane, Contents(now, lane), Contents(Pop(now, run).0, lane));
    }
  }

  /** Moving the head of a lane from the queue to the output changes nothing overall. */
  lemma {:induction false} DrainLane(out: seq<Entry>, e: Entry, lane: seq<Id>, before: seq<Entry>, after: seq<Entry>)
    requires before == (if Lane(e) == lane then [e] else []) + after
    ensures OfLane(out + [e], lane) + after == OfLane(out, lane) + before
  {
    OfLaneConcat(out, [e], lane);
    OfLaneSingle(e, lane);
  }

  lemma {:induction false} OfLaneSingle(e: Entry, lane: seq<Id>)
    ensures OfLane([e], lane) == if Lane(e) == lane then [e] else []
  {
    assert OfLane([e][1..], lane) == [];
  }

  lemma {:induction false} PopLane(n: Node, run: Runnable, lane: seq<Id>)
    requires WellFormed(n, []) && Pop(n, run).1.Some? && |lane| == LEVELS
    ensures Contents(n, lane)
         == (if Lane(Pop(n, run).1.value) == lane then [Pop(n, run).1.value] else []) + Contents(Pop(n, run).0, lane)
  {
    PopContents(n, run, [], lane);
    assert Lane(Pop(n, run).1.value)[0..] == Lane(Pop(n, run).1.value);
  }

  /** When everything may run and nothing does, the queue is empty. */
  lemma {:induction false} NothingRunnableMeansEmpty(n: Node, run: Runnable, prefix: seq<Id>)
    requires WellFormed(n, prefix) && !HasRunnable(n, run) && forall e: Entry :: run(e)
    ensures IsEmpty(n)
    decreases n
  {
    match n
    case Fifo(entries) =>
    case Ring(kids) =>
      if kids != [] {
        NothingRunnableMeansEmpty(kids[0].node, run, prefix + [kids[0].id]);
      }
  }
}
