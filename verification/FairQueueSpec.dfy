/** The value a hierarchical fair queue stands for, and what each of its operations means.

    The source keeps four nested levels (user, platform key, base session, agent), each a map of
    children plus a ring of their identifiers, over one FIFO per agent.  All four levels run the
    same code, so one recursive datatype describes them: a ring lists its children in serving
    order, the child at index 0 being asked first. */
module FairQueueSpec {
  import opened Wrappers

  type Id = string

  /** The part of a schedule entry that the queue looks at. */
  datatype Entry = Entry(requestId: Id, user: Id, key: Id, session: Id, agent: Id, payload: int)

  datatype Child = Child(id: Id, node: Node)

  datatype Node = Fifo(entries: seq<Entry>) | Ring(kids: seq<Child>)

  type Runnable = Entry -> bool

  /** Number of ring levels above the agent FIFOs. */
  const LEVELS := 4

  /** The identifiers an entry is filed under, outermost first. */
  function Lane(e: Entry): (lane: seq<Id>)
    ensures |lane| == LEVELS
  {
    [e.user, e.key, e.session, e.agent]
  }

  predicate IsEmpty(n: Node) {
    match n
    case Fifo(entries) => entries == []
    case Ring(kids) => kids == []
  }

  function EmptyNode(depth: nat): Node {
    if depth < LEVELS then Ring([]) else Fifo([])
  }

  /** `n` sits under the identifiers `prefix`: its children are distinct and nonempty, and every
      entry below it is filed under its own lane. */
  ghost predicate WellFormed(n: Node, prefix: seq<Id>)
    decreases n
  {
    match n
    case Fifo(entries) =>
      && |prefix| == LEVELS
      && forall i :: 0 <= i < |entries| ==> Lane(entries[i]) == prefix
    case Ring(kids) =>
      && |prefix| < LEVELS
      && Distinct(kids)
      && forall i :: 0 <= i < |kids| ==>
           !IsEmpty(kids[i].node) && WellFormed(kids[i].node, prefix + [kids[i].id])
  }

  // ----- looking up children -----

  ghost predicate Distinct(kids: seq<Child>) {
    forall i, j :: 0 <= i < j < |kids| ==> kids[i].id != kids[j].id
  }

  /** Index of the child called `id`, or the number of children when there is none. */
  function Find(kids: seq<Child>, id: Id): (i: nat)
    ensures i <= |kids|
    ensures forall j :: 0 <= j < i ==> kids[j].id != id
    ensures i < |kids| ==> kids[i].id == id
  {
    if kids == [] then 0 else if kids[0].id == id then 0 else 1 + Find(kids[1..], id)
  }

  function Lookup(kids: seq<Child>, id: Id): Option<Node> {
    var i := Find(kids, id);
    if i < |kids| then Some(kids[i].node) else None
  }

  /** What is left in a ring of a child that was asked to give an entry up. */
  function Kept(id: Id, node: Node): seq<Child> {
    if IsEmpty(node) then [] else [Child(id, node)]
  }

  // ----- push -----

  function Push(n: Node, e: Entry, depth: nat): Node
    requires depth <= LEVELS
    decreases LEVELS - depth
  {
    match n
    case Fifo(entries) => Fifo(entries + [e])
    case Ring(kids) =>
      if depth == LEVELS then n else
        var id := Lane(e)[depth];
        var i := Find(kids, id);
        if i < |kids| then
          Ring(kids[i := Child(id, Push(kids[i].node, e, depth + 1))])
        else
          Ring(kids + [Child(id, Push(EmptyNode(depth + 1), e, depth + 1))])
  }

  // ----- pop -----

  ghost predicate HasRunnable(n: Node, run: Runnable)
    decreases n
  {
    match n
    case Fifo(entries) => entries != [] && run(entries[0])
    case Ring(kids) => exists i :: 0 <= i < |kids| && HasRunnable(kids[i].node, run)
  }

  /** Index of the first child that has a runnable head, or the number of children. */
  ghost function FirstRunnable(kids: seq<Child>, run: Runnable): (i: nat)
    ensures i <= |kids|
    ensures forall j :: 0 <= j < i ==> !HasRunnable(kids[j].node, run)
    ensures i < |kids| ==> HasRunnable(kids[i].node, run)
  {
    if kids == [] then 0
    else if HasRunnable(kids[0].node, run) then 0
    else 1 + FirstRunnable(kids[1..], run)
  }

  /** Serve one entry: the first child with a runnable head is served and, unless that empties it,
      goes behind everyone; the children that were passed over keep their order behind the rest. */
  ghost function Pop(n: Node, run: Runnable): (r: (Node, Option<Entry>))
    ensures HasRunnable(n, run) <==> r.1.Some?
    ensures r.1.None? ==> r.0 == n
    decreases n
  {
    match n
    case Fifo(entries) =>
      if entries != [] && run(entries[0]) then (Fifo(entries[1..]), Some(entries[0])) else (n, None)
    case Ring(kids) =>
      var i := FirstRunnable(kids, run);
      if i == |kids| then (n, None) else
        var (served, e) := Pop(kids[i].node, run);
        (Ring(kids[i + 1..] + kids[..i] + Kept(kids[i].id, served)), e)
  }

  // ----- remove -----

  ghost predicate Contains(n: Node, rid: Id)
    decreases n
  {
    match n
    case Fifo(entries) => exists i :: 0 <= i < |entries| && entries[i].requestId == rid
    case Ring(kids) => exists i :: 0 <= i < |kids| && Contains(kids[i].node, rid)
  }

  /** Index of the first entry with the given request id, or the number of entries. */
  function Position(entries: seq<Entry>, rid: Id): (i: nat)
    ensures i <= |entries|
    ensures forall j :: 0 <= j < i ==> entries[j].requestId != rid
    ensures i < |entries| ==> entries[i].requestId == rid
  {
    if entries == [] then 0 else if entries[0].requestId == rid then 0 else 1 + Position(entries[1..], rid)
  }

  /** Index of the first child holding the request, or the number of children. */
  ghost function FirstHolder(kids: seq<Child>, rid: Id): (i: nat)
    ensures i <= |kids|
    ensures forall j :: 0 <= j < i ==> !Contains(kids[j].node, rid)
    ensures i < |kids| ==> Contains(kids[i].node, rid)
  {
    if kids == [] then 0
    else if Contains(kids[0].node, rid) then 0
    else 1 + FirstHolder(kids[1..], rid)
  }

  ghost function Remove(n: Node, rid: Id): (r: (Node, Option<Entry>))
    ensures Contains(n, rid) <==> r.1.Some?
    ensures r.1.None? ==> r.0 == n
    decreases n
  {
    match n
    case Fifo(entries) =>
      var i := Position(entries, rid);
      if i == |entries| then (n, None) else (Fifo(entries[..i] + entries[i + 1..]), Some(entries[i]))
    case Ring(kids) =>
      var i := FirstHolder(kids, rid);
      if i == |kids| then (n, None) else
        var (rest, e) := Remove(kids[i].node, rid);
        if IsEmpty(rest) then (Ring(kids[..i] + kids[i + 1..]), e)
        else (Ring(kids[i := Child(kids[i].id, rest)]), e)
  }

  // ----- what a queue holds -----

  /** The FIFO contents filed under `path`, read from a node `n` that sits above it. */
  function Contents(n: Node, path: seq<Id>): seq<Entry>
    decreases n
  {
    match n
    case Fifo(entries) => if path == [] then entries else []
    case Ring(kids) =>
      if path == [] then [] else
        var i := Find(kids, path[0]);
        if i < |kids| then Contents(kids[i].node, path[1..]) else []
  }

  /** The agent heads in nested ring order. */
  function Heads(n: Node): seq<Entry>
    decreases n
  {
    match n
    case Fifo(entries) => if entries == [] then [] else [entries[0]]
    case Ring(kids) => HeadsOf(kids)
  }

  function HeadsOf(kids: seq<Child>): seq<Entry>
    decreases kids
  {
    if kids == [] then [] else Heads(kids[0].node) + HeadsOf(kids[1..])
  }

  /** Number of queued entries. */
  function Size(n: Node): nat
    decreases n
  {
    match n
    case Fifo(entries) => |entries|
    case Ring(kids) => SizeOf(kids)
  }

  function SizeOf(kids: seq<Child>): nat
    decreases kids
  {
    if kids == [] then 0 else Size(kids[0].node) + SizeOf(kids[1..])
  }
}
