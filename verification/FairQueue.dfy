/** The mutable queue: nodes with a ring of identifiers and a map of children, updated in place.

    Each operation is proved to act on the value the queue stands for as FairQueueSpec says.  The
    footprint of a node holds the nodes below it; siblings share none, which is what lets a change
    in one child leave the others as they were. */
module FairQueue {
  import opened Wrappers
  import S = FairQueueSpec
  import Laws = FairQueueLaws
  import opened FairQueueSpec

  // ----- the ring and the map of one node, as values -----

  /** `kids` are the nodes of the map in ring order, each once. */
  ghost predicate Lists(kids: seq<Child>, ring: seq<Id>, nodes: map<Id, Node>) {
    && |kids| == |ring|
    && (forall i :: 0 <= i < |ring| ==> ring[i] in nodes && kids[i] == Child(ring[i], nodes[ring[i]]))
    && (forall i, j :: 0 <= i < j < |ring| ==> ring[i] != ring[j])
    && (forall k :: k in nodes ==> k in ring)
  }

  ghost predicate NoneEmpty(nodes: map<Id, Node>) {
    forall k :: k in nodes ==> !S.IsEmpty(nodes[k])
  }

  ghost function Restrict(nodes: map<Id, Node>, keys: set<Id>): map<Id, Node>
    requires keys <= nodes.Keys
  {
    nodes - (nodes.Keys - keys)
  }

  /** The children left once `id` is dropped if it is empty. */
  ghost function Left(nodes: map<Id, Node>, id: Id): map<Id, Node>
    requires id in nodes
  {
    Restrict(nodes, if S.IsEmpty(nodes[id]) then nodes.Keys - {id} else nodes.Keys)
  }

  /** `ring` without `id`. */
  function Without(ring: seq<Id>, id: Id): seq<Id> {
    if ring == [] then [] else (if ring[0] == id then [] else [ring[0]]) + Without(ring[1..], id)
  }

  lemma {:induction false} WithoutAt(ring: seq<Id>, i: nat)
    requires i < |ring| && forall a, b :: 0 <= a < b < |ring| ==> ring[a] != ring[b]
    ensures Without(ring, ring[i]) == ring[..i] + ring[i + 1..]
  {
    if i > 0 {
      WithoutAt(ring[1..], i - 1);
      assert ring[..i] == [ring[0]] + ring[1..][..i - 1];
    } else {
      WithoutAbsent(ring[1..], ring[0]);
    }
  }

  lemma {:induction false} WithoutAbsent(ring: seq<Id>, id: Id)
    requires id !in ring
    ensures Without(ring, id) == ring
  {
    if ring != [] { WithoutAbsent(ring[1..], id); }
  }

  lemma ReplaceAt(kids: seq<Child>, ring: seq<Id>, nodes: map<Id, Node>, i: nat, node: Node)
    requires Lists(kids, ring, nodes) && i < |ring|
    ensures Lists(kids[i := Child(ring[i], node)], ring, nodes[ring[i] := node])
  {
  }

  /** Where `Find` looks is where the ring has the identifier. */
  lemma {:induction false} FindInRing(kids: seq<Child>, ring: seq<Id>, nodes: map<Id, Node>, id: Id)
    requires Lists(kids, ring, nodes)
    ensures id in nodes <==> Find(kids, id) < |kids|
    ensures id in nodes ==> ring[Find(kids, id)] == id && kids[Find(kids, id)].node == nodes[id]
  {
    if id in nodes {
      var i :| 0 <= i < |ring| && ring[i] == id;
      assert kids[i].id == id;
    }
  }

  lemma OthersStay(nodes: map<Id, Node>, id: Id, node: Node)
    ensures nodes[id := node] - {id} == nodes - {id}
  {
  }

  lemma NoneEmptyLeft(nodes: map<Id, Node>, id: Id)
    requires id in nodes && NoneEmpty(nodes - {id})
    ensures NoneEmpty(Left(nodes, id))
  {
    forall k | k in Left(nodes, id)
      ensures !S.IsEmpty(nodes[k])
    {
      assert k != id ==> k in nodes - {id};
    }
  }

  lemma RotateFront(kids: seq<Child>, ring: seq<Id>, nodes: map<Id, Node>)
    requires Lists(kids, ring, nodes) && ring != []
    ensures Lists(kids[1..] + S.Kept(ring[0], kids[0].node),
                  ring[1..] + (if S.IsEmpty(nodes[ring[0]]) then [] else [ring[0]]), Left(nodes, ring[0]))
  {
    assert ring == [ring[0]] + ring[1..];
  }

  lemma RingWithout(ring: seq<Id>, i: nat)
    requires i < |ring| && forall a, b :: 0 <= a < b < |ring| ==> ring[a] != ring[b]
    ensures var ring' := ring[..i] + ring[i + 1..];
            && (forall a :: 0 <= a < |ring'| ==> ring'[a] == ring[if a < i then a else a + 1])
            && (forall a, b :: 0 <= a < b < |ring'| ==> ring'[a] != ring'[b])
            && (forall k :: k in ring' <==> k in ring && k != ring[i])
  {
    assert ring == ring[..i] + [ring[i]] + ring[i + 1..];
  }

  lemma {:induction false} DropAt(kids: seq<Child>, ring: seq<Id>, nodes: map<Id, Node>, i: nat)
    requires Lists(kids, ring, nodes) && i < |ring| && S.IsEmpty(kids[i].node)
    ensures Lists(kids[..i] + kids[i + 1..], Without(ring, ring[i]), Left(nodes, ring[i]))
  {
    WithoutAt(ring, i);
    RingWithout(ring, i);
    var ring', kids' := ring[..i] + ring[i + 1..], kids[..i] + kids[i + 1..];
    forall a | 0 <= a < |ring'|
      ensures ring'[a] in Left(nodes, ring[i]) && kids'[a] == Child(ring'[a], Left(nodes, ring[i])[ring'[a]])
    {
      var b := if a < i then a else a + 1;
      assert ring'[a] == ring[b] && kids'[a] == kids[b];
      assert ring'[a] in ring';
    }
  }

  lemma AppendChild(kids: seq<Child>, ring: seq<Id>, nodes: map<Id, Node>, id: Id, node: Node)
    requires Lists(kids, ring, nodes) && id !in nodes
    ensures Lists(kids + [Child(id, node)], ring + [id], nodes[id := node])
  {
  }

  /** One node of the tree.  At depth `LEVELS` it is an agent and uses `entries`; above that it is
      a user, key or session node (the root being the queue itself) and uses `ring` and `children`. */
  class QueueNode {
    const depth: nat
    var ring: seq<Id>
    var children: map<Id, QueueNode>
    var entries: seq<Entry>

    ghost var model: Node
    ghost var repr: set<object>

    /** The children are valid, own disjoint memory and sit one level down. */
    ghost predicate ValidChildren()
      reads this, repr
      decreases LEVELS - depth, 0
    {
      && this in repr
      && depth <= LEVELS
      && (depth == LEVELS ==> children == map[])
      && (forall k :: k in children ==>
            && children[k] in repr
            && children[k].repr <= repr
            && this !in children[k].repr
            && depth < LEVELS
            && children[k].depth == depth + 1
            && children[k].Valid())
      && (forall k, k' :: k in children && k' in children && k != k' ==>
            children[k].repr !! children[k'].repr)
    }

    /** The map gives the values of the children named. */
    static ghost predicate Shows(nodes: map<Id, Node>, children: map<Id, QueueNode>, keys: set<Id>)
      requires keys <= children.Keys
      reads children.Values
    {
      nodes.Keys == keys && forall k :: k in keys ==> nodes[k] == children[k].model
    }

    static lemma SomeShows(children: map<Id, QueueNode>, keys: set<Id>)
      requires keys <= children.Keys
      ensures exists nodes :: Shows(nodes, children, keys)
    {
      var nodes: map<Id, Node> := map[];
      var left := keys;
      while left != {}
        invariant left <= keys && Shows(nodes, children, keys - left)
      {
        var k :| k in left;
        nodes, left := nodes[k := children[k].model], left - {k};
      }
      assert Shows(nodes, children, keys);
    }

    /** The values of the children. */
    ghost function Nodes(): (nodes: map<Id, Node>)
      reads this, children.Values
      ensures Shows(nodes, children, children.Keys)
    {
      SomeShows(children, children.Keys);
      var nodes :| Shows(nodes, children, children.Keys);
      nodes
    }

    /** `model` is what the fields mean, and the ring names every child once. */
    ghost predicate Tied()
      reads this, children.Values
    {
      if depth == LEVELS then model == Fifo(entries) && ring == []
      else model.Ring? && Lists(model.kids, ring, Nodes())
    }

    /** Everything but that the child `id` may be empty. */
    ghost predicate ValidBut(id: Id)
      reads this, repr
      decreases LEVELS - depth, 1
    {
      ValidChildren() && Tied() && NoneEmpty(Nodes() - {id}) && id in children
    }

    ghost predicate Valid()
      reads this, repr
      ensures Valid() ==> this in repr
      decreases LEVELS - depth, 1
    {
      ValidChildren() && Tied() && NoneEmpty(Nodes())
    }

    constructor (depth: nat)
      requires depth <= LEVELS
      ensures this.depth == depth
      ensures Valid() && fresh(repr) && model == S.EmptyNode(depth)
    {
      this.depth := depth;
      ring, children, entries := [], map[], [];
      model := S.EmptyNode(depth);
      repr := {this};
    }

    method IsEmpty() returns (empty: bool)
      requires Valid()
      ensures empty == S.IsEmpty(model)
    {
      if depth == LEVELS {
        empty := entries == [];
      } else {
        empty := |ring| == 0;
      }
    }

    // ----- frames -----

    /** Changing only this node's own fields, without adding children, keeps the children valid. */
    twostate lemma {:induction false} OwnFieldsOnly()
      requires old(ValidChildren()) && repr == old(repr)
      requires forall k :: k in children ==> k in old(children) && children[k] == old(children[k])
      requires forall o :: o in repr && o != this ==> unchanged(o)
      ensures ValidChildren()
      ensures forall k :: k in children ==> children[k].model == old(children[k].model)
    {
      forall k | k in children
        ensures children[k].Valid()
      {
        assert unchanged(children[k].repr);
      }
    }

    twostate lemma {:induction false} OwnFieldsOnlyNodes()
      requires old(ValidChildren()) && repr == old(repr)
      requires forall k :: k in children ==> k in old(children) && children[k] == old(children[k])
      requires forall o :: o in repr && o != this ==> unchanged(o)
      ensures ValidChildren()
      ensures Nodes() == Restrict(old(Nodes()), children.Keys)
    {
      OwnFieldsOnly();
    }

    /** Changing one child, and telling this node of the memory it gained, keeps its siblings valid. */
    twostate lemma {:induction false} OneChildOnly(new id: Id)
      requires old(ValidChildren()) && children == old(children) && id in children
      requires children[id].Valid() && fresh(children[id].repr - old(children[id].repr))
      requires repr == old(repr) + children[id].repr
      requires forall o :: o in old(repr) && o != this && o !in old(children[id].repr) ==> unchanged(o)
      ensures ValidChildren()
      ensures forall k :: k in children && k != id ==> children[k].model == old(children[k].model)
    {
      forall k | k in children && k != id
        ensures children[k].Valid() && unchanged(children[k])
      {
        assert old(children[k].repr) !! old(children[id].repr);
        assert unchanged(old(children[k].repr));
      }
    }

    twostate lemma {:induction false} OneNodeOnly(new id: Id)
      requires children == old(children) && id in children
      requires forall k :: k in children && k != id ==> children[k].model == old(children[k].model)
      ensures Nodes() == old(Nodes())[id := children[id].model]
    {
    }

    /** The bookkeeping after a call on child `i`. */
    ghost method Absorb(i: nat, id: Id)
      requires model.Ring? && i < |model.kids| && id in children
      modifies this
      ensures repr == old(repr) + old(children[id].repr)
      ensures model == Ring(old(model.kids)[i := Child(id, old(children[id].model))])
      ensures children == old(children) && ring == old(ring)
    {
      repr := repr + children[id].repr;
      model := Ring(model.kids[i := Child(id, children[id].model)]);
    }

    /** A call on child `i` and the bookkeeping after it leave everything in order but, perhaps, an
        empty child. */
    twostate lemma ChildReplaced(new i: nat, new id: Id)
      requires old(ValidBut(id)) && depth < LEVELS && i < |old(ring)| && old(ring)[i] == id
      requires children == old(children) && ring == old(ring) && repr == old(repr) + children[id].repr
      requires children[id].Valid() && fresh(children[id].repr - old(children[id].repr))
      requires model == Ring(old(model.kids)[i := Child(id, children[id].model)])
      requires forall o :: o in old(repr) && o != this && o !in old(children[id].repr) ==> unchanged(o)
      ensures ValidBut(id)
    {
      OneChildOnly(id);
      OneNodeOnly(id);
      ReplaceAt(old(model.kids), ring, old(Nodes()), i, children[id].model);
      OthersStay(old(Nodes()), id, children[id].model);
    }

    /** Child `i` of the ring, in the map and in the model, is ready for a call. */
    ghost predicate ReadyAt(i: nat, id: Id)
      reads this, repr
    {
      && depth < LEVELS && i < |ring| && ring[i] == id && id in children
      && children[id] in repr && children[id].repr <= repr && this !in children[id].repr
      && children[id].depth == depth + 1 && children[id].Valid()
      && model.Ring? && i < |model.kids| && model.kids[i] == Child(id, children[id].model)
    }

    lemma {:induction false} ChildAt(i: nat, id: Id)
      requires ValidBut(id) && depth < LEVELS && i < |ring| && ring[i] == id
      ensures ReadyAt(i, id)
    {
    }

    lemma {:induction false} ChildReady(i: nat, id: Id)
      requires Valid() && depth < LEVELS && i < |ring| && ring[i] == id
      ensures ValidBut(id) && ReadyAt(i, id)
    {
      assert ValidBut(id);
      ChildAt(i, id);
    }

    lemma {:induction false} ChildFound(id: Id)
      requires ValidBut(id) && depth < LEVELS
      ensures model.Ring? && ReadyAt(Find(model.kids, id), id)
    {
      FindInRing(model.kids, ring, Nodes(), id);
      ChildAt(Find(model.kids, id), id);
    }

    // ----- pop -----

    /** Ask the front child for an entry; that child may be empty afterwards. */
    method AskFront(run: Runnable) returns (e: Option<Entry>)
      requires ring != [] && ValidBut(ring[0]) && ReadyAt(0, ring[0])
      modifies this, children[ring[0]].repr
      ensures ring == old(ring) && ValidBut(ring[0]) && repr == old(repr)
      ensures children == old(children) && (children[ring[0]].model, e) == S.Pop(old(children[ring[0]].model), run)
      ensures model == Ring(old(model.kids)[0 := Child(ring[0], children[ring[0]].model)])
      decreases LEVELS - depth, 0
    {
      var id := ring[0];
      var child := children[id];
      e := child.PopRunnable(run);
      Absorb(0, id);
      ChildReplaced(0, id);
    }

    /** Move the front identifier behind the others or, when its child is empty, drop it. */
    method SettleFront()
      requires ring != [] && ring[0] in children && children[ring[0]].Valid()
      requires model.Ring? && model.kids != []
      modifies this
      ensures repr == old(repr)
      ensures var id, empty := old(ring[0]), S.IsEmpty(old(children[ring[0]].model));
              && ring == old(ring)[1..] + (if empty then [] else [id])
              && children == (if empty then old(children) - {id} else old(children))
      ensures model == Ring(old(model.kids)[1..] + S.Kept(old(ring[0]), old(model.kids[0].node)))
    {
      var id := ring[0];
      var empty := children[id].IsEmpty();
      ring := ring[1..];
      model := Ring(model.kids[1..] + S.Kept(id, model.kids[0].node));
      if empty {
        children := children - {id};
      } else {
        ring := ring + [id];
      }
    }

    twostate lemma {:induction false} SettledFront()
      requires old(ring != [] && ValidBut(ring[0])) && depth < LEVELS
      requires repr == old(repr) && forall o :: o in repr && o != this ==> unchanged(o)
      requires var id, empty := old(ring[0]), S.IsEmpty(old(children[ring[0]].model));
               && ring == old(ring)[1..] + (if empty then [] else [id])
               && children == (if empty then old(children) - {id} else old(children))
      requires model == Ring(old(model.kids)[1..] + S.Kept(old(ring[0]), old(model.kids[0].node)))
      ensures Valid()
    {
      OwnFieldsOnlyNodes();
      NoneEmptyLeft(old(Nodes()), old(ring[0]));
      RotateFront(old(model.kids), old(ring), old(Nodes()));
    }

    /** One turn: ask the front child, then rotate. */
    method Turn(run: Runnable) returns (e: Option<Entry>)
      requires Valid() && depth < LEVELS && ring != []
      modifies repr
      ensures Valid() && repr == old(repr)
      ensures old(model).Ring? && old(model).kids != []
      ensures var front := old(model).kids[0];
              var (served, taken) := S.Pop(front.node, run);
              model == Ring(old(model).kids[1..] + S.Kept(front.id, served)) && e == taken
      decreases LEVELS - depth, 1
    {
      ChildReady(0, ring[0]);
      e := AskFront(run);
      label asked:
      SettleFront();
      SettledFront@asked();
    }

    method PopRunnable(run: Runnable) returns (e: Option<Entry>)
      requires Valid()
      modifies repr
      ensures Valid() && repr == old(repr)
      ensures (model, e) == S.Pop(old(model), run)
      decreases LEVELS - depth, 2
    {
      e := None;
      if depth == LEVELS {
        if entries != [] && run(entries[0]) {
          e := Some(entries[0]);
          entries := entries[1..];
          model := Fifo(entries);
        }
        return;
      }
      ghost var kids := model.kids;
      assert Laws.Rotated(kids, 0) == kids;
      for t := 0 to |ring|
        invariant Valid() && repr == old(repr) && |ring| == |kids| && e.None?
        invariant forall j :: 0 <= j < |kids| ==> !S.IsEmpty(kids[j].node)
        invariant Laws.PassedOver(kids, t, run)
        invariant model == Ring(Laws.Rotated(kids, t))
      {
        Laws.Turn(kids, t, run);
        e := Turn(run);
        if e.Some? {
          return;
        }
      }
      Laws.FullRound(kids, run);
    }

    // ----- push -----

    twostate lemma {:induction false} HungChildren(new id: Id, child: QueueNode)
      requires old(ValidChildren()) && depth < LEVELS && id !in old(children)
      requires children == old(children)[id := child]
      requires old(child.Valid() && child.repr !! repr) && child.depth == depth + 1
      requires repr == old(repr) + old(child.repr)
      requires forall o :: o in repr && o != this ==> unchanged(o)
      ensures ValidChildren() && child.model == old(child.model)
      ensures forall k :: k in old(children) ==> children[k].model == old(children[k].model)
    {
      assert unchanged(old(child.repr)) && child.Valid();
      forall k | k in old(children)
        ensures children[k].Valid() && children[k].model == old(children[k].model) && children[k].repr == old(children[k].repr)
      {
        assert unchanged(old(children[k].repr));
      }
    }

    twostate lemma {:induction false} HungNodes(new id: Id, child: QueueNode)
      requires id !in old(children) && children == old(children)[id := child]
      requires forall k :: k in old(children) ==> children[k].model == old(children[k].model)
      ensures Nodes() == old(Nodes())[id := child.model]
    {
    }

    /** Hanging a new, empty child at the back of the ring. */
    twostate lemma {:induction false} Hung(new id: Id, child: QueueNode)
      requires old(Valid()) && depth < LEVELS && id !in old(children)
      requires children == old(children)[id := child]
      requires old(child.Valid() && child.repr !! repr) && child.depth == depth + 1
      requires ring == old(ring) + [id] && repr == old(repr) + old(child.repr)
      requires model == Ring(old(model.kids) + [Child(id, old(child.model))])
      requires forall o :: o in repr && o != this ==> unchanged(o)
      ensures ValidBut(id)
    {
      HungChildren(id, child);
      HungNodes(id, child);
      AppendChild(old(model.kids), old(ring), old(Nodes()), id, child.model);
    }

    /** Make sure there is a child called `id`; a new one starts empty at the back of the ring. */
    method EnsureChild(id: Id)
      requires Valid() && depth < LEVELS
      modifies this
      ensures ValidBut(id) && fresh(repr - old(repr)) && old(repr) <= repr
      ensures old(model).Ring? && model.Ring?
      ensures var kids := old(model).kids;
              model == Ring(Laws.Ensured(kids, id, depth))
    {
      FindInRing(model.kids, ring, Nodes(), id);
      if id !in children {
        var child := new QueueNode(depth + 1);
        label made:
        Hang(id, child);
        Hung@made(id, child);
      }
    }

    method Hang(id: Id, child: QueueNode)
      requires model.Ring?
      modifies this
      ensures children == old(children)[id := child] && ring == old(ring) + [id]
      ensures repr == old(repr) + child.repr
      ensures model == Ring(old(model.kids) + [Child(id, old(child.model))])
    {
      children := children[id := child];
      ring := ring + [id];
      repr := repr + child.repr;
      model := Ring(model.kids + [Child(id, child.model)]);
    }

    /** Push into the child that holds the entry's lane. */
    method PushBelow(ghost i: nat, id: Id, e: Entry)
      requires ValidBut(id) && ReadyAt(i, id) && id == Lane(e)[depth]
      modifies repr
      ensures ValidBut(id) && fresh(repr - old(repr)) && !S.IsEmpty(children[id].model)
      ensures model == Ring(old(model).kids[i := Child(id, S.Push(old(model).kids[i].node, e, depth + 1))])
      decreases LEVELS - depth, 0
    {
      var child := children[id];
      child.Push(e);
      Laws.PushNonEmpty(old(child.model), e, depth + 1);
      Absorb(i, id);
      ChildReplaced(i, id);
    }

    lemma {:induction false} NoLongerEmpty(id: Id)
      requires ValidBut(id) && !S.IsEmpty(children[id].model)
      ensures Valid()
    {
      forall k | k in Nodes()
        ensures !S.IsEmpty(Nodes()[k])
      {
        assert k != id ==> k in Nodes() - {id};
      }
    }

    method PushLeaf(e: Entry)
      requires Valid() && depth == LEVELS
      modifies this
      ensures Valid() && repr == old(repr) && model == S.Push(old(model), e, depth)
    {
      entries := entries + [e];
      model := Fifo(entries);
    }

    method Push(e: Entry)
      requires Valid()
      modifies repr
      ensures Valid() && fresh(repr - old(repr))
      ensures depth <= LEVELS && model == S.Push(old(model), e, depth)
      decreases LEVELS - depth, 2
    {
      if depth == LEVELS {
        PushLeaf(e);
        return;
      }
      Laws.PushInTwoSteps(model.kids, e, depth);
      PushNode(e);
    }

    /** First make sure of the child, then push into it. */
    method PushNode(e: Entry)
      requires Valid() && depth < LEVELS && model.Ring?
      modifies repr
      ensures Valid() && fresh(repr - old(repr))
      ensures var id := Lane(e)[depth];
              var ensured := Laws.Ensured(old(model).kids, id, depth);
              var i := Find(ensured, id);
              i < |ensured| && model == Ring(ensured[i := Child(id, S.Push(ensured[i].node, e, depth + 1))])
      decreases LEVELS - depth, 1
    {
      var id := Lane(e)[depth];
      EnsureChild(id);
      ChildFound(id);
      PushBelow(Find(model.kids, id), id, e);
      NoLongerEmpty(id);
    }

    // ----- remove -----

    /** Ask child `i` of the ring to give up a request; it may be empty afterwards. */
    method RemoveBelow(ghost i: nat, id: Id, rid: Id) returns (e: Option<Entry>)
      requires ValidBut(id) && ReadyAt(i, id)
      modifies repr
      ensures ValidBut(id) && repr == old(repr) && ring == old(ring)
      ensures var (rest, taken) := S.Remove(old(model).kids[i].node, rid);
              e == taken && model == Ring(old(model).kids[i := Child(id, rest)])
      decreases LEVELS - depth, 0
    {
      var child := children[id];
      e := child.Remove(rid);
      Absorb(i, id);
      ChildReplaced(i, id);
    }

    /** Drop the child and its place in the ring when it is empty. */
    method DropIfEmpty(ghost i: nat, id: Id)
      requires id in children && children[id].Valid()
      requires model.Ring? && i < |model.kids|
      modifies this
      ensures repr == old(repr)
      ensures if S.IsEmpty(old(children[id].model))
              then ring == Without(old(ring), id) && children == old(children) - {id}
                   && model == Ring(old(model.kids)[..i] + old(model.kids)[i + 1..])
              else unchanged(this)
    {
      var empty := children[id].IsEmpty();
      if empty {
        children := children - {id};
        ring := Without(ring, id);
        model := Ring(model.kids[..i] + model.kids[i + 1..]);
      }
    }

    twostate lemma {:induction false} Dropped(new i: nat, new id: Id)
      requires old(ValidBut(id)) && depth < LEVELS && i < |old(ring)| && old(ring)[i] == id
      requires repr == old(repr) && forall o :: o in repr && o != this ==> unchanged(o)
      requires if S.IsEmpty(old(children[id].model))
               then ring == Without(old(ring), id) && children == old(children) - {id}
                    && model == Ring(old(model.kids)[..i] + old(model.kids)[i + 1..])
               else unchanged(this)
      ensures Valid()
    {
      OwnFieldsOnlyNodes();
      NoneEmptyLeft(old(Nodes()), id);
      assert Nodes() == Left(old(Nodes()), id);
      if S.IsEmpty(old(children[id].model)) {
        DropAt(old(model.kids), old(ring), old(Nodes()), i);
      }
    }

    /** One step of the search: look in child `i` and tidy up behind it. */
    method SearchChild(ghost i: nat, id: Id, rid: Id) returns (e: Option<Entry>)
      requires Valid() && depth < LEVELS && i < |ring| && ring[i] == id
      modifies repr
      ensures Valid() && repr == old(repr)
      ensures old(model).Ring? && i < |old(model).kids|
      ensures var kids := old(model).kids;
              var (rest, taken) := S.Remove(kids[i].node, rid);
              && e == taken
              && model == Ring(if S.IsEmpty(rest) then kids[..i] + kids[i + 1..] else kids[i := Child(id, rest)])
      decreases LEVELS - depth, 1
    {
      ChildReady(i, id);
      e := RemoveBelow(i, id, rid);
      label asked:
      DropIfEmpty(i, id);
      Dropped@asked(i, id);
    }

    method Remove(rid: Id) returns (e: Option<Entry>)
      requires Valid()
      modifies repr
      ensures Valid() && repr == old(repr)
      ensures (model, e) == S.Remove(old(model), rid)
      decreases LEVELS - depth, 2
    {
      e := None;
      if depth == LEVELS {
        var i := Position(entries, rid);
        if i < |entries| {
          e := Some(entries[i]);
          entries := entries[..i] + entries[i + 1..];
          model := Fifo(entries);
        }
        return;
      }
      var keys := ring;
      ghost var kids := model.kids;
      for i := 0 to |keys|
        invariant Valid() && repr == old(repr) && model == old(model) && e.None?
        invariant forall j :: 0 <= j < i ==> !Contains(kids[j].node, rid)
      {
        e := SearchChild(i, keys[i], rid);
        Laws.SearchStep(kids, i, rid);
        if e.Some? {
          return;
        }
      }
    }
  }

  function SaturatingSub(a: nat, b: nat): nat {
    if a > b then a - b else 0
  }

  /** The queue: the user ring and a running count of entries. */
  class FairQueue {
    var users: QueueNode
    var len: nat

    ghost predicate Valid()
      reads this, users, users.repr
    {
      && this !in users.repr
      && users.Valid() && users.depth == 0
      && S.WellFormed(users.model, [])
      && len == S.Size(users.model)
    }

    constructor ()
      ensures Valid() && fresh(users.repr)
      ensures users.model == Ring([])
    {
      users := new QueueNode(0);
      len := 0;
    }

    method Push(e: Entry)
      requires Valid()
      modifies this, users.repr
      ensures Valid() && users == old(users) && fresh(users.repr - old(users.repr))
      ensures users.model == S.Push(old(users.model), e, 0) && len == old(len) + 1
    {
      Laws.PushWellFormed(users.model, e, []);
      Laws.PushSize(users.model, e, []);
      users.Push(e);
      len := len + 1;
    }

    method PopRunnable(run: Runnable) returns (e: Option<Entry>)
      requires Valid()
      modifies this, users.repr
      ensures Valid() && users == old(users) && users.repr == old(users.repr)
      ensures (users.model, e) == S.Pop(old(users.model), run)
      ensures old(len) == len + if e.Some? then 1 else 0
    {
      Laws.PopKeeps(users.model, run);
      e := users.PopRunnable(run);
      if e.Some? {
        len := SaturatingSub(len, 1);
      }
    }

    method Remove(rid: Id) returns (e: Option<Entry>)
      requires Valid()
      modifies this, users.repr
      ensures Valid() && users == old(users) && users.repr == old(users.repr)
      ensures (users.model, e) == S.Remove(old(users.model), rid)
      ensures old(len) == len + if e.Some? then 1 else 0
    {
      Laws.RemoveKeeps(users.model, rid);
      e := users.Remove(rid);
      if e.Some? {
        len := SaturatingSub(len, 1);
      }
    }

    /** Serve everything.  Every lane comes out whole and in order. */
    method Drain() returns (out: seq<Entry>)
      requires Valid()
      modifies this, users.repr
      ensures Valid() && users == old(users) && users.repr == old(users.repr)
      ensures users.model == Ring([]) && len == 0 && |out| == old(len)
      ensures forall lane: seq<Id> :: |lane| == LEVELS ==>
                Laws.OfLane(out, lane) == Contents(old(users.model), lane)
    {
      out := [];
      var all := (e: Entry) => true;
      ghost var before := users.model;
      while true
        invariant Valid() && users == old(users) && users.repr == old(users.repr)
        invariant |out| + len == old(len)
        invariant Laws.DrainedSoFar(before, users.model, out)
        decreases len
      {
        ghost var now := users.model;
        var e := PopRunnable(all);
        if e.None? {
          break;
        }
        out := out + [e.value];
        Laws.DrainStep(before, now, out[..|out| - 1], all);
      }
      Laws.NothingRunnableMeansEmpty(users.model, all, []);
      forall lane: seq<Id> | |lane| == LEVELS
        ensures Laws.OfLane(out, lane) == Contents(old(users.model), lane)
      {
        Laws.ContentsOfEmpty(users.model, lane);
      }
    }

    method Len() returns (n: nat)
      requires Valid()
      ensures n == S.Size(users.model)
    {
      n := len;
    }
  }
}
