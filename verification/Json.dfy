/** JSON trees as the gateway holds them, and pointers into them (RFC 6901). */
module Json {
  // Objects keep their members in order: inserting under an existing key keeps its place, and
  // removing moves the last member into the gap.

  import opened Wrappers
  import opened Text

  datatype Number = PosInt(n: nat) | NegInt(i: int) | Float(f: real)

  datatype Member = Member(key: string, value: Value)

  datatype Value =
    | Null
    | Bool(b: bool)
    | Num(num: Number)
    | Str(s: string)
    | Arr(items: seq<Value>)
    | Obj(members: seq<Member>)

  function AsF64(n: Number): real {
    match n
    case PosInt(n) => n as real
    case NegInt(i) => i as real
    case Float(f) => f
  }

  // ----- objects -----

  ghost predicate DistinctKeys(ms: seq<Member>) {
    forall i, j :: 0 <= i < j < |ms| ==> ms[i].key != ms[j].key
  }

  /** Every object in the tree has distinct keys. */
  ghost predicate WellFormed(v: Value)
    decreases v
  {
    match v
    case Arr(items) => forall i :: 0 <= i < |items| ==> WellFormed(items[i])
    case Obj(ms) => DistinctKeys(ms) && forall i :: 0 <= i < |ms| ==> WellFormed(ms[i].value)
    case _ => true
  }

  function Find(ms: seq<Member>, key: string): (i: nat)
    ensures i <= |ms|
    ensures forall j :: 0 <= j < i ==> ms[j].key != key
    ensures i < |ms| ==> ms[i].key == key
  {
    if ms == [] then 0 else if ms[0].key == key then 0 else 1 + Find(ms[1..], key)
  }

  function Get(ms: seq<Member>, key: string): Option<Value> {
    var i := Find(ms, key);
    if i < |ms| then Some(ms[i].value) else None
  }

  function Insert(ms: seq<Member>, key: string, value: Value): seq<Member> {
    var i := Find(ms, key);
    if i < |ms| then ms[i := Member(key, value)] else ms + [Member(key, value)]
  }

  /** Remove a member, moving the last one into its place. */
  function Remove(ms: seq<Member>, key: string): seq<Member> {
    var i := Find(ms, key);
    if i == |ms| then ms
    else if i == |ms| - 1 then ms[..i]
    else ms[..|ms| - 1][i := ms[|ms| - 1]]
  }

  lemma {:induction false} FindIs(ms: seq<Member>, key: string, at: nat)
    requires DistinctKeys(ms)
    requires at < |ms| ==> ms[at].key == key
    requires at >= |ms| ==> forall j :: 0 <= j < |ms| ==> ms[j].key != key
    ensures Get(ms, key) == if at < |ms| then Some(ms[at].value) else None
    ensures Find(ms, key) == if at < |ms| then at else |ms|
  {
  }

  /** Inserting changes what one key maps to, and nothing else. */
  lemma GetInsert(ms: seq<Member>, key: string, value: Value, other: string)
    requires DistinctKeys(ms)
    ensures DistinctKeys(Insert(ms, key, value))
    ensures Get(Insert(ms, key, value), other) == if other == key then Some(value) else Get(ms, other)
  {
    var after := Insert(ms, key, value);
    var k := Find(ms, other);
    FindIs(after, other, if k < |ms| then k else if other == key then |ms| else |after|);
  }

  /** Removing unmaps one key, and changes nothing else. */
  lemma GetRemove(ms: seq<Member>, key: string, other: string)
    requires DistinctKeys(ms)
    ensures DistinctKeys(Remove(ms, key))
    ensures Get(Remove(ms, key), other) == if other == key then None else Get(ms, other)
  {
    var i, k, after := Find(ms, key), Find(ms, other), Remove(ms, key);
    if i < |ms| {
      FindIs(after, other, if k == i then |ms| else if k == |ms| - 1 then i else k);
    }
  }

  // ----- pointers -----

  /** Replace every `~` followed by `d` with `repl`, left to right. */
  function ReplaceTilde(s: string, d: char, repl: char): string {
    if |s| >= 2 && s[0] == '~' && s[1] == d then [repl] + ReplaceTilde(s[2..], d, repl)
    else if s == "" then ""
    else [s[0]] + ReplaceTilde(s[1..], d, repl)
  }

  /** A reference token with its escapes undone. */
  function Unescape(raw: string): string {
    ReplaceTilde(ReplaceTilde(raw, '1', '/'), '0', '~')
  }

  function UnescapeAll(raws: seq<string>): (tokens: seq<string>)
    ensures |tokens| == |raws|
    ensures forall i :: 0 <= i < |raws| ==> tokens[i] == Unescape(raws[i])
  {
    if raws == [] then [] else [Unescape(raws[0])] + UnescapeAll(raws[1..])
  }

  /** The reference tokens of a pointer that is empty or starts with a slash. */
  function Tokens(pointer: string): seq<string> {
    if pointer == "" then [] else UnescapeAll(Split(pointer, '/')[1..])
  }

  lemma {:induction false} ReplaceKeeps(s: string, d: char, repl: char, c: char)
    requires c in s && c != '~' && c != d
    ensures c in ReplaceTilde(s, d, repl)
  {
    if |s| >= 2 && s[0] == '~' && s[1] == d {
      assert s == [s[0], s[1]] + s[2..];
      ReplaceKeeps(s[2..], d, repl, c);
    } else if s[0] != c {
      assert s == [s[0]] + s[1..];
      ReplaceKeeps(s[1..], d, repl, c);
    }
  }

  lemma {:induction false} ReplaceNothing(s: string, d: char, repl: char)
    requires '~' !in s
    ensures ReplaceTilde(s, d, repl) == s
  {
    if s != "" { ReplaceNothing(s[1..], d, repl); }
  }

  /** A replacement either changes nothing or leaves its mark. */
  lemma {:induction false} ReplaceMarks(s: string, d: char, repl: char)
    ensures ReplaceTilde(s, d, repl) == s || repl in ReplaceTilde(s, d, repl)
  {
    if |s| >= 2 && s[0] == '~' && s[1] == d {
    } else if s != "" {
      ReplaceMarks(s[1..], d, repl);
    }
  }

  /** No escaping can disguise a plain name: a token free of `~` and `/` is spelled as itself. */
  lemma UnescapePlain(raw: string, name: string)
    requires '~' !in name && '/' !in name
    ensures Unescape(raw) == name <==> raw == name
  {
    if raw == name {
      ReplaceNothing(name, '1', '/');
      ReplaceNothing(name, '0', '~');
    }
    if Unescape(raw) == name {
      var once := ReplaceTilde(raw, '1', '/');
      ReplaceMarks(once, '0', '~');
      assert once == name;
      ReplaceMarks(raw, '1', '/');
    }
  }

  // ----- array indices -----

  predicate Digits(s: string) {
    s != "" && forall i :: 0 <= i < |s| ==> '0' <= s[i] <= '9'
  }

  function Decimal(s: string): nat
    requires forall i :: 0 <= i < |s| ==> '0' <= s[i] <= '9'
  {
    if s == "" then 0 else 10 * Decimal(s[..|s| - 1]) + (s[|s| - 1] as int - '0' as int)
  }

  const MAX_USIZE: nat := 0xFFFF_FFFF_FFFF_FFFF

  /** Parsing a machine-word index: an optional plus sign, then digits that fit the word. */
  function ParseIndex(s: string): Option<nat> {
    var digits := if s != "" && s[0] == '+' then s[1..] else s;
    if Digits(digits) && Decimal(digits) <= MAX_USIZE then Some(Decimal(digits)) else None
  }

  /** What a pointer lookup accepts as an index: no sign and no leading zero. */
  function LookupIndex(s: string): Option<nat> {
    if s != "" && (s[0] == '+' || (s[0] == '0' && |s| != 1)) then None else ParseIndex(s)
  }

  /** The child of `v` a token leads to. */
  function Child(v: Value, token: string): Option<Value> {
    match v
    case Obj(ms) => Get(ms, token)
    case Arr(items) =>
      var i := LookupIndex(token);
      if i.Some? && i.value < |items| then Some(items[i.value]) else None
    case _ => None
  }

  function SetChild(v: Value, token: string, child: Value): Value
    requires Child(v, token).Some?
  {
    match v
    case Obj(ms) => Obj(Insert(ms, token, child))
    case Arr(items) => Arr(items[LookupIndex(token).value := child])
  }

  function At(v: Value, tokens: seq<string>): Option<Value> {
    if tokens == [] then Some(v) else
      match Child(v, tokens[0])
      case None => None
      case Some(c) => At(c, tokens[1..])
  }

  /** Look a pointer up: nothing unless it is empty or starts with a slash. */
  function Pointer(v: Value, pointer: string): Option<Value> {
    if pointer != "" && pointer[0] != '/' then None else At(v, Tokens(pointer))
  }

  // ----- edits below a pointer -----

  datatype Edit = SetTo(value: Value) | Delete

  /** Apply an edit to the leaf of a container; nothing when the leaf cannot be edited.  The index
      of an array leaf may carry a sign or leading zeros here. */
  function EditLeaf(parent: Value, leaf: string, edit: Edit): Option<Value> {
    match parent
    case Obj(ms) => Some(Obj(if edit.SetTo? then Insert(ms, leaf, edit.value) else Remove(ms, leaf)))
    case Arr(items) =>
      (match ParseIndex(leaf)
       case None => None
       case Some(i) =>
         if i < |items| then
           Some(Arr(if edit.SetTo? then items[i := edit.value] else items[..i] + items[i + 1..]))
         else if edit.SetTo? then None else Some(parent))
    case _ => None
  }

  /** Apply an edit at the end of a token path.  A missing parent is an error for a write and
      nothing to do for a removal. */
  function EditAt(v: Value, parent: seq<string>, leaf: string, edit: Edit): Option<Value>
    decreases |parent|
  {
    if parent == [] then EditLeaf(v, leaf, edit) else
      match Child(v, parent[0])
      case None => if edit.SetTo? then None else Some(v)
      case Some(c) =>
        match EditAt(c, parent[1..], leaf, edit)
        case None => None
        case Some(c') => Some(SetChild(v, parent[0], c'))
  }

  // ----- edits by way of their container -----

  lemma SetChildToItself(v: Value, token: string)
    requires Child(v, token).Some?
    ensures SetChild(v, token, Child(v, token).value) == v
  {
    if v.Obj? {
      var i := Find(v.members, token);
      assert v.members[i] == Member(token, v.members[i].value);
    }
  }

  /** Without a container to act on, a removal leaves the tree as it is and a write fails. */
  lemma {:induction false} EditWithoutContainer(v: Value, parent: seq<string>, leaf: string, edit: Edit)
    requires At(v, parent).None?
    ensures EditAt(v, parent, leaf, edit) == if edit.SetTo? then None else Some(v)
    decreases |parent|
  {
    if Child(v, parent[0]).Some? {
      EditWithoutContainer(Child(v, parent[0]).value, parent[1..], leaf, edit);
      SetChildToItself(v, parent[0]);
    }
  }

  /** The tree with another container at the end of a path. */
  function PutBack(v: Value, tokens: seq<string>, container: Value): Value
    requires At(v, tokens).Some?
    decreases |tokens|
  {
    if tokens == [] then container
    else SetChild(v, tokens[0], PutBack(Child(v, tokens[0]).value, tokens[1..], container))
  }

  /** Editing the container a path leads to and putting it back edits the tree. */
  lemma {:induction false} EditThroughContainer(v: Value, parent: seq<string>, leaf: string, edit: Edit)
    requires At(v, parent).Some?
    ensures var edited := EditLeaf(At(v, parent).value, leaf, edit);
            EditAt(v, parent, leaf, edit) == if edited.Some? then Some(PutBack(v, parent, edited.value)) else None
    decreases |parent|
  {
    if parent != [] {
      EditThroughContainer(Child(v, parent[0]).value, parent[1..], leaf, edit);
    }
  }

  /** The values met on a path, the tree first. */
  ghost predicate Trail(trail: seq<Value>, v: Value, tokens: seq<string>) {
    && |trail| == |tokens| + 1 && trail[0] == v
    && forall i :: 0 <= i < |tokens| ==> Child(trail[i], tokens[i]) == Some(trail[i + 1])
  }

  lemma TrailGrows(trail: seq<Value>, v: Value, tokens: seq<string>, i: nat, next: Value)
    requires i < |tokens| && Trail(trail, v, tokens[..i]) && Child(trail[i], tokens[i]) == Some(next)
    ensures Trail(trail + [next], v, tokens[..i + 1])
  {
    assert forall k :: 0 <= k < i ==> tokens[..i + 1][k] == tokens[..i][k];
  }

  /** Walk a path down, as far as it goes. */
  method WalkDown(v: Value, tokens: seq<string>) returns (found: bool, trail: seq<Value>)
    ensures found == At(v, tokens).Some?
    ensures found ==> Trail(trail, v, tokens) && At(v, tokens) == Some(trail[|tokens|])
  {
    trail := [v];
    for i := 0 to |tokens|
      invariant Trail(trail, v, tokens[..i])
      invariant At(v, tokens) == At(trail[i], tokens[i..])
    {
      var next := Child(trail[i], tokens[i]);
      if next.None? {
        return false, trail;
      }
      assert tokens[i..][1..] == tokens[i + 1..];
      TrailGrows(trail, v, tokens, i, next.value);
      trail := trail + [next.value];
    }
    found := true;
    assert tokens[..|tokens|] == tokens;
  }

  /** Put a changed container back, from the end of the path up. */
  method WriteBack(trail: seq<Value>, ghost v: Value, tokens: seq<string>, container: Value) returns (tree: Value)
    requires Trail(trail, v, tokens) && At(v, tokens).Some?
    ensures tree == PutBack(v, tokens, container)
  {
    tree := container;
    for i := |tokens| downto 0
      invariant At(trail[i], tokens[i..]).Some? && tree == PutBack(trail[i], tokens[i..], container)
    {
      assert tokens[i..][1..] == tokens[i + 1..];
      tree := SetChild(trail[i], tokens[i], tree);
    }
    assert tokens[0..] == tokens;
  }

  /** An edit under one member of an object leaves the other members alone. */
  lemma {:induction false} EditKeepsOthers(ms: seq<Member>, parent: seq<string>, leaf: string, edit: Edit, key: string)
    requires DistinctKeys(ms) && key != (if parent == [] then leaf else parent[0])
    requires EditAt(Obj(ms), parent, leaf, edit).Some?
    ensures var v := EditAt(Obj(ms), parent, leaf, edit).value;
            v.Obj? && DistinctKeys(v.members) && Get(v.members, key) == Get(ms, key)
  {
    if parent == [] {
      if edit.SetTo? { GetInsert(ms, leaf, edit.value, key); } else { GetRemove(ms, leaf, key); }
    } else if Child(Obj(ms), parent[0]).Some? {
      var c := EditAt(Child(Obj(ms), parent[0]).value, parent[1..], leaf, edit);
      if c.Some? { GetInsert(ms, parent[0], c.value, key); }
    }
  }

  // ----- edits keep trees well formed -----

  lemma {:induction false} InsertWellFormed(ms: seq<Member>, key: string, value: Value)
    requires WellFormed(Obj(ms)) && WellFormed(value)
    ensures WellFormed(Obj(Insert(ms, key, value)))
  {
    GetInsert(ms, key, value, key);
  }

  lemma RemoveWellFormed(ms: seq<Member>, key: string)
    requires WellFormed(Obj(ms))
    ensures WellFormed(Obj(Remove(ms, key)))
  {
    GetRemove(ms, key, key);
  }

  lemma {:induction false} EditWellFormed(v: Value, parent: seq<string>, leaf: string, edit: Edit)
    requires WellFormed(v) && (edit.SetTo? ==> WellFormed(edit.value)) && EditAt(v, parent, leaf, edit).Some?
    ensures WellFormed(EditAt(v, parent, leaf, edit).value)
    decreases |parent|
  {
    if parent == [] {
      if v.Obj? {
        if edit.SetTo? { InsertWellFormed(v.members, leaf, edit.value); } else { RemoveWellFormed(v.members, leaf); }
      }
    } else if Child(v, parent[0]).Some? {
      var c := Child(v, parent[0]).value;
      EditWellFormed(c, parent[1..], leaf, edit);
      if v.Obj? { InsertWellFormed(v.members, parent[0], EditAt(c, parent[1..], leaf, edit).value); }
    }
  }

  // ----- reading back what was edited -----

  /** The container an edit acts on takes `leaf` the way a lookup does. */
  predicate ReadsBack(parent: Value, leaf: string) {
    parent.Obj? || LookupIndex(leaf).Some?
  }

  lemma LookupIndexAgrees(leaf: string)
    ensures LookupIndex(leaf).Some? ==> LookupIndex(leaf) == ParseIndex(leaf)
  {
  }

  lemma {:induction false} SetLeafThenGet(v: Value, leaf: string, value: Value)
    requires WellFormed(v) && EditLeaf(v, leaf, SetTo(value)).Some?
    ensures Child(EditLeaf(v, leaf, SetTo(value)).value, leaf) == if ReadsBack(v, leaf) then Some(value) else None
  {
    LookupIndexAgrees(leaf);
    if v.Obj? { GetInsert(v.members, leaf, value, leaf); }
  }

  lemma {:induction false} ChildOfSetChild(v: Value, token: string, child: Value)
    requires WellFormed(v) && Child(v, token).Some?
    ensures Child(SetChild(v, token, child), token) == Some(child)
  {
    if v.Obj? { GetInsert(v.members, token, child, token); }
  }

  /** After a write the leaf can be looked up again exactly when its container is an object or the
      index is spelled without sign and leading zeros; then it holds the value written. */
  lemma {:induction false} SetThenGet(v: Value, parent: seq<string>, leaf: string, value: Value)
    requires WellFormed(v) && EditAt(v, parent, leaf, SetTo(value)).Some?
    ensures At(v, parent).Some?
    ensures var v' := EditAt(v, parent, leaf, SetTo(value)).value;
            At(v', parent + [leaf]) == if ReadsBack(At(v, parent).value, leaf) then Some(value) else None
    decreases |parent|
  {
    if parent == [] {
      assert [] + [leaf] == [leaf] && [leaf][1..] == [];
      SetLeafThenGet(v, leaf, value);
    } else {
      var c := Child(v, parent[0]).value;
      SetThenGet(c, parent[1..], leaf, value);
      ChildOfSetChild(v, parent[0], EditAt(c, parent[1..], leaf, SetTo(value)).value);
      assert (parent + [leaf])[1..] == parent[1..] + [leaf];
    }
  }

  /** After removing a member of an object the lookup finds nothing. */
  lemma {:induction false} RemoveThenGet(v: Value, parent: seq<string>, leaf: string)
    requires WellFormed(v) && EditAt(v, parent, leaf, Delete).Some?
    requires At(v, parent).Some? ==> At(v, parent).value.Obj?
    ensures At(EditAt(v, parent, leaf, Delete).value, parent + [leaf]) == None
    decreases |parent|
  {
    if parent == [] {
      assert [] + [leaf] == [leaf] && [leaf][1..] == [];
      GetRemove(v.members, leaf, leaf);
    } else {
      assert (parent + [leaf])[1..] == parent[1..] + [leaf];
      if Child(v, parent[0]).Some? {
        var c := Child(v, parent[0]).value;
        RemoveThenGet(c, parent[1..], leaf);
        ChildOfSetChild(v, parent[0], EditAt(c, parent[1..], leaf, Delete).value);
      }
    }
  }
}
