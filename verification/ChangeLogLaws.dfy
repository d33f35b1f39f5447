/** What a rule writes, what can be read back through its path, and when the change log misses that
    the tree has changed. */
module ChangeLogLaws {
  import opened Wrappers
  import opened Text
  import opened Json
  import opened Capability
  import opened RuleSet
  import opened RuleSetLaws

  // ----- reading back -----

  lemma {:induction false} PointerAt(tree: Value, pointer: string)
    requires "/" <= pointer && SplitPointer(pointer).Some?
    ensures var (parent, leaf) := SplitPointer(pointer).value;
            Pointer(tree, pointer) == At(tree, Tokens(parent) + [leaf])
  {
    SplitPointerTokens(pointer);
  }

  lemma TopPointer(tree: Value, pointer: string, key: string)
    requires "/" <= pointer && SplitPointer(pointer) == Some(("", key)) && tree.Obj?
    ensures Pointer(tree, pointer) == Get(tree.members, key)
  {
    PointerAt(tree, pointer);
    AtLast(tree, [], key);
    assert Tokens("") == [];
  }

  /** A write through a pointer can be read back through it exactly when its container is an object
      or the index is spelled without a sign or leading zeros. */
  lemma {:induction false} SetReadsBack(tree: Value, pointer: string, value: Value)
    requires WellFormed(tree) && "/" <= pointer && EditPointer(tree, pointer, SetTo(value)).Some?
    ensures var (parent, leaf) := SplitPointer(pointer).value;
            && At(tree, Tokens(parent)).Some?
            && Pointer(EditPointer(tree, pointer, SetTo(value)).value, pointer)
               == if ReadsBack(At(tree, Tokens(parent)).value, leaf) then Some(value) else None
  {
    var (parent, leaf) := SplitPointer(pointer).value;
    SplitPointerTokens(pointer);
    PointerAt(EditPointer(tree, pointer, SetTo(value)).value, pointer);
    SetThenGet(tree, Tokens(parent), leaf, value);
  }

  /** A container whose leaf is not read back is not found by a lookup either. */
  lemma {:induction false} UnreadableIsAbsent(tree: Value, pointer: string)
    requires "/" <= pointer && SplitPointer(pointer).Some?
    requires var (parent, leaf) := SplitPointer(pointer).value;
             At(tree, Tokens(parent)).Some? && !ReadsBack(At(tree, Tokens(parent)).value, leaf)
    ensures Pointer(tree, pointer) == None
  {
    var (parent, leaf) := SplitPointer(pointer).value;
    PointerAt(tree, pointer);
    AtLast(tree, Tokens(parent), leaf);
  }

  lemma {:induction false} AtLast(v: Value, parent: seq<string>, leaf: string)
    requires At(v, parent).Some?
    ensures At(v, parent + [leaf]) == Child(At(v, parent).value, leaf)
    decreases |parent|
  {
    if parent == [] {
      assert [] + [leaf] == [leaf] && [leaf][1..] == [];
    } else {
      assert (parent + [leaf])[1..] == parent[1..] + [leaf];
      AtLast(Child(v, parent[0]).value, parent[1..], leaf);
    }
  }

  /** Exactly when an applied `set` rule shows up in the change log. */
  lemma {:induction false} SetIsLoggedIff(r: RuleDefinition, tree: Value, changes: seq<AppliedChange>, context: Context)
    requires WellFormed(tree) && ValidMutationPath(r.action.path) && r.action.Set?
    requires Matches(r.when, tree, context) == Good(true)
    requires EditPointer(tree, r.action.path[5..], SetTo(r.action.value)).Some?
    ensures var path := r.action.path[5..];
            var (parent, leaf) := SplitPointer(path).value;
            var before := Pointer(tree, path);
            && At(tree, Tokens(parent)).Some?
            && (ApplyRule(r, tree, changes, context).changes != changes <==>
                  ReadsBack(At(tree, Tokens(parent)).value, leaf)
                  && !(before.Some? && Same(before.value, r.action.value)))
  {
    var path := r.action.path[5..];
    var (parent, leaf) := SplitPointer(path).value;
    SetReadsBack(tree, path, r.action.value);
    if !ReadsBack(At(tree, Tokens(parent)).value, leaf) { UnreadableIsAbsent(tree, path); }
    var before, after := Pointer(tree, path), Pointer(EditPointer(tree, path, SetTo(r.action.value)).value, path);
    var entry := AppliedChange(r.id, path, before, after, r.reason, r.risk);
    assert |changes + [entry]| == |changes| + 1;
    assert ApplyRule(r, tree, changes, context).changes == if SameOption(before, after) then changes else changes + [entry];
  }

  // ----- the tree and its log -----

  lemma {:induction false} SameReflexive(v: Value)
    requires WellFormed(v)
    ensures Same(v, v)
    decreases v
  {
    match v
    case Arr(items) =>
      forall i | 0 <= i < |items| ensures Same(items[i], items[i]) { SameReflexive(items[i]); }
    case Obj(ms) =>
      forall i | 0 <= i < |ms| ensures Get(ms, ms[i].key) == Some(ms[i].value) && Same(ms[i].value, ms[i].value) {
        FindIs(ms, ms[i].key, i);
        SameReflexive(ms[i].value);
      }
    case _ =>
  }

  lemma {:induction false} SameUpdatedItem(items: seq<Value>, i: nat, value: Value)
    requires WellFormed(Arr(items)) && i < |items|
    ensures Same(Arr(items), Arr(items[i := value])) <==> Same(items[i], value)
  {
    var after := items[i := value];
    if Same(items[i], value) {
      forall k | 0 <= k < |items| ensures Same(items[k], after[k]) {
        if k != i { SameReflexive(items[k]); }
      }
    }
    assert Same(Arr(items), Arr(after)) ==> Same(items[i], after[i]);
  }

  lemma {:induction false} SameUpdatedMember(ms: seq<Member>, i: nat, value: Value)
    requires WellFormed(Obj(ms)) && i < |ms|
    ensures Same(Obj(ms), Obj(Insert(ms, ms[i].key, value))) <==> Same(ms[i].value, value)
  {
    FindIs(ms, ms[i].key, i);
    var after := Insert(ms, ms[i].key, value);
    forall k | 0 <= k < |ms| ensures Get(after, ms[k].key) == Some(if k == i then value else ms[k].value) {
      GetInsert(ms, ms[i].key, value, ms[k].key);
      FindIs(ms, ms[k].key, k);
    }
    if Same(ms[i].value, value) {
      forall k | 0 <= k < |ms| ensures Same(ms[k].value, Get(after, ms[k].key).value) {
        if k != i { SameReflexive(ms[k].value); }
      }
    }
    assert Same(Obj(ms), Obj(after)) ==> Same(ms[i].value, Get(after, ms[i].key).value);
  }

  lemma {:induction false} SameSetChild(v: Value, token: string, child: Value)
    requires WellFormed(v) && Child(v, token).Some?
    ensures Same(v, SetChild(v, token, child)) <==> Same(Child(v, token).value, child)
  {
    match v
    case Obj(ms) => SameUpdatedMember(ms, Find(ms, token), child);
    case Arr(items) => SameUpdatedItem(items, LookupIndex(token).value, child);
  }

  lemma {:induction false} WellFormedChild(v: Value, token: string)
    requires WellFormed(v) && Child(v, token).Some?
    ensures WellFormed(Child(v, token).value)
  {
  }

  /** An edit acts on the container its path leads to, and the tree is the same as before exactly
      when the container is. */
  lemma {:induction false} EditActsOnContainer(v: Value, parent: seq<string>, leaf: string, edit: Edit)
    requires WellFormed(v) && EditAt(v, parent, leaf, edit).Some? && At(v, parent).Some?
    ensures var v' := EditAt(v, parent, leaf, edit).value;
            var c := At(v, parent).value;
            && WellFormed(c)
            && EditLeaf(c, leaf, edit).Some? && At(v', parent) == EditLeaf(c, leaf, edit)
            && (Same(v, v') <==> Same(c, EditLeaf(c, leaf, edit).value))
    decreases |parent|
  {
    if parent != [] {
      var child := Child(v, parent[0]).value;
      WellFormedChild(v, parent[0]);
      EditActsOnContainer(child, parent[1..], leaf, edit);
      var child' := EditAt(child, parent[1..], leaf, edit).value;
      ChildOfSetChild(v, parent[0], child');
      SameSetChild(v, parent[0], child');
    }
  }

  /** What the lookup of `leaf` cannot tell: an element of an array is addressed by an index that
      lookups reject, or the element removed is followed by an equal one. */
  predicate Overlooks(container: Value, leaf: string, edit: Edit) {
    container.Arr? && ParseIndex(leaf).Some? && ParseIndex(leaf).value < |container.items| &&
    var (items, i) := (container.items, ParseIndex(leaf).value);
    if LookupIndex(leaf).None? then edit.Delete? || !Same(items[i], edit.value)
    else edit.Delete? && i + 1 < |items| && Same(items[i], items[i + 1])
  }

  lemma {:induction false} OverlookedWrite(c: Value, leaf: string, value: Value)
    requires WellFormed(c) && EditLeaf(c, leaf, SetTo(value)).Some?
    ensures var c' := EditLeaf(c, leaf, SetTo(value)).value;
            !Same(c, c') && SameOption(Child(c, leaf), Child(c', leaf)) <==> Overlooks(c, leaf, SetTo(value))
  {
    LookupIndexAgrees(leaf);
    SetLeafThenGet(c, leaf, value);
    match c
    case Obj(ms) =>
      if Find(ms, leaf) < |ms| { SameUpdatedMember(ms, Find(ms, leaf), value); }
    case Arr(items) =>
      SameUpdatedItem(items, ParseIndex(leaf).value, value);
  }

  lemma {:induction false} OverlookedRemoval(c: Value, leaf: string)
    requires WellFormed(c) && EditLeaf(c, leaf, Delete).Some?
    ensures var c' := EditLeaf(c, leaf, Delete).value;
            !Same(c, c') && SameOption(Child(c, leaf), Child(c', leaf)) <==> Overlooks(c, leaf, Delete)
  {
    LookupIndexAgrees(leaf);
    SameReflexive(c);
    match c
    case Obj(ms) => GetRemove(ms, leaf, leaf);
    case Arr(items) =>
      var i := ParseIndex(leaf).value;
      if i < |items| {
        var rest := items[..i] + items[i + 1..];
        assert |rest| == |items| - 1;
        assert i < |rest| ==> rest[i] == items[i + 1];
      }
  }

  /** A rule whose condition holds asks for an edit that its path's container overlooks. */
  predicate LogMisses(action: RuleAction, tree: Value)
    requires "body:" <= action.path
  {
    var path := action.path[5..];
    var (edit, split) := (EditFor(action, Pointer(tree, path)), SplitPointer(path));
    edit.Some? && split.Some? &&
    var container := At(tree, Tokens(split.value.0));
    container.Some? && Overlooks(container.value, split.value.1, edit.value)
  }

  lemma {:induction false} EditIsOverlooked(tree: Value, path: string, edit: Edit)
    requires WellFormed(tree) && "/" <= path && SplitPointer(path).Some? && EditPointer(tree, path, edit).Some?
    ensures var tree' := EditPointer(tree, path, edit).value;
            var (parent, leaf) := SplitPointer(path).value;
            !Same(tree, tree') && SameOption(Pointer(tree, path), Pointer(tree', path)) <==>
              At(tree, Tokens(parent)).Some? && Overlooks(At(tree, Tokens(parent)).value, leaf, edit)
  {
    var (parent, leaf) := SplitPointer(path).value;
    var tree' := EditPointer(tree, path, edit).value;
    SplitPointerTokens(path);
    if At(tree, Tokens(parent)).None? {
      EditWithoutContainer(tree, Tokens(parent), leaf, edit);
      SameReflexive(tree);
    } else {
      var c := At(tree, Tokens(parent)).value;
      EditActsOnContainer(tree, Tokens(parent), leaf, edit);
      PointerAt(tree, path);
      PointerAt(tree', path);
      AtLast(tree, Tokens(parent), leaf);
      AtLast(tree', Tokens(parent), leaf);
      if edit.SetTo? { OverlookedWrite(c, leaf, edit.value); } else { OverlookedRemoval(c, leaf); }
    }
  }

  lemma {:induction false} FailedEditIsNotOverlooked(tree: Value, path: string, edit: Edit)
    requires WellFormed(tree) && "/" <= path && EditPointer(tree, path, edit).None? && SplitPointer(path).Some?
    ensures var (parent, leaf) := SplitPointer(path).value;
            At(tree, Tokens(parent)).Some? ==> !Overlooks(At(tree, Tokens(parent)).value, leaf, edit)
  {
    var (parent, leaf) := SplitPointer(path).value;
    SplitPointerTokens(path);
    if At(tree, Tokens(parent)).Some? { EditThroughContainer(tree, Tokens(parent), leaf, edit); }
  }

  /** The outcome of an action whose rule's condition holds: its edit is made and logged by what a
      lookup sees, or the tree is left alone. */
  predicate Acted(action: RuleAction, tree: Value, changes: seq<AppliedChange>, after: Outcome)
    requires "body:" <= action.path
  {
    var path := action.path[5..];
    var edit := EditFor(action, Pointer(tree, path));
    if edit.Some? && EditPointer(tree, path, edit.value).Some? then
      && after.tree == EditPointer(tree, path, edit.value).value
      && (after.changes == changes <==> SameOption(Pointer(tree, path), Pointer(after.tree, path)))
    else after.tree == tree
  }

  lemma {:induction false} RuleActs(r: RuleDefinition, tree: Value, changes: seq<AppliedChange>, context: Context)
    requires "body:" <= r.action.path && Matches(r.when, tree, context) == Good(true)
    ensures Acted(r.action, tree, changes, ApplyRule(r, tree, changes, context))
  {
    var after := ApplyRule(r, tree, changes, context);
    var path := r.action.path[5..];
    var entry := AppliedChange(r.id, path, Pointer(tree, path), Pointer(after.tree, path), r.reason, r.risk);
    assert |changes + [entry]| == |changes| + 1;
  }

  /** A rule adds at most one entry, and that tells what its path led to before and after. */
  lemma {:induction false} EntryTells(r: RuleDefinition, tree: Value, changes: seq<AppliedChange>, context: Context)
    ensures var after := ApplyRule(r, tree, changes, context);
            || after.changes == changes
            || ("body:" <= r.action.path && after.changes == changes +
                  [AppliedChange(r.id, r.action.path[5..], Pointer(tree, r.action.path[5..]),
                                 Pointer(after.tree, r.action.path[5..]), r.reason, r.risk)])
  {
  }

  lemma {:induction false} IdleRule(r: RuleDefinition, tree: Value, changes: seq<AppliedChange>, context: Context)
    requires Matches(r.when, tree, context) != Good(true)
    ensures ApplyRule(r, tree, changes, context).tree == tree
  {
    assert Matches(r.when, tree, context).Good? ==> !Matches(r.when, tree, context).value;
  }

  lemma {:induction false} EditMissed(tree: Value, path: string, edit: Edit)
    requires WellFormed(tree) && "/" <= path && SplitPointer(path).Some?
    ensures var (edited, split) := (EditPointer(tree, path, edit), SplitPointer(path).value);
            edited.Some? && !Same(tree, edited.value) && SameOption(Pointer(tree, path), Pointer(edited.value, path)) <==>
              At(tree, Tokens(split.0)).Some? && Overlooks(At(tree, Tokens(split.0)).value, split.1, edit)
  {
    if EditPointer(tree, path, edit).None? {
      FailedEditIsNotOverlooked(tree, path, edit);
    } else {
      EditIsOverlooked(tree, path, edit);
    }
  }

  lemma {:induction false} ActionMissed(action: RuleAction, tree: Value, changes: seq<AppliedChange>, after: Outcome)
    requires WellFormed(tree) && ValidMutationPath(action.path) && Acted(action, tree, changes, after)
    ensures !Same(tree, after.tree) && after.changes == changes <==> LogMisses(action, tree)
  {
    SameReflexive(tree);
    var path := action.path[5..];
    var edit := EditFor(action, Pointer(tree, path));
    if edit.Some? && SplitPointer(path).Some? { EditMissed(tree, path, edit.value); }
  }

  /** The tree has changed and the log has not, exactly when the rule's condition holds and its
      edit is one that its path's container overlooks. */
  lemma {:induction false} LogMissesIff(r: RuleDefinition, tree: Value, changes: seq<AppliedChange>, context: Context)
    requires WellFormed(tree) && ValidMutationPath(r.action.path)
    ensures var after := ApplyRule(r, tree, changes, context);
            !Same(tree, after.tree) && after.changes == changes <==>
              Matches(r.when, tree, context) == Good(true) && LogMisses(r.action, tree)
  {
    if Matches(r.when, tree, context) == Good(true) {
      RuleActs(r, tree, changes, context);
      ActionMissed(r.action, tree, changes, ApplyRule(r, tree, changes, context));
    } else {
      IdleRule(r, tree, changes, context);
      SameReflexive(tree);
    }
  }

  // ----- whole rule sets -----

  lemma {:induction false} SameTransitive(a: Value, b: Value, c: Value)
    requires Same(a, b) && Same(b, c)
    ensures Same(a, c)
    decreases a
  {
    match a
    case Arr(items) =>
      forall i | 0 <= i < |items| ensures Same(items[i], c.items[i]) {
        SameTransitive(items[i], b.items[i], c.items[i]);
      }
    case Obj(ms) =>
      forall i | 0 <= i < |ms|
        ensures Get(c.members, ms[i].key).Some? && Same(ms[i].value, Get(c.members, ms[i].key).value)
      {
        var j := Find(b.members, ms[i].key);
        assert b.members[j].key == ms[i].key;
        SameTransitive(ms[i].value, b.members[j].value, Get(c.members, ms[i].key).value);
      }
    case _ =>
  }

  predicate CarriesValue(action: RuleAction) {
    action.SetDefault? || action.Set?
  }

  /** Rules as the compiler accepts them, with values that are JSON. */
  ghost predicate Sound(rules: seq<RuleDefinition>) {
    forall r :: r in rules ==>
      ValidMutationPath(r.action.path) && (CarriesValue(r.action) ==> WellFormed(r.action.value))
  }

  /** The rule changes the tree behind the log's back. */
  predicate Misses(r: RuleDefinition, tree: Value, context: Context)
    requires ValidMutationPath(r.action.path)
  {
    Matches(r.when, tree, context) == Good(true) && LogMisses(r.action, tree)
  }

  /** None of the rules that get to run does, each on the tree it meets. */
  ghost predicate NeverMisses(rules: seq<RuleDefinition>, tree: Value, changes: seq<AppliedChange>, context: Context)
    requires Sound(rules)
  {
    rules == [] ||
    (assert rules[0] in rules;
     var one := ApplyRule(rules[0], tree, changes, context);
     !Misses(rules[0], tree, context)
     && (one.error.Some? || NeverMisses(rules[1..], one.tree, one.changes, context)))
  }

  lemma {:induction false} RuleKeepsWellFormed(r: RuleDefinition, tree: Value, changes: seq<AppliedChange>, context: Context)
    requires WellFormed(tree) && ValidMutationPath(r.action.path)
    requires CarriesValue(r.action) ==> WellFormed(r.action.value)
    ensures WellFormed(ApplyRule(r, tree, changes, context).tree)
  {
    if Matches(r.when, tree, context) == Good(true) {
      RuleActs(r, tree, changes, context);
      ActedWellFormed(r.action, tree, changes, ApplyRule(r, tree, changes, context));
    } else {
      IdleRule(r, tree, changes, context);
    }
  }

  lemma {:induction false} ActedWellFormed(action: RuleAction, tree: Value, changes: seq<AppliedChange>, after: Outcome)
    requires WellFormed(tree) && "body:" <= action.path && Acted(action, tree, changes, after)
    requires CarriesValue(action) ==> WellFormed(action.value)
    ensures WellFormed(after.tree)
  {
    var path := action.path[5..];
    var edit := EditFor(action, Pointer(tree, path));
    if edit.Some? && EditPointer(tree, path, edit.value).Some? { PointerEditWellFormed(tree, path, edit.value); }
  }

  lemma {:induction false} PointerEditWellFormed(tree: Value, path: string, edit: Edit)
    requires WellFormed(tree) && (edit.SetTo? ==> WellFormed(edit.value)) && EditPointer(tree, path, edit).Some?
    ensures WellFormed(EditPointer(tree, path, edit).value)
  {
    var (parent, leaf) := SplitPointer(path).value;
    if parent == "" || parent[0] == '/' { EditWellFormed(tree, Tokens(parent), leaf, edit); }
  }

  lemma RuleLogs(r: RuleDefinition, tree: Value, changes: seq<AppliedChange>, context: Context)
    ensures changes <= ApplyRule(r, tree, changes, context).changes
  {
  }

  lemma {:induction false} LogGrows(rules: seq<RuleDefinition>, tree: Value, changes: seq<AppliedChange>, context: Context)
    ensures changes <= ApplyAll(rules, tree, changes, context).changes
  {
    if rules != [] {
      var one := ApplyRule(rules[0], tree, changes, context);
      RuleLogs(rules[0], tree, changes, context);
      if one.error.None? { LogGrows(rules[1..], one.tree, one.changes, context); }
    }
  }

  lemma LogStands(a: seq<AppliedChange>, b: seq<AppliedChange>, c: seq<AppliedChange>)
    requires a <= b <= c && c == a
    ensures b == a
  {
    assert |a| == |b|;
  }

  /** A rule set that logs nothing and never misses leaves the tree equal to what it was. */
  lemma {:induction false} NothingLoggedMeansSame(rules: seq<RuleDefinition>, tree: Value, changes: seq<AppliedChange>, context: Context)
    requires WellFormed(tree) && Sound(rules) && NeverMisses(rules, tree, changes, context)
    ensures var after := ApplyAll(rules, tree, changes, context);
            WellFormed(after.tree) && (after.changes == changes ==> Same(tree, after.tree))
  {
    if rules == [] {
      SameReflexive(tree);
    } else {
      assert rules[0] in rules && forall r :: r in rules[1..] ==> r in rules;
      var one := ApplyRule(rules[0], tree, changes, context);
      RuleKeepsWellFormed(rules[0], tree, changes, context);
      LogMissesIff(rules[0], tree, changes, context);
      if one.error.None? {
        NothingLoggedMeansSame(rules[1..], one.tree, one.changes, context);
        var after := ApplyAll(rules[1..], one.tree, one.changes, context);
        RuleLogs(rules[0], tree, changes, context);
        LogGrows(rules[1..], one.tree, one.changes, context);
        if after.changes == changes {
          LogStands(changes, one.changes, after.changes);
          SameTransitive(tree, one.tree, after.tree);
        }
      }
    }
  }

  // ----- a write the log misses -----

  lemma {:induction false} SetEditsTree(r: RuleDefinition, tree: Value, changes: seq<AppliedChange>, context: Context)
    requires "body:" <= r.action.path && r.action.Set? && Matches(r.when, tree, context) == Good(true)
    requires EditPointer(tree, r.action.path[5..], SetTo(r.action.value)).Some?
    ensures ApplyRule(r, tree, changes, context).error.None?
    ensures Some(ApplyRule(r, tree, changes, context).tree) == EditPointer(tree, r.action.path[5..], SetTo(r.action.value))
  {
  }

  lemma {:induction false} UnreadableIndexIsSet(v: Value, parent: seq<string>, leaf: string, items: seq<Value>, value: Value)
    requires WellFormed(v) && At(v, parent) == Some(Arr(items)) && EditAt(v, parent, leaf, SetTo(value)).Some?
    ensures ParseIndex(leaf).Some? && ParseIndex(leaf).value < |items|
    ensures At(EditAt(v, parent, leaf, SetTo(value)).value, parent) == Some(Arr(items[ParseIndex(leaf).value := value]))
  {
    EditActsOnContainer(v, parent, leaf, SetTo(value));
    assert EditLeaf(Arr(items), leaf, SetTo(value)).Some?;
  }

  /** A write the log misses: an array element addressed with a sign or a leading zero is replaced,
      nothing is recorded, and a request without recorded changes goes out with its original bytes. */
  lemma {:induction false} UnloggedWrite(r: RuleDefinition, tree: Value, context: Context, parent: string, leaf: string, items: seq<Value>)
    requires WellFormed(tree) && ValidMutationPath(r.action.path) && r.action.Set?
    requires Matches(r.when, tree, context) == Good(true)
    requires SplitPointer(r.action.path[5..]) == Some((parent, leaf)) && At(tree, Tokens(parent)) == Some(Arr(items))
    requires EditAt(tree, Tokens(parent), leaf, SetTo(r.action.value)).Some?
    requires LookupIndex(leaf).None?
    ensures var after := ApplyRule(r, tree, [], context);
            && after.error.None? && after.changes == []
            && ParseIndex(leaf).Some? && ParseIndex(leaf).value < |items|
            && At(after.tree, Tokens(parent)) == Some(Arr(items[ParseIndex(leaf).value := r.action.value]))
  {
    SplitPointerTokens(r.action.path[5..]);
    assert EditPointer(tree, r.action.path[5..], SetTo(r.action.value)) == EditAt(tree, Tokens(parent), leaf, SetTo(r.action.value));
    UnreadableIndexIsSet(tree, Tokens(parent), leaf, items, r.action.value);
    SetEditsTree(r, tree, [], context);
    SetIsLoggedIff(r, tree, [], context);
  }

  /** Such an index exists. */
  lemma LeadingZeroIndex()
    ensures ParseIndex("00") == Some(0) && LookupIndex("00") == None && LookupIndex("0") == Some(0)
  {
    assert "00"[..1] == "0" && "0"[..0] == "";
    assert Decimal("0") == 0 && Decimal("00") == 0;
  }

  lemma ExamplePointer()
    ensures SplitPointer("/a/00") == Some(("/a", "00")) && Tokens("/a") == ["a"]
  {
    assert "/a/00"[..2] == "/a" && "/a/00"[3..] == "00" && "/a/00"[2] == '/';
    assert LastIndexOf("/a/00", '/') == 2;
    UnescapePlain("00", "00");
    SplitFirst("", '/', "a");
    SplitFirst("a", '/', "");
    assert "" + ['/'] + "a" == "/a";
    UnescapePlain("a", "a");
    assert Split("/a", '/') == ["", "a"] && ["", "a"][1..] == ["a"];
  }

  lemma ExampleEdit()
    ensures EditAt(Obj([Member("a", Arr([Null]))]), ["a"], "00", SetTo(Bool(true))) == Some(Obj([Member("a", Arr([Bool(true)]))]))
  {
    LeadingZeroIndex();
    var ms := [Member("a", Arr([Null]))];
    FindIs(ms, "a", 0);
    assert |["a"][1..]| == 0;
    assert [Null][0 := Bool(true)] == [Bool(true)];
    assert ms[0 := Member("a", Arr([Bool(true)]))] == [Member("a", Arr([Bool(true)]))];
  }

  lemma ExamplePath()
    ensures ValidMutationPath("body:/a/00") && "body:/a/00"[5..] == "/a/00"
  {
  }

  lemma {:induction false} ExampleTree(tree: Value)
    requires tree == Obj([Member("a", Arr([Null]))])
    ensures WellFormed(tree) && At(tree, ["a"]) == Some(Arr([Null]))
  {
    FindIs(tree.members, "a", 0);
    assert |["a"][1..]| == 0;
  }

  /** A rule that compiles and a request on which the write is made and missed. */
  lemma UnloggedExample(r: RuleDefinition, tree: Value, context: Context)
    requires r.action == Set("body:/a/00", Bool(true)) && r.when == Always
    requires tree == Obj([Member("a", Arr([Null]))])
    ensures ValidMutationPath(r.action.path)
    ensures var after := ApplyRule(r, tree, [], context);
            after.error.None? && after.changes == [] && after.tree == Obj([Member("a", Arr([Bool(true)]))])
  {
    ExamplePointer();
    ExampleEdit();
    LeadingZeroIndex();
    ExamplePath();
    ExampleTree(tree);
    UnloggedWrite(r, tree, context, "/a", "00", [Null]);
    SetEditsTree(r, tree, [], context);
  }
}
