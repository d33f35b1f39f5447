/** The order compiled rules stand in, and what a later layer has over an earlier one. */
module RuleOrderLaws {
  import opened Wrappers
  import opened Text
  import opened Json
  import opened Capability
  import opened RuleSet
  import opened RuleSetLaws
  import opened ChangeLogLaws
  import opened ConditionLaws
  import V = CapabilityValidation
  import VL = ValidationLaws

  // ----- what compiles -----

  /** The pointer starts at a member that is neither the model nor the messages. */
  predicate LeadsElsewhere(pointer: string) {
    Tokens(pointer) != [] && Tokens(pointer)[0] != "model" && Tokens(pointer)[0] != "messages"
  }

  lemma FirstTokenOf(pointer: string)
    requires "/" <= pointer
    ensures Tokens(pointer) != [] && Tokens(pointer)[0] == Unescape(Split(pointer[1..], '/')[0])
  {
    var rest := pointer[1..];
    assert pointer == "" + ['/'] + rest;
    SplitFirst("", '/', rest);
    assert Split(pointer, '/')[1..] == Split(rest, '/');
  }

  lemma {:induction false} FirstPieceIs(rest: string, name: string)
    requires '/' !in name && (rest == name || name + "/" <= rest)
    ensures Split(rest, '/')[0] == name
  {
    SplitFirst(name, '/', "");
    if rest != name {
      var tail := rest[|name| + 1..];
      assert rest == name + ['/'] + tail;
      SplitFirst(name, '/', tail);
    }
  }

  lemma FirstTokenIs(pointer: string, name: string)
    requires "/" <= pointer && (pointer[1..] == name || name + "/" <= pointer[1..])
    requires '~' !in name && '/' !in name
    ensures Tokens(pointer) != [] && Tokens(pointer)[0] == name
  {
    FirstTokenOf(pointer);
    FirstPieceIs(pointer[1..], name);
    UnescapePlain(name, name);
  }

  lemma PrefixBelow(pointer: string, name: string)
    requires pointer == "/" + name || "/" + name + "/" <= pointer
    ensures "/" <= pointer && (pointer[1..] == name || name + "/" <= pointer[1..])
  {
    if pointer != "/" + name {
      assert "/" + name + "/" == pointer[..|name| + 2];
      assert name + "/" == pointer[..|name| + 2][1..] == pointer[1..][..|name| + 1];
    }
  }

  lemma ProtectedNames()
    ensures forall name :: Protected(name) ==> '~' !in name && '/' !in name
  {
  }

  /** A path may be written exactly if it is a pointer into the body, without a star, to something other
      than the model and the messages, however that is spelled. */
  lemma MutationPathIff(path: string)
    ensures ValidMutationPath(path) <==>
              "body:" <= path && "/" <= path[5..] && '*' !in path[5..] && LeadsElsewhere(path[5..])
  {
    if "body:" <= path && "/" <= path[5..] {
      var pointer := path[5..];
      ProtectedNames();
      assert "/" + "model" == "/model" && "/model" + "/" == "/model/";
      assert "/" + "messages" == "/messages" && "/messages" + "/" == "/messages/";
      if pointer == "/model" || "/model/" <= pointer {
        PrefixBelow(pointer, "model");
        FirstTokenIs(pointer, "model");
      } else if pointer == "/messages" || "/messages/" <= pointer {
        PrefixBelow(pointer, "messages");
        FirstTokenIs(pointer, "messages");
      } else {
        FirstTokenAllowed(pointer, "model");
        FirstTokenAllowed(pointer, "messages");
      }
    }
  }

  /** What the compiler asks of a rule. */
  ghost predicate CompilableRule(r: RuleDefinition) {
    && r.id != "" && r.reason != "" && ValidMutationPath(r.action.path)
    && VL.AtMostDeep(r.when, 8) && VL.Nodes(r.when) <= 128 && VL.WellMade(r.when)
    && (r.action.Clamp? && r.action.minimum.Some? && r.action.maximum.Some? ==>
          r.action.minimum.value <= r.action.maximum.value)
  }

  lemma {:induction false} FirstErrorOf(ts: seq<Tagged>)
    ensures FirstError(ts).None? <==> forall t :: t in ts ==> RuleError(t.rule).None?
  {
    if ts != [] {
      FirstErrorOf(ts[1..]);
      assert ts == [ts[0]] + ts[1..];
    }
  }

  /** Layers compile exactly if the set is named and all their rules are compilable. */
  lemma {:induction false} LayersCompileIff(id: string, layers: seq<seq<RuleDefinition>>)
    ensures CompileLayers(id, layers).Good? <==>
              id != "" && forall n, r :: 0 <= n < |layers| && r in layers[n] ==> CompilableRule(r)
  {
    var all := TagLayers(layers);
    FirstErrorOf(all);
    forall r: RuleDefinition ensures r.id != "" && r.reason != "" && RuleError(r).None? <==> CompilableRule(r) {
      VL.ConditionCompilesIff(r.when);
    }
    forall n, r | 0 <= n < |layers| && r in layers[n] ensures Tagged(n, r) in all {
      TagsCount(layers, n, r);
      assert r in multiset(layers[n]);
      assert Tagged(n, r) in multiset(all);
    }
    forall t | t in all ensures t.layer < |layers| && t.rule in layers[t.layer] {
      assert t == Tagged(t.layer, t.rule) && t in multiset(all);
      if t.layer >= |layers| { NoTagsBeyond(layers, t.layer, t.rule); } else { TagsCount(layers, t.layer, t.rule); }
      assert t.layer < |layers| ==> t.rule in multiset(layers[t.layer]);
    }
  }

  // ----- the order -----

  /** The phases, as they are run. */
  const PHASES: seq<Phase> := [StructureRepair, Default, Range, System, Tools, ThinkingCache, BetaMetadata]

  ghost predicate EarlierPhase(a: Phase, b: Phase) {
    exists i, j :: 0 <= i < j < |PHASES| && PHASES[i] == a && PHASES[j] == b
  }

  /** Rule `a` of layer `m` may stand before rule `b` of layer `n`: its phase is earlier, or the phase
      is the same and its layer earlier, or both are the same and its identifier is not greater. */
  ghost predicate InOrder(a: RuleDefinition, m: nat, b: RuleDefinition, n: nat) {
    || EarlierPhase(a.phase, b.phase)
    || (a.phase == b.phase && m < n)
    || (a.phase == b.phase && m == n && !Less(b.id, a.id))
  }

  lemma PlaceIsRank(i: nat)
    requires i < |PHASES|
    ensures PhaseRank(PHASES[i]) == i
  {
  }

  lemma PhasesApart(a: Phase, b: Phase)
    requires EarlierPhase(a, b)
    ensures a != b && !EarlierPhase(b, a)
  {
    forall i: nat | i < |PHASES| ensures PhaseRank(PHASES[i]) == i { PlaceIsRank(i); }
  }

  lemma RankIsPlace(p: Phase)
    ensures PhaseRank(p) < |PHASES| && PHASES[PhaseRank(p)] == p
  {
  }

  lemma NotBeforeIsInOrder(a: Tagged, b: Tagged)
    requires !Before(b, a)
    ensures InOrder(a.rule, a.layer, b.rule, b.layer)
  {
    RankIsPlace(a.rule.phase);
    RankIsPlace(b.rule.phase);
    if PhaseRank(a.rule.phase) < PhaseRank(b.rule.phase) { assert EarlierPhase(a.rule.phase, b.rule.phase); }
  }

  lemma {:induction false} TagsCount(layers: seq<seq<RuleDefinition>>, n: nat, r: RuleDefinition)
    requires n < |layers|
    ensures multiset(TagLayers(layers))[Tagged(n, r)] == multiset(layers[n])[r]
    decreases |layers|
  {
    var m := |layers| - 1;
    TagLayerCount(m, layers[m], Tagged(n, r));
    if n < m {
      TagsCount(layers[..m], n, r);
    } else {
      NoTagsBeyond(layers[..m], n, r);
    }
  }

  lemma {:induction false} NoTagsBeyond(layers: seq<seq<RuleDefinition>>, n: nat, r: RuleDefinition)
    requires n >= |layers|
    ensures multiset(TagLayers(layers))[Tagged(n, r)] == 0
    decreases |layers|
  {
    if layers != [] {
      var m := |layers| - 1;
      TagLayerCount(m, layers[m], Tagged(n, r));
      NoTagsBeyond(layers[..m], n, r);
    }
  }

  /** Every rule with the layer it comes from. */
  function Origins(rules: seq<RuleDefinition>, from: seq<nat>): seq<Tagged>
    requires |from| == |rules|
  {
    seq(|rules|, k requires 0 <= k < |rules| => Tagged(from[k], rules[k]))
  }

  /** The compiled rules are the given ones, each as often as its layer lists it, and they stand in
      order: phase by phase, earlier layers first, and by identifier. */
  lemma CompiledOrder(id: string, layers: seq<seq<RuleDefinition>>) returns (from: seq<nat>)
    requires CompileLayers(id, layers).Good?
    ensures |from| == |CompileLayers(id, layers).value.rules|
    ensures forall n: nat, r: RuleDefinition :: n < |layers| ==>
              multiset(Origins(CompileLayers(id, layers).value.rules, from))[Tagged(n, r)] == multiset(layers[n])[r]
    ensures forall n: nat, r: RuleDefinition :: n >= |layers| ==>
              Tagged(n, r) !in Origins(CompileLayers(id, layers).value.rules, from)
    ensures forall i, j :: 0 <= i < j < |from| ==>
              InOrder(CompileLayers(id, layers).value.rules[i], from[i], CompileLayers(id, layers).value.rules[j], from[j])
  {
    var sorted := SortTagged(TagLayers(layers));
    var rules := CompileLayers(id, layers).value.rules;
    from := seq(|sorted|, k requires 0 <= k < |sorted| => sorted[k].layer);
    assert Origins(rules, from) == sorted;
    SortPermutes(TagLayers(layers));
    SortAscending(TagLayers(layers));
    forall n: nat, r: RuleDefinition | n < |layers|
      ensures multiset(sorted)[Tagged(n, r)] == multiset(layers[n])[r]
    {
      TagsCount(layers, n, r);
    }
    forall n: nat, r: RuleDefinition | n >= |layers| ensures Tagged(n, r) !in sorted {
      NoTagsBeyond(layers, n, r);
      assert Tagged(n, r) !in multiset(sorted);
    }
    forall i, j | 0 <= i < j < |from| ensures InOrder(rules[i], from[i], rules[j], from[j]) {
      NotBeforeIsInOrder(sorted[i], sorted[j]);
    }
  }

  // ----- what a rule does -----

  /** The number lies in the range. */
  predicate Within(x: real, minimum: Option<real>, maximum: Option<real>) {
    (minimum.Some? ==> minimum.value <= x) && (maximum.Some? ==> x <= maximum.value)
  }

  /** What an action writes: a default only where nothing is, a value always, a clamped number only
      where there is a number out of range, and then the end of the range it is beyond. */
  lemma ActionWrites(action: RuleAction, before: Option<Value>)
    ensures action.SetDefault? ==> EditFor(action, before) == if before.None? then Some(SetTo(action.value)) else None
    ensures action.Set? ==> EditFor(action, before) == Some(SetTo(action.value))
    ensures action.RemoveAt? ==> EditFor(action, before) == Some(Delete)
    ensures action.Clamp? && (before.None? || !before.value.Num?) ==> EditFor(action, before) == None
    ensures action.Clamp? && before.Some? && before.value.Num?
            && (action.minimum.Some? && action.maximum.Some? ==> action.minimum.value <= action.maximum.value) ==>
              var (x, edit) := (AsF64(before.value.num), EditFor(action, before));
              if Within(x, action.minimum, action.maximum) then edit == None
              else edit == Some(SetTo(Num(Float(
                     if action.minimum.Some? && x < action.minimum.value then action.minimum.value else action.maximum.value))))
  {
  }

  /** A rule whose condition does not hold does nothing, one whose condition holds acts, and one whose
      condition cannot be told stops everything with that error. */
  lemma {:induction false} RuleFollowsCondition(r: RuleDefinition, tree: Value, changes: seq<AppliedChange>, context: Context)
    requires "body:" <= r.action.path
    ensures var (answer, after) := (Matches(r.when, tree, context), ApplyRule(r, tree, changes, context));
            && (answer.Good? && Holds(r.when, tree, context) ==> Acted(r.action, tree, changes, after))
            && (answer.Good? && !Holds(r.when, tree, context) ==> after == Outcome(tree, changes, None))
            && (answer == Bad(PathExpansionLimit) ==> after == Outcome(tree, changes, Some(CapabilityPathExpansionLimit)))
            && (answer == Bad(Conflict) ==> after == Outcome(tree, changes, Some(CapabilityRuntimeConflict)))
  {
    if Matches(r.when, tree, context).Good? {
      MatchesMeans(r.when, tree, context);
      if Matches(r.when, tree, context).value { RuleActs(r, tree, changes, context); }
    }
  }

  // ----- rules that do not meet -----

  lemma SomeToken(pointer: string)
    requires "/" <= pointer
    ensures Tokens(pointer) != []
  {
    assert pointer == "" + ['/'] + pointer[1..];
    SplitFirst("", '/', pointer[1..]);
  }

  /** The paths lead below different members of the request. */
  predicate Elsewhere(path: string, other: string) {
    && ValidMutationPath(path) && ValidMutationPath(other)
    && Tokens(path[5..]) != [] && Tokens(other[5..]) != [] && Tokens(path[5..])[0] != Tokens(other[5..])[0]
  }

  lemma SameBelow(before: Value, after: Value, pointer: string)
    requires before.Obj? && after.Obj? && "/" <= pointer && Tokens(pointer) != []
    requires Get(after.members, Tokens(pointer)[0]) == Get(before.members, Tokens(pointer)[0])
    ensures Pointer(after, pointer) == Pointer(before, pointer)
  {
  }

  lemma EditElsewhere(tree: Value, pointer: string, edit: Edit, other: string)
    requires tree.Obj? && DistinctKeys(tree.members) && "/" <= pointer && "/" <= other
    requires Tokens(pointer) != [] && Tokens(other) != [] && Tokens(pointer)[0] != Tokens(other)[0]
    requires EditPointer(tree, pointer, edit).Some?
    ensures var after := EditPointer(tree, pointer, edit).value;
            after.Obj? && DistinctKeys(after.members) && Pointer(after, other) == Pointer(tree, other)
  {
    SplitPointerTokens(pointer);
    var (parent, leaf) := SplitPointer(pointer).value;
    EditKeepsOthers(tree.members, Tokens(parent), leaf, edit, Tokens(other)[0]);
    SameBelow(tree, EditPointer(tree, pointer, edit).value, other);
  }

  lemma RuleElsewhere(r: RuleDefinition, tree: Value, changes: seq<AppliedChange>, context: Context, path: string)
    requires tree.Obj? && DistinctKeys(tree.members) && Elsewhere(r.action.path, path)
    ensures var after := ApplyRule(r, tree, changes, context).tree;
            after.Obj? && DistinctKeys(after.members) && Pointer(after, path[5..]) == Pointer(tree, path[5..])
  {
    var edit := RuleEdits(r, tree, changes, context);
    if edit.Some? { EditElsewhere(tree, r.action.path[5..], edit.value, path[5..]); }
  }

  lemma {:induction false} RulesElsewhere(rules: seq<RuleDefinition>, tree: Value, changes: seq<AppliedChange>, context: Context, path: string)
    requires tree.Obj? && DistinctKeys(tree.members) && ValidMutationPath(path)
    requires forall r :: r in rules ==> Elsewhere(r.action.path, path)
    ensures Pointer(ApplyAll(rules, tree, changes, context).tree, path[5..]) == Pointer(tree, path[5..])
  {
    if rules != [] {
      assert rules[0] in rules;
      var one := ApplyRule(rules[0], tree, changes, context);
      RuleElsewhere(rules[0], tree, changes, context, path);
      if one.error.None? { RulesElsewhere(rules[1..], one.tree, one.changes, context, path); }
    }
  }

  // ----- a write that stands -----

  lemma {:induction false} ApplyInTwoParts(rules: seq<RuleDefinition>, j: nat, tree: Value, changes: seq<AppliedChange>, context: Context)
    requires j <= |rules| && ApplyAll(rules, tree, changes, context).error.None?
    ensures var first := ApplyAll(rules[..j], tree, changes, context);
            first.error.None? && ApplyAll(rules, tree, changes, context) == ApplyAll(rules[j..], first.tree, first.changes, context)
    decreases j
  {
    if j == 0 {
      assert rules[0..] == rules;
    } else {
      var one := ApplyRule(rules[0], tree, changes, context);
      assert rules[..j][1..] == rules[1..][..j - 1] && rules[j..] == rules[1..][j - 1..];
      ApplyInTwoParts(rules[1..], j - 1, one.tree, one.changes, context);
    }
  }

  lemma {:induction false} RulesKeepWellFormed(rules: seq<RuleDefinition>, tree: Value, changes: seq<AppliedChange>, context: Context)
    requires WellFormed(tree) && tree.Obj? && Sound(rules)
    ensures var after := ApplyAll(rules, tree, changes, context).tree;
            WellFormed(after) && after.Obj?
  {
    if rules != [] {
      assert rules[0] in rules && forall r :: r in rules[1..] ==> r in rules;
      var one := ApplyRule(rules[0], tree, changes, context);
      RuleKeepsWellFormed(rules[0], tree, changes, context);
      RuleProtects(rules[0], tree, changes, context, "model");
      if one.error.None? { RulesKeepWellFormed(rules[1..], one.tree, one.changes, context); }
    }
  }

  /** The path ends at a member of an object. */
  predicate OnObject(tree: Value, path: string)
    requires "body:" <= path
  {
    SplitPointer(path[5..]).Some? &&
    var container := At(tree, Tokens(SplitPointer(path[5..]).value.0));
    container.Some? && container.value.Obj?
  }

  lemma {:induction false} SetWrites(r: RuleDefinition, tree: Value, changes: seq<AppliedChange>, context: Context)
    requires WellFormed(tree) && ValidMutationPath(r.action.path) && r.action.Set?
    requires Matches(r.when, tree, context) == Good(true) && OnObject(tree, r.action.path)
    requires ApplyRule(r, tree, changes, context).error.None?
    ensures Pointer(ApplyRule(r, tree, changes, context).tree, r.action.path[5..]) == Some(r.action.value)
  {
    SetReadsBack(tree, r.action.path[5..], r.action.value);
  }

  /** A `set` whose condition holds when its turn comes leaves its value, if the rules behind it write
      elsewhere. */
  lemma {:induction false} SetStands(rules: seq<RuleDefinition>, j: nat, tree: Value, context: Context)
    requires WellFormed(tree) && tree.Obj? && Sound(rules) && j < |rules| && rules[j].action.Set?
    requires ApplyAll(rules, tree, [], context).error.None?
    requires var before := ApplyAll(rules[..j], tree, [], context).tree;
             ValidMutationPath(rules[j].action.path) && Matches(rules[j].when, before, context) == Good(true)
             && OnObject(before, rules[j].action.path)
    requires forall k :: j < k < |rules| ==> Elsewhere(rules[k].action.path, rules[j].action.path)
    ensures Pointer(ApplyAll(rules, tree, [], context).tree, rules[j].action.path[5..]) == Some(rules[j].action.value)
  {
    var before := ApplyAll(rules[..j], tree, [], context);
    ApplyInTwoParts(rules, j, tree, [], context);
    assert forall r :: r in rules[..j] ==> r in rules;
    RulesKeepWellFormed(rules[..j], tree, [], context);
    assert rules[j..][0] == rules[j] && rules[j..][1..] == rules[j + 1..];
    var one := ApplyRule(rules[j], before.tree, before.changes, context);
    SetWrites(rules[j], before.tree, before.changes, context);
    RuleProtects(rules[j], before.tree, before.changes, context, "model");
    RulesElsewhere(rules[j + 1..], one.tree, one.changes, context, rules[j].action.path);
  }

  // ----- later layers win -----

  /** The last place of an element. */
  lemma {:induction false} LastPlace(ts: seq<Tagged>, t: Tagged) returns (j: nat)
    requires t in ts
    ensures j < |ts| && ts[j] == t && forall k :: j < k < |ts| ==> ts[k] != t
  {
    var n := |ts| - 1;
    if ts[n] == t {
      j := n;
    } else {
      assert ts == ts[..n] + [ts[n]];
      j := LastPlace(ts[..n], t);
    }
  }

  /** Whenever the rule gets its turn, its condition holds and its path ends at an object member. */
  ghost predicate AppliedEachTime(rules: seq<RuleDefinition>, s: RuleDefinition, tree: Value, context: Context)
    requires "body:" <= s.action.path
  {
    forall k :: 0 <= k < |rules| && rules[k] == s ==>
      var before := ApplyAll(rules[..k], tree, [], context).tree;
      Matches(s.when, before, context) == Good(true) && OnObject(before, s.action.path)
  }

  /** Of two rules of one phase that set one member, the one of the later layer decides its value,
      unless some third rule touches the same part of the request. */
  lemma {:induction false} LaterLayerWins(id: string, layers: seq<seq<RuleDefinition>>, m: nat, n: nat, r: RuleDefinition, s: RuleDefinition,
                       tree: Value, context: Context)
    requires CompileLayers(id, layers).Good? && m < n < |layers| && r in layers[m] && s in layers[n]
    requires r.phase == s.phase && r.action.Set? && s.action.Set? && r.action.path == s.action.path
    requires ValidMutationPath(s.action.path)
    requires forall l, q :: 0 <= l < |layers| && q in layers[l] ==>
               (l == m && q == r) || (l == n && q == s) || Elsewhere(q.action.path, s.action.path)
    requires WellFormed(tree) && tree.Obj? && Sound(CompileLayers(id, layers).value.rules)
    requires ApplyAll(CompileLayers(id, layers).value.rules, tree, [], context).error.None?
    requires AppliedEachTime(CompileLayers(id, layers).value.rules, s, tree, context)
    ensures Pointer(ApplyAll(CompileLayers(id, layers).value.rules, tree, [], context).tree, s.action.path[5..])
            == Some(s.action.value)
  {
    var rules := CompileLayers(id, layers).value.rules;
    var from := CompiledOrder(id, layers);
    var origins := Origins(rules, from);
    assert Tagged(n, s) in multiset(origins) by { assert s in multiset(layers[n]); }
    var j := LastPlace(origins, Tagged(n, s));
    assert rules[j] == s && from[j] == n;
    forall k | j < k < |rules| ensures Elsewhere(rules[k].action.path, s.action.path) {
      assert origins[k] == Tagged(from[k], rules[k]) && origins[k] in multiset(origins);
      assert from[k] < |layers|;
      assert rules[k] in multiset(layers[from[k]]);
      assert InOrder(rules[j], from[j], rules[k], from[k]);
      if from[k] == m && rules[k] == r && EarlierPhase(s.phase, r.phase) { PhasesApart(s.phase, r.phase); }
    }
    SetStands(rules, j, tree, context);
  }
}
