/** Published rule sets: compiling layers of rules into one order, and applying them to a request
    tree in place, recording what changed. */
module RuleSet {
  import opened Wrappers
  import opened Text
  import opened Json
  import opened Capability
  import V = CapabilityValidation

  datatype Phase = StructureRepair | Default | Range | System | Tools | ThinkingCache | BetaMetadata

  datatype ChangeRisk = Low | Medium | High

  datatype RuleAction =
    | SetDefault(path: string, value: Value)
    | Set(path: string, value: Value)
    | RemoveAt(path: string)
    | Clamp(path: string, minimum: Option<real>, maximum: Option<real>)

  datatype RuleDefinition = RuleDefinition(
    id: string, phase: Phase, action: RuleAction, when: Condition, reason: string, risk: ChangeRisk)

  datatype CompiledRuleSet = CompiledRuleSet(id: string, rules: seq<RuleDefinition>)

  datatype PolicyError = InvalidStructure | ModelUnavailable | CapabilityViolation(found: set<Diagnostic>)
    | CapabilityPathExpansionLimit | CapabilityRuntimeConflict

  /** A recorded mutation; the source keeps digests of the two values instead of the values. */
  datatype AppliedChange = AppliedChange(
    ruleId: string, path: string, before: Option<Value>, after: Option<Value>, reason: string, risk: ChangeRisk)

  function MapRuntimeError(e: RuntimeError): PolicyError {
    match e case PathExpansionLimit => CapabilityPathExpansionLimit case Conflict => CapabilityRuntimeConflict
  }

  // ----- compilation -----

  /** Message content and the model are out of bounds; so is anything outside the body. */
  predicate ValidMutationPath(path: string) {
    "body:" <= path &&
    var pointer := path[5..];
    && "/" <= pointer && '*' !in pointer
    && pointer != "/model" && !("/model/" <= pointer)
    && pointer != "/messages" && !("/messages/" <= pointer)
  }

  function PhaseRank(p: Phase): nat {
    match p
    case StructureRepair => 0
    case Default => 1
    case Range => 2
    case System => 3
    case Tools => 4
    case ThinkingCache => 5
    case BetaMetadata => 6
  }

  datatype Tagged = Tagged(layer: nat, rule: RuleDefinition)

  /** Execution order: phase, then layer, then identifier. */
  predicate Before(a: Tagged, b: Tagged) {
    if PhaseRank(a.rule.phase) != PhaseRank(b.rule.phase) then PhaseRank(a.rule.phase) < PhaseRank(b.rule.phase)
    else if a.layer != b.layer then a.layer < b.layer
    else Less(a.rule.id, b.rule.id)
  }

  function InsertTagged(t: Tagged, ts: seq<Tagged>): seq<Tagged> {
    if ts == [] || Before(t, ts[0]) then [t] + ts else [ts[0]] + InsertTagged(t, ts[1..])
  }

  /** A stable sort. */
  function SortTagged(ts: seq<Tagged>): seq<Tagged> {
    if ts == [] then [] else InsertTagged(ts[|ts| - 1], SortTagged(ts[..|ts| - 1]))
  }

  function TagLayer(layer: nat, rules: seq<RuleDefinition>): seq<Tagged> {
    seq(|rules|, i requires 0 <= i < |rules| => Tagged(layer, rules[i]))
  }

  function TagLayers(layers: seq<seq<RuleDefinition>>): seq<Tagged> {
    if layers == [] then []
    else TagLayers(layers[..|layers| - 1]) + TagLayer(|layers| - 1, layers[|layers| - 1])
  }

  function Untag(ts: seq<Tagged>): seq<RuleDefinition> {
    seq(|ts|, i requires 0 <= i < |ts| => ts[i].rule)
  }

  function RuleError(r: RuleDefinition): Option<CompileError> {
    if !ValidMutationPath(r.action.path) then Some(InvalidPath)
    else if V.Walk(r.when, 1, 0).Bad? then Some(V.Walk(r.when, 1, 0).error)
    else if r.action.Clamp? && r.action.minimum.Some? && r.action.maximum.Some? && r.action.minimum.value > r.action.maximum.value
    then Some(EmptyRange)
    else None
  }

  function FirstError(ts: seq<Tagged>): Option<CompileError> {
    if ts == [] then None else if RuleError(ts[0].rule).Some? then RuleError(ts[0].rule) else FirstError(ts[1..])
  }

  predicate Named(ts: seq<Tagged>) {
    forall t :: t in ts ==> t.rule.id != "" && t.rule.reason != ""
  }

  function CompileLayers(id: string, layers: seq<seq<RuleDefinition>>): Result<CompiledRuleSet, CompileError> {
    var all := TagLayers(layers);
    if id == "" || !Named(all) then Bad(EmptyIdentifier)
    else if FirstError(all).Some? then Bad(FirstError(all).value)
    else Good(CompiledRuleSet(id, Untag(SortTagged(all))))
  }

  // ----- editing through pointers -----

  /** Parent pointer and unescaped leaf; nothing without a slash or with an empty leaf. */
  function SplitPointer(pointer: string): Option<(string, string)> {
    if '/' !in pointer then None else
      var i := LastIndexOf(pointer, '/');
      var leaf := Unescape(pointer[i + 1..]);
      if leaf == "" then None else Some((pointer[..i], leaf))
  }

  function EditPointer(tree: Value, pointer: string, edit: Edit): Option<Value> {
    match SplitPointer(pointer)
    case None => None
    case Some((parent, leaf)) =>
      if parent != "" && parent[0] != '/' then (if edit.SetTo? then None else Some(tree))
      else EditAt(tree, Tokens(parent), leaf, edit)
  }

  function SameOption(a: Option<Value>, b: Option<Value>): bool {
    match (a, b) case (Some(x), Some(y)) => Same(x, y) case _ => a.None? && b.None?
  }

  // ----- applying -----

  function Bounded(x: real, minimum: Option<real>, maximum: Option<real>): real {
    var low := if minimum.Some? then MaxReal(x, minimum.value) else x;
    if maximum.Some? then MinReal(low, maximum.value) else low
  }

  /** The edit an action asks for, given the value found at its path. */
  function EditFor(action: RuleAction, before: Option<Value>): Option<Edit> {
    match action
    case SetDefault(_, value) => if before.None? then Some(SetTo(value)) else None
    case Set(_, value) => Some(SetTo(value))
    case RemoveAt(_) => Some(Delete)
    case Clamp(_, minimum, maximum) =>
      if before.Some? && before.value.Num? then
        var x := AsF64(before.value.num);
        var bounded := Bounded(x, minimum, maximum);
        if bounded != x then Some(SetTo(Num(Float(bounded)))) else None
      else None
  }

  datatype Outcome = Outcome(tree: Value, changes: seq<AppliedChange>, error: Option<PolicyError>)

  /** Apply one rule. */
  function ApplyRule(r: RuleDefinition, tree: Value, changes: seq<AppliedChange>, context: Context): Outcome {
    match Matches(r.when, tree, context)
    case Bad(e) => Outcome(tree, changes, Some(MapRuntimeError(e)))
    case Good(false) => Outcome(tree, changes, None)
    case Good(true) =>
      if !("body:" <= r.action.path) then Outcome(tree, changes, Some(CapabilityRuntimeConflict)) else
        var path := r.action.path[5..];
        var before := Pointer(tree, path);
        var edit := EditFor(r.action, before);
        var edited := if edit.None? then Some(tree) else EditPointer(tree, path, edit.value);
        if edited.None? then Outcome(tree, changes, Some(InvalidStructure)) else
          var after := Pointer(edited.value, path);
          Outcome(edited.value,
                  if SameOption(before, after) then changes
                  else changes + [AppliedChange(r.id, path, before, after, r.reason, r.risk)],
                  None)
  }

  /** Apply rules in order until one fails; what was done before the failure stays done. */
  function ApplyAll(rules: seq<RuleDefinition>, tree: Value, changes: seq<AppliedChange>, context: Context): Outcome {
    if rules == [] then Outcome(tree, changes, None) else
      var one := ApplyRule(rules[0], tree, changes, context);
      if one.error.Some? then one else ApplyAll(rules[1..], one.tree, one.changes, context)
  }

  /** A request tree being adjusted, with the log of what was done to it. */
  class Draft {
    var tree: Value
    var changes: seq<AppliedChange>

    constructor (tree: Value)
      ensures this.tree == tree && changes == []
    {
      this.tree, changes := tree, [];
    }

    method SetPointer(pointer: string, value: Value) returns (ok: bool)
      modifies this`tree
      ensures var edited := EditPointer(old(tree), pointer, SetTo(value));
              ok == edited.Some? && tree == if ok then edited.value else old(tree)
    {
      var split := SplitPointer(pointer);
      if split.None? || (split.value.0 != "" && split.value.0[0] != '/') {
        return false;
      }
      var tokens, leaf := Tokens(split.value.0), split.value.1;
      var found, trail := WalkDown(tree, tokens);
      if !found {
        EditWithoutContainer(tree, tokens, leaf, SetTo(value));
        return false;
      }
      EditThroughContainer(tree, tokens, leaf, SetTo(value));
      var container := trail[|tokens|];
      match container {
        case Obj(members) =>
          container := Obj(Insert(members, leaf, value));
        case Arr(items) =>
          var index := ParseIndex(leaf);
          if index.None? || |items| <= index.value {
            return false;
          }
          container := Arr(items[index.value := value]);
        case _ =>
          return false;
      }
      tree := WriteBack(trail, tree, tokens, container);
      ok := true;
    }

    method RemovePointer(pointer: string) returns (ok: bool)
      modifies this`tree
      ensures var edited := EditPointer(old(tree), pointer, Delete);
              ok == edited.Some? && tree == if ok then edited.value else old(tree)
    {
      var split := SplitPointer(pointer);
      if split.None? {
        return false;
      }
      if split.value.0 != "" && split.value.0[0] != '/' {
        return true;
      }
      var tokens, leaf := Tokens(split.value.0), split.value.1;
      var found, trail := WalkDown(tree, tokens);
      if !found {
        EditWithoutContainer(tree, tokens, leaf, Delete);
        return true;
      }
      EditThroughContainer(tree, tokens, leaf, Delete);
      var container := trail[|tokens|];
      match container {
        case Obj(members) =>
          container := Obj(Remove(members, leaf));
        case Arr(items) =>
          var index := ParseIndex(leaf);
          if index.None? {
            return false;
          }
          if index.value < |items| {
            container := Arr(items[..index.value] + items[index.value + 1..]);
          }
        case _ =>
          return false;
      }
      tree := WriteBack(trail, tree, tokens, container);
      ok := true;
    }

    method ApplyOne(r: RuleDefinition, context: Context) returns (error: Option<PolicyError>)
      modifies this
      ensures Outcome(tree, changes, error) == ApplyRule(r, old(tree), old(changes), context)
    {
      error := None;
      var matched := Matches(r.when, tree, context);
      if matched.Bad? {
        return Some(MapRuntimeError(matched.error));
      }
      if !matched.value {
        return;
      }
      if !("body:" <= r.action.path) {
        return Some(CapabilityRuntimeConflict);
      }
      var path := r.action.path[5..];
      var before := Pointer(tree, path);
      var ok := true;
      match r.action {
        case SetDefault(_, value) =>
          if before.None? { ok := SetPointer(path, value); }
        case Set(_, value) =>
          ok := SetPointer(path, value);
        case RemoveAt(_) =>
          ok := RemovePointer(path);
        case Clamp(_, minimum, maximum) =>
          if before.Some? && before.value.Num? {
            var x := AsF64(before.value.num);
            var bounded := x;
            if minimum.Some? { bounded := MaxReal(bounded, minimum.value); }
            if maximum.Some? { bounded := MinReal(bounded, maximum.value); }
            if bounded != x { ok := SetPointer(path, Num(Float(bounded))); }
          }
      }
      if !ok {
        return Some(InvalidStructure);
      }
      var after := Pointer(tree, path);
      if !SameOption(before, after) {
        changes := changes + [AppliedChange(r.id, path, before, after, r.reason, r.risk)];
      }
    }

    method ApplyRules(ruleset: CompiledRuleSet, context: Context) returns (error: Option<PolicyError>)
      modifies this
      ensures Outcome(tree, changes, error) == ApplyAll(ruleset.rules, old(tree), old(changes), context)
    {
      var rules := ruleset.rules;
      for i := 0 to |rules|
        invariant ApplyAll(rules[i..], tree, changes, context) == ApplyAll(rules, old(tree), old(changes), context)
      {
        assert rules[i..][1..] == rules[i + 1..];
        error := ApplyOne(rules[i], context);
        if error.Some? {
          return;
        }
      }
      error := None;
    }
  }
}
