/** Compiling a capability artifact and validating request trees against it. */
module CapabilityValidation {
  import opened Wrappers
  import opened Text
  import opened Json
  import opened Capability
  import opened CapabilityLaws

  datatype Snapshot = Snapshot(id: string, model: string, rules: seq<Rule>)

  // ----- compilation -----

  predicate IsLowerAscii(s: string) {
    forall i :: 0 <= i < |s| ==> s[i] as int < 128 && !('A' <= s[i] <= 'Z')
  }

  function CountStars(segments: seq<string>): nat {
    if segments == [] then 0 else (if segments[0] == "*" then 1 else 0) + CountStars(segments[1..])
  }

  predicate ValidPath(path: string) {
    if "body:" <= path then
      var pointer := path[5..];
      pointer != "" && pointer[0] == '/' && CountStars(Split(pointer, '/')) <= MAX_WILDCARDS
    else if "header:" <= path then path[7..] != "" && IsLowerAscii(path[7..])
    else "request:" <= path && path[8..] in {"client_class", "model", "stream"}
  }

  predicate ValidRelativePath(path: string) {
    ValidPath(path) && "body:/" <= path && '*' !in path
  }

  /** Walk a condition depth first, counting nodes; the count so far, or what is wrong. */
  function Walk(c: Condition, depth: nat, nodes: nat): Result<nat, CompileError>
    decreases c, 1
  {
    if depth > MAX_CONDITION_DEPTH || nodes + 1 > MAX_CONDITION_NODES then Bad(ConditionLimit) else
      match c
      case Always => Good(nodes + 1)
      case All(cs) => if |cs| > MAX_DIRECT_CHILDREN then Bad(ConditionLimit) else WalkAll(cs, depth + 1, nodes + 1)
      case Any(cs) => if |cs| > MAX_DIRECT_CHILDREN then Bad(ConditionLimit) else WalkAll(cs, depth + 1, nodes + 1)
      case Not(c1) => Walk(c1, depth + 1, nodes + 1)
      case Present(path, _) => if ValidPath(path) then Good(nodes + 1) else Bad(InvalidPath)
      case Equals(path, v, _) =>
        if !ValidPath(path) then Bad(InvalidPath) else if IsScalar(v) then Good(nodes + 1) else Bad(CompileConflict)
      case In(path, vs, _) =>
        if !ValidPath(path) then Bad(InvalidPath)
        else if forall v :: v in vs ==> IsScalar(v) then Good(nodes + 1) else Bad(CompileConflict)
  }

  function WalkAll(cs: seq<Condition>, depth: nat, nodes: nat): Result<nat, CompileError>
    decreases cs, 0
  {
    if cs == [] then Good(nodes) else
      match Walk(cs[0], depth, nodes) case Bad(e) => Bad(e) case Good(n) => WalkAll(cs[1..], depth, n)
  }

  function RuleError(r: Rule): Option<CompileError> {
    if !ValidPath(r.path) then Some(InvalidPath)
    else if r.exclusive.Some? && !ValidRelativePath(r.exclusive.value) then Some(InvalidPath)
    else if Walk(r.when, 1, 0).Bad? then Some(Walk(r.when, 1, 0).error)
    else if r.minimum.Some? && r.maximum.Some? && r.minimum.value > r.maximum.value then Some(EmptyRange)
    else if exists v :: v in r.enums && !IsScalar(v) then Some(CompileConflict)
    else None
  }

  function FirstError(rules: seq<Rule>): Option<CompileError> {
    if rules == [] then None else if RuleError(rules[0]).Some? then RuleError(rules[0]) else FirstError(rules[1..])
  }

  /** Stable insertion by identifier. */
  function InsertById(r: Rule, rules: seq<Rule>): seq<Rule> {
    if rules == [] || Less(r.id, rules[0].id) then [r] + rules else [rules[0]] + InsertById(r, rules[1..])
  }

  function SortById(rules: seq<Rule>): seq<Rule> {
    if rules == [] then [] else InsertById(rules[|rules| - 1], SortById(rules[..|rules| - 1]))
  }

  /** The rules for one path, in order. */
  function Group(rules: seq<Rule>, path: string): seq<Rule> {
    if rules == [] then [] else (if rules[0].path == path then [rules[0]] else []) + Group(rules[1..], path)
  }

  function Unconditional(rules: seq<Rule>): seq<Rule> {
    if rules == [] then [] else (if rules[0].when.Always? then [rules[0]] else []) + Unconditional(rules[1..])
  }

  predicate IntersectionsOk(rules: seq<Rule>) {
    forall r :: r in Unconditional(rules) ==> Merge(Group(Unconditional(rules), r.path)).Some?
  }

  function Compile(id: string, model: string, rules: seq<Rule>): Result<Snapshot, CompileError> {
    if id == "" || model == "" || exists r :: r in rules && r.id == "" then Bad(EmptyIdentifier)
    else if FirstError(rules).Some? then Bad(FirstError(rules).value)
    else if !IntersectionsOk(SortById(rules)) then Bad(CompileConflict)
    else Good(Snapshot(id, model, SortById(rules)))
  }

  // ----- validation -----

  function Active(rules: seq<Rule>, tree: Value, context: Context): Result<seq<Rule>, RuntimeError> {
    if rules == [] then Good([]) else
      match Matches(rules[0].when, tree, context)
      case Bad(e) => Bad(e)
      case Good(b) =>
        match Active(rules[1..], tree, context)
        case Bad(e) => Bad(e)
        case Good(rest) => Good((if b then [rules[0]] else []) + rest)
  }

  function InsertPath(path: string, paths: seq<string>): seq<string> {
    if paths == [] || Less(path, paths[0]) then [path] + paths
    else if paths[0] == path then paths
    else [paths[0]] + InsertPath(path, paths[1..])
  }

  /** The distinct paths of the rules, in ascending order. */
  function Paths(rules: seq<Rule>): seq<string> {
    if rules == [] then [] else InsertPath(rules[0].path, Paths(rules[1..]))
  }

  type Findings = Result<set<Diagnostic>, RuntimeError>

  function Exclusive(c: Constraints, path: string, v: Value, tree: Value, context: Context): Findings {
    if c.exclusive.None? || !v.Num? then Good({}) else
      match Expand(c.exclusive.value, tree, context)
      case Bad(e) => Bad(e)
      case Good(values) =>
        if |values| > 1 then Bad(Conflict)
        else if values != [] && values[0].Num? && AsF64(v.num) >= AsF64(values[0].num)
        then Good({Diagnostic(path, "exclusive_maximum")})
        else Good({})
  }

  /** What is wrong with one value at the path. */
  function ValueFindings(c: Constraints, path: string, v: Value, tree: Value, context: Context): Findings {
    if !TypeOk(c.types, v) then Good({Diagnostic(path, "invalid_type")}) else
      match Exclusive(c, path, v, tree, context)
      case Bad(e) => Bad(e)
      case Good(found) => Good(found
        + (if c.enums != [] && !Admits(c.enums, v) then {Diagnostic(path, "invalid_enum")} else {})
        + (if !RangeOk(c.minimum, c.maximum, v) then {Diagnostic(path, "out_of_range")} else {})
        + (if !ChildrenOk(c.children, v) then {Diagnostic(path, "required_child")} else {}))
  }

  function Both(a: Findings, b: Findings): Findings {
    if a.Bad? then a else if b.Bad? then b else Good(a.value + b.value)
  }

  function ValuesFindings(c: Constraints, path: string, values: seq<Value>, tree: Value, context: Context): Findings {
    if values == [] then Good({}) else
      Both(ValuesFindings(c, path, values[..|values| - 1], tree, context),
           ValueFindings(c, path, values[|values| - 1], tree, context))
  }

  function PathFindings(group: seq<Rule>, path: string, tree: Value, context: Context, final: bool): Findings {
    match Merge(group)
    case None => Bad(Conflict)
    case Some(c) =>
      match Expand(path, tree, context)
      case Bad(e) => Bad(e)
      case Good(values) =>
        if values == [] then Good(if final && c.action.Required? then {Diagnostic(path, "required")} else {})
        else if c.action.Forbidden? then Good({Diagnostic(path, "forbidden")})
        else ValuesFindings(c, path, values, tree, context)
  }

  function PathsFindings(rules: seq<Rule>, paths: seq<string>, tree: Value, context: Context, final: bool): Findings {
    if paths == [] then Good({}) else
      Both(PathsFindings(rules, paths[..|paths| - 1], tree, context, final),
           PathFindings(Group(rules, paths[|paths| - 1]), paths[|paths| - 1], tree, context, final))
  }

  /** Everything that is wrong with a tree; the diagnostics are a set, which the source lists in
      sorted order. */
  function AllFindings(s: Snapshot, tree: Value, context: Context, final: bool): Findings {
    match Active(s.rules, tree, context)
    case Bad(e) => Bad(e)
    case Good(active) => PathsFindings(active, Paths(active), tree, context, final)
  }

  lemma {:induction false} ValuesStep(c: Constraints, path: string, values: seq<Value>, i: nat, tree: Value, context: Context)
    requires i < |values|
    ensures ValuesFindings(c, path, values[..i + 1], tree, context)
         == Both(ValuesFindings(c, path, values[..i], tree, context), ValueFindings(c, path, values[i], tree, context))
  {
    assert values[..i + 1][..i] == values[..i];
  }

  lemma {:induction false} PathsStep(rules: seq<Rule>, paths: seq<string>, i: nat, tree: Value, context: Context, final: bool)
    requires i < |paths|
    ensures PathsFindings(rules, paths[..i + 1], tree, context, final)
         == Both(PathsFindings(rules, paths[..i], tree, context, final),
                 PathFindings(Group(rules, paths[i]), paths[i], tree, context, final))
  {
    assert paths[..i + 1][..i] == paths[..i];
  }

  method CheckExclusive(c: Constraints, path: string, v: Value, tree: Value, context: Context) returns (r: Findings)
    ensures r == Exclusive(c, path, v, tree, context)
  {
    r := Good({});
    if c.exclusive.Some? && v.Num? {
      var relative := ExpandPath(c.exclusive.value, tree, context);
      if relative.Bad? {
        return Bad(relative.error);
      }
      if |relative.value| > 1 {
        return Bad(Conflict);
      }
      if relative.value != [] && relative.value[0].Num? && AsF64(v.num) >= AsF64(relative.value[0].num) {
        r := Good({Diagnostic(path, "exclusive_maximum")});
      }
    }
  }

  method CheckValue(c: Constraints, path: string, v: Value, tree: Value, context: Context) returns (r: Findings)
    ensures r == ValueFindings(c, path, v, tree, context)
  {
    if !TypeOk(c.types, v) {
      return Good({Diagnostic(path, "invalid_type")});
    }
    var found: set<Diagnostic> := {};
    if c.enums != [] && !Admits(c.enums, v) {
      found := found + {Diagnostic(path, "invalid_enum")};
    }
    if !RangeOk(c.minimum, c.maximum, v) {
      found := found + {Diagnostic(path, "out_of_range")};
    }
    var relative := CheckExclusive(c, path, v, tree, context);
    if relative.Bad? {
      return relative;
    }
    found := found + relative.value;
    if !ChildrenOk(c.children, v) {
      found := found + {Diagnostic(path, "required_child")};
    }
    assert found == ValueFindings(c, path, v, tree, context).value;
    r := Good(found);
  }

  method CheckValues(c: Constraints, path: string, values: seq<Value>, tree: Value, context: Context)
    returns (r: Findings)
    ensures r == ValuesFindings(c, path, values, tree, context)
  {
    var found: set<Diagnostic> := {};
    for i := 0 to |values|
      invariant ValuesFindings(c, path, values[..i], tree, context) == Good(found)
    {
      ValuesStep(c, path, values, i, tree, context);
      var one := CheckValue(c, path, values[i], tree, context);
      if one.Bad? {
        ValuesFail(c, path, values, i + 1, tree, context);
        return one;
      }
      found := found + one.value;
    }
    assert values[..|values|] == values;
    r := Good(found);
  }

  lemma {:induction false} ValuesFail(c: Constraints, path: string, values: seq<Value>, i: nat, tree: Value, context: Context)
    requires i <= |values| && ValuesFindings(c, path, values[..i], tree, context).Bad?
    ensures ValuesFindings(c, path, values, tree, context) == ValuesFindings(c, path, values[..i], tree, context)
    decreases |values| - i
  {
    if i == |values| {
      assert values[..i] == values;
    } else {
      ValuesStep(c, path, values, i, tree, context);
      ValuesFail(c, path, values, i + 1, tree, context);
    }
  }

  lemma {:induction false} PathsFail(rules: seq<Rule>, paths: seq<string>, i: nat, tree: Value, context: Context, final: bool)
    requires i <= |paths| && PathsFindings(rules, paths[..i], tree, context, final).Bad?
    ensures PathsFindings(rules, paths, tree, context, final) == PathsFindings(rules, paths[..i], tree, context, final)
    decreases |paths| - i
  {
    if i == |paths| {
      assert paths[..i] == paths;
    } else {
      PathsStep(rules, paths, i, tree, context, final);
      PathsFail(rules, paths, i + 1, tree, context, final);
    }
  }

  method CheckPath(group: seq<Rule>, path: string, tree: Value, context: Context, final: bool) returns (r: Findings)
    ensures r == PathFindings(group, path, tree, context, final)
  {
    var merged := MergeRules(group);
    if merged.None? {
      return Bad(Conflict);
    }
    var values := ExpandPath(path, tree, context);
    if values.Bad? {
      return Bad(values.error);
    }
    if values.value == [] {
      r := Good(if final && merged.value.action.Required? then {Diagnostic(path, "required")} else {});
    } else if merged.value.action.Forbidden? {
      r := Good({Diagnostic(path, "forbidden")});
    } else {
      r := CheckValues(merged.value, path, values.value, tree, context);
    }
  }

  method Validate(s: Snapshot, tree: Value, context: Context, final: bool) returns (r: Findings)
    ensures r == AllFindings(s, tree, context, final)
  {
    var active := Active(s.rules, tree, context);
    if active.Bad? {
      return Bad(active.error);
    }
    var paths := Paths(active.value);
    var found: set<Diagnostic> := {};
    for i := 0 to |paths|
      invariant PathsFindings(active.value, paths[..i], tree, context, final) == Good(found)
    {
      PathsStep(active.value, paths, i, tree, context, final);
      var one := CheckPath(Group(active.value, paths[i]), paths[i], tree, context, final);
      if one.Bad? {
        PathsFail(active.value, paths, i + 1, tree, context, final);
        return one;
      }
      found := found + one.value;
    }
    assert paths[..|paths|] == paths;
    r := Good(found);
  }

  // ----- what compilation guarantees -----

  lemma {:induction false} SortKeepsRules(rules: seq<Rule>)
    ensures forall r :: r in SortById(rules) <==> r in rules
  {
    if rules != [] {
      LastSplit(rules);
      SortKeepsRules(rules[..|rules| - 1]);
      InsertKeepsRules(rules[|rules| - 1], SortById(rules[..|rules| - 1]));
    }
  }

  lemma {:induction false} InsertKeepsRules(r: Rule, rules: seq<Rule>)
    ensures forall s :: s in InsertById(r, rules) <==> s == r || s in rules
  {
    if !(rules == [] || Less(r.id, rules[0].id)) {
      InsertKeepsRules(r, rules[1..]);
    }
  }

  lemma {:induction false} PathsAreThePaths(rules: seq<Rule>)
    ensures forall p :: p in Paths(rules) <==> exists r :: r in rules && r.path == p
  {
    if rules != [] {
      PathsAreThePaths(rules[1..]);
      InsertKeepsPaths(rules[0].path, Paths(rules[1..]));
      assert rules == [rules[0]] + rules[1..];
    }
  }

  lemma {:induction false} InsertKeepsPaths(path: string, paths: seq<string>)
    ensures forall p :: p in InsertPath(path, paths) <==> p == path || p in paths
  {
    if paths != [] && !Less(path, paths[0]) && paths[0] != path {
      InsertKeepsPaths(path, paths[1..]);
    }
  }

  lemma {:induction false} GroupIs(rules: seq<Rule>, path: string)
    ensures forall r :: r in Group(rules, path) <==> r in rules && r.path == path
  {
    if rules != [] {
      GroupIs(rules[1..], path);
      assert rules == [rules[0]] + rules[1..];
    }
  }

  lemma {:induction false} UnconditionalIs(rules: seq<Rule>)
    ensures forall r :: r in Unconditional(rules) <==> r in rules && r.when.Always?
  {
    if rules != [] {
      UnconditionalIs(rules[1..]);
      assert rules == [rules[0]] + rules[1..];
    }
  }

  lemma {:induction false} ActiveIs(rules: seq<Rule>, tree: Value, context: Context)
    requires Active(rules, tree, context).Good?
    ensures forall r :: r in Active(rules, tree, context).value <==>
                        r in rules && Matches(r.when, tree, context) == Good(true)
  {
    if rules != [] {
      ActiveIs(rules[1..], tree, context);
      assert rules == [rules[0]] + rules[1..];
    }
  }

  lemma {:induction false} NoErrorMeansNone(rules: seq<Rule>)
    requires FirstError(rules).None?
    ensures forall r :: r in rules ==> RuleError(r).None?
  {
    if rules != [] {
      NoErrorMeansNone(rules[1..]);
      assert rules == [rules[0]] + rules[1..];
    }
  }

  /** What every compiled rule has. */
  lemma CompiledRules(id: string, model: string, rules: seq<Rule>)
    requires Compile(id, model, rules).Good?
    ensures var s := Compile(id, model, rules).value;
            && ScalarEnums(s.rules) && IntersectionsOk(s.rules)
            && (forall r :: r in s.rules <==> r in rules)
            && forall r :: r in s.rules && r.exclusive.Some? ==> ValidRelativePath(r.exclusive.value)
  {
    SortKeepsRules(rules);
    NoErrorMeansNone(rules);
  }

  // ----- a relative path names at most one value -----

  lemma {:induction false} PlainSegments(values: seq<Value>, segments: seq<string>)
    requires |values| <= 1 && forall i :: 0 <= i < |segments| ==> segments[i] != "*"
    ensures ExpandSegments(values, segments).Good? && |ExpandSegments(values, segments).value| <= 1
    decreases |segments|
  {
    if segments != [] {
      if values != [] { assert values[..0] == []; }
      assert |Level(values, segments[0])| <= 1;
      PlainSegments(Level(values, segments[0]), segments[1..]);
    }
  }

  /** Without a star in the text no segment becomes one, escapes or not. */
  lemma StarIsSpelled(raw: string)
    requires '*' !in raw
    ensures Unescape(raw) != "*"
  {
    UnescapePlain(raw, "*");
  }

  lemma {:induction false} SplitKeepsChars(s: string, sep: char, c: char)
    requires c !in s
    ensures forall i :: 0 <= i < |Split(s, sep)| ==> c !in Split(s, sep)[i]
    decreases |s|
  {
    var i := IndexOf(s, sep);
    if i < |s| {
      SplitKeepsChars(s[i + 1..], sep, c);
    }
  }

  lemma RelativeIsSingle(path: string, tree: Value, context: Context)
    requires ValidRelativePath(path)
    ensures Expand(path, tree, context).Good? && |Expand(path, tree, context).value| <= 1
  {
    var raws := Split(path[5..], '/')[1..];
    SplitKeepsChars(path[5..], '/', '*');
    forall i | 0 <= i < |raws|
      ensures UnescapeAll(raws)[i] != "*"
    {
      StarIsSpelled(raws[i]);
    }
    PlainSegments([tree], UnescapeAll(raws));
  }

  // ----- no conflict at run time -----

  lemma {:induction false} ValuesNoConflict(c: Constraints, path: string, values: seq<Value>, tree: Value, context: Context)
    requires c.exclusive.Some? ==> ValidRelativePath(c.exclusive.value)
    ensures ValuesFindings(c, path, values, tree, context).Good?
  {
    if values != [] {
      ValuesNoConflict(c, path, values[..|values| - 1], tree, context);
      if c.exclusive.Some? { RelativeIsSingle(c.exclusive.value, tree, context); }
    }
  }

  lemma MergedExclusive(group: seq<Rule>)
    requires Merge(group).Some? && group != []
    requires forall r :: r in group && r.exclusive.Some? ==> ValidRelativePath(r.exclusive.value)
    ensures Merge(group).value.exclusive.Some? ==> ValidRelativePath(Merge(group).value.exclusive.value)
  {
    FoldRest(group);
  }

  lemma {:induction false} PathsNoConflict(rules: seq<Rule>, paths: seq<string>, tree: Value, context: Context, final: bool)
    requires forall p :: p in paths ==> Group(rules, p) != [] && Merge(Group(rules, p)).Some?
    requires forall r :: r in rules && r.exclusive.Some? ==> ValidRelativePath(r.exclusive.value)
    ensures PathsFindings(rules, paths, tree, context, final) != Bad(Conflict)
  {
    if paths != [] {
      var before, path := paths[..|paths| - 1], paths[|paths| - 1];
      PathsNoConflict(rules, before, tree, context, final);
      assert path in paths;
      GroupIs(rules, path);
      MergedExclusive(Group(rules, path));
      match Expand(path, tree, context)
      case Bad(e) => ExpandNeverConflicts(path, tree, context);
      case Good(values) => ValuesNoConflict(Merge(Group(rules, path)).value, path, values, tree, context);
    }
  }

  lemma {:induction false} SegmentsNeverConflict(values: seq<Value>, segments: seq<string>)
    ensures ExpandSegments(values, segments) != Bad(Conflict)
    decreases |segments|
  {
    if segments != [] { SegmentsNeverConflict(Level(values, segments[0]), segments[1..]); }
  }

  lemma ExpandNeverConflicts(path: string, tree: Value, context: Context)
    ensures Expand(path, tree, context) != Bad(Conflict)
  {
    if "body:" <= path { SegmentsNeverConflict([tree], UnescapeAll(Split(path[5..], '/')[1..])); }
  }

  lemma {:induction false} MatchesNeverConflicts(c: Condition, tree: Value, context: Context)
    ensures Matches(c, tree, context) != Bad(Conflict)
    decreases c, 1
  {
    match c
    case Always =>
    case All(cs) => MatchesAllNeverConflicts(cs, tree, context);
    case Any(cs) => MatchesAllNeverConflicts(cs, tree, context);
    case Not(c1) => MatchesNeverConflicts(c1, tree, context);
    case Present(path, _) => ExpandNeverConflicts(path, tree, context);
    case Equals(path, _, _) => ExpandNeverConflicts(path, tree, context);
    case In(path, _, _) => ExpandNeverConflicts(path, tree, context);
  }

  lemma {:induction false} MatchesAllNeverConflicts(cs: seq<Condition>, tree: Value, context: Context)
    ensures MatchesAll(cs, tree, context) != Bad(Conflict) && MatchesAny(cs, tree, context) != Bad(Conflict)
    decreases cs, 0
  {
    if cs != [] {
      MatchesNeverConflicts(cs[0], tree, context);
      MatchesAllNeverConflicts(cs[1..], tree, context);
    }
  }

  lemma {:induction false} ActiveNeverConflicts(rules: seq<Rule>, tree: Value, context: Context)
    ensures Active(rules, tree, context) != Bad(Conflict)
  {
    if rules != [] {
      MatchesNeverConflicts(rules[0].when, tree, context);
      ActiveNeverConflicts(rules[1..], tree, context);
    }
  }

  /** If the rules of every path merge whatever their conditions, no tree and no context can make
      them conflict at run time. */
  lemma MergeableNeverConflicts(s: Snapshot, tree: Value, context: Context, final: bool)
    requires ScalarEnums(s.rules) && forall r :: r in s.rules ==> Merge(Group(s.rules, r.path)).Some?
    requires forall r :: r in s.rules && r.exclusive.Some? ==> ValidRelativePath(r.exclusive.value)
    ensures AllFindings(s, tree, context, final) != Bad(Conflict)
  {
    ActiveNeverConflicts(s.rules, tree, context);
    if Active(s.rules, tree, context).Good? {
      var active := Active(s.rules, tree, context).value;
      ActiveIs(s.rules, tree, context);
      PathsAreThePaths(active);
      forall p | p in Paths(active)
        ensures Group(active, p) != [] && Merge(Group(active, p)).Some?
      {
        var r :| r in active && r.path == p;
        GroupIs(active, p);
        GroupIs(s.rules, p);
        assert r in Group(active, p);
        MergeIsHereditary(Group(s.rules, p), Group(active, p));
      }
      PathsNoConflict(active, Paths(active), tree, context, final);
    }
  }

  lemma {:induction false} AllUnconditional(rules: seq<Rule>)
    requires forall r :: r in rules ==> r.when.Always?
    ensures Unconditional(rules) == rules
  {
    if rules != [] {
      assert rules[0] in rules && rules == [rules[0]] + rules[1..];
      AllUnconditional(rules[1..]);
    }
  }

  /** The compile-time check is complete for unconditional rules: what compiles never conflicts. */
  lemma UnconditionalNeverConflicts(id: string, model: string, rules: seq<Rule>, tree: Value, context: Context, final: bool)
    requires Compile(id, model, rules).Good? && forall r :: r in rules ==> r.when.Always?
    ensures AllFindings(Compile(id, model, rules).value, tree, context, final) != Bad(Conflict)
  {
    CompiledRules(id, model, rules);
    var s := Compile(id, model, rules).value;
    AllUnconditional(s.rules);
    MergeableNeverConflicts(s, tree, context, final);
  }

  // ----- what an empty report means -----

  /** A rule, taken by itself, has nothing to complain about. */
  ghost predicate RuleHappy(r: Rule, tree: Value, context: Context, final: bool) {
    match Expand(r.path, tree, context)
    case Bad(_) => false
    case Good(values) =>
      && (values == [] ==> !(final && r.action.Required?))
      && forall v :: v in values ==> Accepts(OwnConstraints(r), v, tree, context)
  }

  lemma CleanIffAccepted(c: Constraints, path: string, v: Value, tree: Value, context: Context)
    requires !c.action.Forbidden?
    ensures ValueFindings(c, path, v, tree, context) == Good({}) <==> Accepts(c, v, tree, context)
  {
  }

  lemma {:induction false} CleanValues(c: Constraints, path: string, values: seq<Value>, tree: Value, context: Context)
    requires !c.action.Forbidden?
    ensures ValuesFindings(c, path, values, tree, context) == Good({}) <==>
            forall v :: v in values ==> Accepts(c, v, tree, context)
  {
    if values != [] {
      var before, v := values[..|values| - 1], values[|values| - 1];
      assert values == before + [v];
      CleanValues(c, path, before, tree, context);
      CleanIffAccepted(c, path, v, tree, context);
    }
  }

  /** A clean path: every rule for it is happy, and a whole number at it does not sit between an
      integer rule and a number rule. */
  lemma CleanPath(group: seq<Rule>, path: string, tree: Value, context: Context, final: bool)
    requires ScalarEnums(group) && group != [] && forall r :: r in group ==> r.path == path
    requires Merge(group).Some?
    ensures PathFindings(group, path, tree, context, final) == Good({}) <==>
            && (forall r :: r in group ==> RuleHappy(r, tree, context, final))
            && (Expand(path, tree, context).Good? ==>
                  forall v :: v in Expand(path, tree, context).value && IsInteger(v) ==> OneNumericType(group))
  {
    var c := Merge(group).value;
    assert group[0] in group;
    match Expand(path, tree, context)
    case Bad(_) =>
    case Good(values) =>
      MergedRestOk(group, Null, tree, context);
      if values != [] {
        assert values[0] in values;
        if !c.action.Forbidden? { CleanValues(c, path, values, tree, context); }
        forall v | v in values
          ensures Accepts(c, v, tree, context) <==>
                  EachAccepts(group, v, tree, context) && (IsInteger(v) ==> OneNumericType(group))
        {
          MergeIsExact(group, v, tree, context);
          if EachAccepts(group, v, tree, context) { EachImpliesMerged(group, v, tree, context); }
        }
        assert (forall r :: r in group ==> RuleHappy(r, tree, context, final)) <==>
               forall v :: v in values ==> EachAccepts(group, v, tree, context);
      }
  }

  lemma BothClean(a: Findings, b: Findings)
    ensures Both(a, b) == Good({}) <==> a == Good({}) && b == Good({})
  {
    if a.Good? && b.Good? {
      assert a.value + b.value == {} <==> a.value == {} && b.value == {};
    }
  }

  lemma {:induction false} CleanStep(rules: seq<Rule>, paths: seq<string>, i: nat, tree: Value, context: Context, final: bool)
    requires i < |paths| && PathsFindings(rules, paths[..i + 1], tree, context, final) == Good({})
    ensures PathsFindings(rules, paths[..i], tree, context, final) == Good({})
    ensures PathFindings(Group(rules, paths[i]), paths[i], tree, context, final) == Good({})
  {
    PathsStep(rules, paths, i, tree, context, final);
    BothClean(PathsFindings(rules, paths[..i], tree, context, final),
              PathFindings(Group(rules, paths[i]), paths[i], tree, context, final));
  }

  /** No findings at all means none at any one path. */
  lemma {:induction false} CleanPaths(rules: seq<Rule>, paths: seq<string>, i: nat, j: nat, tree: Value, context: Context, final: bool)
    requires j < i <= |paths| && PathsFindings(rules, paths[..i], tree, context, final) == Good({})
    ensures PathFindings(Group(rules, paths[j]), paths[j], tree, context, final) == Good({})
  {
    CleanStep(rules, paths, i - 1, tree, context, final);
    if j < i - 1 {
      CleanPaths(rules, paths, i - 1, j, tree, context, final);
    }
  }

  /** Validation is sound: when a compiled snapshot reports nothing, every rule whose condition
      holds is satisfied by every value at its path, and by the absence of one. */
  lemma {:induction false} CleanMeansEveryRuleHappy(id: string, model: string, rules: seq<Rule>, tree: Value, context: Context, final: bool, r: Rule)
    requires Compile(id, model, rules).Good?
    requires AllFindings(Compile(id, model, rules).value, tree, context, final) == Good({})
    requires r in rules && Matches(r.when, tree, context) == Good(true)
    ensures RuleHappy(r, tree, context, final)
  {
    CompiledRules(id, model, rules);
    var s := Compile(id, model, rules).value;
    var active := Active(s.rules, tree, context).value;
    ActiveIs(s.rules, tree, context);
    PathsAreThePaths(active);
    assert r in active && r.path in Paths(active);
    var j :| 0 <= j < |Paths(active)| && Paths(active)[j] == r.path;
    assert Paths(active)[..|Paths(active)|] == Paths(active);
    CleanPaths(active, Paths(active), |Paths(active)|, j, tree, context, final);
    GroupIs(active, r.path);
    assert r in Group(active, r.path);
    CleanPath(Group(active, r.path), r.path, tree, context, final);
  }
}
