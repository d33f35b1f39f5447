/** What validation reports: every complaint there is about a request, and no other. */
module ValidationLaws {
  import opened Wrappers
  import opened Text
  import opened Json
  import opened Capability
  import opened CapabilityLaws
  import opened CapabilityValidation
  import opened ConditionLaws

  // ----- what one rule asks of a value -----

  /** The kinds a value has; a whole number is an integer and a number. */
  function Kinds(v: Value): set<JsonType> {
    match v
    case Null => {NullType}
    case Bool(_) => {BooleanType}
    case Num(Float(_)) => {NumberType}
    case Num(_) => {IntegerType, NumberType}
    case Str(_) => {StringType}
    case Arr(_) => {ArrayType}
    case Obj(_) => {ObjectType}
  }

  /** Equal as numbers, or the same scalar. */
  predicate SameScalar(e: Value, v: Value) {
    if e.Num? && v.Num? then AsF64(e.num) == AsF64(v.num) else e == v
  }

  predicate Listed(r: Rule, v: Value) {
    r.enums == [] || exists e :: e in r.enums && SameScalar(e, v)
  }

  predicate Bounded(r: Rule, v: Value) {
    v.Num? ==>
      && (r.minimum.Some? ==> r.minimum.value <= AsF64(v.num))
      && (r.maximum.Some? ==> AsF64(v.num) <= r.maximum.value)
  }

  ghost predicate Below(r: Rule, v: Value, tree: Value, context: Context) {
    r.exclusive.Some? && v.Num? ==>
      forall w :: LeadsTo(r.exclusive.value, tree, context, w) && w.Num? ==> AsF64(v.num) < AsF64(w.num)
  }

  predicate Equipped(r: Rule, v: Value) {
    v.Obj? ==> forall c :: c in r.children ==> Get(v.members, c).Some?
  }

  /** Some kind of the value suits all rules that restrict kinds. */
  ghost predicate KindSuits(rules: seq<Rule>, v: Value) {
    exists t :: t in Kinds(v) && forall r :: r in rules && r.types != {} ==> t in r.types
  }

  /** A rule as the compiler accepts it. */
  ghost predicate SoundRule(r: Rule) {
    (forall e :: e in r.enums ==> IsScalar(e)) && (r.exclusive.Some? ==> ValidRelativePath(r.exclusive.value))
  }

  lemma KindsAre(t: JsonType, v: Value)
    ensures TypeMatches(t, v) <==> t in Kinds(v)
  {
  }

  lemma KindSuitsIs(rules: seq<Rule>, v: Value)
    ensures KindSuits(rules, v) <==> KindShared(rules, v)
  {
    forall t ensures TypeMatches(t, v) <==> t in Kinds(v) { KindsAre(t, v); }
    if t :| t in Kinds(v) && forall r :: r in rules && r.types != {} ==> t in r.types {
      assert TypeMatches(t, v) && SharedType(rules, t);
    }
    if t :| TypeMatches(t, v) && SharedType(rules, t) { assert t in Kinds(v); }
  }

  lemma SameScalarIs(e: Value, v: Value)
    requires IsScalar(e)
    ensures StrictEqual(e, v) <==> SameScalar(e, v)
  {
  }

  lemma ListedIs(r: Rule, v: Value)
    requires SoundRule(r)
    ensures Listed(r, v) <==> r.enums == [] || Admits(r.enums, v)
  {
    forall e | e in r.enums ensures StrictEqual(e, v) <==> SameScalar(e, v) { SameScalarIs(e, v); }
    if i :| 0 <= i < |r.enums| && StrictEqual(r.enums[i], v) { assert r.enums[i] in r.enums; }
    if e :| e in r.enums && SameScalar(e, v) {
      var i :| 0 <= i < |r.enums| && r.enums[i] == e;
      assert StrictEqual(r.enums[i], v);
    }
  }

  lemma BelowIs(r: Rule, v: Value, tree: Value, context: Context)
    requires SoundRule(r)
    ensures Below(r, v, tree, context) <==> ExclusiveOk(r.exclusive, v, tree, context)
  {
    if r.exclusive.Some? {
      RelativeIsSingle(r.exclusive.value, tree, context);
      var values := Expand(r.exclusive.value, tree, context).value;
      forall w ensures LeadsTo(r.exclusive.value, tree, context, w) <==> w in values {
        ExpandIs(r.exclusive.value, tree, context, w);
      }
      if values != [] { assert values[0] in values && values == [values[0]]; }
    }
  }

  // ----- the complaints about one value -----

  const INVALID_TYPE := "invalid_type"
  const INVALID_ENUM := "invalid_enum"
  const OUT_OF_RANGE := "out_of_range"
  const EXCLUSIVE_MAXIMUM := "exclusive_maximum"
  const REQUIRED_CHILD := "required_child"
  const FORBIDDEN := "forbidden"
  const REQUIRED := "required"

  /** Complaints about a value by merged constraints. */
  predicate Wrong(c: Constraints, v: Value, tree: Value, context: Context, code: string) {
    if !TypeOk(c.types, v) then code == INVALID_TYPE else
      || (code == INVALID_ENUM && c.enums != [] && !Admits(c.enums, v))
      || (code == OUT_OF_RANGE && !RangeOk(c.minimum, c.maximum, v))
      || (code == EXCLUSIVE_MAXIMUM && !ExclusiveOk(c.exclusive, v, tree, context))
      || (code == REQUIRED_CHILD && !ChildrenOk(c.children, v))
  }

  lemma ExclusiveReport(c: Constraints, path: string, v: Value, tree: Value, context: Context)
    requires Exclusive(c, path, v, tree, context).Good?
    ensures Exclusive(c, path, v, tree, context).value
         == if ExclusiveOk(c.exclusive, v, tree, context) then {} else {Diagnostic(path, EXCLUSIVE_MAXIMUM)}
  {
  }

  lemma ValueReport(c: Constraints, path: string, v: Value, tree: Value, context: Context, d: Diagnostic)
    requires ValueFindings(c, path, v, tree, context).Good?
    ensures d in ValueFindings(c, path, v, tree, context).value <==> d.path == path && Wrong(c, v, tree, context, d.code)
  {
    if TypeOk(c.types, v) { ExclusiveReport(c, path, v, tree, context); }
    assert d == Diagnostic(d.path, d.code);
  }

  lemma BothHas(a: Findings, b: Findings, d: Diagnostic)
    requires Both(a, b).Good?
    ensures a.Good? && b.Good? && (d in Both(a, b).value <==> d in a.value || d in b.value)
  {
  }

  lemma {:induction false} ValuesReport(c: Constraints, path: string, values: seq<Value>, tree: Value, context: Context, d: Diagnostic)
    requires ValuesFindings(c, path, values, tree, context).Good?
    ensures d in ValuesFindings(c, path, values, tree, context).value <==>
              d.path == path && exists v :: v in values && Wrong(c, v, tree, context, d.code)
  {
    if values != [] {
      var before, v := values[..|values| - 1], values[|values| - 1];
      assert values == before + [v];
      BothHas(ValuesFindings(c, path, before, tree, context), ValueFindings(c, path, v, tree, context), d);
      ValuesReport(c, path, before, tree, context, d);
      ValueReport(c, path, v, tree, context, d);
    }
  }

  // ----- the complaints about one path -----

  /** What the rules for one path have to say about a value at it: about its kind if no kind suits
      them all, and else about everything in which one of them does not allow it. */
  ghost predicate ComplainsOf(rules: seq<Rule>, v: Value, tree: Value, context: Context, code: string) {
    if !KindSuits(rules, v) then code == INVALID_TYPE else
      || (code == INVALID_ENUM && exists r :: r in rules && !Listed(r, v))
      || (code == OUT_OF_RANGE && exists r :: r in rules && !Bounded(r, v))
      || (code == EXCLUSIVE_MAXIMUM && exists r :: r in rules && !Below(r, v, tree, context))
      || (code == REQUIRED_CHILD && exists r :: r in rules && !Equipped(r, v))
  }

  /** What the rules for one path have to say: that a value is missing, that there is one, or what is
      wrong with one of them. */
  ghost predicate Complains(rules: seq<Rule>, path: string, tree: Value, context: Context, final: bool, code: string) {
    if forall v :: !LeadsTo(path, tree, context, v) then
      code == REQUIRED && final && exists r :: r in rules && r.action.Required?
    else if exists r :: r in rules && r.action.Forbidden? then code == FORBIDDEN
    else exists v :: LeadsTo(path, tree, context, v) && ComplainsOf(rules, v, tree, context, code)
  }

  ghost predicate SoundRules(rules: seq<Rule>) {
    forall r :: r in rules ==> SoundRule(r)
  }

  lemma SoundScalars(rules: seq<Rule>)
    requires SoundRules(rules)
    ensures ScalarEnums(rules)
  {
  }

  lemma SharedEnumIs(rules: seq<Rule>, v: Value)
    requires SoundRules(rules)
    ensures SharedEnum(rules, v) <==> forall r :: r in rules ==> Listed(r, v)
  {
    forall r | r in rules ensures Listed(r, v) <==> r.enums == [] || Admits(r.enums, v) { ListedIs(r, v); }
  }

  lemma EachBelowIs(rules: seq<Rule>, v: Value, tree: Value, context: Context)
    requires SoundRules(rules)
    ensures (forall r :: r in rules ==> ExclusiveOk(r.exclusive, v, tree, context)) <==>
              forall r :: r in rules ==> Below(r, v, tree, context)
  {
    forall r | r in rules ensures Below(r, v, tree, context) <==> ExclusiveOk(r.exclusive, v, tree, context) {
      BelowIs(r, v, tree, context);
    }
  }

  lemma WrongIs(rules: seq<Rule>, v: Value, tree: Value, context: Context, code: string)
    requires Merge(rules).Some? && rules != [] && SoundRules(rules)
    ensures Wrong(Merge(rules).value, v, tree, context, code) <==> ComplainsOf(rules, v, tree, context, code)
  {
    SoundScalars(rules);
    MergedTypeOk(rules, v);
    KindSuitsIs(rules, v);
    MergedEnumsOk(rules, v);
    SharedEnumIs(rules, v);
    MergedRangeOk(rules, v);
    MergedRestOk(rules, v, tree, context);
    EachBelowIs(rules, v, tree, context);
    assert forall r :: r in rules ==> (Bounded(r, v) <==> RangeOk(r.minimum, r.maximum, v));
    assert forall r :: r in rules ==> (Equipped(r, v) <==> ChildrenOk(r.children, v));
  }

  lemma {:induction false} PathReport(rules: seq<Rule>, path: string, tree: Value, context: Context, final: bool, d: Diagnostic)
    requires PathFindings(rules, path, tree, context, final).Good? && rules != [] && SoundRules(rules)
    ensures d in PathFindings(rules, path, tree, context, final).value <==>
              d.path == path && Complains(rules, path, tree, context, final, d.code)
  {
    var c := Merge(rules).value;
    var values := Expand(path, tree, context).value;
    MergedRestOk(rules, Null, tree, context);
    forall v ensures LeadsTo(path, tree, context, v) <==> v in values { ExpandIs(path, tree, context, v); }
    assert d == Diagnostic(d.path, d.code);
    if values != [] {
      assert values[0] in values;
      if !c.action.Forbidden? {
        ValuesReport(c, path, values, tree, context, d);
        forall v ensures Wrong(c, v, tree, context, d.code) <==> ComplainsOf(rules, v, tree, context, d.code) {
          WrongIs(rules, v, tree, context, d.code);
        }
      }
    }
  }

  // ----- the whole report -----

  lemma {:induction false} PathsReport(rules: seq<Rule>, paths: seq<string>, tree: Value, context: Context, final: bool, d: Diagnostic)
    requires PathsFindings(rules, paths, tree, context, final).Good? && SoundRules(rules)
    requires forall p :: p in paths ==> Group(rules, p) != []
    ensures d in PathsFindings(rules, paths, tree, context, final).value <==>
              d.path in paths && Complains(Group(rules, d.path), d.path, tree, context, final, d.code)
  {
    if paths != [] {
      var before, p := paths[..|paths| - 1], paths[|paths| - 1];
      assert paths == before + [p];
      BothHas(PathsFindings(rules, before, tree, context, final), PathFindings(Group(rules, p), p, tree, context, final), d);
      PathsReport(rules, before, tree, context, final, d);
      GroupIs(rules, p);
      PathReport(Group(rules, p), p, tree, context, final, d);
    }
  }

  /** The rules that apply at a path of this request. */
  ghost predicate Applying(at: seq<Rule>, rules: seq<Rule>, path: string, tree: Value, context: Context) {
    forall r :: r in at <==> r in rules && r.path == path && Holds(r.when, tree, context)
  }

  lemma {:induction false} ActiveMeans(rules: seq<Rule>, tree: Value, context: Context)
    requires Active(rules, tree, context).Good?
    ensures forall r :: r in Active(rules, tree, context).value <==> r in rules && Holds(r.when, tree, context)
  {
    ActiveIs(rules, tree, context);
    ActiveAnswers(rules, tree, context);
    forall r | r in rules ensures Matches(r.when, tree, context) == Good(true) <==> Holds(r.when, tree, context) {
      MatchesMeans(r.when, tree, context);
    }
  }

  lemma {:induction false} ActiveAnswers(rules: seq<Rule>, tree: Value, context: Context)
    requires Active(rules, tree, context).Good?
    ensures forall r :: r in rules ==> Matches(r.when, tree, context).Good?
  {
    if rules != [] {
      ActiveAnswers(rules[1..], tree, context);
      assert rules == [rules[0]] + rules[1..];
    }
  }

  /** A compiled snapshot that gets to a report reports exactly what its applying rules have to
      complain about, path by path. */
  lemma ReportIs(id: string, model: string, rules: seq<Rule>, tree: Value, context: Context, final: bool, d: Diagnostic)
      returns (at: seq<Rule>)
    requires Compile(id, model, rules).Good? && AllFindings(Compile(id, model, rules).value, tree, context, final).Good?
    ensures Applying(at, rules, d.path, tree, context)
    ensures d in AllFindings(Compile(id, model, rules).value, tree, context, final).value <==>
              at != [] && Complains(at, d.path, tree, context, final, d.code)
  {
    var s := Compile(id, model, rules).value;
    var active := Active(s.rules, tree, context).value;
    CompiledRules(id, model, rules);
    ActiveMeans(s.rules, tree, context);
    PathsAreThePaths(active);
    forall p | p in Paths(active) ensures Group(active, p) != [] {
      var r :| r in active && r.path == p;
      GroupIs(active, p);
      assert r in Group(active, p);
    }
    PathsReport(active, Paths(active), tree, context, final, d);
    at := Group(active, d.path);
    GroupIs(active, d.path);
    if at != [] { assert at[0] in at; }
  }

  /** What any list of the applying rules complains about is reported. */
  lemma {:induction false} ComplaintIsReported(id: string, model: string, rules: seq<Rule>, tree: Value, context: Context, final: bool,
                                               at: seq<Rule>, path: string, code: string)
    requires Compile(id, model, rules).Good? && AllFindings(Compile(id, model, rules).value, tree, context, final).Good?
    requires Applying(at, rules, path, tree, context) && at != [] && Complains(at, path, tree, context, final, code)
    ensures Diagnostic(path, code) in AllFindings(Compile(id, model, rules).value, tree, context, final).value
  {
    var same := ReportIs(id, model, rules, tree, context, final, Diagnostic(path, code));
    SameRules(at, same, rules, path, tree, context);
    ComplaintsOfAll(at, same, path, tree, context, final, code);
  }

  lemma SameRules(a: seq<Rule>, b: seq<Rule>, rules: seq<Rule>, path: string, tree: Value, context: Context)
    requires Applying(a, rules, path, tree, context) && Applying(b, rules, path, tree, context) && a != []
    ensures b != [] && forall r :: r in a <==> r in b
  {
    assert a[0] in a;
    assert a[0] in b;
  }

  /** Nothing is reported exactly when no rule has anything to complain about. */
  lemma {:induction false} NothingReportedIff(id: string, model: string, rules: seq<Rule>, tree: Value, context: Context, final: bool)
    requires Compile(id, model, rules).Good? && AllFindings(Compile(id, model, rules).value, tree, context, final).Good?
    ensures AllFindings(Compile(id, model, rules).value, tree, context, final) == Good({}) <==>
              forall at, path, code :: Applying(at, rules, path, tree, context) && at != [] ==>
                !Complains(at, path, tree, context, final, code)
  {
    var found := AllFindings(Compile(id, model, rules).value, tree, context, final).value;
    if found == {} {
      forall at, path, code | Applying(at, rules, path, tree, context) && at != []
        ensures !Complains(at, path, tree, context, final, code)
      {
        if Complains(at, path, tree, context, final, code) {
          ComplaintIsReported(id, model, rules, tree, context, final, at, path, code);
        }
      }
    } else {
      var d :| d in found;
      var at := ReportIs(id, model, rules, tree, context, final, d);
      assert Applying(at, rules, d.path, tree, context) && Complains(at, d.path, tree, context, final, d.code);
    }
  }

  /** Order and repetition of the rules do not matter. */
  lemma ComplaintsOfAll(a: seq<Rule>, b: seq<Rule>, path: string, tree: Value, context: Context, final: bool, code: string)
    requires forall r :: r in a <==> r in b
    requires Complains(a, path, tree, context, final, code)
    ensures Complains(b, path, tree, context, final, code)
  {
    forall v ensures KindSuits(a, v) <==> KindSuits(b, v) {
      if t :| t in Kinds(v) && forall r :: r in a && r.types != {} ==> t in r.types { assert forall r :: r in b && r.types != {} ==> t in r.types; }
      if t :| t in Kinds(v) && forall r :: r in b && r.types != {} ==> t in r.types { assert forall r :: r in a && r.types != {} ==> t in r.types; }
    }
    forall v | ComplainsOf(a, v, tree, context, code) ensures ComplainsOf(b, v, tree, context, code) {}
  }

  // ----- what compiles -----

  function Nodes(c: Condition): nat
    decreases c, 1
  {
    match c
    case All(cs) => 1 + NodesOf(cs)
    case Any(cs) => 1 + NodesOf(cs)
    case Not(c1) => 1 + Nodes(c1)
    case _ => 1
  }

  function NodesOf(cs: seq<Condition>): nat
    decreases cs, 0
  {
    if cs == [] then 0 else Nodes(cs[0]) + NodesOf(cs[1..])
  }

  /** The condition is nested at most this deep. */
  ghost predicate AtMostDeep(c: Condition, depth: nat)
    decreases c
  {
    depth > 0 && match c
    case All(cs) => forall c1 :: c1 in cs ==> AtMostDeep(c1, depth - 1)
    case Any(cs) => forall c1 :: c1 in cs ==> AtMostDeep(c1, depth - 1)
    case Not(c1) => AtMostDeep(c1, depth - 1)
    case _ => true
  }

  /** Every connective has few enough children, every path is valid and every value compared a scalar. */
  ghost predicate WellMade(c: Condition)
    decreases c
  {
    match c
    case Always => true
    case All(cs) => |cs| <= 32 && forall c1 :: c1 in cs ==> WellMade(c1)
    case Any(cs) => |cs| <= 32 && forall c1 :: c1 in cs ==> WellMade(c1)
    case Not(c1) => WellMade(c1)
    case Present(path, _) => ValidPath(path)
    case Equals(path, v, _) => ValidPath(path) && IsScalar(v)
    case In(path, vs, _) => ValidPath(path) && forall v :: v in vs ==> IsScalar(v)
  }

  ghost predicate AllMade(cs: seq<Condition>, depth: nat) {
    forall c :: c in cs ==> AtMostDeep(c, depth) && WellMade(c)
  }

  lemma {:induction false} AllMadeStep(cs: seq<Condition>, depth: nat)
    requires cs != []
    ensures AllMade(cs, depth) <==> AtMostDeep(cs[0], depth) && WellMade(cs[0]) && AllMade(cs[1..], depth)
  {
    assert cs == [cs[0]] + cs[1..];
    assert forall c :: c in cs <==> c == cs[0] || c in cs[1..];
  }

  lemma {:induction false} WalkIs(c: Condition, depth: nat, nodes: nat)
    requires depth <= MAX_CONDITION_DEPTH + 1
    ensures Walk(c, depth, nodes).Good? <==>
              AtMostDeep(c, MAX_CONDITION_DEPTH + 1 - depth) && nodes + Nodes(c) <= MAX_CONDITION_NODES && WellMade(c)
    ensures Walk(c, depth, nodes).Good? ==> Walk(c, depth, nodes).value == nodes + Nodes(c)
    decreases c, 1
  {
    if depth <= MAX_CONDITION_DEPTH && nodes + 1 <= MAX_CONDITION_NODES {
      match c
      case All(cs) => WalkAllIs(cs, depth + 1, nodes + 1);
      case Any(cs) => WalkAllIs(cs, depth + 1, nodes + 1);
      case Not(c1) => WalkIs(c1, depth + 1, nodes + 1);
      case _ =>
    }
  }

  lemma {:induction false} WalkAllIs(cs: seq<Condition>, depth: nat, nodes: nat)
    requires depth <= MAX_CONDITION_DEPTH + 1 && nodes <= MAX_CONDITION_NODES
    ensures WalkAll(cs, depth, nodes).Good? <==>
              AllMade(cs, MAX_CONDITION_DEPTH + 1 - depth) && nodes + NodesOf(cs) <= MAX_CONDITION_NODES
    ensures WalkAll(cs, depth, nodes).Good? ==> WalkAll(cs, depth, nodes).value == nodes + NodesOf(cs)
    decreases cs, 0
  {
    if cs != [] {
      AllMadeStep(cs, MAX_CONDITION_DEPTH + 1 - depth);
      WalkIs(cs[0], depth, nodes);
      if Walk(cs[0], depth, nodes).Good? { WalkAllIs(cs[1..], depth, nodes + Nodes(cs[0])); }
    }
  }

  /** A condition compiles exactly if it is at most eight levels deep, has at most 128 nodes and is
      well made. */
  lemma {:induction false} ConditionCompilesIff(c: Condition)
    ensures Walk(c, 1, 0).Good? <==> AtMostDeep(c, 8) && Nodes(c) <= 128 && WellMade(c)
  {
    WalkIs(c, 1, 0);
  }

  /** Where the pieces are stars. */
  function StarsAt(parts: seq<string>): set<nat> {
    set i: nat | i < |parts| && parts[i] == "*"
  }

  lemma StarsLast(parts: seq<string>, last: string)
    ensures StarsAt(parts + [last]) == StarsAt(parts) + if last == "*" then {|parts|} else {}
    ensures |parts| !in StarsAt(parts)
  {
    var all := parts + [last];
    forall i: nat ensures i in StarsAt(all) <==> i in StarsAt(parts) || (i == |parts| && last == "*") {
      if i < |parts| { assert all[i] == parts[i]; }
    }
  }

  lemma {:induction false} StarsCounted(parts: seq<string>)
    ensures CountStars(parts) == |StarsAt(parts)|
  {
    if parts == [] {
      assert StarsAt(parts) == {};
    } else {
      var n := |parts| - 1;
      StarsCounted(parts[..n]);
      CountLast(parts[..n], parts[n]);
      StarsLast(parts[..n], parts[n]);
      assert parts == parts[..n] + [parts[n]];
    }
  }

  lemma {:induction false} CountLast(parts: seq<string>, last: string)
    ensures CountStars(parts + [last]) == CountStars(parts) + if last == "*" then 1 else 0
  {
    if parts != [] {
      assert (parts + [last])[1..] == parts[1..] + [last];
      CountLast(parts[1..], last);
    } else {
      assert ([] + [last])[1..] == [];
    }
  }

  /** A path is a pointer into the body with at most three stars, the lower-case name of a header, or one
      of three facts about the request. */
  lemma ValidPathIff(path: string)
    ensures ValidPath(path) <==>
              if "body:" <= path then "/" <= path[5..] && |StarsAt(Split(path[5..], '/'))| <= 3
              else if "header:" <= path then
                path[7..] != "" && forall c :: c in path[7..] ==> c < 128 as char && !('A' <= c <= 'Z')
              else path == "request:client_class" || path == "request:model" || path == "request:stream"
  {
    if "body:" <= path {
      StarsCounted(Split(path[5..], '/'));
    } else if "header:" <= path {
      assert forall i :: 0 <= i < |path[7..]| ==> path[7..][i] in path[7..];
    } else if "request:" <= path {
      assert path == "request:" + path[8..];
      assert "request:" + "client_class" == "request:client_class" && "request:" + "model" == "request:model"
        && "request:" + "stream" == "request:stream";
      assert "request:client_class"[8..] == "client_class" && "request:model"[8..] == "model" && "request:stream"[8..] == "stream";
    } else {
      assert "request:" <= "request:client_class" && "request:" <= "request:model" && "request:" <= "request:stream";
    }
  }

  /** What the compiler asks of a rule. */
  ghost predicate Compilable(r: Rule) {
    && r.id != "" && ValidPath(r.path)
    && (r.exclusive.Some? ==> ValidRelativePath(r.exclusive.value))
    && AtMostDeep(r.when, 8) && Nodes(r.when) <= 128 && WellMade(r.when)
    && (r.minimum.Some? && r.maximum.Some? ==> r.minimum.value <= r.maximum.value)
    && forall v :: v in r.enums ==> IsScalar(v)
  }

  lemma {:induction false} FirstErrorIs(rules: seq<Rule>)
    ensures FirstError(rules).None? <==> forall r :: r in rules ==> RuleError(r).None?
  {
    if rules != [] {
      FirstErrorIs(rules[1..]);
      assert rules == [rules[0]] + rules[1..];
    }
  }

  /** The unconditional rules for a path. */
  ghost predicate PlainAt(at: seq<Rule>, rules: seq<Rule>, path: string) {
    forall r :: r in at <==> r in rules && r.when.Always? && r.path == path
  }

  /** A snapshot compiles exactly if it is named, its rules are compilable, and at every path the
      unconditional rules can be merged. */
  lemma {:induction false} CompilesIff(id: string, model: string, rules: seq<Rule>)
    ensures Compile(id, model, rules).Good? <==>
              && id != "" && model != "" && (forall r :: r in rules ==> Compilable(r))
              && forall path, at :: at != [] && PlainAt(at, rules, path) ==> Merge(at).Some?
  {
    FirstErrorIs(rules);
    forall r: Rule ensures r.id != "" && RuleError(r).None? <==> Compilable(r) { ConditionCompilesIff(r.when); }
    SortKeepsRules(rules);
    if id != "" && model != "" && forall r :: r in rules ==> Compilable(r) { IntersectionsAre(rules); }
  }

  lemma {:induction false} IntersectionsAre(rules: seq<Rule>)
    requires forall r :: r in rules ==> Compilable(r)
    ensures IntersectionsOk(SortById(rules)) <==>
              forall path, at :: at != [] && PlainAt(at, rules, path) ==> Merge(at).Some?
  {
    var plain := Unconditional(SortById(rules));
    SortKeepsRules(rules);
    UnconditionalIs(SortById(rules));
    forall path, at | at != [] && PlainAt(at, rules, path)
      ensures at[0] in plain && (Merge(at).Some? <==> Merge(Group(plain, path)).Some?)
    {
      GroupIs(plain, path);
      assert at[0] in at;
      assert ScalarEnums(at) && forall r :: r in at <==> r in Group(plain, path);
      MergeIsOrderFree(at, Group(plain, path), Null, Null, Context(map[], map[]));
    }
    forall r | r in plain ensures Group(plain, r.path) != [] {
      GroupIs(plain, r.path);
      assert r in Group(plain, r.path);
    }
    if forall path, at :: at != [] && PlainAt(at, rules, path) ==> Merge(at).Some? {
      forall r | r in plain ensures Merge(Group(plain, r.path)).Some? {
        GroupIs(plain, r.path);
        assert PlainAt(Group(plain, r.path), rules, r.path);
      }
    }
  }
}
