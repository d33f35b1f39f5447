/** Model capabilities: conditions over a request tree, path expansion, and merging of rules.

    The rules that apply to one path are merged into a single set of constraints: the types and the
    listed values common to all rules and the narrower range.  Rules clash when their actions or
    relative maxima do, or when they leave no type, value or number. */
module Capability {
  import opened Wrappers
  import opened Text
  import opened Json

  const MAX_CONDITION_DEPTH := 8
  const MAX_CONDITION_NODES := 128
  const MAX_DIRECT_CHILDREN := 32
  const MAX_WILDCARDS := 3
  const MAX_PATH_EXPANSIONS := 1024

  datatype Action = Required | Allowed | Forbidden

  datatype JsonType = NullType | BooleanType | IntegerType | NumberType | StringType | ArrayType | ObjectType

  datatype MatchMode = AnyMatch | AllMatch

  datatype Condition =
    | Always
    | All(conditions: seq<Condition>)
    | Any(conditions: seq<Condition>)
    | Not(condition: Condition)
    | Present(path: string, mode: MatchMode)
    | Equals(path: string, value: Value, mode: MatchMode)
    | In(path: string, values: seq<Value>, mode: MatchMode)

  datatype Rule = Rule(
    id: string, path: string, action: Action, types: set<JsonType>, enums: seq<Value>,
    minimum: Option<real>, maximum: Option<real>, exclusive: Option<string>, children: set<string>,
    when: Condition)

  datatype Context = Context(headers: map<string, Value>, request: map<string, Value>)

  datatype CompileError = EmptyIdentifier | InvalidPath | ConditionLimit | EmptyRange | CompileConflict

  datatype RuntimeError = PathExpansionLimit | Conflict

  datatype Diagnostic = Diagnostic(path: string, code: string)

  // ----- path expansion -----

  /** One level of expansion: a star opens arrays, anything else names an object member. */
  function Next(v: Value, segment: string): seq<Value> {
    if segment == "*" then (if v.Arr? then v.items else [])
    else if v.Obj? && Get(v.members, segment).Some? then [Get(v.members, segment).value]
    else []
  }

  function Level(values: seq<Value>, segment: string): seq<Value> {
    if values == [] then [] else Level(values[..|values| - 1], segment) + Next(values[|values| - 1], segment)
  }

  function ExpandSegments(values: seq<Value>, segments: seq<string>): Result<seq<Value>, RuntimeError>
    decreases |segments|
  {
    if segments == [] then Good(values) else
      var next := Level(values, segments[0]);
      if |next| > MAX_PATH_EXPANSIONS then Bad(PathExpansionLimit) else ExpandSegments(next, segments[1..])
  }

  function Lookup(m: map<string, Value>, name: string): seq<Value> {
    if name in m then [m[name]] else []
  }

  /** The values a capability path stands for in a request. */
  function Expand(path: string, tree: Value, context: Context): Result<seq<Value>, RuntimeError> {
    if "body:" <= path then ExpandSegments([tree], UnescapeAll(Split(path[5..], '/')[1..]))
    else if "header:" <= path then Good(Lookup(context.headers, path[7..]))
    else if "request:" <= path then Good(Lookup(context.request, path[8..]))
    else Good([])
  }

  lemma {:induction false} LevelPrefix(values: seq<Value>, i: nat, segment: string)
    requires i < |values|
    ensures Level(values[..i + 1], segment) == Level(values[..i], segment) + Next(values[i], segment)
  {
    assert values[..i + 1][..i] == values[..i];
  }

  lemma {:induction false} LevelGrows(values: seq<Value>, i: nat, segment: string)
    requires i <= |values|
    ensures |Level(values[..i], segment)| <= |Level(values, segment)|
    decreases |values| - i
  {
    if i == |values| {
      assert values[..i] == values;
    } else {
      LevelPrefix(values, i, segment);
      LevelGrows(values, i + 1, segment);
    }
  }

  /** The expansion loop, with its bound checked as the frontier grows. */
  method ExpandBody(pointer: string, tree: Value) returns (r: Result<seq<Value>, RuntimeError>)
    ensures r == ExpandSegments([tree], UnescapeAll(Split(pointer, '/')[1..]))
  {
    var segments := UnescapeAll(Split(pointer, '/')[1..]);
    var values := [tree];
    for i := 0 to |segments|
      invariant ExpandSegments(values, segments[i..]) == ExpandSegments([tree], segments)
    {
      var next := [];
      for j := 0 to |values|
        invariant next == Level(values[..j], segments[i]) && |next| <= MAX_PATH_EXPANSIONS
      {
        LevelPrefix(values, j, segments[i]);
        next := next + Next(values[j], segments[i]);
        if |next| > MAX_PATH_EXPANSIONS {
          LevelGrows(values, j + 1, segments[i]);
          return Bad(PathExpansionLimit);
        }
      }
      assert values[..|values|] == values;
      assert segments[i..][1..] == segments[i + 1..];
      values := next;
    }
    r := Good(values);
  }

  method ExpandPath(path: string, tree: Value, context: Context) returns (r: Result<seq<Value>, RuntimeError>)
    ensures r == Expand(path, tree, context)
  {
    if "body:" <= path {
      r := ExpandBody(path[5..], tree);
    } else if "header:" <= path {
      r := Good(Lookup(context.headers, path[7..]));
    } else if "request:" <= path {
      r := Good(Lookup(context.request, path[8..]));
    } else {
      r := Good([]);
    }
  }

  // ----- comparisons -----

  function KindOf(v: Value): nat {
    match v
    case Null => 0
    case Bool(_) => 1
    case Num(_) => 2
    case Str(_) => 3
    case Arr(_) => 4
    case Obj(_) => 5
  }

  predicate IsScalar(v: Value) {
    v.Null? || v.Bool? || v.Num? || v.Str?
  }

  /** Equality of JSON values: member order does not matter. */
  predicate Same(a: Value, b: Value)
    decreases a
  {
    match a
    case Arr(xs) => b.Arr? && |xs| == |b.items| && forall i :: 0 <= i < |xs| ==> Same(xs[i], b.items[i])
    case Obj(ms) =>
      b.Obj? && |ms| == |b.members| && forall i :: 0 <= i < |ms| ==>
        Get(b.members, ms[i].key).Some? && Same(ms[i].value, Get(b.members, ms[i].key).value)
    case _ => a == b
  }

  /** Numbers compare by value, everything else by kind and content. */
  predicate StrictEqual(a: Value, b: Value) {
    if a.Num? && b.Num? then AsF64(a.num) == AsF64(b.num) else KindOf(a) == KindOf(b) && Same(a, b)
  }

  predicate TypeMatches(t: JsonType, v: Value) {
    match t
    case NullType => v.Null?
    case BooleanType => v.Bool?
    case IntegerType => v.Num? && !v.num.Float?
    case NumberType => v.Num?
    case StringType => v.Str?
    case ArrayType => v.Arr?
    case ObjectType => v.Obj?
  }

  // ----- conditions -----

  function Reduce(matches: seq<bool>, mode: MatchMode): bool {
    matches != [] && match mode case AnyMatch => true in matches case AllMatch => false !in matches
  }

  function MapEquals(values: seq<Value>, expected: seq<Value>): seq<bool> {
    if values == [] then []
    else [exists e :: e in expected && StrictEqual(values[0], e)] + MapEquals(values[1..], expected)
  }

  function MapTrue(values: seq<Value>): seq<bool> {
    seq(|values|, _ => true)
  }

  /** Evaluate a condition; connectives stop at the first decisive child, so an expansion error in a
      later one goes unnoticed. */
  function Matches(c: Condition, tree: Value, context: Context): Result<bool, RuntimeError>
    decreases c, 1
  {
    match c
    case Always => Good(true)
    case All(cs) => MatchesAll(cs, tree, context)
    case Any(cs) => MatchesAny(cs, tree, context)
    case Not(c1) =>
      (match Matches(c1, tree, context) case Good(b) => Good(!b) case Bad(e) => Bad(e))
    case Present(path, mode) =>
      (match Expand(path, tree, context) case Good(vs) => Good(Reduce(MapTrue(vs), mode)) case Bad(e) => Bad(e))
    case Equals(path, value, mode) =>
      (match Expand(path, tree, context) case Good(vs) => Good(Reduce(MapEquals(vs, [value]), mode)) case Bad(e) => Bad(e))
    case In(path, values, mode) =>
      (match Expand(path, tree, context) case Good(vs) => Good(Reduce(MapEquals(vs, values), mode)) case Bad(e) => Bad(e))
  }

  function MatchesAll(cs: seq<Condition>, tree: Value, context: Context): Result<bool, RuntimeError>
    decreases cs, 0
  {
    if cs == [] then Good(true) else
      match Matches(cs[0], tree, context)
      case Bad(e) => Bad(e)
      case Good(b) => if !b then Good(false) else MatchesAll(cs[1..], tree, context)
  }

  function MatchesAny(cs: seq<Condition>, tree: Value, context: Context): Result<bool, RuntimeError>
    decreases cs, 0
  {
    if cs == [] then Good(false) else
      match Matches(cs[0], tree, context)
      case Bad(e) => Bad(e)
      case Good(b) => if b then Good(true) else MatchesAny(cs[1..], tree, context)
  }

  // ----- merging -----

  datatype Constraints = Constraints(
    action: Action, types: set<JsonType>, enums: seq<Value>, minimum: Option<real>, maximum: Option<real>,
    exclusive: Option<string>, children: set<string>)

  /** The constraints one rule states by itself. */
  function OwnConstraints(r: Rule): Constraints {
    Constraints(r.action, r.types, r.enums, r.minimum, r.maximum, r.exclusive, r.children)
  }

  datatype Acc = Acc(
    action: Option<Action>, types: Option<set<JsonType>>, enums: Option<seq<Value>>, minimum: Option<real>,
    maximum: Option<real>, exclusive: Option<string>, children: set<string>)

  const EMPTY := Acc(None, None, None, None, None, None, {})

  function MergeAction(left: Action, right: Action): Option<Action> {
    if left.Forbidden? && right.Forbidden? then Some(Forbidden)
    else if left.Forbidden? || right.Forbidden? then None
    else if left.Required? || right.Required? then Some(Required)
    else Some(Allowed)
  }

  predicate Admits(values: seq<Value>, v: Value) {
    exists i :: 0 <= i < |values| && StrictEqual(values[i], v)
  }

  /** The candidates that equal something in `allowed`. */
  function Keep(candidates: seq<Value>, allowed: seq<Value>): seq<Value> {
    if candidates == [] then []
    else (if exists e :: e in allowed && StrictEqual(candidates[0], e) then [candidates[0]] else [])
         + Keep(candidates[1..], allowed)
  }

  function MaxReal(a: real, b: real): real { if a < b then b else a }

  function MinReal(a: real, b: real): real { if b < a then b else a }

  /** Take one more rule into account; nothing when its action or its relative maximum clashes. */
  function Absorb(acc: Acc, r: Rule): Option<Acc> {
    var action := if acc.action.None? then Some(r.action) else MergeAction(acc.action.value, r.action);
    if action.None? || (r.exclusive.Some? && acc.exclusive.Some? && acc.exclusive != r.exclusive) then None else
      Some(Acc(
        action,
        if r.types == {} then acc.types else Some(if acc.types.None? then r.types else acc.types.value * r.types),
        if r.enums == [] then acc.enums else Some(if acc.enums.None? then r.enums else Keep(acc.enums.value, r.enums)),
        if acc.minimum.Some? && r.minimum.Some? then Some(MaxReal(acc.minimum.value, r.minimum.value))
        else if acc.minimum.Some? then acc.minimum else r.minimum,
        if acc.maximum.Some? && r.maximum.Some? then Some(MinReal(acc.maximum.value, r.maximum.value))
        else if acc.maximum.Some? then acc.maximum else r.maximum,
        if r.exclusive.Some? then r.exclusive else acc.exclusive,
        acc.children + r.children))
  }

  function Fold(rules: seq<Rule>): Option<Acc> {
    if rules == [] then Some(EMPTY) else
      match Fold(rules[..|rules| - 1])
      case None => None
      case Some(acc) => Absorb(acc, rules[|rules| - 1])
  }

  function Finish(acc: Acc): Option<Constraints> {
    if (acc.types.Some? && acc.types.value == {})
       || (acc.enums.Some? && acc.enums.value == [])
       || (acc.minimum.Some? && acc.maximum.Some? && acc.minimum.value > acc.maximum.value)
    then None
    else Some(Constraints(
      if acc.action.Some? then acc.action.value else Allowed,
      if acc.types.Some? then acc.types.value else {},
      if acc.enums.Some? then acc.enums.value else [],
      acc.minimum, acc.maximum, acc.exclusive, acc.children))
  }

  function Merge(rules: seq<Rule>): Option<Constraints> {
    match Fold(rules) case None => None case Some(acc) => Finish(acc)
  }

  method MergeRules(rules: seq<Rule>) returns (r: Option<Constraints>)
    ensures r == Merge(rules)
  {
    var acc := EMPTY;
    for i := 0 to |rules|
      invariant Fold(rules[..i]) == Some(acc)
    {
      assert rules[..i + 1][..i] == rules[..i];
      var next := Absorb(acc, rules[i]);
      if next.None? {
        FoldFails(rules, i + 1);
        return None;
      }
      acc := next.value;
    }
    assert rules[..|rules|] == rules;
    r := Finish(acc);
  }

  lemma {:induction false} FoldFails(rules: seq<Rule>, i: nat)
    requires i <= |rules| && Fold(rules[..i]).None?
    ensures Fold(rules).None?
    decreases |rules| - i
  {
    if i == |rules| {
      assert rules[..i] == rules;
    } else {
      assert rules[..i + 1][..i] == rules[..i];
      FoldFails(rules, i + 1);
    }
  }
}
