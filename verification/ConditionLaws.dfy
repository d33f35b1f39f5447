/** What a condition means, and what the paths in it lead to. */
module ConditionLaws {
  import opened Wrappers
  import opened Text
  import opened Json
  import opened Capability

  // ----- what a path leads to -----

  /** Following the segments from `v` one may arrive at `w`: a star leads to any item of an array, a
      name to the member of an object. */
  ghost predicate Reaches(v: Value, segments: seq<string>, w: Value)
    decreases |segments|
  {
    if segments == [] then w == v
    else if segments[0] == "*" then v.Arr? && exists x :: x in v.items && Reaches(x, segments[1..], w)
    else v.Obj? && Get(v.members, segments[0]).Some? && Reaches(Get(v.members, segments[0]).value, segments[1..], w)
  }

  /** The value is one that the path stands for. */
  ghost predicate LeadsTo(path: string, tree: Value, context: Context, w: Value) {
    if "body:" <= path then Reaches(tree, UnescapeAll(Split(path[5..], '/')[1..]), w)
    else if "header:" <= path then path[7..] in context.headers && w == context.headers[path[7..]]
    else if "request:" <= path then path[8..] in context.request && w == context.request[path[8..]]
    else false
  }

  lemma {:induction false} LevelHas(values: seq<Value>, segment: string, w: Value)
    ensures w in Level(values, segment) <==> exists v :: v in values && w in Next(v, segment)
  {
    if values != [] {
      var n := |values| - 1;
      LevelHas(values[..n], segment, w);
      assert values == values[..n] + [values[n]];
    }
  }

  lemma {:induction false} ReachesByNext(v: Value, segments: seq<string>, w: Value)
    requires segments != []
    ensures Reaches(v, segments, w) <==> exists x :: x in Next(v, segments[0]) && Reaches(x, segments[1..], w)
  {
    if segments[0] != "*" && v.Obj? && Get(v.members, segments[0]).Some? {
      assert Get(v.members, segments[0]).value in Next(v, segments[0]);
    }
  }

  /** Level by level or one by one, the segments lead to the same values. */
  lemma {:induction false} ExpandedIs(values: seq<Value>, segments: seq<string>, w: Value)
    requires ExpandSegments(values, segments).Good?
    ensures w in ExpandSegments(values, segments).value <==> exists v :: v in values && Reaches(v, segments, w)
    decreases |segments|
  {
    if segments == [] {
      assert w in values ==> Reaches(w, segments, w);
    } else {
      var next := Level(values, segments[0]);
      ExpandedIs(next, segments[1..], w);
      if x :| x in next && Reaches(x, segments[1..], w) {
        LevelHas(values, segments[0], x);
        var v :| v in values && x in Next(v, segments[0]);
        ReachesByNext(v, segments, w);
      }
      if v :| v in values && Reaches(v, segments, w) {
        ReachesByNext(v, segments, w);
        var x :| x in Next(v, segments[0]) && Reaches(x, segments[1..], w);
        LevelHas(values, segments[0], x);
      }
    }
  }

  /** The values after the first segments, however many they are. */
  function Frontier(values: seq<Value>, segments: seq<string>): seq<Value>
    decreases |segments|
  {
    if segments == [] then values else Frontier(Level(values, segments[0]), segments[1..])
  }

  /** Expansion fails exactly when some stretch of the path leads to more than 1024 values. */
  lemma {:induction false} ExpansionFailsIff(values: seq<Value>, segments: seq<string>)
    ensures ExpandSegments(values, segments).Bad? <==>
              exists k :: 0 < k <= |segments| && |Frontier(values, segments[..k])| > 1024
    ensures ExpandSegments(values, segments).Bad? ==> ExpandSegments(values, segments) == Bad(PathExpansionLimit)
    decreases |segments|
  {
    if segments != [] {
      var next := Level(values, segments[0]);
      ExpansionFailsIff(next, segments[1..]);
      forall k | 0 < k <= |segments| ensures Frontier(values, segments[..k]) == Frontier(next, segments[1..][..k - 1]) {
        assert segments[..k][1..] == segments[1..][..k - 1];
      }
      assert Frontier(next, segments[1..][..0]) == next;
      if |next| > MAX_PATH_EXPANSIONS {
        assert |Frontier(values, segments[..1])| > MAX_PATH_EXPANSIONS;
      } else {
        if k :| 0 < k <= |segments[1..]| && |Frontier(next, segments[1..][..k])| > MAX_PATH_EXPANSIONS {
          assert |Frontier(values, segments[..k + 1])| > MAX_PATH_EXPANSIONS;
        }
        if k :| 0 < k <= |segments| && |Frontier(values, segments[..k])| > MAX_PATH_EXPANSIONS {
          assert |Frontier(next, segments[1..][..k - 1])| > MAX_PATH_EXPANSIONS;
        }
      }
    }
  }

  /** A path that can be expanded expands to exactly the values it leads to. */
  lemma {:induction false} ExpandIs(path: string, tree: Value, context: Context, w: Value)
    requires Expand(path, tree, context).Good?
    ensures w in Expand(path, tree, context).value <==> LeadsTo(path, tree, context, w)
  {
    if "body:" <= path {
      var segments := UnescapeAll(Split(path[5..], '/')[1..]);
      ExpandedIs([tree], segments, w);
      assert tree in [tree];
    }
  }

  // ----- equality -----

  lemma {:induction false} FindHas(ms: seq<Member>, key: string)
    ensures Get(ms, key).Some? <==> exists m :: m in ms && m.key == key
  {
    if m :| m in ms && m.key == key {
      var j :| 0 <= j < |ms| && ms[j] == m;
    }
  }

  function Keys(ms: seq<Member>): set<string> {
    set m | m in ms :: m.key
  }

  lemma {:induction false} KeysCount(ms: seq<Member>)
    requires DistinctKeys(ms)
    ensures |Keys(ms)| == |ms|
  {
    if ms != [] {
      var n := |ms| - 1;
      KeysCount(ms[..n]);
      assert ms == ms[..n] + [ms[n]];
      assert Keys(ms) == Keys(ms[..n]) + {ms[n].key};
    }
  }

  lemma {:induction false} AllOfThem(a: set<string>, b: set<string>)
    requires a <= b && |a| == |b|
    ensures a == b
  {
    if k :| k in b && k !in a { StrictlyFewer(a, b, k); }
  }

  lemma {:induction false} StrictlyFewer(a: set<string>, b: set<string>, k: string)
    requires a <= b && k in b && k !in a
    ensures |a| < |b|
  {
    if a != {} {
      var x :| x in a;
      StrictlyFewer(a - {x}, b - {x}, k);
    }
  }

  /** The members agree on one key. */
  predicate AgreeOn(a: seq<Member>, b: seq<Member>, key: string) {
    match (Get(a, key), Get(b, key))
    case (Some(x), Some(y)) => Same(x, y)
    case _ => Get(a, key).None? && Get(b, key).None?
  }

  /** Objects are equal exactly when they have the same keys with equal values, in whatever order. */
  lemma {:induction false} SameObjectsIff(a: seq<Member>, b: seq<Member>)
    requires DistinctKeys(a) && DistinctKeys(b)
    ensures Same(Obj(a), Obj(b)) <==> forall key :: AgreeOn(a, b, key)
  {
    KeysCount(a);
    KeysCount(b);
    if Same(Obj(a), Obj(b)) {
      forall k | k in Keys(a) ensures k in Keys(b) {
        var m :| m in a && m.key == k;
        var i :| 0 <= i < |a| && a[i] == m;
        FindHas(b, k);
      }
      AllOfThem(Keys(a), Keys(b));
      forall key ensures AgreeOn(a, b, key) {
        FindHas(a, key);
        FindHas(b, key);
        assert key in Keys(a) <==> key in Keys(b);
        if Get(a, key).Some? { assert a[Find(a, key)].key == key; }
      }
    }
    if forall key :: AgreeOn(a, b, key) {
      forall k ensures k in Keys(a) <==> k in Keys(b) {
        FindHas(a, k);
        FindHas(b, k);
        assert AgreeOn(a, b, k);
      }
      assert Keys(a) == Keys(b);
      forall i | 0 <= i < |a| ensures Get(b, a[i].key).Some? && Same(a[i].value, Get(b, a[i].key).value) {
        FindIs(a, a[i].key, i);
        assert AgreeOn(a, b, a[i].key);
      }
    }
  }

  /** Listed values are compared as numbers if both are numbers, and as themselves otherwise. */
  lemma ScalarsEqualIff(a: Value, b: Value)
    requires IsScalar(b)
    ensures StrictEqual(a, b) <==> if a.Num? && b.Num? then AsF64(a.num) == AsF64(b.num) else a == b
  {
  }

  // ----- what a condition means -----

  /** Some value, or at least one and every value, that the path leads to passes. */
  ghost predicate Passes(path: string, mode: MatchMode, tree: Value, context: Context, test: Value -> bool) {
    && (exists w :: LeadsTo(path, tree, context, w) && (mode.AnyMatch? ==> test(w)))
    && (mode.AllMatch? ==> forall w :: LeadsTo(path, tree, context, w) ==> test(w))
  }

  function OneOf(expected: seq<Value>): Value -> bool {
    w => exists e :: e in expected && StrictEqual(w, e)
  }

  /** The meaning of a condition on a request. */
  ghost predicate Holds(c: Condition, tree: Value, context: Context)
    decreases c
  {
    match c
    case Always => true
    case All(cs) => forall c1 :: c1 in cs ==> Holds(c1, tree, context)
    case Any(cs) => exists c1 :: c1 in cs && Holds(c1, tree, context)
    case Not(c1) => !Holds(c1, tree, context)
    case Present(path, mode) => exists w :: LeadsTo(path, tree, context, w)
    case Equals(path, value, mode) => Passes(path, mode, tree, context, OneOf([value]))
    case In(path, values, mode) => Passes(path, mode, tree, context, OneOf(values))
  }

  lemma {:induction false} MapEqualsIs(values: seq<Value>, expected: seq<Value>)
    ensures |MapEquals(values, expected)| == |values|
    ensures forall i :: 0 <= i < |values| ==> MapEquals(values, expected)[i] == OneOf(expected)(values[i])
  {
    if values != [] { MapEqualsIs(values[1..], expected); }
  }

  /** The reduction of tests over a list, by its members. */
  lemma {:induction false} ReducedIs(values: seq<Value>, expected: seq<Value>, mode: MatchMode)
    ensures Reduce(MapEquals(values, expected), mode) <==>
              (exists w :: w in values && (mode.AnyMatch? ==> OneOf(expected)(w)))
              && (mode.AllMatch? ==> forall w :: w in values ==> OneOf(expected)(w))
  {
    var tests := MapEquals(values, expected);
    MapEqualsIs(values, expected);
    if Reduce(tests, mode) {
      var i :| 0 <= i < |tests| && (mode.AnyMatch? ==> tests[i]);
      assert values[i] in values && (mode.AnyMatch? ==> OneOf(expected)(values[i]));
      forall w | mode.AllMatch? && w in values ensures OneOf(expected)(w) {
        var k :| 0 <= k < |values| && values[k] == w;
        assert tests[k] in tests;
      }
    }
    if w :| w in values && (mode.AnyMatch? ==> OneOf(expected)(w)) {
      var k :| 0 <= k < |values| && values[k] == w;
      assert tests[k] in tests;
      if mode.AllMatch? && false in tests {
        var i :| 0 <= i < |tests| && !tests[i];
        assert !OneOf(expected)(values[i]) && values[i] in values;
      }
    }
  }

  lemma {:induction false} PathTestIs(path: string, mode: MatchMode, tree: Value, context: Context, expected: seq<Value>)
    requires Expand(path, tree, context).Good?
    ensures Reduce(MapEquals(Expand(path, tree, context).value, expected), mode)
            <==> Passes(path, mode, tree, context, OneOf(expected))
  {
    ReducedIs(Expand(path, tree, context).value, expected, mode);
    forall w ensures w in Expand(path, tree, context).value <==> LeadsTo(path, tree, context, w) {
      ExpandIs(path, tree, context, w);
    }
  }

  lemma {:induction false} PresentIs(path: string, mode: MatchMode, tree: Value, context: Context)
    requires Expand(path, tree, context).Good?
    ensures Reduce(MapTrue(Expand(path, tree, context).value), mode) <==> exists w :: LeadsTo(path, tree, context, w)
  {
    var values := Expand(path, tree, context).value;
    forall w ensures w in values <==> LeadsTo(path, tree, context, w) { ExpandIs(path, tree, context, w); }
    if values != [] { assert MapTrue(values)[0] in MapTrue(values) && values[0] in values; }
  }

  /** A conjunction is decided by its first child that is not true: with none it is true, and else it
      is that child's answer, or its error. */
  lemma {:induction false} AllIs(cs: seq<Condition>, tree: Value, context: Context) returns (k: nat)
    ensures k <= |cs| && forall j :: 0 <= j < k ==> Matches(cs[j], tree, context) == Good(true)
    ensures k < |cs| ==> Matches(cs[k], tree, context) != Good(true)
    ensures Matches(All(cs), tree, context) == if k == |cs| then Good(true) else Matches(cs[k], tree, context)
  {
    if cs == [] || Matches(cs[0], tree, context) != Good(true) {
      k := 0;
    } else {
      var rest := AllIs(cs[1..], tree, context);
      k := rest + 1;
    }
  }

  /** A disjunction is decided by its first child that is not false. */
  lemma {:induction false} AnyIs(cs: seq<Condition>, tree: Value, context: Context) returns (k: nat)
    ensures k <= |cs| && forall j :: 0 <= j < k ==> Matches(cs[j], tree, context) == Good(false)
    ensures k < |cs| ==> Matches(cs[k], tree, context) != Good(false)
    ensures Matches(Any(cs), tree, context) == if k == |cs| then Good(false) else Matches(cs[k], tree, context)
  {
    if cs == [] || Matches(cs[0], tree, context) != Good(false) {
      k := 0;
    } else {
      var rest := AnyIs(cs[1..], tree, context);
      k := rest + 1;
    }
  }

  /** Whenever a condition gets an answer, the answer is what it means. */
  lemma {:induction false} MatchesMeans(c: Condition, tree: Value, context: Context)
    requires Matches(c, tree, context).Good?
    ensures Matches(c, tree, context).value <==> Holds(c, tree, context)
    decreases c
  {
    match c
    case Always =>
    case All(cs) =>
      var k := AllIs(cs, tree, context);
      forall j | 0 <= j < |cs| && Matches(cs[j], tree, context).Good?
        ensures Matches(cs[j], tree, context).value <==> Holds(cs[j], tree, context)
      {
        MatchesMeans(cs[j], tree, context);
      }
      if k < |cs| { assert cs[k] in cs; }
    case Any(cs) =>
      var k := AnyIs(cs, tree, context);
      forall j | 0 <= j < |cs| && Matches(cs[j], tree, context).Good?
        ensures Matches(cs[j], tree, context).value <==> Holds(cs[j], tree, context)
      {
        MatchesMeans(cs[j], tree, context);
      }
      if k < |cs| { assert cs[k] in cs; }
    case Not(c1) => MatchesMeans(c1, tree, context);
    case Present(path, mode) => PresentIs(path, mode, tree, context);
    case Equals(path, value, mode) => PathTestIs(path, mode, tree, context, [value]);
    case In(path, values, mode) => PathTestIs(path, mode, tree, context, values);
  }

  /** A path test fails with an error exactly when its path cannot be expanded, and a negation when
      its child does. */
  lemma {:induction false} ErrorsCome(c: Condition, tree: Value, context: Context)
    ensures c.Always? ==> Matches(c, tree, context).Good?
    ensures c.Not? ==> (Matches(c, tree, context).Bad? <==> Matches(c.condition, tree, context).Bad?)
    ensures c.Not? && Matches(c, tree, context).Bad? ==> Matches(c, tree, context) == Matches(c.condition, tree, context)
    ensures c.Present? || c.Equals? || c.In? ==>
              (Matches(c, tree, context).Bad? <==> Expand(c.path, tree, context).Bad?)
              && (Matches(c, tree, context).Bad? ==> Matches(c, tree, context).error == Expand(c.path, tree, context).error)
  {
  }
}
