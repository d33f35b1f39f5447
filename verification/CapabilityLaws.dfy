/** What merged constraints accept: exactly what every merged rule accepts, save for mixed numbers. */
module CapabilityLaws {
  import opened Wrappers
  import opened Json
  import opened Capability

  /** Published enumerations hold scalars only; compilation checks it. */
  predicate ScalarEnums(rules: seq<Rule>) {
    forall r :: r in rules ==> forall v :: v in r.enums ==> IsScalar(v)
  }

  lemma LastSplit(rules: seq<Rule>)
    requires rules != []
    ensures rules == rules[..|rules| - 1] + [rules[|rules| - 1]]
    ensures forall r :: r in rules <==> r in rules[..|rules| - 1] || r == rules[|rules| - 1]
  {
  }

  // ----- strict equality on scalars -----

  lemma StrictEqualFacts(a: Value, b: Value, c: Value)
    requires IsScalar(a) && IsScalar(b)
    ensures StrictEqual(a, a)
    ensures StrictEqual(a, b) ==> StrictEqual(b, a)
    ensures StrictEqual(a, b) ==> (StrictEqual(a, c) <==> StrictEqual(b, c))
  {
  }

  lemma {:induction false} KeepAdmits(candidates: seq<Value>, allowed: seq<Value>, v: Value)
    requires forall x :: x in candidates ==> IsScalar(x)
    requires forall x :: x in allowed ==> IsScalar(x)
    ensures forall x :: x in Keep(candidates, allowed) ==> x in candidates
    ensures Admits(Keep(candidates, allowed), v) <==> Admits(candidates, v) && Admits(allowed, v)
  {
    if candidates != [] {
      var first, rest := candidates[0], candidates[1..];
      KeepAdmits(rest, allowed, v);
      assert candidates == [first] + rest;
      AdmitsConcat([first], rest, v);
      assert first in candidates;
      if e :| e in allowed && StrictEqual(first, e) {
        AdmitsConcat([first], Keep(rest, allowed), v);
        if StrictEqual(first, v) {
          StrictEqualFacts(first, e, v);
          var i :| 0 <= i < |allowed| && allowed[i] == e;
          assert Admits(allowed, v);
        }
      } else {
        assert Keep(candidates, allowed) == Keep(rest, allowed);
        if StrictEqual(first, v) && Admits(allowed, v) {
          var i :| 0 <= i < |allowed| && StrictEqual(allowed[i], v);
          assert allowed[i] in allowed;
          StrictEqualThrough(first, v, allowed[i]);
        }
      }
    }
  }

  lemma StrictEqualThrough(a: Value, v: Value, b: Value)
    requires IsScalar(a) && IsScalar(b) && StrictEqual(a, v) && StrictEqual(b, v)
    ensures StrictEqual(a, b)
  {
  }

  lemma AdmitsConcat(a: seq<Value>, b: seq<Value>, v: Value)
    ensures Admits(a + b, v) <==> Admits(a, v) || Admits(b, v)
  {
    if i :| 0 <= i < |a| && StrictEqual(a[i], v) { assert (a + b)[i] == a[i]; }
    if i :| 0 <= i < |b| && StrictEqual(b[i], v) { assert (a + b)[|a| + i] == b[i]; }
    if i :| 0 <= i < |a + b| && StrictEqual((a + b)[i], v) {
      if i >= |a| { assert b[i - |a|] == (a + b)[i]; }
    }
  }

  // ----- what the fold gathers -----

  ghost predicate GathersTypes(rules: seq<Rule>, types: Option<set<JsonType>>) {
    && (types.None? <==> forall r :: r in rules ==> r.types == {})
    && (types.Some? ==> forall t :: t in types.value <==> forall r :: r in rules && r.types != {} ==> t in r.types)
  }

  ghost predicate GathersEnums(rules: seq<Rule>, enums: Option<seq<Value>>) {
    && (enums.None? <==> forall r :: r in rules ==> r.enums == [])
    && (enums.Some? ==>
          && (forall x :: x in enums.value ==> IsScalar(x))
          && forall v :: Admits(enums.value, v) <==> forall r :: r in rules && r.enums != [] ==> Admits(r.enums, v))
  }

  ghost predicate AtLeast(rules: seq<Rule>, x: real) {
    forall r :: r in rules && r.minimum.Some? ==> x >= r.minimum.value
  }

  ghost predicate AtMost(rules: seq<Rule>, x: real) {
    forall r :: r in rules && r.maximum.Some? ==> x <= r.maximum.value
  }

  ghost predicate GathersMinimum(rules: seq<Rule>, minimum: Option<real>) {
    forall x :: AtLeast(rules, x) <==> (minimum.Some? ==> x >= minimum.value)
  }

  ghost predicate GathersMaximum(rules: seq<Rule>, maximum: Option<real>) {
    forall x :: AtMost(rules, x) <==> (maximum.Some? ==> x <= maximum.value)
  }

  ghost predicate GathersRest(rules: seq<Rule>, acc: Acc) {
    && (acc.action.None? <==> rules == [])
    && (acc.action.Some? ==>
          && (acc.action.value.Forbidden? <==> forall r :: r in rules ==> r.action.Forbidden?)
          && (acc.action.value.Forbidden? <==> exists r :: r in rules && r.action.Forbidden?)
          && (acc.action.value.Required? <==> exists r :: r in rules && r.action.Required?))
    && (acc.exclusive.None? <==> forall r :: r in rules ==> r.exclusive.None?)
    && (acc.exclusive.Some? ==> forall r :: r in rules && r.exclusive.Some? ==> r.exclusive == acc.exclusive)
    && (forall c :: c in acc.children <==> exists r :: r in rules && c in r.children)
  }

  lemma {:induction false} FoldTypes(rules: seq<Rule>)
    requires Fold(rules).Some?
    ensures GathersTypes(rules, Fold(rules).value.types)
  {
    if rules != [] {
      LastSplit(rules);
      FoldTypes(rules[..|rules| - 1]);
    }
  }

  lemma {:induction false} FoldMinimum(rules: seq<Rule>)
    requires Fold(rules).Some?
    ensures GathersMinimum(rules, Fold(rules).value.minimum)
  {
    if rules != [] {
      LastSplit(rules);
      var before, last := rules[..|rules| - 1], rules[|rules| - 1];
      FoldMinimum(before);
      assert forall x :: AtLeast(rules, x) <==> AtLeast(before, x) && (last.minimum.Some? ==> x >= last.minimum.value);
    }
  }

  lemma {:induction false} FoldMaximum(rules: seq<Rule>)
    requires Fold(rules).Some?
    ensures GathersMaximum(rules, Fold(rules).value.maximum)
  {
    if rules != [] {
      LastSplit(rules);
      var before, last := rules[..|rules| - 1], rules[|rules| - 1];
      FoldMaximum(before);
      assert forall x :: AtMost(rules, x) <==> AtMost(before, x) && (last.maximum.Some? ==> x <= last.maximum.value);
    }
  }

  lemma {:induction false} FoldEnums(rules: seq<Rule>)
    requires Fold(rules).Some? && ScalarEnums(rules)
    ensures GathersEnums(rules, Fold(rules).value.enums)
  {
    if rules != [] {
      LastSplit(rules);
      var before, last := rules[..|rules| - 1], rules[|rules| - 1];
      FoldEnums(before);
      var prior, enums := Fold(before).value.enums, Fold(rules).value.enums;
      if last.enums != [] && prior.Some? {
        forall v
          ensures Admits(enums.value, v) <==> Admits(prior.value, v) && Admits(last.enums, v)
        {
          KeepAdmits(prior.value, last.enums, v);
        }
        KeepAdmits(prior.value, last.enums, Null);
      }
    }
  }

  lemma {:induction false} FoldRest(rules: seq<Rule>)
    requires Fold(rules).Some?
    ensures GathersRest(rules, Fold(rules).value)
  {
    if rules != [] {
      LastSplit(rules);
      FoldRest(rules[..|rules| - 1]);
    }
  }

  /** Two rules that no merge can reconcile. */
  predicate Clash(r: Rule, s: Rule) {
    || (r.action.Forbidden? && !s.action.Forbidden?)
    || (r.exclusive.Some? && s.exclusive.Some? && r.exclusive != s.exclusive)
  }

  ghost predicate Clashes(rules: seq<Rule>) {
    exists r, s :: r in rules && s in rules && Clash(r, s)
  }

  /** Absorbing a rule fails exactly when it clashes with one absorbed before. */
  lemma AbsorbFails(before: seq<Rule>, acc: Acc, last: Rule)
    requires GathersRest(before, acc)
    ensures Absorb(acc, last).None? <==> exists r :: r in before && (Clash(r, last) || Clash(last, r))
  {
    if acc.action.Some? && MergeAction(acc.action.value, last.action).None? {
      assert before[0] in before;
      var r :| r in before && (r.action.Forbidden? <==> !last.action.Forbidden?);
      assert Clash(r, last) || Clash(last, r);
    } else if acc.exclusive.Some? && last.exclusive.Some? && acc.exclusive != last.exclusive {
      var r :| r in before && r.exclusive.Some?;
      assert Clash(r, last);
    }
  }

  lemma NobodyClashesWithItself(r: Rule)
    ensures !Clash(r, r)
  {
  }

  lemma ClashesOf(before: seq<Rule>, last: Rule)
    ensures Clashes(before + [last]) <==> Clashes(before) || exists r :: r in before && (Clash(r, last) || Clash(last, r))
  {
    var rules := before + [last];
    assert forall r :: r in rules <==> r in before || r == last;
    NobodyClashesWithItself(last);
  }

  lemma {:induction false} FoldFailsOnClash(rules: seq<Rule>)
    ensures Fold(rules).None? <==> Clashes(rules)
  {
    if rules != [] {
      LastSplit(rules);
      var before, last := rules[..|rules| - 1], rules[|rules| - 1];
      FoldFailsOnClash(before);
      ClashesOf(before, last);
      if Fold(before).Some? {
        FoldRest(before);
        AbsorbFails(before, Fold(before).value, last);
      }
    }
  }

  // ----- when a merge succeeds -----

  ghost predicate SharedType(rules: seq<Rule>, t: JsonType) {
    forall r :: r in rules && r.types != {} ==> t in r.types
  }

  ghost predicate SharedEnum(rules: seq<Rule>, v: Value) {
    forall r :: r in rules && r.enums != [] ==> Admits(r.enums, v)
  }

  ghost predicate InRange(rules: seq<Rule>, x: real) {
    AtLeast(rules, x) && AtMost(rules, x)
  }

  /** The rules do not contradict each other: some type, some listed value and some number suit all. */
  ghost predicate Compatible(rules: seq<Rule>) {
    && !Clashes(rules)
    && (exists t :: SharedType(rules, t))
    && (exists v :: SharedEnum(rules, v))
    && (exists x :: InRange(rules, x))
  }

  lemma RangeWitness(rules: seq<Rule>, minimum: Option<real>, maximum: Option<real>)
    requires GathersMinimum(rules, minimum) && GathersMaximum(rules, maximum)
    ensures (exists x :: InRange(rules, x)) <==> (minimum.Some? && maximum.Some? ==> minimum.value <= maximum.value)
  {
    var x := if minimum.Some? then minimum.value else if maximum.Some? then maximum.value else 0.0;
    assert AtLeast(rules, x) && ((minimum.Some? && maximum.Some? ==> minimum.value <= maximum.value) ==> AtMost(rules, x));
    assert (minimum.Some? && maximum.Some? ==> minimum.value <= maximum.value) ==> InRange(rules, x);
  }

  lemma EnumWitness(rules: seq<Rule>, enums: Option<seq<Value>>)
    requires GathersEnums(rules, enums)
    ensures (exists v :: SharedEnum(rules, v)) <==> (enums.Some? ==> enums.value != [])
  {
    if enums.None? {
      assert SharedEnum(rules, Null);
    } else if enums.value != [] {
      StrictEqualFacts(enums.value[0], enums.value[0], Null);
      assert Admits(enums.value, enums.value[0]);
      assert SharedEnum(rules, enums.value[0]);
    } else {
      assert forall v :: SharedEnum(rules, v) <==> Admits(enums.value, v);
    }
  }

  lemma TypeWitness(rules: seq<Rule>, types: Option<set<JsonType>>)
    requires GathersTypes(rules, types)
    ensures (exists t :: SharedType(rules, t)) <==> (types.Some? ==> types.value != {})
  {
    if types.None? {
      assert SharedType(rules, NullType);
    } else {
      if t :| t in types.value { assert SharedType(rules, t); }
      if t :| SharedType(rules, t) { assert t in types.value; }
    }
  }

  /** Rules merge exactly when they are compatible, which depends on which rules there are but not
      on their order or number of copies. */
  lemma MergesIffCompatible(rules: seq<Rule>)
    requires ScalarEnums(rules)
    ensures Merge(rules).Some? <==> Compatible(rules)
  {
    FoldFailsOnClash(rules);
    if Fold(rules).Some? {
      var acc := Fold(rules).value;
      FoldTypes(rules);
      FoldEnums(rules);
      FoldMinimum(rules);
      FoldMaximum(rules);
      TypeWitness(rules, acc.types);
      EnumWitness(rules, acc.enums);
      RangeWitness(rules, acc.minimum, acc.maximum);
    }
  }

  /** Fewer rules are never harder to merge. */
  lemma MergeIsHereditary(rules: seq<Rule>, some: seq<Rule>)
    requires ScalarEnums(rules) && Merge(rules).Some? && forall r :: r in some ==> r in rules
    ensures Merge(some).Some?
  {
    MergesIffCompatible(rules);
    var t :| SharedType(rules, t);
    var v :| SharedEnum(rules, v);
    var x :| InRange(rules, x);
    assert SharedType(some, t) && SharedEnum(some, v) && InRange(some, x);
    MergesIffCompatible(some);
  }

  // ----- what merged constraints accept -----

  /** The value is a number below the one number the relative path stands for, if it does. */
  predicate BelowRelative(relative: string, x: real, tree: Value, context: Context) {
    match Expand(relative, tree, context)
    case Bad(_) => false
    case Good(values) => |values| <= 1 && (values != [] && values[0].Num? ==> x < AsF64(values[0].num))
  }

  predicate TypeOk(types: set<JsonType>, v: Value) {
    types == {} || exists t :: t in types && TypeMatches(t, v)
  }

  predicate RangeOk(minimum: Option<real>, maximum: Option<real>, v: Value) {
    v.Num? ==> (minimum.Some? ==> AsF64(v.num) >= minimum.value) && (maximum.Some? ==> AsF64(v.num) <= maximum.value)
  }

  predicate ExclusiveOk(exclusive: Option<string>, v: Value, tree: Value, context: Context) {
    exclusive.Some? && v.Num? ==> BelowRelative(exclusive.value, AsF64(v.num), tree, context)
  }

  predicate ChildrenOk(children: set<string>, v: Value) {
    v.Obj? ==> forall c :: c in children ==> Get(v.members, c).Some?
  }

  /** A value that is present at the path draws no diagnostic. */
  predicate Accepts(c: Constraints, v: Value, tree: Value, context: Context) {
    && !c.action.Forbidden?
    && TypeOk(c.types, v)
    && (c.enums == [] || Admits(c.enums, v))
    && RangeOk(c.minimum, c.maximum, v)
    && ExclusiveOk(c.exclusive, v, tree, context)
    && ChildrenOk(c.children, v)
  }

  /** Some kind the value has is allowed by every rule that restricts types. */
  ghost predicate KindShared(rules: seq<Rule>, v: Value) {
    exists t :: TypeMatches(t, v) && SharedType(rules, t)
  }

  ghost predicate EachAccepts(rules: seq<Rule>, v: Value, tree: Value, context: Context) {
    forall r :: r in rules ==> Accepts(OwnConstraints(r), v, tree, context)
  }

  lemma SomeKind(v: Value)
    ensures exists t :: TypeMatches(t, v)
  {
    assert TypeMatches(match v case Null => NullType case Bool(_) => BooleanType case Num(_) => NumberType
                               case Str(_) => StringType case Arr(_) => ArrayType case Obj(_) => ObjectType, v);
  }

  lemma MergedTypeOk(rules: seq<Rule>, v: Value)
    requires Merge(rules).Some?
    ensures TypeOk(Merge(rules).value.types, v) <==> KindShared(rules, v)
  {
    FoldTypes(rules);
    var types := Fold(rules).value.types;
    if types.None? {
      SomeKind(v);
      var t :| TypeMatches(t, v);
      assert SharedType(rules, t);
    } else {
      if t :| t in types.value && TypeMatches(t, v) { assert SharedType(rules, t); }
      if t :| TypeMatches(t, v) && SharedType(rules, t) { assert t in types.value; }
    }
  }

  lemma KindSharedMeansEachOk(rules: seq<Rule>, v: Value)
    requires KindShared(rules, v)
    ensures forall r :: r in rules ==> TypeOk(r.types, v)
  {
    var t :| TypeMatches(t, v) && SharedType(rules, t);
  }

  lemma MergedEnumsOk(rules: seq<Rule>, v: Value)
    requires Merge(rules).Some? && ScalarEnums(rules)
    ensures var enums := Merge(rules).value.enums;
            enums == [] || Admits(enums, v) <==> SharedEnum(rules, v)
  {
    FoldEnums(rules);
  }

  lemma MergedRangeOk(rules: seq<Rule>, v: Value)
    requires Merge(rules).Some?
    ensures var c := Merge(rules).value;
            RangeOk(c.minimum, c.maximum, v) <==> forall r :: r in rules ==> RangeOk(r.minimum, r.maximum, v)
  {
    FoldMinimum(rules);
    FoldMaximum(rules);
    if v.Num? {
      assert AtLeast(rules, AsF64(v.num)) && AtMost(rules, AsF64(v.num)) <==>
             forall r :: r in rules ==> RangeOk(r.minimum, r.maximum, v);
    }
  }

  lemma MergedRestOk(rules: seq<Rule>, v: Value, tree: Value, context: Context)
    requires Merge(rules).Some? && rules != []
    ensures var c := Merge(rules).value;
            && (!c.action.Forbidden? <==> forall r :: r in rules ==> !r.action.Forbidden?)
            && (c.action.Required? <==> exists r :: r in rules && r.action.Required?)
            && (ExclusiveOk(c.exclusive, v, tree, context) <==>
                  forall r :: r in rules ==> ExclusiveOk(r.exclusive, v, tree, context))
            && (ChildrenOk(c.children, v) <==> forall r :: r in rules ==> ChildrenOk(r.children, v))
  {
    FoldRest(rules);
  }

  /** Merging is sound, and exact up to kinds: the merged constraints accept a value exactly when
      every merged rule does and some kind of the value suits all rules at once. */
  lemma MergeIsExact(rules: seq<Rule>, v: Value, tree: Value, context: Context)
    requires ScalarEnums(rules) && rules != [] && Merge(rules).Some?
    ensures Accepts(Merge(rules).value, v, tree, context) <==>
            KindShared(rules, v) && EachAccepts(rules, v, tree, context)
  {
    MergedTypeOk(rules, v);
    MergedEnumsOk(rules, v);
    MergedRangeOk(rules, v);
    MergedRestOk(rules, v, tree, context);
    if KindShared(rules, v) { KindSharedMeansEachOk(rules, v); }
  }

  /** A whole number, which counts both as an integer and as a number. */
  predicate IsInteger(v: Value) {
    v.Num? && !v.num.Float?
  }

  /** The rules do not mix the two numeric types. */
  ghost predicate OneNumericType(rules: seq<Rule>) {
    SharedType(rules, IntegerType) || SharedType(rules, NumberType)
  }

  /** Only a whole number can pass every rule by itself and yet share no kind with all of them, and
      it does so exactly when neither numeric type is common to the rules. */
  lemma KindSharedIff(rules: seq<Rule>, v: Value)
    requires forall r :: r in rules ==> TypeOk(r.types, v)
    ensures KindShared(rules, v) <==> (IsInteger(v) ==> OneNumericType(rules))
  {
    if IsInteger(v) {
      assert TypeMatches(IntegerType, v) && TypeMatches(NumberType, v);
      assert forall t :: TypeMatches(t, v) ==> t.IntegerType? || t.NumberType?;
    } else {
      SomeKind(v);
      var t :| TypeMatches(t, v);
      forall r | r in rules && r.types != {}
        ensures t in r.types
      {
        var u :| u in r.types && TypeMatches(u, v);
        assert u == t;
      }
      assert SharedType(rules, t);
    }
  }

  /** Rules that are each satisfied are satisfied together, except for a whole number when the rules
      mix integer and number. */
  lemma EachImpliesMerged(rules: seq<Rule>, v: Value, tree: Value, context: Context)
    requires ScalarEnums(rules) && rules != [] && Merge(rules).Some? && EachAccepts(rules, v, tree, context)
    ensures Accepts(Merge(rules).value, v, tree, context) <==> (IsInteger(v) ==> OneNumericType(rules))
  {
    MergeIsExact(rules, v, tree, context);
    KindSharedIff(rules, v);
  }

  function TypesOnly(path: string, types: set<JsonType>): Rule {
    Rule("r", path, Allowed, types, [], None, None, None, {}, Always)
  }

  lemma MergedTypesOnly(path: string, s: set<JsonType>, t: set<JsonType>)
    requires s != {} && t != {} && s * t != {}
    ensures Merge([TypesOnly(path, s), TypesOnly(path, t)]) == Some(OwnConstraints(TypesOnly(path, s * t)))
  {
    var a, b := TypesOnly(path, s), TypesOnly(path, t);
    assert [a, b][..1] == [a] && [a][..0] == [];
    assert Fold([a]) == Absorb(EMPTY, a);
    assert Fold([a, b]) == Absorb(Fold([a]).value, b);
  }

  /** That exception is real: the number 1 suits either rule, but not the two together. */
  lemma MixedNumericTypesReject(path: string, tree: Value, context: Context)
    ensures var a, b := TypesOnly(path, {IntegerType, StringType}), TypesOnly(path, {NumberType, StringType});
            && Accepts(OwnConstraints(a), Num(PosInt(1)), tree, context)
            && Accepts(OwnConstraints(b), Num(PosInt(1)), tree, context)
            && Merge([a, b]).Some? && !Accepts(Merge([a, b]).value, Num(PosInt(1)), tree, context)
  {
    var v := Num(PosInt(1));
    assert TypeMatches(IntegerType, v) && TypeMatches(NumberType, v) && !TypeMatches(StringType, v);
    assert {IntegerType, StringType} * {NumberType, StringType} == {StringType};
    MergedTypesOnly(path, {IntegerType, StringType}, {NumberType, StringType});
  }

  /** The order of the rules, and repeating one, changes neither whether they merge nor what the
      result accepts nor whether presence is required. */
  lemma MergeIsOrderFree(rules: seq<Rule>, other: seq<Rule>, v: Value, tree: Value, context: Context)
    requires ScalarEnums(rules) && forall r :: r in rules <==> r in other
    ensures Merge(rules).Some? <==> Merge(other).Some?
    ensures Merge(rules).Some? && rules != [] ==>
              && (Accepts(Merge(rules).value, v, tree, context) <==> Accepts(Merge(other).value, v, tree, context))
              && (Merge(rules).value.action == Merge(other).value.action)
  {
    if Merge(rules).Some? { MergeIsHereditary(rules, other); }
    if Merge(other).Some? { MergeIsHereditary(other, rules); }
    if Merge(rules).Some? && rules != [] {
      assert rules[0] in other;
      MergeIsExact(rules, v, tree, context);
      MergeIsExact(other, v, tree, context);
      assert forall t :: SharedType(rules, t) <==> SharedType(other, t);
      MergedRestOk(rules, v, tree, context);
      MergedRestOk(other, v, tree, context);
    }
  }
}
