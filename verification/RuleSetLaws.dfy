/** No compiled rule set can touch the model or the messages, and the order rules run in is fixed by
    phase, layer and identifier. */
module RuleSetLaws {
  import opened Wrappers
  import opened Text
  import opened Json
  import opened Capability
  import opened RuleSet

  // ----- a pointer's tokens -----

  lemma {:induction false} UnescapeAllConcat(a: seq<string>, b: seq<string>)
    ensures UnescapeAll(a + b) == UnescapeAll(a) + UnescapeAll(b)
  {
    if a == [] {
      assert a + b == b;
    } else {
      assert (a + b)[1..] == a[1..] + b;
      UnescapeAllConcat(a[1..], b);
    }
  }

  /** Splitting off the leaf agrees with how a lookup reads the pointer. */
  lemma SplitPointerTokens(pointer: string)
    requires "/" <= pointer && SplitPointer(pointer).Some?
    ensures var (parent, leaf) := SplitPointer(pointer).value;
            (parent != "" ==> parent[0] == '/') && Tokens(pointer) == Tokens(parent) + [leaf]
  {
    var i := LastIndexOf(pointer, '/');
    var parent, raw := pointer[..i], pointer[i + 1..];
    assert pointer == parent + ['/'] + raw;
    SplitLast(parent, '/', raw);
    var parts := Split(parent, '/');
    assert (parts + [raw])[1..] == parts[1..] + [raw];
    UnescapeAllConcat(parts[1..], [raw]);
    assert UnescapeAll([raw]) == [Unescape(raw)];
    if parent == "" {
      SplitFirst("", '/', "");
    }
  }

  lemma {:induction false} FirstPiece(rest: string)
    ensures var p := Split(rest, '/')[0];
            rest == p || p + "/" <= rest
  {
    var i := IndexOf(rest, '/');
    if i < |rest| {
      assert rest == rest[..i] + "/" + rest[i + 1..];
    }
  }

  /** The first token of a valid mutation path is neither the model nor the messages. */
  lemma FirstTokenAllowed(pointer: string, name: string)
    requires "/" <= pointer && '~' !in name && '/' !in name
    requires pointer != "/" + name && !("/" + name + "/" <= pointer)
    ensures Tokens(pointer) != [] && Tokens(pointer)[0] != name
  {
    var rest := pointer[1..];
    assert pointer == "" + ['/'] + rest;
    SplitFirst("", '/', rest);
    var raws := Split(rest, '/');
    assert Split(pointer, '/')[1..] == raws;
    FirstPiece(rest);
    assert rest == name ==> pointer == "/" + name;
    assert name + "/" <= rest ==> "/" + (name + "/") <= "/" + rest;
    assert "/" + name + "/" == "/" + (name + "/") && pointer == "/" + rest;
    assert raws[0] != name;
    UnescapePlain(raws[0], name);
  }

  // ----- frames -----

  /** Everything but the member `key` of an object-rooted tree: still an object with distinct keys,
      and `other` reads the same. */
  ghost predicate Protects(before: Value, after: Value, other: string) {
    before.Obj? && after.Obj? && DistinctKeys(after.members) && Get(after.members, other) == Get(before.members, other)
  }

  lemma EditProtects(tree: Value, pointer: string, edit: Edit, name: string)
    requires tree.Obj? && DistinctKeys(tree.members) && "/" <= pointer && '~' !in name && '/' !in name
    requires pointer != "/" + name && !("/" + name + "/" <= pointer)
    requires EditPointer(tree, pointer, edit).Some?
    ensures Protects(tree, EditPointer(tree, pointer, edit).value, name)
  {
    SplitPointerTokens(pointer);
    FirstTokenAllowed(pointer, name);
    var (parent, leaf) := SplitPointer(pointer).value;
    assert Tokens(pointer)[0] == if Tokens(parent) == [] then leaf else Tokens(parent)[0];
    EditKeepsOthers(tree.members, Tokens(parent), leaf, edit, name);
  }

  predicate Protected(name: string) {
    name == "model" || name == "messages"
  }

  /** One rule leaves the tree alone or makes one edit at its path. */
  lemma RuleEdits(r: RuleDefinition, tree: Value, changes: seq<AppliedChange>, context: Context) returns (edit: Option<Edit>)
    requires "body:" <= r.action.path
    ensures var after := ApplyRule(r, tree, changes, context).tree;
            if edit.None? then after == tree else EditPointer(tree, r.action.path[5..], edit.value) == Some(after)
  {
    edit := None;
    if Matches(r.when, tree, context) == Good(true) {
      edit := EditFor(r.action, Pointer(tree, r.action.path[5..]));
      if edit.Some? && EditPointer(tree, r.action.path[5..], edit.value).None? { edit := None; }
    }
  }

  lemma ValidPathAvoids(path: string, name: string)
    requires ValidMutationPath(path) && Protected(name)
    ensures var pointer := path[5..];
            && "/" <= pointer && pointer != "/" + name && !("/" + name + "/" <= pointer)
            && '~' !in name && '/' !in name
  {
    assert "/" + "model" == "/model" && "/" + "messages" == "/messages";
  }

  lemma RuleProtects(r: RuleDefinition, tree: Value, changes: seq<AppliedChange>, context: Context, name: string)
    requires tree.Obj? && DistinctKeys(tree.members) && ValidMutationPath(r.action.path) && Protected(name)
    ensures Protects(tree, ApplyRule(r, tree, changes, context).tree, name)
  {
    var edit := RuleEdits(r, tree, changes, context);
    if edit.Some? {
      ValidPathAvoids(r.action.path, name);
      EditProtects(tree, r.action.path[5..], edit.value, name);
    }
  }

  lemma {:induction false} RulesProtect(rules: seq<RuleDefinition>, tree: Value, changes: seq<AppliedChange>, context: Context, name: string)
    requires tree.Obj? && DistinctKeys(tree.members) && Protected(name)
    requires forall r :: r in rules ==> ValidMutationPath(r.action.path)
    ensures Protects(tree, ApplyAll(rules, tree, changes, context).tree, name)
  {
    if rules != [] {
      assert rules[0] in rules;
      RuleProtects(rules[0], tree, changes, context, name);
      var one := ApplyRule(rules[0], tree, changes, context);
      if one.error.None? {
        RulesProtect(rules[1..], one.tree, one.changes, context, name);
      }
    }
  }

  // ----- compiled rule sets -----

  lemma {:induction false} NoErrorMeansNone(ts: seq<Tagged>)
    requires FirstError(ts).None?
    ensures forall t :: t in ts ==> RuleError(t.rule).None?
  {
    if ts != [] {
      NoErrorMeansNone(ts[1..]);
      assert ts == [ts[0]] + ts[1..];
    }
  }

  lemma {:induction false} InsertPermutes(t: Tagged, ts: seq<Tagged>)
    ensures multiset(InsertTagged(t, ts)) == multiset(ts) + multiset{t}
  {
    if !(ts == [] || Before(t, ts[0])) {
      InsertPermutes(t, ts[1..]);
      assert ts == [ts[0]] + ts[1..];
    }
  }

  lemma {:induction false} SortPermutes(ts: seq<Tagged>)
    ensures multiset(SortTagged(ts)) == multiset(ts)
  {
    if ts != [] {
      SortPermutes(ts[..|ts| - 1]);
      InsertPermutes(ts[|ts| - 1], SortTagged(ts[..|ts| - 1]));
      assert ts == ts[..|ts| - 1] + [ts[|ts| - 1]];
    }
  }

  lemma CompiledPathsValid(id: string, layers: seq<seq<RuleDefinition>>)
    requires CompileLayers(id, layers).Good?
    ensures forall r :: r in CompileLayers(id, layers).value.rules ==> ValidMutationPath(r.action.path)
  {
    var all := TagLayers(layers);
    NoErrorMeansNone(all);
    SortPermutes(all);
    var sorted := SortTagged(all);
    forall r | r in Untag(sorted)
      ensures ValidMutationPath(r.action.path)
    {
      var i :| 0 <= i < |sorted| && sorted[i].rule == r;
      assert sorted[i] in multiset(sorted);
      assert sorted[i] in all;
    }
  }

  /** Non-interference: whatever rule set compiles, on whatever object-rooted tree, applying it --
      to the end or up to an error -- leaves the model and the messages as they were. */
  lemma {:induction false} ModelAndMessagesUntouched(id: string, layers: seq<seq<RuleDefinition>>, tree: Value, context: Context)
    requires CompileLayers(id, layers).Good? && tree.Obj? && DistinctKeys(tree.members)
    ensures var after := ApplyAll(CompileLayers(id, layers).value.rules, tree, [], context).tree;
            && after.Obj? && DistinctKeys(after.members)
            && Get(after.members, "model") == Get(tree.members, "model")
            && Get(after.members, "messages") == Get(tree.members, "messages")
  {
    CompiledPathsValid(id, layers);
    var rules := CompileLayers(id, layers).value.rules;
    RulesProtect(rules, tree, [], context, "model");
    RulesProtect(rules, tree, [], context, "messages");
  }

  // ----- execution order -----

  lemma BeforeTotal(a: Tagged, b: Tagged)
    ensures !(Before(a, b) && Before(b, a))
    ensures Before(a, b) || Before(b, a) || SameKey(a, b)
  {
    LessTotal(a.rule.id, b.rule.id);
    PhasesRanked(a.rule.phase, b.rule.phase);
  }

  lemma PhasesRanked(a: Phase, b: Phase)
    ensures PhaseRank(a) == PhaseRank(b) <==> a == b
  {
  }

  lemma BeforeTransitive(a: Tagged, b: Tagged, c: Tagged)
    requires Before(a, b) && Before(b, c)
    ensures Before(a, c)
  {
    if PhaseRank(a.rule.phase) == PhaseRank(c.rule.phase) && a.layer == c.layer {
      LessTransitive(a.rule.id, b.rule.id, c.rule.id);
    }
  }

  predicate SameKey(a: Tagged, b: Tagged) {
    a.rule.phase == b.rule.phase && a.layer == b.layer && a.rule.id == b.rule.id
  }

  /** Ascending, rules of one phase, layer and identifier standing together. */
  ghost predicate Ascending(ts: seq<Tagged>) {
    forall i, j :: 0 <= i < j < |ts| ==> !Before(ts[j], ts[i])
  }

  /** No two different rules share phase, layer and identifier. */
  ghost predicate Faithful(ts: seq<Tagged>) {
    forall t, u :: t in ts && u in ts && SameKey(t, u) ==> t == u
  }

  lemma NotBeforeChain(a: Tagged, b: Tagged, c: Tagged)
    requires !Before(b, a) && !Before(c, b)
    ensures !Before(c, a)
    ensures Before(a, b) ==> Before(a, c)
  {
    BeforeTotal(a, b);
    BeforeTotal(b, c);
    BeforeTotal(a, c);
    if Before(a, b) && Before(b, c) { BeforeTransitive(a, b, c); }
  }

  lemma {:induction false} InsertAscending(t: Tagged, ts: seq<Tagged>)
    requires Ascending(ts)
    ensures Ascending(InsertTagged(t, ts))
  {
    if ts == [] {
    } else if Before(t, ts[0]) {
      forall j | 0 <= j < |ts| ensures !Before(ts[j], t) {
        BeforeTotal(t, ts[0]);
        if j > 0 { NotBeforeChain(t, ts[0], ts[j]); }
      }
    } else {
      InsertAscending(t, ts[1..]);
      InsertPermutes(t, ts[1..]);
      var rest := InsertTagged(t, ts[1..]);
      forall j | 0 <= j < |rest| ensures !Before(rest[j], ts[0]) {
        assert rest[j] in multiset(rest);
        if rest[j] != t {
          var k :| 0 <= k < |ts[1..]| && ts[1..][k] == rest[j];
          assert ts[k + 1] == rest[j];
        }
      }
    }
  }

  lemma {:induction false} SortAscending(ts: seq<Tagged>)
    ensures Ascending(SortTagged(ts))
  {
    if ts != [] {
      SortAscending(ts[..|ts| - 1]);
      InsertAscending(ts[|ts| - 1], SortTagged(ts[..|ts| - 1]));
    }
  }

  lemma SameFirst(a: seq<Tagged>, b: seq<Tagged>)
    requires Ascending(a) && Ascending(b) && multiset(a) == multiset(b) && a != [] && Faithful(a)
    ensures b != [] && a[0] == b[0]
  {
    assert a[0] in multiset(b);
    assert b[0] in multiset(a);
    var i :| 0 <= i < |a| && a[i] == b[0];
    var j :| 0 <= j < |b| && b[j] == a[0];
    BeforeTotal(a[0], b[0]);
    assert i > 0 ==> !Before(a[i], a[0]);
    assert j > 0 ==> !Before(b[j], b[0]);
  }

  /** Only one list is ascending and has given elements, if those are faithful. */
  lemma {:induction false} AscendingUnique(a: seq<Tagged>, b: seq<Tagged>)
    requires Ascending(a) && Ascending(b) && multiset(a) == multiset(b) && Faithful(a)
    ensures a == b
  {
    assert |a| == |multiset(a)| && |b| == |multiset(b)|;
    if a != [] {
      SameFirst(a, b);
      assert a == [a[0]] + a[1..] && b == [b[0]] + b[1..];
      assert multiset(a[1..]) == multiset(a) - multiset{a[0]};
      assert multiset(b[1..]) == multiset(b) - multiset{b[0]};
      assert forall t :: t in a[1..] ==> t in a;
      AscendingUnique(a[1..], b[1..]);
    }
  }

  lemma {:induction false} SortedTheSame(all: seq<Tagged>, other: seq<Tagged>)
    requires multiset(all) == multiset(other) && Faithful(all)
    ensures SortTagged(all) == SortTagged(other)
  {
    SortAscending(all);
    SortAscending(other);
    SortPermutes(all);
    SortPermutes(other);
    SameElements(all, SortTagged(all));
    AscendingUnique(SortTagged(all), SortTagged(other));
  }

  lemma {:induction false} TagLayerCount(layer: nat, rules: seq<RuleDefinition>, t: Tagged)
    ensures multiset(TagLayer(layer, rules))[t] == if t.layer == layer then multiset(rules)[t.rule] else 0
  {
    if rules != [] {
      var before, last := rules[..|rules| - 1], rules[|rules| - 1];
      TagLayerCount(layer, before, t);
      assert rules == before + [last];
      assert TagLayer(layer, rules) == TagLayer(layer, before) + [Tagged(layer, last)];
      assert t == Tagged(t.layer, t.rule);
    }
  }

  /** Layer by layer the same rules, listed in any order. */
  ghost predicate Relisted(layers: seq<seq<RuleDefinition>>, other: seq<seq<RuleDefinition>>) {
    |layers| == |other| && forall i :: 0 <= i < |layers| ==> multiset(layers[i]) == multiset(other[i])
  }

  lemma {:induction false} RelistedTags(layers: seq<seq<RuleDefinition>>, other: seq<seq<RuleDefinition>>)
    requires Relisted(layers, other)
    ensures multiset(TagLayers(layers)) == multiset(TagLayers(other))
  {
    if layers != [] {
      var n := |layers| - 1;
      RelistedTags(layers[..n], other[..n]);
      forall t: Tagged
        ensures multiset(TagLayer(n, layers[n]))[t] == multiset(TagLayer(n, other[n]))[t]
      {
        TagLayerCount(n, layers[n], t);
        TagLayerCount(n, other[n], t);
      }
      assert multiset(TagLayer(n, layers[n])) == multiset(TagLayer(n, other[n]));
    }
  }

  lemma {:induction false} NoneMeansNoError(ts: seq<Tagged>)
    requires forall t :: t in ts ==> RuleError(t.rule).None?
    ensures FirstError(ts).None?
  {
    if ts != [] {
      assert ts[0] in ts;
      NoneMeansNoError(ts[1..]);
    }
  }

  lemma SameElements(a: seq<Tagged>, b: seq<Tagged>)
    requires multiset(a) == multiset(b)
    ensures forall t :: t in a <==> t in b
  {
    assert forall t :: t in a <==> t in multiset(a);
    assert forall t :: t in b <==> t in multiset(b);
  }

  lemma {:induction false} TagsAre(layers: seq<seq<RuleDefinition>>)
    ensures forall t :: t in TagLayers(layers) <==> t.layer < |layers| && t.rule in layers[t.layer]
  {
    if layers != [] {
      var n := |layers| - 1;
      TagsAre(layers[..n]);
      var last := TagLayer(n, layers[n]);
      forall t ensures t in last <==> t.layer == n && t.rule in layers[n] {
        if t.layer == n && t.rule in layers[n] {
          var i :| 0 <= i < |layers[n]| && layers[n][i] == t.rule;
          assert last[i] == t;
        }
      }
    }
  }

  /** Within one layer no two different rules share phase and identifier. */
  ghost predicate NoClash(layers: seq<seq<RuleDefinition>>) {
    forall n, i, j :: 0 <= n < |layers| && 0 <= i < |layers[n]| && 0 <= j < |layers[n]| ==>
      !ClashingRules(layers[n][i], layers[n][j])
  }

  predicate ClashingRules(r: RuleDefinition, s: RuleDefinition) {
    r.phase == s.phase && r.id == s.id && r != s
  }

  lemma {:induction false} NoClashIsFaithful(layers: seq<seq<RuleDefinition>>)
    requires NoClash(layers)
    ensures Faithful(TagLayers(layers))
  {
    TagsAre(layers);
    forall t, u | t in TagLayers(layers) && u in TagLayers(layers) && SameKey(t, u) ensures t == u {
      var i :| 0 <= i < |layers[t.layer]| && layers[t.layer][i] == t.rule;
      var j :| 0 <= j < |layers[t.layer]| && layers[t.layer][j] == u.rule;
      assert !ClashingRules(layers[t.layer][i], layers[t.layer][j]);
    }
  }

  /** Without a clash, listing the rules of each layer differently compiles to the same rule set. */
  lemma RelistingCompilesTheSame(id: string, layers: seq<seq<RuleDefinition>>, other: seq<seq<RuleDefinition>>)
    requires Relisted(layers, other) && CompileLayers(id, layers).Good? && NoClash(layers)
    ensures CompileLayers(id, other) == CompileLayers(id, layers)
  {
    var all, all' := TagLayers(layers), TagLayers(other);
    RelistedTags(layers, other);
    NoClashIsFaithful(layers);
    SortedTheSame(all, all');
    NoErrorMeansNone(all);
    SameElements(all, all');
    NoneMeansNoError(all');
  }

  // Sorting is stable, and goes by the keys alone.

  ghost predicate Aligned(a: seq<Tagged>, b: seq<Tagged>) {
    |a| == |b| && forall k :: 0 <= k < |a| ==> SameKey(a[k], b[k])
  }

  lemma AlignedTail(a: seq<Tagged>, b: seq<Tagged>)
    requires Aligned(a, b) && a != []
    ensures Aligned(a[1..], b[1..])
  {
  }

  lemma {:induction false} InsertAligned(t: Tagged, u: Tagged, a: seq<Tagged>, b: seq<Tagged>)
    requires SameKey(t, u) && Aligned(a, b)
    ensures Aligned(InsertTagged(t, a), InsertTagged(u, b))
  {
    if a != [] {
      assert SameKey(a[0], b[0]) && (Before(t, a[0]) <==> Before(u, b[0]));
      AlignedTail(a, b);
      if !Before(t, a[0]) { InsertAligned(t, u, a[1..], b[1..]); }
    }
  }

  lemma {:induction false} SortAligned(a: seq<Tagged>, b: seq<Tagged>)
    requires Aligned(a, b)
    ensures Aligned(SortTagged(a), SortTagged(b))
  {
    if a != [] {
      var n := |a| - 1;
      SortAligned(a[..n], b[..n]);
      InsertAligned(a[n], b[n], SortTagged(a[..n]), SortTagged(b[..n]));
    }
  }

  /** The elements with the key of `x`, in order. */
  function Group(ts: seq<Tagged>, x: Tagged): seq<Tagged> {
    if ts == [] then [] else (if SameKey(ts[0], x) then [ts[0]] else []) + Group(ts[1..], x)
  }

  lemma {:induction false} GroupSnoc(ts: seq<Tagged>, t: Tagged, x: Tagged)
    ensures Group(ts + [t], x) == Group(ts, x) + if SameKey(t, x) then [t] else []
  {
    if ts == [] {
      assert ts + [t] == [t] && [t][1..] == [];
    } else {
      assert (ts + [t])[0] == ts[0] && (ts + [t])[1..] == ts[1..] + [t];
      GroupSnoc(ts[1..], t, x);
    }
  }

  lemma {:induction false} GroupEmpty(ts: seq<Tagged>, x: Tagged)
    requires forall t :: t in ts ==> !SameKey(t, x)
    ensures Group(ts, x) == []
  {
    if ts != [] {
      assert ts[0] in ts && forall t :: t in ts[1..] ==> t in ts;
      GroupEmpty(ts[1..], x);
    }
  }

  lemma {:induction false} InsertStable(t: Tagged, ts: seq<Tagged>, x: Tagged)
    requires Ascending(ts)
    ensures Group(InsertTagged(t, ts), x) == Group(ts, x) + if SameKey(t, x) then [t] else []
  {
    if ts == [] {
      assert [t] + ts == [t] && [t][1..] == [];
    } else if Before(t, ts[0]) {
      assert ([t] + ts)[1..] == ts;
      if SameKey(t, x) {
        forall u | u in ts ensures !SameKey(u, x) {
          var k :| 0 <= k < |ts| && ts[k] == u;
          BeforeTotal(t, ts[0]);
          if k > 0 { NotBeforeChain(t, ts[0], ts[k]); }
        }
        GroupEmpty(ts, x);
      }
    } else {
      var rest := InsertTagged(t, ts[1..]);
      InsertStable(t, ts[1..], x);
      assert ([ts[0]] + rest)[1..] == rest;
    }
  }

  lemma {:induction false} SortStable(ts: seq<Tagged>, x: Tagged)
    ensures Group(SortTagged(ts), x) == Group(ts, x)
  {
    if ts != [] {
      var n := |ts| - 1;
      SortStable(ts[..n], x);
      SortAscending(ts[..n]);
      InsertStable(ts[n], SortTagged(ts[..n]), x);
      GroupSnoc(ts[..n], ts[n], x);
      assert ts == ts[..n] + [ts[n]];
    }
  }

  /** Aligned lists with the same group agree wherever the group stands. */
  lemma {:induction false} GroupDecides(a: seq<Tagged>, b: seq<Tagged>, x: Tagged, p: nat)
    requires Aligned(a, b) && Group(a, x) == Group(b, x) && p < |a| && SameKey(a[p], x)
    ensures a[p] == b[p]
  {
    assert SameKey(a[0], b[0]);
    if p == 0 {
      assert Group(a, x)[0] == a[0] && Group(b, x)[0] == b[0];
    } else {
      AlignedTail(a, b);
      var m := if SameKey(a[0], x) then 1 else 0;
      assert Group(a, x)[m..] == Group(a[1..], x) && Group(b, x)[m..] == Group(b[1..], x);
      GroupDecides(a[1..], b[1..], x, p - 1);
    }
  }

  /** Layer `n` with two of its rules changing places. */
  function Swapped(layers: seq<seq<RuleDefinition>>, n: nat, i: nat, j: nat): seq<seq<RuleDefinition>>
    requires n < |layers| && i < |layers[n]| && j < |layers[n]|
  {
    layers[n := layers[n][i := layers[n][j]][j := layers[n][i]]]
  }

  lemma SwappedIsRelisted(layers: seq<seq<RuleDefinition>>, n: nat, i: nat, j: nat)
    requires n < |layers| && i < |layers[n]| && j < |layers[n]|
    ensures Relisted(layers, Swapped(layers, n, i, j))
  {
    var rules := layers[n];
    var once := rules[i := rules[j]];
    assert multiset(once) == multiset(rules) - multiset{rules[i]} + multiset{rules[j]};
    assert multiset(once[j := rules[i]]) == multiset(once) - multiset{once[j]} + multiset{rules[i]};
  }

  lemma TagLayerAligned(layer: nat, rules: seq<RuleDefinition>, other: seq<RuleDefinition>)
    requires |rules| == |other|
    requires forall k :: 0 <= k < |rules| ==> rules[k].phase == other[k].phase && rules[k].id == other[k].id
    ensures Aligned(TagLayer(layer, rules), TagLayer(layer, other))
  {
  }

  /** Swapping two rules of one phase and identifier keeps all keys in place. */
  lemma {:induction false} SwapTags(layers: seq<seq<RuleDefinition>>, n: nat, i: nat, j: nat) returns (p: nat)
    requires n < |layers| && i < |layers[n]| && j < |layers[n]|
    requires layers[n][i].phase == layers[n][j].phase && layers[n][i].id == layers[n][j].id
    ensures Aligned(TagLayers(layers), TagLayers(Swapped(layers, n, i, j))) && p < |TagLayers(layers)|
    ensures TagLayers(layers)[p] == Tagged(n, layers[n][i])
    ensures TagLayers(Swapped(layers, n, i, j))[p] == Tagged(n, layers[n][j])
  {
    var m, other := |layers| - 1, Swapped(layers, n, i, j);
    if n == m {
      assert other[..m] == layers[..m];
      AlignedSelf(TagLayers(layers[..m]));
      if i == j { assert other[n][i] == layers[n][i]; }
      var last, last' := TagLayer(m, layers[m]), TagLayer(m, other[m]);
      TagLayerAligned(m, layers[m], other[m]);
      AlignedConcat(TagLayers(layers[..m]), TagLayers(layers[..m]), last, last');
      p := |TagLayers(layers[..m])| + i;
    } else {
      assert other[..m] == Swapped(layers[..m], n, i, j) && other[m] == layers[m];
      p := SwapTags(layers[..m], n, i, j);
      AlignedSelf(TagLayer(m, layers[m]));
      AlignedConcat(TagLayers(layers[..m]), TagLayers(other[..m]), TagLayer(m, layers[m]), TagLayer(m, layers[m]));
    }
  }

  lemma AlignedSelf(a: seq<Tagged>)
    ensures Aligned(a, a)
  {
  }

  lemma AlignedConcat(a: seq<Tagged>, a': seq<Tagged>, b: seq<Tagged>, b': seq<Tagged>)
    requires Aligned(a, a') && Aligned(b, b')
    ensures Aligned(a + b, a' + b')
  {
  }

  /** Swapping two clashing rules compiles to another rule set. */
  lemma SwapCompilesDifferently(id: string, layers: seq<seq<RuleDefinition>>, n: nat, i: nat, j: nat)
    requires n < |layers| && i < |layers[n]| && j < |layers[n]| && ClashingRules(layers[n][i], layers[n][j])
    requires CompileLayers(id, layers).Good?
    ensures CompileLayers(id, Swapped(layers, n, i, j)) != CompileLayers(id, layers)
  {
    var other := Swapped(layers, n, i, j);
    if CompileLayers(id, other) == CompileLayers(id, layers) {
      var all, all' := TagLayers(layers), TagLayers(other);
      var p := SwapTags(layers, n, i, j);
      SortAligned(all, all');
      UntagDecides(SortTagged(all), SortTagged(all'));
      SortStable(all, all[p]);
      SortStable(all', all[p]);
      GroupDecides(all, all', all[p], p);
    }
  }

  /** Rules and keys together are the whole list. */
  lemma UntagDecides(a: seq<Tagged>, b: seq<Tagged>)
    requires Aligned(a, b) && Untag(a) == Untag(b)
    ensures a == b
  {
    forall k | 0 <= k < |a| ensures a[k] == b[k] {
      assert SameKey(a[k], b[k]) && Untag(a)[k] == a[k].rule && Untag(b)[k] == b[k].rule;
    }
  }

  /** Serialized order never controls execution order exactly if no two different rules of one phase
      and layer share an identifier: only then does every way of listing the rules of each layer
      compile to the same rule set. */
  lemma SerializedOrderIrrelevantIff(id: string, layers: seq<seq<RuleDefinition>>)
    requires CompileLayers(id, layers).Good?
    ensures NoClash(layers) <==> forall other :: Relisted(layers, other) ==> CompileLayers(id, other) == CompileLayers(id, layers)
  {
    if NoClash(layers) {
      forall other | Relisted(layers, other) ensures CompileLayers(id, other) == CompileLayers(id, layers) {
        RelistingCompilesTheSame(id, layers, other);
      }
    } else {
      var n, i, j :| 0 <= n < |layers| && 0 <= i < |layers[n]| && 0 <= j < |layers[n]| && ClashingRules(layers[n][i], layers[n][j]);
      SwappedIsRelisted(layers, n, i, j);
      SwapCompilesDifferently(id, layers, n, i, j);
    }
  }
}
