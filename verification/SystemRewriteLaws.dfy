/** What a system rewrite keeps of the client's blocks, and that it never adds cache breakpoints. */
module SystemRewriteLaws {
  import opened Wrappers
  import opened Json
  import opened SystemSegments
  import opened SystemRewrite

  /** Blocks that are objects have distinct keys. */
  ghost predicate BlocksOk(blocks: seq<Value>) {
    forall i :: 0 <= i < |blocks| && blocks[i].Obj? ==> DistinctKeys(blocks[i].members)
  }

  // ----- counting breakpoints -----

  lemma {:induction false} CountConcat(a: seq<Value>, b: seq<Value>)
    ensures CountPoints(a + b) == CountPoints(a) + CountPoints(b)
  {
    if a == [] {
      assert a + b == b;
    } else {
      assert (a + b)[1..] == a[1..] + b;
      CountConcat(a[1..], b);
    }
  }

  lemma {:induction false} CountIsPoints(blocks: seq<Value>, i: nat)
    requires i <= |blocks|
    ensures |PointsFrom(blocks, i)| == CountPoints(blocks[i..])
    decreases |blocks| - i
  {
    if i < |blocks| {
      CountIsPoints(blocks, i + 1);
      assert blocks[i..][1..] == blocks[i + 1..];
    }
  }

  lemma CountUpdate(blocks: seq<Value>, i: nat, block: Value)
    requires i < |blocks|
    ensures CountPoints(blocks[i := block])
         == CountPoints(blocks) - (if HasPoint(blocks[i]) then 1 else 0) + (if HasPoint(block) then 1 else 0)
  {
    var a, b := blocks[..i], blocks[i + 1..];
    assert blocks == a + ([blocks[i]] + b) && blocks[i := block] == a + ([block] + b);
    CountConcat(a, [blocks[i]] + b);
    CountConcat(a, [block] + b);
    assert ([blocks[i]] + b)[1..] == b && ([block] + b)[1..] == b;
  }

  lemma StripPoint(block: Value)
    requires block.Obj? ==> DistinctKeys(block.members)
    ensures !HasPoint(Strip(block)) && (Strip(block).Obj? ==> DistinctKeys(Strip(block).members))
    ensures forall key :: key != "cache_control" ==> Field(Strip(block), key) == Field(block, key)
  {
    if block.Obj? {
      forall key
        ensures Get(Remove(block.members, "cache_control"), key)
             == if key == "cache_control" then None else Get(block.members, key)
      {
        GetRemove(block.members, "cache_control", key);
      }
      GetRemove(block.members, "cache_control", "cache_control");
    }
  }

  lemma ControlPoint(block: Value, control: Value)
    requires block.Obj? && DistinctKeys(block.members)
    ensures WithControl(block, control).Obj? && DistinctKeys(WithControl(block, control).members)
    ensures HasPoint(WithControl(block, control)) <==> !control.Null?
    ensures forall key :: Field(WithControl(block, control), key) == if key == "cache_control" then Some(control) else Field(block, key)
  {
    forall key
      ensures Get(Insert(block.members, "cache_control", control), key)
           == if key == "cache_control" then Some(control) else Get(block.members, key)
    {
      GetInsert(block.members, "cache_control", control, key);
    }
    GetInsert(block.members, "cache_control", control, "cache_control");
  }

  // ----- stripping along an order -----

  ghost predicate GoodOrder(order: seq<nat>, n: nat) {
    && (forall i :: 0 <= i < |order| ==> order[i] < n)
    && forall i, j :: 0 <= i < j < |order| ==> order[i] != order[j]
  }

  function PointsAlong(blocks: seq<Value>, order: seq<nat>): nat {
    if order == [] then 0
    else (if order[0] < |blocks| && HasPoint(blocks[order[0]]) then 1 else 0) + PointsAlong(blocks, order[1..])
  }

  lemma {:induction false} PointsAlongConcat(blocks: seq<Value>, a: seq<nat>, b: seq<nat>)
    ensures PointsAlong(blocks, a + b) == PointsAlong(blocks, a) + PointsAlong(blocks, b)
  {
    if a == [] {
      assert a + b == b;
    } else {
      assert (a + b)[1..] == a[1..] + b;
      PointsAlongConcat(blocks, a[1..], b);
    }
  }

  lemma {:induction false} PointsAlongElsewhere(blocks: seq<Value>, i: nat, block: Value, order: seq<nat>)
    requires i < |blocks| && i !in order
    ensures PointsAlong(blocks[i := block], order) == PointsAlong(blocks, order)
  {
    if order != [] {
      assert order[0] != i;
      PointsAlongElsewhere(blocks, i, block, order[1..]);
    }
  }

  lemma {:induction false} PointsAlongRange(blocks: seq<Value>, lo: nat, hi: nat)
    requires lo <= hi <= |blocks|
    ensures PointsAlong(blocks, Upto(lo, hi)) == CountPoints(blocks[lo..hi])
    decreases hi
  {
    if lo < hi {
      PointsAlongRange(blocks, lo, hi - 1);
      PointsAlongConcat(blocks, Upto(lo, hi - 1), [hi - 1]);
      assert [hi - 1][1..] == [];
      assert blocks[lo..hi] == blocks[lo..hi - 1] + [blocks[hi - 1]];
      CountConcat(blocks[lo..hi - 1], [blocks[hi - 1]]);
      assert [blocks[hi - 1]][1..] == [];
    } else {
      assert blocks[lo..hi] == [];
    }
  }

  /** Stripping removes as many breakpoints as asked, as long as the order meets that many. */
  lemma {:induction false} StripCount(blocks: seq<Value>, order: seq<nat>, excess: nat)
    requires BlocksOk(blocks) && GoodOrder(order, |blocks|)
    ensures |StripAlong(blocks, order, excess)| == |blocks| && BlocksOk(StripAlong(blocks, order, excess))
    ensures CountPoints(StripAlong(blocks, order, excess)) == CountPoints(blocks) - Min(excess, PointsAlong(blocks, order))
    decreases |order|
  {
    if order != [] && excess > 0 {
      var i := order[0];
      if HasPoint(blocks[i]) {
        StripPoint(blocks[i]);
        CountUpdate(blocks, i, Strip(blocks[i]));
        PointsAlongElsewhere(blocks, i, Strip(blocks[i]), order[1..]);
        StripCount(blocks[i := Strip(blocks[i])], order[1..], excess - 1);
      } else {
        StripCount(blocks, order[1..], excess);
      }
    }
  }

  /** When the first part of the order meets enough breakpoints the second part is never used. */
  lemma {:induction false} StripStops(blocks: seq<Value>, a: seq<nat>, b: seq<nat>, excess: nat)
    requires BlocksOk(blocks) && GoodOrder(a, |blocks|) && excess <= PointsAlong(blocks, a)
    ensures StripAlong(blocks, a + b, excess) == StripAlong(blocks, a, excess)
    decreases |a|
  {
    if a != [] && excess > 0 {
      var i := a[0];
      assert (a + b)[1..] == a[1..] + b && (a + b)[0] == i;
      if HasPoint(blocks[i]) {
        StripPoint(blocks[i]);
        PointsAlongElsewhere(blocks, i, Strip(blocks[i]), a[1..]);
        StripStops(blocks[i := Strip(blocks[i])], a[1..], b, excess - 1);
      } else {
        StripStops(blocks, a[1..], b, excess);
      }
    }
  }

  /** `after` is `before` with the breakpoints in `[lo, cut)` gone and nothing else touched. */
  ghost predicate StrippedUpTo(before: seq<Value>, after: seq<Value>, lo: nat, cut: nat) {
    && |after| == |before|
    && forall i :: 0 <= i < |before| ==>
         after[i] == if lo <= i < cut && HasPoint(before[i]) then Strip(before[i]) else before[i]
  }

  lemma {:induction false} UptoFront(lo: nat, hi: nat)
    requires lo < hi
    ensures Upto(lo, hi) == [lo] + Upto(lo + 1, hi)
    decreases hi
  {
    if lo + 1 < hi { UptoFront(lo, hi - 1); }
  }

  /** Along an ascending range the leading breakpoints go and the trailing ones stay. */
  lemma {:induction false} StripRange(blocks: seq<Value>, lo: nat, hi: nat, excess: nat) returns (cut: nat)
    requires BlocksOk(blocks) && lo <= hi <= |blocks|
    ensures lo <= cut <= hi && StrippedUpTo(blocks, StripAlong(blocks, Upto(lo, hi), excess), lo, cut)
    decreases hi - lo
  {
    cut := lo;
    if lo < hi && excess > 0 {
      UptoFront(lo, hi);
      assert Upto(lo, hi)[1..] == Upto(lo + 1, hi);
      if HasPoint(blocks[lo]) {
        StripPoint(blocks[lo]);
        cut := StripRange(blocks[lo := Strip(blocks[lo])], lo + 1, hi, excess - 1);
      } else {
        cut := StripRange(blocks, lo + 1, hi, excess);
      }
    }
  }

  lemma {:induction false} RangeIsGood(lo: nat, hi: nat, n: nat)
    requires lo <= hi <= n
    ensures GoodOrder(Upto(lo, hi), n)
  {
    UptoIs(lo, hi);
  }

  lemma CandidatesGood(n: nat, lo: nat, hi: nat)
    requires lo <= hi <= n
    ensures GoodOrder(Candidates(n, lo, hi), n)
  {
    UptoIs(lo, hi);
    UptoIs(0, lo);
    UptoIs(hi, n);
  }

  lemma {:induction false} CountThree(a: seq<Value>, b: seq<Value>, c: seq<Value>)
    ensures CountPoints(a + b + c) == CountPoints(a) + CountPoints(b) + CountPoints(c)
  {
    CountConcat(a + b, c);
    CountConcat(a, b);
  }

  lemma {:induction false} CandidatesPoints(blocks: seq<Value>, lo: nat, hi: nat)
    requires lo <= hi <= |blocks|
    ensures PointsAlong(blocks, Candidates(|blocks|, lo, hi))
         == PointsAlong(blocks, Upto(lo, hi)) + PointsAlong(blocks, Upto(0, lo)) + PointsAlong(blocks, Upto(hi, |blocks|))
  {
    PointsAlongConcat(blocks, Upto(0, lo), Upto(hi, |blocks|));
    PointsAlongConcat(blocks, Upto(lo, hi), Upto(0, lo) + Upto(hi, |blocks|));
  }

  lemma {:induction false} CandidatesMeetAll(blocks: seq<Value>, lo: nat, hi: nat)
    requires lo <= hi <= |blocks|
    ensures PointsAlong(blocks, Candidates(|blocks|, lo, hi)) == CountPoints(blocks)
  {
    var n := |blocks|;
    CandidatesPoints(blocks, lo, hi);
    PointsAlongRange(blocks, lo, hi);
    PointsAlongRange(blocks, 0, lo);
    PointsAlongRange(blocks, hi, n);
    CountRanges(blocks, lo, hi);
  }

  lemma SplitThree(blocks: seq<Value>, lo: nat, hi: nat)
    requires lo <= hi <= |blocks|
    ensures blocks == blocks[0..lo] + blocks[lo..hi] + blocks[hi..|blocks|]
  {
  }

  lemma {:induction false} CountRanges(blocks: seq<Value>, lo: nat, hi: nat)
    requires lo <= hi <= |blocks|
    ensures CountPoints(blocks) == CountPoints(blocks[0..lo]) + CountPoints(blocks[lo..hi]) + CountPoints(blocks[hi..|blocks|])
  {
    SplitThree(blocks, lo, hi);
    CountThree(blocks[0..lo], blocks[lo..hi], blocks[hi..|blocks|]);
  }

  /** The budget is kept, and used up when there were breakpoints to spare. */
  lemma {:induction false} EnforceKeepsBudget(blocks: seq<Value>, budget: nat, lo: nat, hi: nat)
    requires BlocksOk(blocks) && lo <= hi <= |blocks|
    ensures CountPoints(Enforce(blocks, budget, lo, hi)) == Min(CountPoints(blocks), budget)
    ensures |Enforce(blocks, budget, lo, hi)| == |blocks|
  {
    CandidatesGood(|blocks|, lo, hi);
    CandidatesMeetAll(blocks, lo, hi);
    StripCount(blocks, Candidates(|blocks|, lo, hi), Excess(blocks, budget));
  }

  /** When the inserted blocks alone carry the excess, only leading inserted breakpoints go. */
  lemma EnforceStripsInserted(blocks: seq<Value>, budget: nat, lo: nat, hi: nat) returns (cut: nat)
    requires BlocksOk(blocks) && lo <= hi <= |blocks|
    requires Excess(blocks, budget) <= CountPoints(blocks[lo..hi])
    ensures lo <= cut <= hi && StrippedUpTo(blocks, Enforce(blocks, budget, lo, hi), lo, cut)
  {
    RangeIsGood(lo, hi, |blocks|);
    PointsAlongRange(blocks, lo, hi);
    StripStops(blocks, Upto(lo, hi), Upto(0, lo) + Upto(hi, |blocks|), Excess(blocks, budget));
    cut := StripRange(blocks, lo, hi, Excess(blocks, budget));
  }

  // ----- the static splice -----

  lemma InheritOk(inserted: seq<Value>, statics: seq<Value>)
    requires BlocksOk(inserted)
    ensures |Inherit(inserted, statics)| == |inserted| && BlocksOk(Inherit(inserted, statics))
  {
    if CountPoints(inserted) == 0 && LastCacheControl(statics).Some? && inserted != [] {
      var last := inserted[|inserted| - 1];
      if last.Obj? { ControlPoint(last, LastCacheControl(statics).value); }
    }
  }

  /** `next` is `items` with the segment from `start` to `dynamicStart` swapped for the inserted
      blocks: the kept prefix and the dynamic suffix are identical, the inserted blocks have lost at
      most the breakpoints of the first `cut`, and there are no more breakpoints than before. */
  ghost predicate KeepsClientBlocks(
    items: seq<Value>, next: seq<Value>, start: nat, dynamicStart: nat, inserted: seq<Value>, cut: nat)
  {
    && start <= dynamicStart <= |items| && |next| == start + |inserted| + (|items| - dynamicStart)
    && next[..start] == items[..start] && next[start + |inserted|..] == items[dynamicStart..]
    && cut <= |inserted|
    && StrippedUpTo(Inherit(inserted, items[start..dynamicStart]), next[start..start + |inserted|], 0, cut)
    && CountPoints(next) <= CountPoints(items)
  }

  lemma SpliceKeepsClientBlocks(blocks: seq<Value>, start: nat, dynamicStart: nat, inserted: seq<Value>) returns (cut: nat)
    requires start <= dynamicStart <= |blocks| && BlocksOk(blocks) && BlocksOk(inserted)
    ensures KeepsClientBlocks(blocks, Splice(blocks, start, dynamicStart, inserted, CountPoints(blocks)),
                              start, dynamicStart, inserted, cut)
  {
    var repl := Inherit(inserted, blocks[start..dynamicStart]);
    InheritOk(inserted, blocks[start..dynamicStart]);
    SplicedOk(blocks, start, dynamicStart, repl);
    cut := EnforceMiddle(blocks[..start], repl, blocks[dynamicStart..], CountPoints(blocks));
  }

  /** Enforcing the budget on a list whose middle part alone carries the excess. */
  lemma EnforceMiddle(a: seq<Value>, mid: seq<Value>, b: seq<Value>, budget: nat) returns (cut: nat)
    requires BlocksOk(a + mid + b) && Excess(a + mid + b, budget) <= CountPoints(mid)
    ensures var r := Enforce(a + mid + b, budget, |a|, |a| + |mid|);
            && |r| == |a| + |mid| + |b| && r[..|a|] == a && r[|a| + |mid|..] == b
            && cut <= |mid| && StrippedUpTo(mid, r[|a|..|a| + |mid|], 0, cut)
            && CountPoints(r) <= budget
  {
    var next, lo, hi := a + mid + b, |a|, |a| + |mid|;
    assert next[lo..hi] == mid;
    EnforceKeepsBudget(next, budget, lo, hi);
    var at := EnforceStripsInserted(next, budget, lo, hi);
    cut := at - lo;
    StrippedParts(a, mid, b, Enforce(next, budget, lo, hi), at);
  }

  lemma ReplaceIsSplice(system: Value, replacement: Value)
    requires system.Arr? && Parse(system).boundary.Resolved?
    ensures var s := Parse(system);
            && Start(s) <= s.boundary.dynamicStart <= |system.items|
            && ReplaceStatic(system, replacement)
               == (Arr(Splice(system.items, Start(s), s.boundary.dynamicStart, AsBlocks(replacement), CountPoints(system.items))),
                   StaticSegment)
  {
    ParseRanges(system);
    CountIsPoints(system.items, 0);
    assert system.items[0..] == system.items;
  }

  /** The rewrite with the parser's own boundary keeps the client's billing block and everything from
      the dynamic part on, loses no dynamic heading behind the static end, and spends at most the
      breakpoints the client sent. */
  lemma ReplaceKeepsClientBlocks(system: Value, replacement: Value) returns (cut: nat)
    requires WellFormed(system) && WellFormed(replacement)
    requires system.Arr? && Parse(system).boundary.Resolved?
    ensures ReplaceStatic(system, replacement).0.Arr? && ReplaceStatic(system, replacement).1.StaticSegment?
    ensures KeepsClientBlocks(system.items, ReplaceStatic(system, replacement).0.items, Start(Parse(system)),
                              Parse(system).boundary.dynamicStart, AsBlocks(replacement), cut)
    ensures forall j :: Parse(system).boundary.staticEnd < j < Parse(system).boundary.dynamicStart ==>
              j < |system.items| && !IsDynamic(system.items[j])
  {
    ReplaceIsSplice(system, replacement);
    AsBlocksOk(replacement);
    BoundarySeparates(system.items);
    cut := SpliceKeepsClientBlocks(system.items, Start(Parse(system)), Parse(system).boundary.dynamicStart, AsBlocks(replacement));
  }

  /** Stripping inside the middle part leaves the outer parts alone. */
  lemma StrippedParts(a: seq<Value>, mid: seq<Value>, b: seq<Value>, r: seq<Value>, cut: nat)
    requires |a| <= cut <= |a| + |mid| && StrippedUpTo(a + mid + b, r, |a|, cut)
    ensures |r| == |a| + |mid| + |b| && r[..|a|] == a && r[|a| + |mid|..] == b
    ensures StrippedUpTo(mid, r[|a|..|a| + |mid|], 0, cut - |a|)
  {
    var next := a + mid + b;
    forall i | 0 <= i < |mid|
      ensures r[|a|..|a| + |mid|][i] == if i < cut - |a| && HasPoint(mid[i]) then Strip(mid[i]) else mid[i]
    {
      assert next[|a| + i] == mid[i];
    }
  }

  lemma {:induction false} SplicedOk(blocks: seq<Value>, start: nat, dynamicStart: nat, repl: seq<Value>)
    requires start <= dynamicStart <= |blocks| && BlocksOk(blocks) && BlocksOk(repl)
    ensures var next := blocks[..start] + repl + blocks[dynamicStart..];
            BlocksOk(next) && Excess(next, CountPoints(blocks)) <= CountPoints(repl)
  {
    var a, mid, b := blocks[..start], blocks[start..dynamicStart], blocks[dynamicStart..];
    assert blocks == a + mid + b;
    CountThree(a, mid, b);
    CountThree(a, repl, b);
  }

  /** In every case the rewritten system carries no more breakpoints than the client sent. */
  lemma {:induction false} NeverMoreBreakpoints(system: Value, replacement: Value)
    requires WellFormed(system) && WellFormed(replacement)
    ensures var (next, _) := ReplaceStatic(system, replacement);
            CountPoints(Blocks(next)) <= CountPoints(Blocks(system))
  {
    var s := Parse(system);
    CountIsPoints(Blocks(system), 0);
    assert Blocks(system)[0..] == Blocks(system);
    if system.Arr? && s.boundary.Resolved? {
      var cut := ReplaceKeepsClientBlocks(system, replacement);
    } else {
      WholeWithinBudget(system, replacement);
    }
  }

  lemma {:induction false} AsBlocksOk(replacement: Value)
    requires WellFormed(replacement)
    ensures BlocksOk(AsBlocks(replacement))
  {
    if replacement.Arr? {
      forall i | 0 <= i < |replacement.items| && replacement.items[i].Obj?
        ensures DistinctKeys(replacement.items[i].members)
      {
        assert WellFormed(replacement.items[i]);
      }
    }
  }

  lemma {:induction false} WholeWithinBudget(system: Value, replacement: Value)
    requires WellFormed(system) && WellFormed(replacement)
    ensures CountPoints(Blocks(ReplaceWhole(system, replacement))) <= |Parse(system).points|
  {
    var plain := if system.Arr? && replacement.Str? then Arr([TextBlock(replacement.s)]) else replacement;
    var next := Transfer(system, plain);
    AsBlocksOk(replacement);
    if next.Arr? {
      if plain.Arr? && plain.items != [] && system.Arr? {
        TransferOk(system.items, 0, plain.items, {});
      }
      EnforceKeepsBudget(next.items, |Parse(system).points|, 0, |next.items|);
    } else if next.Str? {
      assert [next][1..] == [];
    }
  }

  // ----- breakpoint transfer -----

  lemma {:induction false} TransferOk(source: seq<Value>, i: nat, target: seq<Value>, used: set<nat>)
    requires i <= |source| && target != [] && BlocksOk(target)
    ensures |TransferFrom(source, i, target, used)| == |target| && BlocksOk(TransferFrom(source, i, target, used))
    decreases |source| - i
  {
    if i < |source| {
      if HasPoint(source[i]) {
        var mapped := Mapped(i, |source|, |target|);
        NearestInRange(mapped, |target|, used);
        var t := Nearest(mapped, |target|, used);
        if t.Some? && target[t.value].Obj? && !HasPoint(target[t.value]) {
          var control := Field(source[i], "cache_control").value;
          ControlPoint(target[t.value], control);
          TransferOk(source, i + 1, target[t.value := WithControl(target[t.value], control)], used + {t.value});
        } else {
          TransferOk(source, i + 1, target, used);
        }
      } else {
        TransferOk(source, i + 1, target, used);
      }
    }
  }

  /** A block that can be given a breakpoint. */
  predicate Takes(block: Value) {
    block.Obj? && !HasPoint(block)
  }

  /** The targets that some source was sent to. */
  function Used(sent: seq<Option<nat>>): set<nat> {
    if sent == [] then {} else
      var last := sent[|sent| - 1];
      Used(sent[..|sent| - 1]) + if last.Some? then {last.value} else {}
  }

  /** Where source `i` goes after those before it were sent as `sent` says: to the nearest target
      not yet used, or nowhere if it has no breakpoint or that target cannot take one. */
  function Destination(i: nat, sent: seq<Option<nat>>, source: seq<Value>, original: seq<Value>): Option<nat>
    requires i < |source| && original != []
  {
    var near := Nearest(Mapped(i, |source|, |original|), |original|, Used(sent));
    if HasPoint(source[i]) && near.Some? && near.value < |original| && Takes(original[near.value]) then near else None
  }

  /** The block with the breakpoint of the source block. */
  function Given(source: Value, block: Value): Value
    requires HasPoint(source) && block.Obj?
  {
    WithControl(block, Field(source, "cache_control").value)
  }

  /** Target `t` is as it was, or it could take a breakpoint and has exactly the one of the source
      that was sent there. */
  ghost predicate Got(sent: seq<Option<nat>>, t: nat, source: seq<Value>, before: Value, after: Value) {
    if t in Used(sent) then
      Takes(before) && exists j :: 0 <= j < |sent| && j < |source| && sent[j] == Some(t) && HasPoint(source[j])
                                   && after == Given(source[j], before)
    else after == before
  }

  /** Source `j` went where it had to go after those before it. */
  predicate Chosen(sent: seq<Option<nat>>, j: nat, source: seq<Value>, original: seq<Value>)
    requires j < |sent| <= |source| && original != []
  {
    sent[j] == Destination(j, sent[..j], source, original)
  }

  /** No two sources were sent to the same target. */
  ghost predicate Apart(sent: seq<Option<nat>>) {
    forall i, j :: 0 <= i < j < |sent| && sent[i].Some? ==> sent[i] != sent[j]
  }

  /** Sending the first sources as `sent` says has led from `original` to `target`. */
  ghost predicate Transferred(sent: seq<Option<nat>>, source: seq<Value>, original: seq<Value>, target: seq<Value>) {
    && |sent| <= |source| && original != [] && |original| == |target|
    && Apart(sent)
    && (forall j :: 0 <= j < |sent| ==> Chosen(sent, j, source, original))
    && (forall t :: 0 <= t < |original| ==> Got(sent, t, source, original[t], target[t]))
  }

  lemma {:induction false} UsedIs(sent: seq<Option<nat>>)
    ensures forall j :: 0 <= j < |sent| && sent[j].Some? ==> sent[j].value in Used(sent)
    decreases |sent|
  {
    if sent != [] {
      var n := |sent| - 1;
      UsedIs(sent[..n]);
      forall j | 0 <= j < |sent| && sent[j].Some? ensures sent[j].value in Used(sent) {
        if j < n { assert sent[..n][j] == sent[j]; }
      }
    }
  }

  lemma {:induction false} UsedSnoc(sent: seq<Option<nat>>, d: Option<nat>)
    ensures Used(sent + [d]) == Used(sent) + if d.Some? then {d.value} else {}
  {
    assert (sent + [d])[..|sent|] == sent;
  }

  /** The next source goes to `d`. */
  lemma DestinationsSnoc(sent: seq<Option<nat>>, d: Option<nat>, source: seq<Value>, original: seq<Value>)
    requires |sent| < |source| && original != [] && d == Destination(|sent|, sent, source, original)
    requires Apart(sent) && forall j :: 0 <= j < |sent| ==> Chosen(sent, j, source, original)
    ensures Apart(sent + [d])
    ensures forall j :: 0 <= j < |sent + [d]| ==> Chosen(sent + [d], j, source, original)
  {
    UsedIs(sent);
    NearestInRange(Mapped(|sent|, |source|, |original|), |original|, Used(sent));
    forall j | 0 <= j < |sent + [d]| ensures Chosen(sent + [d], j, source, original) {
      assert (sent + [d])[..j] == sent[..j];
      if j < |sent| { assert Chosen(sent, j, source, original); } else { assert sent[..j] == sent; }
    }
  }

  lemma GotSnoc(sent: seq<Option<nat>>, d: Option<nat>, t: nat, source: seq<Value>, before: Value, after: Value)
    requires Got(sent, t, source, before, after) && d != Some(t)
    ensures Got(sent + [d], t, source, before, after)
  {
    UsedSnoc(sent, d);
    if t in Used(sent) {
      var j :| 0 <= j < |sent| && j < |source| && sent[j] == Some(t) && HasPoint(source[j]) && after == Given(source[j], before);
      assert (sent + [d])[j] == Some(t);
    }
  }

  lemma SendNowhere(sent: seq<Option<nat>>, source: seq<Value>, original: seq<Value>, target: seq<Value>)
    requires Transferred(sent, source, original, target) && |sent| < |source|
    requires Destination(|sent|, sent, source, original) == None
    ensures Transferred(sent + [None], source, original, target)
  {
    DestinationsSnoc(sent, None, source, original);
    forall t | 0 <= t < |original| ensures Got(sent + [None], t, source, original[t], target[t]) {
      GotSnoc(sent, None, t, source, original[t], target[t]);
    }
  }

  lemma SendTo(sent: seq<Option<nat>>, t: nat, source: seq<Value>, original: seq<Value>, target: seq<Value>)
    requires Transferred(sent, source, original, target) && |sent| < |source|
    requires Destination(|sent|, sent, source, original) == Some(t)
    ensures t < |target| && target[t] == original[t] && Takes(original[t]) && HasPoint(source[|sent|])
    ensures Transferred(sent + [Some(t)], source, original, target[t := Given(source[|sent|], target[t])])
  {
    var i := |sent|;
    DestinationsSnoc(sent, Some(t), source, original);
    NearestInRange(Mapped(i, |source|, |original|), |original|, Used(sent));
    assert Got(sent, t, source, original[t], target[t]);
    UsedSnoc(sent, Some(t));
    var target' := target[t := Given(source[i], target[t])];
    forall u | 0 <= u < |original| ensures Got(sent + [Some(t)], u, source, original[u], target'[u]) {
      if u == t {
        assert (sent + [Some(t)])[i] == Some(t);
      } else {
        GotSnoc(sent, Some(t), u, source, original[u], target[u]);
      }
    }
  }

  /** The nearest unused target is still as it was. */
  lemma {:induction false} NearestIsFree(sent: seq<Option<nat>>, source: seq<Value>, original: seq<Value>, target: seq<Value>)
    requires Transferred(sent, source, original, target) && |sent| < |source|
    ensures var near := Nearest(Mapped(|sent|, |source|, |original|), |original|, Used(sent));
            near.Some? ==> near.value < |target| && target[near.value] == original[near.value]
  {
    var near := Nearest(Mapped(|sent|, |source|, |original|), |original|, Used(sent));
    NearestInRange(Mapped(|sent|, |source|, |original|), |original|, Used(sent));
    if near.Some? { assert Got(sent, near.value, source, original[near.value], target[near.value]); }
  }

  /** One source of the loop. */
  lemma {:induction false} TransferStep(sent: seq<Option<nat>>, source: seq<Value>, original: seq<Value>, target: seq<Value>)
    requires Transferred(sent, source, original, target) && |sent| < |source|
    ensures var d := Destination(|sent|, sent, source, original);
            && (d.Some? ==> d.value < |target| && target[d.value].Obj? && HasPoint(source[|sent|]))
            && TransferFrom(source, |sent|, target, Used(sent))
               == TransferFrom(source, |sent| + 1,
                               if d.None? then target else target[d.value := Given(source[|sent|], target[d.value])],
                               Used(sent) + if d.None? then {} else {d.value})
  {
    NearestIsFree(sent, source, original, target);
    assert Used(sent) + {} == Used(sent);
  }

  /** Where the transfer stands, it goes on as recorded. */
  lemma {:induction false} TransferContinues(sent: seq<Option<nat>>, source: seq<Value>, original: seq<Value>, target: seq<Value>)
      returns (all: seq<Option<nat>>)
    requires Transferred(sent, source, original, target)
    ensures |all| == |source| && Transferred(all, source, original, TransferFrom(source, |sent|, target, Used(sent)))
    decreases |source| - |sent|
  {
    if |sent| == |source| {
      all := sent;
    } else {
      var d := Destination(|sent|, sent, source, original);
      UsedSnoc(sent, d);
      TransferStep(sent, source, original, target);
      if d.Some? {
        SendTo(sent, d.value, source, original, target);
        all := TransferContinues(sent + [d], source, original, target[d.value := Given(source[|sent|], target[d.value])]);
      } else {
        SendNowhere(sent, source, original, target);
        all := TransferContinues(sent + [d], source, original, target);
      }
    }
  }

  /** The transfer sends source breakpoints to pairwise distinct targets, each to the nearest one that
      no earlier source got, if that can take it; a target that got one is its old self with exactly
      that control, never had one before, and all others are as they were. */
  lemma TransferGives(source: seq<Value>, target: seq<Value>) returns (sent: seq<Option<nat>>)
    requires target != []
    ensures |sent| == |source| && Transferred(sent, source, target, TransferFrom(source, 0, target, {}))
  {
    assert Transferred([], source, target, target);
    sent := TransferContinues([], source, target, target);
  }

  /** Only one list of destinations is like that, so it says exactly what the transfer does. */
  lemma {:induction false} DestinationsAreUnique(sent: seq<Option<nat>>, other: seq<Option<nat>>, source: seq<Value>, original: seq<Value>, i: nat)
    requires |sent| == |other| == |source| && original != [] && i <= |source|
    requires forall j :: 0 <= j < |source| ==> Chosen(sent, j, source, original) && Chosen(other, j, source, original)
    ensures sent[..i] == other[..i]
    decreases i
  {
    if i > 0 {
      DestinationsAreUnique(sent, other, source, original, i - 1);
      assert Chosen(sent, i - 1, source, original) && Chosen(other, i - 1, source, original);
      TakeSnoc(sent, i - 1);
      TakeSnoc(other, i - 1);
    }
  }

  lemma TakeSnoc(sent: seq<Option<nat>>, i: nat)
    requires i < |sent|
    ensures sent[..i + 1] == sent[..i] + [sent[i]]
  {
  }

  /** What the transfer does to one block when the lengths agree. */
  function OwnBreakpoint(source: Value, target: Value): Value {
    if HasPoint(source) && target.Obj? && !HasPoint(target)
    then WithControl(target, Field(source, "cache_control").value) else target
  }

  lemma {:induction false} NearestSelf(i: nat, n: nat, used: set<nat>)
    requires i < n && i !in used
    ensures Nearest(i, n, used) == Some(i)
  {
    NearestInRange(i, n, used);
    assert Nearer(i, Nearest(i, n, used).value, i);
  }

  lemma {:induction false} EqualLengthsFrom(source: seq<Value>, i: nat, original: seq<Value>, target: seq<Value>, used: set<nat>)
    requires i <= |source| == |original| == |target| && target != []
    requires forall t :: t in used ==> t < i
    requires forall t :: 0 <= t < |target| ==> target[t] == if t < i then OwnBreakpoint(source[t], original[t]) else original[t]
    ensures |TransferFrom(source, i, target, used)| == |source|
    ensures forall t :: 0 <= t < |source| ==> TransferFrom(source, i, target, used)[t] == OwnBreakpoint(source[t], original[t])
    decreases |source| - i
  {
    if i < |source| {
      OwnStep(source, i, target, used);
      var taken := HasPoint(source[i]) && Takes(target[i]);
      EqualLengthsFrom(source, i + 1, original, target[i := OwnBreakpoint(source[i], target[i])], if taken then used + {i} else used);
    }
  }

  lemma OwnStep(source: seq<Value>, i: nat, target: seq<Value>, used: set<nat>)
    requires i < |source| == |target| && i !in used
    ensures TransferFrom(source, i, target, used)
         == TransferFrom(source, i + 1, target[i := OwnBreakpoint(source[i], target[i])],
                         if HasPoint(source[i]) && Takes(target[i]) then used + {i} else used)
  {
    MappedSame(i, |source|);
    NearestSelf(i, |target|, used);
    assert target[i := target[i]] == target;
  }

  /** With as many targets as sources every breakpoint lands on its own index. */
  lemma {:induction false} EqualLengths(source: seq<Value>, target: seq<Value>)
    requires |source| == |target| && target != []
    ensures |TransferFrom(source, 0, target, {})| == |source|
    ensures forall t :: 0 <= t < |source| ==> TransferFrom(source, 0, target, {})[t] == OwnBreakpoint(source[t], target[t])
  {
    EqualLengthsFrom(source, 0, target, target, {});
  }

  // ----- the mapped index -----

  lemma DivUnique(a: int, d: int, q: int)
    requires d > 0 && q * d <= a < (q + 1) * d
    ensures a / d == q
  {
    var r := a / d;
    assert r * d <= a < (r + 1) * d;
    assert r < q ==> (r + 1) * d <= q * d;
    assert r > q ==> (q + 1) * d <= r * d;
  }

  lemma MappedSame(i: nat, n: nat)
    requires i < n
    ensures Mapped(i, n, n) == i
  {
    if n > 1 {
      assert (i + 1) * (n - 1) == i * (n - 1) + (n - 1);
      DivUnique(i * (n - 1) + (n - 1) / 2, n - 1, i);
    }
  }

  /** The mapped index is the nearest whole number to the proportional place. */
  lemma MappedIsNearest(i: nat, sourceLen: nat, targetLen: nat)
    requires i < sourceLen && sourceLen >= 2 && targetLen >= 2
    ensures var m := Mapped(i, sourceLen, targetLen);
            -(sourceLen - 1) <= 2 * (m * (sourceLen - 1) - i * (targetLen - 1)) <= sourceLen - 1
  {
    var d := sourceLen - 1;
    var a := i * (targetLen - 1) + d / 2;
    var m := a / d;
    assert m * d <= a < m * d + d by { assert a == m * d + a % d; }
  }

  /** It is in range and follows the order of the sources. */
  lemma MappedInOrder(i: nat, j: nat, sourceLen: nat, targetLen: nat)
    requires i <= j < sourceLen && targetLen >= 1
    ensures Mapped(i, sourceLen, targetLen) <= Mapped(j, sourceLen, targetLen) < targetLen
  {
    if sourceLen > 1 && targetLen > 1 {
      var d, t := sourceLen - 1, targetLen - 1;
      assert i * t <= j * t <= d * t by { MulMono(i, j, t); MulMono(j, d, t); }
      DivMono(i * t + d / 2, j * t + d / 2, d);
      DivMono(j * t + d / 2, d * t + d / 2, d);
      assert t * d == d * t && (t + 1) * d == d * t + d;
      DivUnique(d * t + d / 2, d, t);
    }
  }

  lemma MulMono(a: nat, b: nat, c: nat)
    requires a <= b
    ensures a * c <= b * c
  {
    assert b * c == a * c + (b - a) * c;
  }

  lemma DivMono(a: nat, b: nat, d: nat)
    requires a <= b && d > 0
    ensures a / d <= b / d
  {
    var x, y := a / d, b / d;
    assert x * d <= a && b < (y + 1) * d;
    if x > y { MulMono(y + 1, x, d); }
  }

  // ----- keeping only the billing block -----

  /** Stripping the client leaves at most its billing block, alike in everything but a breakpoint,
      which is gone. */
  lemma {:induction false} StripClientKeepsBilling(system: Value)
    requires WellFormed(system)
    ensures StripClient(system).Some? ==>
              && system.Arr? && |system.items| > 0
              && StripClient(system).value.Arr? && |StripClient(system).value.items| == 1
              && !HasPoint(StripClient(system).value.items[0])
              && forall key :: key != "cache_control" ==>
                   Field(StripClient(system).value.items[0], key) == Field(system.items[0], key)
  {
    if StripClient(system).Some? {
      assert WellFormed(system.items[0]);
      StripPoint(system.items[0]);
    }
  }
}
