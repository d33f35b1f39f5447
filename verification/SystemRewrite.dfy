/** Replacing the client's system prompt while respecting the cache breakpoints it paid for.

    With a resolved boundary the static segment alone is replaced, and what the client sent before
    and behind it stays.  Otherwise the whole value is replaced, and the client's breakpoints move
    to the blocks at the same relative places of the replacement. */
module SystemRewrite {
  import opened Wrappers
  import opened Text
  import opened Json
  import opened SystemSegments

  datatype Rewrite = StaticSegment | Whole

  predicate IsEmptyReplacement(content: Value) {
    match content
    case Null => true
    case Str(text) => Blank(text)
    case Arr(blocks) => blocks == []
    case _ => false
  }

  function AsBlocks(replacement: Value): seq<Value> {
    match replacement
    case Str(text) => [TextBlock(text)]
    case Arr(blocks) => blocks
    case _ => []
  }

  function CountPoints(blocks: seq<Value>): nat {
    if blocks == [] then 0 else (if HasPoint(blocks[0]) then 1 else 0) + CountPoints(blocks[1..])
  }

  /** The breakpoint of the last block that has one. */
  function LastCacheControl(blocks: seq<Value>): Option<Value> {
    if blocks == [] then None
    else if HasPoint(blocks[|blocks| - 1]) then Field(blocks[|blocks| - 1], "cache_control")
    else LastCacheControl(blocks[..|blocks| - 1])
  }

  function WithControl(block: Value, control: Value): Value {
    if block.Obj? then Obj(Insert(block.members, "cache_control", control)) else block
  }

  /** A block without its breakpoint. */
  function Strip(block: Value): Value {
    if block.Obj? then Obj(Remove(block.members, "cache_control")) else block
  }

  // ----- the breakpoint budget -----

  function Upto(lo: nat, hi: nat): seq<nat> {
    if lo >= hi then [] else Upto(lo, hi - 1) + [hi - 1]
  }

  /** The order in which blocks are considered for stripping: the inserted ones first. */
  function Candidates(n: nat, lo: nat, hi: nat): seq<nat>
    requires lo <= hi <= n
  {
    Upto(lo, hi) + (Upto(0, lo) + Upto(hi, n))
  }

  /** Strip the first `excess` breakpoints met along `order`. */
  function StripAlong(blocks: seq<Value>, order: seq<nat>, excess: nat): seq<Value>
    decreases |order|
  {
    if order == [] || excess == 0 then blocks
    else if order[0] < |blocks| && HasPoint(blocks[order[0]]) then
      StripAlong(blocks[order[0] := Strip(blocks[order[0]])], order[1..], excess - 1)
    else StripAlong(blocks, order[1..], excess)
  }

  function Excess(blocks: seq<Value>, budget: nat): nat {
    if CountPoints(blocks) > budget then CountPoints(blocks) - budget else 0
  }

  function Enforce(blocks: seq<Value>, budget: nat, lo: nat, hi: nat): seq<Value>
    requires lo <= hi <= |blocks|
  {
    StripAlong(blocks, Candidates(|blocks|, lo, hi), Excess(blocks, budget))
  }

  method EnforceBreakpointBudget(blocks: array<Value>, budget: nat, lo: nat, hi: nat)
    requires lo <= hi <= blocks.Length
    modifies blocks
    ensures blocks[..] == Enforce(old(blocks[..]), budget, lo, hi)
  {
    var excess := Excess(blocks[..], budget);
    if excess == 0 {
      return;
    }
    var candidates := Candidates(blocks.Length, lo, hi);
    CandidatesInRange(blocks.Length, lo, hi);
    for i := 0 to |candidates|
      invariant StripAlong(blocks[..], candidates[i..], excess) == Enforce(old(blocks[..]), budget, lo, hi)
    {
      assert candidates[i..][1..] == candidates[i + 1..];
      if excess == 0 {
        break;
      }
      var index := candidates[i];
      if HasPoint(blocks[index]) {
        ghost var before := blocks[..];
        blocks[index] := Strip(blocks[index]);
        assert blocks[..] == before[index := Strip(before[index])];
        excess := excess - 1;
      }
    }
  }

  lemma {:induction false} UptoIs(lo: nat, hi: nat)
    ensures |Upto(lo, hi)| == (if lo < hi then hi - lo else 0)
    ensures forall i :: 0 <= i < |Upto(lo, hi)| ==> Upto(lo, hi)[i] == lo + i
  {
    if lo < hi { UptoIs(lo, hi - 1); }
  }

  lemma CandidatesInRange(n: nat, lo: nat, hi: nat)
    requires lo <= hi <= n
    ensures forall i :: 0 <= i < |Candidates(n, lo, hi)| ==> Candidates(n, lo, hi)[i] < n
  {
    UptoIs(lo, hi);
    UptoIs(0, lo);
    UptoIs(hi, n);
  }

  // ----- breakpoint transfer -----

  /** The relative place of a source block among the targets, rounded to the nearest. */
  function Mapped(i: nat, sourceLen: nat, targetLen: nat): nat
    requires i < sourceLen && targetLen > 0
  {
    if sourceLen == 1 || targetLen == 1 then 0
    else (i * (targetLen - 1) + (sourceLen - 1) / 2) / (sourceLen - 1)
  }

  function Distance(a: nat, b: nat): nat {
    if a < b then b - a else a - b
  }

  /** `a` is nearer to `mapped` than `b`, or as near and not above it. */
  predicate Nearer(mapped: nat, a: nat, b: nat) {
    Distance(a, mapped) < Distance(b, mapped) || (Distance(a, mapped) == Distance(b, mapped) && a <= b)
  }

  /** Of the indices below `n` not in `used`, the one nearest to `mapped`, the lower on a tie. */
  function Nearest(mapped: nat, n: nat, used: set<nat>): Option<nat> {
    if n == 0 then None else
      var prior := Nearest(mapped, n - 1, used);
      if n - 1 in used then prior
      else if prior.Some? && Distance(prior.value, mapped) <= Distance(n - 1, mapped) then prior
      else Some(n - 1)
  }

  /** Carry the breakpoints of `source[i..]` over to the targets. */
  function TransferFrom(source: seq<Value>, i: nat, target: seq<Value>, used: set<nat>): seq<Value>
    requires i <= |source| && target != []
    decreases |source| - i
  {
    if i == |source| then target
    else if !HasPoint(source[i]) then TransferFrom(source, i + 1, target, used)
    else
      match Nearest(Mapped(i, |source|, |target|), |target|, used)
      case None => TransferFrom(source, i + 1, target, used)
      case Some(t) =>
        if t >= |target| || !target[t].Obj? || HasPoint(target[t]) then TransferFrom(source, i + 1, target, used)
        else
          var control := Field(source[i], "cache_control").value;
          TransferFrom(source, i + 1, target[t := WithControl(target[t], control)], used + {t})
  }

  function Transfer(current: Value, replacement: Value): Value {
    if current.Arr? && replacement.Arr? && replacement.items != []
    then Arr(TransferFrom(current.items, 0, replacement.items, {}))
    else replacement
  }

  method FindNearest(mapped: nat, n: nat, used: set<nat>) returns (best: Option<nat>)
    ensures best == Nearest(mapped, n, used)
  {
    best := None;
    for index := 0 to n
      invariant best == Nearest(mapped, index, used)
    {
      if index !in used && (best.None? || Distance(best.value, mapped) > Distance(index, mapped)) {
        best := Some(index);
      }
    }
  }

  method TransferCacheControls(source: seq<Value>, target: array<Value>)
    modifies target
    ensures target[..] == if target.Length == 0 then old(target[..]) else TransferFrom(source, 0, old(target[..]), {})
  {
    if target.Length == 0 {
      return;
    }
    var used := {};
    for i := 0 to |source|
      invariant target[..] != [] && TransferFrom(source, i, target[..], used) == TransferFrom(source, 0, old(target[..]), {})
    {
      if !HasPoint(source[i]) {
        continue;
      }
      var mapped := Mapped(i, |source|, target.Length);
      var found := FindNearest(mapped, target.Length, used);
      if found.None? {
        continue;
      }
      var t := found.value;
      NearestInRange(mapped, target.Length, used);
      if !target[t].Obj? || HasPoint(target[t]) {
        continue;
      }
      ghost var before := target[..];
      target[t] := WithControl(target[t], Field(source[i], "cache_control").value);
      assert target[..] == before[t := WithControl(before[t], Field(source[i], "cache_control").value)];
      used := used + {t};
    }
  }

  lemma {:induction false} NearestInRange(mapped: nat, n: nat, used: set<nat>)
    ensures var r := Nearest(mapped, n, used);
            if r.None? then forall j :: 0 <= j < n ==> j in used
            else r.value < n && r.value !in used && forall j :: 0 <= j < n && j !in used ==> Nearer(mapped, r.value, j)
  {
    if n > 0 { NearestInRange(mapped, n - 1, used); }
  }

  // ----- the replacement -----

  /** The replacement blocks, the last one inheriting the static segment's breakpoint when they
      have none of their own. */
  function Inherit(blocks: seq<Value>, statics: seq<Value>): seq<Value> {
    if CountPoints(blocks) == 0 && LastCacheControl(statics).Some? && blocks != [] then
      blocks[|blocks| - 1 := WithControl(blocks[|blocks| - 1], LastCacheControl(statics).value)]
    else blocks
  }

  /** First block of the static segment: the billing block, sound or malformed, stays in front. */
  function Start(s: Segments): nat {
    if s.billing.Some? || s.malformed then 1 else 0
  }

  function DynamicStart(s: Segments, n: nat): nat
    requires s.boundary.Resolved?
  {
    Max(Min(s.boundary.dynamicStart, n), Start(s))
  }

  /** The client's blocks with the static segment swapped. */
  function Splice(blocks: seq<Value>, start: nat, dynamicStart: nat, inserted: seq<Value>, budget: nat): seq<Value>
    requires start <= dynamicStart <= |blocks|
  {
    var repl := Inherit(inserted, blocks[start..dynamicStart]);
    var next := blocks[..start] + repl + blocks[dynamicStart..];
    Enforce(next, budget, start, start + |repl|)
  }

  lemma ParseRanges(system: Value)
    requires system.Arr? && Parse(system).boundary.Resolved?
    ensures var s := Parse(system);
            Start(s) <= DynamicStart(s, |system.items|) == s.boundary.dynamicStart <= |system.items|
  {
  }

  function ReplaceWhole(system: Value, replacement: Value): Value {
    var budget := |Parse(system).points|;
    var plain := if system.Arr? && replacement.Str? then Arr([TextBlock(replacement.s)]) else replacement;
    var next := Transfer(system, plain);
    if next.Arr? then Arr(Enforce(next.items, budget, 0, |next.items|)) else next
  }

  function ReplaceStatic(system: Value, replacement: Value): (Value, Rewrite) {
    var s := Parse(system);
    if system.Arr? && s.boundary.Resolved? then
      ParseRanges(system);
      (Arr(Splice(system.items, Start(s), DynamicStart(s, |system.items|), AsBlocks(replacement), |s.points|)), StaticSegment)
    else (ReplaceWhole(system, replacement), Whole)
  }

  /** Drop the client's system but keep its billing block, without a breakpoint. */
  function StripClient(system: Value): Option<Value> {
    var s := Parse(system);
    if system.Arr? && (s.billing.Some? || s.malformed) && system.items != [] then Some(Arr([Strip(system.items[0])])) else None
  }

  method ToArray(blocks: seq<Value>) returns (a: array<Value>)
    ensures fresh(a) && a[..] == blocks
  {
    a := new Value[|blocks|](i requires 0 <= i < |blocks| => blocks[i]);
  }

  method SpliceStatic(blocks: seq<Value>, start: nat, dynamicStart: nat, replacement: Value, budget: nat) returns (next: seq<Value>)
    requires start <= dynamicStart <= |blocks|
    ensures next == Splice(blocks, start, dynamicStart, AsBlocks(replacement), budget)
  {
    var inserted := AsBlocks(replacement);
    if CountPoints(inserted) == 0 {
      var inherited := LastCacheControl(blocks[start..dynamicStart]);
      if inherited.Some? && inserted != [] {
        inserted := inserted[|inserted| - 1 := WithControl(inserted[|inserted| - 1], inherited.value)];
      }
    }
    var a := ToArray(blocks[..start] + inserted + blocks[dynamicStart..]);
    EnforceBreakpointBudget(a, budget, start, start + |inserted|);
    next := a[..];
  }

  method ReplaceSystemStatic(system: Value, replacement: Value) returns (next: Value, rewrite: Rewrite)
    ensures (next, rewrite) == ReplaceStatic(system, replacement)
  {
    var s := Parse(system);
    if system.Arr? && s.boundary.Resolved? {
      ParseRanges(system);
      var blocks := SpliceStatic(system.items, Start(s), DynamicStart(s, |system.items|), replacement, |s.points|);
      return Arr(blocks), StaticSegment;
    }
    next := if system.Arr? && replacement.Str? then Arr([TextBlock(replacement.s)]) else replacement;
    if next.Arr? {
      var a := ToArray(next.items);
      if system.Arr? {
        TransferCacheControls(system.items, a);
      }
      EnforceBreakpointBudget(a, |s.points|, 0, a.Length);
      next := Arr(a[..]);
    }
    rewrite := Whole;
  }
}
