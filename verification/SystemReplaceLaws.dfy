/** What stands where after a system replacement: block by block and key by key. */
module SystemReplaceLaws {
  import opened Wrappers
  import opened Text
  import opened Json
  import opened SystemSegments
  import opened SystemRewrite
  import opened SystemRewriteLaws

  // ----- single blocks -----

  /** A text block has a type and the text, and nothing else. */
  lemma TextBlockHas(text: string, key: string)
    ensures Field(TextBlock(text), key) == if key == "type" then Some(Str("text")) else if key == "text" then Some(Str(text)) else None
  {
    FindIs(TextBlock(text).members, key, if key == "type" then 0 else if key == "text" then 1 else 2);
  }

  function Control(block: Value): Option<Value> {
    Field(block, "cache_control")
  }

  /** The two blocks differ in their cache control at most. */
  ghost predicate AlikeButControl(a: Value, b: Value) {
    && a.Obj? == b.Obj?
    && (!a.Obj? ==> a == b)
    && forall key :: key != "cache_control" ==> Field(a, key) == Field(b, key)
  }

  lemma StripIsAlike(block: Value)
    requires block.Obj? ==> DistinctKeys(block.members)
    ensures AlikeButControl(Strip(block), block) && Control(Strip(block)).None?
  {
    StripPoint(block);
    if block.Obj? { GetRemove(block.members, "cache_control", "cache_control"); }
  }

  lemma GivenIsAlike(block: Value, control: Value)
    requires block.Obj? && DistinctKeys(block.members)
    ensures AlikeButControl(WithControl(block, control), block) && Control(WithControl(block, control)) == Some(control)
  {
    ControlPoint(block, control);
  }

  // ----- replacing the whole value -----

  /** The control of target `t` once the breakpoints are sent: that of the source sent there, or its
      own. */
  ghost predicate GetsControl(sent: seq<Option<nat>>, source: seq<Value>, before: Value, t: nat, control: Option<Value>)
    requires |sent| == |source|
  {
    || (exists j :: 0 <= j < |sent| && sent[j] == Some(t) && control == Control(source[j]))
    || ((forall j :: 0 <= j < |sent| ==> sent[j] != Some(t)) && control == Control(before))
  }

  predicate IsPoint(control: Option<Value>) {
    control.Some? && !control.value.Null?
  }

  /** `after` are the replacement's blocks in everything but their controls.  These are the ones they
      got, from pairwise different sources, each sent to the nearest block that was free, without the
      breakpoints of the first `cut` blocks. */
  ghost predicate Replaced(blocks: seq<Value>, source: seq<Value>, after: seq<Value>, sent: seq<Option<nat>>, cut: nat) {
    && |after| == |blocks| && |sent| == |source| && Apart(sent)
    && (blocks != [] ==> forall j :: 0 <= j < |sent| ==> Chosen(sent, j, source, blocks))
    && (forall t :: 0 <= t < |blocks| ==> AlikeButControl(after[t], blocks[t]))
    && (forall t: nat, control :: t < |blocks| && GetsControl(sent, source, blocks[t], t, control) ==>
          Control(after[t]) == if t < cut && IsPoint(control) then None else control)
  }

  lemma {:induction false} NotSent(sent: seq<Option<nat>>, t: nat)
    requires t !in Used(sent)
    ensures forall j :: 0 <= j < |sent| ==> sent[j] != Some(t)
  {
    UsedIs(sent);
  }

  lemma SentMiddle(source: seq<Value>, blocks: seq<Value>, middle: seq<Value>, sent: seq<Option<nat>>, t: nat)
    requires |sent| == |source| && t < |blocks| && BlocksOk(blocks) && Transferred(sent, source, blocks, middle)
    ensures AlikeButControl(middle[t], blocks[t]) && (middle[t].Obj? ==> DistinctKeys(middle[t].members))
    ensures forall control :: GetsControl(sent, source, blocks[t], t, control) ==> Control(middle[t]) == control
  {
    assert Got(sent, t, source, blocks[t], middle[t]);
    UsedIs(sent);
    if t in Used(sent) {
      var j :| 0 <= j < |sent| && sent[j] == Some(t) && HasPoint(source[j]) && middle[t] == Given(source[j], blocks[t]);
      GivenIsAlike(blocks[t], Control(source[j]).value);
      ControlPoint(blocks[t], Control(source[j]).value);
      forall control | GetsControl(sent, source, blocks[t], t, control) ensures Control(middle[t]) == control {
        var i :| 0 <= i < |sent| && sent[i] == Some(t) && control == Control(source[i]);
        assert i == j;
      }
    } else {
      NotSent(sent, t);
    }
  }

  lemma StrippedBlock(before: Value, after: Value, stripped: bool)
    requires before.Obj? ==> DistinctKeys(before.members)
    requires after == if stripped && HasPoint(before) then Strip(before) else before
    ensures AlikeButControl(after, before)
    ensures Control(after) == if stripped && IsPoint(Control(before)) then None else Control(before)
  {
    StripIsAlike(before);
  }

  /** Sending the breakpoints and then enforcing the budget. */
  lemma {:induction false} SentAndEnforced(source: seq<Value>, blocks: seq<Value>, budget: nat)
      returns (sent: seq<Option<nat>>, cut: nat)
    requires BlocksOk(blocks) && blocks != []
    ensures var after := Enforce(TransferFrom(source, 0, blocks, {}), budget, 0, |TransferFrom(source, 0, blocks, {})|);
            && Replaced(blocks, source, after, sent, cut)
            && CountPoints(after) <= budget && (cut == 0 || CountPoints(after) == budget)
  {
    var middle := TransferFrom(source, 0, blocks, {});
    TransferOk(source, 0, blocks, {});
    sent := TransferGives(source, blocks);
    cut := EnforcedCut(middle, budget);
    var after := Enforce(middle, budget, 0, |middle|);
    EnforceKeepsBudget(middle, budget, 0, |middle|);
    forall t: nat | t < |blocks|
      ensures AlikeButControl(after[t], blocks[t])
      ensures forall control :: GetsControl(sent, source, blocks[t], t, control) ==>
                Control(after[t]) == if t < cut && IsPoint(control) then None else control
    {
      SentMiddle(source, blocks, middle, sent, t);
      StrippedBlock(middle[t], after[t], t < cut);
    }
  }

  /** Enforcing a budget strips leading breakpoints, and none unless the budget is then used up. */
  lemma EnforcedCut(blocks: seq<Value>, budget: nat) returns (cut: nat)
    requires BlocksOk(blocks)
    ensures StrippedUpTo(blocks, Enforce(blocks, budget, 0, |blocks|), 0, cut)
    ensures cut == 0 || CountPoints(Enforce(blocks, budget, 0, |blocks|)) == budget
  {
    EnforceKeepsBudget(blocks, budget, 0, |blocks|);
    assert blocks[0..|blocks|] == blocks;
    if Excess(blocks, budget) == 0 {
      cut := 0;
    } else {
      cut := EnforceStripsInserted(blocks, budget, 0, |blocks|);
    }
  }

  lemma {:induction false} EnforcedOnly(blocks: seq<Value>, budget: nat) returns (cut: nat)
    requires BlocksOk(blocks)
    ensures var after := Enforce(blocks, budget, 0, |blocks|);
            && Replaced(blocks, [], after, [], cut)
            && CountPoints(after) <= budget && (cut == 0 || CountPoints(after) == budget)
  {
    cut := EnforcedCut(blocks, budget);
    EnforceKeepsBudget(blocks, budget, 0, |blocks|);
    var after := Enforce(blocks, budget, 0, |blocks|);
    forall t: nat | t < |blocks|
      ensures AlikeButControl(after[t], blocks[t])
      ensures forall control :: GetsControl([], [], blocks[t], t, control) ==>
                Control(after[t]) == if t < cut && IsPoint(control) then None else control
    {
      StrippedBlock(blocks[t], after[t], t < cut);
    }
  }

  lemma PointBudget(system: Value)
    ensures |Parse(system).points| == CountPoints(Blocks(system))
  {
    CountIsPoints(Blocks(system), 0);
    assert Blocks(system)[0..] == Blocks(system);
  }

  /** The blocks that can give their breakpoints away. */
  function Sources(system: Value): seq<Value> {
    if system.Arr? then system.items else []
  }

  /** The list of blocks a replacement becomes: its own list, or one text block where the client sent
      a list. */
  function ListOf(system: Value, replacement: Value): Option<seq<Value>> {
    match replacement
    case Arr(items) => Some(items)
    case Str(text) => if system.Arr? then Some([TextBlock(text)]) else None
    case _ => None
  }

  /** Without a boundary the replacement takes the place of the whole value.  A list, or the text block
      that a text becomes next to a client's list, keeps its length and its blocks but for their
      controls; anything else stands as it is.  No more breakpoints are spent than the client sent,
      and none is taken away unless they are all spent. */
  lemma {:induction false} WholeReplacement(system: Value, replacement: Value) returns (sent: seq<Option<nat>>, cut: nat)
    requires WellFormed(system) && WellFormed(replacement) && !(system.Arr? && Parse(system).boundary.Resolved?)
    ensures ReplaceStatic(system, replacement).1 == Whole
    ensures ListOf(system, replacement).None? ==> ReplaceStatic(system, replacement).0 == replacement
    ensures var (next, blocks) := (ReplaceStatic(system, replacement).0, ListOf(system, replacement));
            blocks.Some? ==>
              && next.Arr? && Replaced(blocks.value, if blocks.value == [] then [] else Sources(system), next.items, sent, cut)
              && CountPoints(next.items) <= CountPoints(Blocks(system))
              && (cut == 0 || CountPoints(next.items) == CountPoints(Blocks(system)))
  {
    sent, cut := [], 0;
    PointBudget(system);
    var blocks := ListOf(system, replacement);
    if blocks.Some? {
      AsBlocksOk(replacement);
      if system.Arr? && blocks.value != [] {
        sent, cut := SentAndEnforced(system.items, blocks.value, CountPoints(Blocks(system)));
      } else {
        cut := EnforcedOnly(blocks.value, CountPoints(Blocks(system)));
      }
    }
  }

  // ----- replacing the static segment -----

  /** The first block's text is a billing header, readable or not. */
  predicate BillingHead(system: Value) {
    Blocks(system) != [] && BlockText(Blocks(system)[0]).Some? && BILLING_HEADER <= TrimStart(BlockText(Blocks(system)[0]).value)
  }

  /** The static segment starts behind a billing header. */
  lemma StartIs(system: Value)
    ensures Start(Parse(system)) == if BillingHead(system) then 1 else 0
  {
  }

  /** Block `k` is the last of them that carries a breakpoint. */
  ghost predicate LastPoint(blocks: seq<Value>, k: nat) {
    k < |blocks| && HasPoint(blocks[k]) && forall j :: k < j < |blocks| ==> !HasPoint(blocks[j])
  }

  lemma {:induction false} LastControlIs(blocks: seq<Value>, k: nat)
    requires LastPoint(blocks, k)
    ensures LastCacheControl(blocks) == Control(blocks[k])
  {
    var n := |blocks| - 1;
    if k < n {
      assert LastPoint(blocks[..n], k);
      LastControlIs(blocks[..n], k);
    }
  }

  lemma {:induction false} NoControl(blocks: seq<Value>)
    requires forall b :: b in blocks ==> !HasPoint(b)
    ensures LastCacheControl(blocks) == None
  {
    if blocks != [] { NoControl(blocks[..|blocks| - 1]); }
  }

  lemma {:induction false} NoPoints(blocks: seq<Value>)
    ensures CountPoints(blocks) == 0 <==> forall b :: b in blocks ==> !HasPoint(b)
  {
    if blocks != [] {
      NoPoints(blocks[1..]);
      assert blocks == [blocks[0]] + blocks[1..];
    }
  }

  /** The inserted blocks stand as given, except that the last one, if it is an object and none of them
      has a breakpoint, gets that of the last block replaced which has one. */
  lemma {:induction false} InheritIs(inserted: seq<Value>, statics: seq<Value>, k: nat)
    requires BlocksOk(inserted) && inserted != []
    ensures |Inherit(inserted, statics)| == |inserted|
    ensures forall i :: 0 <= i < |inserted| - 1 ==> Inherit(inserted, statics)[i] == inserted[i]
    ensures AlikeButControl(Inherit(inserted, statics)[|inserted| - 1], inserted[|inserted| - 1])
    ensures (forall b :: b in inserted ==> !HasPoint(b)) && inserted[|inserted| - 1].Obj? && LastPoint(statics, k) ==>
              Control(Inherit(inserted, statics)[|inserted| - 1]) == Control(statics[k])
    ensures (exists b :: b in inserted && HasPoint(b)) || (forall b :: b in statics ==> !HasPoint(b)) ==>
              Inherit(inserted, statics) == inserted
  {
    NoPoints(inserted);
    if LastPoint(statics, k) { LastControlIs(statics, k); }
    if forall b :: b in statics ==> !HasPoint(b) { NoControl(statics); }
    var last := inserted[|inserted| - 1];
    if CountPoints(inserted) == 0 && LastCacheControl(statics).Some? && last.Obj? {
      GivenIsAlike(last, LastCacheControl(statics).value);
    }
  }

  /** What is inserted for a replacement: the blocks of a list, one text block for a text, and nothing
      for anything else. */
  lemma AsBlocksIs(replacement: Value)
    ensures replacement.Arr? ==> AsBlocks(replacement) == replacement.items
    ensures replacement.Str? ==> AsBlocks(replacement) == [TextBlock(replacement.s)]
    ensures !replacement.Arr? && !replacement.Str? ==> AsBlocks(replacement) == []
  {
  }

  /** Only a list with a billing header in front survives stripping the client, as that block alone. */
  lemma {:induction false} StripClientIff(system: Value)
    requires WellFormed(system)
    ensures StripClient(system).Some? <==> system.Arr? && BillingHead(system)
    ensures StripClient(system).Some? ==>
              var kept := StripClient(system).value;
              && kept.Arr? && |kept.items| == 1
              && AlikeButControl(kept.items[0], system.items[0]) && Control(kept.items[0]).None?
  {
    if StripClient(system).Some? {
      assert WellFormed(system.items[0]);
      StripIsAlike(system.items[0]);
    }
  }

  // ----- headings -----

  /** How a dynamic section may begin, in any case. */
  const DYNAMIC_HEADINGS: seq<string> :=
    ["communicating", "pronouns", "session_guidance", "# environment", "session guidance"]

  predicate EqualButCase(a: char, b: char) {
    a == b || ('A' <= a <= 'Z' && a as int + ('a' as int - 'A' as int) == b as int)
  }

  /** The text begins with the heading, capitals counting as small letters. */
  predicate Begins(text: string, heading: string) {
    |heading| <= |text| && forall i :: 0 <= i < |heading| ==> EqualButCase(text[i], heading[i])
  }

  predicate NoCapitals(s: string) {
    forall i :: 0 <= i < |s| ==> !('A' <= s[i] <= 'Z')
  }

  lemma {:induction false} BeginsIs(text: string, heading: string)
    requires NoCapitals(heading)
    ensures heading <= LowerAscii(text) <==> Begins(text, heading)
  {
    LowerIs(text);
    var lower := LowerAscii(text);
    if heading <= lower { assert forall i :: 0 <= i < |heading| ==> heading[i] == lower[i]; }
    if Begins(text, heading) {
      forall i | 0 <= i < |heading| ensures lower[i] == heading[i] { assert EqualButCase(text[i], heading[i]); }
      assert heading == lower[..|heading|];
    }
  }

  lemma HeadingsAreSmall()
    ensures forall k :: 0 <= k < |DYNAMIC_HEADINGS| ==> NoCapitals(DYNAMIC_HEADINGS[k])
  {
  }

  /** A block begins a dynamic section exactly if its text, behind leading blanks, begins with one of the
      headings. */
  lemma DynamicIff(block: Value) returns (blanks: string, rest: string)
    ensures BlockText(block).Some? ==>
              BlockText(block).value == blanks + rest && Blank(blanks) && (rest != "" ==> !IsWhitespace(rest[0]))
    ensures IsDynamic(block) <==>
              BlockText(block).Some? && exists k :: 0 <= k < |DYNAMIC_HEADINGS| && Begins(rest, DYNAMIC_HEADINGS[k])
  {
    blanks, rest := "", "";
    if BlockText(block).Some? {
      rest := TrimStart(BlockText(block).value);
      blanks := TrimStartTakes(BlockText(block).value);
      HeadingsAreSmall();
      forall k | 0 <= k < |DYNAMIC_HEADINGS|
        ensures DYNAMIC_HEADINGS[k] <= LowerAscii(rest) <==> Begins(rest, DYNAMIC_HEADINGS[k])
      {
        BeginsIs(rest, DYNAMIC_HEADINGS[k]);
      }
      HeadingsOf(block, LowerAscii(rest));
    }
  }

  lemma HeadingsOf(block: Value, lower: string)
    requires BlockText(block).Some? && lower == LowerAscii(TrimStart(BlockText(block).value))
    ensures IsDynamic(block) <==> exists k :: 0 <= k < |DYNAMIC_HEADINGS| && DYNAMIC_HEADINGS[k] <= lower
  {
    assert DYNAMIC_HEADINGS[0] == "communicating" && DYNAMIC_HEADINGS[1] == "pronouns"
      && DYNAMIC_HEADINGS[2] == "session_guidance" && DYNAMIC_HEADINGS[3] == "# environment"
      && DYNAMIC_HEADINGS[4] == "session guidance" && |DYNAMIC_HEADINGS| == 5;
  }

  predicate StandsAt(text: string, heading: string, k: nat) {
    k + |heading| <= |text| && forall i :: 0 <= i < |heading| ==> text[k + i] == heading[i]
  }

  lemma StandsIs(text: string, heading: string, k: nat)
    ensures StandsAt(text, heading, k) <==> MatchesAt(text, heading, k)
  {
    if k + |heading| <= |text| {
      var part := text[k..k + |heading|];
      assert forall i :: 0 <= i < |heading| ==> part[i] == text[k + i];
      if StandsAt(text, heading, k) { assert part == heading; }
    }
  }

  /** A block is static exactly if the static heading stands somewhere in its text. */
  lemma StaticIff(block: Value)
    ensures IsStatic(block) <==>
              BlockText(block).Some? && exists k: nat :: StandsAt(BlockText(block).value, "# Tone and style", k)
  {
    if BlockText(block).Some? { OccursIff(BlockText(block).value, STATIC_MARK); }
  }

  lemma OccursIff(text: string, heading: string)
    ensures Occurs(text, heading) <==> exists k: nat :: StandsAt(text, heading, k)
  {
    forall k: nat ensures StandsAt(text, heading, k) <==> MatchesAt(text, heading, k) { StandsIs(text, heading, k); }
    var first := SearchFrom(text, heading, 0);
    if first <= |text| { assert StandsAt(text, heading, first); }
    if k: nat :| StandsAt(text, heading, k) { assert MatchesAt(text, heading, k); }
  }

  // ----- the boundary -----

  /** The one breakpoint strictly between two blocks. */
  ghost predicate OnlyPointBetween(blocks: seq<Value>, low: nat, high: nat, p: nat) {
    && low < p < high <= |blocks| && HasPoint(blocks[p])
    && forall q :: low < q < high && HasPoint(blocks[q]) ==> q == p
  }

  lemma InEither(a: seq<nat>, b: seq<nat>, p: nat)
    ensures p in a + b <==> p in a || p in b
  {
  }

  lemma {:induction false} PointsHave(blocks: seq<Value>, i: nat, p: nat)
    requires i <= |blocks|
    ensures p in PointsFrom(blocks, i) <==> i <= p < |blocks| && HasPoint(blocks[p])
    decreases |blocks| - i
  {
    if i < |blocks| {
      PointsHave(blocks, i + 1, p);
      InEither(if HasPoint(blocks[i]) then [i] else [], PointsFrom(blocks, i + 1), p);
    }
  }

  lemma {:induction false} BetweenHas(points: seq<nat>, low: nat, high: nat, p: nat)
    ensures p in Between(points, low, high) <==> p in points && low < p < high
  {
    if points != [] {
      BetweenHas(points[1..], low, high, p);
      assert points == [points[0]] + points[1..];
    }
  }

  ghost predicate Rising(points: seq<nat>) {
    forall a, b :: 0 <= a < b < |points| ==> points[a] < points[b]
  }

  lemma {:induction false} PointsRise(blocks: seq<Value>, i: nat)
    requires i <= |blocks|
    ensures Rising(PointsFrom(blocks, i))
    decreases |blocks| - i
  {
    if i < |blocks| {
      PointsRise(blocks, i + 1);
      var rest := PointsFrom(blocks, i + 1);
      forall a | 0 <= a < |rest| ensures rest[a] > i {
        PointsHave(blocks, i + 1, rest[a]);
      }
    }
  }

  lemma {:induction false} BetweenRises(points: seq<nat>, low: nat, high: nat)
    requires Rising(points)
    ensures Rising(Between(points, low, high))
  {
    if points != [] {
      BetweenRises(points[1..], low, high);
      var rest := Between(points[1..], low, high);
      forall a | 0 <= a < |rest| ensures rest[a] > points[0] {
        BetweenHas(points[1..], low, high, rest[a]);
        var k :| 0 <= k < |points[1..]| && points[1..][k] == rest[a];
      }
    }
  }

  /** A rising list in which all elements are the same has at most one. */
  lemma OnlyOne(points: seq<nat>, p: nat)
    requires Rising(points) && p in points && forall q :: q in points ==> q == p
    ensures points == [p]
  {
    SecondIsIn(points);
    assert points[0] in points;
  }

  lemma SecondIsIn(points: seq<nat>)
    ensures |points| > 1 ==> points[1] in points
  {
  }

  /** The breakpoints strictly between two blocks. */
  function PointsBetween(blocks: seq<Value>, low: nat, high: nat): seq<nat> {
    Between(PointsFrom(blocks, 0), low, high)
  }

  lemma {:induction false} PointsBetweenAre(blocks: seq<Value>, low: nat, high: nat)
    requires low < high <= |blocks|
    ensures Rising(PointsBetween(blocks, low, high))
    ensures forall p: nat :: p in PointsBetween(blocks, low, high) <==> low < p < high && HasPoint(blocks[p])
  {
    PointsRise(blocks, 0);
    BetweenRises(PointsFrom(blocks, 0), low, high);
    forall p: nat ensures p in PointsBetween(blocks, low, high) <==> low < p < high && HasPoint(blocks[p]) {
      PointsHave(blocks, 0, p);
      BetweenHas(PointsFrom(blocks, 0), low, high, p);
    }
  }

  lemma {:induction false} OnePointBetween(blocks: seq<Value>, low: nat, high: nat)
    requires low < high <= |blocks|
    ensures forall p: nat :: OnlyPointBetween(blocks, low, high, p) <==> PointsBetween(blocks, low, high) == [p]
  {
    var points := PointsBetween(blocks, low, high);
    PointsBetweenAre(blocks, low, high);
    forall p: nat ensures OnlyPointBetween(blocks, low, high, p) <==> points == [p] {
      if OnlyPointBetween(blocks, low, high, p) { OnlyOne(points, p); }
      if points == [p] { assert p in points && forall q: nat :: q in points ==> q == p; }
    }
  }

  lemma {:induction false} LastStaticIs(blocks: seq<Value>, n: nat, end: nat)
    requires end < n <= |blocks| && IsStatic(blocks[end]) && forall k :: end < k < n ==> !IsStatic(blocks[k])
    ensures LastStatic(blocks, n) == Some(end)
  {
    if n - 1 > end { LastStaticIs(blocks, n - 1, end); }
  }

  lemma {:induction false} FirstDynamicIs(blocks: seq<Value>, n: nat, heading: nat)
    requires n <= heading < |blocks| && IsDynamic(blocks[heading])
    requires forall k :: n <= k < heading ==> !IsDynamic(blocks[k])
    ensures FirstDynamic(blocks, n) == Some(heading)
    decreases heading - n
  {
    if n < heading { FirstDynamicIs(blocks, n + 1, heading); }
  }

  lemma {:induction false} BoundaryBy(blocks: seq<Value>, end: nat, heading: nat)
    requires LastStatic(blocks, |blocks|) == Some(end) && FirstDynamic(blocks, end + 1) == Some(heading)
    ensures FindBoundary(blocks) == BoundaryAt(blocks, end, heading)
  {
  }

  /** Where the dynamic part starts: right behind the one breakpoint between the last static block and
      the first dynamic heading after it, and else at that heading. */
  lemma {:induction false} DynamicStartIs(blocks: seq<Value>, end: nat, heading: nat)
    requires end < heading < |blocks| && IsStatic(blocks[end]) && IsDynamic(blocks[heading])
    requires forall k :: end < k < |blocks| ==> !IsStatic(blocks[k])
    requires forall k :: end < k < heading ==> !IsDynamic(blocks[k])
    ensures FindBoundary(blocks).Resolved? && FindBoundary(blocks).staticEnd == end
    ensures forall p: nat :: OnlyPointBetween(blocks, end, heading, p) ==> FindBoundary(blocks).dynamicStart == p + 1
    ensures (forall p: nat :: !OnlyPointBetween(blocks, end, heading, p)) ==> FindBoundary(blocks).dynamicStart == heading
  {
    LastStaticIs(blocks, |blocks|, end);
    FirstDynamicIs(blocks, end + 1, heading);
    BoundaryBy(blocks, end, heading);
    OnePointBetween(blocks, end, heading);
    var points := PointsBetween(blocks, end, heading);
    if |points| == 1 { assert points == [points[0]]; }
  }
}
