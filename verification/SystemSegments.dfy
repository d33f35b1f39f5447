/** Where a request's system value divides into billing block, static prompt and dynamic sections.

    The value is a plain string or a list of blocks.  A block belongs to the static prompt by its
    headings, and dynamic sections follow the last static block; a list in which none does has no
    boundary that could be resolved. */
module SystemSegments {
  import opened Wrappers
  import opened Text
  import opened Json

  const BILLING_HEADER := "x-anthropic-billing-header:"
  const STATIC_MARK := "# Tone and style"

  datatype Billing = Billing(ccVersion: string, clientVersion: string, fp3: string, entrypoint: string, cch: Option<string>)

  datatype Boundary = Resolved(staticEnd: nat, dynamicStart: nat) | Unresolved

  datatype Segments = Segments(billing: Option<Billing>, malformed: bool, boundary: Boundary, points: seq<nat>)

  // ----- the billing header -----

  /** Split at the first `=`. */
  function SplitOnce(s: string): Option<(string, string)> {
    if '=' in s then Some((s[..IndexOf(s, '=')], s[IndexOf(s, '=') + 1..])) else None
  }

  /** Split at the last dot. */
  function SplitLastDot(s: string): Option<(string, string)> {
    if '.' in s then Some((s[..LastIndexOf(s, '.')], s[LastIndexOf(s, '.') + 1..])) else None
  }

  /** Read `key=value` fields into a map, later ones winning; empty fields are skipped and a field
      without `=` spoils the whole header. */
  function ReadFields(fields: seq<string>, values: map<string, string>): Option<map<string, string>> {
    if fields == [] then Some(values) else
      var field := Trim(fields[0]);
      if field == "" then ReadFields(fields[1..], values) else
        match SplitOnce(field)
        case None => None
        case Some((key, value)) => ReadFields(fields[1..], values[key := value])
  }

  predicate IsNumber(s: string) {
    s != "" && forall i :: 0 <= i < |s| ==> '0' <= s[i] <= '9'
  }

  predicate IsVersion(s: string) {
    var parts := Split(s, '.');
    |parts| == 3 && IsNumber(parts[0]) && IsNumber(parts[1]) && IsNumber(parts[2])
  }

  predicate IsFp3(s: string) {
    |s| == 3 && forall i :: 0 <= i < |s| ==> '0' <= s[i] <= '9' || 'a' <= s[i] <= 'f'
  }

  function ParseBilling(text: string): Option<Billing> {
    var trimmed := TrimStart(text);
    if !(BILLING_HEADER <= trimmed) then None else
      match ReadFields(Split(trimmed[|BILLING_HEADER|..], ';'), map[])
      case None => None
      case Some(values) =>
        if "cc_version" !in values then None else
          match SplitLastDot(values["cc_version"])
          case None => None
          case Some((version, fp3)) =>
            if !IsVersion(version) || !IsFp3(fp3) || "cc_entrypoint" !in values then None else
              Some(Billing(values["cc_version"], version, fp3, values["cc_entrypoint"],
                           if "cch" in values then Some(values["cch"]) else None))
  }

  // ----- blocks -----

  function TextBlock(text: string): Value {
    Obj([Member("type", Str("text")), Member("text", Str(text))])
  }

  /** A member of a block, if the block is an object that has it. */
  function Field(block: Value, key: string): Option<Value> {
    if block.Obj? then Get(block.members, key) else None
  }

  function BlockText(block: Value): Option<string> {
    match block
    case Obj(_) => (match Field(block, "text") case Some(Str(s)) => Some(s) case _ => None)
    case Str(s) => Some(s)
    case _ => None
  }

  /** The block carries a cache breakpoint. */
  predicate HasPoint(block: Value) {
    Field(block, "cache_control").Some? && !Field(block, "cache_control").value.Null?
  }

  function Blocks(system: Value): seq<Value> {
    match system
    case Str(_) => [system]
    case Arr(items) => items
    case _ => []
  }

  /** Indices of the blocks that carry a breakpoint. */
  function PointsFrom(blocks: seq<Value>, i: nat): seq<nat>
    requires i <= |blocks|
    decreases |blocks| - i
  {
    if i == |blocks| then [] else (if HasPoint(blocks[i]) then [i] else []) + PointsFrom(blocks, i + 1)
  }

  predicate IsStatic(block: Value) {
    BlockText(block).Some? && Occurs(BlockText(block).value, STATIC_MARK)
  }

  predicate IsDynamic(block: Value) {
    BlockText(block).Some? &&
    var lower := LowerAscii(TrimStart(BlockText(block).value));
    "communicating" <= lower || "pronouns" <= lower || "session_guidance" <= lower || "# environment" <= lower
    || "session guidance" <= lower
  }

  /** The last static block before index `n`. */
  function LastStatic(blocks: seq<Value>, n: nat): (i: Option<nat>)
    requires n <= |blocks|
    ensures i.Some? ==> i.value < n && IsStatic(blocks[i.value])
    ensures forall j :: 0 <= j < n && IsStatic(blocks[j]) ==> i.Some? && j <= i.value
  {
    if n == 0 then None else if IsStatic(blocks[n - 1]) then Some(n - 1) else LastStatic(blocks, n - 1)
  }

  /** The first dynamic block from index `n` on. */
  function FirstDynamic(blocks: seq<Value>, n: nat): (i: Option<nat>)
    requires n <= |blocks|
    ensures i.Some? ==> n <= i.value < |blocks| && IsDynamic(blocks[i.value])
    ensures forall j :: n <= j < (if i.Some? then i.value else |blocks|) ==> !IsDynamic(blocks[j])
    decreases |blocks| - n
  {
    if n == |blocks| then None else if IsDynamic(blocks[n]) then Some(n) else FirstDynamic(blocks, n + 1)
  }

  function Between(points: seq<nat>, low: nat, high: nat): (r: seq<nat>)
    ensures forall i :: 0 <= i < |r| ==> low < r[i] < high
  {
    if points == [] then []
    else (if low < points[0] < high then [points[0]] else []) + Between(points[1..], low, high)
  }

  function BoundaryAt(blocks: seq<Value>, end: nat, candidate: nat): (b: Boundary)
    requires end < candidate < |blocks|
    ensures b.Resolved? && b.staticEnd == end < b.dynamicStart <= candidate
  {
    var points := Between(PointsFrom(blocks, 0), end, candidate);
    Resolved(end, if |points| == 1 then Min(points[0] + 1, |blocks|) else candidate)
  }

  /** The dynamic part starts at the first dynamic heading after the last static block or, when
      exactly one breakpoint lies in between, right behind that. */
  function FindBoundary(blocks: seq<Value>): (b: Boundary)
    ensures b.Resolved? ==> b.staticEnd < b.dynamicStart <= |blocks|
  {
    match LastStatic(blocks, |blocks|)
    case None => Unresolved
    case Some(end) =>
      match FirstDynamic(blocks, end + 1)
      case None => Unresolved
      case Some(candidate) =>
        BoundaryAt(blocks, end, candidate)
  }

  /** The boundary is found exactly when a dynamic heading follows the last static block; then what
      lies before the dynamic part holds all static blocks and, behind the last of them, no dynamic
      heading. */
  lemma BoundarySeparates(blocks: seq<Value>)
    ensures FindBoundary(blocks).Resolved? <==>
              exists i, j :: 0 <= i < j < |blocks| && IsStatic(blocks[i]) && IsDynamic(blocks[j])
                             && forall k :: i < k < |blocks| ==> !IsStatic(blocks[k])
    ensures FindBoundary(blocks).Resolved? ==>
              var b := FindBoundary(blocks);
              && (forall i :: 0 <= i < |blocks| && IsStatic(blocks[i]) ==> i < b.dynamicStart)
              && (forall j :: b.staticEnd < j < b.dynamicStart ==> !IsDynamic(blocks[j]))
  {
    var last := LastStatic(blocks, |blocks|);
    if FindBoundary(blocks).Resolved? {
      var candidate := FirstDynamic(blocks, last.value + 1).value;
      assert IsStatic(blocks[last.value]) && IsDynamic(blocks[candidate]);
    }
  }

  function Min(a: nat, b: nat): nat { if a < b then a else b }

  function Max(a: nat, b: nat): nat { if a < b then b else a }

  function Parse(system: Value): Segments {
    var blocks := Blocks(system);
    var first := if blocks == [] then None else BlockText(blocks[0]);
    var billing := if first.Some? then ParseBilling(first.value) else None;
    Segments(
      billing,
      first.Some? && BILLING_HEADER <= TrimStart(first.value) && billing.None?,
      FindBoundary(blocks),
      PointsFrom(blocks, 0))
  }
}
