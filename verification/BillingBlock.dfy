/** The billing attribution block: printing it, reading its version, keeping it at the head.

    The block is a text of fields behind a fixed header.  Its version names the client and carries
    the fingerprint of the request as the last component, a hash that this model takes as a
    parameter. */
module BillingBlock {
  import opened Wrappers
  import opened Text
  import opened Json
  import opened SystemSegments

  const VERSION_KEY := "cc_version="

  datatype CchPolicy = Omit | Zero00

  datatype Action = Preserved | Rewritten | Inserted | InvalidSystem | EmptyVersion

  // ----- printing -----

  /** Each field is written with a leading space and a closing semicolon. */
  function PrintField(key: string, value: string): string {
    " " + (key + ['='] + value)
  }

  function Terminated(fields: seq<string>): string {
    if fields == [] then "" else fields[0] + [';'] + Terminated(fields[1..])
  }

  function RenderedFields(version: string, fp: string, policy: CchPolicy): seq<string> {
    [PrintField("cc_version", version + ['.'] + fp)]
    + ([PrintField("cc_entrypoint", "cli")] + if policy.Zero00? then [PrintField("cch", "00000")] else [])
  }

  function Rendered(version: string, fp: string, policy: CchPolicy): string {
    BILLING_HEADER + Terminated(RenderedFields(version, fp, policy))
  }

  // ----- reading the version -----

  predicate LooksLikeHeader(text: string) {
    BILLING_HEADER <= TrimStart(text)
  }

  /** The value of the first field that starts with the key, without its last component. */
  function FirstValue(fields: seq<string>, key: string): Option<string> {
    if fields == [] then None
    else if key <= Trim(fields[0]) then
      match SplitLastDot(Trim(fields[0])[|key|..])
      case None => None
      case Some((version, _)) => Some(version)
    else FirstValue(fields[1..], key)
  }

  function Payload(text: string): string
    requires LooksLikeHeader(text)
  {
    TrimStart(text)[|BILLING_HEADER|..]
  }

  function BillingVersion(text: string): Option<string> {
    if !LooksLikeHeader(text) then None else FirstValue(Split(Payload(text), ';'), VERSION_KEY)
  }

  function Splice(s: string, start: nat, end: nat, value: string): string
    requires start <= end <= |s|
  {
    s[..start] + value + s[end..]
  }

  /** The next semicolon from `start` on, or the end. */
  function ValueEnd(s: string, start: nat): (end: nat)
    requires start <= |s|
    ensures start <= end <= |s|
  {
    start + IndexOf(s[start..], ';')
  }

  /** Replace what follows the first occurrence of the key, up to the next semicolon. */
  function ReplaceValue(text: string, key: string, value: string): string {
    if !Occurs(text, key) then text else
      var start := FirstOccurrence(text, key) + |key|;
      Splice(text, start, ValueEnd(text, start), value)
  }

  function RewriteVersion(text: string, target: string, fp: string): string {
    ReplaceValue(text, VERSION_KEY, target + ['.'] + fp)
  }

  // ----- ensuring the block -----

  /** The text a header at the head of the system value replaces. */
  function Replacement(text: string, target: string, fp: string, policy: CchPolicy): string {
    if BillingVersion(text).Some? then RewriteVersion(text, target, fp) else Rendered(target, fp, policy)
  }

  function EnsureString(text: string, target: string, fp: string, policy: CchPolicy): (Value, Action) {
    if !LooksLikeHeader(text) then (Arr([TextBlock(Rendered(target, fp, policy)), TextBlock(text)]), Inserted)
    else if BillingVersion(text) == Some(target) then (Str(text), Preserved)
    else (Str(Replacement(text, target, fp, policy)), Rewritten)
  }

  function EnsureFirst(members: seq<Member>, text: string, target: string, fp: string, policy: CchPolicy): (Value, Action) {
    if BillingVersion(text) != Some(target) then
      (Obj(Remove(Insert(members, "text", Str(Replacement(text, target, fp, policy))), "cache_control")), Rewritten)
    else if HasPoint(Obj(members)) then (Obj(Remove(members, "cache_control")), Rewritten)
    else (Obj(members), Preserved)
  }

  /** The text at the head of the system value. */
  function HeadText(system: Value): Option<string> {
    match system
    case Str(s) => Some(s)
    case Arr(items) =>
      if items == [] then None else
        (match Field(items[0], "text") case Some(Str(s)) => Some(s) case _ => None)
    case _ => None
  }

  predicate HasHeader(system: Value) {
    HeadText(system).Some? && LooksLikeHeader(HeadText(system).value)
  }

  function Ensure(system: Value, target: string, fp: string, policy: CchPolicy): (Value, Action) {
    if Trim(target) == "" then (system, EmptyVersion) else
      match system
      case Null => (Arr([TextBlock(Rendered(target, fp, policy))]), Inserted)
      case Str(text) => EnsureString(text, target, fp, policy)
      case Arr(items) =>
        if HasHeader(system) then
          var (first, action) := EnsureFirst(items[0].members, HeadText(system).value, target, fp, policy);
          (Arr([first] + items[1..]), action)
        else (Arr([TextBlock(Rendered(target, fp, policy))] + items), Inserted)
      case _ => (system, InvalidSystem)
  }

  class SystemPrompt {
    var system: Value

    constructor (system: Value)
      ensures this.system == system
    {
      this.system := system;
    }

    /** Put the block for `target` at the head, in place. */
    method EnsureBillingBlock(target: string, fp: string, policy: CchPolicy) returns (action: Action)
      modifies this
      ensures (system, action) == Ensure(old(system), target, fp, policy)
    {
      if Trim(target) == "" {
        return EmptyVersion;
      }
      var rendered := Rendered(target, fp, policy);
      if system.Null? {
        system := Arr([TextBlock(rendered)]);
        return Inserted;
      }
      if system.Str? {
        var text := system.s;
        if LooksLikeHeader(text) {
          if BillingVersion(text) == Some(target) {
            return Preserved;
          }
          system := Str(if BillingVersion(text).Some? then RewriteVersion(text, target, fp) else rendered);
          return Rewritten;
        }
        system := Arr([TextBlock(rendered), TextBlock(text)]);
        return Inserted;
      }
      if !system.Arr? {
        return InvalidSystem;
      }
      var values := system.items;
      if values != [] && HeadText(system).Some? && LooksLikeHeader(HeadText(system).value) {
        var text, first := HeadText(system).value, values[0];
        if BillingVersion(text) == Some(target) {
          if HasPoint(first) {
            system := Arr([Obj(Remove(first.members, "cache_control"))] + values[1..]);
            return Rewritten;
          }
          assert [first] + values[1..] == values;
          return Preserved;
        }
        var replacement := if BillingVersion(text).Some? then RewriteVersion(text, target, fp) else rendered;
        var members := Insert(first.members, "text", Str(replacement));
        system := Arr([Obj(Remove(members, "cache_control"))] + values[1..]);
        return Rewritten;
      }
      system := Arr([TextBlock(rendered)] + values);
      action := Inserted;
    }
  }

  // ----- trimming -----

  lemma {:induction false} TrimStartDrops(b: string, rest: string)
    requires Blank(b) && rest != "" && !IsWhitespace(rest[0])
    ensures TrimStart(b + rest) == rest
  {
    if b == "" {
      assert b + rest == rest;
    } else {
      assert (b + rest)[1..] == b[1..] + rest;
      TrimStartDrops(b[1..], rest);
    }
  }

  lemma {:induction false} TrimStartIs(s: string)
    ensures |TrimStart(s)| <= |s|
    ensures var k := |s| - |TrimStart(s)|; s[k..] == TrimStart(s) && Blank(s[..k])
  {
    if s != "" && IsWhitespace(s[0]) { TrimStartIs(s[1..]); }
  }

  lemma {:induction false} TrimEndKeeps(s: string, key: string)
    requires key != "" && !IsWhitespace(key[|key| - 1])
    ensures key <= TrimEnd(s) <==> key <= s
  {
    if s != "" && IsWhitespace(s[|s| - 1]) {
      TrimEndKeeps(s[..|s| - 1], key);
      assert key <= s ==> |key| < |s|;
    }
  }

  /** A field that starts and ends with ink loses only the blanks before it. */
  lemma TrimField(b: string, core: string)
    requires Blank(b) && core != "" && !IsWhitespace(core[0]) && !IsWhitespace(core[|core| - 1])
    ensures Trim(b + core) == core
  {
    TrimStartDrops(b, core);
  }

  /** A trimmed field starts with the key exactly when the key follows leading blanks. */
  lemma TrimmedPrefix(s: string, key: string) returns (k: nat)
    requires key != "" && !IsWhitespace(key[|key| - 1])
    ensures k <= |s| && Blank(s[..k]) && s[k..] == TrimStart(s)
    ensures key <= Trim(s) <==> key <= s[k..]
  {
    TrimStartIs(s);
    k := |s| - |TrimStart(s)|;
    TrimEndKeeps(TrimStart(s), key);
  }
}
