/** The billing block survives its own parser, and ensuring it twice changes nothing more, under
    the exact condition that makes this true of the code. */
module BillingLaws {
  import opened Wrappers
  import opened Text
  import opened Json
  import opened SystemSegments
  import opened BillingBlock
  import opened BillingText

  // ----- printing and parsing back -----

  /** Printing and parsing back: what was printed comes back, all of it, exactly for versions of
      three dotted numbers with a fingerprint of three lower-case hexadecimal digits. */
  lemma RenderParsesBack(version: string, fp: string, policy: CchPolicy)
    ensures ParseBilling(Rendered(version, fp, policy))
            == Some(Billing(version + ['.'] + fp, version, fp, "cli", if policy.Zero00? then Some("00000") else None))
            <==> IsVersion(version) && IsFp3(fp)
  {
    if IsVersion(version) && IsFp3(fp) {
      var cc, text := version + ['.'] + fp, Rendered(version, fp, policy);
      VersionInk(version);
      RenderedHeader(version, fp, policy);
      RenderedFieldsPlain(version, fp, policy);
      SplitTerminated(RenderedFields(version, fp, policy));
      ReadSkipsEnd(RenderedFields(version, fp, policy), map[]);
      ReadRendered(version, fp, policy);
      SplitDotted(version, fp);
      ValuesHold(cc, policy);
      ParsedFrom(text, RenderedValues(cc, policy), version, fp);
    }
  }

  // ----- rewriting the version -----

  /** Rewriting the first value of a payload. */
  lemma {:induction false} RewrittenPayload(payload: string, key: string, target: string, fp: string)
    requires GoodKey(key) && ';' !in target && IsFp3(fp) && Occurs(payload, key)
    ensures ValueIn(ReplaceValue(payload, key, target + ['.'] + fp), key)
            == if KeyOpensField(payload, key) then Some(target) else ValueIn(payload, key)
    decreases |payload|
  {
    var i := IndexOf(payload, ';');
    if i < FirstOccurrence(payload, key) {
      var field, rest := payload[..i], payload[i + 1..];
      assert payload == field + [';'] + rest;
      NoKeyBefore(payload, key, i);
      OccursBehind(field, ';', rest, key);
      RewrittenPayload(rest, key, target, fp);
      ReplaceBehind(field + [';'], rest, key, target + ['.'] + fp);
      RewrittenStep(field, rest, ReplaceValue(rest, key, target + ['.'] + fp), key, target);
    } else {
      RewrittenFirstField(payload, key, target, fp);
    }
  }

  // ----- the whole header -----

  lemma {:induction false} FirstValuePlain(fields: seq<string>, key: string)
    requires FirstValue(fields, key).Some? && forall i :: 0 <= i < |fields| ==> ';' !in fields[i]
    ensures ';' !in FirstValue(fields, key).value
  {
    if key <= Trim(fields[0]) { TrimKeeps(fields[0]); } else { FirstValuePlain(fields[1..], key); }
  }

  lemma TrimKeeps(s: string)
    ensures forall c :: c in Trim(s) ==> c in s
  {
    TrimStartIs(s);
    TrimEndPrefix(TrimStart(s));
  }

  lemma {:induction false} TrimEndPrefix(s: string)
    ensures TrimEnd(s) <= s
  {
    if s != "" && IsWhitespace(s[|s| - 1]) { TrimEndPrefix(s[..|s| - 1]); }
  }

  lemma OccursInSuffix(s: string, t: string, n: nat)
    requires n <= |s| && Occurs(s[n..], t)
    ensures Occurs(s, t)
  {
    MatchBehind(s[..n], s[n..], t, FirstOccurrence(s[n..], t));
    assert s[..n] + s[n..] == s;
  }

  /** Without the key there is nothing to read. */
  lemma {:induction false} NoKeyNoValue(payload: string, key: string)
    requires GoodKey(key) && !Occurs(payload, key)
    ensures ValueIn(payload, key) == None
    decreases |payload|
  {
    var i := IndexOf(payload, ';');
    if i == |payload| {
      FieldPassedOver(payload, key, []);
      assert [payload] + [] == [payload];
    } else {
      var rest := payload[i + 1..];
      if Occurs(payload[..i], key) { OccursInPrefix(payload, key, i); }
      if Occurs(rest, key) { OccursInSuffix(payload, key, i + 1); }
      FieldPassedOver(payload[..i], key, Split(rest, ';'));
      NoKeyNoValue(rest, key);
    }
  }

  lemma OccursHas(s: string, t: string, c: char)
    requires Occurs(s, t) && c in t
    ensures c in s
  {
    var k := FirstOccurrence(s, t);
    assert forall i :: 0 <= i < |t| ==> t[i] == s[k..k + |t|][i] == s[k + i];
  }

  /** A header text taken apart: no version key starts before the payload. */
  lemma HeaderParts(text: string) returns (lead: string)
    requires LooksLikeHeader(text)
    ensures text == lead + Payload(text)
    ensures Occurs(Payload(text), VERSION_KEY) ==>
              Occurs(text, VERSION_KEY)
              && FirstOccurrence(text, VERSION_KEY) == |lead| + FirstOccurrence(Payload(text), VERSION_KEY)
    ensures forall other :: LooksLikeHeader(lead + other) && Payload(lead + other) == other
  {
    TrimStartIs(text);
    var b := text[..|text| - |TrimStart(text)|];
    lead := b + BILLING_HEADER;
    assert text == b + TrimStart(text);
    assert TrimStart(text) == BILLING_HEADER + Payload(text);
    Assoc(b, BILLING_HEADER, Payload(text));
    assert lead == lead[..|lead| - 1] + [':'];
    assert '_' !in BILLING_HEADER && '_' !in b;
    if Occurs(lead[..|lead| - 1], VERSION_KEY) { OccursHas(lead[..|lead| - 1], VERSION_KEY, '_'); }
    OccursBehind(lead[..|lead| - 1], ':', Payload(text), VERSION_KEY);
    forall other ensures LooksLikeHeader(lead + other) && Payload(lead + other) == other {
      Assoc(b, BILLING_HEADER, other);
      TrimStartDrops(b, BILLING_HEADER + other);
    }
  }

  /** Rewriting a header that names a version. */
  lemma RewrittenHeader(text: string, target: string, fp: string)
    requires BillingVersion(text).Some? && IsFp3(fp)
    ensures Occurs(Payload(text), VERSION_KEY)
    ensures LooksLikeHeader(RewriteVersion(text, target, fp))
    ensures ';' !in target ==>
              BillingVersion(RewriteVersion(text, target, fp))
              == if KeyOpensField(Payload(text), VERSION_KEY) then Some(target) else BillingVersion(text)
  {
    var lead := HeaderParts(text);
    var payload := Payload(text);
    if !Occurs(payload, VERSION_KEY) { NoKeyNoValue(payload, VERSION_KEY); }
    ReplaceBehind(lead, payload, VERSION_KEY, target + ['.'] + fp);
    var payload' := ReplaceValue(payload, VERSION_KEY, target + ['.'] + fp);
    assert LooksLikeHeader(lead + payload') && Payload(lead + payload') == payload';
    if ';' !in target { RewrittenPayload(payload, VERSION_KEY, target, fp); }
  }

  lemma VersionPlain(text: string)
    requires BillingVersion(text).Some?
    ensures ';' !in BillingVersion(text).value
  {
    FirstValuePlain(Split(Payload(text), ';'), VERSION_KEY);
  }

  lemma PrintedVersion(value: string)
    ensures PrintField("cc_version", value) == " " + VERSION_KEY + value
  {
    assert VERSION_KEY == "cc_version" + ['='];
    Assoc(" ", VERSION_KEY, value);
  }

  lemma RenderedTarget(target: string, fp: string, policy: CchPolicy)
    requires IsFp3(fp) && ';' !in target
    ensures ValueIn(Terminated(RenderedFields(target, fp, policy)), VERSION_KEY) == Some(target)
  {
    var fields := RenderedFields(target, fp, policy);
    RenderedFieldsPlain(target, fp, policy);
    SplitTerminated(fields);
    var rest := fields[1..] + [""];
    assert fields + [""] == [fields[0]] + rest;
    PrintedVersion(target + ['.'] + fp);
    FieldGivesTarget(" ", VERSION_KEY, target, fp, rest);
  }

  /** A printed header names the version it was printed for, unless that holds a semicolon. */
  lemma RenderedVersion(target: string, fp: string, policy: CchPolicy)
    requires IsFp3(fp)
    ensures LooksLikeHeader(Rendered(target, fp, policy))
    ensures BillingVersion(Rendered(target, fp, policy)) == Some(target) <==> ';' !in target
  {
    RenderedHeader(target, fp, policy);
    if BillingVersion(Rendered(target, fp, policy)).Some? { VersionPlain(Rendered(target, fp, policy)); }
    if ';' !in target { RenderedTarget(target, fp, policy); }
  }

  // ----- ensuring the block -----

  predicate Done(action: Action) {
    action.Preserved? || action.Rewritten? || action.Inserted?
  }

  /** When one call leaves the target version at the head: the header there names it already, or
      the target holds no semicolon and the header, if there is one and it names a version, has its
      first version key open a field. */
  predicate Settles(system: Value, target: string) {
    if !HasHeader(system) then ';' !in target else
      var text := HeadText(system).value;
      || BillingVersion(text) == Some(target)
      || (';' !in target &&
          (BillingVersion(text).None?
           || (Occurs(Payload(text), VERSION_KEY) && KeyOpensField(Payload(text), VERSION_KEY))))
  }

  lemma ReplacementVersion(text: string, target: string, fp: string, policy: CchPolicy)
    requires LooksLikeHeader(text) && BillingVersion(text) != Some(target) && IsFp3(fp)
    ensures var new_ := Replacement(text, target, fp, policy);
            LooksLikeHeader(new_) && (BillingVersion(new_) == Some(target) <==> Settles(Str(text), target))
  {
    var new_ := Replacement(text, target, fp, policy);
    if BillingVersion(text).Some? { RewrittenHeader(text, target, fp); } else { RenderedVersion(target, fp, policy); }
    if BillingVersion(new_).Some? { VersionPlain(new_); }
  }

  lemma EnsuredFirst(members: seq<Member>, text: string, target: string, fp: string, policy: CchPolicy)
    requires DistinctKeys(members) && Get(members, "text") == Some(Str(text))
    requires LooksLikeHeader(text) && IsFp3(fp)
    ensures var (first, action) := EnsureFirst(members, text, target, fp, policy);
            && first.Obj? && !HasPoint(first)
            && Get(first.members, "text") == Some(Str(if action.Preserved? || BillingVersion(text) == Some(target)
                                                      then text else Replacement(text, target, fp, policy)))
            && forall key :: key != "text" && key != "cache_control" ==> Get(first.members, key) == Get(members, key)
  {
    var (first, action) := EnsureFirst(members, text, target, fp, policy);
    var new_ := Str(Replacement(text, target, fp, policy));
    var inserted := Insert(members, "text", new_);
    var mid := if BillingVersion(text) != Some(target) then inserted else members;
    GetInsert(members, "text", new_, "text");
    GetRemove(mid, "cache_control", "text");
    GetRemove(mid, "cache_control", "cache_control");
    forall key | key != "text" && key != "cache_control" ensures Get(first.members, key) == Get(members, key) {
      GetInsert(members, "text", new_, key);
      GetRemove(mid, "cache_control", key);
    }
  }

  lemma TextBlockIs(text: string, rest: seq<Value>)
    ensures HeadText(Arr([TextBlock(text)] + rest)) == Some(text)
    ensures BlockText(TextBlock(text)) == Some(text) && !HasPoint(TextBlock(text))
  {
    FindIs(TextBlock(text).members, "text", 1);
    FindIs(TextBlock(text).members, "cache_control", 2);
  }

  /** One call leaves a header at the head, and it names the target exactly under `Settles`. */
  lemma {:induction false} EnsureInstallsVersion(system: Value, target: string, fp: string, policy: CchPolicy)
    requires WellFormed(system) && IsFp3(fp) && Done(Ensure(system, target, fp, policy).1)
    ensures var after := Ensure(system, target, fp, policy).0;
            && HasHeader(after)
            && (BillingVersion(HeadText(after).value) == Some(target) <==> Settles(system, target))
            && (after.Arr? ==> after.items[0].Obj? && !HasPoint(after.items[0]))
  {
    if Ensure(system, target, fp, policy).1.Inserted? {
      RenderedVersion(target, fp, policy);
      InsertedHead(system, target, fp, policy);
      TextBlockIs(Rendered(target, fp, policy), ClientBlocks(system));
    } else {
      HeaderKept(system, target, fp, policy);
    }
  }

  lemma FirstBlockKept(items: seq<Value>, target: string, fp: string, policy: CchPolicy)
    requires WellFormed(Arr(items)) && IsFp3(fp) && HasHeader(Arr(items)) && Trim(target) != ""
    ensures var (text, after) := (HeadText(Arr(items)).value, Ensure(Arr(items), target, fp, policy).0);
            && after.Arr? && after.items != [] && after.items[0].Obj? && !HasPoint(after.items[0])
            && HeadText(after) == Some(if BillingVersion(text) == Some(target) then text else Replacement(text, target, fp, policy))
  {
    EnsuredFirst(items[0].members, HeadText(Arr(items)).value, target, fp, policy);
  }

  /** A header that is there is kept or replaced. */
  lemma {:induction false} HeaderKept(system: Value, target: string, fp: string, policy: CchPolicy)
    requires WellFormed(system) && IsFp3(fp)
    requires Ensure(system, target, fp, policy).1.Preserved? || Ensure(system, target, fp, policy).1.Rewritten?
    ensures var after := Ensure(system, target, fp, policy).0;
            && HasHeader(system) && HasHeader(after)
            && (BillingVersion(HeadText(after).value) == Some(target) <==> Settles(system, target))
            && (after.Arr? ==> after.items[0].Obj? && !HasPoint(after.items[0]))
  {
    var text := HeadText(system).value;
    if BillingVersion(text) != Some(target) { ReplacementVersion(text, target, fp, policy); }
    if system.Arr? { FirstBlockKept(system.items, target, fp, policy); }
  }

  /** Asking again with the same arguments preserves the result exactly under `Settles`. */
  lemma {:induction false} EnsureTwice(system: Value, target: string, fp: string, policy: CchPolicy)
    requires WellFormed(system) && IsFp3(fp) && Done(Ensure(system, target, fp, policy).1)
    ensures var after := Ensure(system, target, fp, policy).0;
            Ensure(after, target, fp, policy) == (after, Preserved) <==> Settles(system, target)
  {
    EnsureInstallsVersion(system, target, fp, policy);
    var after := Ensure(system, target, fp, policy).0;
    if after.Arr? { assert after.items == [after.items[0]] + after.items[1..]; }
  }

  /** Which action it comes to: a blank target and a system value that is neither missing nor text nor a
      list are refused; a header is inserted where none leads; one that names the target stays as it is,
      unless it carries a breakpoint; and any other is rewritten. */
  lemma ActionIs(system: Value, target: string, fp: string, policy: CchPolicy)
    ensures var (after, action) := Ensure(system, target, fp, policy);
            && (action.EmptyVersion? <==> Trim(target) == "")
            && (action.InvalidSystem? <==> Trim(target) != "" && !system.Null? && !system.Str? && !system.Arr?)
            && (action.Inserted? <==> Trim(target) != "" && (system.Null? || system.Str? || system.Arr?) && !HasHeader(system))
            && (action.Preserved? <==>
                  Trim(target) != "" && HasHeader(system) && BillingVersion(HeadText(system).value) == Some(target)
                  && (system.Arr? ==> !HasPoint(system.items[0])))
            && (action.Inserted? ==>
                  after == Arr([TextBlock(Rendered(target, fp, policy))] + ClientBlocks(system)))
  {
    if system.Arr? && HasHeader(system) {
      assert system.items[0] == Obj(system.items[0].members);
    }
  }

  /** The client's own blocks, a plain string counting as one text block. */
  function ClientBlocks(system: Value): seq<Value> {
    match system
    case Arr(items) => items
    case Str(s) => [TextBlock(s)]
    case _ => []
  }

  /** Nothing else moves: the client's blocks follow unchanged behind an inserted block, and an
      existing header block keeps all fields but its text and its cache marker. */
  lemma {:induction false} EnsureKeepsRest(system: Value, target: string, fp: string, policy: CchPolicy)
    requires WellFormed(system) && IsFp3(fp)
    ensures var (after, action) := Ensure(system, target, fp, policy);
            && (!Done(action) || action.Preserved? ==> after == system)
            && (action.Inserted? ==> after.Arr? && |after.items| > 0 && after.items[1..] == ClientBlocks(system))
            && (action.Rewritten? && system.Arr? ==>
                  && after.Arr? && |after.items| == |system.items| > 0 && after.items[1..] == system.items[1..]
                  && forall key :: key != "text" && key != "cache_control" ==>
                       Field(after.items[0], key) == Field(system.items[0], key))
  {
    if Ensure(system, target, fp, policy).1.Inserted? {
      InsertedHead(system, target, fp, policy);
    } else if system.Arr? && HasHeader(system) && Trim(target) != "" {
      HeaderBlockKept(system.items, target, fp, policy);
    }
  }

  lemma HeaderBlockKept(items: seq<Value>, target: string, fp: string, policy: CchPolicy)
    requires WellFormed(Arr(items)) && HasHeader(Arr(items)) && IsFp3(fp) && Trim(target) != ""
    ensures var (after, action) := Ensure(Arr(items), target, fp, policy);
            && (action.Preserved? ==> after == Arr(items))
            && after.Arr? && |after.items| == |items| && after.items[1..] == items[1..]
            && forall key :: key != "text" && key != "cache_control" ==>
                 Field(after.items[0], key) == Field(items[0], key)
  {
    EnsuredFirst(items[0].members, HeadText(Arr(items)).value, target, fp, policy);
    assert items == [items[0]] + items[1..];
  }

  lemma ParseHead(items: seq<Value>, text: string)
    requires items != [] && BlockText(items[0]) == Some(text) && ParseBilling(text).Some?
    ensures Parse(Arr(items)).billing == ParseBilling(text) && !Parse(Arr(items)).malformed
  {
  }

  /** An inserted block is understood in full by the segment parser. */
  lemma InsertedIsParsed(system: Value, target: string, fp: string, policy: CchPolicy)
    requires IsVersion(target) && IsFp3(fp) && Ensure(system, target, fp, policy).1.Inserted?
    ensures var segments := Parse(Ensure(system, target, fp, policy).0);
            && !segments.malformed
            && segments.billing == Some(Billing(target + ['.'] + fp, target, fp, "cli",
                                                if policy.Zero00? then Some("00000") else None))
  {
    var text := Rendered(target, fp, policy);
    RenderParsesBack(target, fp, policy);
    TextBlockIs(text, []);
    InsertedHead(system, target, fp, policy);
    ParseHead(Ensure(system, target, fp, policy).0.items, text);
  }

  lemma InsertedHead(system: Value, target: string, fp: string, policy: CchPolicy)
    requires Ensure(system, target, fp, policy).1.Inserted?
    ensures var after := Ensure(system, target, fp, policy).0;
            after.Arr? && after.items == [TextBlock(Rendered(target, fp, policy))] + ClientBlocks(system)
  {
  }

  // ----- asking again and again -----

  function Iterate(f: Value -> Value, v: Value, n: nat): Value
    decreases n
  {
    if n == 0 then v else Iterate(f, f(v), n - 1)
  }

  /** What every call keeps holds after any number of calls. */
  lemma {:induction false} IterateKeeps(f: Value -> Value, kept: Value -> bool, v: Value, n: nat)
    requires kept(v) && forall x :: kept(x) ==> kept(f(x))
    ensures kept(Iterate(f, v, n))
    decreases n
  {
    if n > 0 { IterateKeeps(f, kept, f(v), n - 1); }
  }

  function Caller(target: string, fp: string, policy: CchPolicy): Value -> Value {
    v => Ensure(v, target, fp, policy).0
  }

  /** The system value after `n` calls with the same arguments. */
  function AfterCalls(system: Value, target: string, fp: string, policy: CchPolicy, n: nat): Value {
    Iterate(Caller(target, fp, policy), system, n)
  }

  lemma EnsuredFirstWellFormed(members: seq<Member>, text: string, target: string, fp: string, policy: CchPolicy)
    requires WellFormed(Obj(members))
    ensures WellFormed(EnsureFirst(members, text, target, fp, policy).0)
  {
    var new_ := Str(Replacement(text, target, fp, policy));
    InsertWellFormed(members, "text", new_);
    RemoveWellFormed(Insert(members, "text", new_), "cache_control");
    RemoveWellFormed(members, "cache_control");
  }

  lemma {:induction false} EnsuredWellFormed(system: Value, target: string, fp: string, policy: CchPolicy)
    requires WellFormed(system)
    ensures WellFormed(Ensure(system, target, fp, policy).0)
  {
    if system.Arr? && HasHeader(system) {
      EnsuredFirstWellFormed(system.items[0].members, HeadText(system).value, target, fp, policy);
    }
  }

  /** A header that names another version, or none, is replaced. */
  lemma {:induction false} HeaderReplaced(system: Value, target: string, fp: string, policy: CchPolicy)
    requires WellFormed(system) && IsFp3(fp) && Trim(target) != ""
    requires HasHeader(system) && BillingVersion(HeadText(system).value) != Some(target)
    ensures var (after, action) := Ensure(system, target, fp, policy);
            && action == Rewritten && WellFormed(after) && HasHeader(after)
            && HeadText(after) == Some(Replacement(HeadText(system).value, target, fp, policy))
  {
    EnsuredWellFormed(system, target, fp, policy);
    HeaderKept(system, target, fp, policy);
    if system.Arr? { FirstBlockKept(system.items, target, fp, policy); }
  }

  lemma SemicolonIsNoVersion(text: string, target: string)
    requires ';' in target
    ensures BillingVersion(text) != Some(target)
  {
    if BillingVersion(text).Some? { VersionPlain(text); }
  }

  ghost predicate Headed(system: Value) {
    WellFormed(system) && HasHeader(system)
  }

  lemma SemicolonStep(system: Value, target: string, fp: string, policy: CchPolicy)
    requires IsFp3(fp) && Trim(target) != "" && ';' in target && Headed(system)
    ensures var (after, action) := Ensure(system, target, fp, policy);
            action == Rewritten && Headed(after)
  {
    SemicolonIsNoVersion(HeadText(system).value, target);
    HeaderReplaced(system, target, fp, policy);
  }

  lemma SemicolonRepeats(system: Value, target: string, fp: string, policy: CchPolicy, n: nat)
    requires IsFp3(fp) && Trim(target) != "" && ';' in target && Headed(system)
    ensures Ensure(AfterCalls(system, target, fp, policy, n), target, fp, policy).1 == Rewritten
  {
    var f := Caller(target, fp, policy);
    forall x | Headed(x) ensures Headed(f(x)) { SemicolonStep(x, target, fp, policy); }
    IterateKeeps(f, Headed, system, n);
    SemicolonStep(Iterate(f, system, n), target, fp, policy);
  }

  lemma {:induction false} FirstCallLeavesHeader(system: Value, target: string, fp: string, policy: CchPolicy)
    requires WellFormed(system) && IsFp3(fp) && Done(Ensure(system, target, fp, policy).1)
    ensures Trim(target) != "" && Headed(Ensure(system, target, fp, policy).0)
  {
    EnsureInstallsVersion(system, target, fp, policy);
    EnsuredWellFormed(system, target, fp, policy);
  }

  /** A target with a semicolon is never settled: the first call writes a header, and every later
      call there will ever be writes it again. */
  lemma {:induction false} SemicolonNeverSettles(system: Value, target: string, fp: string, policy: CchPolicy, n: nat)
    requires WellFormed(system) && IsFp3(fp) && ';' in target && Done(Ensure(system, target, fp, policy).1)
    ensures var (after, action) := Ensure(system, target, fp, policy);
            action != Preserved && Ensure(AfterCalls(after, target, fp, policy, n), target, fp, policy).1 == Rewritten
  {
    var (after, action) := Ensure(system, target, fp, policy);
    FirstCallLeavesHeader(system, target, fp, policy);
    SemicolonRepeats(after, target, fp, policy, n);
    if HasHeader(system) { SemicolonStep(system, target, fp, policy); }
  }

  // A version key that stands inside a field stays there.

  lemma {:induction false} OpensByPrefix(s: string, s': string, p: nat)
    requires p <= |s| && p <= |s'| && s[..p] == s'[..p]
    ensures OpensAt(s, p) == OpensAt(s', p)
  {
    if p > 0 {
      assert s[p - 1] == s[..p][p - 1] == s'[..p][p - 1];
      assert s[..p - 1] == s[..p][..p - 1] == s'[..p - 1];
      OpensByPrefix(s, s', p - 1);
    }
  }

  lemma ReplacedKeyStays(s: string, key: string, value: string)
    requires Occurs(s, key)
    ensures var s' := ReplaceValue(s, key, value);
            Occurs(s', key) && KeyOpensField(s', key) == KeyOpensField(s, key)
  {
    var p := FirstOccurrence(s, key);
    var n, s' := p + |key|, ReplaceValue(s, key, value);
    ReplaceIs(s, key, value, n);
    assert s'[..n] == s[..n];
    FirstInPrefix(s, key, n);
    OccursInPrefix(s', key, n);
    FirstInPrefix(s', key, n);
    assert s[..p] == s[..n][..p] == s'[..p];
    OpensByPrefix(s, s', p);
  }

  /** The header names a version by a key that is not its first one. */
  predicate Buried(text: string) {
    BillingVersion(text).Some? && Occurs(Payload(text), VERSION_KEY) && !KeyOpensField(Payload(text), VERSION_KEY)
  }

  lemma RewriteLeavesBuried(text: string, target: string, fp: string)
    requires Buried(text) && IsFp3(fp) && ';' !in target
    ensures var new_ := RewriteVersion(text, target, fp);
            Buried(new_) && BillingVersion(new_) == BillingVersion(text)
  {
    var lead := HeaderParts(text);
    var payload := Payload(text);
    RewrittenHeader(text, target, fp);
    ReplaceBehind(lead, payload, VERSION_KEY, target + ['.'] + fp);
    var payload' := ReplaceValue(payload, VERSION_KEY, target + ['.'] + fp);
    assert LooksLikeHeader(lead + payload') && Payload(lead + payload') == payload';
    ReplacedKeyStays(payload, VERSION_KEY, target + ['.'] + fp);
  }

  /** At the head stands a header that names `version`, buried. */
  ghost predicate BuriedAt(system: Value, version: string) {
    Headed(system) && Buried(HeadText(system).value) && BillingVersion(HeadText(system).value) == Some(version)
  }

  lemma BuriedStep(system: Value, version: string, target: string, fp: string, policy: CchPolicy)
    requires IsFp3(fp) && Trim(target) != "" && ';' !in target && BuriedAt(system, version) && version != target
    ensures var (after, action) := Ensure(system, target, fp, policy);
            action == Rewritten && BuriedAt(after, version)
  {
    HeaderReplaced(system, target, fp, policy);
    RewriteLeavesBuried(HeadText(system).value, target, fp);
  }

  /** Nor is a header settled whose first version key stands inside a field, while a later field
      names another version: every call there will ever be changes the value at the first key, and
      the reader goes on seeing the later one. */
  lemma BuriedKeyNeverSettles(system: Value, version: string, target: string, fp: string, policy: CchPolicy, n: nat)
    requires IsFp3(fp) && Trim(target) != "" && ';' !in target && BuriedAt(system, version) && version != target
    ensures var now := AfterCalls(system, target, fp, policy, n);
            BuriedAt(now, version) && Ensure(now, target, fp, policy).1 == Rewritten
  {
    var f := Caller(target, fp, policy);
    var kept := x => BuriedAt(x, version);
    forall x | kept(x) ensures kept(f(x)) { BuriedStep(x, version, target, fp, policy); }
    IterateKeeps(f, kept, system, n);
    BuriedStep(Iterate(f, system, n), version, target, fp, policy);
  }

  // ----- such a header -----

  lemma BuriedIsPassedOver(field: string)
    requires field == "a " + VERSION_KEY
    ensures Occurs(field, VERSION_KEY) && 0 < FirstOccurrence(field, VERSION_KEY) <= 2 && ';' !in field
    ensures !Blank(field[..FirstOccurrence(field, VERSION_KEY)])
  {
    assert MatchesAt(field, VERSION_KEY, 2);
    assert field[0] == 'a' && VERSION_KEY[0] == 'c';
    assert field[..FirstOccurrence(field, VERSION_KEY)][0] == 'a';
  }

  lemma {:induction false} PassedToSecond(first: string, second: string, key: string)
    requires GoodKey(key) && ';' !in first && ';' !in second
    requires Occurs(first, key) && !Blank(first[..FirstOccurrence(first, key)])
    ensures ValueIn(first + [';'] + second, key) == FirstValue([second], key)
  {
    SplitFirst(first, ';', second);
    SplitFirst(second, ';', "");
    FieldPassedOver(first, key, [second]);
  }

  lemma BuriedValue(first: string, second: string)
    requires first == "a " + VERSION_KEY && second == "" + VERSION_KEY + ("2" + ['.'] + "abc")
    ensures ValueIn(first + [';'] + second, VERSION_KEY) == Some("2")
  {
    BuriedIsPassedOver(first);
    SecondPlain(second);
    SecondValue(second);
    PassedToSecond(first, second, VERSION_KEY);
  }

  lemma SecondPlain(second: string)
    requires second == "" + VERSION_KEY + ("2" + ['.'] + "abc")
    ensures ';' !in second
  {
  }

  lemma SecondValue(second: string)
    requires second == "" + VERSION_KEY + ("2" + ['.'] + "abc")
    ensures FirstValue([second], VERSION_KEY) == Some("2")
  {
    FieldGivesTarget("", VERSION_KEY, "2", "abc", []);
    assert [second] + [] == [second];
  }

  lemma BuriedOpens(first: string, second: string)
    requires first == "a " + VERSION_KEY
    ensures Occurs(first + [';'] + second, VERSION_KEY) && !KeyOpensField(first + [';'] + second, VERSION_KEY)
  {
    var payload := first + [';'] + second;
    BuriedIsPassedOver(first);
    assert payload[..|first|] == first;
    OccursInPrefix(payload, VERSION_KEY, |first|);
    FirstInPrefix(payload, VERSION_KEY, |first|);
    var p := FirstOccurrence(payload, VERSION_KEY);
    assert payload[..p] == first[..p] && ';' !in first[..p];
    OpensFirst(payload, p);
  }

  lemma HeaderPayload(payload: string)
    ensures LooksLikeHeader(BILLING_HEADER + payload) && Payload(BILLING_HEADER + payload) == payload
  {
    TrimStartDrops("", BILLING_HEADER + payload);
    assert "" + (BILLING_HEADER + payload) == BILLING_HEADER + payload;
  }

  /** Such a header is easily met: its version is 2 for the reader and stays 2. */
  lemma BuriedKeyExample(text: string)
    requires text == BILLING_HEADER + (("a " + VERSION_KEY) + [';'] + ("" + VERSION_KEY + ("2" + ['.'] + "abc")))
    ensures LooksLikeHeader(text) && Buried(text) && BillingVersion(text) == Some("2")
  {
    var first, second := "a " + VERSION_KEY, "" + VERSION_KEY + ("2" + ['.'] + "abc");
    BuriedValue(first, second);
    BuriedOpens(first, second);
    HeaderPayload(first + [';'] + second);
  }
}
