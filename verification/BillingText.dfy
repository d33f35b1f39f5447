/** What the printer writes and the lenient reader sees, field by field.

    A payload is divided at semicolons.  The reader takes the first field that starts with the key;
    the writer replaces what follows the first occurrence of the key.  The lemmas here say when the
    two go by the same occurrence, first for one field and then for the fields behind it, and how
    searching and splicing behave on texts put together from pieces. */
module BillingText {
  import opened Wrappers
  import opened Text
  import opened SystemSegments
  import opened BillingBlock

  // ----- printing and parsing back -----

  /** Every character of a string is a separator or part of a piece. */
  lemma {:induction false} SplitCovers(s: string, c: char, i: nat)
    requires i < |s| && s[i] != c
    ensures exists j :: 0 <= j < |Split(s, c)| && s[i] in Split(s, c)[j]
  {
    var k := IndexOf(s, c);
    var parts := Split(s, c);
    if k == |s| {
      assert s[i] in parts[0];
    } else if i < k {
      assert s[..k][i] == s[i];
      assert s[i] in parts[0];
    } else {
      assert s[k + 1..][i - k - 1] == s[i];
      SplitCovers(s[k + 1..], c, i - k - 1);
      var j :| 0 <= j < |Split(s[k + 1..], c)| && s[i] in Split(s[k + 1..], c)[j];
      assert parts[j + 1] == Split(s[k + 1..], c)[j];
    }
  }

  lemma VersionChars(v: string, i: nat)
    requires IsVersion(v) && i < |v|
    ensures v[i] == '.' || '0' <= v[i] <= '9'
  {
    if v[i] != '.' { SplitCovers(v, '.', i); }
  }

  lemma VersionInk(v: string)
    requires IsVersion(v)
    ensures ';' !in v
  {
    forall i | 0 <= i < |v| ensures v[i] != ';' { VersionChars(v, i); }
  }

  lemma FirstAndRest(fields: seq<string>, last: seq<string>)
    requires fields != []
    ensures [fields[0]] + (fields[1..] + last) == fields + last
  {
  }

  lemma {:induction false} SplitTerminated(fields: seq<string>)
    requires forall i :: 0 <= i < |fields| ==> ';' !in fields[i]
    ensures Split(Terminated(fields), ';') == fields + [""]
  {
    if fields == [] {
      SplitFirst("", ';', "");
      assert fields + [""] == [""];
    } else {
      SplitTerminated(fields[1..]);
      SplitFirst(fields[0], ';', Terminated(fields[1..]));
      FirstAndRest(fields, [""]);
    }
  }

  /** The empty piece behind the last semicolon is skipped. */
  lemma {:induction false} ReadSkipsEnd(fields: seq<string>, values: map<string, string>)
    ensures ReadFields(fields + [""], values) == ReadFields(fields, values)
  {
    if fields == [] {
      assert fields + [""] == [""] && |[""][1..]| == 0 && Trim("") == "";
    } else {
      FirstAndRest(fields, [""]);
      assert (fields + [""])[1..] == fields[1..] + [""];
      forall m: map<string, string> ensures ReadFields(fields[1..] + [""], m) == ReadFields(fields[1..], m) {
        ReadSkipsEnd(fields[1..], m);
      }
    }
  }

  /** One printed field is read as its two sides. */
  lemma {:induction false} ReadField(key: string, value: string, rest: seq<string>, values: map<string, string>)
    requires key != "" && '=' !in key && !IsWhitespace(key[0])
    requires value != "" && !IsWhitespace(value[|value| - 1])
    ensures ReadFields([PrintField(key, value)] + rest, values) == ReadFields(rest, values[key := value])
  {
    var core := key + ['='] + value;
    var fields := [PrintField(key, value)] + rest;
    TrimField(" ", core);
    IndexOfAt(key, '=', value);
    assert core[..|key|] == key && core[|key| + 1..] == value;
    assert SplitOnce(core) == Some((key, value));
    assert fields[0] == PrintField(key, value) && fields[1..] == rest;
  }

  lemma LastIndexAt(a: string, c: char, b: string)
    requires c !in b
    ensures c in a + [c] + b && LastIndexOf(a + [c] + b, c) == |a|
  {
    var s := a + [c] + b;
    assert s[|a|] == c;
    assert forall j :: |a| < j < |s| ==> s[j] == b[j - |a| - 1];
  }

  lemma RenderedHeader(version: string, fp: string, policy: CchPolicy)
    ensures LooksLikeHeader(Rendered(version, fp, policy))
    ensures Payload(Rendered(version, fp, policy)) == Terminated(RenderedFields(version, fp, policy))
  {
    assert Rendered(version, fp, policy)[0] == 'x';
  }

  /** What the fields are read as. */
  function RenderedValues(cc: string, policy: CchPolicy): map<string, string> {
    var two := map["cc_version" := cc]["cc_entrypoint" := "cli"];
    if policy.Zero00? then two["cch" := "00000"] else two
  }

  lemma ReadRendered(version: string, fp: string, policy: CchPolicy)
    requires IsFp3(fp)
    ensures ReadFields(RenderedFields(version, fp, policy), map[])
            == Some(RenderedValues(version + ['.'] + fp, policy))
  {
    var cc := version + ['.'] + fp;
    var last := if policy.Zero00? then [PrintField("cch", "00000")] else [];
    var m1 := map["cc_version" := cc];
    ReadField("cc_version", cc, [PrintField("cc_entrypoint", "cli")] + last, map[]);
    ReadField("cc_entrypoint", "cli", last, m1);
    if policy.Zero00? {
      ReadField("cch", "00000", [], m1["cc_entrypoint" := "cli"]);
      assert last == [PrintField("cch", "00000")] + [];
    }
  }

  lemma ValuesHold(cc: string, policy: CchPolicy)
    ensures var m := RenderedValues(cc, policy);
            && "cc_version" in m && m["cc_version"] == cc && "cc_entrypoint" in m && m["cc_entrypoint"] == "cli"
            && (if policy.Zero00? then "cch" in m && m["cch"] == "00000" else "cch" !in m)
  {
    assert |"cc_version"| == 10 && |"cc_entrypoint"| == 13 && |"cch"| == 3;
  }

  /** A header is accepted on the strength of its fields. */
  lemma ParsedFrom(text: string, values: map<string, string>, version: string, fp: string)
    requires LooksLikeHeader(text) && ReadFields(Split(Payload(text), ';'), map[]) == Some(values)
    requires "cc_version" in values && "cc_entrypoint" in values
    requires SplitLastDot(values["cc_version"]) == Some((version, fp))
    requires IsVersion(version) && IsFp3(fp)
    ensures ParseBilling(text) == Some(Billing(values["cc_version"], version, fp, values["cc_entrypoint"],
                                               if "cch" in values then Some(values["cch"]) else None))
  {
  }

  lemma SplitDotted(version: string, fp: string)
    requires '.' !in fp
    ensures SplitLastDot(version + ['.'] + fp) == Some((version, fp))
  {
    var cc := version + ['.'] + fp;
    LastIndexAt(version, '.', fp);
    assert cc[|version|] == '.';
    assert cc[..|version|] == version && cc[|version| + 1..] == fp;
  }

  lemma RenderedFieldsPlain(version: string, fp: string, policy: CchPolicy)
    requires ';' !in version && ';' !in fp
    ensures forall i :: 0 <= i < |RenderedFields(version, fp, policy)| ==> ';' !in RenderedFields(version, fp, policy)[i]
  {
  }

  // ----- what the lenient reader sees -----

  /** Only blanks stand between position `p` and the start of its field. */
  predicate OpensAt(s: string, p: nat)
    requires p <= |s|
  {
    p == 0 || s[p - 1] == ';' || (IsWhitespace(s[p - 1]) && OpensAt(s, p - 1))
  }

  /** The first key of the payload opens its field. */
  predicate KeyOpensField(payload: string, key: string)
    requires Occurs(payload, key)
  {
    OpensAt(payload, FirstOccurrence(payload, key))
  }

  /** What the keys used here have in common. */
  predicate GoodKey(key: string) {
    key != "" && ';' !in key && !IsWhitespace(key[0]) && !IsWhitespace(key[|key| - 1])
  }

  function ValueIn(payload: string, key: string): Option<string> {
    FirstValue(Split(payload, ';'), key)
  }

  /** A header field that carries the target gives the target back. */
  lemma {:induction false} FieldGivesTarget(b: string, key: string, target: string, fp: string, rest: seq<string>)
    requires Blank(b) && IsFp3(fp) && GoodKey(key)
    ensures FirstValue([b + key + (target + ['.'] + fp)] + rest, key) == Some(target)
  {
    var value := target + ['.'] + fp;
    var core := key + value;
    assert b + key + value == b + core;
    TrimField(b, core);
    assert core[|key|..] == value;
    SplitDotted(target, fp);
  }

  /** A field whose first key does not open it is passed over. */
  lemma {:induction false} FieldPassedOver(field: string, key: string, rest: seq<string>)
    requires GoodKey(key)
    requires Occurs(field, key) ==> !Blank(field[..FirstOccurrence(field, key)])
    ensures FirstValue([field] + rest, key) == FirstValue(rest, key)
  {
    var k := TrimmedPrefix(field, key);
    if key <= field[k..] { assert MatchesAt(field, key, k); }
    assert ([field] + rest)[1..] == rest;
  }

  /** The first occurrence does not depend on what follows it. */
  lemma FirstInPrefix(s: string, t: string, n: nat)
    requires Occurs(s, t) && FirstOccurrence(s, t) + |t| <= n <= |s|
    ensures Occurs(s[..n], t) && FirstOccurrence(s[..n], t) == FirstOccurrence(s, t)
  {
    forall j: nat | j + |t| <= n ensures MatchesAt(s[..n], t, j) <==> MatchesAt(s, t, j) { MatchInPrefix(s, t, n, j); }
    FirstIs(s[..n], t, FirstOccurrence(s, t));
  }

  lemma MatchInPrefix(s: string, t: string, n: nat, j: nat)
    requires j + |t| <= n <= |s|
    ensures MatchesAt(s[..n], t, j) <==> MatchesAt(s, t, j)
  {
    assert s[..n][j..j + |t|] == s[j..j + |t|];
  }

  lemma OccursInPrefix(s: string, t: string, n: nat)
    requires n <= |s| && Occurs(s[..n], t)
    ensures Occurs(s, t) && FirstOccurrence(s, t) + |t| <= n
  {
    MatchInPrefix(s, t, n, FirstOccurrence(s[..n], t));
  }

  lemma MatchBehind(lead: string, b: string, t: string, j: nat)
    ensures MatchesAt(lead + b, t, |lead| + j) <==> MatchesAt(b, t, j)
  {
    if j + |t| <= |b| {
      assert (lead + b)[|lead| + j..|lead| + j + |t|] == b[j..j + |t|];
    }
  }

  lemma MatchChar(s: string, t: string, j: nat, i: nat)
    requires MatchesAt(s, t, j) && j <= i < j + |t|
    ensures s[i] in t
  {
    assert s[j..j + |t|][i - j] == s[i];
  }

  /** No match spans a separator the key does not contain. */
  lemma NoMatchAcross(a: string, c: char, b: string, t: string, j: nat)
    requires c !in t && t != "" && !Occurs(a, t) && j <= |a|
    ensures !MatchesAt(a + [c] + b, t, j)
  {
    var s := a + [c] + b;
    if j + |t| <= |a| {
      MatchInPrefix(s, t, |a|, j);
      assert s[..|a|] == a;
    } else if MatchesAt(s, t, j) {
      MatchChar(s, t, j, |a|);
    }
  }

  /** Searching goes on behind a separator the key does not contain. */
  lemma OccursBehind(a: string, c: char, b: string, t: string)
    requires c !in t && t != "" && !Occurs(a, t)
    ensures Occurs(a + [c] + b, t) <==> Occurs(b, t)
    ensures Occurs(b, t) ==> FirstOccurrence(a + [c] + b, t) == |a| + 1 + FirstOccurrence(b, t)
  {
    var lead := a + [c];
    forall j | 0 <= j <= |a| ensures !MatchesAt(lead + b, t, j) { NoMatchAcross(a, c, b, t, j); }
    forall j: nat ensures MatchesAt(lead + b, t, |lead| + j) <==> MatchesAt(b, t, j) { MatchBehind(lead, b, t, j); }
    if Occurs(b, t) {
      var p := FirstOccurrence(b, t);
      forall j | 0 <= j < |lead| + p ensures !MatchesAt(lead + b, t, j) {
        if j >= |lead| { assert !MatchesAt(b, t, j - |lead|); }
      }
      FirstIs(lead + b, t, |lead| + p);
    } else {
      forall j | 0 <= j <= |lead + b| ensures !MatchesAt(lead + b, t, j) {
        if j >= |lead| { assert !MatchesAt(b, t, j - |lead|); }
      }
    }
  }

  // ----- rewriting the version -----

  /** In the field that holds the key, the new value is read back exactly when the key opens its
      field; otherwise the reader passes on to the later fields. */
  lemma {:induction false} RewrittenField(b: string, key: string, target: string, fp: string, rest: seq<string>)
    requires GoodKey(key) && IsFp3(fp)
    requires Occurs(b + key, key) && FirstOccurrence(b + key, key) == |b|
    ensures FirstValue([b + key + (target + ['.'] + fp)] + rest, key)
            == if Blank(b) then Some(target) else FirstValue(rest, key)
  {
    var head, field := b + key, b + key + (target + ['.'] + fp);
    if Blank(b) {
      FieldGivesTarget(b, key, target, fp, rest);
    } else {
      assert field[..|head|] == head;
      OccursInPrefix(field, key, |head|);
      FirstInPrefix(field, key, |head|);
      assert field[..|b|] == b;
      FieldPassedOver(field, key, rest);
    }
  }

  lemma NoKeyBefore(payload: string, key: string, i: nat)
    requires key != "" && Occurs(payload, key) && i < FirstOccurrence(payload, key)
    ensures !Occurs(payload[..i], key)
  {
    if Occurs(payload[..i], key) { OccursInPrefix(payload, key, i); }
  }

  lemma Assoc(a: string, b: string, c: string)
    ensures a + b + c == a + (b + c)
  {
  }

  // Slices.

  lemma TakeBehind(lead: string, rest: string, p: nat)
    requires p <= |rest|
    ensures (lead + rest)[..|lead| + p] == lead + rest[..p]
  {
  }

  lemma DropBehind(lead: string, rest: string, p: nat)
    requires p <= |rest|
    ensures (lead + rest)[|lead| + p..] == rest[p..]
  {
  }

  lemma TakeKey(s: string, p: nat, key: string)
    requires p + |key| <= |s| && s[p..p + |key|] == key
    ensures s[..p + |key|] == s[..p] + key
  {
  }

  lemma NotBefore(s: string, c: char, n: nat)
    requires n <= IndexOf(s, c)
    ensures c !in s[..n]
  {
    assert s[..n] <= s[..IndexOf(s, c)];
  }

  lemma SpliceBehind(lead: string, rest: string, start: nat, end: nat, value: string)
    requires start <= end <= |rest|
    ensures Splice(lead + rest, |lead| + start, |lead| + end, value) == lead + Splice(rest, start, end, value)
  {
    TakeBehind(lead, rest, start);
    DropBehind(lead, rest, end);
    Assoc(lead, rest[..start], value);
    Assoc(lead, rest[..start] + value, rest[end..]);
  }

  lemma EndBehind(lead: string, rest: string, start: nat)
    requires start <= |rest|
    ensures ValueEnd(lead + rest, |lead| + start) == |lead| + ValueEnd(rest, start)
  {
    DropBehind(lead, rest, start);
  }

  lemma ReplaceIs(s: string, key: string, value: string, start: nat)
    requires Occurs(s, key) && FirstOccurrence(s, key) + |key| == start
    ensures start <= |s| && ReplaceValue(s, key, value) == Splice(s, start, ValueEnd(s, start), value)
  {
  }

  lemma ReplaceBehind(lead: string, rest: string, key: string, value: string)
    requires Occurs(rest, key) && Occurs(lead + rest, key)
    requires FirstOccurrence(lead + rest, key) == |lead| + FirstOccurrence(rest, key)
    ensures ReplaceValue(lead + rest, key, value) == lead + ReplaceValue(rest, key, value)
  {
    var start := FirstOccurrence(rest, key) + |key|;
    ReplaceIs(rest, key, value, start);
    ReplaceIs(lead + rest, key, value, |lead| + start);
    EndBehind(lead, rest, start);
    SpliceBehind(lead, rest, start, ValueEnd(rest, start), value);
  }

  /** A field without the key changes nothing for the fields behind it. */
  lemma ValueBehind(field: string, rest: string, key: string)
    requires GoodKey(key) && ';' !in field && !Occurs(field, key)
    ensures ValueIn(field + [';'] + rest, key) == ValueIn(rest, key)
  {
    SplitFirst(field, ';', rest);
    FieldPassedOver(field, key, Split(rest, ';'));
  }

  lemma {:induction false} OpensBehind(lead: string, rest: string, p: nat)
    requires lead != "" && lead[|lead| - 1] == ';' && p <= |rest|
    ensures OpensAt(lead + rest, |lead| + p) <==> OpensAt(rest, p)
  {
    if p > 0 { OpensBehind(lead, rest, p - 1); }
  }

  lemma StepOpens(field: string, rest: string, key: string)
    requires GoodKey(key) && ';' !in field && !Occurs(field, key) && Occurs(rest, key)
    ensures var s := field + [';'] + rest;
            Occurs(s, key) && KeyOpensField(s, key) == KeyOpensField(rest, key)
  {
    OccursBehind(field, ';', rest, key);
    OpensBehind(field + [';'], rest, FirstOccurrence(rest, key));
  }

  /** From the fields behind to the whole payload. */
  lemma RewrittenStep(field: string, rest: string, rest': string, key: string, target: string)
    requires GoodKey(key) && ';' !in field && !Occurs(field, key) && Occurs(rest, key)
    requires ValueIn(rest', key) == if KeyOpensField(rest, key) then Some(target) else ValueIn(rest, key)
    ensures var s := field + [';'] + rest;
            && Occurs(s, key)
            && ValueIn(field + [';'] + rest', key) == if KeyOpensField(s, key) then Some(target) else ValueIn(s, key)
  {
    StepOpens(field, rest, key);
    ValueBehind(field, rest, key);
    ValueBehind(field, rest', key);
  }

  /** The fields in what follows a first field. */
  function TailFields(tail: string): seq<string> {
    if tail == "" then [] else Split(tail[1..], ';')
  }

  lemma {:induction false} SplitTail(field: string, tail: string)
    requires ';' !in field && (tail != "" ==> tail[0] == ';')
    ensures Split(field + tail, ';') == [field] + TailFields(tail)
  {
    if tail == "" {
      assert field + tail == field;
      SplitFirst(field, ';', "");
    } else {
      assert field + tail == field + [';'] + tail[1..];
      SplitFirst(field, ';', tail[1..]);
    }
  }

  lemma {:induction false} NewFirstField(b: string, key: string, target: string, fp: string, tail: string)
    requires GoodKey(key) && IsFp3(fp) && ';' !in b && ';' !in target && (tail != "" ==> tail[0] == ';')
    requires Occurs(b + key, key) && FirstOccurrence(b + key, key) == |b|
    ensures ValueIn(b + key + (target + ['.'] + fp) + tail, key)
            == if Blank(b) then Some(target) else FirstValue(TailFields(tail), key)
  {
    SplitTail(b + key + (target + ['.'] + fp), tail);
    RewrittenField(b, key, target, fp, TailFields(tail));
  }

  lemma {:induction false} OldFirstField(field: string, key: string, tail: string)
    requires GoodKey(key) && ';' !in field && (tail != "" ==> tail[0] == ';')
    requires Occurs(field, key) && !Blank(field[..FirstOccurrence(field, key)])
    ensures ValueIn(field + tail, key) == FirstValue(TailFields(tail), key)
  {
    SplitTail(field, tail);
    FieldPassedOver(field, key, TailFields(tail));
  }

  lemma {:induction false} OldValue(payload: string, key: string, p: nat, i: nat)
    requires GoodKey(key) && Occurs(payload, key) && p == FirstOccurrence(payload, key)
    requires i == IndexOf(payload, ';') && p + |key| <= i && !Blank(payload[..p])
    ensures ValueIn(payload, key) == FirstValue(TailFields(payload[i..]), key)
  {
    FirstInPrefix(payload, key, i);
    assert payload[..i][..p] == payload[..p];
    assert payload == payload[..i] + payload[i..];
    OldFirstField(payload[..i], key, payload[i..]);
  }

  /** The old value ends where the first field does. */
  lemma ValueEnds(payload: string, start: nat)
    requires start <= IndexOf(payload, ';')
    ensures ValueEnd(payload, start) == IndexOf(payload, ';')
  {
    var i := IndexOf(payload, ';');
    var gap := payload[start..i];
    assert ';' !in gap by { assert forall k :: start <= k < i ==> payload[k] == payload[..i][k]; }
    if i < |payload| {
      assert payload[start..] == gap + [';'] + payload[i + 1..];
      IndexOfAt(gap, ';', payload[i + 1..]);
    } else {
      assert payload[start..] == gap;
      IndexOfAbsent(gap, ';');
    }
  }

  lemma ReplaceFirst(payload: string, key: string, value: string)
    requires GoodKey(key) && Occurs(payload, key)
    requires FirstOccurrence(payload, key) + |key| <= IndexOf(payload, ';')
    ensures ReplaceValue(payload, key, value)
         == Splice(payload, FirstOccurrence(payload, key) + |key|, IndexOf(payload, ';'), value)
  {
    ValueEnds(payload, FirstOccurrence(payload, key) + |key|);
  }

  lemma SpliceIs(s: string, p: nat, key: string, end: nat, value: string)
    requires p + |key| <= end <= |s| && s[p..p + |key|] == key
    ensures Splice(s, p + |key|, end, value) == s[..p] + key + value + s[end..]
    ensures s[..p + |key|] == s[..p] + key
  {
    TakeKey(s, p, key);
  }

  /** In the first field only blanks may precede the key. */
  lemma {:induction false} OpensFirst(s: string, p: nat)
    requires p <= |s| && ';' !in s[..p]
    ensures OpensAt(s, p) <==> Blank(s[..p])
  {
    if p > 0 {
      assert s[..p] == s[..p - 1] + [s[p - 1]];
      OpensFirst(s, p - 1);
    }
  }

  lemma OpensIfBlank(payload: string, key: string)
    requires Occurs(payload, key) && FirstOccurrence(payload, key) <= IndexOf(payload, ';')
    ensures var before := payload[..FirstOccurrence(payload, key)];
            ';' !in before && KeyOpensField(payload, key) == Blank(before)
  {
    NotBefore(payload, ';', FirstOccurrence(payload, key));
    OpensFirst(payload, FirstOccurrence(payload, key));
  }

  /** The key is in the payload's first field. */
  lemma RewrittenFirstField(payload: string, key: string, target: string, fp: string)
    requires GoodKey(key) && ';' !in target && IsFp3(fp) && Occurs(payload, key)
    requires FirstOccurrence(payload, key) <= IndexOf(payload, ';')
    ensures ValueIn(ReplaceValue(payload, key, target + ['.'] + fp), key)
            == if KeyOpensField(payload, key) then Some(target) else ValueIn(payload, key)
  {
    var p := FirstOccurrence(payload, key);
    var i := IndexOf(payload, ';');
    KeyInField(payload, key);
    OpensIfBlank(payload, key);
    ReplaceFirst(payload, key, target + ['.'] + fp);
    FirstInPrefix(payload, key, p + |key|);
    SpliceIs(payload, p, key, i, target + ['.'] + fp);
    NewFirstField(payload[..p], key, target, fp, payload[i..]);
    if !Blank(payload[..p]) { OldValue(payload, key, p, i); }
  }

  /** A key that starts in the first field ends in it. */
  lemma KeyInField(payload: string, key: string)
    requires GoodKey(key) && Occurs(payload, key)
    requires FirstOccurrence(payload, key) <= IndexOf(payload, ';')
    ensures FirstOccurrence(payload, key) + |key| <= IndexOf(payload, ';')
  {
    SeparatorAfter(payload, FirstOccurrence(payload, key), key, IndexOf(payload, ';'));
  }

  lemma SeparatorAfter(s: string, p: nat, key: string, i: nat)
    requires p + |key| <= |s| && s[p..p + |key|] == key && ';' !in key
    requires p <= i <= |s| && (i < |s| ==> s[i] == ';')
    ensures p + |key| <= i
  {
    if i < p + |key| { MatchChar(s, key, p, i); }
  }
}
