/** The string operations the gateway's parsers and printers are built from.

    A string is a sequence of characters, and positions count characters where the source counts
    bytes of UTF-8.  The operations used here search for ASCII characters only, so both ways of
    counting divide a string at the same places. */
module Text {

  // ----- order -----

  /** Lexicographic order by character code; for UTF-8 text this is also the byte order. */
  predicate Less(a: string, b: string) {
    if b == "" then false
    else if a == "" then true
    else if a[0] != b[0] then a[0] < b[0]
    else Less(a[1..], b[1..])
  }

  lemma {:induction false} LessTotal(a: string, b: string)
    ensures Less(a, b) || a == b || Less(b, a)
    ensures !(Less(a, b) && Less(b, a)) && !Less(a, a)
  {
    if a != "" && b != "" && a[0] == b[0] {
      LessTotal(a[1..], b[1..]);
      assert a == [a[0]] + a[1..] && b == [b[0]] + b[1..];
    }
    if a != "" { LessIrreflexive(a); }
  }

  lemma {:induction false} LessIrreflexive(a: string)
    ensures !Less(a, a)
  {
    if a != "" { LessIrreflexive(a[1..]); }
  }

  lemma {:induction false} LessTransitive(a: string, b: string, c: string)
    requires Less(a, b) && Less(b, c)
    ensures Less(a, c)
  {
    if a != "" && a[0] == b[0] && b[0] == c[0] {
      LessTransitive(a[1..], b[1..], c[1..]);
    }
  }

  /** Up to position `k` the strings agree, and there `a` ends or has the smaller character. */
  predicate SmallerAt(a: string, b: string, k: nat) {
    k <= |a| && k < |b| && a[..k] == b[..k] && (k == |a| || a[k] < b[k])
  }

  /** One string is less than another exactly when, at the first place where they differ, it has
      ended or has the smaller character. */
  lemma {:induction false} LessIs(a: string, b: string)
    ensures Less(a, b) <==> exists k: nat :: SmallerAt(a, b, k)
  {
    if b == "" || a == "" || a[0] != b[0] {
      assert SmallerAt(a, b, 0) <==> Less(a, b);
      assert forall k: nat :: SmallerAt(a, b, k) && k > 0 ==> a[..k][0] == b[..k][0];
    } else {
      LessIs(a[1..], b[1..]);
      forall k: nat | k > 0 ensures SmallerAt(a, b, k) <==> SmallerAt(a[1..], b[1..], k - 1) { SmallerTail(a, b, k); }
      if k: nat :| SmallerAt(a[1..], b[1..], k) { assert SmallerAt(a[1..], b[1..], k + 1 - 1) && SmallerAt(a, b, k + 1); }
      if k: nat :| SmallerAt(a, b, k) { assert SmallerAt(a[1..], b[1..], k - 1); }
    }
  }

  lemma SmallerTail(a: string, b: string, k: nat)
    requires a != "" && b != "" && a[0] == b[0] && k > 0
    ensures SmallerAt(a, b, k) <==> SmallerAt(a[1..], b[1..], k - 1)
  {
    if k <= |a| && k <= |b| {
      assert a[..k] == [a[0]] + a[1..][..k - 1] && b[..k] == [b[0]] + b[1..][..k - 1];
      assert a[1..][..k - 1] == a[..k][1..] && b[1..][..k - 1] == b[..k][1..];
    }
  }

  // ----- searching and splitting -----

  function IndexFrom(s: string, c: char, k: nat): (i: nat)
    requires k <= |s|
    ensures k <= i <= |s| && forall j :: k <= j < i ==> s[j] != c
    ensures i < |s| ==> s[i] == c
    decreases |s| - k
  {
    if k == |s| || s[k] == c then k else IndexFrom(s, c, k + 1)
  }

  /** First index of `c`, or the length. */
  function IndexOf(s: string, c: char): (i: nat)
    ensures i <= |s| && c !in s[..i]
    ensures i < |s| ==> s[i] == c
  {
    IndexFrom(s, c, 0)
  }

  function LastBefore(s: string, c: char, k: nat): (i: nat)
    requires k <= |s| && exists j :: 0 <= j < k && s[j] == c
    ensures i < k && s[i] == c && forall j :: i < j < k ==> s[j] != c
  {
    if s[k - 1] == c then k - 1 else LastBefore(s, c, k - 1)
  }

  /** Last index of `c`. */
  function LastIndexOf(s: string, c: char): (i: nat)
    requires c in s
    ensures i < |s| && s[i] == c && c !in s[i + 1..]
  {
    LastBefore(s, c, |s|)
  }

  /** Pieces between the separators. */
  function Split(s: string, c: char): (parts: seq<string>)
    ensures |parts| >= 1
    ensures forall i :: 0 <= i < |parts| ==> c !in parts[i]
  {
    var i := IndexOf(s, c);
    if i == |s| then [s] else [s[..i]] + Split(s[i + 1..], c)
  }

  predicate MatchesAt(s: string, t: string, k: nat) {
    k + |t| <= |s| && s[k..k + |t|] == t
  }

  /** First index from `k` on where `t` stands in `s`; past the end if there is none. */
  function SearchFrom(s: string, t: string, k: nat): (i: nat)
    requires k <= |s|
    ensures k <= i <= |s| + 1 && (i <= |s| ==> MatchesAt(s, t, i))
    ensures forall j :: k <= j < i ==> !MatchesAt(s, t, j)
    decreases |s| - k
  {
    if MatchesAt(s, t, k) then k else if k == |s| then k + 1 else SearchFrom(s, t, k + 1)
  }

  predicate Occurs(s: string, t: string) {
    SearchFrom(s, t, 0) <= |s|
  }

  function FirstOccurrence(s: string, t: string): nat
    requires Occurs(s, t)
  {
    SearchFrom(s, t, 0)
  }

  lemma FirstIs(s: string, t: string, k: nat)
    requires MatchesAt(s, t, k) && forall j :: 0 <= j < k ==> !MatchesAt(s, t, j)
    ensures Occurs(s, t) && FirstOccurrence(s, t) == k
  {
  }

  lemma IndexOfAt(a: string, c: char, b: string)
    requires c !in a
    ensures IndexOf(a + [c] + b, c) == |a|
  {
    var s := a + [c] + b;
    assert s[|a|] == c;
    assert forall j :: 0 <= j < |a| ==> s[j] == a[j];
  }

  lemma IndexOfAbsent(a: string, c: char)
    requires c !in a
    ensures IndexOf(a, c) == |a|
  {
  }

  /** The first piece ends at the first separator. */
  lemma {:induction false} SplitFirst(a: string, c: char, b: string)
    requires c !in a
    ensures Split(a + [c] + b, c) == [a] + Split(b, c)
    ensures Split(a, c) == [a]
  {
    IndexOfAt(a, c, b);
    IndexOfAbsent(a, c);
    assert (a + [c] + b)[..|a|] == a && (a + [c] + b)[|a| + 1..] == b;
  }

  /** The last piece starts after the last separator. */
  lemma {:induction false} SplitLast(a: string, c: char, b: string)
    requires c !in b
    ensures Split(a + [c] + b, c) == Split(a, c) + [b]
    decreases |a|
  {
    var i := IndexOf(a, c);
    if i == |a| {
      SplitFirst(a, c, b);
      SplitFirst(b, c, "");
    } else {
      var rest := a[i + 1..];
      assert a == a[..i] + [c] + rest;
      assert a + [c] + b == a[..i] + [c] + (rest + [c] + b);
      SplitFirst(a[..i], c, rest + [c] + b);
      SplitFirst(a[..i], c, rest);
      SplitLast(rest, c, b);
    }
  }

  // ----- white space and case -----

  /** Unicode white space. */
  predicate IsWhitespace(c: char) {
    var u := c as int;
    || 0x9 <= u <= 0xD || u == 0x20 || u == 0x85 || u == 0xA0 || u == 0x1680
    || 0x2000 <= u <= 0x200A || u == 0x2028 || u == 0x2029 || u == 0x202F || u == 0x205F || u == 0x3000
  }

  function TrimStart(s: string): string {
    if s != "" && IsWhitespace(s[0]) then TrimStart(s[1..]) else s
  }

  function TrimEnd(s: string): string {
    if s != "" && IsWhitespace(s[|s| - 1]) then TrimEnd(s[..|s| - 1]) else s
  }

  function Trim(s: string): string {
    TrimEnd(TrimStart(s))
  }

  predicate Blank(s: string) {
    forall i :: 0 <= i < |s| ==> IsWhitespace(s[i])
  }

  function LowerAscii(s: string): string {
    if s == "" then ""
    else [if 'A' <= s[0] <= 'Z' then (s[0] as int + 32) as char else s[0]] + LowerAscii(s[1..])
  }

  /** Only capital letters change, each to its small letter. */
  lemma {:induction false} LowerIs(s: string)
    ensures |LowerAscii(s)| == |s|
    ensures forall i :: 0 <= i < |s| ==>
              LowerAscii(s)[i] as int == if 'A' <= s[i] <= 'Z' then 'a' as int + (s[i] as int - 'A' as int) else s[i] as int
  {
    if s != "" { LowerIs(s[1..]); }
  }

  // ----- what splitting and trimming leave -----

  /** The pieces with the separator in between. */
  function Join(parts: seq<string>, c: char): string
    requires parts != []
  {
    if |parts| == 1 then parts[0] else parts[0] + [c] + Join(parts[1..], c)
  }

  /** Joining the pieces gives the string back. */
  lemma {:induction false} SplitJoins(s: string, c: char)
    ensures Join(Split(s, c), c) == s
    decreases |s|
  {
    var i := IndexOf(s, c);
    if i < |s| {
      SplitJoins(s[i + 1..], c);
      assert Split(s, c)[1..] == Split(s[i + 1..], c);
      assert s == s[..i] + [c] + s[i + 1..];
    }
  }

  predicate InkAtBothEnds(s: string) {
    s != "" ==> !IsWhitespace(s[0]) && !IsWhitespace(s[|s| - 1])
  }

  /** Trimming takes blanks from both ends and leaves no more of them there. */
  lemma {:induction false} TrimIs(s: string) returns (a: string, b: string)
    ensures s == a + Trim(s) + b && Blank(a) && Blank(b) && InkAtBothEnds(Trim(s))
  {
    a := TrimStartTakes(s);
    b := TrimEndTakes(TrimStart(s));
    var middle := TrimStart(s);
    assert middle == Trim(s) + b;
    if Trim(s) != "" { assert middle[0] == Trim(s)[0]; }
    assert a + (Trim(s) + b) == a + Trim(s) + b;
  }

  lemma {:induction false} TrimStartTakes(s: string) returns (a: string)
    ensures s == a + TrimStart(s) && Blank(a)
    ensures TrimStart(s) != "" ==> !IsWhitespace(TrimStart(s)[0])
  {
    if s != "" && IsWhitespace(s[0]) {
      var rest := TrimStartTakes(s[1..]);
      a := [s[0]] + rest;
      assert s == [s[0]] + s[1..];
    } else {
      a := "";
    }
  }

  lemma {:induction false} TrimEndTakes(s: string) returns (b: string)
    ensures s == TrimEnd(s) + b && Blank(b)
    ensures TrimEnd(s) != "" ==> !IsWhitespace(TrimEnd(s)[|TrimEnd(s)| - 1])
  {
    if s != "" && IsWhitespace(s[|s| - 1]) {
      var rest := TrimEndTakes(s[..|s| - 1]);
      b := rest + [s[|s| - 1]];
      assert s == s[..|s| - 1] + [s[|s| - 1]];
    } else {
      b := "";
    }
  }
}
