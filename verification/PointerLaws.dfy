/** How reference tokens and array indices are spelled. */
module PointerLaws {
  import opened Wrappers
  import opened Text
  import opened Json

  // ----- escapes -----

  /** The spelling of a token, as section 3 of RFC 6901 has it. */
  function Escape(token: string): string {
    if token == "" then "" else
      (if token[0] == '~' then "~0" else if token[0] == '/' then "~1" else [token[0]]) + Escape(token[1..])
  }

  /** The token with only its slashes spelled out, its tildes as `~0`. */
  function HalfEscape(token: string): string {
    if token == "" then "" else (if token[0] == '~' then "~0" else [token[0]]) + HalfEscape(token[1..])
  }

  lemma {:induction false} ReplaceOther(c: char, rest: string, d: char, repl: char)
    requires c != '~'
    ensures ReplaceTilde([c] + rest, d, repl) == [c] + ReplaceTilde(rest, d, repl)
  {
    assert ([c] + rest)[1..] == rest;
  }

  lemma {:induction false} ReplaceHit(s: string, d: char, repl: char)
    requires |s| >= 2 && s[0] == '~' && s[1] == d
    ensures ReplaceTilde(s, d, repl) == [repl] + ReplaceTilde(s[2..], d, repl)
  {
  }

  lemma {:induction false} ReplaceMiss(s: string, d: char, repl: char)
    requires |s| >= 2 && s[0] == '~' && s[1] != d
    ensures ReplaceTilde(s, d, repl) == ['~'] + ReplaceTilde(s[1..], d, repl)
  {
  }

  lemma {:induction false} ReplacePair(e: char, rest: string, d: char, repl: char)
    requires e != '~'
    ensures ReplaceTilde(['~', e] + rest, d, repl)
         == if e == d then [repl] + ReplaceTilde(rest, d, repl) else ['~', e] + ReplaceTilde(rest, d, repl)
  {
    var s := ['~', e] + rest;
    assert s[2..] == rest && s[1..] == [e] + rest;
    if e == d {
      ReplaceHit(s, d, repl);
    } else {
      ReplaceMiss(s, d, repl);
      ReplaceOther(e, rest, d, repl);
      Regroup(e, ReplaceTilde(rest, d, repl));
    }
  }

  lemma Regroup(e: char, rest: string)
    ensures ['~'] + ([e] + rest) == ['~', e] + rest
  {
  }

  lemma {:induction false} SlashesBack(token: string)
    ensures ReplaceTilde(Escape(token), '1', '/') == HalfEscape(token)
  {
    if token != "" {
      var rest := token[1..];
      SlashesBack(rest);
      if token[0] == '~' {
        ReplacePair('0', Escape(rest), '1', '/');
        assert "~0" == ['~', '0'];
      } else if token[0] == '/' {
        ReplacePair('1', Escape(rest), '1', '/');
        assert "~1" == ['~', '1'];
      } else {
        ReplaceOther(token[0], Escape(rest), '1', '/');
      }
    }
  }

  lemma {:induction false} TildesBack(token: string)
    ensures ReplaceTilde(HalfEscape(token), '0', '~') == token
  {
    if token != "" {
      var rest := token[1..];
      TildesBack(rest);
      assert token == [token[0]] + rest;
      if token[0] == '~' {
        ReplacePair('0', HalfEscape(rest), '0', '~');
        assert "~0" == ['~', '0'];
      } else {
        ReplaceOther(token[0], HalfEscape(rest), '0', '~');
      }
    }
  }

  /** Every token is read back from its spelling. */
  lemma {:induction false} EscapeRoundTrip(token: string)
    ensures Unescape(Escape(token)) == token
  {
    SlashesBack(token);
    TildesBack(token);
  }

  // ----- indices -----

  /** A number in decimal, without leading zeros. */
  function Print(n: nat): string {
    if n < 10 then [('0' as int + n) as char] else Print(n / 10) + [('0' as int + n % 10) as char]
  }

  lemma {:induction false} PrintIs(n: nat)
    ensures Digits(Print(n)) && Decimal(Print(n)) == n
    ensures Print(n)[0] == '0' ==> n == 0 && Print(n) == "0"
  {
    if n < 10 {
      assert Print(n)[..0] == "";
    } else {
      PrintIs(n / 10);
      var s := Print(n);
      assert s[..|s| - 1] == Print(n / 10) && s[0] == Print(n / 10)[0];
    }
  }

  lemma {:induction false} PrintOfDecimal(s: string)
    requires Digits(s) && (s[0] == '0' ==> |s| == 1)
    ensures Print(Decimal(s)) == s
  {
    var init, last := s[..|s| - 1], s[|s| - 1];
    assert s == init + [last];
    if init != "" {
      assert init[0] == s[0];
      PrintOfDecimal(init);
      DecimalPositive(init);
    }
  }

  lemma {:induction false} DecimalPositive(s: string)
    requires Digits(s) && s[0] != '0'
    ensures Decimal(s) > 0
  {
    if |s| > 1 {
      assert s[..|s| - 1][0] == s[0];
      DecimalPositive(s[..|s| - 1]);
    } else {
      assert s[..0] == "";
    }
  }

  /** A lookup takes exactly the plain spelling of a machine word for an index. */
  lemma {:induction false} LookupIndexIff(s: string, n: nat)
    ensures LookupIndex(s) == Some(n) <==> n <= MAX_USIZE && s == Print(n)
  {
    PrintIs(n);
    if LookupIndex(s) == Some(n) { PrintOfDecimal(s); }
  }

  lemma {:induction false} LeadingZero(s: string)
    requires Digits(s)
    ensures Digits("0" + s) && Decimal("0" + s) == Decimal(s)
  {
    var t := "0" + s;
    assert t[..|t| - 1] == "0" + s[..|s| - 1];
    if |s| > 1 {
      LeadingZero(s[..|s| - 1]);
    } else {
      assert s[..0] == "" && t[..1] == "0" && "0"[..0] == "";
      assert Decimal("0") == 0;
    }
  }

  /** A write takes it with a sign or with zeros in front as well, which a lookup does not. */
  lemma SignAndZeros(s: string, n: nat)
    requires Digits(s) && ParseIndex(s) == Some(n)
    ensures ParseIndex("+" + s) == Some(n) && LookupIndex("+" + s) == None
    ensures ParseIndex("0" + s) == Some(n) && LookupIndex("0" + s) == None
  {
    assert ("+" + s)[1..] == s;
    LeadingZero(s);
  }
}
