/** String helpers used throughout allura2wpxml.py: Python's integer
    formatting ('%i' and '%s' of an int), cgi.escape, the control-character
    filter applied to item content, and `split('.')[0]`. */
module Strings {

  predicate IsDigit(c: char) { '0' <= c <= '9' }

  predicate AllDigits(s: string) { forall i :: 0 <= i < |s| ==> IsDigit(s[i]) }

  function Digit(d: nat): (c: char)
    requires d < 10
    ensures IsDigit(c) && c as int - '0' as int == d
  {
    (48 + d) as char
  }

  /** Python's `'%i' % n` for a non-negative n: decimal digits, no leading zeros. */
  function Decimal(n: nat): (s: string)
    ensures |s| >= 1 && AllDigits(s)
    ensures n < 10 <==> |s| == 1
  {
    if n < 10 then [Digit(n)] else Decimal(n / 10) + [Digit(n % 10)]
  }

  /** The value a string of decimal digits denotes (an independent reading of Decimal). */
  function DecimalValue(s: string): nat
    requires AllDigits(s)
  {
    if s == [] then 0 else DecimalValue(s[..|s| - 1]) * 10 + (s[|s| - 1] as int - '0' as int)
  }

  lemma {:induction false} DecimalRoundTrip(n: nat)
    ensures DecimalValue(Decimal(n)) == n
  {
    if n >= 10 {
      DecimalRoundTrip(n / 10);
      var s := Decimal(n / 10) + [Digit(n % 10)];
      assert s[..|s| - 1] == Decimal(n / 10);
    }
  }

  /** Two numbers print the same only if they are equal. */
  lemma DecimalInjective(m: nat, n: nat)
    requires Decimal(m) == Decimal(n)
    ensures m == n
  {
    DecimalRoundTrip(m);
    DecimalRoundTrip(n);
  }

  /** `'%s' % i` / `unicode(i)` for any Python int. */
  function IntToString(i: int): (s: string)
  {
    if i < 0 then "-" + Decimal(-i) else Decimal(i)
  }

  lemma IntToStringInjective(i: int, j: int)
    requires IntToString(i) == IntToString(j)
    ensures i == j
  {
    assert IntToString(i)[0] == '-' <==> i < 0;
    assert IntToString(j)[0] == '-' <==> j < 0;
    if i < 0 {
      assert IntToString(i)[1..] == Decimal(-i);
      assert IntToString(j)[1..] == Decimal(-j);
      DecimalInjective(-i, -j);
    } else {
      DecimalInjective(i, j);
    }
  }

  // ---------------------------------------------------------------- cgi.escape

  /** cgi.escape without quote=True: only '&', '<' and '>' are replaced. */
  function EscapeChar(c: char): string
  {
    if c == '&' then "&amp;" else if c == '<' then "&lt;" else if c == '>' then "&gt;" else [c]
  }

  function Escape(s: string): (r: string)
    ensures |r| >= |s|
  {
    if s == [] then [] else EscapeChar(s[0]) + Escape(s[1..])
  }

  /** Escaped text holds no angle bracket, so it cannot open or close a tag. */
  lemma {:induction false} EscapeNoBrackets(s: string)
    ensures forall i :: 0 <= i < |Escape(s)| ==> Escape(s)[i] != '<' && Escape(s)[i] != '>'
  {
    if s != [] {
      EscapeNoBrackets(s[1..]);
      var e, rest := EscapeChar(s[0]), Escape(s[1..]);
      assert Escape(s) == e + rest;
      forall i | 0 <= i < |e + rest|
        ensures (e + rest)[i] != '<' && (e + rest)[i] != '>'
      {
        if i >= |e| {
          assert (e + rest)[i] == rest[i - |e|];
        }
      }
    }
  }

  /** The inverse reading of Escape's three entities. */
  function Unescape(s: string): string
    decreases |s|
  {
    if s == [] then []
    else if |s| >= 5 && s[..5] == "&amp;" then "&" + Unescape(s[5..])
    else if |s| >= 4 && s[..4] == "&lt;" then "<" + Unescape(s[4..])
    else if |s| >= 4 && s[..4] == "&gt;" then ">" + Unescape(s[4..])
    else [s[0]] + Unescape(s[1..])
  }

  /** Unescape reads back one escaped character and goes on with the rest. */
  lemma UnescapeChar(c: char, rest: string)
    ensures Unescape(EscapeChar(c) + rest) == [c] + Unescape(rest)
  {
    if c == '&' {
      UnescapeAmp(rest);
    } else if c == '<' || c == '>' {
      UnescapeAngle(c, rest);
    } else {
      var r := [c] + rest;
      assert r[0] == c && r[1..] == rest;
    }
  }

  lemma UnescapeAmp(rest: string)
    ensures Unescape("&amp;" + rest) == "&" + Unescape(rest)
  {
    var r := "&amp;" + rest;
    assert r[..5] == "&amp;" && r[5..] == rest;
  }

  lemma UnescapeAngle(c: char, rest: string)
    requires c == '<' || c == '>'
    ensures Unescape(EscapeChar(c) + rest) == [c] + Unescape(rest)
  {
    var r := EscapeChar(c) + rest;
    assert r[..4] == EscapeChar(c) && r[4..] == rest;
    assert r[1] == (if c == '<' then 'l' else 'g');
  }

  lemma {:induction false} UnescapeEscape(s: string)
    ensures Unescape(Escape(s)) == s
  {
    if s != [] {
      UnescapeEscape(s[1..]);
      assert Escape(s) == EscapeChar(s[0]) + Escape(s[1..]);
      UnescapeChar(s[0], Escape(s[1..]));
      assert [s[0]] + s[1..] == s;
    }
  }

  /** Escaping is injective: distinct titles stay distinct. */
  lemma EscapeInjective(s: string, t: string)
    requires Escape(s) == Escape(t)
    ensures s == t
  {
    UnescapeEscape(s);
    UnescapeEscape(t);
  }

  // ------------------------------------------------- control-character filter

  /** The class [\x00-\x08\x0b\x0c\x0e-\x1f]: C0 controls except tab, LF and CR. */
  predicate IsControl(c: char)
  {
    var n := c as int;
    n <= 8 || n == 11 || n == 12 || (14 <= n <= 31)
  }

  predicate Clean(s: string) { forall i :: 0 <= i < |s| ==> !IsControl(s[i]) }

  /** `re.sub(r'[\x00-\x08\x0b\x0c\x0e-\x1f]+', '', content)`. */
  function StripControl(s: string): (r: string)
    ensures |r| <= |s|
  {
    if s == [] then []
    else (if IsControl(s[0]) then [] else [s[0]]) + StripControl(s[1..])
  }

  /** No control character of the class survives the filter. */
  lemma {:induction false} StripControlClean(s: string)
    ensures Clean(StripControl(s))
  {
    if s != [] {
      StripControlClean(s[1..]);
      var head, rest := (if IsControl(s[0]) then [] else [s[0]]), StripControl(s[1..]);
      assert StripControl(s) == head + rest;
      forall i | 0 <= i < |head + rest|
        ensures !IsControl((head + rest)[i])
      {
        if i >= |head| {
          assert (head + rest)[i] == rest[i - |head|];
        }
      }
    }
  }

  lemma {:induction false} StripControlKeepsClean(s: string)
    requires Clean(s)
    ensures StripControl(s) == s
  {
    if s != [] {
      StripControlKeepsClean(s[1..]);
    }
  }

  /** Stripping twice is stripping once. */
  lemma StripControlIdempotent(s: string)
    ensures StripControl(StripControl(s)) == StripControl(s)
  {
    StripControlClean(s);
    StripControlKeepsClean(StripControl(s));
  }

  /** The filter works character by character, so order is kept. */
  lemma {:induction false} StripControlConcat(a: string, b: string)
    ensures StripControl(a + b) == StripControl(a) + StripControl(b)
  {
    if a != [] {
      assert (a + b)[0] == a[0] && (a + b)[1..] == a[1..] + b;
      StripControlConcat(a[1..], b);
    } else {
      assert a + b == b;
    }
  }

  /** Every character other than the stripped controls (tab, LF and CR
      included) survives as often as it occurred. */
  lemma {:induction false} StripControlCounts(s: string, c: char)
    ensures IsControl(c) ==> multiset(StripControl(s))[c] == 0
    ensures !IsControl(c) ==> multiset(StripControl(s))[c] == multiset(s)[c]
  {
    if s != [] {
      StripControlCounts(s[1..], c);
      assert s == [s[0]] + s[1..];
    }
  }

  // ------------------------------------------------------------ split('.')[0]

  /** `s.split('.')[0]`: everything before the first '.'. */
  function BeforeDot(s: string): (r: string)
    ensures |r| <= |s| && r == s[..|r|]
    ensures forall i :: 0 <= i < |r| ==> r[i] != '.'
    ensures |r| < |s| ==> s[|r|] == '.'
  {
    if s == [] || s[0] == '.' then [] else [s[0]] + BeforeDot(s[1..])
  }
}
