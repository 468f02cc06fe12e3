/** The slug normaliser and the uniqueness suffix of `make_slug`
    (allura2wpxml.py:69-83). The registry itself, the module-global list
    `_slugs`, lives in RunState.State. */
module Slugs {
  import opened Strings

  /** `\w` of a byte-string pattern in Python 2: [a-zA-Z0-9_]. */
  predicate IsWordChar(c: char) { 'a' <= c <= 'z' || 'A' <= c <= 'Z' || '0' <= c <= '9' || c == '_' }

  /** `\s` of a byte-string pattern, and the characters `str.strip()` removes. */
  predicate IsSpace(c: char)
  {
    c == ' ' || c == '\t' || c == '\n' || c == '\r' || c as int == 11 || c as int == 12
  }

  /** The class `[\s.-]` whose runs become one hyphen. */
  predicate IsSeparator(c: char) { IsSpace(c) || c == '.' || c == '-' }

  /** The character sets handed to `strip`, and the separator class of the collapse step. */
  datatype CharClass = Whitespace | Hyphen | Separators

  predicate InClass(c: char, cls: CharClass)
  {
    match cls
    case Whitespace => IsSpace(c)
    case Hyphen => c == '-'
    case Separators => IsSeparator(c)
  }

  /** A character a finished slug may contain: lower-case `\w` or '-'. */
  predicate IsSlugChar(c: char) { 'a' <= c <= 'z' || '0' <= c <= '9' || c == '_' || c == '-' }

  predicate AllSlugChars(s: string) { forall i :: 0 <= i < |s| ==> IsSlugChar(s[i]) }

  predicate NoDoubleHyphen(s: string) { forall i :: 0 < i < |s| ==> !(s[i - 1] == '-' && s[i] == '-') }

  /** A well-formed slug: lower case, only word characters and single
      hyphens, no hyphen at either end. */
  predicate IsSlug(s: string)
  {
    && AllSlugChars(s)
    && NoDoubleHyphen(s)
    && (s != [] ==> s[0] != '-' && s[|s| - 1] != '-')
  }

  // ------------------------------------------------------ the normaliser steps

  /** `re.sub(r'[^\w\s.-]', '', s)`. Non-ASCII characters are dropped here too,
      as the ASCII encode step with 'ignore' does. */
  function KeepSlugChars(s: string): string
  {
    if s == [] then []
    else (if IsWordChar(s[0]) || IsSeparator(s[0]) then [s[0]] else []) + KeepSlugChars(s[1..])
  }

  /** Only word characters and separators remain after the filter. */
  lemma {:induction false} KeepSlugCharsClass(s: string)
    ensures WordOrSeparators(KeepSlugChars(s))
  {
    if s != [] {
      KeepSlugCharsClass(s[1..]);
    }
  }

  /** Every word or separator character survives the filter as often as
      it occurred; every other character is dropped. */
  lemma {:induction false} KeepSlugCharsCounts(s: string, c: char)
    ensures IsWordChar(c) || IsSeparator(c) ==> multiset(KeepSlugChars(s))[c] == multiset(s)[c]
    ensures !(IsWordChar(c) || IsSeparator(c)) ==> multiset(KeepSlugChars(s))[c] == 0
  {
    if s != [] {
      KeepSlugCharsCounts(s[1..], c);
      assert s == [s[0]] + s[1..];
    }
  }

  /** The filter works character by character, so the kept characters keep their order. */
  lemma {:induction false} KeepSlugCharsConcat(a: string, b: string)
    ensures KeepSlugChars(a + b) == KeepSlugChars(a) + KeepSlugChars(b)
  {
    if a != [] {
      assert (a + b)[0] == a[0] && (a + b)[1..] == a[1..] + b;
      KeepSlugCharsConcat(a[1..], b);
    } else {
      assert a + b == b;
    }
  }

  /** The leading half of Python's `str.strip(chars)`. */
  function LStrip(s: string, drop: CharClass): (r: string)
    ensures |r| <= |s|
    ensures r == [] || !InClass(r[0], drop)
  {
    if s != [] && InClass(s[0], drop) then LStrip(s[1..], drop) else s
  }

  /** What the leading strip keeps is a suffix of its input. */
  lemma {:induction false} LStripSuffix(s: string, drop: CharClass)
    ensures LStrip(s, drop) == s[|s| - |LStrip(s, drop)|..]
  {
    if s != [] && InClass(s[0], drop) {
      LStripSuffix(s[1..], drop);
    }
  }

  /** The trailing half of Python's `str.strip(chars)`. */
  function RStrip(s: string, drop: CharClass): (r: string)
    ensures |r| <= |s|
    ensures r == [] || !InClass(r[|r| - 1], drop)
  {
    if s != [] && InClass(s[|s| - 1], drop) then RStrip(s[..|s| - 1], drop) else s
  }

  /** What the trailing strip keeps is a prefix of its input. */
  lemma {:induction false} RStripPrefix(s: string, drop: CharClass)
    ensures RStrip(s, drop) == s[..|RStrip(s, drop)|]
  {
    if s != [] && InClass(s[|s| - 1], drop) {
      RStripPrefix(s[..|s| - 1], drop);
    }
  }

  /** Python's `str.strip(chars)`: neither end of the result is in the
      stripped class. */
  function Strip(s: string, drop: CharClass): (r: string)
    ensures |r| <= |s|
    ensures r == [] || (!InClass(r[0], drop) && !InClass(r[|r| - 1], drop))
  {
    RStripPrefix(LStrip(s, drop), drop);
    RStrip(LStrip(s, drop), drop)
  }

  /** What Strip keeps is a slice of its input, starting after the
      characters LStrip removed. */
  lemma StripAt(s: string, drop: CharClass, i: nat)
    requires i < |Strip(s, drop)|
    ensures var k := |s| - |LStrip(s, drop)|; k + i < |s| && Strip(s, drop)[i] == s[k + i]
  {
    var l := LStrip(s, drop);
    LStripSuffix(s, drop);
    RStripPrefix(l, drop);
    assert Strip(s, drop)[i] == l[..|Strip(s, drop)|][i] == l[i];
    assert l[i] == s[|s| - |l|..][i] == s[|s| - |l| + i];
  }

  /** Everything the leading strip removes is in the stripped class. */
  lemma {:induction false} LStripRemoved(s: string, drop: CharClass)
    ensures forall i :: 0 <= i < |s| - |LStrip(s, drop)| ==> InClass(s[i], drop)
  {
    if s != [] && InClass(s[0], drop) {
      LStripRemoved(s[1..], drop);
      forall i | 1 <= i < |s| - |LStrip(s, drop)|
        ensures InClass(s[i], drop)
      {
        assert s[1..][i - 1] == s[i];
      }
    }
  }

  /** Everything the trailing strip removes is in the stripped class. */
  lemma {:induction false} RStripRemoved(s: string, drop: CharClass)
    ensures forall i :: |RStrip(s, drop)| <= i < |s| ==> InClass(s[i], drop)
  {
    if s != [] && InClass(s[|s| - 1], drop) {
      RStripRemoved(s[..|s| - 1], drop);
      forall i | |RStrip(s, drop)| <= i < |s| - 1
        ensures InClass(s[i], drop)
      {
        assert s[..|s| - 1][i] == s[i];
      }
    }
  }

  /** `strip` removes a run of class characters from each end and nothing
      else: with the kept slice starting at `k` (StripAt), every character
      before it or after it is in the class. */
  lemma StripRemoved(s: string, drop: CharClass)
    ensures var k, n := |s| - |LStrip(s, drop)|, |Strip(s, drop)|;
      && k + n <= |s|
      && (forall i :: 0 <= i < k ==> InClass(s[i], drop))
      && (forall i :: k + n <= i < |s| ==> InClass(s[i], drop))
  {
    var l := LStrip(s, drop);
    var k, n := |s| - |l|, |RStrip(l, drop)|;
    LStripRemoved(s, drop);
    RStripRemoved(l, drop);
    LStripSuffix(s, drop);
    forall i | k + n <= i < |s|
      ensures InClass(s[i], drop)
    {
      assert l[i - k] == s[i];
    }
  }

  lemma StripKeepsUnstripped(s: string, drop: CharClass)
    requires s == [] || (!InClass(s[0], drop) && !InClass(s[|s| - 1], drop))
    ensures Strip(s, drop) == s
  {
  }

  function LowerChar(c: char): char
  {
    if 'A' <= c <= 'Z' then (c as int + 32) as char else c
  }

  /** `str.lower()` on ASCII text. */
  function Lower(s: string): (r: string)
    ensures |r| == |s| && forall i :: 0 <= i < |s| ==> r[i] == LowerChar(s[i])
  {
    if s == [] then [] else [LowerChar(s[0])] + Lower(s[1..])
  }

  /** `re.sub(r'[\s.-]+', '-', s)`: every maximal run of separators becomes one hyphen. */
  function Collapse(s: string): (r: string)
    decreases |s|
  {
    if s == [] then []
    else if IsSeparator(s[0]) then "-" + Collapse(LStrip(s[1..], Separators))
    else [s[0]] + Collapse(s[1..])
  }

  /** The base slug of `make_slug` (lines 70-74). */
  function Normalize(title: string): string
  {
    Strip(Collapse(Lower(Strip(KeepSlugChars(title), Whitespace))), Hyphen)
  }

  // ------------------------------------------------- what the normaliser makes

  predicate LowerWordOrSeparators(s: string)
  {
    forall i :: 0 <= i < |s| ==> ('a' <= s[i] <= 'z' || '0' <= s[i] <= '9' || s[i] == '_' || IsSeparator(s[i]))
  }

  lemma LStripShape(t: string)
    requires LowerWordOrSeparators(t)
    ensures LowerWordOrSeparators(LStrip(t, Separators))
  {
    LStripSuffix(t, Separators);
  }

  lemma {:induction false} CollapseShape(s: string)
    requires LowerWordOrSeparators(s)
    ensures AllSlugChars(Collapse(s)) && NoDoubleHyphen(Collapse(s))
    ensures s != [] && !IsSeparator(s[0]) ==> Collapse(s) != [] && Collapse(s)[0] == s[0]
    decreases |s|
  {
    if s != [] {
      if IsSeparator(s[0]) {
        var rest := LStrip(s[1..], Separators);
        LStripShape(s[1..]);
        CollapseShape(rest);
        var c := Collapse(rest);
        assert Collapse(s) == "-" + c;
        assert c != [] ==> c[0] != '-';
      } else {
        CollapseShape(s[1..]);
        assert Collapse(s) == [s[0]] + Collapse(s[1..]);
      }
    }
  }

  predicate WordOrSeparators(s: string)
  {
    forall i :: 0 <= i < |s| ==> IsWordChar(s[i]) || IsSeparator(s[i])
  }

  lemma StripSpaceShape(a: string)
    requires WordOrSeparators(a)
    ensures WordOrSeparators(Strip(a, Whitespace))
  {
    forall i | 0 <= i < |Strip(a, Whitespace)|
      ensures IsWordChar(Strip(a, Whitespace)[i]) || IsSeparator(Strip(a, Whitespace)[i])
    {
      StripAt(a, Whitespace, i);
    }
  }

  lemma LowerShape(b: string)
    requires WordOrSeparators(b)
    ensures LowerWordOrSeparators(Lower(b))
  {
  }

  lemma StripHyphenShape(d: string)
    requires AllSlugChars(d) && NoDoubleHyphen(d)
    ensures IsSlug(Strip(d, Hyphen))
  {
    var e, k := Strip(d, Hyphen), |d| - |LStrip(d, Hyphen)|;
    forall i | 0 <= i < |e|
      ensures IsSlugChar(e[i])
    {
      StripAt(d, Hyphen, i);
    }
    forall i | 0 < i < |e|
      ensures !(e[i - 1] == '-' && e[i] == '-')
    {
      StripAt(d, Hyphen, i - 1);
      StripAt(d, Hyphen, i);
      assert d[k + i - 1] == d[(k + i) - 1];
    }
  }

  /** For any title, the normalised base is a well-formed slug. */
  lemma NormalizeIsSlug(title: string)
    ensures IsSlug(Normalize(title))
  {
    var a := KeepSlugChars(title);
    KeepSlugCharsClass(title);
    StripSpaceShape(a);
    var b := Strip(a, Whitespace);
    LowerShape(b);
    var c := Lower(b);
    CollapseShape(c);
    StripHyphenShape(Collapse(c));
  }

  lemma {:induction false} KeepSlugCharsKeepsSlugs(s: string)
    requires AllSlugChars(s)
    ensures KeepSlugChars(s) == s
  {
    if s != [] {
      KeepSlugCharsKeepsSlugs(s[1..]);
    }
  }

  lemma {:induction false} CollapseKeepsSlugs(s: string)
    requires AllSlugChars(s) && NoDoubleHyphen(s)
    ensures Collapse(s) == s
  {
    if s != [] {
      CollapseKeepsSlugs(s[1..]);
      if IsSeparator(s[0]) {
        assert |s| > 1 ==> s[1] != '-';
        assert LStrip(s[1..], Separators) == s[1..];
      }
    }
  }

  lemma LowerKeepsSlugs(s: string)
    requires AllSlugChars(s)
    ensures Lower(s) == s
  {
  }

  /** A well-formed slug is its own base: the normaliser leaves it alone. */
  lemma NormalizeKeepsSlugs(s: string)
    requires IsSlug(s)
    ensures Normalize(s) == s
  {
    KeepSlugCharsKeepsSlugs(s);
    StripKeepsUnstripped(s, Whitespace);
    LowerKeepsSlugs(s);
    CollapseKeepsSlugs(s);
    StripKeepsUnstripped(s, Hyphen);
  }

  /** Hence normalising twice is normalising once. */
  lemma NormalizeIdempotent(title: string)
    ensures Normalize(Normalize(title)) == Normalize(title)
  {
    NormalizeIsSlug(title);
    NormalizeKeepsSlugs(Normalize(title));
  }

  // --------------------------------------------------------- uniqueness suffix

  /** The slug tried at round `num` of the while loop: the base itself, then
      `base + '-%i' % num` for num = 2, 3, .... */
  function Candidate(base: string, num: nat): string
    requires num >= 1
  {
    if num == 1 then base else base + "-" + Decimal(num)
  }

  lemma CandidateInjective(base: string, j: nat, k: nat)
    requires j >= 1 && k >= 1 && Candidate(base, j) == Candidate(base, k)
    ensures j == k
  {
    if j > 1 && k > 1 {
      var n := |base| + 1;
      assert Candidate(base, j)[n..] == Decimal(j);
      assert Candidate(base, k)[n..] == Decimal(k);
      DecimalInjective(j, k);
    }
  }

  /** A suffixed slug of a non-empty slug is still a slug. */
  lemma SuffixedIsSlug(base: string, num: nat)
    requires IsSlug(base) && base != [] && num >= 2
    ensures IsSlug(Candidate(base, num))
  {
    var d := Decimal(num);
    var s := base + "-" + d;
    assert forall i :: 0 <= i < |base| ==> s[i] == base[i];
    assert s[|base|] == '-';
    assert forall i :: |base| < i < |s| ==> s[i] == d[i - |base| - 1] && IsDigit(s[i]);
  }

  lemma SubsetCardinality<T>(a: set<T>, b: set<T>)
    requires a <= b
    ensures |a| <= |b|
    decreases a
  {
    if a != {} {
      var x :| x in a;
      SubsetCardinality(a - {x}, b - {x});
    }
  }

  /** Every candidate of a round before `num` is in `taken`, stated one
      round at a time. */
  predicate TakenBelow(base: string, taken: seq<string>, num: nat)
  {
    num <= 1 || (Candidate(base, num - 1) in taken && TakenBelow(base, taken, num - 1))
  }

  lemma {:induction false} TakenBelowAll(base: string, taken: seq<string>, num: nat)
    ensures TakenBelow(base, taken, num) <==> forall j :: 1 <= j < num ==> Candidate(base, j) in taken
  {
    if num > 1 {
      TakenBelowAll(base, taken, num - 1);
    }
  }

  /** The while loop of `make_slug`: the first candidate not already taken. */
  method FreeSlug(base: string, taken: seq<string>) returns (slug: string, num: nat)
    ensures num >= 1 && slug == Candidate(base, num)
    ensures slug !in taken
    ensures forall j :: 1 <= j < num ==> Candidate(base, j) in taken
  {
    slug := base;
    num := 1;
    ghost var universe := set x | x in taken;
    ghost var tried: set<string> := {};
    while slug in taken
      invariant num >= 1 && slug == Candidate(base, num)
      invariant forall j :: 1 <= j < num ==> Candidate(base, j) in taken
      invariant tried <= universe && |tried| == num - 1
      invariant TriedCandidates(base, tried, num)
      decreases |universe| - |tried|
    {
      TryNext(base, taken, universe, tried, num);
      tried := tried + {slug};
      num := num + 1;
      slug := base + "-" + Decimal(num);
    }
  }

  /** Every slug in `tried` is one of the candidates before round `num`. */
  predicate TriedCandidates(base: string, tried: set<string>, num: nat)
  {
    forall x :: x in tried ==> exists j :: 1 <= j < num && x == Candidate(base, j)
  }

  /** One taken candidate more: the tried set grows by one new element and
      stays inside the taken slugs, so the loop of FreeSlug ends. */
  lemma TryNext(base: string, taken: seq<string>, universe: set<string>, tried: set<string>, num: nat)
    requires num >= 1 && universe == set x | x in taken
    requires Candidate(base, num) in taken
    requires tried <= universe && |tried| == num - 1
    requires TriedCandidates(base, tried, num)
    ensures var next := tried + {Candidate(base, num)}; next <= universe && |next| == num && |next| <= |universe|
    ensures TriedCandidates(base, tried + {Candidate(base, num)}, num + 1)
  {
    var slug := Candidate(base, num);
    assert slug !in tried by {
      if slug in tried {
        var j :| 1 <= j < num && slug == Candidate(base, j);
        CandidateInjective(base, j, num);
      }
    }
    SubsetCardinality(tried + {slug}, universe);
  }
}
