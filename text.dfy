/**
 * Python string operations the bot relies on, over `string` (a sequence of
 * Unicode code points, like Python's `str`): `strip`, `rstrip(chars)`,
 * `startswith`, `in`, `replace`, `split`/`join`, ASCII `lower`/`upper`,
 * `str(int)` and `int(str)`.
 */
module Text {
  import opened Wrappers

  /** The ASCII whitespace characters removed by `str.strip()` and matched by `\s`. */
  predicate IsSpace(c: char) {
    c == ' ' || c == '\t' || c == '\n' || c == '\r' || c == '\U{000B}' || c == '\U{000C}'
  }

  predicate NoSpaceAtEnds(s: string) {
    s == [] || (!IsSpace(s[0]) && !IsSpace(s[|s| - 1]))
  }

  /** The end of the run of whitespace starting at `k`. */
  function SpaceRunEnd(s: string, k: nat): (e: nat)
    requires k <= |s|
    ensures k <= e <= |s|
    ensures forall i :: k <= i < e ==> IsSpace(s[i])
    ensures e == |s| || !IsSpace(s[e])
    decreases |s| - k
  {
    if k < |s| && IsSpace(s[k]) then SpaceRunEnd(s, k + 1) else k
  }

  /** The start of the run of whitespace ending at `e`, not going below `lo`. */
  function SpaceRunStart(s: string, lo: nat, e: nat): (b: nat)
    requires lo <= e <= |s|
    ensures lo <= b <= e
    ensures forall i :: b <= i < e ==> IsSpace(s[i])
    ensures b == lo || !IsSpace(s[b - 1])
    decreases e - lo
  {
    if lo < e && IsSpace(s[e - 1]) then SpaceRunStart(s, lo, e - 1) else e
  }

  /** `s.strip()`: what is left after removing whitespace at both ends. */
  function Strip(s: string): (r: string)
    ensures NoSpaceAtEnds(r) && |r| <= |s|
  {
    var a := SpaceRunEnd(s, 0);
    s[a..SpaceRunStart(s, a, |s|)]
  }

  /** The result of `strip()` is the infix `s[a..a + |r|]`, and only whitespace lies outside it. */
  lemma StripInfix(s: string) returns (a: nat)
    ensures a + |Strip(s)| <= |s| && Strip(s) == s[a..a + |Strip(s)|]
    ensures forall i :: 0 <= i < a ==> IsSpace(s[i])
    ensures forall i :: a + |Strip(s)| <= i < |s| ==> IsSpace(s[i])
  {
    a := SpaceRunEnd(s, 0);
  }

  /** A string with no whitespace at its ends is left alone by `strip()`. */
  lemma StripNoop(s: string)
    requires NoSpaceAtEnds(s)
    ensures Strip(s) == s
  {
    if s != [] {
      assert SpaceRunEnd(s, 0) == 0;
      assert SpaceRunStart(s, 0, |s|) == |s|;
    }
  }

  /** `strip()` is idempotent. */
  lemma StripIdempotent(s: string)
    ensures Strip(Strip(s)) == Strip(s)
  {
    StripNoop(Strip(s));
  }

  /** `strip()` returns "" exactly when the string is all whitespace. */
  lemma StripEmptyIff(s: string)
    ensures Strip(s) == [] <==> forall i :: 0 <= i < |s| ==> IsSpace(s[i])
  {
    var a := StripInfix(s);
    var r := Strip(s);
    if r != [] {
      assert s[a] == r[0] && !IsSpace(s[a]);
    }
  }

  /** `s.rstrip(chars)`: drop trailing characters that belong to `chars`. */
  function RStripChars(s: string, chars: set<char>): (r: string)
    ensures |r| <= |s| && r == s[..|r|]
    ensures r == [] || r[|r| - 1] !in chars
    ensures forall i :: |r| <= i < |s| ==> s[i] in chars
  {
    if |s| > 0 && s[|s| - 1] in chars then RStripChars(s[..|s| - 1], chars) else s
  }

  /** The punctuation stripped from titles and descriptions: `'.,;:!?-–—'`. */
  const Punct: set<char> := {'.', ',', ';', ':', '!', '?', '-', '–', '—'}

  /** `s.rstrip('.,;:!?-–—').strip()`, used on every title and description. */
  function TrimPunct(s: string): (r: string)
    ensures NoSpaceAtEnds(r)
    ensures |r| <= |s|
  {
    Strip(RStripChars(s, Punct))
  }

  /**
   * Trimming a trimmed string changes it exactly when the trimmed string ends
   * in punctuation, which happens when whitespace separated that punctuation
   * from the end of the original.
   */
  lemma TrimPunctStableIff(s: string)
    ensures var t := TrimPunct(s);
      TrimPunct(t) == t <==> (t == [] || t[|t| - 1] !in Punct)
  {
    var t := TrimPunct(s);
    if t == [] || t[|t| - 1] !in Punct {
      assert RStripChars(t, Punct) == t;
      StripNoop(t);
    } else {
      var u := RStripChars(t, Punct);
      assert |u| < |t|;
      assert |Strip(u)| <= |u|;
    }
  }

  /** The trim is not idempotent: `"abc. "` becomes `"abc."`, which becomes `"abc"`. */
  lemma TrimPunctNotIdempotent()
    ensures TrimPunct("abc. ") == "abc."
    ensures TrimPunct("abc.") == "abc"
  {
    TrimSpaceAfterDot();
    TrimDot();
  }

  lemma TrimSpaceAfterDot()
    ensures TrimPunct("abc. ") == "abc."
  {
    var s := "abc. ";
    assert s[4] !in Punct;
    assert RStripChars(s, Punct) == s;
    assert IsSpace(s[4]) && !IsSpace(s[3]) && s[..4] == "abc.";
    assert SpaceRunEnd(s, 0) == 0;
    assert SpaceRunStart(s, 0, 5) == 4;
  }

  lemma TrimDot()
    ensures TrimPunct("abc.") == "abc"
  {
    var s := "abc.";
    assert s[3] in Punct && s[..3] == "abc";
    var t := "abc";
    assert t[2] !in Punct;
    assert RStripChars(t, Punct) == t;
    assert RStripChars(s, Punct) == t;
    StripNoop(t);
  }

  /** `s.startswith(p)` */
  predicate StartsWith(s: string, p: string) {
    |p| <= |s| && s[..|p|] == p
  }

  /** `s.endswith(p)` */
  predicate EndsWith(s: string, p: string) {
    |p| <= |s| && s[|s| - |p|..] == p
  }

  /** `p in s` */
  predicate Contains(s: string, p: string)
    decreases |s|
  {
    StartsWith(s, p) || (|s| > 0 && Contains(s[1..], p))
  }

  /** `p in x + p` */
  lemma {:induction false} ContainsAfterPrefix(x: string, p: string)
    ensures Contains(x + p, p)
    decreases |x|
  {
    if |x| == 0 {
      assert (x + p)[..|p|] == p;
    } else {
      ContainsAfterPrefix(x[1..], p);
      assert (x + p)[1..] == x[1..] + p;
    }
  }

  /** ASCII `str.lower()` of one character. */
  function LowerChar(c: char): char {
    if 'A' <= c <= 'Z' then (c as int - 'A' as int + 'a' as int) as char else c
  }

  /** ASCII `str.upper()` of one character. */
  function UpperChar(c: char): char {
    if 'a' <= c <= 'z' then (c as int - 'a' as int + 'A' as int) as char else c
  }

  function Lower(s: string): (r: string)
    ensures |r| == |s| && forall i :: 0 <= i < |s| ==> r[i] == LowerChar(s[i])
  {
    seq(|s|, i requires 0 <= i < |s| => LowerChar(s[i]))
  }

  function Upper(s: string): (r: string)
    ensures |r| == |s| && forall i :: 0 <= i < |s| ==> r[i] == UpperChar(s[i])
  {
    seq(|s|, i requires 0 <= i < |s| => UpperChar(s[i]))
  }

  /**
   * `s.replace(p, u)` for a non-empty `p`: occurrences are found left to
   * right and do not overlap.
   */
  function Replace(s: string, p: string, u: string): string
    requires |p| > 0
    decreases |s|
  {
    if |s| < |p| then s
    else if StartsWith(s, p) then u + Replace(s[|p|..], p, u)
    else [s[0]] + Replace(s[1..], p, u)
  }

  /** `s.split(p)` for a non-empty `p`. */
  function SplitOn(s: string, p: string): (r: seq<string>)
    requires |p| > 0
    ensures |r| >= 1
    ensures |r[0]| <= |s| && r[0] == s[..|r[0]|]
    decreases |s|
  {
    if |s| < |p| then [s]
    else if StartsWith(s, p) then [""] + SplitOn(s[|p|..], p)
    else
      var rest := SplitOn(s[1..], p);
      assert [s[0]] + rest[0] == s[..|rest[0]| + 1] by {
        assert rest[0] == s[1..][..|rest[0]|];
      }
      [[s[0]] + rest[0]] + rest[1..]
  }

  /** A string without the separator character splits into itself. */
  lemma {:induction false} SplitWithoutSeparator(a: string, c: char)
    requires forall i :: 0 <= i < |a| ==> a[i] != c
    ensures SplitOn(a, [c]) == [a]
    decreases |a|
  {
    if |a| > 0 {
      SplitWithoutSeparator(a[1..], c);
      assert !StartsWith(a, [c]) by { assert a[..1][0] == a[0]; }
      assert SplitOn(a, [c]) == [[a[0]] + a[1..]] + SplitOn(a[1..], [c])[1..];
      assert [a[0]] + a[1..] == a;
    }
  }

  /** Splitting at the first occurrence of the separator character. */
  lemma {:induction false} SplitAtFirst(a: string, c: char, b: string)
    requires forall i :: 0 <= i < |a| ==> a[i] != c
    ensures SplitOn(a + [c] + b, [c]) == [a] + SplitOn(b, [c])
    decreases |a|
  {
    var s := a + [c] + b;
    if |a| == 0 {
      assert s == [c] + b;
      assert StartsWith(s, [c]);
      assert s[1..] == b;
    } else {
      SplitAtFirst(a[1..], c, b);
      assert !StartsWith(s, [c]) by { assert s[..1][0] == a[0]; }
      assert s[1..] == a[1..] + [c] + b;
      assert [s[0]] + a[1..] == a;
    }
  }

  /** `sep.join(parts)` */
  function JoinWith(parts: seq<string>, sep: string): string {
    if |parts| == 0 then ""
    else if |parts| == 1 then parts[0]
    else parts[0] + sep + JoinWith(parts[1..], sep)
  }

  lemma JoinConsHead(c: char, x: string, xs: seq<string>, sep: string)
    ensures JoinWith([[c] + x] + xs, sep) == [c] + JoinWith([x] + xs, sep)
  {
    assert ([[c] + x] + xs)[1..] == xs;
    assert ([x] + xs)[1..] == xs;
  }

  /**
   * Python's identity `s.replace(p, u) == u.join(s.split(p))`, together with
   * `p.join(s.split(p)) == s`: the replacement puts `u` exactly where the
   * split found the separators.
   */
  lemma {:induction false} ReplaceIsSplitJoin(s: string, p: string, u: string)
    requires |p| > 0
    ensures Replace(s, p, u) == JoinWith(SplitOn(s, p), u)
    ensures JoinWith(SplitOn(s, p), p) == s
    decreases |s|
  {
    if |s| < |p| {
    } else if StartsWith(s, p) {
      ReplaceIsSplitJoin(s[|p|..], p, u);
      var rest := SplitOn(s[|p|..], p);
      assert ([""] + rest)[1..] == rest;
      assert s == p + s[|p|..];
    } else {
      ReplaceIsSplitJoin(s[1..], p, u);
      var rest := SplitOn(s[1..], p);
      assert rest == [rest[0]] + rest[1..];
      JoinConsHead(s[0], rest[0], rest[1..], u);
      JoinConsHead(s[0], rest[0], rest[1..], p);
      assert s == [s[0]] + s[1..];
    }
  }

  /** No piece of `s.split(p)` contains `p`. */
  lemma {:induction false} SplitPiecesFree(s: string, p: string)
    requires |p| > 0
    ensures forall k :: 0 <= k < |SplitOn(s, p)| ==> !Contains(SplitOn(s, p)[k], p)
    decreases |s|
  {
    if |s| < |p| {
      ShortNotContains(s, p);
    } else if StartsWith(s, p) {
      SplitPiecesFree(s[|p|..], p);
      assert !Contains("", p);
    } else {
      SplitPiecesFree(s[1..], p);
      var rest := SplitOn(s[1..], p);
      var head := [s[0]] + rest[0];
      assert !Contains(rest[0], p);
      assert head[1..] == rest[0];
      PrefixOfHead(s, rest[0], p);
    }
  }

  lemma ShortNotContains(s: string, p: string)
    requires |p| > 0 && |s| < |p|
    ensures !Contains(s, p)
    decreases |s|
  {
    if |s| > 0 {
      ShortNotContains(s[1..], p);
    }
  }

  /** A string that does not start with `p` keeps not starting with it when cut short after its first character. */
  lemma PrefixOfHead(s: string, x: string, p: string)
    requires |p| > 0 && |s| >= |p| && !StartsWith(s, p)
    requires |x| < |s| && x == s[1..][..|x|]
    ensures !StartsWith([s[0]] + x, p)
  {
    var h := [s[0]] + x;
    assert h == s[..|h|];
    if |p| <= |h| {
      assert h[..|p|] == s[..|p|];
    }
  }

  /** `replace` leaves a string alone when the pattern's first character never occurs in it. */
  lemma {:induction false} ReplaceAbsent(s: string, p: string, u: string)
    requires |p| > 0
    requires forall i :: 0 <= i < |s| ==> s[i] != p[0]
    ensures Replace(s, p, u) == s
    decreases |s|
  {
    if |s| >= |p| {
      assert s[0] != p[0];
      ReplaceAbsent(s[1..], p, u);
      assert s == [s[0]] + s[1..];
    }
  }

  /** `(p + s).replace(p, u)` is `u + s` when `p`'s first character does not occur in `s`. */
  lemma ReplaceLeadingOccurrence(p: string, s: string, u: string)
    requires |p| > 0
    requires forall i :: 0 <= i < |s| ==> s[i] != p[0]
    ensures Replace(p + s, p, u) == u + s
  {
    assert StartsWith(p + s, p);
    assert (p + s)[|p|..] == s;
    ReplaceAbsent(s, p, u);
  }

  // ---------------------------------------------------------------------
  // Integers: `str(n)` and `int(s)`

  predicate IsDigit(c: char) {
    '0' <= c <= '9'
  }

  function DigitValue(c: char): int
    requires IsDigit(c)
  {
    c as int - '0' as int
  }

  function DigitChar(d: int): (c: char)
    requires 0 <= d < 10
    ensures IsDigit(c) && DigitValue(c) == d
  {
    ('0' as int + d) as char
  }

  /** `str(n)` for a natural number: decimal digits, no leading zero. */
  function NatToString(n: nat): (r: string)
    ensures |r| > 0 && forall i :: 0 <= i < |r| ==> IsDigit(r[i])
  {
    if n < 10 then [DigitChar(n)] else NatToString(n / 10) + [DigitChar(n % 10)]
  }

  /** `str(n)` */
  function IntToString(n: int): (r: string)
    ensures |r| > 0 && NoSpaceAtEnds(r)
    ensures forall i :: 0 <= i < |r| ==> IsDigit(r[i]) || (i == 0 && r[i] == '-')
  {
    if n < 0 then "-" + NatToString(-n) else NatToString(n)
  }

  /**
   * The digit strings `int()` accepts: ASCII digits, where single underscores
   * may separate two digits (`"1_000"`).
   */
  predicate IsDigitString(t: string) {
    |t| > 0 && IsDigit(t[0]) &&
    forall i :: 0 <= i < |t| ==> IsDigit(t[i]) || (t[i] == '_' && i + 1 < |t| && IsDigit(t[i + 1]))
  }

  /** The value of a digit string, underscores ignored. */
  function DigitsValue(t: string): nat {
    if |t| == 0 then 0
    else if IsDigit(t[|t| - 1]) then DigitsValue(t[..|t| - 1]) * 10 + DigitValue(t[|t| - 1])
    else DigitsValue(t[..|t| - 1])
  }

  /** `int(s)`: surrounding whitespace, an optional sign, then digits; `None` stands for `ValueError`. */
  function ParseInt(s: string): Option<int> {
    var t := Strip(s);
    if |t| > 0 && (t[0] == '-' || t[0] == '+') then
      if IsDigitString(t[1..]) then
        var v: int := DigitsValue(t[1..]);
        Some(if t[0] == '-' then -v else v)
      else None
    else if IsDigitString(t) then Some(DigitsValue(t))
    else None
  }

  lemma {:induction false} DigitsOfNat(n: nat)
    ensures DigitsValue(NatToString(n)) == n
  {
    if n >= 10 {
      DigitsOfNat(n / 10);
      var r := NatToString(n);
      assert r[..|r| - 1] == NatToString(n / 10);
    }
  }

  /** `int(str(n)) == n` */
  lemma ParseIntOfIntToString(n: int)
    ensures ParseInt(IntToString(n)) == Some(n)
  {
    var r := IntToString(n);
    StripNoop(r);
    if n < 0 {
      DigitsOfNat(-n);
      assert r[1..] == NatToString(-n);
    } else {
      DigitsOfNat(n);
    }
  }
}
