/** String helpers for the Python string operations the scraper and the
    prompt builder use: `startswith`, `endswith`, `in`, `lower`, `upper`,
    `strip`, `replace`, and the decimal rendering of an `int` in an f-string.
    Case mapping and white space are modelled on ASCII. */
module Strings {

  // ---------------------------------------------------------------------
  // Prefixes, suffixes, substrings
  // ---------------------------------------------------------------------

  predicate StartsWith(s: string, p: string) {
    |p| <= |s| && s[..|p|] == p
  }

  predicate EndsWith(s: string, p: string) {
    |p| <= |s| && s[|s| - |p|..] == p
  }

  /** Python's `p in s` for strings. */
  predicate Contains(s: string, p: string)
    decreases |s|
  {
    StartsWith(s, p) || (|s| > 0 && Contains(s[1..], p))
  }

  /** `Contains` holds exactly when `p` starts at some position of `s`. */
  lemma {:induction false} ContainsAt(s: string, p: string)
    ensures Contains(s, p) <==> exists i :: 0 <= i <= |s| && StartsWith(s[i..], p)
    decreases |s|
  {
    if Contains(s, p) {
      if !StartsWith(s, p) {
        ContainsAt(s[1..], p);
        var i :| 0 <= i <= |s[1..]| && StartsWith(s[1..][i..], p);
        assert s[1..][i..] == s[i + 1..];
      } else {
        assert s[0..] == s;
      }
    }
    if exists i :: 0 <= i <= |s| && StartsWith(s[i..], p) {
      var i :| 0 <= i <= |s| && StartsWith(s[i..], p);
      if i == 0 {
        assert s[0..] == s;
      } else {
        assert s[1..][i - 1..] == s[i..];
        ContainsAt(s[1..], p);
      }
    }
  }

  /** A string containing `p` still does with text added on either side. */
  lemma {:induction false} ContainsExtend(a: string, s: string, b: string, p: string)
    requires Contains(s, p)
    ensures Contains(a + s + b, p)
    decreases |a|, |s|
  {
    if |a| > 0 {
      assert (a + s + b)[1..] == a[1..] + s + b;
      ContainsExtend(a[1..], s, b, p);
    } else if StartsWith(s, p) {
      assert a + s + b == s + b;
      assert (s + b)[..|p|] == s[..|p|];
    } else {
      assert a + s + b == [s[0]] + (s[1..] + b);
      assert (a + s + b)[1..] == s[1..] + b;
      ContainsExtend([], s[1..], b, p);
      assert [] + s[1..] + b == s[1..] + b;
    }
  }

  // ---------------------------------------------------------------------
  // ASCII case mapping and white space
  // ---------------------------------------------------------------------

  function LowerChar(c: char): char {
    if 'A' <= c <= 'Z' then (c as int + 32) as char else c
  }

  function UpperChar(c: char): char {
    if 'a' <= c <= 'z' then (c as int - 32) as char else c
  }

  /** `str.lower()`: same length, every letter lower-cased in place. */
  function Lower(s: string): (r: string)
    ensures |r| == |s|
    ensures forall i :: 0 <= i < |s| ==> r[i] == LowerChar(s[i])
  {
    seq(|s|, i requires 0 <= i < |s| => LowerChar(s[i]))
  }

  /** `str.upper()`: same length, every letter upper-cased in place. */
  function Upper(s: string): (r: string)
    ensures |r| == |s|
    ensures forall i :: 0 <= i < |s| ==> r[i] == UpperChar(s[i])
  {
    seq(|s|, i requires 0 <= i < |s| => UpperChar(s[i]))
  }

  lemma UpperIdempotent(s: string)
    ensures Upper(Upper(s)) == Upper(s)
  {
  }

  lemma LowerIdempotent(s: string)
    ensures Lower(Lower(s)) == Lower(s)
  {
  }

  /** Lower-casing forgets an earlier upper-casing and the other way round,
      and neither leaves a letter of the other case behind. */
  lemma CaseFolding(s: string)
    ensures Lower(Upper(s)) == Lower(s) && Upper(Lower(s)) == Upper(s)
    ensures forall i :: 0 <= i < |s| ==> !('A' <= Lower(s)[i] <= 'Z') && !('a' <= Upper(s)[i] <= 'z')
  {
  }

  /** The characters `str.strip()` removes, restricted to ASCII. */
  predicate IsSpace(c: char) {
    c == ' ' || 9 <= c as int <= 13 || 28 <= c as int <= 31
  }

  function TrimLeft(s: string): (r: string)
    ensures |r| <= |s| && r == s[|s| - |r|..]
    ensures r == [] || !IsSpace(r[0])
    ensures forall i :: 0 <= i < |s| - |r| ==> IsSpace(s[i])
  {
    if s != [] && IsSpace(s[0]) then TrimLeft(s[1..]) else s
  }

  function TrimRight(s: string): (r: string)
    ensures |r| <= |s| && r == s[..|r|]
    ensures r == [] || !IsSpace(r[|r| - 1])
    ensures forall i :: |r| <= i < |s| ==> IsSpace(s[i])
  {
    if s != [] && IsSpace(s[|s| - 1]) then TrimRight(s[..|s| - 1]) else s
  }

  /** `s[i..j]` is what is left once only white space is cut from both ends. */
  predicate SpaceOutside(s: string, i: int, j: int) {
    && 0 <= i <= j <= |s|
    && (forall k :: 0 <= k < i ==> IsSpace(s[k]))
    && (forall k :: j <= k < |s| ==> IsSpace(s[k]))
  }

  /** `str.strip()`: drops leading and trailing white space, nothing else. */
  function Strip(s: string): (r: string)
    ensures r == [] || (!IsSpace(r[0]) && !IsSpace(r[|r| - 1]))
    ensures exists i, j :: SpaceOutside(s, i, j) && r == s[i..j]
  {
    var t := TrimRight(s);
    var r := TrimLeft(t);
    var i, j := |t| - |r|, |t|;
    assert r == s[i..j];
    assert forall k :: 0 <= k < i ==> IsSpace(s[k]) by {
      forall k | 0 <= k < i ensures IsSpace(s[k]) {
        assert t[k] == s[k];
      }
    }
    assert SpaceOutside(s, i, j);
    r
  }

  // ---------------------------------------------------------------------
  // str.replace
  // ---------------------------------------------------------------------

  /** `x.join` around every character: what `s.replace("", x)` returns. */
  function InsertEverywhere(s: string, x: string): string {
    if s == [] then x else x + [s[0]] + InsertEverywhere(s[1..], x)
  }

  /** `s.replace(p, x)`: every occurrence of `p`, found left to right
      without overlap, is replaced by `x`; an empty `p` matches before
      every character and at the end. */
  function ReplaceAll(s: string, p: string, x: string): string
    decreases |s|
  {
    if p == [] then InsertEverywhere(s, x)
    else if |s| < |p| then s
    else if s[..|p|] == p then x + ReplaceAll(s[|p|..], p, x)
    else [s[0]] + ReplaceAll(s[1..], p, x)
  }

  /** Replacing a pattern by itself changes nothing. */
  lemma {:induction false} ReplaceBySelf(s: string, p: string)
    ensures ReplaceAll(s, p, p) == s
    decreases |s|
  {
    if p == [] {
      InsertEmpty(s);
    } else if |s| < |p| {
    } else if s[..|p|] == p {
      ReplaceBySelf(s[|p|..], p);
      assert s == s[..|p|] + s[|p|..];
    } else {
      ReplaceBySelf(s[1..], p);
      assert s == [s[0]] + s[1..];
    }
  }

  lemma {:induction false} InsertEmpty(s: string)
    ensures InsertEverywhere(s, []) == s
  {
    if s != [] {
      InsertEmpty(s[1..]);
      assert s == [s[0]] + s[1..];
    }
  }

  /** A string without the pattern comes back unchanged. */
  lemma {:induction false} ReplaceAbsent(s: string, p: string, x: string)
    requires !Contains(s, p)
    ensures ReplaceAll(s, p, x) == s
    decreases |s|
  {
    if |s| >= |p| {
      assert p != [] && s[..|p|] != p;
      ReplaceAbsent(s[1..], p, x);
      assert s == [s[0]] + s[1..];
    }
  }

  /** Wherever the pattern occurs, the replacement text shows up in the result. */
  lemma {:induction false} ReplacePresent(s: string, p: string, x: string)
    requires Contains(s, p)
    ensures Contains(ReplaceAll(s, p, x), x)
    decreases |s|
  {
    ContainsLength(s, p);
    if p == [] {
      InsertContains(s, x);
    } else if s[..|p|] == p {
      ContainsPrefix(x, ReplaceAll(s[|p|..], p, x));
    } else {
      ReplacePresent(s[1..], p, x);
      ContainsExtend([s[0]], ReplaceAll(s[1..], p, x), [], x);
      assert [s[0]] + ReplaceAll(s[1..], p, x) + [] == ReplaceAll(s, p, x);
    }
  }

  /** A string contains each of its prefixes. */
  lemma ContainsPrefix(x: string, rest: string)
    ensures Contains(x + rest, x)
  {
    assert (x + rest)[..|x|] == x;
  }

  lemma InsertContains(s: string, x: string)
    ensures Contains(InsertEverywhere(s, x), x)
  {
    if s == [] {
      ContainsPrefix(x, []);
      assert x + [] == x;
    } else {
      ContainsPrefix(x, [s[0]] + InsertEverywhere(s[1..], x));
      assert x + ([s[0]] + InsertEverywhere(s[1..], x)) == InsertEverywhere(s, x);
    }
  }

  /** A non-empty pattern fits inside any string that contains it. */
  lemma {:induction false} ContainsLength(s: string, p: string)
    requires Contains(s, p)
    ensures |p| <= |s|
    decreases |s|
  {
    if !StartsWith(s, p) {
      ContainsLength(s[1..], p);
    }
  }

  // ---------------------------------------------------------------------
  // Decimal rendering of a natural number (f"{n}")
  // ---------------------------------------------------------------------

  function Digit(d: nat): (c: char)
    requires d < 10
  {
    ('0' as int + d) as char
  }

  predicate IsDigit(c: char) {
    '0' as int <= c as int <= '9' as int
  }

  function DecimalString(n: nat): (r: string)
    ensures r != [] && forall i :: 0 <= i < |r| ==> IsDigit(r[i])
  {
    if n < 10 then [Digit(n)] else DecimalString(n / 10) + [Digit(n % 10)]
  }

  /** Reads a string of decimal digits back into a number. */
  function ParseDecimal(s: string): nat
    requires forall i :: 0 <= i < |s| ==> IsDigit(s[i])
  {
    if s == [] then 0
    else
      assert IsDigit(s[|s| - 1]);
      ParseDecimal(s[..|s| - 1]) * 10 + (s[|s| - 1] as int - '0' as int)
  }

  /** Parsing undoes rendering. */
  lemma {:induction false} DecimalRoundTrip(n: nat)
    ensures ParseDecimal(DecimalString(n)) == n
  {
    var r := DecimalString(n);
    if n < 10 {
      assert r[..0] == [];
    } else {
      DecimalRoundTrip(n / 10);
      assert r[..|r| - 1] == DecimalString(n / 10);
    }
  }

  /** Distinct numbers render as distinct strings. */
  lemma DecimalInjective(m: nat, n: nat)
    requires DecimalString(m) == DecimalString(n)
    ensures m == n
  {
    DecimalRoundTrip(m);
    DecimalRoundTrip(n);
  }
}
