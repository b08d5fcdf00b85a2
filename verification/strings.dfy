/**
 * The Python string operations the scraper relies on: `str.strip`, `str.find`
 * and `in`, `str.startswith`, `"{}".format(n)` for integers and `int(s)`.
 */
module Strings {
  import opened Wrappers

  /** Python's `str.isspace()` on one character: the ASCII cases first. */
  predicate IsSpace(c: char) {
    if c < '\U{80}' then
      c == ' ' || '\t' <= c <= '\r' || '\U{1C}' <= c <= '\U{1F}'
    else
      IsWideSpace(c)
  }

  /** The whitespace characters outside ASCII. */
  predicate IsWideSpace(c: char) {
    || c == '\U{85}' || c == '\U{A0}' || c == '\U{1680}'
    || '\U{2000}' <= c <= '\U{200A}'
    || c == '\U{2028}' || c == '\U{2029}' || c == '\U{202F}' || c == '\U{205F}' || c == '\U{3000}'
  }

  predicate AllSpace(s: string) {
    forall k :: 0 <= k < |s| ==> IsSpace(s[k])
  }

  /** A slice of a prefix is the same slice of the whole. */
  lemma SliceOfPrefix<T>(s: seq<T>, n: nat, i: nat, j: nat)
    requires i <= j <= n <= |s|
    ensures s[..n][i..j] == s[i..j]
  {
  }

  /** Neither end is whitespace: the shape of every result of `str.strip()`. */
  predicate Stripped(s: string) {
    |s| == 0 || (!IsSpace(s[0]) && !IsSpace(s[|s| - 1]))
  }

  /** A whitespace head followed by `k` whitespace characters of the tail. */
  lemma SpaceThenSpaces(s: string, k: nat)
    requires |s| > 0 && IsSpace(s[0]) && k < |s|
    requires AllSpace(s[1..][..k])
    ensures AllSpace(s[..k + 1])
  {
    assert s[..k + 1] == [s[0]] + s[1..][..k];
  }

  /** Whitespace from index `k` of all but the last character, then a whitespace last character. */
  lemma SpacesThenSpace(s: string, k: nat)
    requires |s| > 0 && IsSpace(s[|s| - 1]) && k < |s|
    requires AllSpace(s[..|s| - 1][k..])
    ensures AllSpace(s[k..])
  {
    assert s[k..] == s[..|s| - 1][k..] + [s[|s| - 1]];
  }

  /** The number of whitespace characters at the front of `s`. */
  function LeadingSpaces(s: string): (n: nat)
    ensures n <= |s| && AllSpace(s[..n])
    ensures n == |s| || !IsSpace(s[n])
  {
    if |s| > 0 && IsSpace(s[0]) then
      var m := LeadingSpaces(s[1..]);
      SpaceThenSpaces(s, m);
      m + 1
    else
      0
  }

  /** Where the whitespace at the end of `s` begins. */
  function TrailingStart(s: string): (n: nat)
    ensures n <= |s| && AllSpace(s[n..])
    ensures n == 0 || !IsSpace(s[n - 1])
  {
    if |s| > 0 && IsSpace(s[|s| - 1]) then
      var m := TrailingStart(s[..|s| - 1]);
      SpacesThenSpace(s, m);
      m
    else
      |s|
  }

  /** Python's `str.lstrip()`: the longest suffix not starting with whitespace. */
  function LStrip(s: string): (r: string)
    ensures |r| <= |s| && r == s[|s| - |r|..]
    ensures AllSpace(s[..|s| - |r|])
    ensures |r| == 0 || !IsSpace(r[0])
  {
    s[LeadingSpaces(s)..]
  }

  /** Python's `str.rstrip()`: the longest prefix not ending with whitespace. */
  function RStrip(s: string): (r: string)
    ensures |r| <= |s| && r == s[..|r|]
    ensures AllSpace(s[|r|..])
    ensures |r| == 0 || !IsSpace(r[|r| - 1])
  {
    s[..TrailingStart(s)]
  }

  /** Python's `str.strip()`. */
  function Strip(s: string): (r: string)
    ensures Stripped(r) && |r| <= |s|
  {
    RStrip(LStrip(s))
  }

  /**
   * What `Strip` removes is whitespace only: its result is the slice
   * `s[i..i + |Strip(s)|]`, flanked on both sides by whitespace.
   */
  lemma StripSlice(s: string) returns (i: nat)
    ensures i + |Strip(s)| <= |s| && Strip(s) == s[i..i + |Strip(s)|]
    ensures AllSpace(s[..i]) && AllSpace(s[i + |Strip(s)|..])
  {
    var l := LStrip(s);
    var r := RStrip(l);
    i := |s| - |l|;
    FlankedSlice(s, l, r, i);
  }

  /** A suffix `l` of `s` and a prefix `r` of `l`, cut off by whitespace, are a slice of `s` between whitespace. */
  lemma FlankedSlice(s: string, l: string, r: string, i: nat)
    requires i <= |s| && l == s[i..] && AllSpace(s[..i])
    requires |r| <= |l| && r == l[..|r|] && AllSpace(l[|r|..])
    ensures i + |r| <= |s| && r == s[i..i + |r|]
    ensures AllSpace(s[i + |r|..])
  {
    assert s[i + |r|..] == l[|r|..];
  }

  /** Stripping a prefix of `s` also gives a slice of `s` itself. */
  lemma StripPrefixSlice(s: string, n: nat) returns (i: nat)
    requires n <= |s|
    ensures i + |Strip(s[..n])| <= n && Strip(s[..n]) == s[i..i + |Strip(s[..n])|]
  {
    var u := s[..n];
    i := StripSlice(u);
    SliceOfPrefix(s, n, i, i + |Strip(u)|);
  }

  /** A string that is already stripped is left alone by `Strip`. */
  lemma StripKeepsStripped(s: string)
    requires Stripped(s)
    ensures Strip(s) == s
  {
  }

  /** `s` occurs in `t` at index `i`. */
  predicate OccursAt(s: string, t: string, i: int) {
    0 <= i && i + |t| <= |s| && s[i..i + |t|] == t
  }

  /** Python's `t in s` for strings. */
  predicate Contains(s: string, t: string) {
    exists i :: 0 <= i <= |s| - |t| && OccursAt(s, t, i)
  }

  /** Python's `str.startswith`. */
  predicate StartsWith(s: string, prefix: string) {
    |prefix| <= |s| && s[..|prefix|] == prefix
  }

  /** The scan behind `s.find(t, i)`. */
  function FindFrom(s: string, t: string, i: nat): (r: int)
    requires i <= |s|
    ensures r == -1 || (i <= r && OccursAt(s, t, r))
    ensures forall k :: i <= k && (r == -1 || k < r) ==> !OccursAt(s, t, k)
    decreases |s| - i
  {
    if i + |t| > |s| then -1
    else if s[i..i + |t|] == t then i
    else FindFrom(s, t, i + 1)
  }

  /** Python's `s.find(t)`: the lowest index at which `t` occurs, or -1 when it does not occur. */
  function Find(s: string, t: string): (r: int)
    ensures r == -1 <==> !Contains(s, t)
    ensures r != -1 ==> OccursAt(s, t, r) && forall k :: 0 <= k < r ==> !OccursAt(s, t, k)
  {
    FindFrom(s, t, 0)
  }

  predicate IsDigit(c: char) {
    '0' <= c <= '9'
  }

  predicate AllDigits(s: string) {
    forall k :: 0 <= k < |s| ==> IsDigit(s[k])
  }

  function DigitChar(d: nat): (c: char)
    requires d < 10
    ensures IsDigit(c) && c as int - '0' as int == d
  {
    ('0' as int + d) as char
  }

  /**
   * Python's `str(n)` (and `"{}".format(n)`) for an integer: a `-` for a
   * negative number, then the decimal digits, most significant first,
   * without leading zeros.
   */
  function IntToString(n: int): (r: string)
    ensures |r| > 0
    ensures n >= 0 ==> AllDigits(r)
    decreases if n < 0 then 1 - n else n
  {
    if n < 0 then "-" + IntToString(-n)
    else if n < 10 then [DigitChar(n)]
    else IntToString(n / 10) + [DigitChar(n % 10)]
  }

  /** The number a string of decimal digits denotes (leading zeros allowed). */
  function DigitsValue(s: string): nat
    requires AllDigits(s)
  {
    if |s| == 0 then 0 else DigitsValue(s[..|s| - 1]) * 10 + (s[|s| - 1] as int - '0' as int)
  }

  /**
   * Python's `int(s)` on a string: an optional sign followed by ASCII digits.
   * `None` stands for the `ValueError` that `int` raises on anything else.
   */
  function ParseInt(s: string): Option<int> {
    if |s| > 0 && (s[0] == '-' || s[0] == '+') then
      if |s| > 1 && AllDigits(s[1..]) then
        var v: int := DigitsValue(s[1..]);
        Some(if s[0] == '-' then -v else v)
      else
        None
    else if |s| > 0 && AllDigits(s) then
      Some(DigitsValue(s))
    else
      None
  }

  /** The digits of a non-negative number read back as that number. */
  lemma {:induction false} DigitsRoundTrip(n: nat)
    ensures DigitsValue(IntToString(n)) == n
    decreases n
  {
    if n >= 10 {
      DigitsRoundTrip(n / 10);
      var s := IntToString(n);
      assert s[..|s| - 1] == IntToString(n / 10);
    }
  }

  /** `int(str(n)) == n`: the decimal text of an integer reads back as that integer. */
  lemma ParseIntRoundTrip(n: int)
    ensures ParseInt(IntToString(n)) == Some(n)
  {
    var s := IntToString(n);
    if n < 0 {
      var d := IntToString(-n);
      assert s == "-" + d;
      assert s[1..] == d;
      DigitsRoundTrip(-n);
    } else {
      DigitsRoundTrip(n);
      assert IsDigit(s[0]);
      assert s[0] != '-' && s[0] != '+';
    }
  }
}
