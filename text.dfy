/**
 * The string operations of the Kotlin and Python standard libraries the core relies on:
 * blank tests, trimming, prefixes, substring search and decimal rendering of integers.
 * Strings are sequences of characters; no Unicode normalisation is modelled.
 */
module Text {

  /** The whitespace characters recognised by `isBlank`/`trim()` (Kotlin) and `strip()` (Python). */
  predicate IsWhitespace(c: char) {
    c == ' ' || c == '\t' || c == '\n' || c == '\r' || c == '\U{B}' || c == '\U{C}'
  }

  /** Kotlin's `isBlank()`; Python's `not s or s.strip() == ""`. */
  predicate IsBlank(s: string) {
    forall i :: 0 <= i < |s| ==> IsWhitespace(s[i])
  }

  /** Drops the leading characters that satisfy `strip`. */
  function DropLeading(s: string, strip: char -> bool): string {
    if s != [] && strip(s[0]) then DropLeading(s[1..], strip) else s
  }

  /** What `DropLeading` leaves: a suffix of `s`, after only stripped characters, that does not
      start with one. */
  lemma {:induction false} DropLeadingSpec(s: string, strip: char -> bool)
    ensures var r := DropLeading(s, strip);
            |r| <= |s| && r == s[|s| - |r|..]
            && (forall i :: 0 <= i < |s| - |r| ==> strip(s[i]))
            && (r != [] ==> !strip(r[0]))
    decreases |s|
  {
    if s != [] && strip(s[0]) {
      DropLeadingSpec(s[1..], strip);
    }
  }

  /** Drops the trailing characters that satisfy `strip`. */
  function DropTrailing(s: string, strip: char -> bool): string {
    if s != [] && strip(s[|s| - 1]) then DropTrailing(s[..|s| - 1], strip) else s
  }

  /** What `DropTrailing` leaves: a prefix of `s`, before only stripped characters, that does not
      end with one. */
  lemma {:induction false} DropTrailingSpec(s: string, strip: char -> bool)
    ensures var r := DropTrailing(s, strip);
            |r| <= |s| && r == s[..|r|]
            && (forall i :: |r| <= i < |s| ==> strip(s[i]))
            && (r != [] ==> !strip(r[|r| - 1]))
    decreases |s|
  {
    if s != [] && strip(s[|s| - 1]) {
      DropTrailingSpec(s[..|s| - 1], strip);
    }
  }

  /** Drops the characters that satisfy `strip` at both ends (Kotlin `trim { }`, Python `strip(chars)`). */
  function StripBy(s: string, strip: char -> bool): (r: string)
  {
    DropTrailing(DropLeading(s, strip), strip)
  }

  /** Kotlin's `trim()` and Python's `strip()`. */
  function Trim(s: string): string {
    StripBy(s, IsWhitespace)
  }

  /** Python's `s.strip(c)` for a single character. */
  function StripChar(s: string, c: char): string {
    StripBy(s, x => x == c)
  }

  /** A string is blank exactly when trimming leaves nothing. */
  lemma BlankIffTrimEmpty(s: string)
    ensures IsBlank(s) <==> Trim(s) == ""
  {
    DropLeadingSpec(s, IsWhitespace);
    DropTrailingSpec(DropLeading(s, IsWhitespace), IsWhitespace);
  }

  /** Trimming is idempotent. */
  lemma TrimIdempotent(s: string)
    ensures Trim(Trim(s)) == Trim(s)
  {
    var t := DropLeading(s, IsWhitespace);
    var r := DropTrailing(t, IsWhitespace);
    DropLeadingSpec(s, IsWhitespace);
    DropTrailingSpec(t, IsWhitespace);
    DropTrailingSpec(r, IsWhitespace);
    if r != [] {
      assert r[0] == t[0];
      assert DropLeading(r, IsWhitespace) == r;
    }
  }

  /** Kotlin's `ifBlank { fallback }`. */
  function IfBlank(s: string, fallback: string): (r: string)
    ensures IsBlank(s) ==> r == fallback
    ensures !IsBlank(s) ==> r == s
  {
    if IsBlank(s) then fallback else s
  }

  /** Kotlin's `startsWith(prefix)`. */
  predicate StartsWith(s: string, prefix: string) {
    |prefix| <= |s| && s[..|prefix|] == prefix
  }

  /** A string starts with whatever it was built from. */
  lemma StartsWithConcat(p: string, x: string)
    ensures StartsWith(p + x, p)
  {
    assert (p + x)[..|p|] == p;
  }

  /** Kotlin's `removePrefix(prefix)`: the rest when `s` starts with `prefix`, else `s` itself. */
  function RemovePrefix(s: string, prefix: string): (r: string)
    ensures StartsWith(s, prefix) ==> prefix + r == s
    ensures !StartsWith(s, prefix) ==> r == s
  {
    if StartsWith(s, prefix) then s[|prefix|..] else s
  }

  /** `key` occurs in `text` starting at position `i`. */
  predicate OccursAt(key: string, text: string, i: int) {
    0 <= i && i + |key| <= |text| && text[i..i + |key|] == key
  }

  /** Python's `key in text` on strings: `key` occurs in `text` at some position. */
  predicate IsSubstring(key: string, text: string) {
    exists i | 0 <= i <= |text| - |key| :: OccursAt(key, text, i)
  }

  predicate IsDigit(c: char) {
    '0' <= c <= '9'
  }

  function DigitChar(n: nat): (c: char)
    requires n < 10
    ensures IsDigit(c)
  {
    (n + '0' as int) as char
  }

  function DigitValue(c: char): (n: nat)
    requires IsDigit(c)
    ensures n < 10
  {
    (c as int - '0' as int) as nat
  }

  lemma DigitRoundTrip(n: nat)
    requires n < 10
    ensures DigitValue(DigitChar(n)) == n
  {
  }

  /** Decimal rendering of a natural number, as Kotlin string templates do. */
  function NatToString(n: nat): (r: string)
    ensures |r| >= 1
    ensures forall i :: 0 <= i < |r| ==> IsDigit(r[i])
    ensures n >= 10 <==> |r| >= 2
  {
    if n < 10 then [DigitChar(n)] else NatToString(n / 10) + [DigitChar(n % 10)]
  }

  /** Decimal rendering of an integer: a minus sign before negative numbers. */
  function IntToString(i: int): (r: string)
    ensures |r| >= 1
  {
    if i < 0 then "-" + NatToString(-i) else NatToString(i)
  }

  /** Different numbers are rendered differently. */
  lemma {:induction false} NatToStringInjective(a: nat, b: nat)
    requires NatToString(a) == NatToString(b)
    ensures a == b
  {
    var sa, sb := NatToString(a), NatToString(b);
    DigitRoundTrip(a % 10);
    DigitRoundTrip(b % 10);
    if a < 10 && b < 10 {
      assert DigitChar(a) == DigitChar(b);
    } else if a >= 10 && b >= 10 {
      assert sa[..|sa| - 1] == NatToString(a / 10);
      assert sb[..|sb| - 1] == NatToString(b / 10);
      NatToStringInjective(a / 10, b / 10);
      assert sa[|sa| - 1] == DigitChar(a % 10);
    }
  }

  lemma IntToStringInjective(a: int, b: int)
    requires IntToString(a) == IntToString(b)
    ensures a == b
  {
    var s := IntToString(a);
    assert (a < 0) == (s[0] == '-');
    assert (b < 0) == (s[0] == '-');
    if a < 0 {
      assert s[1..] == NatToString(-a);
      assert IntToString(b)[1..] == NatToString(-b);
      NatToStringInjective(-a, -b);
    } else {
      NatToStringInjective(a, b);
    }
  }

  /** Equal strings with the same fixed prefix have equal remainders. */
  lemma PrefixCancel(p: string, x: string, y: string)
    requires p + x == p + y
    ensures x == y
  {
    assert x == (p + x)[|p|..];
    assert y == (p + y)[|p|..];
  }
}
