/** Option values, bytes and the small string vocabulary (prefixes, substrings,
    decimal numerals) that the crawler and the query tool are written in. */
module Util {

  datatype Option<+T> = None | Some(value: T)

  /** An octet, as produced by a Base64 decoder and consumed by a UTF-8 decoder. */
  type Byte = b: int | 0 <= b < 256

  /** Python truthiness of a nullable text column: neither NULL nor the empty string. */
  predicate Truthy(o: Option<string>) {
    o.Some? && o.value != ""
  }

  predicate StartsWith(s: string, p: string) {
    |p| <= |s| && s[..|p|] == p
  }

  predicate EndsWith(s: string, p: string) {
    |p| <= |s| && s[|s| - |p|..] == p
  }

  /** p occurs in s starting at index i. */
  predicate OccursAt(s: string, p: string, i: int) {
    0 <= i && i + |p| <= |s| && s[i..i + |p|] == p
  }

  /** Python's `p in s` for strings. */
  predicate Contains(s: string, p: string)
    decreases |s|
  {
    StartsWith(s, p) || (s != [] && Contains(s[1..], p))
  }

  lemma {:induction false} ContainsHasChars(s: string, p: string, j: nat)
    requires Contains(s, p) && j < |p|
    ensures p[j] in s
    decreases |s|
  {
    if StartsWith(s, p) {
      assert s[j] == p[j];
    } else {
      ContainsHasChars(s[1..], p, j);
    }
  }

  predicate IsAscii(s: string) {
    forall i | 0 <= i < |s| :: s[i] as int < 128
  }

  predicate IsDigit(c: char) {
    '0' <= c <= '9'
  }

  predicate AllDigits(s: string) {
    forall i | 0 <= i < |s| :: IsDigit(s[i])
  }

  /** A non-empty run of ASCII digits: the ASCII part of what `\d+` matches and of what
      `str.isdigit()` accepts (both also take other Unicode digits). */
  predicate IsNumeral(s: string) {
    s != [] && AllDigits(s)
  }

  function DigitValue(c: char): nat
    requires IsDigit(c)
  {
    c as int - '0' as int
  }

  function DigitChar(d: nat): (c: char)
    requires d < 10
    ensures IsDigit(c) && DigitValue(c) == d
  {
    ('0' as int + d) as char
  }

  /** Python's `int(s)` on a string of decimal digits (leading zeros allowed). */
  function DigitsValue(s: string): nat
    requires AllDigits(s)
  {
    if s == [] then 0 else 10 * DigitsValue(s[..|s| - 1]) + DigitValue(s[|s| - 1])
  }

  /** Python's `str(n)` for a non-negative integer. */
  function NatToString(n: nat): (r: string)
    ensures IsNumeral(r)
    ensures DigitsValue(r) == n
  {
    if n < 10 then [DigitChar(n)]
    else
      var r := NatToString(n / 10) + [DigitChar(n % 10)];
      assert r[..|r| - 1] == NatToString(n / 10);
      r
  }

  /** Python's `str(i)` for any integer. */
  function IntToString(i: int): string {
    if i < 0 then "-" + NatToString(-i) else NatToString(i)
  }

  lemma NatToStringInjective(a: nat, b: nat)
    requires NatToString(a) == NatToString(b)
    ensures a == b
  {
    assert DigitsValue(NatToString(a)) == a;
  }

  function Min(a: int, b: int): int {
    if a <= b then a else b
  }

  function Max(a: int, b: int): int {
    if a >= b then a else b
  }

  /** Concatenation of a sequence of strings, as successive `+=` or `write` calls produce it. */
  function Concat(parts: seq<string>): string {
    if parts == [] then "" else Concat(parts[..|parts| - 1]) + parts[|parts| - 1]
  }

  /** Number of occurrences of character c in s. */
  function CountChar(s: string, c: char): nat {
    if s == [] then 0 else CountChar(s[..|s| - 1], c) + (if s[|s| - 1] == c then 1 else 0)
  }

  lemma {:induction false} CountCharAppend(a: string, b: string, c: char)
    ensures CountChar(a + b, c) == CountChar(a, c) + CountChar(b, c)
    decreases |b|
  {
    if b == [] {
      assert a + b == a;
    } else {
      assert (a + b)[..|a + b| - 1] == a + b[..|b| - 1];
      CountCharAppend(a, b[..|b| - 1], c);
    }
  }
}
