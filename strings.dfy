/**
 * The Python string built-ins that the cover-letter generator relies on:
 * `str.strip()` with no argument, `str(i)` on a positive integer, and the
 * concatenation that repeated `+=` on a string performs.
 */
module Strings {

  /** The characters of the class `[a-zA-Z]` in the cleaning patterns. */
  predicate IsAsciiLetter(c: char) {
    ('a' <= c <= 'z') || ('A' <= c <= 'Z')
  }

  /**
   * The characters Python's `str.isspace()` accepts, which are exactly the
   * characters `str.strip()` removes when it is called without an argument.
   */
  predicate IsSpace(c: char)
    ensures IsAsciiLetter(c) ==> !IsSpace(c)
    ensures IsDecimalDigit(c) ==> !IsSpace(c)
    ensures (c == ' ' || '\t' <= c <= '\r') ==> IsSpace(c)
  {
    var n := c as int;
    (0x09 <= n <= 0x0D) || (0x1C <= n <= 0x20) || n == 0x85 || n == 0xA0 ||
    n == 0x1680 || (0x2000 <= n <= 0x200A) || n == 0x2028 || n == 0x2029 ||
    n == 0x202F || n == 0x205F || n == 0x3000
  }

  /** Number of whitespace characters at the front of `s`. */
  function LeadingSpace(s: string): (n: nat)
    ensures n <= |s|
    ensures forall i :: 0 <= i < n ==> IsSpace(s[i])
    ensures n < |s| ==> !IsSpace(s[n])
    decreases |s|
  {
    if |s| > 0 && IsSpace(s[0]) then 1 + LeadingSpace(s[1..]) else 0
  }

  /** Number of whitespace characters at the back of `s`. */
  function TrailingSpace(s: string): (n: nat)
    ensures n <= |s|
    ensures forall i :: |s| - n <= i < |s| ==> IsSpace(s[i])
    ensures n < |s| ==> !IsSpace(s[|s| - 1 - n])
    decreases |s|
  {
    if |s| > 0 && IsSpace(s[|s| - 1]) then 1 + TrailingSpace(s[..|s| - 1]) else 0
  }

  /** Neither the first nor the last character is whitespace. */
  predicate Trimmed(s: string) {
    s == [] || (!IsSpace(s[0]) && !IsSpace(s[|s| - 1]))
  }

  /**
   * `s.strip()`: the result is the slice of the input that starts after its
   * leading whitespace, everything cut off on either side is whitespace, and
   * the result neither starts nor ends with whitespace.
   */
  function Strip(s: string): (r: string)
    ensures Trimmed(r)
    ensures LeadingSpace(s) + |r| <= |s|
    ensures r == s[LeadingSpace(s)..LeadingSpace(s) + |r|]
    ensures forall i :: 0 <= i < |s| && !(LeadingSpace(s) <= i < LeadingSpace(s) + |r|) ==> IsSpace(s[i])
  {
    var a := LeadingSpace(s);
    if a == |s| then [] else
    var b := |s| - TrailingSpace(s);
    s[a..b]
  }

  /** A string without surrounding whitespace is its own strip. */
  lemma StripTrimmed(s: string)
    requires Trimmed(s)
    ensures Strip(s) == s
  {
    if s != [] {
      assert LeadingSpace(s) == 0;
      assert TrailingSpace(s) == 0;
    }
  }

  /** `strip()` is idempotent. */
  lemma StripIdempotent(s: string)
    ensures Strip(Strip(s)) == Strip(s)
  {
    StripTrimmed(Strip(s));
  }

  /** A string made only of whitespace strips to the empty string. */
  lemma StripAllSpace(s: string)
    requires forall i :: 0 <= i < |s| ==> IsSpace(s[i])
    ensures Strip(s) == []
  {
  }

  // ---------------------------------------------------------------------
  // Decimal rendering of integers, as the f-string `{i}` produces it.

  function DigitChar(d: nat): (c: char)
    requires d < 10
    ensures '0' <= c <= '9'
  {
    "0123456789"[d]
  }

  function DigitValue(c: char): (d: nat)
    requires IsDecimalDigit(c)
    ensures d < 10
  {
    (c as int) - ('0' as int)
  }

  predicate IsDecimalDigit(c: char) {
    '0' <= c <= '9'
  }

  /** `str(n)`: the decimal digits of `n`, most significant first. */
  function NatToString(n: nat): (r: string)
    ensures |r| > 0
    ensures forall i :: 0 <= i < |r| ==> IsDecimalDigit(r[i])
    ensures |r| > 1 ==> r[0] != '0'
    decreases n
  {
    if n < 10 then [DigitChar(n)] else NatToString(n / 10) + [DigitChar(n % 10)]
  }

  /** The number a string of decimal digits denotes: `int(s)`. */
  function DecimalValue(s: string): nat
    requires forall i :: 0 <= i < |s| ==> IsDecimalDigit(s[i])
    decreases |s|
  {
    if s == [] then 0 else DecimalValue(s[..|s| - 1]) * 10 + DigitValue(s[|s| - 1])
  }

  /** `int(str(n)) == n`: the rendering loses nothing. */
  lemma {:induction false} DecimalRoundTrip(n: nat)
    ensures DecimalValue(NatToString(n)) == n
  {
    var r := NatToString(n);
    if n < 10 {
      assert "0123456789"[n] as int - '0' as int == n;
    } else {
      DecimalRoundTrip(n / 10);
      assert r[..|r| - 1] == NatToString(n / 10);
      assert "0123456789"[n % 10] as int - '0' as int == n % 10;
    }
  }

  /** Different numbers are rendered differently. */
  lemma NatToStringInjective(m: nat, n: nat)
    requires NatToString(m) == NatToString(n)
    ensures m == n
  {
    DecimalRoundTrip(m);
    DecimalRoundTrip(n);
  }

  // ---------------------------------------------------------------------
  // Concatenation of a sequence of strings, left to right.

  /** `"".join(ss)`, which is what a sequence of `+=` on a string builds. */
  function Concat(ss: seq<string>): string
    decreases |ss|
  {
    if ss == [] then [] else Concat(ss[..|ss| - 1]) + ss[|ss| - 1]
  }

  lemma ConcatSnoc(ss: seq<string>, x: string)
    ensures Concat(ss + [x]) == Concat(ss) + x
  {
    assert (ss + [x])[..|ss|] == ss;
  }

}
