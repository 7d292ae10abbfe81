/** Hexadecimal digits, as read by the C++ parsers and written by Python's formatting. */
module Hex {
  import opened Wrappers

  /** One byte value. */
  type Byte = n: nat | n < 256

  predicate IsHexDigit(c: char)
  {
    ('0' <= c <= '9') || ('a' <= c <= 'f') || ('A' <= c <= 'F')
  }

  /** The value of one hexadecimal digit, either case; `None` for any other character. */
  function DigitValue(c: char): (r: Option<nat>)
    ensures r.Some? <==> IsHexDigit(c)
    ensures r.Some? ==> r.value < 16
  {
    if '0' <= c <= '9' then Some(c as int - '0' as int)
    else if 'a' <= c <= 'f' then Some(c as int - 'a' as int + 10)
    else if 'A' <= c <= 'F' then Some(c as int - 'A' as int + 10)
    else None
  }

  /** The upper-case digit for a value below 16. */
  function UpperDigit(n: nat): (c: char)
    requires n < 16
    ensures DigitValue(c) == Some(n)
    ensures !('a' <= c <= 'z')
  {
    if n < 10 then ('0' as int + n) as char else ('A' as int + n - 10) as char
  }

  /** The lower-case digit for a value below 16. */
  function LowerDigit(n: nat): (c: char)
    requires n < 16
    ensures DigitValue(c) == Some(n)
    ensures !('A' <= c <= 'Z')
  {
    if n < 10 then ('0' as int + n) as char else ('a' as int + n - 10) as char
  }

  /** True when every character of `s` is a hexadecimal digit. */
  predicate AllHex(s: string)
  {
    forall i :: 0 <= i < |s| ==> IsHexDigit(s[i])
  }

  lemma AllHexConcat(a: string, b: string)
    requires AllHex(a) && AllHex(b)
    ensures AllHex(a + b)
  {
    forall i | 0 <= i < |a + b| ensures IsHexDigit((a + b)[i]) {
      if i >= |a| {
        assert (a + b)[i] == b[i - |a|];
      }
    }
  }

  lemma AllHexIndex(s: string)
    requires AllHex(s)
    ensures forall i :: 0 <= i < |s| ==> s[i] != '\\'
  {
  }

  /** The big-endian value of a string of hexadecimal digits. */
  function Value(s: string): nat
    requires AllHex(s)
  {
    if s == [] then 0 else Value(s[..|s| - 1]) * 16 + DigitValue(s[|s| - 1]).value
  }

  function Pow16(n: nat): (r: nat)
    ensures r >= 1
  {
    if n == 0 then 1 else 16 * Pow16(n - 1)
  }

  lemma {:induction false} ValueBound(s: string)
    requires AllHex(s)
    ensures Value(s) < Pow16(|s|)
  {
    if s != [] {
      ValueBound(s[..|s| - 1]);
    }
  }

  /** A digit written in the requested case: no lower-case letter in upper case, and the other way round. */
  predicate InCase(c: char, upper: bool)
  {
    if upper then !('a' <= c <= 'z') else !('A' <= c <= 'Z')
  }

  /** Appending the last digit of `n` to the digits of `n / 16` gives the digits of `n`. */
  lemma AppendDigit(hi: string, d: char, n: nat, upper: bool)
    requires n >= 16 && hi != [] && AllHex(hi) && Value(hi) == n / 16 && (|hi| == 1 <==> n / 16 < 16)
    requires forall i :: 0 <= i < |hi| ==> InCase(hi[i], upper)
    requires DigitValue(d) == Some(n % 16) && InCase(d, upper)
    ensures AllHex(hi + [d]) && Value(hi + [d]) == n && |hi + [d]| >= 2 && (n < 256 ==> |hi + [d]| == 2)
    ensures forall i :: 0 <= i < |hi + [d]| ==> InCase((hi + [d])[i], upper)
  {
    var r := hi + [d];
    assert r[..|r| - 1] == hi;
    assert Value(r) == Value(hi) * 16 + n % 16;
    assert n < 256 ==> n / 16 < 16;
  }

  /** Digits of `n` without padding, most significant first (`"0"` for zero). */
  function Digits(n: nat, upper: bool): (r: string)
    ensures r != [] && AllHex(r) && Value(r) == n
    ensures |r| == 1 <==> n < 16
    ensures n < 256 ==> |r| <= 2
    ensures forall i :: 0 <= i < |r| ==> InCase(r[i], upper)
  {
    var d := if upper then UpperDigit(n % 16) else LowerDigit(n % 16);
    if n < 16 then [d]
    else
      var hi := Digits(n / 16, upper);
      AppendDigit(hi, d, n, upper);
      hi + [d]
  }

  /** Python's `"{:02X}".format(n)`: upper-case digits, zero-padded to at least two. */
  function Format02X(n: nat): (r: string)
    ensures AllHex(r) && Value(r) == n
    ensures n < 256 ==> |r| == 2
    ensures forall i :: 0 <= i < |r| ==> !('a' <= r[i] <= 'z')
  {
    var d := Digits(n, true);
    if |d| == 1 then
      var r := ['0'] + d;
      assert r[..1] == ['0'];
      r
    else
      d
  }

  /** Python's `hex(n)` for a non-negative `n`: `0x` then lower-case digits. */
  function PyHex(n: nat): (r: string)
    ensures |r| >= 3 && r[..2] == "0x"
    ensures AllHex(r[2..]) && Value(r[2..]) == n
  {
    var r := "0x" + Digits(n, false);
    assert r[2..] == Digits(n, false);
    r
  }

  /** A byte from 16 up is written with exactly two lower-case digits. */
  lemma PyHexTwoDigits(n: nat)
    requires 16 <= n < 256
    ensures PyHex(n) == ['0', 'x', LowerDigit(n / 16), LowerDigit(n % 16)]
  {
    assert Digits(n / 16, false) == [LowerDigit(n / 16)];
  }

  /** A value below 16 is written with a single digit: `hex(9)` is `0x9`. */
  lemma PyHexOneDigit(n: nat)
    requires n < 16
    ensures PyHex(n) == ['0', 'x', LowerDigit(n)]
  {
  }
}
