/**
 * `Substring<T>`: a window of hex text packed into an unsigned integer of
 * sizeof(T) bytes, four bits per character, together with the sliding
 * window extraction that fills the cuckoo hash's key set. The byte width of
 * T is the class's `width`; every value lives below 256^width.
 */
module Substrings {
  import opened Wrappers
  import Hex
  import Bstring

  type Byte = Hex.Byte

  /** 256^n: the number of values of an unsigned integer of n bytes. */
  function Pow256(n: nat): (r: nat)
    ensures r >= 1
  {
    if n == 0 then 1 else 256 * Pow256(n - 1)
  }

  /** `hexCharToInt`: the value of a digit in either case, 0 for any other character. */
  function HexCharToInt(c: char): (r: nat)
    ensures r < 16
    ensures Hex.IsHexDigit(c) ==> Hex.DigitValue(c) == Some(r)
    ensures !Hex.IsHexDigit(c) ==> r == 0
  {
    if 'a' <= c <= 'f' then c as int - 'a' as int + 10
    else if 'A' <= c <= 'F' then c as int - 'A' as int + 10
    else if '0' <= c <= '9' then c as int - '0' as int
    else 0
  }

  /** The big-endian value of a text read digit by digit with `hexCharToInt`, without any truncation. */
  function Number(s: string): nat
  {
    if s == [] then 0 else Number(s[..|s| - 1]) * 16 + HexCharToInt(s[|s| - 1])
  }

  /**
   * What the string constructor accumulates: each character shifts the
   * value four bits left and ors in its digit, in an unsigned integer with
   * `m` values (256^sizeof(T)). The low four bits of the shifted value are zero, so the or is an
   * addition, and the truncation to T is a remainder.
   */
  function Pack(s: string, m: nat): (r: nat)
    requires m >= 1
    ensures r < m
  {
    if s == [] then 0 else (Pack(s[..|s| - 1], m) * 16 + HexCharToInt(s[|s| - 1])) % m
  }

  /** The `width` bytes of `n`, most significant first, as `operator<<` extracts them. */
  function BytesOf(n: nat, width: nat): (r: seq<Byte>)
    ensures |r| == width
  {
    if width == 0 then [] else BytesOf(n / 256, width - 1) + [n % 256]
  }

  /** The bytes a text of hex pairs stands for: pair k gives 16·digit(2k) + digit(2k+1). */
  function PairBytes(s: string): (r: seq<Byte>)
    requires |s| % 2 == 0
    ensures |r| == |s| / 2
  {
    seq(|s| / 2, k requires 0 <= k < |s| / 2 => 16 * HexCharToInt(s[2 * k]) + HexCharToInt(s[2 * k + 1]))
  }

  /** The big-endian value of a byte sequence. */
  function BigEndian(bytes: seq<Byte>): nat
  {
    if bytes == [] then 0 else BigEndian(bytes[..|bytes| - 1]) * 256 + bytes[|bytes| - 1]
  }

  /** The text `operator<<` writes for one byte: "0x", two lower-case digits, then the character or NPSC. */
  function ByteText(b: Byte): string
  {
    ['0', 'x', Hex.LowerDigit(b / 16), Hex.LowerDigit(b % 16)] + " ('"
    + (if 0x20 <= b <= 0x7E then [b as char] else "NPSC") + "') "
  }

  /** The texts of all bytes, in order. */
  function Render(bytes: seq<Byte>): string
  {
    if bytes == [] then [] else Render(bytes[..|bytes| - 1]) + ByteText(bytes[|bytes| - 1])
  }

  /** The values `extractSubstrings` inserts from offset `i` on: windows of 2·length characters, every 2·gap characters. */
  function Windows(hex: string, m: nat, gap: nat, length: nat, i: nat): set<nat>
    requires m >= 1 && gap >= 1
    decreases |hex| - i
  {
    if i < |hex| && i + length * 2 <= |hex| then
      {Pack(hex[i..i + length * 2], m)} + Windows(hex, m, gap, length, i + gap * 2)
    else {}
  }

  /** `n >> 8·i`: the value with its i lowest bytes shifted out, one byte at a time. */
  function ShiftBytes(n: nat, i: nat): nat
  {
    if i == 0 then n else ShiftBytes(n, i - 1) / 256
  }

  /** After the turns for bytes width-1 down to i, the stream holds the texts of the width-i highest bytes. */
  ghost predicate Written(os: string, out: string, n: nat, i: nat, width: nat)
    requires i <= width
  {
    out == os + Render(BytesOf(ShiftBytes(n, i), width - i))
  }

  /** One turn of the `operator<<` loop: writing byte i-1 extends the text by that byte's text. */
  lemma WriteStep(os: string, out: string, n: nat, i: nat, width: nat)
    requires 1 <= i <= width
    requires Written(os, out, n, i, width)
    ensures Written(os, out + ByteText(ShiftBytes(n, i - 1) % 256), n, i - 1, width)
  {
    var done := BytesOf(ShiftBytes(n, i), width - i);
    var b := ShiftBytes(n, i - 1) % 256;
    ShiftBytesStep(n, i, width);
    RenderAppend(done, b);
    assert Render(BytesOf(ShiftBytes(n, i - 1), width - (i - 1))) == Render(done) + ByteText(b);
    AssocThree(os, Render(done), ByteText(b));
  }

  lemma ShiftBytesStep(n: nat, i: nat, width: nat)
    requires 1 <= i <= width
    ensures BytesOf(ShiftBytes(n, i - 1), width - (i - 1)) ==
      BytesOf(ShiftBytes(n, i), width - i) + [ShiftBytes(n, i - 1) % 256]
  {
  }

  /** Window k starting from offset i begins at i + 2·gap·k and must fit in the text. */
  predicate WindowAt(hex: string, gap: nat, length: nat, i: nat, k: nat, offset: nat)
  {
    offset == i + 2 * gap * k && offset < |hex| && offset + length * 2 <= |hex|
  }

  // Arithmetic on division and remainder.

  lemma MulSign(a: int, d: int)
    requires d > 0
    ensures a >= 1 ==> a * d >= d
    ensures a <= -1 ==> a * d <= -d
  {
  }

  lemma Distribute(x: int, y: int, p: int, d: int)
    ensures (x * p + y) * 16 + d == x * (16 * p) + (y * 16 + d)
  {
  }

  lemma DivNonnegative(n: int, d: int)
    requires n >= 0 && d > 0
    ensures n / d >= 0
  {
  }

  lemma DivModUnique(n: int, d: int, q: int, r: int)
    requires d > 0 && 0 <= r < d && n == q * d + r
    ensures n / d == q && n % d == r
  {
    var q', r' := n / d, n % d;
    assert (q' - q) * d == r - r';
    MulSign(q' - q, d);
  }

  lemma DivDiv(n: nat, a: nat, b: nat)
    requires a > 0 && b > 0
    ensures n / a / b == n / (a * b)
  {
    var q1, r1 := n / a, n % a;
    var q2, r2 := q1 / b, q1 % b;
    assert n == (a * b) * q2 + (a * r2 + r1) by {
      assert q1 == b * q2 + r2;
      assert n == a * q1 + r1;
    }
    assert a * r2 <= a * (b - 1) by { MulSign(b - 1 - r2, a); }
    DivModUnique(n, a * b, q2, a * r2 + r1);
  }

  lemma ModStep(a: nat, d: nat, m: nat)
    requires m >= 1
    ensures ((a % m) * 16 + d) % m == (a * 16 + d) % m
  {
    var q, r := a / m, a % m;
    var x := r * 16 + d;
    var qx, rx := x / m, x % m;
    assert a * 16 + d == (q * 16 + qx) * m + rx;
    DivModUnique(a * 16 + d, m, q * 16 + qx, rx);
  }

  lemma Pow16Pow256(w: nat)
    ensures Hex.Pow16(2 * w) == Pow256(w)
  {
    if w > 0 {
      Pow16Pow256(w - 1);
      assert Hex.Pow16(2 * w) == 16 * Hex.Pow16(2 * w - 1);
    }
  }

  lemma {:induction false} Pow16Monotone(i: nat, j: nat)
    requires i <= j
    ensures Hex.Pow16(i) <= Hex.Pow16(j)
  {
    if i < j {
      Pow16Monotone(i, j - 1);
    }
  }

  // Properties of the packed value.

  /** On hexadecimal text the digit-by-digit value is the usual one. */
  lemma {:induction false} NumberIsValue(s: string)
    requires Hex.AllHex(s)
    ensures Number(s) == Hex.Value(s)
  {
    if s != [] {
      NumberIsValue(s[..|s| - 1]);
    }
  }

  lemma {:induction false} NumberBound(s: string)
    ensures Number(s) < Hex.Pow16(|s|)
  {
    if s != [] {
      NumberBound(s[..|s| - 1]);
    }
  }

  lemma {:induction false} NumberAppend(a: string, b: string)
    ensures Number(a + b) == Number(a) * Hex.Pow16(|b|) + Number(b)
  {
    if b == [] {
      assert a + b == a;
    } else {
      var b' := b[..|b| - 1];
      var d := HexCharToInt(b[|b| - 1]);
      assert (a + b)[..|a + b| - 1] == a + b';
      var x, y, p := Number(a), Number(b'), Hex.Pow16(|b'|);
      calc {
        Number(a + b);
        Number(a + b') * 16 + d;
        { NumberAppend(a, b'); }
        (x * p + y) * 16 + d;
        { Distribute(x, y, p, d); }
        x * (16 * p) + (y * 16 + d);
      }
    }
  }

  /**
   * The constructor's value is the text's value truncated to T: the
   * shifted-out high digits are lost, the low 2·width digits are kept.
   */
  lemma {:induction false} PackIsNumberMod(s: string, m: nat)
    requires m >= 1
    ensures Pack(s, m) == Number(s) % m
  {
    if s != [] {
      var p := s[..|s| - 1];
      var d := HexCharToInt(s[|s| - 1]);
      var np := Number(p);
      calc {
        Pack(s, m);
        (Pack(p, m) * 16 + d) % m;
        { PackIsNumberMod(p, m); }
        ((np % m) * 16 + d) % m;
        { ModStep(np, d, m); }
        (np * 16 + d) % m;
        Number(s) % m;
      }
    }
  }

  /** A text of at most 2·width digits fits in T and is packed without loss. */
  lemma PackFits(s: string, width: nat)
    requires |s| <= 2 * width
    ensures Pack(s, Pow256(width)) == Number(s)
  {
    PackIsNumberMod(s, Pow256(width));
    NumberBound(s);
    Pow16Monotone(|s|, 2 * width);
    Pow16Pow256(width);
    DivModUnique(Number(s), Pow256(width), 0, Number(s));
  }

  /**
   * The keys handed over by the parser start with "0x": the '0' and the
   * 'x' are both read as the digit 0, so a window starting there has the
   * value of the digits after the prefix.
   */
  lemma PrefixReadsAsZero(s: string)
    ensures Number("0x" + s) == Number(s)
  {
    NumberAppend("0x", s);
    assert "0x"[..1] == "0";
  }

  lemma PairBytesLast(s: string)
    requires |s| >= 2 && |s| % 2 == 0
    ensures PairBytes(s) == PairBytes(s[..|s| - 2]) + [16 * HexCharToInt(s[|s| - 2]) + HexCharToInt(s[|s| - 1])]
  {
  }

  lemma NumberLastPair(s: string)
    requires |s| >= 2
    ensures Number(s) == Number(s[..|s| - 2]) * 256 + (16 * HexCharToInt(s[|s| - 2]) + HexCharToInt(s[|s| - 1]))
  {
    assert s[..|s| - 1][..|s| - 2] == s[..|s| - 2];
  }

  /**
   * Round trip: the bytes `operator<<` extracts from a value built from
   * exactly 2·width characters are that text's pairs, in order.
   */
  lemma {:induction false} RoundTrip(s: string, width: nat)
    requires |s| == 2 * width
    ensures BytesOf(Pack(s, Pow256(width)), width) == PairBytes(s)
  {
    PackFits(s, width);
    BytesOfNumber(s, width);
  }

  lemma {:induction false} BytesOfNumber(s: string, width: nat)
    requires |s| == 2 * width
    ensures BytesOf(Number(s), width) == PairBytes(s)
  {
    if width > 0 {
      var p := s[..|s| - 2];
      var pair := 16 * HexCharToInt(s[|s| - 2]) + HexCharToInt(s[|s| - 1]);
      NumberLastPair(s);
      DivModUnique(Number(s), 256, Number(p), pair);
      BytesOfNumber(p, width - 1);
      PairBytesLast(s);
    }
  }

  /** The value of a text is the big-endian value of its pairs. */
  lemma {:induction false} NumberIsBigEndian(s: string)
    requires |s| % 2 == 0
    ensures Number(s) == BigEndian(PairBytes(s))
  {
    if s != [] {
      var p := s[..|s| - 2];
      NumberLastPair(s);
      NumberIsBigEndian(p);
      PairBytesLast(s);
      assert PairBytes(s)[..|PairBytes(s)| - 1] == PairBytes(p);
    }
  }

  /**
   * Two windows of 2·width characters get the same value, and so the same
   * set element, exactly when they stand for the same bytes.
   */
  lemma SameValueSameBytes(s: string, t: string, width: nat)
    requires |s| == 2 * width && |t| == 2 * width
    ensures Pack(s, Pow256(width)) == Pack(t, Pow256(width)) <==> PairBytes(s) == PairBytes(t)
  {
    RoundTrip(s, width);
    RoundTrip(t, width);
    PackFits(s, width);
    PackFits(t, width);
    NumberIsBigEndian(s);
    NumberIsBigEndian(t);
  }

  /** On hexadecimal text the pairs are the bytes `hexToBstring` reads, so both parts agree on a key's bytes. */
  lemma PairBytesAreBstringPairs(s: string)
    requires |s| % 2 == 0 && Hex.AllHex(s)
    ensures PairBytes(s) == Bstring.Pairs(s)
  {
    var p, q := PairBytes(s), Bstring.Pairs(s);
    forall k | 0 <= k < |p| ensures p[k] == q[k] {
      PairAt(s, k);
    }
  }

  lemma PairAt(s: string, k: nat)
    requires |s| % 2 == 0 && Hex.AllHex(s) && k < |s| / 2
    ensures PairBytes(s)[k] == Bstring.Pairs(s)[k]
  {
    var i := 2 * k;
    assert i + 1 < |s|;
    var c1, c2 := s[i], s[i + 1];
    assert Hex.IsHexDigit(c1) && Hex.IsHexDigit(c2);
    DigitPair(c1, c2);
    assert PairBytes(s)[k] == 16 * HexCharToInt(c1) + HexCharToInt(c2);
    assert Bstring.Pairs(s)[k] == Bstring.PairValue(c1, c2);
  }

  lemma DigitPair(c1: char, c2: char)
    requires Hex.IsHexDigit(c1) && Hex.IsHexDigit(c2)
    ensures 16 * HexCharToInt(c1) + HexCharToInt(c2) == Bstring.PairValue(c1, c2)
  {
  }

  lemma RenderAppend(bytes: seq<Byte>, b: Byte)
    ensures Render(bytes + [b]) == Render(bytes) + ByteText(b)
  {
    assert (bytes + [b])[..|bytes|] == bytes;
  }

  /** A window starting at or past the point where none fits adds nothing. */
  lemma NoWindowPastEnd(hex: string, m: nat, gap: nat, length: nat, i: nat)
    requires m >= 1 && gap >= 1 && |hex| < i + 2 * length
    ensures Windows(hex, m, gap, length, i) == {}
  {
  }

  /**
   * The extracted values are exactly the packed windows at offsets
   * i, i + 2·gap, i + 4·gap, … that lie inside the text.
   */
  lemma {:induction false} WindowsMembers(hex: string, m: nat, gap: nat, length: nat, i: nat, x: nat)
    requires m >= 1 && gap >= 1
    ensures x in Windows(hex, m, gap, length, i) <==> InSomeWindow(hex, m, gap, length, i, x)
    decreases |hex| - i
  {
    if i < |hex| && i + length * 2 <= |hex| {
      WindowsMembers(hex, m, gap, length, i + gap * 2, x);
      if x in Windows(hex, m, gap, length, i) {
        WindowsStepIn(hex, m, gap, length, i, x);
      }
      if InSomeWindow(hex, m, gap, length, i, x) {
        WindowsStepOut(hex, m, gap, length, i, x);
      }
    }
  }

  /** `x` is the packed value of window k counted from offset i, for some k. */
  ghost predicate InSomeWindow(hex: string, m: nat, gap: nat, length: nat, i: nat, x: nat)
    requires m >= 1
  {
    exists k: nat, offset: nat :: WindowAt(hex, gap, length, i, k, offset) && x == Pack(hex[offset..offset + length * 2], m)
  }

  lemma WindowsStepIn(hex: string, m: nat, gap: nat, length: nat, i: nat, x: nat)
    requires m >= 1 && gap >= 1 && i < |hex| && i + length * 2 <= |hex|
    requires x in Windows(hex, m, gap, length, i + gap * 2) ==> InSomeWindow(hex, m, gap, length, i + gap * 2, x)
    requires x in Windows(hex, m, gap, length, i)
    ensures InSomeWindow(hex, m, gap, length, i, x)
  {
    if x != Pack(hex[i..i + length * 2], m) {
      var k: nat, offset: nat :| WindowAt(hex, gap, length, i + gap * 2, k, offset) && x == Pack(hex[offset..offset + length * 2], m);
      NextWindow(gap, k);
      assert WindowAt(hex, gap, length, i, k + 1, offset);
    } else {
      assert WindowAt(hex, gap, length, i, 0, i);
    }
  }

  lemma WindowsStepOut(hex: string, m: nat, gap: nat, length: nat, i: nat, x: nat)
    requires m >= 1 && gap >= 1 && i < |hex| && i + length * 2 <= |hex|
    requires InSomeWindow(hex, m, gap, length, i + gap * 2, x) ==> x in Windows(hex, m, gap, length, i + gap * 2)
    requires InSomeWindow(hex, m, gap, length, i, x)
    ensures x in Windows(hex, m, gap, length, i)
  {
    var k: nat, offset: nat :| WindowAt(hex, gap, length, i, k, offset) && x == Pack(hex[offset..offset + length * 2], m);
    if k > 0 {
      NextWindow(gap, k - 1);
      assert WindowAt(hex, gap, length, i + gap * 2, k - 1, offset);
      assert InSomeWindow(hex, m, gap, length, i + gap * 2, x);
    } else {
      assert offset == i;
    }
  }

  /** Window k+1 from offset i is window k from offset i + 2·gap. */
  lemma NextWindow(gap: nat, k: nat)
    ensures 2 * gap * (k + 1) == gap * 2 + 2 * gap * k
  {
  }

  /** An unsigned integer of `width` bytes holding a packed hex window. */
  class Substring {
    const width: nat
    var substring: nat

    predicate Valid()
      reads this
    {
      substring < Pow256(width)
    }

    /** `Substring(std::string hexString)`: the text packed four bits per character. */
    constructor FromHex(width: nat, hexString: string)
      ensures this.width == width && substring == Pack(hexString, Pow256(width))
      ensures Valid()
    {
      this.width := width;
      var value := 0;
      var len := |hexString|;
      for i := 0 to len
        invariant value == Pack(hexString[..i], Pow256(width))
      {
        assert hexString[..i + 1][..i] == hexString[..i];
        value := (value * 16 + HexCharToInt(hexString[i])) % Pow256(width);
      }
      assert hexString[..len] == hexString;
      substring := value;
    }

    /** `Substring(const T&)`. */
    constructor (width: nat, value: nat)
      requires value < Pow256(width)
      ensures this.width == width && substring == value
      ensures Valid()
    {
      this.width := width;
      substring := value;
    }

    /** The default constructor: value 0. */
    constructor Zero(width: nat)
      ensures this.width == width && substring == 0
      ensures Valid()
    {
      this.width := width;
      substring := 0;
    }

    function Less(other: Substring): bool
      reads this, other
    {
      substring < other.substring
    }

    function Greater(other: Substring): bool
      reads this, other
    {
      substring > other.substring
    }

    function Equal(other: Substring): bool
      reads this, other
    {
      substring == other.substring
    }

    /** `operator>=`, built from `>` and `==`: numeric at-least. */
    function AtLeast(other: Substring): (r: bool)
      reads this, other
      ensures r <==> substring >= other.substring
    {
      Greater(other) || Equal(other)
    }

    /** `operator<=`, built from `<` and `==`: numeric at-most. */
    function AtMost(other: Substring): (r: bool)
      reads this, other
      ensures r <==> substring <= other.substring
    {
      Less(other) || Equal(other)
    }

    /** `operator!=`, the negation of `==`. */
    function NotEqual(other: Substring): (r: bool)
      reads this, other
      ensures r <==> substring != other.substring
      ensures r <==> Less(other) || Greater(other)
    {
      !Equal(other)
    }

    /** `operator=`: the value is copied (only when it differs) and a copy of the result returned. */
    method Assign(other: Substring) returns (copy: nat)
      requires other.width == width
      modifies this
      ensures substring == old(other.substring) && copy == substring
    {
      if substring != other.substring {
        substring := other.substring;
      }
      copy := substring;
    }

    /**
     * `operator<<`: for i from width down to 1, the byte
     * `(substring >> 8(i-1)) & 0xFF` is written after what the stream held.
     */
    method WriteTo(os: string) returns (out: string)
      ensures out == os + Render(BytesOf(substring, width))
    {
      out := os;
      var n := substring;
      var i: nat := width;
      while i > 0
        invariant i <= width
        invariant Written(os, out, n, i, width)
      {
        var currentByte: Byte := ShiftBytes(n, i - 1) % 256;
        WriteStep(os, out, n, i, width);
        out := out + ByteText(currentByte);
        i := i - 1;
      }
      assert Written(os, out, n, 0, width);
    }

    /**
     * `extractSubstrings`: every window of 2·length characters starting at
     * 0, 2·gap, 4·gap, … that fits is packed and inserted into the caller's
     * set, where equal values are kept once.
     */
    static method ExtractSubstrings(width: nat, hexString: string, substrings: set<nat>, gap: nat, length: nat)
      returns (result: set<nat>)
      requires gap >= 1
      ensures result == substrings + Windows(hexString, Pow256(width), gap, length, 0)
    {
      result := substrings;
      var len := |hexString|;
      var i: nat := 0;
      while i < len && i + length * 2 <= len
        invariant result + Windows(hexString, Pow256(width), gap, length, i) == substrings + Windows(hexString, Pow256(width), gap, length, 0)
        decreases len - i
      {
        var window := new Substring.FromHex(width, hexString[i..i + length * 2]);
        result := result + {window.substring};
        i := i + gap * 2;
      }
    }
  }
}
