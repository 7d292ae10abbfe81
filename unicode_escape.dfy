/**
 * Python's `bytes(s, 'utf-8').decode('unicode-escape')`: the text is encoded
 * to UTF-8, then every byte that is not part of a backslash escape becomes
 * the character with that byte's value (so a non-ASCII character comes back
 * as several Latin-1 characters), and the escapes are decoded.
 */
module UnicodeEscape {
  import opened Wrappers
  import Hex

  type Byte = Hex.Byte

  /** The UTF-8 encoding of one character. */
  function Utf8(c: char): (r: seq<Byte>)
    ensures 1 <= |r| <= 4
    ensures (c as int < 128) <==> |r| == 1
    ensures |r| == 1 ==> r[0] == c as int
    ensures |r| > 1 ==> forall k :: 0 <= k < |r| ==> r[k] >= 128
  {
    var cp := c as int;
    if cp < 0x80 then [cp]
    else if cp < 0x800 then [0xC0 + cp / 64, 0x80 + cp % 64]
    else if cp < 0x10000 then [0xE0 + cp / 4096, 0x80 + (cp / 64) % 64, 0x80 + cp % 64]
    else [0xF0 + cp / 262144, 0x80 + (cp / 4096) % 64, 0x80 + (cp / 64) % 64, 0x80 + cp % 64]
  }

  /** The UTF-8 encoding of a string. */
  function Utf8Encode(s: string): (r: seq<Byte>)
    ensures |r| >= |s|
  {
    if s == [] then [] else Utf8(s[0]) + Utf8Encode(s[1..])
  }

  /** The single-character escapes: backslash, quotes and the control-character letters. */
  function SimpleEscape(c: Byte): Option<char>
  {
    if c == '\\' as int then Some('\\')
    else if c == '\'' as int then Some('\'')
    else if c == '"' as int then Some('"')
    else if c == 'b' as int then Some(8 as char)
    else if c == 'f' as int then Some(12 as char)
    else if c == 't' as int then Some('\t')
    else if c == 'n' as int then Some('\n')
    else if c == 'r' as int then Some('\r')
    else if c == 'v' as int then Some(11 as char)
    else if c == 'a' as int then Some(7 as char)
    else None
  }

  predicate IsOctal(c: Byte)
  {
    '0' as int <= c <= '7' as int
  }

  /** Number of octal digits, at most `left`, at the start of `b`. */
  function OctalRun(b: seq<Byte>, left: nat): (n: nat)
    ensures n <= left && n <= |b|
    ensures forall k :: 0 <= k < n ==> IsOctal(b[k])
    decreases left
  {
    if left > 0 && b != [] && IsOctal(b[0]) then 1 + OctalRun(b[1..], left - 1) else 0
  }

  /** Value of the octal digits `b[..n]`. */
  function OctalValue(b: seq<Byte>, n: nat): (v: nat)
    requires n <= 3 && n <= |b|
    requires forall k :: 0 <= k < n ==> IsOctal(b[k])
    ensures v < 512
    ensures n <= 2 ==> v < 64
    ensures n <= 1 ==> v < 8
  {
    if n == 0 then 0
    else
      assert IsOctal(b[n - 1]);
      OctalValue(b, n - 1) * 8 + (b[n - 1] - '0' as int)
  }

  /** Value of the `n` hexadecimal digits `b[..n]`, or `None` when fewer than `n` digits start `b`. */
  function HexRun(b: seq<Byte>, n: nat): (r: Option<nat>)
    ensures r.Some? ==> n <= |b|
  {
    if n == 0 then Some(0)
    else if n > |b| then None
    else
      var prefix := HexRun(b, n - 1);
      var d := Hex.DigitValue(b[n - 1] as char);
      if prefix.None? || d.None? then None else Some(prefix.value * 16 + d.value)
  }

  /** A code point a Dafny `char` can hold. */
  predicate IsScalar(v: nat)
  {
    v < 0xD800 || (0xE000 <= v < 0x110000)
  }

  /** Decodes a byte string. */
  function DecodeBytes(b: seq<Byte>): (r: Result<string>)
  {
    if b == [] then Ok([])
    else if b[0] != '\\' as int then Prepend([b[0] as char], DecodeBytes(b[1..]))
    else if |b| == 1 then Err("\\ at end of string")
    else
      var c := b[1];
      if c == '\n' as int then DecodeBytes(b[2..])
      else if SimpleEscape(c).Some? then Prepend([SimpleEscape(c).value], DecodeBytes(b[2..]))
      else if IsOctal(c) then
        var n := OctalRun(b[1..], 3);
        Prepend([OctalValue(b[1..], n) as char], DecodeBytes(b[1 + n..]))
      else if c == 'x' as int || c == 'u' as int || c == 'U' as int then
        var digits := if c == 'x' as int then 2 else if c == 'u' as int then 4 else 8;
        var v := HexRun(b[2..], digits);
        if v.None? then Err("truncated escape")
        else if v.value >= 0x110000 then Err("illegal Unicode character")
        else if !IsScalar(v.value) then Err("surrogate code point")
        else Prepend([v.value as char], DecodeBytes(b[2 + digits..]))
      else if c == 'N' as int then Err("named escape")
      else Prepend(['\\', c as char], DecodeBytes(b[2..]))
  }

  /** `bytes(s, 'utf-8').decode('unicode-escape')`. */
  function Decode(s: string): Result<string>
  {
    DecodeBytes(Utf8Encode(s))
  }

  lemma {:induction false} Utf8EncodeAscii(s: string)
    requires forall k :: 0 <= k < |s| ==> s[k] as int < 128
    ensures Utf8Encode(s) == seq(|s|, k requires 0 <= k < |s| => s[k] as int)
  {
    if s != [] {
      Utf8EncodeAscii(s[1..]);
    }
  }

  lemma {:induction false} Utf8EncodeAppend(a: string, b: string)
    ensures Utf8Encode(a + b) == Utf8Encode(a) + Utf8Encode(b)
  {
    if a == [] {
      assert a + b == b;
    } else {
      assert a + b != [] && (a + b)[0] == a[0];
      assert (a + b)[1..] == a[1..] + b;
      Utf8EncodeAppend(a[1..], b);
      calc {
        Utf8Encode(a + b);
        Utf8(a[0]) + Utf8Encode(a[1..] + b);
        Utf8(a[0]) + (Utf8Encode(a[1..]) + Utf8Encode(b));
        (Utf8(a[0]) + Utf8Encode(a[1..])) + Utf8Encode(b);
      }
    }
  }

  /** Bytes without a backslash decode one character per byte, each with that byte's value. */
  lemma {:induction false} DecodeBytesPlain(b: seq<Byte>)
    requires forall k :: 0 <= k < |b| ==> b[k] != '\\' as int
    ensures DecodeBytes(b).Ok?
    ensures |DecodeBytes(b).value| == |b|
    ensures forall k :: 0 <= k < |b| ==> DecodeBytes(b).value[k] as int == b[k]
  {
    if b != [] {
      DecodeBytesPlain(b[1..]);
    }
  }

  lemma {:induction false} PlainBytes(s: string)
    requires '\\' !in s
    ensures forall k :: 0 <= k < |Utf8Encode(s)| ==> Utf8Encode(s)[k] != '\\' as int
  {
    if s != [] {
      assert s[0] != '\\';
      assert '\\' !in s[1..];
      PlainBytes(s[1..]);
    }
  }

  /** Text without backslashes decodes to its own UTF-8 bytes, each read as one Latin-1 character. */
  lemma DecodePlain(s: string)
    requires '\\' !in s
    ensures Decode(s).Ok?
    ensures |Decode(s).value| == |Utf8Encode(s)|
    ensures forall k :: 0 <= k < |Utf8Encode(s)| ==> Decode(s).value[k] as int == Utf8Encode(s)[k]
  {
    PlainBytes(s);
    DecodeBytesPlain(Utf8Encode(s));
  }

  /** ASCII text without backslashes decodes to itself. */
  lemma DecodeAscii(s: string)
    requires '\\' !in s
    requires forall k :: 0 <= k < |s| ==> s[k] as int < 128
    ensures Decode(s) == Ok(s)
  {
    DecodePlain(s);
    Utf8EncodeAscii(s);
    var d := Decode(s).value;
    assert |d| == |s|;
    forall k | 0 <= k < |s| ensures d[k] == s[k] {
      assert d[k] as int == s[k] as int;
    }
    assert d == s;
  }

  /** A non-ASCII character comes back as its UTF-8 bytes read as Latin-1: e-acute decodes to two characters. */
  lemma MojibakeExample()
    ensures Decode("\U{E9}") == Ok("\U{C3}\U{A9}")
  {
    var b: seq<Byte> := [0xC3, 0xA9];
    assert Utf8('\U{E9}') == b;
    assert Utf8Encode("\U{E9}") == b + Utf8Encode([]);
    assert DecodeBytes(b) == Prepend(["\U{C3}"[0]], DecodeBytes(b[1..]));
    assert b[1..][1..] == [];
    assert DecodeBytes(b[1..]) == Prepend(["\U{A9}"[0]], DecodeBytes([]));
    assert DecodeBytes([]) == Ok([]);
    assert ["\U{A9}"[0]] + [] == "\U{A9}";
    assert DecodeBytes(b[1..]) == Ok("\U{A9}");
    assert ["\U{C3}"[0]] + "\U{A9}" == "\U{C3}\U{A9}";
    assert DecodeBytes(b) == Ok("\U{C3}\U{A9}");
    assert Utf8Encode("\U{E9}") == b;
  }

  /** `\xHH` followed by text: the character with the digits' value, then the decoding of the text. */
  lemma HexEscapeDecodes(h1: char, h2: char, rest: string)
    requires Hex.IsHexDigit(h1) && Hex.IsHexDigit(h2)
    ensures Decode("\\x" + [h1, h2] + rest)
         == Prepend([(Hex.DigitValue(h1).value * 16 + Hex.DigitValue(h2).value) as char], Decode(rest))
  {
    var esc := "\\x" + [h1, h2];
    Utf8EncodeAppend(esc, rest);
    Utf8EncodeAscii(esc);
    var b := Utf8Encode(esc + rest);
    assert b[..4] == ['\\' as int, 'x' as int, h1 as int, h2 as int];
    assert b[4..] == Utf8Encode(rest);
    assert b[2..][..2] == [h1 as int, h2 as int];
    assert HexRun(b[2..], 1) == Some(Hex.DigitValue(h1).value);
    assert b[2..][2..] == b[4..];
  }
}
