/**
 * `hexToBstring`: a hexadecimal text, with or without a leading `0x`, read
 * two characters at a time into bytes appended to a byte string.
 */
module Bstring {
  import opened Wrappers
  import Hex

  type Byte = Hex.Byte

  predicate HasPrefix0x(s: string)
  {
    |s| >= 2 && s[..2] == "0x"
  }

  /** The text with a leading `0x` removed; a `0x` anywhere else stays. */
  function StripPrefix(s: string): (r: string)
    ensures HasPrefix0x(s) ==> "0x" + r == s
    ensures !HasPrefix0x(s) ==> r == s
  {
    if HasPrefix0x(s) then s[2..] else s
  }

  predicate IsSpace(c: char)
  {
    c == ' ' || c == '\t' || c == '\n' || c == '\U{000B}' || c == '\U{000C}' || c == '\r'
  }

  /**
   * `iss >> std::hex >> byteValue` on one two-character piece, cast to a
   * byte: leading white space is skipped, a sign is read, then as many hex
   * digits as follow. A piece with no digit fails and leaves 0.
   */
  function PairValue(c1: char, c2: char): (v: Byte)
    ensures Hex.IsHexDigit(c1) && Hex.IsHexDigit(c2) ==>
      v == 16 * Hex.DigitValue(c1).value + Hex.DigitValue(c2).value
  {
    var d1 := Hex.DigitValue(c1);
    var d2 := Hex.DigitValue(c2);
    if d1.Some? && d2.Some? then 16 * d1.value + d2.value
    else if d1.Some? then d1.value
    else if (IsSpace(c1) || c1 == '+') && d2.Some? then d2.value
    else if c1 == '-' && d2.Some? then (256 - d2.value) % 256
    else 0
  }

  /** The bytes of a text of even length, one per pair of characters. */
  function Pairs(s: string): (r: seq<Byte>)
    requires |s| % 2 == 0
    ensures |r| == |s| / 2
    ensures forall k :: 0 <= k < |r| ==> r[k] == PairValue(s[2 * k], s[2 * k + 1])
  {
    if s == [] then []
    else
      var rest := Pairs(s[2..]);
      assert |rest| == |s| / 2 - 1;
      assert forall k :: 1 <= k < |s| / 2 ==> rest[k - 1] == PairValue(s[2 * k], s[2 * k + 1]) by {
        forall k | 1 <= k < |s| / 2
          ensures rest[k - 1] == PairValue(s[2 * k], s[2 * k + 1])
        {
          var j := k - 1;
          assert 2 * j + 2 == 2 * k;
          assert s[2..][2 * j] == s[2 * k] && s[2..][2 * j + 1] == s[2 * k + 1];
        }
      }
      [PairValue(s[0], s[1])] + rest
  }

  /** What `hexToBstring` appends, or the `invalid_argument` it throws on an odd length. */
  function HexToBytes(hexString: string): Result<seq<Byte>>
  {
    var cleaned := StripPrefix(hexString);
    if |cleaned| % 2 != 0 then Err("Hex string length must be even!")
    else Ok(Pairs(cleaned))
  }

  /**
   * `hexToBstring(hexString, bstring)`: the caller's byte string is passed
   * in and the extended one returned; on an odd length nothing is appended
   * and the error is returned instead.
   */
  method HexToBstring(hexString: string, bstring: seq<Byte>) returns (r: Result<seq<Byte>>)
    ensures HexToBytes(hexString).Err? ==> r == Err(HexToBytes(hexString).error)
    ensures HexToBytes(hexString).Ok? ==> r == Ok(bstring + HexToBytes(hexString).value)
  {
    var cleaned := if |hexString| >= 2 && hexString[..2] == "0x" then hexString[2..] else hexString;
    var len := |cleaned|;
    if len % 2 != 0 {
      return Err("Hex string length must be even!");
    }
    var out := bstring;
    var i := 0;
    while i < len
      invariant i % 2 == 0 && i <= len
      invariant |out| == |bstring| + i / 2
      invariant out[..|bstring|] == bstring
      invariant forall k :: 0 <= k < i / 2 ==> out[|bstring| + k] == PairValue(cleaned[2 * k], cleaned[2 * k + 1])
    {
      out := out + [PairValue(cleaned[i], cleaned[i + 1])];
      i := i + 2;
    }
    assert out == bstring + Pairs(cleaned);
    return Ok(out);
  }

  /** Each byte as two upper-case hexadecimal digits, the form the search keys use. */
  function EncodeHex(bytes: seq<Byte>): (r: string)
    ensures |r| == 2 * |bytes|
    ensures forall k :: 0 <= k < |bytes| ==>
      r[2 * k] == Hex.UpperDigit(bytes[k] / 16) && r[2 * k + 1] == Hex.UpperDigit(bytes[k] % 16)
  {
    if bytes == [] then []
    else
      var rest := EncodeHex(bytes[1..]);
      [Hex.UpperDigit(bytes[0] / 16), Hex.UpperDigit(bytes[0] % 16)] + rest
  }

  /** Decoding undoes encoding, with or without the `0x` prefix. */
  lemma HexToBytesEncodeHex(bytes: seq<Byte>)
    ensures HexToBytes(EncodeHex(bytes)) == Ok(bytes)
    ensures HexToBytes("0x" + EncodeHex(bytes)) == Ok(bytes)
  {
    var e := EncodeHex(bytes);
    if |e| >= 2 {
      assert e[1] != 'x';
    }
    assert !HasPrefix0x(e);
    var p := "0x" + e;
    assert p[2..] == e;
    var d := Pairs(e);
    forall k | 0 <= k < |bytes| ensures d[k] == bytes[k] {
      assert PairValue(e[2 * k], e[2 * k + 1]) == 16 * (bytes[k] / 16) + bytes[k] % 16;
    }
    assert d == bytes;
  }

  /**
   * Only one leading `0x` is stripped: a second one is read as the pair
   * `0x`, whose digit 0 gives the byte 0.
   */
  lemma PrefixStrippedOnce(s: string)
    requires |s| % 2 == 0
    ensures HexToBytes("0x" + s) == Ok(Pairs(s))
    ensures HasPrefix0x(s) ==> Pairs(s)[0] == 0
  {
    var p := "0x" + s;
    assert p[..2] == "0x" && p[2..] == s;
  }
}
