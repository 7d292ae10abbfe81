/**
 * The two text keys both C++ parsers build: the exact-match key, "0x"
 * followed by the digits of every `0x`-prefixed element of an
 * `exact_match_hex` list, and the search key, "0x" followed by a spaced
 * hex example with its spaces removed.
 */
module HexKeys {
  import opened Wrappers
  import Hex
  import Bstring

  type Byte = Hex.Byte

  /** What one element adds to the key: its text after a leading `0x`, or nothing. */
  function Contribution(hex: string): (r: string)
    ensures Bstring.HasPrefix0x(hex) ==> "0x" + r == hex
    ensures !Bstring.HasPrefix0x(hex) ==> r == []
  {
    if Bstring.HasPrefix0x(hex) then hex[2..] else []
  }

  /** The contributions of all elements, in order. */
  function Concat(hexes: seq<string>): string
  {
    if hexes == [] then []
    else Concat(hexes[..|hexes| - 1]) + Contribution(hexes[|hexes| - 1])
  }

  /** The key `parseLine` stores for one exact match. */
  function MatchKey(hexes: seq<string>): (r: string)
    ensures |r| >= 2 && r[..2] == "0x"
  {
    "0x" + Concat(hexes)
  }

  /** The concatenation loop of `parseLine` (both Parser.h files). */
  method BuildMatchKey(hexes: seq<string>) returns (key: string)
    ensures key == MatchKey(hexes)
  {
    key := "0x";
    for j := 0 to |hexes|
      invariant key == "0x" + Concat(hexes[..j])
    {
      var valueToConcat := "";
      if |hexes[j]| >= 2 && hexes[j][..2] == "0x" {
        valueToConcat := hexes[j][2..];
      }
      assert hexes[..j + 1][..j] == hexes[..j];
      key := key + valueToConcat;
    }
    assert hexes[..|hexes|] == hexes;
  }

  /** An element without the `0x` prefix leaves the key as it was. */
  lemma UnprefixedAddsNothing(hexes: seq<string>, hex: string)
    requires !Bstring.HasPrefix0x(hex)
    ensures MatchKey(hexes + [hex]) == MatchKey(hexes)
  {
    assert (hexes + [hex])[..|hexes|] == hexes;
  }

  /** Joining keys: the key of two lists is the first key followed by the second's digits. */
  lemma {:induction false} ConcatAppend(a: seq<string>, b: seq<string>)
    ensures Concat(a + b) == Concat(a) + Concat(b)
    decreases |b|
  {
    if b == [] {
      assert a + b == a;
    } else {
      var pre := b[..|b| - 1];
      var last := Contribution(b[|b| - 1]);
      ConcatAppend(a, pre);
      InitOfAppend(a, b);
      assert Concat(a + b) == Concat(a + pre) + last;
      assert Concat(b) == Concat(pre) + last;
      AssocThree(Concat(a), Concat(pre), last);
    }
  }

  /** The text without its spaces, other characters kept in order. */
  function WithoutSpaces(s: string): (r: string)
    ensures ' ' !in r && |r| <= |s|
  {
    if s == [] then []
    else
      var rest := WithoutSpaces(s[..|s| - 1]);
      if s[|s| - 1] == ' ' then rest else rest + [s[|s| - 1]]
  }

  /** The search-key loop of `parseFile(…, SearchResults)` (both Parser.h files). */
  method BuildSearchKey(example: string) returns (key: string)
    ensures key == "0x" + WithoutSpaces(example)
  {
    key := "0x";
    for i := 0 to |example|
      invariant key == "0x" + WithoutSpaces(example[..i])
    {
      assert example[..i + 1][..i] == example[..i];
      if example[i] != ' ' {
        key := key + [example[i]];
      }
    }
    assert example[..|example|] == example;
  }

  /** Removing spaces keeps every other character: concatenation commutes with it. */
  lemma {:induction false} WithoutSpacesAppend(a: string, b: string)
    ensures WithoutSpaces(a + b) == WithoutSpaces(a) + WithoutSpaces(b)
    decreases |b|
  {
    if b == [] {
      assert a + b == a;
    } else {
      WithoutSpacesAppend(a, b[..|b| - 1]);
      InitOfAppend(a, b);
    }
  }

  lemma {:induction false} WithoutSpacesNone(s: string)
    requires ' ' !in s
    ensures WithoutSpaces(s) == s
    decreases |s|
  {
    if s != [] {
      WithoutSpacesNone(s[..|s| - 1]);
    }
  }

  /** The spaced form of a test example: two upper-case digits per byte, separated by single spaces. */
  function Spaced(bytes: seq<Byte>): string
  {
    if bytes == [] then []
    else if |bytes| == 1 then Bstring.EncodeHex(bytes)
    else Bstring.EncodeHex(bytes[..1]) + " " + Spaced(bytes[1..])
  }

  lemma {:induction false} SpacedKey(bytes: seq<Byte>)
    ensures WithoutSpaces(Spaced(bytes)) == Bstring.EncodeHex(bytes)
    decreases |bytes|
  {
    if bytes == [] {
    } else {
      var head := Bstring.EncodeHex(bytes[..1]);
      assert ' ' !in head;
      WithoutSpacesNone(head);
      if |bytes| == 1 {
      } else {
        SpacedKey(bytes[1..]);
        WithoutSpacesAppend(head + " ", Spaced(bytes[1..]));
        WithoutSpacesAppend(head, " ");
        assert WithoutSpaces(" ") == [];
        EncodeHexAppend(bytes[..1], bytes[1..]);
        assert bytes[..1] + bytes[1..] == bytes;
      }
    }
  }

  lemma {:induction false} EncodeHexAppend(a: seq<Byte>, b: seq<Byte>)
    ensures Bstring.EncodeHex(a + b) == Bstring.EncodeHex(a) + Bstring.EncodeHex(b)
    decreases |a|
  {
    if a == [] {
      assert a + b == b;
    } else {
      EncodeHexAppend(a[1..], b);
      TailOfAppend(a, b);
      var front := [Hex.UpperDigit(a[0] / 16), Hex.UpperDigit(a[0] % 16)];
      assert Bstring.EncodeHex(a) == front + Bstring.EncodeHex(a[1..]);
      assert Bstring.EncodeHex(a + b) == front + Bstring.EncodeHex(a[1..] + b);
      AssocThree(front, Bstring.EncodeHex(a[1..]), Bstring.EncodeHex(b));
    }
  }

  /** The search key of a spaced example decodes back to the example's bytes. */
  lemma SearchKeyDecodes(bytes: seq<Byte>)
    ensures Bstring.HexToBytes("0x" + WithoutSpaces(Spaced(bytes))) == Ok(bytes)
  {
    SpacedKey(bytes);
    Bstring.HexToBytesEncodeHex(bytes);
  }

  // Exact-match keys from the hex lists Part A writes.

  /** Python's `hex(b)` for each byte: `0x` and the digits without padding. */
  function PyHexList(bytes: seq<Byte>): (r: seq<string>)
    ensures |r| == |bytes|
    ensures forall k :: 0 <= k < |bytes| ==> r[k] == Hex.PyHex(bytes[k])
  {
    seq(|bytes|, k requires 0 <= k < |bytes| => Hex.PyHex(bytes[k]))
  }

  /** `'0x%02x' % b` for each byte: always two digits. */
  function PaddedHex(b: Byte): (r: string)
    ensures |r| == 4 && r[..2] == "0x"
  {
    ['0', 'x', Hex.LowerDigit(b / 16), Hex.LowerDigit(b % 16)]
  }

  function PaddedHexList(bytes: seq<Byte>): (r: seq<string>)
    ensures |r| == |bytes|
    ensures forall k :: 0 <= k < |bytes| ==> r[k] == PaddedHex(bytes[k])
  {
    seq(|bytes|, k requires 0 <= k < |bytes| => PaddedHex(bytes[k]))
  }

  /** The two lower-case digits of every byte, back to back. */
  function LowerPairs(bytes: seq<Byte>): (r: string)
    ensures |r| == 2 * |bytes|
  {
    if bytes == [] then []
    else LowerPairs(bytes[..|bytes| - 1]) + PaddedHex(bytes[|bytes| - 1])[2..]
  }

  lemma {:induction false} LowerPairsAt(bytes: seq<Byte>, k: nat)
    requires k < |bytes|
    ensures LowerPairs(bytes)[2 * k] == Hex.LowerDigit(bytes[k] / 16)
    ensures LowerPairs(bytes)[2 * k + 1] == Hex.LowerDigit(bytes[k] % 16)
    decreases |bytes|
  {
    var pre := bytes[..|bytes| - 1];
    if k < |pre| {
      LowerPairsAt(pre, k);
    }
  }

  lemma {:induction false} ConcatPadded(bytes: seq<Byte>)
    ensures Concat(PaddedHexList(bytes)) == LowerPairs(bytes)
    decreases |bytes|
  {
    if bytes != [] {
      var pre := bytes[..|bytes| - 1];
      ConcatPadded(pre);
      assert PaddedHexList(bytes)[..|bytes| - 1] == PaddedHexList(pre);
    }
  }

  lemma PairOfDigits(b: Byte)
    ensures Bstring.PairValue(Hex.LowerDigit(b / 16), Hex.LowerDigit(b % 16)) == b
  {
  }

  /** With two digits per byte, the key Part C builds decodes to exactly the fragment's bytes. */
  lemma PaddedKeyDecodes(bytes: seq<Byte>)
    ensures Bstring.HexToBytes(MatchKey(PaddedHexList(bytes))) == Ok(bytes)
  {
    ConcatPadded(bytes);
    var digits := LowerPairs(bytes);
    assert MatchKey(PaddedHexList(bytes)) == "0x" + digits;
    Bstring.PrefixStrippedOnce(digits);
    LowerPairsDecode(bytes);
  }

  lemma LowerPairsDecode(bytes: seq<Byte>)
    ensures Bstring.Pairs(LowerPairs(bytes)) == bytes
  {
    var d := Bstring.Pairs(LowerPairs(bytes));
    forall k | 0 <= k < |bytes| ensures d[k] == bytes[k] {
      LowerPairsAt(bytes, k);
      PairOfDigits(bytes[k]);
    }
  }

  /** `hex(b)` and the padded form agree on every byte from 16 up. */
  lemma PyHexListPadded(bytes: seq<Byte>)
    requires forall k :: 0 <= k < |bytes| ==> bytes[k] >= 16
    ensures PyHexList(bytes) == PaddedHexList(bytes)
  {
    forall k | 0 <= k < |bytes| ensures Hex.PyHex(bytes[k]) == PaddedHex(bytes[k]) {
      Hex.PyHexTwoDigits(bytes[k]);
    }
  }

  /** So Part A's own hex lists round-trip whenever no byte is below 16. */
  lemma PyHexKeyDecodes(bytes: seq<Byte>)
    requires forall k :: 0 <= k < |bytes| ==> bytes[k] >= 16
    ensures Bstring.HexToBytes(MatchKey(PyHexList(bytes))) == Ok(bytes)
  {
    PyHexListPadded(bytes);
    PaddedKeyDecodes(bytes);
  }

  lemma ConcatThree(a: string, b: string, c: string)
    ensures Concat([a, b, c]) == Contribution(a) + Contribution(b) + Contribution(c)
  {
    assert [a, b, c][..2] == [a, b];
    assert [a, b][..1] == [a];
    assert [a][..0] == [];
    assert Concat([a]) == Contribution(a);
    assert Concat([a, b]) == Contribution(a) + Contribution(b);
  }

  lemma ShortContributions()
    ensures Contribution("0x1") == "1" && Contribution("0x2") == "2" && Contribution("0x9") == "9"
    ensures Contribution("0x41") == "41" && Contribution("0x42") == "42"
  {
    assert "0x1"[..2] == "0x" && "0x2"[..2] == "0x" && "0x9"[..2] == "0x";
    assert "0x41"[..2] == "0x" && "0x42"[..2] == "0x";
  }

  /**
   * A byte below 16 is written as a single digit by `hex`, which shifts
   * every later pair: the bytes 01 02 41 come back as 12 41.
   */
  lemma PyHexKeyShifts()
    ensures Bstring.HexToBytes(MatchKey(PyHexList([1, 2, 0x41]))) == Ok([0x12, 0x41])
  {
    Hex.PyHexOneDigit(1);
    Hex.PyHexOneDigit(2);
    Hex.PyHexTwoDigits(0x41);
    var l := PyHexList([1, 2, 0x41]);
    assert l == ["0x1", "0x2", "0x41"];
    ConcatThree("0x1", "0x2", "0x41");
    ShortContributions();
    Bstring.PrefixStrippedOnce("1241");
    assert Bstring.Pairs("1241") == [0x12, 0x41] by {
      assert "1241"[2..] == "41";
    }
  }

  /** And the bytes 09 41 42 give an odd digit count, which `hexToBstring` rejects. */
  lemma PyHexKeyOdd()
    ensures Bstring.HexToBytes(MatchKey(PyHexList([9, 0x41, 0x42]))).Err?
  {
    Hex.PyHexOneDigit(9);
    Hex.PyHexTwoDigits(0x41);
    Hex.PyHexTwoDigits(0x42);
    var l := PyHexList([9, 0x41, 0x42]);
    assert l == ["0x9", "0x41", "0x42"];
    ConcatThree("0x9", "0x41", "0x42");
    ShortContributions();
    assert Concat(l) == "94142";
    var k := MatchKey(l);
    assert k[..2] == "0x" && Bstring.HasPrefix0x(k);
    assert |Bstring.StripPrefix(k)| == 5;
  }
}
