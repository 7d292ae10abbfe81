/**
 * Decoding of a Snort `content:` signature: the signature is lower-cased and
 * every `|hh hh ...|` span is replaced by one Latin-1 character per hex byte.
 */
module ContentProcessor {
  import opened Wrappers
  import opened PyStr
  import Hex
  import PcreRewrite

  /** The whitespace `bytes.fromhex` skips between byte pairs. */
  predicate IsAsciiSpace(c: char)
  {
    c == ' ' || ('\t' <= c <= '\r')
  }

  /** The characters of `s` that are not ASCII whitespace, in order. */
  function NonSpace(s: string): (r: string)
    ensures |r| <= |s|
  {
    if s == [] then [] else (if IsAsciiSpace(s[0]) then [] else [s[0]]) + NonSpace(s[1..])
  }

  /** The byte given by two hexadecimal digits. */
  function PairValue(hi: char, lo: char): (b: nat)
    requires Hex.IsHexDigit(hi) && Hex.IsHexDigit(lo)
    ensures b < 256
  {
    Hex.DigitValue(hi).value * 16 + Hex.DigitValue(lo).value
  }

  /** The bytes of a string of whole hexadecimal digit pairs, pair by pair. */
  function Pairs(t: string): (r: seq<nat>)
    requires Hex.AllHex(t) && |t| % 2 == 0
    ensures |r| == |t| / 2
    ensures forall k :: 0 <= k < |r| ==> r[k] < 256
  {
    if t == [] then [] else [PairValue(t[0], t[1])] + Pairs(t[2..])
  }

  lemma NonSpacePair(s: string)
    requires |s| >= 2 && !IsAsciiSpace(s[0]) && !IsAsciiSpace(s[1])
    ensures NonSpace(s) == [s[0], s[1]] + NonSpace(s[2..])
  {
    assert s[1..][0] == s[1] && s[1..][1..] == s[2..];
  }

  lemma PairSplit<T>(x: T, y: T, rest: seq<T>)
    ensures var t := [x, y] + rest; |t| == |rest| + 2 && t[0] == x && t[1] == y && t[2..] == rest
  {
  }

  lemma PairsFront(t: string)
    requires Hex.AllHex(t) && |t| % 2 == 0 && |t| >= 2
    ensures Pairs(t) == [PairValue(t[0], t[1])] + Pairs(t[2..])
  {
  }

  lemma EvenPlusTwo(n: nat)
    requires n % 2 == 0
    ensures (n + 2) % 2 == 0
  {
  }

  /** A leading pair of digits keeps the digits whole and paired. */
  lemma FrontPairHex(s: string)
    requires |s| >= 2 && Hex.IsHexDigit(s[0]) && Hex.IsHexDigit(s[1])
    requires Hex.AllHex(NonSpace(s[2..])) && |NonSpace(s[2..])| % 2 == 0
    ensures NonSpace(s) == [s[0], s[1]] + NonSpace(s[2..])
    ensures Hex.AllHex(NonSpace(s)) && |NonSpace(s)| % 2 == 0
  {
    assert !IsAsciiSpace(s[0]) && !IsAsciiSpace(s[1]);
    NonSpacePair(s);
    var tail := NonSpace(s[2..]);
    Hex.AllHexConcat([s[0], s[1]], tail);
    EvenPlusTwo(|tail|);
  }

  /** A leading pair of digits puts its byte in front of the bytes of the rest. */
  lemma FromHexPairStep(s: string, rest: seq<nat>)
    requires |s| >= 2 && Hex.IsHexDigit(s[0]) && Hex.IsHexDigit(s[1])
    requires Hex.AllHex(NonSpace(s[2..])) && |NonSpace(s[2..])| % 2 == 0 && rest == Pairs(NonSpace(s[2..]))
    ensures Hex.AllHex(NonSpace(s)) && |NonSpace(s)| % 2 == 0 && [PairValue(s[0], s[1])] + rest == Pairs(NonSpace(s))
  {
    FrontPairHex(s);
    var t := NonSpace(s);
    PairSplit(s[0], s[1], NonSpace(s[2..]));
    PairsFront(t);
  }

  /**
   * `bytes.fromhex(s)`: ASCII whitespace between byte pairs is skipped, each
   * pair of hexadecimal digits (either case) gives one byte, and anything
   * else (an odd digit, a space inside a pair, any other character) raises
   * ValueError. On success the bytes are those of the digits with all
   * whitespace removed.
   */
  function FromHex(s: string): (r: Result<seq<nat>>)
    ensures r.Ok? ==> Hex.AllHex(NonSpace(s)) && |NonSpace(s)| % 2 == 0 && r.value == Pairs(NonSpace(s))
  {
    if s == [] then Ok([])
    else if IsAsciiSpace(s[0]) then
      assert NonSpace(s) == NonSpace(s[1..]);
      FromHex(s[1..])
    else if |s| < 2 || !Hex.IsHexDigit(s[0]) || !Hex.IsHexDigit(s[1]) then
      Err("ValueError: non-hexadecimal number found in fromhex() arg")
    else
      var rest := FromHex(s[2..]);
      if rest.Ok? then
        FromHexPairStep(s, rest.value);
        Ok([PairValue(s[0], s[1])] + rest.value)
      else rest
  }

  /** An odd number of hexadecimal digits cannot be decoded. */
  lemma {:induction false} FromHexOddFails(s: string)
    requires Hex.AllHex(s)
    requires |s| % 2 == 1
    ensures FromHex(s).Err?
  {
    if |s| > 1 {
      assert Hex.AllHex(s[2..]);
      FromHexOddFails(s[2..]);
    }
  }

  lemma LowerCharHex(c: char)
    ensures IsAsciiSpace(LowerChar(c)) == IsAsciiSpace(c)
    ensures Hex.DigitValue(LowerChar(c)) == Hex.DigitValue(c)
  {
  }

  /** Lower-casing a span never changes the bytes it decodes to. */
  lemma {:induction false} FromHexLower(s: string)
    ensures FromHex(Lower(s)) == FromHex(s)
  {
    if s != [] {
      var l := Lower(s);
      LowerCharHex(s[0]);
      if IsAsciiSpace(s[0]) {
        LowerDrop(s, 1);
        FromHexLower(s[1..]);
      } else if |s| >= 2 {
        LowerCharHex(s[1]);
        LowerDrop(s, 2);
        FromHexLower(s[2..]);
      }
    }
  }

  /** Each byte read as ISO-8859-1: exactly one character per byte, with the byte's value. */
  function Latin1(b: seq<nat>): (r: string)
    requires forall k :: 0 <= k < |b| ==> b[k] < 256
    ensures |r| == |b|
    ensures forall k :: 0 <= k < |b| ==> r[k] as int == b[k]
  {
    if b == [] then [] else [b[0] as char] + Latin1(b[1..])
  }

  /** The replacement for one span: its stripped text decoded from hex, then read as Latin-1. */
  function DecodeSpan(inner: string): (r: Result<string>)
    ensures r.Ok? ==> 2 * |r.value| == |NonSpace(Strip(inner))|
  {
    var bytes := FromHex(Strip(inner));
    if bytes.Err? then Err(bytes.error) else Ok(Latin1(bytes.value))
  }

  /**
   * `re.sub` with a lazy `|(.*?)|`: scanning left to right, a `|` starts a
   * span when another `|` follows before any newline; the span is replaced
   * by its decoding and the scan resumes after the closing `|`. Any other
   * character, including a `|` without a partner, is copied.
   */
  function DecodeSpans(s: string): (r: Result<string>)
  {
    if s == [] then Ok([])
    else if s[0] != '|' then Prepend([s[0]], DecodeSpans(s[1..]))
    else
      var close := PcreRewrite.LazyClose(s, 1, '|');
      if close.None? then Prepend([s[0]], DecodeSpans(s[1..]))
      else
        var span := DecodeSpan(s[1..close.value]);
        if span.Err? then Err(span.error) else Prepend(span.value, DecodeSpans(s[close.value + 1..]))
  }

  /** `ContentProcessor.run`: lower-case, decode the spans, return one list of characters. */
  function Run(content: string): (r: Result<seq<seq<char>>>)
    ensures r.Ok? ==> |r.value| == 1
  {
    var decoded := DecodeSpans(Lower(content));
    if decoded.Err? then Err(decoded.error) else Ok([decoded.value])
  }

  /** Text without any `|` is copied unchanged. */
  lemma {:induction false} DecodeSpansNoPipe(s: string)
    requires '|' !in s
    ensures DecodeSpans(s) == Ok(s)
  {
    if s != [] {
      assert '|' !in s[1..];
      DecodeSpansNoPipe(s[1..]);
      assert [s[0]] + s[1..] == s;
    }
  }

  /** A `|` with no later partner is copied through as a literal character. */
  lemma UnpairedPipeCopied(a: string, b: string)
    requires '|' !in a && '|' !in b
    ensures DecodeSpans(a + "|" + b) == Ok(a + "|" + b)
  {
    var s := "|" + b;
    assert a + "|" + b == a + s;
    DecodeSpansNoPipePrefix(a, s);
    NoClose(s, 1);
    assert s[1..] == b;
    DecodeSpansNoPipe(b);
  }

  lemma {:induction false} NoClose(s: string, j: nat)
    requires forall m :: j <= m < |s| ==> s[m] != '|'
    ensures PcreRewrite.LazyClose(s, j, '|').None?
    decreases |s| - j
  {
    if j < |s| && s[j] != '\n' {
      NoClose(s, j + 1);
    }
  }

  /** A first character other than `|` is copied. */
  lemma PlainFirst(a: string, rest: string)
    requires a != [] && a[0] != '|'
    requires DecodeSpans(a[1..] + rest) == Prepend(a[1..], DecodeSpans(rest))
    ensures DecodeSpans(a + rest) == Prepend(a, DecodeSpans(rest))
  {
    ConsSplit(a, rest);
    PlainUnfold(a + rest);
    PrependPrepend([a[0]], a[1..], DecodeSpans(rest));
  }

  /** One step of `DecodeSpans` over a character other than `|`. */
  lemma PlainUnfold(s: string)
    requires s != [] && s[0] != '|'
    ensures DecodeSpans(s) == Prepend([s[0]], DecodeSpans(s[1..]))
  {
  }

  lemma ConsSplit<T>(a: seq<T>, rest: seq<T>)
    requires a != []
    ensures (a + rest)[0] == a[0] && (a + rest)[1..] == a[1..] + rest && [a[0]] + a[1..] == a
  {
  }

  /** Text before the first `|` is copied, then decoding continues at that `|`. */
  lemma {:induction false} DecodeSpansNoPipePrefix(a: string, rest: string)
    requires '|' !in a
    ensures DecodeSpans(a + rest) == Prepend(a, DecodeSpans(rest))
  {
    if a != [] {
      assert '|' !in a[1..];
      DecodeSpansNoPipePrefix(a[1..], rest);
      PlainFirst(a, rest);
    } else {
      assert a + rest == rest;
      PrependEmptyPrefix(DecodeSpans(rest));
    }
  }

  /**
   * Pipes pair up left to right: text before the first `|` is copied, the
   * first and second `|` delimit a span (when no newline separates them)
   * that becomes its decoded bytes, and decoding goes on after the span.
   */
  lemma SpanDecoded(a: string, inner: string, rest: string)
    requires '|' !in a && '|' !in inner && '\n' !in inner
    ensures DecodeSpans(a + "|" + inner + "|" + rest)
         == (var span := DecodeSpan(inner);
             if span.Err? then Err(span.error) else Prepend(a + span.value, DecodeSpans(rest)))
  {
    var s := "|" + inner + "|" + rest;
    assert a + "|" + inner + "|" + rest == a + s;
    DecodeSpansNoPipePrefix(a, s);
    SpanAtFront(inner, rest);
    var span := DecodeSpan(inner);
    if span.Ok? {
      PrependPrepend(a, span.value, DecodeSpans(rest));
    }
  }

  /** A span at the very front is replaced by its decoding, and decoding goes on after it. */
  lemma SpanAtFront(inner: string, rest: string)
    requires '|' !in inner && '\n' !in inner
    ensures DecodeSpans("|" + inner + "|" + rest)
         == (var span := DecodeSpan(inner);
             if span.Err? then Err(span.error) else Prepend(span.value, DecodeSpans(rest)))
  {
    var s := "|" + inner + "|" + rest;
    var k := 1 + |inner|;
    assert s[k] == '|';
    forall m | 1 <= m < k ensures s[m] != '|' && s[m] != '\n' {
      assert s[m] == inner[m - 1];
    }
    ClosesFrom(s, 1, k);
    assert s[1..k] == inner;
    assert s[k + 1..] == rest;
  }

  lemma {:induction false} ClosesFrom(s: string, j: nat, k: nat)
    requires j <= k < |s| && s[k] == '|'
    requires forall m :: j <= m < k ==> s[m] != '|' && s[m] != '\n'
    ensures PcreRewrite.LazyClose(s, j, '|') == Some(k)
    decreases k - j
  {
    if j < k {
      ClosesFrom(s, j + 1, k);
    }
  }

  /** Lower-casing leaves the pipes around a span in place. */
  lemma LowerSpan(t: string)
    ensures Lower("|" + t + "|") == "|" + Lower(t) + "|"
  {
    LowerAppend("|" + t, "|");
    LowerAppend("|", t);
    assert Lower("|") == "|";
  }

  /** Two hexadecimal digits decode to the one byte they spell. */
  lemma FromHexPair(h1: char, h2: char)
    requires Hex.IsHexDigit(h1) && Hex.IsHexDigit(h2)
    ensures FromHex([h1, h2]) == Ok([PairValue(h1, h2)])
  {
    var t := [h1, h2];
    assert t[2..] == [];
    assert [PairValue(h1, h2)] + [] == [PairValue(h1, h2)];
  }

  /** `strip` leaves two characters that are not whitespace alone. */
  lemma StripPair(t: string)
    requires |t| == 2 && !IsSpace(t[0]) && !IsSpace(t[1])
    ensures Strip(t) == t
  {
    assert LeadingSpaces(t) == 0;
    assert TrailingSpaces(t) == 0;
  }

  /** Two hexadecimal digits stay two hexadecimal digits, and so no pipe or newline, when lower-cased. */
  lemma LowerPair(h1: char, h2: char)
    requires Hex.IsHexDigit(h1) && Hex.IsHexDigit(h2)
    ensures var lt := Lower([h1, h2]);
      |lt| == 2 && Hex.IsHexDigit(lt[0]) && Hex.IsHexDigit(lt[1]) && '|' !in lt && '\n' !in lt
  {
    LowerCharHex(h1);
    LowerCharHex(h2);
  }

  lemma DecodeSpanPair(h1: char, h2: char)
    requires Hex.IsHexDigit(h1) && Hex.IsHexDigit(h2)
    ensures DecodeSpan(Lower([h1, h2])) == Ok([PairValue(h1, h2) as char])
  {
    var lt := Lower([h1, h2]);
    LowerPair(h1, h2);
    StripPair(lt);
    FromHexLower([h1, h2]);
    FromHexPair(h1, h2);
    assert Latin1([PairValue(h1, h2)]) == [PairValue(h1, h2) as char];
  }

  /**
   * The whole signature is lower-cased before the spans are decoded, yet a
   * span's byte keeps its value: `|4A|` still yields an upper-case 'J'.
   */
  lemma SpanKeepsCase(h1: char, h2: char)
    requires Hex.IsHexDigit(h1) && Hex.IsHexDigit(h2)
    ensures Run("|" + [h1, h2] + "|") == Ok([[PairValue(h1, h2) as char]])
  {
    var lt := Lower([h1, h2]);
    var c := PairValue(h1, h2) as char;
    LowerSpan([h1, h2]);
    LowerPair(h1, h2);
    DecodeSpanPair(h1, h2);
    SpanAtFront(lt, []);
    NothingAfter("|" + lt + "|");
    assert DecodeSpans([]) == Ok([]);
    PrependEmpty([c]);
  }

  lemma NothingAfter<T>(s: seq<T>)
    ensures s + [] == s
  {
  }

  lemma HexByteKeepsCase()
    ensures Run("|4A|") == Ok([['J']])
  {
    SpanKeepsCase('4', 'A');
    assert "|" + ['4', 'A'] + "|" == "|4A|";
    assert PairValue('4', 'A') == 0x4A;
  }
}
