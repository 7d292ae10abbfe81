/**
 * Extraction of literal fragments from a pcre signature: escaped meta
 * characters are canonicalised to `\xHH` escapes, `c{n}` is expanded, every
 * ambiguous construct of the rewrite list becomes a space, and the
 * space-separated, non-blank pieces are lower-cased and escape-decoded.
 */
module ExactMatchExtractor {
  import opened Wrappers
  import opened PyStr
  import Hex
  import opened ExtractorConfig
  import opened PcreRewrite
  import UnicodeEscape

  /** `char_to_utf8`: a backslash, `x`, and the code point in upper-case hex, at least two digits. */
  function CharToUtf8(c: char): (r: string)
    ensures |r| >= 4 && r[..2] == "\\x"
    ensures Hex.AllHex(r[2..]) && Hex.Value(r[2..]) == c as int
    ensures c as int < 256 ==> |r| == 4
  {
    var r := "\\x" + Hex.Format02X(c as int);
    assert r[2..] == Hex.Format02X(c as int);
    r
  }

  lemma LowerHexDigit(c: char)
    requires Hex.IsHexDigit(c)
    ensures Hex.IsHexDigit(LowerChar(c)) && Hex.DigitValue(LowerChar(c)) == Hex.DigitValue(c)
  {
  }

  /**
   * Decoding the lower-cased escape of a character below 256 gives the
   * character back: lower-casing only touches the hex digits' case.
   */
  lemma EscapeRoundTrip(c: char)
    requires c as int < 256
    ensures UnicodeEscape.Decode(Lower(CharToUtf8(c))) == Ok([c])
  {
    var e := CharToUtf8(c);
    assert e == "\\x" + [e[2], e[3]];
    assert e[2..] == [e[2], e[3]];
    HexPairValue(e[2], e[3]);
    LoweredEscapeDecodes(e[2], e[3]);
  }

  lemma HexPairValue(d1: char, d2: char)
    requires Hex.AllHex([d1, d2])
    ensures Hex.IsHexDigit(d1) && Hex.IsHexDigit(d2)
    ensures Hex.Value([d1, d2]) == Hex.DigitValue(d1).value * 16 + Hex.DigitValue(d2).value
  {
    assert IsHexAt([d1, d2], 0) && IsHexAt([d1, d2], 1);
    assert [d1, d2][..1] == [d1];
    assert [d1][..0] == [];
    assert Hex.Value([d1]) == Hex.DigitValue(d1).value;
  }

  predicate IsHexAt(s: string, i: nat)
    requires i < |s|
  {
    Hex.IsHexDigit(s[i])
  }

  lemma LoweredEscapeDecodes(d1: char, d2: char)
    requires Hex.IsHexDigit(d1) && Hex.IsHexDigit(d2)
    ensures UnicodeEscape.Decode(Lower("\\x" + [d1, d2]))
         == Ok([(Hex.DigitValue(d1).value * 16 + Hex.DigitValue(d2).value) as char])
  {
    var h1 := LowerChar(d1);
    var h2 := LowerChar(d2);
    LowerHexDigit(d1);
    LowerHexDigit(d2);
    assert Lower("\\x" + [d1, d2]) == "\\x" + [h1, h2] + [];
    UnicodeEscape.HexEscapeDecodes(h1, h2, []);
    assert UnicodeEscape.Decode([]) == Ok([]);
    PrependEmpty([(Hex.DigitValue(d1).value * 16 + Hex.DigitValue(d2).value) as char]);
  }

  /** The canonicalisation by the escapes of `metas`, each replaced in list order. */
  function ReplaceEscapes(s: string, metas: seq<char>): string
  {
    if metas == [] then s
    else
      var d := metas[|metas| - 1];
      ReplaceAll(ReplaceEscapes(s, metas[..|metas| - 1]), ['\\', d], CharToUtf8(d))
  }

  function Canonicalise(s: string): string
  {
    ReplaceEscapes(s, MetaCharacters)
  }

  /** `replace_special_metacharacters`: each escaped meta character, in list order, is replaced by its `\xHH` form. */
  method ReplaceSpecialMetacharacters(signature: string) returns (r: string)
    ensures r == Canonicalise(signature)
  {
    var escapes := seq(|MetaCharacters|, i requires 0 <= i < |MetaCharacters| => CharToUtf8(MetaCharacters[i]));
    r := signature;
    for i := 0 to |MetaCharacters|
      invariant r == ReplaceEscapes(signature, MetaCharacters[..i])
    {
      ReplaceEscapesStep(signature, MetaCharacters, i);
      r := ReplaceAll(r, ['\\', MetaCharacters[i]], escapes[i]);
    }
    WholePrefix(MetaCharacters);
  }

  lemma ReplaceEscapesStep(s: string, metas: seq<char>, i: nat)
    requires i < |metas|
    ensures ReplaceEscapes(s, metas[..i + 1]) == ReplaceAll(ReplaceEscapes(s, metas[..i]), ['\\', metas[i]], CharToUtf8(metas[i]))
  {
    assert metas[..i + 1][..i] == metas[..i];
  }

  lemma NoBackslashNoEscape(s: string, m: char)
    requires '\\' !in s
    ensures !Contains(s, ['\\', m])
  {
    forall i: nat | i <= |s| ensures !OccursAt(s, ['\\', m], i) {
      if i + 2 <= |s| {
        assert s[i..i + 2][0] == s[i];
      }
    }
  }

  /** A signature without backslashes is not changed by canonicalisation. */
  lemma {:induction false} ReplaceEscapesNoBackslash(s: string, metas: seq<char>)
    requires '\\' !in s
    ensures ReplaceEscapes(s, metas) == s
  {
    if metas != [] {
      var d := metas[|metas| - 1];
      ReplaceEscapesNoBackslash(s, metas[..|metas| - 1]);
      NoBackslashNoEscape(s, d);
      ReplaceAllAbsent(s, ['\\', d], CharToUtf8(d));
    }
  }

  lemma CanonicaliseNoBackslash(s: string)
    requires '\\' !in s
    ensures Canonicalise(s) == s
  {
    ReplaceEscapesNoBackslash(s, MetaCharacters);
  }

  /** No meta character is listed twice, none is 'x', and all are below 256. */
  lemma MetaCharactersDistinct(m: nat)
    requires m < |MetaCharacters|
    ensures MetaCharacters[m] !in MetaCharacters[..m]
    ensures 'x' !in MetaCharacters && MetaCharacters[m] as int < 256
  {
  }

  lemma TwoCharOccurrence(s: string, a: char, b: char)
    requires |s| == 2
    requires s[0] != a || s[1] != b
    ensures !Contains(s, [a, b])
  {
    forall i: nat | i <= |s| ensures !OccursAt(s, [a, b], i) {
      if i == 0 {
        assert s[0..2] == s;
      }
    }
  }

  /** No meta escape occurs in a `\xHH` escape: its second character is 'x'. */
  lemma EscapeHasNoMetaEscape(c: char, m: char)
    requires c as int < 256
    requires m != 'x'
    ensures !Contains(CharToUtf8(c), ['\\', m])
  {
    var e := CharToUtf8(c);
    assert e[0] == '\\' && e[1] == 'x';
    Hex.AllHexIndex(e[2..]);
    forall i: nat | i <= |e| ensures !OccursAt(e, ['\\', m], i) {
      if i + 2 <= |e| {
        assert e[i..i + 2][0] == e[i] && e[i..i + 2][1] == e[i + 1];
        if i >= 2 {
          assert e[i] == e[2..][i - 2];
        }
      }
    }
  }

  lemma OtherEscapeKept(c: char, d: char, rep: string)
    requires c != d
    ensures ReplaceAll(['\\', c], ['\\', d], rep) == ['\\', c]
  {
    TwoCharOccurrence(['\\', c], '\\', d);
    ReplaceAllAbsent(['\\', c], ['\\', d], rep);
  }

  lemma OwnEscapeReplaced(c: char)
    ensures ReplaceAll(['\\', c], ['\\', c], CharToUtf8(c)) == CharToUtf8(c)
  {
    var e := ['\\', c];
    assert e[..2] == e && e[2..] == [];
    assert ReplaceAll(e, e, CharToUtf8(c)) == CharToUtf8(c) + ReplaceAll([], e, CharToUtf8(c));
    assert CharToUtf8(c) + [] == CharToUtf8(c);
  }

  lemma EscapeKept(c: char, d: char, rep: string)
    requires c as int < 256 && d != 'x'
    ensures ReplaceAll(CharToUtf8(c), ['\\', d], rep) == CharToUtf8(c)
  {
    EscapeHasNoMetaEscape(c, d);
    ReplaceAllAbsent(CharToUtf8(c), ['\\', d], rep);
  }

  lemma {:induction false} OtherEscapesKeep(c: char, metas: seq<char>)
    requires c !in metas
    ensures ReplaceEscapes(['\\', c], metas) == ['\\', c]
  {
    if metas != [] {
      var d := metas[|metas| - 1];
      OtherEscapesKeep(c, metas[..|metas| - 1]);
      OtherEscapeKept(c, d, CharToUtf8(d));
    }
  }

  lemma {:induction false} LaterEscapesKeep(c: char, metas: seq<char>)
    requires c as int < 256 && 'x' !in metas
    ensures ReplaceEscapes(CharToUtf8(c), metas) == CharToUtf8(c)
  {
    if metas != [] {
      var d := metas[|metas| - 1];
      LaterEscapesKeep(c, metas[..|metas| - 1]);
      EscapeKept(c, d, CharToUtf8(d));
    }
  }

  lemma {:induction false} ReplaceEscapesAppend(s: string, a: seq<char>, b: seq<char>)
    ensures ReplaceEscapes(s, a + b) == ReplaceEscapes(ReplaceEscapes(s, a), b)
  {
    if b == [] {
      assert a + b == a;
    } else {
      assert (a + b)[..|a + b| - 1] == a + b[..|b| - 1];
      ReplaceEscapesAppend(s, a, b[..|b| - 1]);
    }
  }

  /** The escape of a listed character becomes its `\xHH` form and is left alone by every other replacement. */
  lemma OneEscape(pre: seq<char>, c: char, post: seq<char>)
    requires c !in pre && c as int < 256 && 'x' !in post
    ensures ReplaceEscapes(['\\', c], pre + [c] + post) == CharToUtf8(c)
  {
    ReplaceEscapesAppend(['\\', c], pre + [c], post);
    assert (pre + [c])[..|pre + [c]| - 1] == pre;
    OtherEscapesKeep(c, pre);
    OwnEscapeReplaced(c);
    LaterEscapesKeep(c, post);
  }

  /**
   * An escaped meta character on its own becomes its `\xHH` escape, and
   * after lower-casing that escape decodes to the bare character: `\.`
   * gives '.', and `\n`, `\r`, `\t` give the letters n, r, t rather than
   * control characters.
   */
  lemma MetaEscapeDecodesToItself(m: nat)
    requires m < |MetaCharacters|
    ensures Canonicalise(['\\', MetaCharacters[m]]) == CharToUtf8(MetaCharacters[m])
    ensures UnicodeEscape.Decode(Lower(Canonicalise(['\\', MetaCharacters[m]]))) == Ok([MetaCharacters[m]])
  {
    MetaCharactersDistinct(m);
    var c := MetaCharacters[m];
    assert MetaCharacters == MetaCharacters[..m] + [c] + MetaCharacters[m + 1..];
    OneEscape(MetaCharacters[..m], c, MetaCharacters[m + 1..]);
    EscapeRoundTrip(MetaCharacters[m]);
  }

  /**
   * `\w` of a text pattern, for code points below 256: ASCII letters,
   * digits and underscore, the Latin-1 letters, and the Latin-1 numerals
   * (ordinal indicators, superscripts, micro sign and vulgar fractions).
   */
  predicate IsWordChar(c: char)
  {
    || ('a' <= c <= 'z') || ('A' <= c <= 'Z') || IsDigit(c) || c == '_'
    || c == '\U{AA}' || c == '\U{B2}' || c == '\U{B3}' || c == '\U{B5}'
    || c == '\U{B9}' || c == '\U{BA}' || ('\U{BC}' <= c <= '\U{BE}')
    || ('\U{C0}' <= c <= '\U{D6}') || ('\U{D8}' <= c <= '\U{F6}') || ('\U{F8}' <= c <= '\U{FF}')
  }

  predicate AllDigits(s: string)
  {
    forall k :: 0 <= k < |s| ==> IsDigit(s[k])
  }

  /** `int(num)` for a string of decimal digits. */
  function DecimalValue(s: string): nat
    requires AllDigits(s)
  {
    if s == [] then 0 else DecimalValue(s[..|s| - 1]) * 10 + (s[|s| - 1] as int - '0' as int)
  }

  /** `substitute_signature`: the captured character, repeated the captured number of times. */
  function Repeat(c: char, n: nat): (r: string)
    ensures |r| == n
    ensures forall k :: 0 <= k < n ==> r[k] == c
  {
    if n == 0 then [] else [c] + Repeat(c, n - 1)
  }

  /**
   * The number of digits of a `c{n}` repetition at the start of `s`: a word
   * character, `{`, one or more digits and `}`.
   */
  function RepeatDigits(s: string): (r: Option<nat>)
    ensures r.Some? ==> 1 <= r.value && r.value + 3 <= |s| && AllDigits(s[2..2 + r.value])
  {
    if 2 <= |s| && IsWordChar(s[0]) && s[1] == '{' then
      var d := DigitRun(s, 2);
      if d >= 1 && 2 + d < |s| && s[2 + d] == '}' then
        assert forall k :: 2 <= k < 2 + d ==> s[2..2 + d][k - 2] == s[k];
        Some(d)
      else None
    else None
  }

  /** `re.sub(r'(\w){(\d+)}', substitute_signature, s)`: every repetition, left to right, is written out. */
  function ExpandRepeats(s: string): (r: string)
    decreases |s|
  {
    if s == [] then []
    else
      var d := RepeatDigits(s);
      if d.Some? then Repeat(s[0], DecimalValue(s[2..2 + d.value])) + ExpandRepeats(s[d.value + 3..])
      else [s[0]] + ExpandRepeats(s[1..])
  }

  /** Text without a brace has no repetition to expand. */
  lemma {:induction false} ExpandRepeatsNoBrace(s: string)
    requires '{' !in s
    ensures ExpandRepeats(s) == s
  {
    if s != [] {
      assert '{' !in s[1..];
      ExpandRepeatsNoBrace(s[1..]);
    }
  }

  lemma {:induction false} DigitRunExact(s: string, j: nat, n: nat)
    requires j + n < |s|
    requires forall k :: j <= k < j + n ==> IsDigit(s[k])
    requires !IsDigit(s[j + n])
    ensures DigitRun(s, j) == n
    decreases n
  {
    if n > 0 {
      DigitRunExact(s, j + 1, n - 1);
    }
  }

  /** `c{n}` is replaced by `n` copies of `c` (none for `{0}`), and the scan goes on after the closing brace. */
  lemma RepeatExpanded(c: char, digits: string, rest: string)
    requires IsWordChar(c) && digits != [] && AllDigits(digits)
    ensures ExpandRepeats([c] + "{" + digits + "}" + rest) == Repeat(c, DecimalValue(digits)) + ExpandRepeats(rest)
  {
    var s := [c] + "{" + digits + "}" + rest;
    RepeatLayout(c, '{', digits, '}', rest);
    DigitRunExact(s, 2, |digits|);
  }

  lemma RepeatLayout<T>(c: T, open: T, digits: seq<T>, close: T, rest: seq<T>)
    ensures var s := [c] + [open] + digits + [close] + rest; var n := |digits|;
      |s| == n + 3 + |rest| && s[0] == c && s[1] == open && s[2 + n] == close
      && s[2..2 + n] == digits && s[n + 3..] == rest && (forall k :: 2 <= k < 2 + n ==> s[k] == digits[k - 2])
  {
    var s := [c] + [open] + digits + [close] + rest;
    assert s[2..2 + |digits|] == digits;
    assert s[|digits| + 3..] == rest;
  }

  /** The pieces the extractor keeps: those that are not blank, in their order. */
  function NonBlank(parts: seq<string>): (r: seq<string>)
    ensures |r| <= |parts|
    ensures forall k :: 0 <= k < |r| ==> HasNonSpace(r[k])
  {
    if parts == [] then []
    else
      var last := parts[|parts| - 1];
      NonBlank(parts[..|parts| - 1]) + (if HasNonSpace(last) then [last] else [])
  }

  /** Each piece escape-decoded in turn; the first piece that fails ends the whole extraction with its error. */
  function DecodeAll(pieces: seq<string>): (r: Result<seq<string>>)
    ensures r.Ok? ==> |r.value| == |pieces|
    ensures r.Ok? ==> forall k :: 0 <= k < |pieces| ==> UnicodeEscape.Decode(pieces[k]) == Ok(r.value[k])
  {
    if pieces == [] then Ok([])
    else
      var pre := DecodeAll(pieces[..|pieces| - 1]);
      if pre.Err? then pre
      else
        var d := UnicodeEscape.Decode(pieces[|pieces| - 1]);
        if d.Err? then Err(d.error) else Ok(pre.value + [d.value])
  }

  /** The text after canonicalisation, expansion of repetitions and blanking of every rewrite pattern. */
  function Rewritten(signature: string): string
  {
    ApplyPatterns(ExpandRepeats(Canonicalise(signature)), |UnwantedPatterns|)
  }

  /** What `extract_exact_matches` returns, or the decoding error it raises. */
  function ExtractSpec(signature: string): Result<seq<string>>
  {
    DecodeAll(NonBlank(Split(Lower(Rewritten(signature)), ' ')))
  }

  lemma {:induction false} NonBlankAppend(a: seq<string>, b: seq<string>)
    ensures NonBlank(a + b) == NonBlank(a) + NonBlank(b)
    decreases |b|
  {
    if b == [] {
      assert a + b == a;
    } else {
      assert (a + b)[..|a + b| - 1] == a + b[..|b| - 1];
      NonBlankAppend(a, b[..|b| - 1]);
    }
  }

  lemma {:induction false} DecodeAllFailed(a: seq<string>, b: seq<string>)
    requires DecodeAll(a).Err?
    ensures DecodeAll(a + b) == DecodeAll(a)
    decreases |b|
  {
    if b == [] {
      assert a + b == a;
    } else {
      assert (a + b)[..|a + b| - 1] == a + b[..|b| - 1];
      DecodeAllFailed(a, b[..|b| - 1]);
    }
  }

  /** The rewriting half of `extract_exact_matches`: canonicalise, expand, then blank each rewrite pattern in order. */
  method Rewrite(signature: string) returns (s: string)
    ensures s == Rewritten(signature)
  {
    s := ReplaceSpecialMetacharacters(signature);
    s := ExpandRepeats(s);
    ghost var s0 := s;
    for i := 0 to |UnwantedPatterns|
      invariant s == ApplyPatterns(s0, i)
    {
      s := Sub(UnwantedPatterns[i], s);
    }
  }

  lemma NonBlankStep(parts: seq<string>, k: nat)
    requires k < |parts|
    ensures NonBlank(parts[..k + 1]) == NonBlank(parts[..k]) + (if HasNonSpace(parts[k]) then [parts[k]] else [])
  {
    assert parts[..k + 1][..k] == parts[..k];
  }

  lemma DecodeAllStep(a: seq<string>, x: string)
    requires DecodeAll(a).Ok?
    ensures UnicodeEscape.Decode(x).Err? ==> DecodeAll(a + [x]) == Err(UnicodeEscape.Decode(x).error)
    ensures UnicodeEscape.Decode(x).Ok? ==> DecodeAll(a + [x]) == Ok(DecodeAll(a).value + [UnicodeEscape.Decode(x).value])
  {
    assert (a + [x])[..|a|] == a;
  }

  /** Once a piece fails to decode, the pieces after it do not matter. */
  lemma StopsAtFailure(parts: seq<string>, k: nat)
    requires k < |parts|
    requires DecodeAll(NonBlank(parts[..k + 1])).Err?
    ensures DecodeAll(NonBlank(parts)) == DecodeAll(NonBlank(parts[..k + 1]))
  {
    SplitAt(parts, k + 1);
    NonBlankAppend(parts[..k + 1], parts[k + 1..]);
    DecodeAllFailed(NonBlank(parts[..k + 1]), NonBlank(parts[k + 1..]));
  }

  /** The collecting half of `extract_exact_matches`: blank pieces are skipped, the others decoded in order. */
  method DecodePieces(parts: seq<string>) returns (r: Result<seq<string>>)
    ensures r == DecodeAll(NonBlank(parts))
  {
    var list := [];
    for k := 0 to |parts|
      invariant DecodeAll(NonBlank(parts[..k])) == Ok(list)
    {
      NonBlankStep(parts, k);
      if HasNonSpace(parts[k]) {
        var d := UnicodeEscape.Decode(parts[k]);
        assert NonBlank(parts[..k + 1]) == NonBlank(parts[..k]) + [parts[k]];
        DecodeAllStep(NonBlank(parts[..k]), parts[k]);
        if d.Err? {
          StopsAtFailure(parts, k);
          return Err(d.error);
        }
        list := list + [d.value];
      } else {
        assert NonBlank(parts[..k + 1]) == NonBlank(parts[..k]) + [];
        assert NonBlank(parts[..k]) + [] == NonBlank(parts[..k]);
      }
    }
    assert parts[..|parts|] == parts;
    return Ok(list);
  }

  /** `extract_exact_matches`. */
  method ExtractExactMatches(signature: string) returns (r: Result<seq<string>>)
    ensures r == ExtractSpec(signature)
  {
    var s := Rewrite(signature);
    r := DecodePieces(Split(Lower(s), ' '));
  }

  lemma {:induction false} NonBlankFrom(parts: seq<string>)
    ensures forall x :: x in NonBlank(parts) ==> x in parts
  {
    if parts != [] {
      NonBlankFrom(parts[..|parts| - 1]);
    }
  }

  /** Every fragment that comes out is the decoding of a non-blank, space-free piece of the lower-cased text. */
  lemma ExtractedFragments(signature: string)
    requires ExtractSpec(signature).Ok?
    ensures var pieces := NonBlank(Split(Lower(Rewritten(signature)), ' '));
      && |ExtractSpec(signature).value| == |pieces|
      && forall k :: 0 <= k < |pieces| ==>
           && ' ' !in pieces[k] && HasNonSpace(pieces[k])
           && UnicodeEscape.Decode(pieces[k]) == Ok(ExtractSpec(signature).value[k])
  {
    var parts := Split(Lower(Rewritten(signature)), ' ');
    NonBlankFrom(parts);
    var pieces := NonBlank(parts);
    forall k | 0 <= k < |pieces| ensures ' ' !in pieces[k] {
      assert pieces[k] in parts;
    }
  }

  /** An ASCII character that opens no escape, repetition or rewrite pattern and completes none. */
  predicate PlainChar(c: char)
  {
    c as int < 128 && c !in "\\/()|.[{?"
  }

  predicate Plain(s: string)
  {
    forall k :: 0 <= k < |s| ==> PlainChar(s[k])
  }

  lemma PlainNoMatch(p: Pattern, s: string, i: nat)
    requires Plain(s)
    ensures MatchLen(p, s, i).None?
  {
    if i < |s| {
      assert PlainChar(s[i]);
      if i + 1 < |s| {
        assert PlainChar(s[i + 1]);
      }
    }
  }

  lemma {:induction false} ApplyPlain(s: string, k: nat)
    requires Plain(s) && k <= |UnwantedPatterns|
    ensures ApplyPatterns(s, k) == s
  {
    if k > 0 {
      ApplyPlain(s, k - 1);
      var p := UnwantedPatterns[k - 1];
      forall i | 0 <= i < |s| ensures MatchLen(p, s, i).None? {
        PlainNoMatch(p, s, i);
      }
      SubNoMatch(p, s, 0);
      assert s[0..] == s;
    }
  }

  lemma LowerPlain(s: string)
    requires Plain(s)
    ensures Plain(Lower(s))
  {
    forall k | 0 <= k < |s| ensures PlainChar(Lower(s)[k]) {
      assert PlainChar(s[k]);
    }
  }

  lemma {:induction false} SplitPlain(s: string)
    requires Plain(s)
    ensures forall k :: 0 <= k < |Split(s, ' ')| ==> Plain(Split(s, ' ')[k])
  {
    if s != [] {
      assert Plain(s[1..]) by {
        forall k | 0 <= k < |s[1..]| ensures PlainChar(s[1..][k]) {
          assert s[1..][k] == s[k + 1];
        }
      }
      SplitPlain(s[1..]);
      var rest := Split(s[1..], ' ');
      if s[0] != ' ' {
        assert Plain([s[0]] + rest[0]) by {
          assert PlainChar(s[0]);
          assert Plain(rest[0]);
        }
      }
    }
  }

  lemma {:induction false} DecodeAllPlain(pieces: seq<string>)
    requires forall k :: 0 <= k < |pieces| ==> Plain(pieces[k])
    ensures DecodeAll(pieces) == Ok(pieces)
  {
    if pieces != [] {
      var pre := pieces[..|pieces| - 1];
      var last := pieces[|pieces| - 1];
      DecodeAllPlain(pre);
      assert Plain(last);
      UnicodeEscape.DecodeAscii(last);
      assert pre + [last] == pieces;
    }
  }

  /**
   * A signature made only of plain ASCII text (no backslash, slash,
   * bracket, parenthesis, bar, dot, brace or question mark) comes out as its
   * lower-cased space-separated words, blank ones dropped.
   */
  lemma PlainSignature(signature: string)
    requires Plain(signature)
    ensures ExtractSpec(signature) == Ok(NonBlank(Split(Lower(signature), ' ')))
  {
    assert '\\' !in signature by {
      forall k | 0 <= k < |signature| ensures signature[k] != '\\' {
        assert PlainChar(signature[k]);
      }
    }
    assert '{' !in signature by {
      forall k | 0 <= k < |signature| ensures signature[k] != '{' {
        assert PlainChar(signature[k]);
      }
    }
    CanonicaliseNoBackslash(signature);
    ExpandRepeatsNoBrace(signature);
    ApplyPlain(signature, |UnwantedPatterns|);
    assert Rewritten(signature) == signature;
    LowerPlain(signature);
    var parts := Split(Lower(signature), ' ');
    SplitPlain(Lower(signature));
    NonBlankFrom(parts);
    var pieces := NonBlank(parts);
    forall k | 0 <= k < |pieces| ensures Plain(pieces[k]) {
      assert pieces[k] in parts;
    }
    DecodeAllPlain(pieces);
  }

  /** `utf8_to_ascii`: the code point of every character. */
  function Utf8ToAscii(s: string): (r: seq<nat>)
    ensures |r| == |s|
    ensures forall k :: 0 <= k < |s| ==> r[k] == s[k] as int
  {
    seq(|s|, k requires 0 <= k < |s| => s[k] as int)
  }

  /**
   * `utf8_to_raw`: a fragment holding a backslash is returned as it is; any
   * other is escape-decoded, which gives each of its UTF-8 bytes as one
   * character.
   */
  function Utf8ToRaw(s: string): (r: string)
    ensures '\\' in s ==> r == s
    ensures '\\' !in s ==> |r| == |UnicodeEscape.Utf8Encode(s)|
    ensures '\\' !in s ==> forall k :: 0 <= k < |r| ==> r[k] as int == UnicodeEscape.Utf8Encode(s)[k]
  {
    if '\\' in s then s
    else
      UnicodeEscape.DecodePlain(s);
      UnicodeEscape.Decode(s).value
  }

  /** ASCII fragments come back unchanged from `utf8_to_raw`. */
  lemma RawAscii(s: string)
    requires forall k :: 0 <= k < |s| ==> s[k] as int < 128
    ensures Utf8ToRaw(s) == s
  {
    if '\\' !in s {
      UnicodeEscape.DecodeAscii(s);
    }
  }

  /** The three result forms of `run`. */
  datatype RunOutput =
    | CodePoints(codes: seq<seq<nat>>)
    | RawText(texts: seq<string>)
    | Chars(chars: seq<seq<char>>)

  /**
   * `run`: extraction first (its error wins), then the fragments in the
   * form named by `flag`; any other flag is an error.
   */
  function Run(pcre: string, flag: string): (r: Result<RunOutput>)
    ensures ExtractSpec(pcre).Err? ==> r == Err(ExtractSpec(pcre).error)
    ensures ExtractSpec(pcre).Ok? ==> (r.Ok? <==> flag == "ascii" || flag == "raw" || flag == "char")
    ensures r.Ok? ==> |ExtractSpec(pcre).value| == match r.value
      case CodePoints(c) => |c| case RawText(t) => |t| case Chars(c) => |c|
    ensures r.Ok? && flag == "char" ==> r.value == Chars(ExtractSpec(pcre).value)
    ensures r.Ok? && flag == "ascii" ==>
      && r.value.CodePoints?
      && forall k :: 0 <= k < |r.value.codes| ==> r.value.codes[k] == Utf8ToAscii(ExtractSpec(pcre).value[k])
    ensures r.Ok? && flag == "raw" ==>
      && r.value.RawText?
      && forall k :: 0 <= k < |r.value.texts| ==> r.value.texts[k] == Utf8ToRaw(ExtractSpec(pcre).value[k])
  {
    var matches := ExtractSpec(pcre);
    if matches.Err? then Err(matches.error)
    else
      var m := matches.value;
      if flag == "ascii" then Ok(CodePoints(seq(|m|, k requires 0 <= k < |m| => Utf8ToAscii(m[k]))))
      else if flag == "raw" then Ok(RawText(seq(|m|, k requires 0 <= k < |m| => Utf8ToRaw(m[k]))))
      else if flag == "char" then Ok(Chars(m))
      else Err("ValueError: invalid flag")
  }
}
