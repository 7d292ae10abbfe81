/**
 * The regular-expression substitutions of the extraction stage, written out
 * as explicit scanners. `MatchLen(p, s, i)` is the length of the match the
 * backtracking engine finds for pattern `p` when it starts at position `i`
 * (greedy parts prefer more, lazy parts prefer less, `.` does not match a
 * newline, `$` holds at the end or before a final newline). `Sub` is the
 * left-to-right, non-overlapping replacement of every match by one space.
 * No pattern can match the empty string.
 */
module PcreRewrite {
  import opened Wrappers
  import opened ExtractorConfig

  predicate IsDigit(c: char)
  {
    '0' <= c <= '9'
  }

  /** Number of consecutive digits of `s` starting at `j`. */
  function DigitRun(s: string, j: nat): (n: nat)
    ensures j + n <= |s| || (j > |s| && n == 0)
    ensures forall k :: j <= k < j + n ==> IsDigit(s[k])
    ensures j + n < |s| ==> !IsDigit(s[j + n])
    decreases |s| - j
  {
    if j < |s| && IsDigit(s[j]) then 1 + DigitRun(s, j + 1) else 0
  }

  /**
   * Length of a literal brace group `{` digits, optional `,`, digits `}` at
   * `j`; in these patterns the brace is not a repetition, so it is matched
   * as a character.
   */
  function BraceLen(s: string, j: nat): (r: Option<nat>)
    ensures r.Some? ==> 2 <= r.value && j + r.value <= |s| && s[j] == '{' && s[j + r.value - 1] == '}'
  {
    if j < |s| && s[j] == '{' then
      var a := j + 1 + DigitRun(s, j + 1);
      var b := if a < |s| && s[a] == ',' then a + 1 else a;
      var c := b + DigitRun(s, b);
      if c < |s| && s[c] == '}' then Some(c + 1 - j) else None
    else None
  }

  /**
   * The nearest position `k >= j` holding `close`, provided no newline comes
   * first: where a lazy `.*?` followed by `close` stops.
   */
  function LazyClose(s: string, j: nat, close: char): (r: Option<nat>)
    requires close != '\n'
    ensures r.Some? ==> j <= r.value < |s| && s[r.value] == close
    ensures r.Some? ==> forall k :: j <= k < r.value ==> s[k] != close && s[k] != '\n'
    ensures r.None? ==> forall k :: j <= k < |s| && s[k] == close ==> exists m :: j <= m < k && s[m] == '\n'
    decreases |s| - j
  {
    if j >= |s| || s[j] == '\n' then None
    else if s[j] == close then Some(j)
    else LazyClose(s, j + 1, close)
  }

  /** `$`: the end of the text, or just before a newline that ends it. */
  predicate AtEnd(s: string, j: nat)
  {
    j == |s| || (j == |s| - 1 && s[j] == '\n')
  }

  /** The greedy `.{0,k}$` after the flags delimiter: the longest tail of at most `k` characters that works. */
  function FlagsTail(s: string, j: nat, k: nat): (r: Option<nat>)
    ensures r.Some? ==> r.value <= k && j + r.value <= |s| && AtEnd(s, j + r.value)
    ensures r.Some? ==> forall m :: j <= m < j + r.value ==> s[m] != '\n'
  {
    if j + k <= |s| && (forall m :: j <= m < j + k ==> s[m] != '\n') && AtEnd(s, j + k) then Some(k)
    else if k == 0 then None
    else FlagsTail(s, j, k - 1)
  }

  /** Skips one character of `s` at `j` when it is in `set`. */
  function Opt(s: string, j: nat, chars: set<char>): (r: nat)
    ensures r == j || (r == j + 1 && j < |s| && s[j] in chars)
  {
    if j < |s| && s[j] in chars then j + 1 else j
  }

  /** Skips a brace group at `j` when there is one. */
  function OptBrace(s: string, j: nat): (r: nat)
    ensures r >= j
    ensures j <= |s| ==> r <= |s|
  {
    match BraceLen(s, j)
    case Some(n) => j + n
    case None => j
  }

  const ClassLetters: set<char> := {'A', 'b', 'B', 'd', 'D', 'f', 's', 'S', 't', 'v', 'w', 'W', 'z', 'Z'}
  const PlusStar: set<char> := {'+', '*'}

  /** End of a class escape with its optional `+`/`*` and `?` suffixes, when one starts at `i`. */
  function ClassEscapeEnd(s: string, i: nat): (r: Option<nat>)
    ensures r.Some? ==> i + 2 <= r.value <= |s|
  {
    if i + 1 < |s| && s[i] == '\\' && s[i + 1] in ClassLetters then
      Some(Opt(s, Opt(s, i + 2, PlusStar), {'?'}))
    else None
  }

  /** End of a bracket expression `[` ... nearest `]`, when one starts at `i`. */
  function BracketEnd(s: string, i: nat): (r: Option<nat>)
    ensures r.Some? ==> i + 2 <= r.value <= |s|
  {
    if i < |s| && s[i] == '[' then
      var k := LazyClose(s, i + 1, ']');
      if k.Some? then Some(k.value + 1) else None
    else None
  }

  /** True when `\x` and two non-newline characters start at `i`. */
  predicate HexEscapeAt(s: string, i: nat)
  {
    i + 3 < |s| && s[i] == '\\' && s[i + 1] == 'x' && s[i + 2] != '\n' && s[i + 3] != '\n'
  }

  /** Length of the match of `p` that starts at `i`, if the engine finds one there. */
  function MatchLen(p: Pattern, s: string, i: nat): (r: Option<nat>)
    ensures r.Some? ==> 1 <= r.value && i + r.value <= |s|
  {
    if i >= |s| then None
    else match p
    case PcreFlags =>
      var t := FlagsTail(s, i + 1, 4);
      if s[i] == '/' && t.Some? then Some(1 + t.value) else None
    case InlineGroup =>
      if i + 1 < |s| && s[i] == '(' && s[i + 1] == '?' then
        var k := LazyClose(s, i + 2, ')');
        if k.Some? then Some(k.value + 1 - i) else None
      else None
    case ClassEscapeBraced =>
      var e := ClassEscapeEnd(s, i);
      if e.Some? then Some(OptBrace(s, e.value) - i) else None
    case ClassEscape =>
      var e := ClassEscapeEnd(s, i);
      if e.Some? then Some(e.value - i) else None
    case OpeningSlash =>
      if s[i] == '/' then Some(Opt(s, i + 1, {'^'}) - i) else None
    case Wildcard =>
      if s[i] == '.' then Some(Opt(s, Opt(s, i + 1, PlusStar), {'?'}) - i) else None
    case Alternation =>
      if s[i] == '|' then Some(1) else None
    case BracketQuantified =>
      var e := BracketEnd(s, i);
      if e.Some? then Some(Opt(s, Opt(s, e.value, PlusStar), {'?'}) - i) else None
    case BracketBraced =>
      var e := BracketEnd(s, i);
      if e.Some? then Some(OptBrace(s, e.value) - i) else None
    case HexEscapeBraced =>
      var b := BraceLen(s, i + 4);
      if HexEscapeAt(s, i) && b.Some? then Some(4 + b.value) else None
    case AnyBraced =>
      var b := BraceLen(s, i + 1);
      if s[i] != '\n' && b.Some? then Some(1 + b.value) else None
    case HexEscapeOptional =>
      if HexEscapeAt(s, i) && i + 4 < |s| && s[i + 4] == '?' then Some(5) else None
    case OptionalChar =>
      if i + 1 < |s| && s[i] != '\\' && s[i + 1] == '?' then Some(2) else None
    case OpenParen =>
      if s[i] == '(' then Some(1) else None
    case CloseParen =>
      if s[i] == ')' then Some(1) else None
  }

  /** `re.sub(p, ' ', s[i..])`: every match, taken left to right without overlap, becomes one space. */
  function SubFrom(p: Pattern, s: string, i: nat): (r: string)
    ensures |r| <= |s| - i || (i > |s| && r == [])
    decreases |s| - i
  {
    if i >= |s| then []
    else match MatchLen(p, s, i)
      case Some(n) => " " + SubFrom(p, s, i + n)
      case None => [s[i]] + SubFrom(p, s, i + 1)
  }

  function Sub(p: Pattern, s: string): (r: string)
    ensures |r| <= |s|
  {
    SubFrom(p, s, 0)
  }

  /** A pattern that matches nowhere leaves the text unchanged. */
  lemma {:induction false} SubNoMatch(p: Pattern, s: string, i: nat)
    requires i <= |s|
    requires forall k :: i <= k < |s| ==> MatchLen(p, s, k).None?
    ensures SubFrom(p, s, i) == s[i..]
    decreases |s| - i
  {
    if i < |s| {
      SubNoMatch(p, s, i + 1);
      assert s[i..] == [s[i]] + s[i + 1..];
    }
  }

  /** The three single-character patterns behave like `str.replace` of that character by a space. */
  function LiteralOf(p: Pattern): (c: char)
    requires p == Alternation || p == OpenParen || p == CloseParen
  {
    match p
    case Alternation => '|'
    case OpenParen => '('
    case CloseParen => ')'
  }

  function ReplaceChar(s: string, c: char): (r: string)
    ensures |r| == |s|
    ensures forall k :: 0 <= k < |s| ==> r[k] == (if s[k] == c then ' ' else s[k])
  {
    if s == [] then [] else (if s[0] == c then " " else [s[0]]) + ReplaceChar(s[1..], c)
  }

  lemma {:induction false} SubLiteral(p: Pattern, s: string, i: nat)
    requires p == Alternation || p == OpenParen || p == CloseParen
    requires i <= |s|
    ensures SubFrom(p, s, i) == ReplaceChar(s[i..], LiteralOf(p))
    decreases |s| - i
  {
    if i < |s| {
      SubLiteral(p, s, i + 1);
      assert s[i..][1..] == s[i + 1..];
      assert s[i..][0] == s[i];
    }
  }

  /** After a single-character pattern has been applied, that character no longer occurs. */
  lemma SubLiteralRemoves(p: Pattern, s: string)
    requires p == Alternation || p == OpenParen || p == CloseParen
    ensures LiteralOf(p) !in Sub(p, s)
    ensures |Sub(p, s)| == |s|
  {
    SubLiteral(p, s, 0);
  }

  /** The rewrite list applied in order: the first `k` patterns. */
  function ApplyPatterns(s: string, k: nat): (r: string)
    requires k <= |UnwantedPatterns|
    ensures |r| <= |s|
  {
    if k == 0 then s else Sub(UnwantedPatterns[k - 1], ApplyPatterns(s, k - 1))
  }
}
