/**
 * The constants of the extraction stage: the output encoding, the length
 * threshold, the default result form, the escaped characters that are
 * canonicalised and the ordered list of ambiguous constructs that are
 * blanked out of a pcre signature.
 */
module ExtractorConfig {

  /** Decoding with this single-byte encoding maps every byte to one character. */
  const CharacterEncoding: string := "iso-8859-1"

  /** A fragment is kept only when it is strictly longer than this. */
  const MinimalExactMatchLength: nat := 2

  /** The result form used when the caller gives none. */
  const ResultsForm: string := "char"

  /** The characters whose backslash escape is rewritten to a `\xHH` escape, in this order. */
  const MetaCharacters: seq<char> :=
    ['.', '^', '$', '*', '+', '?', '{', '}', '[', ']', '(', ')', '|', '\\', '/', 'r', 'n', 't']

  /**
   * The active entries of the rewrite list, one constructor per regular
   * expression, in the order of the list. Two entries of the list are
   * commented out (the class-escape variant that also removes `\r` and `\n`,
   * and the group and alternation variants) and have no constructor.
   */
  datatype Pattern =
    | PcreFlags          // a '/' followed by at most four characters at the end of the text
    | InlineGroup        // '(?' up to the nearest ')'
    | ClassEscapeBraced  // a class escape such as \d or \s, optional + or *, optional ?, optional {m,n}
    | ClassEscape        // the same without the {m,n} suffix
    | OpeningSlash       // '/' optionally followed by '^'
    | Wildcard           // '.' with optional + or * and optional ?
    | Alternation        // a literal '|'
    | BracketQuantified  // '[' up to the nearest ']', optional + or *, optional ?
    | BracketBraced      // '[' up to the nearest ']', optional {m,n}
    | HexEscapeBraced    // '\x' and two characters followed by {m,n}
    | AnyBraced          // any character followed by {m,n}
    | HexEscapeOptional  // '\x' and two characters followed by '?'
    | OptionalChar       // a character other than a backslash followed by '?'
    | OpenParen          // a literal '('
    | CloseParen         // a literal ')'

  const UnwantedPatterns: seq<Pattern> := [
    PcreFlags, InlineGroup, ClassEscapeBraced, ClassEscape, OpeningSlash, Wildcard,
    Alternation, BracketQuantified, BracketBraced, HexEscapeBraced, AnyBraced,
    HexEscapeOptional, OptionalChar, OpenParen, CloseParen
  ]

  /** Position of a pattern in the rewrite list. */
  function IndexOf(p: Pattern): (k: nat)
    ensures k < |UnwantedPatterns| && UnwantedPatterns[k] == p
  {
    match p
    case PcreFlags => 0
    case InlineGroup => 1
    case ClassEscapeBraced => 2
    case ClassEscape => 3
    case OpeningSlash => 4
    case Wildcard => 5
    case Alternation => 6
    case BracketQuantified => 7
    case BracketBraced => 8
    case HexEscapeBraced => 9
    case AnyBraced => 10
    case HexEscapeOptional => 11
    case OptionalChar => 12
    case OpenParen => 13
    case CloseParen => 14
  }

  /**
   * The rewrite list holds every active pattern exactly once; the flags rule
   * runs before the opening-delimiter rule and the bare parentheses run last.
   */
  lemma PatternOrder()
    ensures forall p, q :: IndexOf(p) == IndexOf(q) ==> p == q
    ensures IndexOf(PcreFlags) < IndexOf(OpeningSlash)
    ensures IndexOf(OpenParen) == |UnwantedPatterns| - 2 && IndexOf(CloseParen) == |UnwantedPatterns| - 1
  {
  }

  /** Every escaped meta character is a single ASCII character. */
  lemma MetaCharactersAscii()
    ensures forall k :: 0 <= k < |MetaCharacters| ==> MetaCharacters[k] as int < 128
  {
  }
}
