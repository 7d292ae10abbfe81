# Exact-match extraction and lookup for Snort signatures

This project models the core of a virus-detection acceleration study in
Dafny. The study takes the `content:"…"` and `pcre:"…"` signatures of a
Snort rule file, reduces each one to the fixed byte strings ("exact
matches") that any matching packet must contain, and measures two ways of
looking those strings up.

- **Part A (Python)** parses the rule file. It keeps a registry of distinct
  signatures with the rules that use them.
  - A content signature is lower-cased, and its `|41 42|` hex spans are
    decoded through Latin-1.
  - A pcre signature has its escaped metacharacters rewritten as `\xHH`
    and its `c{n}` repeats expanded. Every ambiguous construct from the
    configured pattern list is replaced by a space. The result is
    lower-cased, split on spaces and unicode-escape decoded.
  - Fragments longer than 2 characters are kept. The parser also keeps the
    counters, the length histogram and its cumulative bins, and the list of
    rules that yielded nothing. It translates fragments to Python `hex()`
    strings.
- **Part B (C++, cuckoo hash)** turns each hex list into one `0x…` key. It
  packs windows of a key into unsigned integers (`Substring<T>`) and hashes
  them with a MurmurHash3-style functor (`CustomHash`). A table gives the
  IBLT cell counts (invertible Bloom lookup table) per substring shape and
  success rate.
- **Part C (C++, Aho-Corasick)** decodes the same keys into byte strings.
  For every length threshold it builds an Aho-Corasick trie of the strings
  at least that long: keyword insertion, breadth-first failure links, then
  a text scan. It counts, per rule, the hits on a set of search texts and
  computes the extra storage a rule list or an IBLT per pattern would take.

Each core source file has its own module. Python built-ins and helpers
shared by several files have modules of their own (`PyStr`, `Hex`,
`UnicodeEscape`, `PcreRewrite`, `RuleLists`, `HexKeys`, `SearchItems`,
`Wrappers`).
- Python and C++ collections the source mutates in place are class fields:
  - `Registry` and `Statistics` in `SnortRulesParser`;
  - `Analysis` in `ResultsAnalysis`;
  - the two `ExactMatches` containers;
  - `Substring`;
  - the trie.
- Containers passed by reference are passed in and handed back as values.
- Exceptions are `Result`/`Option` values.
- Python's `re` patterns used by the core are written out as explicit
  scanners (`PcreRewrite`).
- `str.lower`, `split`, `strip`, `str.replace`, `bytes.fromhex`,
  `hex()`/`format`, and unicode-escape decoding are modelled in `PyStr`,
  `ContentProcessor`, `Hex` and `UnicodeEscape`.

## Model

| member | source | states |
|---|---|---|
| `ExtractorConfig.IndexOf` | PartA_Data_Process/config/config.py:19-40 | every active unwanted pattern has a position in the list, and the position holds that pattern |
| `ExtractorConfig.PatternOrder` | PartA_Data_Process/config/config.py:19-40 | the pattern list has no repeats; the pcre-flag pattern runs before the opening-slash pattern; `\(` and `\)` are the last two patterns applied |
| `ExtractorConfig.MetaCharactersAscii` | PartA_Data_Process/config/config.py:10 | every configured metacharacter is ASCII |
| `PyStr.LowerChar` | PartA_Data_Process/ExactMatchExtractor.py:159 | upper-case letters move down by 32 code points, everything else is unchanged, and the result has no lower-case mapping left |
| `PyStr.Lower` | PartA_Data_Process/ExactMatchExtractor.py:159 | `str.lower` keeps the length and lower-cases each character on its own |
| `PyStr.LowerIdempotent` | PartA_Data_Process/ExactMatchExtractor.py:159 | lower-casing twice is lower-casing once |
| `PyStr.LowerAppend` | PartA_Data_Process/ExactMatchExtractor.py:159 | lower-casing distributes over concatenation |
| `PyStr.LowerDrop` | PartA_Data_Process/ExactMatchExtractor.py:159 | lower-casing commutes with dropping a prefix |
| `PyStr.LeadingSpaces` | PartA_Data_Process/ExactMatchExtractor.py:160 | the count covers exactly the white-space prefix |
| `PyStr.TrailingSpaces` | PartA_Data_Process/ExactMatchExtractor.py:160 | the count covers exactly the white-space suffix |
| `PyStr.Strip` | PartA_Data_Process/ExactMatchExtractor.py:160 | `strip()` returns a slice with only white space cut from both ends, it neither starts nor ends with white space, and it is non-empty exactly when the text has a non-space character (the truth test of line 160) |
| `PyStr.StripSlice` | PartA_Data_Process/ExactMatchExtractor.py:160 | when the text has a non-space character, the slice between the two white-space runs is non-empty and starts and ends with non-space |
| `PyStr.Split` | PartA_Data_Process/ExactMatchExtractor.py:159 | `split(sep)` gives one more piece than there are separators, and no piece contains the separator |
| `PyStr.JoinSplit` | PartA_Data_Process/ExactMatchExtractor.py:159 | joining the pieces with the separator gives the text back |
| `PyStr.ReplaceAllAbsent` | PartA_Data_Process/ExactMatchExtractor.py:129 | `str.replace` changes nothing when the pattern does not occur |
| `PyStr.ReplaceAllSelf` | PartA_Data_Process/ExactMatchExtractor.py:129 | replacing a pattern by itself changes nothing |
| `Hex.DigitValue` | PartA_Data_Process/ContentProcessor.py:19 | a character has a value exactly when it is a hex digit of either case, and the value is below 16 |
| `Hex.Format02X` | PartA_Data_Process/ExactMatchExtractor.py:63 | `{:02X}` gives upper-case hex digits whose value is the number, exactly two of them below 256 |
| `Hex.PyHex` | PartA_Data_Process/SnortRulesParser.py:215 | `hex(n)` is `0x` followed by hex digits whose value is n |
| `Hex.PyHexTwoDigits` | PartA_Data_Process/SnortRulesParser.py:215 | for 16 ≤ n < 256, `hex(n)` is `0x` and two lower-case digits |
| `Hex.PyHexOneDigit` | PartA_Data_Process/SnortRulesParser.py:215 | for n < 16, `hex(n)` is `0x` and a single digit, with no padding |
| `ContentProcessor.NonSpace` | PartA_Data_Process/ContentProcessor.py:19 | dropping the white space that `bytes.fromhex` skips never lengthens the text |
| `ContentProcessor.Pairs` | PartA_Data_Process/ContentProcessor.py:19 | an even run of hex digits gives one byte below 256 per pair |
| `ContentProcessor.FromHex` | PartA_Data_Process/ContentProcessor.py:19 | `bytes.fromhex` succeeds only on hex pairs (white space between pairs skipped), and then gives the pairs' bytes |
| `ContentProcessor.FromHexOddFails` | PartA_Data_Process/ContentProcessor.py:19 | an odd number of hex digits is a `ValueError` |
| `ContentProcessor.FromHexPair` | PartA_Data_Process/ContentProcessor.py:19 | two hex digits decode to the single byte they spell |
| `ContentProcessor.FromHexLower` | PartA_Data_Process/ContentProcessor.py:33 | lower-casing before decoding changes no decoded byte and no error |
| `ContentProcessor.Latin1` | PartA_Data_Process/ContentProcessor.py:19 | ISO-8859-1 decoding maps each byte to the character with that code, one to one |
| `ContentProcessor.DecodeSpan` | PartA_Data_Process/ContentProcessor.py:17-24 | a decoded span has one character per two hex digits of its stripped text |
| `ContentProcessor.Run` | PartA_Data_Process/ContentProcessor.py:27-35 | a content signature gives exactly one fragment, or the decoding error |
| `ContentProcessor.DecodeSpansNoPipe` | PartA_Data_Process/ContentProcessor.py:34 | text without a pipe is returned unchanged |
| `ContentProcessor.UnpairedPipeCopied` | PartA_Data_Process/ContentProcessor.py:34 | a single pipe with no closing pipe is copied literally, not reported |
| `ContentProcessor.DecodeSpansNoPipePrefix` | PartA_Data_Process/ContentProcessor.py:34 | a pipe-free prefix passes through and decoding resumes after it |
| `ContentProcessor.SpanDecoded` | PartA_Data_Process/ContentProcessor.py:34 | `|hex|` after plain text is replaced by its decoding (or fails with its error), and scanning resumes after the closing pipe |
| `ContentProcessor.SpanAtFront` | PartA_Data_Process/ContentProcessor.py:34 | the same for a span at the start of the text |
| `ContentProcessor.NoClose` | PartA_Data_Process/ContentProcessor.py:34 | with no later pipe the lazy group finds no closing pipe |
| `ContentProcessor.ClosesFrom` | PartA_Data_Process/ContentProcessor.py:34 | the lazy group closes at the nearest pipe when no newline comes first |
| `ContentProcessor.LowerSpan` | PartA_Data_Process/ContentProcessor.py:33 | lower-casing keeps the span's pipes in place |
| `ContentProcessor.DecodeSpanPair` | PartA_Data_Process/ContentProcessor.py:17-24 | a lower-cased two-digit span decodes to the one character of that byte |
| `ContentProcessor.SpanKeepsCase` | PartA_Data_Process/ContentProcessor.py:33-34 | `|HH|` in either case gives one fragment holding the one character of byte HH: lower-casing the hex digits does not change the byte |
| `ContentProcessor.HexByteKeepsCase` | PartA_Data_Process/ContentProcessor.py:33-34 | `|4A|` gives the fragment "J", upper-case, even though the signature was lower-cased first |
| `UnicodeEscape.Utf8` | PartA_Data_Process/ExactMatchExtractor.py:161 | a character encodes to 1–4 UTF-8 bytes; ASCII characters to exactly their one code byte, all others to bytes ≥ 128 |
| `UnicodeEscape.Utf8Encode` | PartA_Data_Process/ExactMatchExtractor.py:161 | the encoding is at least as long as the text |
| `UnicodeEscape.Utf8EncodeAscii` | PartA_Data_Process/ExactMatchExtractor.py:161 | an ASCII text encodes to its code points |
| `UnicodeEscape.Utf8EncodeAppend` | PartA_Data_Process/ExactMatchExtractor.py:161 | encoding distributes over concatenation |
| `UnicodeEscape.OctalRun` | PartA_Data_Process/ExactMatchExtractor.py:161 | the octal escape reads at most the allowed number of octal digits |
| `UnicodeEscape.OctalValue` | PartA_Data_Process/ExactMatchExtractor.py:161 | up to three octal digits give a value below 512 (below 64 for two, below 8 for one) |
| `UnicodeEscape.DecodeBytesPlain` | PartA_Data_Process/ExactMatchExtractor.py:161 | bytes without a backslash decode, one character per byte, to the character with that code |
| `UnicodeEscape.DecodePlain` | PartA_Data_Process/ExactMatchExtractor.py:161 | a text without a backslash decodes to one character per UTF-8 byte of it |
| `UnicodeEscape.DecodeAscii` | PartA_Data_Process/ExactMatchExtractor.py:161 | an ASCII text without a backslash decodes to itself |
| `UnicodeEscape.MojibakeExample` | PartA_Data_Process/ExactMatchExtractor.py:161 | "é" comes back as the two characters "Ã©": non-ASCII fragments are re-decoded byte by byte |
| `UnicodeEscape.HexEscapeDecodes` | PartA_Data_Process/ExactMatchExtractor.py:161 | `\xHH` becomes the one character of byte HH, and decoding continues after it |
| `PcreRewrite.DigitRun` | PartA_Data_Process/config/config.py:22 | the run covers exactly the digits starting at the position (`\d*`) |
| `PcreRewrite.BraceLen` | PartA_Data_Process/config/config.py:22 | a matched `{…}` quantifier lies inside the text, opening at the position and closing with `}` |
| `PcreRewrite.LazyClose` | PartA_Data_Process/config/config.py:21 | `.*?X` stops at the first X with no newline before it; when there is none, every later X has a newline before it |
| `PcreRewrite.FlagsTail` | PartA_Data_Process/config/config.py:20 | `.{0,k}$` matches at most k characters (k is 4 in the pattern), no newline, ending at `$` (end of text or before a final newline) |
| `PcreRewrite.Opt` | PartA_Data_Process/config/config.py:22 | an optional single-character group consumes nothing or one character from its class |
| `PcreRewrite.OptBrace` | PartA_Data_Process/config/config.py:22 | an optional quantifier never moves backwards or past the end |
| `PcreRewrite.ClassEscapeEnd` | PartA_Data_Process/config/config.py:22-23 | a `\c` class escape match covers at least two characters inside the text |
| `PcreRewrite.BracketEnd` | PartA_Data_Process/config/config.py:32-33 | a `[…]` match covers at least two characters inside the text |
| `PcreRewrite.MatchLen` | PartA_Data_Process/config/config.py:19-40 | no unwanted pattern matches the empty string, and a match stays inside the text |
| `PcreRewrite.SubFrom` | PartA_Data_Process/ExactMatchExtractor.py:155 | the leftmost, non-overlapping substitution of a space never lengthens the text |
| `PcreRewrite.Sub` | PartA_Data_Process/ExactMatchExtractor.py:155 | `re.sub(pattern, ' ', s)` is never longer than s |
| `PcreRewrite.SubNoMatch` | PartA_Data_Process/ExactMatchExtractor.py:155 | with no match from a position on, the rest is copied unchanged |
| `PcreRewrite.ReplaceChar` | PartA_Data_Process/ExactMatchExtractor.py:155 | every occurrence of the character becomes a space, and nothing else changes |
| `PcreRewrite.SubLiteral` | PartA_Data_Process/config/config.py:31-39 | for `\|`, `\(` and `\)` the substitution replaces each occurrence of the literal character by a space |
| `PcreRewrite.SubLiteralRemoves` | PartA_Data_Process/config/config.py:31-39 | after those patterns the character is gone and the length is unchanged |
| `PcreRewrite.ApplyPatterns` | PartA_Data_Process/ExactMatchExtractor.py:154-155 | running the unwanted patterns in order never lengthens the signature |
| `ExactMatchExtractor.CharToUtf8` | PartA_Data_Process/ExactMatchExtractor.py:54-65 | `\x` followed by hex digits whose value is the code point, exactly two of them below 256 |
| `ExactMatchExtractor.EscapeRoundTrip` | PartA_Data_Process/ExactMatchExtractor.py:54-65 | lower-casing and unicode-escape decoding the escape of a Latin-1 character gives the character back |
| `ExactMatchExtractor.LoweredEscapeDecodes` | PartA_Data_Process/ExactMatchExtractor.py:159-161 | a `\xHH` escape of either case decodes after lower-casing to byte HH |
| `ExactMatchExtractor.ReplaceSpecialMetacharacters` | PartA_Data_Process/ExactMatchExtractor.py:115-131 | the loop over the metacharacters computes `Canonicalise`: each `\m` replaced by the escape of m, in list order |
| `ExactMatchExtractor.ReplaceEscapesStep` | PartA_Data_Process/ExactMatchExtractor.py:128-129 | one more metacharacter is one more `str.replace` on the previous result |
| `ExactMatchExtractor.ReplaceEscapesAppend` | PartA_Data_Process/ExactMatchExtractor.py:128-129 | replacing for a list of metacharacters is replacing for its first part, then its second |
| `ExactMatchExtractor.ReplaceEscapesNoBackslash` | PartA_Data_Process/ExactMatchExtractor.py:128-129 | text without a backslash is untouched |
| `ExactMatchExtractor.CanonicaliseNoBackslash` | PartA_Data_Process/ExactMatchExtractor.py:115-131 | a signature without a backslash is untouched by the metacharacter pass |
| `ExactMatchExtractor.MetaCharactersDistinct` | PartA_Data_Process/config/config.py:10 | the metacharacters are distinct, none is `x`, and all are Latin-1 |
| `ExactMatchExtractor.EscapeHasNoMetaEscape` | PartA_Data_Process/ExactMatchExtractor.py:126-129 | a produced `\xHH` escape never contains `\m` for a later metacharacter m other than `x` |
| `ExactMatchExtractor.OtherEscapeKept` | PartA_Data_Process/ExactMatchExtractor.py:129 | replacing `\d` leaves `\c` alone when c ≠ d |
| `ExactMatchExtractor.OwnEscapeReplaced` | PartA_Data_Process/ExactMatchExtractor.py:129 | replacing `\c` turns `\c` into its escape |
| `ExactMatchExtractor.EscapeKept` | PartA_Data_Process/ExactMatchExtractor.py:129 | a produced escape survives a later replacement of `\d` (d ≠ `x`) |
| `ExactMatchExtractor.OtherEscapesKeep` | PartA_Data_Process/ExactMatchExtractor.py:128-129 | `\c` survives every metacharacter other than c |
| `ExactMatchExtractor.LaterEscapesKeep` | PartA_Data_Process/ExactMatchExtractor.py:128-129 | a produced escape survives all later replacements |
| `ExactMatchExtractor.OneEscape` | PartA_Data_Process/ExactMatchExtractor.py:128-129 | `\c` becomes exactly the escape of c when c appears once in the list |
| `ExactMatchExtractor.MetaEscapeDecodesToItself` | PartA_Data_Process/ExactMatchExtractor.py:126-161 | each escaped metacharacter `\m` is rewritten to its `\xHH` escape, which decodes back to m at the end of the pipeline |
| `ExactMatchExtractor.Repeat` | PartA_Data_Process/ExactMatchExtractor.py:97-112 | `char * int(num)` is n copies of the character |
| `ExactMatchExtractor.RepeatDigits` | PartA_Data_Process/ExactMatchExtractor.py:151 | a matched `c{digits}` has at least one digit and closes inside the text |
| `ExactMatchExtractor.DigitRunExact` | PartA_Data_Process/ExactMatchExtractor.py:151 | the digit scanner stops exactly at the first non-digit |
| `ExactMatchExtractor.RepeatExpanded` | PartA_Data_Process/ExactMatchExtractor.py:151 | `c{n}` with a word character c becomes n copies of c, and the rest is expanded after it |
| `ExactMatchExtractor.ExpandRepeatsNoBrace` | PartA_Data_Process/ExactMatchExtractor.py:151 | text without `{` is unchanged |
| `ExactMatchExtractor.Rewrite` | PartA_Data_Process/ExactMatchExtractor.py:147-155 | the three rewriting steps compute the rewritten signature in order: metacharacters, repeats, unwanted patterns |
| `ExactMatchExtractor.NonBlank` | PartA_Data_Process/ExactMatchExtractor.py:159-160 | the kept pieces are at most as many as the pieces and all have a non-space character |
| `ExactMatchExtractor.NonBlankFrom` | PartA_Data_Process/ExactMatchExtractor.py:159-160 | every kept piece is one of the pieces |
| `ExactMatchExtractor.NonBlankAppend` | PartA_Data_Process/ExactMatchExtractor.py:159-160 | filtering distributes over concatenation |
| `ExactMatchExtractor.DecodeAll` | PartA_Data_Process/ExactMatchExtractor.py:161 | on success, one decoded fragment per piece, each the unicode-escape decoding of its piece |
| `ExactMatchExtractor.DecodeAllFailed` | PartA_Data_Process/ExactMatchExtractor.py:161 | the first decoding error is the result whatever follows |
| `ExactMatchExtractor.DecodePieces` | PartA_Data_Process/ExactMatchExtractor.py:157-163 | the fragment loop computes the decoding of the non-blank pieces, stopping at the first error |
| `ExactMatchExtractor.ExtractExactMatches` | PartA_Data_Process/ExactMatchExtractor.py:134-163 | `extract_exact_matches` computes `ExtractSpec`: rewrite, lower, split on spaces, drop blanks, decode |
| `ExactMatchExtractor.ExtractedFragments` | PartA_Data_Process/ExactMatchExtractor.py:157-163 | each extracted fragment comes from a non-blank, space-free piece of the lower-cased rewritten signature, and is its decoding |
| `ExactMatchExtractor.PlainNoMatch` | PartA_Data_Process/config/config.py:19-40 | no unwanted pattern matches a plain text (letters, digits and spaces only) |
| `ExactMatchExtractor.ApplyPlain` | PartA_Data_Process/ExactMatchExtractor.py:154-155 | a plain text passes every unwanted pattern unchanged |
| `ExactMatchExtractor.PlainSignature` | PartA_Data_Process/ExactMatchExtractor.py:134-163 | a plain signature is returned as its lower-cased, space-separated words |
| `ExactMatchExtractor.Utf8ToAscii` | PartA_Data_Process/ExactMatchExtractor.py:84-94 | the `ord` of each character, in order |
| `ExactMatchExtractor.Utf8ToRaw` | PartA_Data_Process/ExactMatchExtractor.py:68-81 | a text with a backslash is returned unchanged; otherwise one character per UTF-8 byte |
| `ExactMatchExtractor.RawAscii` | PartA_Data_Process/ExactMatchExtractor.py:68-81 | an ASCII text is its own raw form |
| `ExactMatchExtractor.Run` | PartA_Data_Process/ExactMatchExtractor.py:166-184 | an extraction error is passed on; otherwise the result exists exactly for the flags `ascii`, `raw` and `char` (else `ValueError`), with one entry per fragment |
| `RuleLists.Range` | PartA_Data_Process/SnortRulesParser.py:353 | `range(lo, hi)` lists lo, lo+1, …, hi-1 |
| `RuleLists.RangeIncreasing` | PartA_Data_Process/SnortRulesParser.py:353 | the range is strictly increasing and holds exactly the numbers in [lo, hi) |
| `RuleLists.RemoveFirst` | PartA_Data_Process/SnortRulesParser.py:198 | `list.remove` of a present value shortens the list by one |
| `RuleLists.Without` | PartA_Data_Process/SnortRulesParser.py:195-198 | the reference filter keeps exactly the elements not in the set |
| `RuleLists.RemoveFirstIncreasing` | PartA_Data_Process/SnortRulesParser.py:198 | on an increasing list, `remove(x)` removes every occurrence of x |
| `RuleLists.WithoutIncreasing` | PartA_Data_Process/SnortRulesParser.py:195-198 | filtering keeps a list increasing |
| `RuleLists.WithoutWithout` | PartA_Data_Process/SnortRulesParser.py:195-198 | filtering by a then b is filtering by a ∪ b |
| `RuleLists.RemoveIfPresentIncreasing` | PartA_Data_Process/SnortRulesParser.py:197-198 | `if x in l: l.remove(x)` on an increasing list is filtering x out |
| `RuleLists.RemoveEachIncreasing` | PartA_Data_Process/SnortRulesParser.py:196-198 | removing a record's rules from an increasing list filters them all out and keeps it increasing |
| `RuleLists.AllOfMember` | PartA_Data_Process/SnortRulesParser.py:195-196 | a rule is in the union of the lists exactly when one of them has it |
| `RuleLists.RemoveAllIncreasing` | PartA_Data_Process/SnortRulesParser.py:195-198 | the nested loop over all records filters out every referenced rule and keeps the list increasing |
| `RuleLists.Unreferenced` | PartA_Data_Process/SnortRulesParser.py:195-198 | starting from 1..n, what is left is increasing and holds exactly the rules in 1..n that no list references |
| `RuleLists.RemoveEachOrFail` | PartA_Data_Process/ResultsAnalysis.py:53-54 | unconditional `remove` of each rule either raises, or shortens the list by the number of rules |
| `RuleLists.RemoveEachOrFailIncreasing` | PartA_Data_Process/ResultsAnalysis.py:53-54 | when the removed rules are increasing and all present, nothing raises and the result is the filter |
| `RuleLists.RemoveEachOrFailStops` | PartA_Data_Process/ResultsAnalysis.py:53-54 | once a `remove` has raised, the loop's result is the error |
| `SnortRulesParser.FindSignature` | PartA_Data_Process/SnortRulesParser.py:108-111 | the index found is the first record with that text, and none is found only when no record has it |
| `SnortRulesParser.Registry.constructor` | PartA_Data_Process/SnortRulesParser.py:138 | the registry starts empty |
| `SnortRulesParser.Registry.CheckDuplicateSignatures` | PartA_Data_Process/SnortRulesParser.py:93-113 | returns true exactly when the text is already registered, and then appends the rule to that record only; otherwise appends a new record with the rule |
| `SnortRulesParser.RegistrationKeepsValid` | PartA_Data_Process/SnortRulesParser.py:93-113 | registering keeps every text registered once with a non-empty list of positive rules, keeps earlier records and their rules, and registers the rule for the text |
| `SnortRulesParser.DedupIgnoresKind` | PartA_Data_Process/SnortRulesParser.py:108-111 | a pcre signature with the text of an earlier content signature joins that record, which keeps the content kind |
| `SnortRulesParser.Registry.AddExactMatchesToHist` | PartA_Data_Process/SnortRulesParser.py:115-119 | stores the fragments in the first record with that text and changes nothing else; with no such record nothing changes |
| `SnortRulesParser.StoreKeepsValid` | PartA_Data_Process/SnortRulesParser.py:115-119 | storing fragments keeps the registry valid and every record's text and rules |
| `SnortRulesParser.FindSignatureExtends` | PartA_Data_Process/SnortRulesParser.py:108-111 | a text found before is found at the same index after the registry grows |
| `SnortRulesParser.RegisteredExtends` | PartA_Data_Process/SnortRulesParser.py:108-111 | a registered (text, rule) pair stays registered as the registry grows |
| `SnortRulesParser.Thresholded` | PartA_Data_Process/SnortRulesParser.py:185-187 | thresholding never lengthens the fragment list |
| `SnortRulesParser.ThresholdedMembers` | PartA_Data_Process/SnortRulesParser.py:185-187 | a fragment is kept exactly when it is longer than the minimum of 2; kept fragments have length ≥ 3 |
| `SnortRulesParser.ThresholdedAppend` | PartA_Data_Process/SnortRulesParser.py:176-187 | thresholding distributes over concatenation, so order is kept |
| `SnortRulesParser.CountLengthsSpec` | PartA_Data_Process/SnortRulesParser.py:180-183 | each length's histogram count grows by the number of fragments of that length, and a length is present exactly when it was or occurs |
| `SnortRulesParser.Statistics.constructor` | PartA_Data_Process/SnortRulesParser.py:322-330 | every counter starts at 0, the histogram empty, the lost-rule list empty |
| `SnortRulesParser.Statistics.AnalyzeAndThreshold` | PartA_Data_Process/SnortRulesParser.py:172-189 | returns the fragments longer than 2, adds all of them to the total, the kept ones to the relevant count, and their lengths to the histogram |
| `SnortRulesParser.Statistics.CountAndExtract` | PartA_Data_Process/SnortRulesParser.py:153-159 | counts the new signature under its kind and returns its extracted fragments |
| `SnortRulesParser.Statistics.CountRelevant` | PartA_Data_Process/SnortRulesParser.py:164-168 | the kind's relevant counter grows by one exactly when some fragment was kept |
| `SnortRulesParser.Statistics.InitLostRules` | PartA_Data_Process/SnortRulesParser.py:353 | the lost-rule list becomes 1..total_rules and nothing else changes |
| `SnortRulesParser.Statistics.CheckLostRules` | PartA_Data_Process/SnortRulesParser.py:191-202 | removes every rule of every record from the lost-rule list, in record order, and nothing else changes |
| `SnortRulesParser.RulesOf` | PartA_Data_Process/SnortRulesParser.py:195-196 | the rule lists of the records, in order |
| `SnortRulesParser.LostRulesAreUnreferenced` | PartA_Data_Process/SnortRulesParser.py:191-202 | after the check, the lost rules are increasing and are exactly the rules in 1..n that no record references |
| `SnortRulesParser.FindAllFrom` | PartA_Data_Process/SnortRulesParser.py:90-91 | each captured signature text holds no quote and no newline |
| `SnortRulesParser.NoQuoteNoSignature` | PartA_Data_Process/SnortRulesParser.py:145 | a line without a quote yields no signature |
| `SnortRulesParser.Fragments` | PartA_Data_Process/SnortRulesParser.py:153-159 | a content signature yields one fragment; a pcre signature yields what the extractor gives, and fails exactly when it does |
| `SnortRulesParser.SameRulesFind` | PartA_Data_Process/SnortRulesParser.py:108-111 | lookup depends only on the texts, not on the stored fragments |
| `SnortRulesParser.ProcessSignature` | PartA_Data_Process/SnortRulesParser.py:147-168 | one matched signature: the registry's texts and rules change as registration says; a known text changes nothing else, and a new one is counted once and gets its fragments stored; when extraction fails, the new record is left without fragments |
| `SnortRulesParser.ExtractNewSignature` | PartA_Data_Process/SnortRulesParser.py:153-168 | for a just-registered text, the fragments are stored in its record exactly when extraction succeeds, thresholded; the kind count grows by one |
| `SnortRulesParser.StoredStep` | PartA_Data_Process/SnortRulesParser.py:150-168 | registering a text, or storing the thresholded extraction of a new one, keeps every stored fragment list the extraction of its record's text |
| `SnortRulesParser.ParseLine` | PartA_Data_Process/SnortRulesParser.py:144-168 | the line's signatures are all registered under the line's rule number, the registry stays valid and only grows, every rule of every record is still a line carrying the record's text, every stored fragment list is the thresholded extraction of its record's text under the record's kind, and one kind count per new record |
| `SnortRulesParser.AllLineSignatures` | PartA_Data_Process/SnortRulesParser.py:142-146 | one signature list per line, each the line's content signatures then its pcre signatures |
| `SnortRulesParser.JustifiedStep` | PartA_Data_Process/SnortRulesParser.py:93-113 | registering a text under a rule whose line carries it keeps every record's rules pointing at lines that carry the record's text |
| `SnortRulesParser.RecordsFromLines` | PartA_Data_Process/SnortRulesParser.py:93-113 | when every rule of a record points at a line carrying its text, every record's text comes from some line, since no record is without rules |
| `SnortRulesParser.ParseFile` | PartA_Data_Process/SnortRulesParser.py:133-170 | the total rule count is the line count; afterwards every signature of line n is registered with rule n+1 and, conversely, every rule n+1 of a record is a line n carrying the record's text and every record's text comes from some line; on success every record holds exactly the thresholded extraction of its text under the kind it was first seen with, rules lie in 1..lines, and content plus pcre totals equal the number of records |
| `SnortRulesParser.ThresholdBins` | PartA_Data_Process/SnortRulesParser.py:279-284 | one count per bin, each the number of fragments whose length is at most the bin's limit |
| `SnortRulesParser.BinsNonDecreasing` | PartA_Data_Process/SnortRulesParser.py:279-284 | the bins are cumulative: each holds at least as many as the one before |
| `SnortRulesParser.LastBinIsTotal` | PartA_Data_Process/SnortRulesParser.py:279-284 | the unlimited last bin counts every fragment |
| `SnortRulesParser.CharHex` | PartA_Data_Process/SnortRulesParser.py:215 | `hex(ord(c))` is `0x` and hex digits whose value is the code point |
| `SnortRulesParser.WrappedCharHex` | PartA_Data_Process/SnortRulesParser.py:212-216 | what the inner loops build for one fragment: one single-element list per character |
| `SnortRulesParser.TranslateRecord` | PartA_Data_Process/SnortRulesParser.py:209-217 | translating a record changes only its hex field |
| `SnortRulesParser.Registry.TranslateExactMatchesToHex` | PartA_Data_Process/SnortRulesParser.py:204-217 | succeeds exactly when every record has fragments, and then each record is replaced by its translation as written |
| `SnortRulesParser.AsWrittenKeepsLastFragmentOnly` | PartA_Data_Process/SnortRulesParser.py:209-217 | as written, the hex field depends only on the last fragment |
| `SnortRulesParser.IntendedHex` | PartA_Data_Process/SnortRulesParser.py:209-217 | the intended translation has one hex list per fragment, as long as the fragment |
| `SnortRulesParser.IntendedHexRecoversFragments` | PartA_Data_Process/SnortRulesParser.py:209-217 | in the intended translation each hex string's value is its character's code point |
| `SnortRulesParser.TranslateRecordIntended` | PartA_Data_Process/SnortRulesParser.py:209-217 | the intended record translation succeeds exactly when the record has fragments, and stores their per-fragment hex lists |
| `SnortRulesParser.HexTranslationDiffers` | PartA_Data_Process/SnortRulesParser.py:209-217 | for fragments "abc", "def" the code gives `[["0x64"],["0x65"],["0x66"]]` and the intended translation gives two three-element lists |
| `ResultsAnalysis.RuleListsOf` | PartA_Data_Process/ResultsAnalysis.py:30-31 | the records' rule lists, in order |
| `ResultsAnalysis.FragmentRuleListsOf` | PartA_Data_Process/ResultsAnalysis.py:46-49 | a record's rules, or nothing when it has no fragment |
| `ResultsAnalysis.NoSignaturesMembers` | PartA_Data_Process/ResultsAnalysis.py:24-38 | the rules with no signature are increasing and are exactly those in 1..n no record references |
| `ResultsAnalysis.WithFragmentsRemovedMembers` | PartA_Data_Process/ResultsAnalysis.py:45-51 | the first loop leaves exactly the rules in 1..n that no record with fragments references |
| `ResultsAnalysis.LostRulesMembers` | PartA_Data_Process/ResultsAnalysis.py:40-59 | the final removals never raise, and the lost rules are exactly those referenced by some record but by no record with fragments |
| `ResultsAnalysis.Analysis.constructor` | PartA_Data_Process/ResultsAnalysis.py:19 | the rule total is a parameter (the module sets it to 0) and both lists start empty |
| `ResultsAnalysis.Analysis.CheckRulesWithNoSignatures` | PartA_Data_Process/ResultsAnalysis.py:24-38 | sets the no-signature list to the unreferenced rules, nothing else changes |
| `ResultsAnalysis.Analysis.CheckRulesLostWhileParsing` | PartA_Data_Process/ResultsAnalysis.py:40-59 | sets the lost list to the rules left after removing the no-signature rules, or reports the `ValueError` a missing one raises |
| `ResultsAnalysis.Analysis.Analyse` | PartA_Data_Process/ResultsAnalysis.py:79-84 | both checks in order never raise; both lists are increasing, with the memberships above |
| `Bstring.StripPrefix` | PartC_Aho_Corasick/aho_corasick/src/bstring.h:15 | only a leading `0x` is removed |
| `Bstring.PairValue` | PartC_Aho_Corasick/aho_corasick/src/bstring.h:25-28 | two hex digits read with `std::hex` give the byte they spell |
| `Bstring.Pairs` | PartC_Aho_Corasick/aho_corasick/src/bstring.h:24-29 | one byte per pair of characters, in order |
| `Bstring.HexToBstring` | PartC_Aho_Corasick/aho_corasick/src/bstring.h:13-30 | an odd length (after the prefix) throws and appends nothing; otherwise the decoded bytes are appended |
| `Bstring.EncodeHex` | PartC_Aho_Corasick/aho_corasick/src/bstring.h:13-30 | the reference encoding: two upper-case digits per byte |
| `Bstring.HexToBytesEncodeHex` | PartC_Aho_Corasick/aho_corasick/src/bstring.h:13-30 | decoding the hex encoding of bytes, with or without `0x`, gives the bytes back |
| `Bstring.PrefixStrippedOnce` | PartC_Aho_Corasick/aho_corasick/src/bstring.h:15 | only one `0x` is stripped: a second one reads as a zero byte |
| `HexKeys.Contribution` | PartB_Hash/cuckoohash/src/Parser.h:79-83 | an entry starting with `0x` contributes the rest, any other entry nothing |
| `HexKeys.MatchKey` | PartB_Hash/cuckoohash/src/Parser.h:75-85 | the key always starts with `0x` |
| `HexKeys.BuildMatchKey` | PartB_Hash/cuckoohash/src/Parser.h:75-85 | the concatenation loop builds `0x` followed by every contribution in order |
| `HexKeys.UnprefixedAddsNothing` | PartB_Hash/cuckoohash/src/Parser.h:80-83 | an entry without `0x` is dropped from the key |
| `HexKeys.ConcatAppend` | PartB_Hash/cuckoohash/src/Parser.h:78-85 | concatenation distributes over appending entries |
| `HexKeys.WithoutSpaces` | PartB_Hash/cuckoohash/src/Parser.h:143-147 | dropping spaces leaves no space and never lengthens the text |
| `HexKeys.BuildSearchKey` | PartB_Hash/cuckoohash/src/Parser.h:141-149 | the search key is `0x` and the example without its spaces |
| `HexKeys.SpacedKey` | PartB_Hash/cuckoohash/src/Parser.h:140-149 | removing the spaces of a spaced `FF FF …` example gives the plain hex encoding |
| `HexKeys.SearchKeyDecodes` | PartB_Hash/cuckoohash/src/Parser.h:140-149 | the search key built from a spaced example decodes back to its bytes |
| `HexKeys.PyHexList` | PartA_Data_Process/SnortRulesParser.py:215 | Part A's hex list has one `hex()` string per byte |
| `HexKeys.PaddedHex` | PartA_Data_Process/SnortRulesParser.py:215 | the padded form is always `0x` and two digits |
| `HexKeys.PaddedHexList` | PartA_Data_Process/SnortRulesParser.py:215 | one padded string per byte |
| `HexKeys.ConcatPadded` | PartB_Hash/cuckoohash/src/Parser.h:78-85 | concatenating padded entries gives two lower-case digits per byte |
| `HexKeys.PaddedKeyDecodes` | PartB_Hash/cuckoohash/src/Parser.h:75-86 | with two-digit entries the key decodes back to exactly the fragment's bytes |
| `HexKeys.PyHexKeyDecodes` | PartB_Hash/cuckoohash/src/Parser.h:75-86 | with Part A's `hex()` entries the round trip holds when every byte is ≥ 16 |
| `HexKeys.PyHexKeyShifts` | PartB_Hash/cuckoohash/src/Parser.h:75-86 | bytes 1, 2, 0x41 give entries `0x1`, `0x2`, `0x41`, whose key decodes to 0x12, 0x41 |
| `HexKeys.PyHexKeyOdd` | PartB_Hash/cuckoohash/src/Parser.h:75-86 | bytes 9, 0x41, 0x42 give a key of odd length, which `hexToBstring` rejects |
| `CuckooExactMatches.NameRoundTrip` | PartB_Hash/cuckoohash/src/ExactMatches.h:26-28 | setting a type by name and reading it back gives the name, or `other` for an unknown name |
| `CuckooExactMatches.TypeRoundTrip` | PartB_Hash/cuckoohash/src/ExactMatches.h:26-28 | setting a type by its own name gives the type back |
| `CuckooExactMatches.NamedExactMatch` | PartB_Hash/cuckoohash/src/ExactMatches.h:17-20 | the by-name constructor keeps rules and text, and its type reads back as the name or `other` |
| `CuckooExactMatches.SetSignatureType` | PartB_Hash/cuckoohash/src/ExactMatches.h:28 | only the type changes, and it reads back as the name or `other` |
| `CuckooExactMatches.ExactMatches.constructor` | PartB_Hash/cuckoohash/src/ExactMatches.h:49-51 | the container starts empty |
| `CuckooExactMatches.ExactMatches.Insert` | PartB_Hash/cuckoohash/src/ExactMatches.h:58-61 | a copy goes at the end, earlier entries unchanged |
| `CuckooParser.ParseLine` | PartB_Hash/cuckoohash/src/Parser.h:66-87 | exactly one entry is appended: the set of the line's rules, with the key built from its hex list |
| `CuckooParser.UnionRulesMembers` | PartB_Hash/cuckoohash/src/Parser.h:25-31 | a rule is in the union exactly when some entry lists it |
| `CuckooParser.ParseExactMatches` | PartB_Hash/cuckoohash/src/Parser.h:23-48 | returns the number of distinct rules over all entries |
| `CuckooParser.SumBoundsEach` | PartB_Hash/cuckoohash/src/Parser.h:50-57 | no single duplicate count exceeds the total |
| `CuckooParser.SumAppend` | PartB_Hash/cuckoohash/src/Parser.h:50-57 | the total distributes over concatenation |
| `CuckooParser.GetTotalNumOfDups` | PartB_Hash/cuckoohash/src/Parser.h:50-57 | the loop computes the sum of the duplicate counts |
| `CuckooConfig.IbltNumOfCells` | PartB_Hash/cuckoohash/src/Config.h:26-94 | non-zero exactly for a supported (L, G) shape and a rate of 100, 99, 95 or 85; every answer is 0 or a power of two from 4 to 256 |
| `CuckooConfig.EightByteCells` | PartB_Hash/cuckoohash/src/Config.h:29-59 | for 8-byte substrings: 128, 32, 8 and 4 cells for the four rates |
| `CuckooConfig.CellsShrinkWithRate` | PartB_Hash/cuckoohash/src/Config.h:26-94 | a lower success rate never needs more cells; the counts strictly decrease over 100, 99, 95, 85 |
| `CuckooConfig.ShortSubstringsNeedTwice` | PartB_Hash/cuckoohash/src/Config.h:29-91 | 4-byte substrings need twice the cells of 8-byte ones at every rate |
| `CuckooConfig.GapIrrelevant` | PartB_Hash/cuckoohash/src/Config.h:29-91 | the gap (1 or 2) does not change the cell count |
| `CustomHash.Hash64` | PartB_Hash/cuckoohash/src/CustomHash.h:32-41 | the 64-bit overload stays below 2^64 |
| `CustomHash.Hash32` | PartB_Hash/cuckoohash/src/CustomHash.h:44-56 | the 32-bit overload stays below 2^32 |
| `CustomHash.Hash16` | PartB_Hash/cuckoohash/src/CustomHash.h:60-72 | the 16-bit overload stays below 2^16 |
| `CustomHash.XorShiftInverse` | PartB_Hash/cuckoohash/src/CustomHash.h:36-38 | `h ^= h >> s` is undone by the matching unshift for values below 2^(3s) |
| `CustomHash.MulCancel64` | PartB_Hash/cuckoohash/src/CustomHash.h:12 | multiplying by the 64-bit multiplier and then by its inverse modulo 2^64 gives every key back |
| `CustomHash.MulCancel32` | PartB_Hash/cuckoohash/src/CustomHash.h:13 | multiplying by the 32-bit multiplier and then by its inverse modulo 2^32 gives every key back |
| `CustomHash.Unhash64Hash64` | PartB_Hash/cuckoohash/src/CustomHash.h:32-41 | the 64-bit hash has an inverse: every key is recovered from its hash |
| `CustomHash.Hash64Injective` | PartB_Hash/cuckoohash/src/CustomHash.h:32-41 | two 64-bit keys hash alike exactly when they are equal |
| `CustomHash.Unhash32Hash32` | PartB_Hash/cuckoohash/src/CustomHash.h:44-56 | the 32-bit hash has an inverse |
| `CustomHash.Hash32Injective` | PartB_Hash/cuckoohash/src/CustomHash.h:44-56 | two 32-bit keys hash alike exactly when they are equal |
| `CustomHash.Hash16Collision` | PartB_Hash/cuckoohash/src/CustomHash.h:60-72 | the 16-bit hash is not injective: keys 0 and 0x8000 hash alike (its multiplier is even) |
| `CustomHash.XorAssoc` | PartB_Hash/cuckoohash/src/CustomHash.h:35-38 | xor on naturals is associative |
| `CustomHash.XorCancel` | PartB_Hash/cuckoohash/src/CustomHash.h:35-38 | xoring the same value twice cancels |
| `CustomHash.ShrXor` | PartB_Hash/cuckoohash/src/CustomHash.h:36-38 | a right shift distributes over xor |
| `Substrings.HexCharToInt` | PartB_Hash/cuckoohash/src/Substring.h:139-151 | a hex digit of either case gives its value; any other character gives 0 |
| `Substrings.Pack` | PartB_Hash/cuckoohash/src/Substring.h:64-70 | the packed value fits the width |
| `Substrings.PackIsNumberMod` | PartB_Hash/cuckoohash/src/Substring.h:64-70 | shifting in 4 bits per character gives the text's hex value modulo 2^(8·width) |
| `Substrings.PackFits` | PartB_Hash/cuckoohash/src/Substring.h:64-70 | a text of at most 2·width digits packs to its exact value |
| `Substrings.NumberAppend` | PartB_Hash/cuckoohash/src/Substring.h:64-70 | the value of a concatenation is the first part shifted by the second's digit count, plus the second |
| `Substrings.PrefixReadsAsZero` | PartB_Hash/cuckoohash/src/Substring.h:64-70 | a `0x` prefix adds nothing: `0` is 0 and `x` is not a digit |
| `Substrings.Substring.FromHex` | PartB_Hash/cuckoohash/src/Substring.h:63-71 | the constructor stores the packed value of the text |
| `Substrings.Substring.constructor` | PartB_Hash/cuckoohash/src/Substring.h:63-71 | a substring built from a value that fits stores it |
| `Substrings.Substring.Zero` | PartB_Hash/cuckoohash/src/Substring.h:65 | the empty text gives the zero substring |
| `Substrings.Substring.AtLeast` | PartB_Hash/cuckoohash/src/Substring.h:83-86 | `>=` (defined as `>` or `==`) is comparison of the values |
| `Substrings.Substring.AtMost` | PartB_Hash/cuckoohash/src/Substring.h:88-91 | `<=` (defined as `<` or `==`) is comparison of the values |
| `Substrings.Substring.NotEqual` | PartB_Hash/cuckoohash/src/Substring.h:98-101 | `!=` holds exactly when the values differ, that is when one is less or greater |
| `Substrings.Substring.Assign` | PartB_Hash/cuckoohash/src/Substring.h:103-109 | after assignment the value is the other's, and the returned copy has it |
| `Substrings.Substring.WriteTo` | PartB_Hash/cuckoohash/src/Substring.h:111-127 | the output gets each of the width's bytes, most significant first, rendered in turn |
| `Substrings.BytesOf` | PartB_Hash/cuckoohash/src/Substring.h:113-115 | one byte per byte of the width |
| `Substrings.PairBytes` | PartB_Hash/cuckoohash/src/Substring.h:139-151 | one byte per pair of hex characters |
| `Substrings.RoundTrip` | PartB_Hash/cuckoohash/src/Substring.h:63-127 | packing a full-width hex text and printing its bytes gives back the text's byte pairs |
| `Substrings.BytesOfNumber` | PartB_Hash/cuckoohash/src/Substring.h:111-127 | the printed bytes of a full-width text's value are its byte pairs |
| `Substrings.NumberIsBigEndian` | PartB_Hash/cuckoohash/src/Substring.h:64-70 | the packed value is the big-endian reading of the text's bytes |
| `Substrings.SameValueSameBytes` | PartB_Hash/cuckoohash/src/Substring.h:93-96 | two full-width substrings are equal exactly when their texts spell the same bytes |
| `Substrings.PairBytesAreBstringPairs` | PartB_Hash/cuckoohash/src/Substring.h:139-151 | on hex text, Part B's nibble packing and Part C's `hexToBstring` read the same bytes |
| `Substrings.NoWindowPastEnd` | PartB_Hash/cuckoohash/src/Substring.h:133 | no window starts where fewer than L bytes remain |
| `Substrings.WindowsMembers` | PartB_Hash/cuckoohash/src/Substring.h:129-137 | a value is extracted exactly when it is the packing of an L-byte window starting at an offset that is a multiple of 2G characters |
| `Substrings.Substring.ExtractSubstrings` | PartB_Hash/cuckoohash/src/Substring.h:129-137 | the set gains exactly the windows' packed values |
| `AcExactMatches.ExactMatches.constructor` | PartC_Aho_Corasick/aho_corasick/src/ExactMatches.h:41-43 | the container starts empty |
| `AcExactMatches.ExactMatches.Insert` | PartC_Aho_Corasick/aho_corasick/src/ExactMatches.h:50-53 | a copy goes at the end, earlier entries unchanged |
| `AcExactMatches.ExactMatches.CreateMap` | PartC_Aho_Corasick/aho_corasick/src/ExactMatches.h:63-69 | the loop computes `MapAfter`: each decoded text maps to its rules, later entries overwriting, or the first decoding error |
| `AcExactMatches.MapAfterFails` | PartC_Aho_Corasick/aho_corasick/src/ExactMatches.h:63-69 | `createMap` throws exactly when some entry has an odd-length text |
| `AcExactMatches.MapAfterStops` | PartC_Aho_Corasick/aho_corasick/src/ExactMatches.h:63-69 | after a throw the later entries change nothing |
| `AcExactMatches.MapAfterKeepsOthers` | PartC_Aho_Corasick/aho_corasick/src/ExactMatches.h:63-69 | a key no entry decodes to keeps its presence and rules |
| `AcExactMatches.MapAfterLastWins` | PartC_Aho_Corasick/aho_corasick/src/ExactMatches.h:67 | the last entry decoding to a key decides its rules |
| `AcExactMatches.MapAfterKeys` | PartC_Aho_Corasick/aho_corasick/src/ExactMatches.h:63-69 | every key of the result was in the map or decodes from an entry |
| `AcParser.AddBstring` | PartC_Aho_Corasick/aho_corasick/src/Parser.h:17-22 | on an odd text the vector is unchanged and the error returned; otherwise the decoding is appended and its length returned |
| `AcParser.DecodeAllPointwise` | PartC_Aho_Corasick/aho_corasick/src/Parser.h:29-42 | decoding a list succeeds exactly when each text decodes, and then entry k is text k's bytes |
| `AcParser.MaxLengthIsMaximum` | PartC_Aho_Corasick/aho_corasick/src/Parser.h:30-41 | the maximum bounds every length and is 0 or one of them |
| `AcParser.ExactMatchesToBstrings` | PartC_Aho_Corasick/aho_corasick/src/Parser.h:29-42 | fails exactly when some text is odd; otherwise appends every decoding in order and returns the longest length |
| `AcParser.SearchResultsToBstrings` | PartC_Aho_Corasick/aho_corasick/src/Parser.h:51-59 | a null pointer changes nothing; otherwise fails exactly when some key is odd, and appends every decoding in order |
| `AcParser.ParseLine` | PartC_Aho_Corasick/aho_corasick/src/Parser.h:68-89 | exactly one entry is appended: the set of the line's rules, with the key built from its hex list |
| `SearchItems.ParseSearchItems` | PartB_Hash/cuckoohash/src/Parser.h:135-151 | one record per item is appended, in order, with the item's SIDs, the `0x` key without spaces, and no hits |
| `AhoCorasick.Size` | PartC_Aho_Corasick/aho_corasick/src/aho_corasick.hpp:63 | `size()` is the number of positions in [start, end] when that fits a `size_t` |
| `AhoCorasick.OverlapsSymmetric` | PartC_Aho_Corasick/aho_corasick/src/aho_corasick.hpp:65-67 | overlap is symmetric |
| `AhoCorasick.OverlapsSharePoint` | PartC_Aho_Corasick/aho_corasick/src/aho_corasick.hpp:65-71 | two non-empty intervals overlap exactly when some position lies in both |
| `AhoCorasick.PointIsUnitInterval` | PartC_Aho_Corasick/aho_corasick/src/aho_corasick.hpp:65-71 | overlapping a point is overlapping the one-position interval at it |
| `AhoCorasick.DiffersIsNotEqual` | PartC_Aho_Corasick/aho_corasick/src/aho_corasick.hpp:77-83 | `!=` is the negation of `==` |
| `AhoCorasick.Scanned` | PartC_Aho_Corasick/aho_corasick/src/aho_corasick.hpp:580-583 | lower-casing for the scan keeps the text's length |
| `AhoCorasick.EmitSound` | PartC_Aho_Corasick/aho_corasick/src/aho_corasick.hpp:703 | an emit recorded at pos for a keyword ending there starts at pos − len + 1, and the text holds the keyword there |
| `AhoCorasick.SignedValue` | PartC_Aho_Corasick/aho_corasick/src/aho_corasick.hpp:345 | a byte read as a signed `char` lies in -128..127, is negative exactly for 0x80..0xFF, and agrees with the byte modulo 256 |
| `AhoCorasick.SmallestKey` | PartC_Aho_Corasick/aho_corasick/src/aho_corasick.hpp:681 | the transitions are visited in `std::map<char>` order: the key with the least signed `char` value first |
| `AhoCorasick.Trie.constructor` | PartC_Aho_Corasick/aho_corasick/src/aho_corasick.hpp:513-518 | a new trie is only the root state, with no keywords and stale failure links |
| `AhoCorasick.Trie.Next` | PartC_Aho_Corasick/aho_corasick/src/aho_corasick.hpp:450-459 | the root always answers; any answer is a state |
| `AhoCorasick.Trie.PathsDiffer` | PartC_Aho_Corasick/aho_corasick/src/aho_corasick.hpp:405-412 | no two states spell the same path |
| `AhoCorasick.Trie.ChildByLabel` | PartC_Aho_Corasick/aho_corasick/src/aho_corasick.hpp:405-412 | the state spelling path+c is the child of the state spelling path through c |
| `AhoCorasick.Trie.PrefixState` | PartC_Aho_Corasick/aho_corasick/src/aho_corasick.hpp:535-541 | every prefix of a state's path is itself a state |
| `AhoCorasick.Trie.RootHasNoEmits` | PartC_Aho_Corasick/aho_corasick/src/aho_corasick.hpp:536-537 | the root never holds an emit (empty keywords are not inserted) |
| `AhoCorasick.Trie.AddState` | PartC_Aho_Corasick/aho_corasick/src/aho_corasick.hpp:405-412 | returns the existing child through c unchanged, or appends a new state one level deeper linked from cur |
| `AhoCorasick.Trie.InsertPath` | PartC_Aho_Corasick/aho_corasick/src/aho_corasick.hpp:538-541 | following and extending the keyword's path reaches a state spelling the keyword, keeping existing states and edges |
| `AhoCorasick.Trie.Insert` | PartC_Aho_Corasick/aho_corasick/src/aho_corasick.hpp:535-544 | an empty keyword changes nothing; otherwise the keyword's state exists and gains the emit (keyword, count), the count grows by one, the links go stale, existing states and edges are kept, and a known keyword adds no state |
| `AhoCorasick.Trie.FollowFailure` | PartC_Aho_Corasick/aho_corasick/src/aho_corasick.hpp:685-689 | the failure chase never meets a null link and ends at a settled state whose path is a proper suffix of the child's |
| `AhoCorasick.Trie.LinkChild` | PartC_Aho_Corasick/aho_corasick/src/aho_corasick.hpp:682-691 | one transition: the child is queued, gets a proper-suffix failure link and absorbs its target's emits; the BFS invariant holds |
| `AhoCorasick.Trie.ProcessFront` | PartC_Aho_Corasick/aho_corasick/src/aho_corasick.hpp:679-694 | one queue step links all of the front's children, pops it as done, keeps the BFS invariant, and emits only grow |
| `AhoCorasick.Trie.DepthOneFailsToRoot` | PartC_Aho_Corasick/aho_corasick/src/aho_corasick.hpp:673-676 | once built, every depth-one state fails to the root |
| `AhoCorasick.Trie.RootQueue` | PartC_Aho_Corasick/aho_corasick/src/aho_corasick.hpp:673-676 | the initial queue holds exactly the root's children, once each, with depth one |
| `AhoCorasick.Trie.RootLinks` | PartC_Aho_Corasick/aho_corasick/src/aho_corasick.hpp:672-676 | after the root's children are linked the BFS invariant holds |
| `AhoCorasick.Trie.BuildLinks` | PartC_Aho_Corasick/aho_corasick/src/aho_corasick.hpp:671-694 | every non-root state ends up with a failure link to a proper suffix of its path and holds that state's emits; emits only grow and stay sound |
| `AhoCorasick.Trie.ConstructFailureStates` | PartC_Aho_Corasick/aho_corasick/src/aho_corasick.hpp:671-696 | sets the flag with the links built; states, edges, paths and keyword count unchanged, emits only grow |
| `AhoCorasick.Trie.CheckConstructFailureStates` | PartC_Aho_Corasick/aho_corasick/src/aho_corasick.hpp:660-669 | afterwards the links are built, the trie's shape unchanged |
| `AhoCorasick.Trie.GetState` | PartC_Aho_Corasick/aho_corasick/src/aho_corasick.hpp:651-658 | the failure chase terminates and the state reached spells a suffix of the current path followed by c |
| `AhoCorasick.Trie.EmitsAt` | PartC_Aho_Corasick/aho_corasick/src/aho_corasick.hpp:701-704 | one emit per entry |
| `AhoCorasick.Trie.StoreEmits` | PartC_Aho_Corasick/aho_corasick/src/aho_corasick.hpp:698-706 | appends one emit per entry of the state's set, each entry exactly once |
| `AhoCorasick.Trie.StoredSound` | PartC_Aho_Corasick/aho_corasick/src/aho_corasick.hpp:698-706 | emits stored at a state whose path ends the text at pos are sound and end at pos |
| `AhoCorasick.Trie.Advance` | PartC_Aho_Corasick/aho_corasick/src/aho_corasick.hpp:584 | after each step, the current state's path is a suffix of the text scanned so far |
| `AhoCorasick.Trie.Scan` | PartC_Aho_Corasick/aho_corasick/src/aho_corasick.hpp:577-587 | every collected emit's keyword occurs in the (lower-cased) text at its interval, and emits come in order of end position |
| `AhoCorasick.Trie.ParseText` | PartC_Aho_Corasick/aho_corasick/src/aho_corasick.hpp:575-597 | builds stale links, leaves the trie's shape unchanged, and returns only sound emits in end-position order |
| `AcDriver.ThresholdedKeeps` | PartC_Aho_Corasick/aho_corasick/src/main.cpp:76-81 | a string is kept exactly when it is at least the threshold long |
| `AcDriver.ThresholdedConcat` | PartC_Aho_Corasick/aho_corasick/src/main.cpp:76-81 | the filter distributes over concatenation, so order is kept |
| `AcDriver.ThresholdedTwice` | PartC_Aho_Corasick/aho_corasick/src/main.cpp:76-81 | filtering at a lower then a higher threshold is filtering at the higher |
| `AcDriver.ThresholdedBeyondMax` | PartC_Aho_Corasick/aho_corasick/src/main.cpp:198-205 | above the longest length nothing is kept |
| `AcDriver.ThresholdFilter` | PartC_Aho_Corasick/aho_corasick/src/main.cpp:76-81 | the loop computes the threshold filter |
| `AcDriver.PruneMap` | PartC_Aho_Corasick/aho_corasick/src/main.cpp:84-91 | the pruned map holds exactly the patterns at least the threshold long, with their rules unchanged |
| `AcDriver.HitsWitness` | PartC_Aho_Corasick/aho_corasick/src/main.cpp:42-50 | a rule is hit exactly when some emit's pattern maps to it, and at most once per emit |
| `AcDriver.HitJustified` | PartC_Aho_Corasick/aho_corasick/src/main.cpp:39-60 | a hit rule has a non-empty pattern that occurs in the scanned text |
| `AcDriver.AddRules` | PartC_Aho_Corasick/aho_corasick/src/main.cpp:47-49 | each of the pattern's rules gains one hit |
| `AcDriver.CountHits` | PartC_Aho_Corasick/aho_corasick/src/main.cpp:42-55 | each rule gains its number of hits; unmapped patterns add nothing |
| `AcDriver.ReadOriginalSids` | PartC_Aho_Corasick/aho_corasick/src/main.cpp:56-58 | reading `sids_hit[sid]` inserts a zero count for each original SID, changing no count |
| `AcDriver.Find` | PartC_Aho_Corasick/aho_corasick/src/main.cpp:39-60 | the emits are sound, each rule's count grows by its hits, and the counted rules are the previous ones, the hit ones and the original SIDs |
| `AcDriver.ClearHits` | PartC_Aho_Corasick/aho_corasick/src/main.cpp:72-74 | every record's hits are cleared, nothing else changes |
| `AcDriver.InsertAll` | PartC_Aho_Corasick/aho_corasick/src/main.cpp:111-114 | every kept string is inserted and counted, and each non-empty one is a state of the trie |
| `AcDriver.SearchAll` | PartC_Aho_Corasick/aho_corasick/src/main.cpp:122-131 | search text i's hits go into record i, which records exactly its emits' hits |
| `AcDriver.RunTest` | PartC_Aho_Corasick/aho_corasick/src/main.cpp:70-131 | the map is pruned, an odd search key throws, the number inserted is the thresholded count, and for thresholds 1..8 every record holds the hits of a list of sound emits of its lower-cased text (otherwise none) |
| `AcDriver.KeptIsThresholded` | PartC_Aho_Corasick/aho_corasick/src/main.cpp:218-231 | the patterns counted for storage are exactly those the trie received |
| `AcDriver.KeptMonotone` | PartC_Aho_Corasick/aho_corasick/src/main.cpp:218-231 | a higher threshold never counts more patterns or rules |
| `AcDriver.AddEntry` | PartC_Aho_Corasick/aho_corasick/src/main.cpp:226-230 | each pattern adds 64 bits per rule to the list, 80 per rule to the optimal IBLT, and 10240/1280/320 bits to the fixed IBLTs |
| `AcDriver.InBytes` | PartC_Aho_Corasick/aho_corasick/src/main.cpp:235-239 | the accumulated bits divided by 8 are the closed-form sizes |
| `AcDriver.Storage` | PartC_Aho_Corasick/aho_corasick/src/main.cpp:218-239 | fails exactly when some text is odd, otherwise gives the closed-form sizes |
| `AcDriver.Prepare` | PartC_Aho_Corasick/aho_corasick/src/main.cpp:191-201 | fails exactly when some text is odd; otherwise gives the map, the decoded strings and the longest length |
| `AcDriver.ThresholdPass` | PartC_Aho_Corasick/aho_corasick/src/main.cpp:205-248 | one threshold's count and sizes extend those of the lower thresholds (and stay as they were when `runTest` throws); the map is pruned at the threshold; for thresholds 1..8 the records written out are one per search item, with its SIDs and key, holding the hits, against the pruned map, of a list of sound emits of its lower-cased decoded key |
| `AcDriver.PrunedNext` | PartC_Aho_Corasick/aho_corasick/src/main.cpp:84-91 | pruning in place, threshold after threshold, leaves at threshold t exactly the created map's entries at least t long |
| `AcDriver.RecordedStep` | PartC_Aho_Corasick/aho_corasick/src/main.cpp:234-243 | the records of the next searched threshold join those of the lower ones, each against the map pruned at its own threshold |
| `AcDriver.ThresholdLoop` | PartC_Aho_Corasick/aho_corasick/src/main.cpp:205-250 | thresholds 1..max in order: counts for every threshold, sizes for 1..8, the records written for each of 1..8 (the hits of a list of sound emits of each key, against the created map pruned at that threshold), and the map pruned to the last threshold |
| `AcDriver.LoopResults` | PartC_Aho_Corasick/aho_corasick/src/main.cpp:198-250 | one count per threshold 1..max+1, each the thresholded count, the last one 0; sizes for the first min(8, ·) thresholds |
| `AcDriver.RunAllThresholds` | PartC_Aho_Corasick/aho_corasick/src/main.cpp:187-250 | fails exactly on an odd text or key; otherwise counts per threshold (last 0), sizes for thresholds 1..8, for each of those the records written out, one per search item, holding the hits of a list of sound emits of its key against the created map pruned at that threshold, and the map empty at the end |

## Left out

- File and JSON I/O, logging, argument parsing, timing, CSV and JSON
  writing, and `log_info`'s floating-point percentages. Parsed lines,
  items and files are parameters.
- Python's `re` engine in general. Only the patterns the core uses are
  modelled, as scanners. `\d` is ASCII only; `\w` covers ASCII and the Latin-1 word
  characters.
- `str.lower` covers ASCII and Latin-1 only; other code points are left
  unchanged.
- The exact-repeat rewrite `(\w){(\d+)}` is modelled as the code applies
  it. On a hex escape such as `\x41{2}` it repeats only the last hex
  digit, not the byte.
- The content decoder follows the code: an unterminated `|` is copied
  literally rather than reported.
- Signature deduplication follows the code. It compares texts only, so a
  rule number can appear twice in a record when a line carries the same
  text twice.
- `AhoCorasick.Trie.Scan`: only soundness and order of the emits are
  proved, not that every occurrence of every keyword is reported, nor
  that each is reported once. `AhoCorasick.Trie.ParseText`,
  `AcDriver.Find`, `AcDriver.SearchAll`, `AcDriver.RunTest`,
  `AcDriver.ThresholdPass`, `AcDriver.ThresholdLoop` and
  `AcDriver.RunAllThresholds` inherit this: their hit counts are those of
  a list of sound emits, which a scan reporting too few emits would also
  meet.
- The remaining Aho-Corasick pieces: the interval tree,
  `remove_overlaps`, whole-words mode, tokenising, `traverse_tree`,
  `count_edges`, the mutex and the atomic's memory orders. Only the
  default configuration (overlaps allowed, not whole words) is scanned.
- AhoCorasick.Trie.StoreEmits: `std::set` iterates a state's emits in
  ascending (keyword, index) order; the model leaves that order open, as a
  ghost `order`, and proves only that each emit is stored exactly once.
  The soundness and order properties of the scan do not depend on it.
- AhoCorasick.SmallestKey: the trie is taken over a signed `char`, as on
  x86, so `std::map` visits the bytes 0x80..0xFF before 0x00..0x7F; an
  unsigned `char` would visit 0x00 first. The proved link, emit and scan
  properties hold in either visit order.
- `std::tolower` is modelled for ASCII letters, in the C locale. With a
  signed `char` the bytes 0x80..0xFF reach it as negative values, for
  which its behaviour is undefined; the model leaves those bytes
  unchanged, as the C locale does for 128..255.
- UnicodeEscape.DecodeBytes: a Dafny `char` cannot hold a surrogate, so
  `\uD800`..`\uDFFF` (and `\U` with a surrogate value) give an error where
  Python's `unicode-escape` returns a lone surrogate. Named escapes
  `\N{…}` also give an error, because the Unicode name table is not part
  of this model.
- ResultsAnalysis.Analysis.constructor: the module's `total_rules` is a
  global set to 0 at ResultsAnalysis.py:19 and never updated, so both
  lists the source computes are empty. The model takes the total as a
  parameter; passing 0 reproduces the source.
- Positions and counters are unbounded. `ParseText` requires the text to
  be shorter than 2^64, where `size_t` would wrap.
- Part B's substring extraction into a vector with rule sets, the
  duplicate counter, `toStringHex`/`str` and the substring log are left
  out. The `Substring` version these belong to is not part of this model.
- The cuckoo table, its `main.cpp`, the IBLT (Part D) and the results
  scripts are not part of this model.
- CustomHash.Hash16: the source's `int` products can overflow, which is
  undefined behaviour in C++; the model takes the product modulo 2^16, as
  a wrapping two's-complement target would.
- `ibltNumOfCells`' `int(success_rate * 100)` is taken as an integer
  input.
- `ExactMatches::clear` and the destructors only free memory. They have
  no model.
- The `sids_hit.clear()` loop at main.cpp:245-247 works on copies and
  changes nothing. It has no model.
- `Substrings.Substring.WriteTo`: `isprint` is modelled for ASCII, with
  each byte rendered as `0x`, two digits, and its character or `NPSC`.

## Findings

| source | as written | input that shows it | evidently intended | confidence | as-written member | corrected member |
|---|---|---|---|---|---|---|
| PartA_Data_Process/SnortRulesParser.py:209-217 | `exact_match_hex` is reset for each fragment and gets one `[hex(c)]` list per character, so only the last fragment survives, as single-element lists | fragments `["abc","def"]` give `[["0x64"],["0x65"],["0x66"]]` | one list of hex strings per fragment: `[["0x61","0x62","0x63"],["0x64","0x65","0x66"]]` | not executed | `SnortRulesParser.HexTranslationDiffers` | `SnortRulesParser.IntendedHexRecoversFragments` |
| PartA_Data_Process/SnortRulesParser.py:215 | `hex()` writes bytes below 16 with one digit (`0x1`), and the C++ parsers concatenate the digits after `0x` | bytes `[1, 2, 0x41]` give the key `0x1241`, which decodes to `[0x12, 0x41]`; `[9, 0x41, 0x42]` gives an odd key, which `hexToBstring` rejects | two digits per byte, so the key decodes back to the fragment | not executed | `HexKeys.PyHexKeyShifts` | `HexKeys.PaddedKeyDecodes` |
