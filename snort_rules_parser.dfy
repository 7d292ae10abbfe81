/**
 * The bookkeeping of the rule-file parser: the registry of distinct
 * signatures with the rules that use them, the fragment-length histogram
 * and threshold, the lost-rule accounting and the cumulative threshold bins.
 * The module-level counters of the parser are the fields of `Statistics`;
 * the registry list that the helpers mutate in place is the field of
 * `Registry`.
 */
module SnortRulesParser {
  import opened Wrappers
  import opened PyStr
  import opened RuleLists
  import opened ExtractorConfig
  import PcreRewrite
  import Hex
  import Extractor = ExactMatchExtractor
  import Content = ContentProcessor

  datatype SignatureType = ContentSignature | PcreSignature

  /** One entry of the registry: a signature text, its kind, the rules that use it and what was extracted from it. */
  datatype Record = Record(
    signature: string,
    signatureType: SignatureType,
    rules: seq<nat>,
    exactMatches: Option<seq<seq<char>>>,
    exactMatchesHex: Option<seq<seq<string>>>)

  /** Index of the first record whose signature text is `signature`; the kind is not compared. */
  function FindSignature(records: seq<Record>, signature: string): (r: Option<nat>)
    ensures r.Some? ==> r.value < |records| && records[r.value].signature == signature
    ensures r.Some? ==> forall k :: 0 <= k < r.value ==> records[k].signature != signature
    ensures r.None? ==> forall k :: 0 <= k < |records| ==> records[k].signature != signature
  {
    if records == [] then None
    else if records[0].signature == signature then Some(0)
    else
      var r := FindSignature(records[1..], signature);
      if r.Some? then Some(r.value + 1) else None
  }

  /** Every signature is registered once, and every record names at least one rule, all of them positive. */
  predicate RegistryValid(records: seq<Record>)
  {
    && (forall i, j :: 0 <= i < j < |records| ==> records[i].signature != records[j].signature)
    && (forall i :: 0 <= i < |records| ==> records[i].rules != [])
    && (forall i, k :: 0 <= i < |records| && 0 <= k < |records[i].rules| ==> records[i].rules[k] >= 1)
  }

  /** `rule` is one of the rules recorded for `signature`. */
  predicate Registered(records: seq<Record>, signature: string, rule: nat)
  {
    var i := FindSignature(records, signature);
    i.Some? && rule in records[i.value].rules
  }

  /** `after` keeps every record of `before` in place, with its text and its rules as a prefix. */
  predicate Extends(before: seq<Record>, after: seq<Record>)
  {
    && |before| <= |after|
    && forall k :: 0 <= k < |before| ==>
         && after[k].signature == before[k].signature
         && before[k].rules <= after[k].rules
  }

  lemma {:induction false} FindSignatureExtends(before: seq<Record>, after: seq<Record>, signature: string)
    requires Extends(before, after)
    requires FindSignature(before, signature).Some?
    ensures FindSignature(after, signature) == FindSignature(before, signature)
  {
    var i := FindSignature(before, signature).value;
    assert after[i].signature == signature;
    assert forall k :: 0 <= k < i ==> after[k].signature == before[k].signature;
  }

  /** Registration is never undone by a later step that extends the registry. */
  lemma RegisteredExtends(before: seq<Record>, after: seq<Record>, signature: string, rule: nat)
    requires Extends(before, after)
    requires Registered(before, signature, rule)
    ensures Registered(after, signature, rule)
  {
    FindSignatureExtends(before, after, signature);
    var i := FindSignature(before, signature).value;
    assert before[i].rules <= after[i].rules;
  }

  lemma ExtendsTransitive(a: seq<Record>, b: seq<Record>, c: seq<Record>)
    requires Extends(a, b) && Extends(b, c)
    ensures Extends(a, c)
  {
    forall k | 0 <= k < |a| ensures a[k].rules <= c[k].rules {
      assert a[k].rules <= b[k].rules;
    }
  }

  class Registry {
    /** `signatures_hist`. */
    var records: seq<Record>

    constructor()
      ensures records == []
    {
      records := [];
    }

    /**
     * `check_duplicate_signatures`: when a record with the same text exists
     * the rule number is appended to the first such record and the answer is
     * yes; otherwise a new record is appended and the answer is no.
     */
    method CheckDuplicateSignatures(signature: string, signatureType: SignatureType, ruleNumber: nat)
      returns (duplicate: bool)
      modifies this
      ensures duplicate <==> FindSignature(old(records), signature).Some?
      ensures duplicate ==>
        var i := FindSignature(old(records), signature).value;
        records == old(records)[i := old(records)[i].(rules := old(records)[i].rules + [ruleNumber])]
      ensures !duplicate ==> records == old(records) + [Record(signature, signatureType, [ruleNumber], None, None)]
    {
      if records == [] {
        records := records + [Record(signature, signatureType, [ruleNumber], None, None)];
        return false;
      }
      for k := 0 to |records|
        invariant records == old(records)
        invariant forall j :: 0 <= j < k ==> records[j].signature != signature
      {
        if records[k].signature == signature {
          assert FindSignature(records, signature) == Some(k);
          records := records[k := records[k].(rules := records[k].rules + [ruleNumber])];
          return true;
        }
      }
      records := records + [Record(signature, signatureType, [ruleNumber], None, None)];
      return false;
    }

    /** `add_exact_matches_to_hist`: the first record with this text gets its fragments; without one nothing changes. */
    method AddExactMatchesToHist(signature: string, exactMatches: seq<seq<char>>)
      modifies this
      ensures FindSignature(old(records), signature).None? ==> records == old(records)
      ensures FindSignature(old(records), signature).Some? ==>
        var i := FindSignature(old(records), signature).value;
        records == old(records)[i := old(records)[i].(exactMatches := Some(exactMatches))]
    {
      for k := 0 to |records|
        invariant records == old(records)
        invariant forall j :: 0 <= j < k ==> records[j].signature != signature
      {
        if records[k].signature == signature {
          assert FindSignature(records, signature) == Some(k);
          records := records[k := records[k].(exactMatches := Some(exactMatches))];
          return;
        }
      }
    }

    /** `translate_exact_matches_to_hex` over the registry, as written; the first record without stored fragments raises. */
    method TranslateExactMatchesToHex() returns (error: Option<string>)
      modifies this
      ensures error.None? <==> AllExtracted(old(records))
      ensures error.None? ==>
        && |records| == |old(records)|
        && forall k :: 0 <= k < |records| ==> Ok(records[k]) == TranslateRecord(old(records)[k])
    {
      error := None;
      for k := 0 to |records|
        invariant |records| == |old(records)|
        invariant forall j :: k <= j < |records| ==> records[j] == old(records)[j]
        invariant forall j :: 0 <= j < k ==> Ok(records[j]) == TranslateRecord(old(records)[j])
        invariant AllExtracted(old(records)[..k])
      {
        var t := TranslateRecord(records[k]);
        if t.Err? {
          return Some(t.error);
        }
        records := records[k := t.value];
      }
    }
  }

  /**
   * A registration keeps the registry valid, leaves the signature registered
   * for the rule, with that rule last in its list, and changes no other
   * record's text or rules.
   */
  lemma RegistrationKeepsValid(before: seq<Record>, signature: string, signatureType: SignatureType, ruleNumber: nat)
    requires RegistryValid(before) && ruleNumber >= 1
    ensures var after := RegisterStep(before, signature, signatureType, ruleNumber);
      && RegistryValid(after)
      && Extends(before, after)
      && Registered(after, signature, ruleNumber)
      && var i := FindSignature(after, signature).value;
         after[i].rules[|after[i].rules| - 1] == ruleNumber
  {
    var after := RegisterStep(before, signature, signatureType, ruleNumber);
    var f := FindSignature(before, signature);
    if f.Some? {
      FindSignatureExtends(before, after, signature);
    } else {
      assert FindSignature(after, signature) == Some(|before|) by {
        var r := FindSignature(after, signature);
        assert after[|before|].signature == signature;
      }
    }
  }

  /** The registry after `check_duplicate_signatures`, as a value. */
  function RegisterStep(records: seq<Record>, signature: string, signatureType: SignatureType, ruleNumber: nat): seq<Record>
  {
    var f := FindSignature(records, signature);
    if f.Some? then records[f.value := records[f.value].(rules := records[f.value].rules + [ruleNumber])]
    else records + [Record(signature, signatureType, [ruleNumber], None, None)]
  }

  /** Storing fragments keeps the registry valid and changes no text or rules. */
  lemma StoreKeepsValid(records: seq<Record>, signature: string, exactMatches: seq<seq<char>>)
    requires RegistryValid(records)
    requires FindSignature(records, signature).Some?
    ensures var i := FindSignature(records, signature).value;
      var after := records[i := records[i].(exactMatches := Some(exactMatches))];
      RegistryValid(after) && Extends(records, after) && Extends(after, records)
  {
  }

  /** The fragments longer than the threshold, in their order. */
  function Thresholded(data: seq<seq<char>>): (r: seq<seq<char>>)
    ensures |r| <= |data|
  {
    if data == [] then []
    else
      var last := data[|data| - 1];
      Thresholded(data[..|data| - 1]) + (if |last| > MinimalExactMatchLength then [last] else [])
  }

  /** A fragment is kept exactly when it occurs in the input and is longer than the threshold, so at least 3 long. */
  lemma {:induction false} ThresholdedMembers(data: seq<seq<char>>)
    ensures forall x :: x in Thresholded(data) <==> x in data && |x| > MinimalExactMatchLength
    ensures forall x :: x in Thresholded(data) ==> |x| >= 3
  {
    if data != [] {
      var pre := data[..|data| - 1];
      ThresholdedMembers(pre);
      assert data == pre + [data[|data| - 1]];
    }
  }

  /** Keeping the long fragments of a concatenation keeps those of each part, in order. */
  lemma {:induction false} ThresholdedAppend(a: seq<seq<char>>, b: seq<seq<char>>)
    ensures Thresholded(a + b) == Thresholded(a) + Thresholded(b)
    decreases |b|
  {
    if b == [] {
      assert a + b == a;
    } else {
      assert (a + b)[..|a + b| - 1] == a + b[..|b| - 1];
      ThresholdedAppend(a, b[..|b| - 1]);
    }
  }

  /** The count a histogram holds for `n`, zero when `n` is not a key. */
  function Get(h: map<nat, nat>, n: nat): nat
  {
    if n in h then h[n] else 0
  }

  /** Number of fragments of length `n`. */
  function LengthCount(data: seq<seq<char>>, n: nat): nat
  {
    if data == [] then 0
    else LengthCount(data[..|data| - 1], n) + (if |data[|data| - 1]| == n then 1 else 0)
  }

  /** The histogram after counting the length of every fragment of `data`. */
  function CountLengths(h: map<nat, nat>, data: seq<seq<char>>): map<nat, nat>
  {
    if data == [] then h
    else
      var h' := CountLengths(h, data[..|data| - 1]);
      var n := |data[|data| - 1]|;
      h'[n := Get(h', n) + 1]
  }

  /** Every length gains exactly the number of fragments of that length; the keys are the old keys and the new lengths. */
  lemma {:induction false} CountLengthsSpec(h: map<nat, nat>, data: seq<seq<char>>)
    ensures forall n :: Get(CountLengths(h, data), n) == Get(h, n) + LengthCount(data, n)
    ensures forall n :: n in CountLengths(h, data) <==> n in h || LengthCount(data, n) > 0
  {
    if data != [] {
      CountLengthsSpec(h, data[..|data| - 1]);
    }
  }

  class Statistics {
    /** The module-level counters and lists of the parser. */
    var totalRules: nat
    var totalContent: nat
    var totalPcre: nat
    var relevantContent: nat
    var relevantPcre: nat
    var totalExactMatches: nat
    var relevantExactMatches: nat
    var lengthHistogram: map<nat, nat>
    var lostRules: seq<nat>

    /** The initial values set by the entry point. */
    constructor()
      ensures totalRules == 0 && totalContent == 0 && totalPcre == 0
      ensures relevantContent == 0 && relevantPcre == 0
      ensures totalExactMatches == 0 && relevantExactMatches == 0
      ensures lengthHistogram == map[] && lostRules == []
    {
      totalRules := 0;
      totalContent := 0;
      totalPcre := 0;
      relevantContent := 0;
      relevantPcre := 0;
      totalExactMatches := 0;
      relevantExactMatches := 0;
      lengthHistogram := map[];
      lostRules := [];
    }

    /**
     * `analyze_and_threshold`: every fragment is counted and its length
     * added to the histogram; the fragments longer than the threshold are
     * counted as relevant and returned in order.
     */
    method AnalyzeAndThreshold(data: seq<seq<char>>) returns (thresholded: seq<seq<char>>)
      modifies this
      ensures thresholded == Thresholded(data)
      ensures totalExactMatches == old(totalExactMatches) + |data|
      ensures relevantExactMatches == old(relevantExactMatches) + |thresholded|
      ensures lengthHistogram == CountLengths(old(lengthHistogram), data)
      ensures totalRules == old(totalRules) && lostRules == old(lostRules)
      ensures totalContent == old(totalContent) && totalPcre == old(totalPcre)
      ensures relevantContent == old(relevantContent) && relevantPcre == old(relevantPcre)
    {
      thresholded := [];
      for k := 0 to |data|
        invariant thresholded == Thresholded(data[..k])
        invariant totalExactMatches == old(totalExactMatches) + k
        invariant relevantExactMatches == old(relevantExactMatches) + |thresholded|
        invariant lengthHistogram == CountLengths(old(lengthHistogram), data[..k])
        invariant totalRules == old(totalRules) && lostRules == old(lostRules)
        invariant totalContent == old(totalContent) && totalPcre == old(totalPcre)
        invariant relevantContent == old(relevantContent) && relevantPcre == old(relevantPcre)
      {
        assert data[..k + 1][..k] == data[..k];
        totalExactMatches := totalExactMatches + 1;
        var length := |data[k]|;
        if length in lengthHistogram {
          lengthHistogram := lengthHistogram[length := lengthHistogram[length] + 1];
        } else {
          lengthHistogram := lengthHistogram[length := 1];
        }
        if length > MinimalExactMatchLength {
          relevantExactMatches := relevantExactMatches + 1;
          thresholded := thresholded + [data[k]];
        }
      }
      assert data[..|data|] == data;
    }

    /** A new signature is counted by kind and its fragments extracted. */
    method CountAndExtract(signatureType: SignatureType, signature: string) returns (data: Result<seq<seq<char>>>)
      modifies this
      ensures data == Fragments(signatureType, signature)
      ensures totalPcre == old(totalPcre) + (if signatureType == PcreSignature then 1 else 0)
      ensures totalContent == old(totalContent) + (if signatureType == ContentSignature then 1 else 0)
      ensures totalRules == old(totalRules) && lostRules == old(lostRules) && lengthHistogram == old(lengthHistogram)
      ensures relevantContent == old(relevantContent) && relevantPcre == old(relevantPcre)
      ensures totalExactMatches == old(totalExactMatches) && relevantExactMatches == old(relevantExactMatches)
    {
      if signatureType == PcreSignature {
        totalPcre := totalPcre + 1;
        data := Fragments(PcreSignature, signature);
      } else {
        totalContent := totalContent + 1;
        data := Fragments(ContentSignature, signature);
      }
    }

    /** A signature with at least one fragment left after thresholding counts as relevant for its kind. */
    method CountRelevant(signatureType: SignatureType, kept: seq<seq<char>>)
      modifies this
      ensures relevantPcre == old(relevantPcre) + (if signatureType == PcreSignature && kept != [] then 1 else 0)
      ensures relevantContent == old(relevantContent) + (if signatureType == ContentSignature && kept != [] then 1 else 0)
      ensures totalRules == old(totalRules) && lostRules == old(lostRules) && lengthHistogram == old(lengthHistogram)
      ensures totalContent == old(totalContent) && totalPcre == old(totalPcre)
      ensures totalExactMatches == old(totalExactMatches) && relevantExactMatches == old(relevantExactMatches)
    {
      if kept != [] {
        if signatureType == PcreSignature {
          relevantPcre := relevantPcre + 1;
        } else {
          relevantContent := relevantContent + 1;
        }
      }
    }

    /** `lost_rules = list(range(1, total_rules + 1))` in the entry point. */
    method InitLostRules()
      modifies this
      ensures lostRules == Range(1, totalRules + 1)
      ensures totalRules == old(totalRules) && lengthHistogram == old(lengthHistogram)
      ensures totalContent == old(totalContent) && totalPcre == old(totalPcre)
      ensures relevantContent == old(relevantContent) && relevantPcre == old(relevantPcre)
      ensures totalExactMatches == old(totalExactMatches) && relevantExactMatches == old(relevantExactMatches)
    {
      lostRules := Range(1, totalRules + 1);
    }

    /** `check_lost_rules`: every rule number named by a record is removed from the lost list where it still occurs. */
    method CheckLostRules(registry: Registry)
      modifies this
      ensures lostRules == RemoveAll(old(lostRules), RulesOf(registry.records))
      ensures totalRules == old(totalRules) && lengthHistogram == old(lengthHistogram)
      ensures totalContent == old(totalContent) && totalPcre == old(totalPcre)
      ensures relevantContent == old(relevantContent) && relevantPcre == old(relevantPcre)
      ensures totalExactMatches == old(totalExactMatches) && relevantExactMatches == old(relevantExactMatches)
    {
      var records := registry.records;
      for i := 0 to |records|
        invariant lostRules == RemoveAll(old(lostRules), RulesOf(records[..i]))
        invariant totalRules == old(totalRules) && lengthHistogram == old(lengthHistogram)
        invariant totalContent == old(totalContent) && totalPcre == old(totalPcre)
        invariant relevantContent == old(relevantContent) && relevantPcre == old(relevantPcre)
        invariant totalExactMatches == old(totalExactMatches) && relevantExactMatches == old(relevantExactMatches)
      {
        var rules := records[i].rules;
        ghost var before := lostRules;
        for j := 0 to |rules|
          invariant lostRules == RemoveEach(before, rules[..j])
          invariant totalRules == old(totalRules) && lengthHistogram == old(lengthHistogram)
          invariant totalContent == old(totalContent) && totalPcre == old(totalPcre)
          invariant relevantContent == old(relevantContent) && relevantPcre == old(relevantPcre)
          invariant totalExactMatches == old(totalExactMatches) && relevantExactMatches == old(relevantExactMatches)
        {
          assert rules[..j + 1][..j] == rules[..j];
          if rules[j] in lostRules {
            lostRules := RemoveFirst(lostRules, rules[j]);
          }
        }
        assert rules[..|rules|] == rules;
        assert RulesOf(records[..i + 1])[..i] == RulesOf(records[..i]);
      }
      assert records[..|records|] == records;
    }
  }

  /** The rule lists of the records, in registry order. */
  function RulesOf(records: seq<Record>): (r: seq<seq<nat>>)
    ensures |r| == |records|
    ensures forall k :: 0 <= k < |records| ==> r[k] == records[k].rules
  {
    seq(|records|, k requires 0 <= k < |records| => records[k].rules)
  }

  /**
   * After the lost list is set to 1..n and every record's rules are
   * removed, it holds, ascending, exactly the rule numbers that no record
   * names.
   */
  lemma LostRulesAreUnreferenced(n: nat, records: seq<Record>)
    ensures var lost := RemoveAll(Range(1, n + 1), RulesOf(records));
      && Increasing(lost)
      && forall x :: x in lost <==> 1 <= x <= n && forall k :: 0 <= k < |records| ==> x !in records[k].rules
  {
    Unreferenced(n, RulesOf(records));
  }

  /** The literal openings of the two signature expressions: `content:"` and `pcre:"`. */
  const ContentPrefix: string := "content:\""
  const PcrePrefix: string := "pcre:\""

  /**
   * The captured texts of `re.finditer(prefix + '(.*?)"', line[i..])`: at
   * each occurrence of the prefix the lazy group stops at the nearest quote
   * before any newline; without such a quote there is no match there and
   * the scan moves on by one character.
   */
  function FindAllFrom(line: string, prefix: string, i: nat): (r: seq<string>)
    requires prefix != []
    ensures forall k :: 0 <= k < |r| ==> '"' !in r[k] && '\n' !in r[k]
    decreases |line| - i
  {
    if i >= |line| then []
    else if OccursAt(line, prefix, i) then
      var close := PcreRewrite.LazyClose(line, i + |prefix|, '"');
      if close.Some? then
        var text := line[i + |prefix|..close.value];
        assert forall k :: 0 <= k < |text| ==> text[k] == line[i + |prefix| + k];
        [text] + FindAllFrom(line, prefix, close.value + 1)
      else FindAllFrom(line, prefix, i + 1)
    else FindAllFrom(line, prefix, i + 1)
  }

  /** The signatures of one rule line: every content signature, then every pcre signature, each left to right. */
  function LineSignatures(line: string): (r: seq<(SignatureType, string)>)
  {
    var contents := FindAllFrom(line, ContentPrefix, 0);
    var pcres := FindAllFrom(line, PcrePrefix, 0);
    seq(|contents|, k requires 0 <= k < |contents| => (ContentSignature, contents[k]))
      + seq(|pcres|, k requires 0 <= k < |pcres| => (PcreSignature, pcres[k]))
  }

  /** A line without a quote holds no signature. */
  lemma {:induction false} NoQuoteNoSignature(line: string, prefix: string, i: nat)
    requires prefix != [] && '"' !in line
    ensures FindAllFrom(line, prefix, i) == []
    decreases |line| - i
  {
    if i < |line| {
      NoQuoteNoSignature(line, prefix, i + 1);
    }
  }

  /**
   * The fragments extracted from a new signature: a pcre signature goes
   * through the pcre extractor with the character form, a content
   * signature is lower-cased and handed to the content decoder.
   */
  function Fragments(signatureType: SignatureType, signature: string): (r: Result<seq<seq<char>>>)
    ensures signatureType == ContentSignature && r.Ok? ==> |r.value| == 1
    ensures signatureType == PcreSignature ==> (r.Ok? <==> Extractor.ExtractSpec(signature).Ok?)
    ensures signatureType == PcreSignature && r.Ok? ==> r.value == Extractor.ExtractSpec(signature).value
  {
    match signatureType
    case PcreSignature =>
      var out := Extractor.Run(signature, "char");
      if out.Err? then Err(out.error) else Ok(out.value.chars)
    case ContentSignature =>
      Content.Run(Lower(signature))
  }

  /** Every record has had its fragments stored. */
  predicate AllExtracted(records: seq<Record>)
  {
    forall i :: 0 <= i < |records| ==> records[i].exactMatches.Some?
  }

  /**
   * Every stored fragment list is the thresholded extraction of its
   * record's text, under the kind the text was first registered with.
   */
  predicate StoredExtractions(records: seq<Record>)
  {
    forall i :: 0 <= i < |records| && records[i].exactMatches.Some? ==>
      && Fragments(records[i].signatureType, records[i].signature).Ok?
      && records[i].exactMatches.value == Thresholded(Fragments(records[i].signatureType, records[i].signature).value)
  }

  /**
   * Registering a text, and storing the extraction of a new one, keeps every
   * stored fragment list the extraction of its record's text.
   */
  lemma StoredStep(before: seq<Record>, after: seq<Record>, signature: string, signatureType: SignatureType, ruleNumber: nat)
    requires StoredExtractions(before)
    requires
      || after == RegisterStep(before, signature, signatureType, ruleNumber)
      || (&& FindSignature(before, signature).None?
          && Fragments(signatureType, signature).Ok?
          && after == before + [Record(signature, signatureType, [ruleNumber], Some(Thresholded(Fragments(signatureType, signature).value)), None)])
    ensures StoredExtractions(after)
  {
    var f := FindSignature(before, signature);
    forall i | 0 <= i < |after| && after[i].exactMatches.Some?
      ensures Fragments(after[i].signatureType, after[i].signature).Ok?
      ensures after[i].exactMatches.value == Thresholded(Fragments(after[i].signatureType, after[i].signature).value)
    {
      if i < |before| {
        assert after[i].signature == before[i].signature && after[i].signatureType == before[i].signatureType;
        assert after[i].exactMatches == before[i].exactMatches;
      }
    }
  }

  /** Every rule number of every record is at most `n`. */
  predicate RulesWithin(records: seq<Record>, n: nat)
  {
    forall i, k :: 0 <= i < |records| && 0 <= k < |records[i].rules| ==> records[i].rules[k] <= n
  }

  /** The two registries hold the same texts and rule lists, position by position. */
  predicate SameRules(a: seq<Record>, b: seq<Record>)
  {
    && |a| == |b|
    && forall k :: 0 <= k < |a| ==> a[k].signature == b[k].signature && a[k].rules == b[k].rules
  }

  lemma RegisterStepWithin(before: seq<Record>, signature: string, signatureType: SignatureType, ruleNumber: nat, bound: nat)
    requires RulesWithin(before, bound) && ruleNumber <= bound
    ensures RulesWithin(RegisterStep(before, signature, signatureType, ruleNumber), bound)
  {
  }

  /** What one processed signature does to the registry: it stays valid and bounded, and the signature is registered for the rule. */
  lemma StepFacts(before: seq<Record>, after: seq<Record>, signature: string, signatureType: SignatureType, ruleNumber: nat, bound: nat)
    requires SameRules(after, RegisterStep(before, signature, signatureType, ruleNumber))
    requires RegistryValid(before) && RulesWithin(before, bound) && 1 <= ruleNumber <= bound
    ensures RegistryValid(after) && RulesWithin(after, bound)
    ensures Extends(before, after)
    ensures Registered(after, signature, ruleNumber)
  {
    var step := RegisterStep(before, signature, signatureType, ruleNumber);
    RegistrationKeepsValid(before, signature, signatureType, ruleNumber);
    RegisterStepWithin(before, signature, signatureType, ruleNumber, bound);
    SameRulesFind(after, step, signature);
  }

  lemma {:induction false} SameRulesFind(a: seq<Record>, b: seq<Record>, signature: string)
    requires SameRules(a, b)
    ensures FindSignature(a, signature) == FindSignature(b, signature)
  {
    if a != [] {
      SameRulesFind(a[1..], b[1..], signature);
    }
  }

  /**
   * One iteration of the parsing loop for one matched signature: register
   * it; a signature seen before stops there, a new one is counted by kind,
   * its fragments are extracted (an extraction error ends the parse),
   * thresholded and stored, and the kind's relevant counter grows when some
   * fragment survives.
   */
  method ProcessSignature(stats: Statistics, registry: Registry, signatureType: SignatureType, signature: string, ruleNumber: nat)
    returns (error: Option<string>)
    modifies stats, registry
    ensures SameRules(registry.records, RegisterStep(old(registry.records), signature, signatureType, ruleNumber))
    ensures AllExtracted(old(registry.records)) && error.None? ==> AllExtracted(registry.records)
    ensures stats.totalContent + stats.totalPcre == old(stats.totalContent + stats.totalPcre) + |registry.records| - |old(registry.records)|
    ensures FindSignature(old(registry.records), signature).Some? ==>
      && error.None?
      && registry.records == RegisterStep(old(registry.records), signature, signatureType, ruleNumber)
      && stats.totalExactMatches == old(stats.totalExactMatches)
    ensures FindSignature(old(registry.records), signature).None? ==>
      && (error.None? <==> Fragments(signatureType, signature).Ok?)
      && (error.Some? ==> registry.records == RegisterStep(old(registry.records), signature, signatureType, ruleNumber))
      && (error.None? ==>
           registry.records == old(registry.records)
             + [Record(signature, signatureType, [ruleNumber], Some(Thresholded(Fragments(signatureType, signature).value)), None)])
    ensures stats.totalRules == old(stats.totalRules)
  {
    ghost var before := registry.records;
    var duplicate := registry.CheckDuplicateSignatures(signature, signatureType, ruleNumber);
    if duplicate {
      assert registry.records == RegisterStep(before, signature, signatureType, ruleNumber);
      return None;
    }
    ghost var added := Record(signature, signatureType, [ruleNumber], None, None);
    assert registry.records == RegisterStep(before, signature, signatureType, ruleNumber) == before + [added];
    assert FindSignature(registry.records, signature) == Some(|before|) by {
      assert registry.records[|before|].signature == signature;
    }
    error := ExtractNewSignature(stats, registry, signatureType, signature);
    if error.None? {
      StoreInAdded(before, added, Thresholded(Fragments(signatureType, signature).value));
    }
  }

  /** Storing fragments in a just-added last record changes neither its text nor its rules. */
  lemma StoreInAdded(before: seq<Record>, added: Record, x: seq<seq<char>>)
    ensures (before + [added])[|before| := added.(exactMatches := Some(x))] == before + [added.(exactMatches := Some(x))]
    ensures SameRules(before + [added.(exactMatches := Some(x))], before + [added])
    ensures AllExtracted(before) ==> AllExtracted(before + [added.(exactMatches := Some(x))])
  {
  }

  /**
   * The rest of the loop body for a signature seen for the first time, whose
   * record is the last one: it is counted by kind, its fragments are
   * extracted (an extraction error ends the parse), thresholded and stored
   * in that record, and the kind's relevant counter grows when some
   * fragment survives.
   */
  method ExtractNewSignature(stats: Statistics, registry: Registry, signatureType: SignatureType, signature: string)
    returns (error: Option<string>)
    requires FindSignature(registry.records, signature) == Some(|registry.records| - 1)
    modifies stats, registry
    ensures error.None? <==> Fragments(signatureType, signature).Ok?
    ensures error.Some? ==> registry.records == old(registry.records)
    ensures error.None? ==>
      var last := |old(registry.records)| - 1;
      registry.records == old(registry.records)[last := old(registry.records)[last].(exactMatches := Some(Thresholded(Fragments(signatureType, signature).value)))]
    ensures stats.totalContent + stats.totalPcre == old(stats.totalContent + stats.totalPcre) + 1
    ensures stats.totalRules == old(stats.totalRules)
  {
    var data := stats.CountAndExtract(signatureType, signature);
    if data.Err? {
      return Some(data.error);
    }
    var kept := stats.AnalyzeAndThreshold(data.value);
    registry.AddExactMatchesToHist(signature, kept);
    stats.CountRelevant(signatureType, kept);
    return None;
  }

  /** The first `k` signatures are registered for the rule. */
  ghost predicate FirstRegistered(records: seq<Record>, signatures: seq<(SignatureType, string)>, k: nat, ruleNumber: nat)
    requires k <= |signatures|
  {
    forall j :: 0 <= j < k ==> Registered(records, signatures[j].1, ruleNumber)
  }

  lemma FirstRegisteredExtends(before: seq<Record>, after: seq<Record>, signatures: seq<(SignatureType, string)>, k: nat, ruleNumber: nat)
    requires k < |signatures| && Extends(before, after)
    requires FirstRegistered(before, signatures, k, ruleNumber)
    requires Registered(after, signatures[k].1, ruleNumber)
    ensures FirstRegistered(after, signatures, k + 1, ruleNumber)
  {
    forall j | 0 <= j < k ensures Registered(after, signatures[j].1, ruleNumber) {
      RegisteredExtends(before, after, signatures[j].1, ruleNumber);
    }
  }

  /** The signatures of every line, by line position. */
  function AllLineSignatures(lines: seq<string>): (r: seq<seq<(SignatureType, string)>>)
    ensures |r| == |lines| && forall n :: 0 <= n < |lines| ==> r[n] == LineSignatures(lines[n])
  {
    seq(|lines|, n requires 0 <= n < |lines| => LineSignatures(lines[n]))
  }

  /** Rule `rule` is a line (1-based) among whose signatures `text` occurs. */
  ghost predicate FromLine(lineSigs: seq<seq<(SignatureType, string)>>, rule: nat, text: string)
  {
    1 <= rule <= |lineSigs| && exists sig :: sig in lineSigs[rule - 1] && sig.1 == text
  }

  /** Every rule of every record is a line that carries the record's text. */
  ghost predicate Justified(records: seq<Record>, lineSigs: seq<seq<(SignatureType, string)>>)
  {
    forall i, k :: 0 <= i < |records| && 0 <= k < |records[i].rules| ==>
      FromLine(lineSigs, records[i].rules[k], records[i].signature)
  }

  /** Registering a text for a line that carries it keeps every rule justified. */
  lemma JustifiedStep(before: seq<Record>, after: seq<Record>, signature: string, signatureType: SignatureType,
                      ruleNumber: nat, lineSigs: seq<seq<(SignatureType, string)>>)
    requires Justified(before, lineSigs) && FromLine(lineSigs, ruleNumber, signature)
    requires SameRules(after, RegisterStep(before, signature, signatureType, ruleNumber))
    ensures Justified(after, lineSigs)
  {
    var step := RegisterStep(before, signature, signatureType, ruleNumber);
    var f := FindSignature(before, signature);
    forall i, k | 0 <= i < |after| && 0 <= k < |after[i].rules|
      ensures FromLine(lineSigs, after[i].rules[k], after[i].signature)
    {
      assert after[i].rules == step[i].rules && after[i].signature == step[i].signature;
      if f.Some? && i == f.value && k == |before[i].rules| {
        assert step[i].rules[k] == ruleNumber;
      } else if f.None? && i == |before| {
        assert step[i].rules == [ruleNumber];
      } else {
        assert step[i].rules[k] == before[i].rules[k] && step[i].signature == before[i].signature;
      }
    }
  }

  /** Some line carries `text`. */
  ghost predicate FromSomeLine(lineSigs: seq<seq<(SignatureType, string)>>, text: string)
  {
    exists rule: nat :: FromLine(lineSigs, rule, text)
  }

  /** In a justified registry every record's text is carried by some line. */
  lemma {:induction false} RecordsFromLines(records: seq<Record>, lineSigs: seq<seq<(SignatureType, string)>>)
    requires RegistryValid(records) && Justified(records, lineSigs)
    ensures forall i :: 0 <= i < |records| ==> FromSomeLine(lineSigs, records[i].signature)
  {
    forall i | 0 <= i < |records|
      ensures FromSomeLine(lineSigs, records[i].signature)
    {
      assert records[i].rules != [];
      assert FromLine(lineSigs, records[i].rules[0], records[i].signature);
    }
  }

  /**
   * The signatures of one line, processed in order, all with the line's
   * rule number; `lineSigs` holds every line's signatures, this line's
   * among them.
   */
  method ParseLine(stats: Statistics, registry: Registry, signatures: seq<(SignatureType, string)>, ruleNumber: nat,
                   ghost lineSigs: seq<seq<(SignatureType, string)>>)
    returns (error: Option<string>)
    requires 1 <= ruleNumber <= |lineSigs| && lineSigs[ruleNumber - 1] == signatures
    requires RegistryValid(registry.records) && RulesWithin(registry.records, |lineSigs|)
    requires AllExtracted(registry.records) && Justified(registry.records, lineSigs)
    requires StoredExtractions(registry.records)
    modifies stats, registry
    ensures RegistryValid(registry.records) && RulesWithin(registry.records, |lineSigs|)
    ensures Justified(registry.records, lineSigs) && StoredExtractions(registry.records)
    ensures Extends(old(registry.records), registry.records)
    ensures stats.totalContent + stats.totalPcre == old(stats.totalContent + stats.totalPcre) + |registry.records| - |old(registry.records)|
    ensures stats.totalRules == old(stats.totalRules)
    ensures error.None? ==> AllExtracted(registry.records)
    ensures error.None? ==> forall j :: 0 <= j < |signatures| ==> Registered(registry.records, signatures[j].1, ruleNumber)
  {
    error := None;
    for k := 0 to |signatures|
      invariant RegistryValid(registry.records) && RulesWithin(registry.records, |lineSigs|)
      invariant Justified(registry.records, lineSigs) && StoredExtractions(registry.records)
      invariant Extends(old(registry.records), registry.records)
      invariant stats.totalContent + stats.totalPcre == old(stats.totalContent + stats.totalPcre) + |registry.records| - |old(registry.records)|
      invariant stats.totalRules == old(stats.totalRules)
      invariant AllExtracted(registry.records)
      invariant FirstRegistered(registry.records, signatures, k, ruleNumber)
    {
      ghost var before := registry.records;
      error := ProcessSignature(stats, registry, signatures[k].0, signatures[k].1, ruleNumber);
      StepFacts(before, registry.records, signatures[k].1, signatures[k].0, ruleNumber, |lineSigs|);
      ExtendsTransitive(old(registry.records), before, registry.records);
      assert signatures[k] in lineSigs[ruleNumber - 1];
      JustifiedStep(before, registry.records, signatures[k].1, signatures[k].0, ruleNumber, lineSigs);
      StoredStep(before, registry.records, signatures[k].1, signatures[k].0, ruleNumber);
      if error.Some? {
        return;
      }
      FirstRegisteredExtends(before, registry.records, signatures, k, ruleNumber);
    }
    assert FirstRegistered(registry.records, signatures, |signatures|, ruleNumber);
  }

  /** Every signature of the first `n` lines is registered for its line's rule number. */
  ghost predicate LinesRegistered(records: seq<Record>, lines: seq<string>, n: nat)
    requires n <= |lines|
  {
    forall m, k :: 0 <= m < n && 0 <= k < |LineSignatures(lines[m])| ==>
      Registered(records, LineSignatures(lines[m])[k].1, m + 1)
  }

  lemma LinesRegisteredExtends(before: seq<Record>, after: seq<Record>, lines: seq<string>, n: nat)
    requires n < |lines| && Extends(before, after)
    requires LinesRegistered(before, lines, n)
    requires forall k :: 0 <= k < |LineSignatures(lines[n])| ==> Registered(after, LineSignatures(lines[n])[k].1, n + 1)
    ensures LinesRegistered(after, lines, n + 1)
  {
    forall m, j | 0 <= m < n && 0 <= j < |LineSignatures(lines[m])|
      ensures Registered(after, LineSignatures(lines[m])[j].1, m + 1)
    {
      RegisteredExtends(before, after, LineSignatures(lines[m])[j].1, m + 1);
    }
  }

  /**
   * `parse_file` on the lines of the rule file: rule numbers are the
   * 1-based line positions, the registry starts empty, and every signature
   * of every line is processed in order until an extraction error.
   */
  method ParseFile(stats: Statistics, lines: seq<string>) returns (registry: Registry, error: Option<string>)
    modifies stats
    ensures fresh(registry)
    ensures stats.totalRules == |lines|
    ensures RegistryValid(registry.records) && RulesWithin(registry.records, |lines|)
    ensures Justified(registry.records, AllLineSignatures(lines)) && StoredExtractions(registry.records)
    ensures forall i :: 0 <= i < |registry.records| ==> FromSomeLine(AllLineSignatures(lines), registry.records[i].signature)
    ensures stats.totalContent + stats.totalPcre == old(stats.totalContent + stats.totalPcre) + |registry.records|
    ensures error.None? ==> AllExtracted(registry.records)
    ensures error.None? ==> forall i :: 0 <= i < |registry.records| ==>
      var r := registry.records[i];
      Fragments(r.signatureType, r.signature).Ok? && r.exactMatches == Some(Thresholded(Fragments(r.signatureType, r.signature).value))
    ensures error.None? ==>
      forall n, k :: 0 <= n < |lines| && 0 <= k < |LineSignatures(lines[n])| ==>
        Registered(registry.records, LineSignatures(lines[n])[k].1, n + 1)
  {
    registry := new Registry();
    stats.totalRules := |lines|;
    error := None;
    for n := 0 to |lines|
      invariant fresh(registry)
      invariant stats.totalRules == |lines|
      invariant RegistryValid(registry.records) && RulesWithin(registry.records, |lines|)
      invariant Justified(registry.records, AllLineSignatures(lines)) && StoredExtractions(registry.records)
      invariant stats.totalContent + stats.totalPcre == old(stats.totalContent + stats.totalPcre) + |registry.records|
      invariant AllExtracted(registry.records)
      invariant LinesRegistered(registry.records, lines, n)
    {
      ghost var before := registry.records;
      error := ParseLine(stats, registry, LineSignatures(lines[n]), n + 1, AllLineSignatures(lines));
      if error.Some? {
        RecordsFromLines(registry.records, AllLineSignatures(lines));
        return;
      }
      LinesRegisteredExtends(before, registry.records, lines, n);
    }
    assert LinesRegistered(registry.records, lines, |lines|);
    RecordsFromLines(registry.records, AllLineSignatures(lines));
  }

  /** Deduplication compares texts only: a pcre signature with the text of an earlier content signature joins its record. */
  lemma DedupIgnoresKind(signature: string)
    ensures RegisterStep(RegisterStep([], signature, ContentSignature, 1), signature, PcreSignature, 2)
         == [Record(signature, ContentSignature, [1, 2], None, None)]
  {
    var first := RegisterStep([], signature, ContentSignature, 1);
    assert first == [Record(signature, ContentSignature, [1], None, None)];
    assert FindSignature(first, signature) == Some(0);
    assert [1] + [2] == [1, 2];
  }

  /** The finite bin limits of the threshold histogram; a seventh bin has no limit. */
  const BinLimits: seq<nat> := [2, 4, 8, 16, 32, 64]
  const BinCount: nat := 7

  /** A length falls in bin `i` when it is at most the bin's limit; every length falls in the last bin. */
  predicate InBin(length: nat, i: nat)
    requires i < BinCount
  {
    i == BinCount - 1 || length <= BinLimits[i]
  }

  /** Sum of the counts of the histogram items whose length falls in bin `i`. */
  function BinTotal(items: seq<(nat, nat)>, i: nat): nat
    requires i < BinCount
  {
    if items == [] then 0
    else
      var last := items[|items| - 1];
      BinTotal(items[..|items| - 1], i) + (if InBin(last.0, i) then last.1 else 0)
  }

  /** Sum of all counts. */
  function Total(items: seq<(nat, nat)>): nat
  {
    if items == [] then 0 else Total(items[..|items| - 1]) + items[|items| - 1].1
  }

  /**
   * The bin computation of `save_data`, over the histogram's items in
   * iteration order: every item adds its count to every bin whose limit its
   * length does not exceed.
   */
  method ThresholdBins(items: seq<(nat, nat)>) returns (counts: seq<nat>)
    ensures |counts| == BinCount
    ensures forall i :: 0 <= i < BinCount ==> counts[i] == BinTotal(items, i)
  {
    counts := seq(BinCount, _ => 0);
    for j := 0 to |items|
      invariant |counts| == BinCount
      invariant forall i :: 0 <= i < BinCount ==> counts[i] == BinTotal(items[..j], i)
    {
      assert items[..j + 1][..j] == items[..j];
      var (length, number) := items[j];
      for i := 0 to BinCount
        invariant |counts| == BinCount
        invariant forall b :: 0 <= b < i ==> counts[b] == BinTotal(items[..j + 1], b)
        invariant forall b :: i <= b < BinCount ==> counts[b] == BinTotal(items[..j], b)
      {
        if InBin(length, i) {
          counts := counts[i := counts[i] + number];
        }
      }
    }
    assert items[..|items|] == items;
  }

  /** Each bin holds at least what the one before it holds. */
  lemma {:induction false} BinsNonDecreasing(items: seq<(nat, nat)>, i: nat)
    requires i + 1 < BinCount
    ensures BinTotal(items, i) <= BinTotal(items, i + 1)
  {
    if items != [] {
      BinsNonDecreasing(items[..|items| - 1], i);
    }
  }

  /** The last bin holds the total of all counts. */
  lemma {:induction false} LastBinIsTotal(items: seq<(nat, nat)>)
    ensures BinTotal(items, BinCount - 1) == Total(items)
  {
    if items != [] {
      LastBinIsTotal(items[..|items| - 1]);
    }
  }

  /** `hex(ord(c))`: lower-case hexadecimal after `0x`. */
  function CharHex(c: char): (r: string)
    ensures |r| >= 3 && r[..2] == "0x" && Hex.AllHex(r[2..]) && Hex.Value(r[2..]) == c as int
  {
    Hex.PyHex(c as int)
  }

  /** The hex of each character of a fragment, each wrapped in a list of its own, as the loop body builds it. */
  function WrappedCharHex(fragment: seq<char>): (r: seq<seq<string>>)
    ensures |r| == |fragment|
    ensures forall k :: 0 <= k < |r| ==> r[k] == [CharHex(fragment[k])]
  {
    seq(|fragment|, k requires 0 <= k < |fragment| => [CharHex(fragment[k])])
  }

  /**
   * `translate_exact_matches_to_hex` on one record, as written: the hex
   * list is restarted for every fragment and stored after each, so the
   * record ends with the last fragment's list only; a record without
   * fragments gets no hex entry, and a record whose fragments were never
   * stored raises a key error.
   */
  function TranslateRecord(record: Record): (r: Result<Record>)
    ensures r.Ok? ==> r.value.(exactMatchesHex := record.exactMatchesHex) == record
  {
    if record.exactMatches.None? then Err("KeyError: exact_matches")
    else
      var fragments := record.exactMatches.value;
      if fragments == [] then Ok(record)
      else Ok(record.(exactMatchesHex := Some(WrappedCharHex(fragments[|fragments| - 1]))))
  }

  /** As written, only the last fragment decides the hex entry: the earlier fragments are lost. */
  lemma AsWrittenKeepsLastFragmentOnly(record: Record, earlier: seq<seq<char>>, last: seq<char>)
    requires record.exactMatches == Some(earlier + [last])
    ensures TranslateRecord(record) == Ok(record.(exactMatchesHex := Some(WrappedCharHex(last))))
    ensures TranslateRecord(record).value.exactMatchesHex
         == TranslateRecord(record.(exactMatches := Some([last]))).value.exactMatchesHex
  {
  }

  /** What the hex entry is meant to hold: one list of character codes per fragment, in fragment order. */
  function IntendedHex(fragments: seq<seq<char>>): (r: seq<seq<string>>)
    ensures |r| == |fragments|
    ensures forall k :: 0 <= k < |r| ==> |r[k]| == |fragments[k]|
  {
    seq(|fragments|, k requires 0 <= k < |fragments| =>
      seq(|fragments[k]|, j requires 0 <= j < |fragments[k]| => CharHex(fragments[k][j])))
  }

  /** The intended entry loses nothing: every character of every fragment can be read back from its code. */
  lemma IntendedHexRecoversFragments(fragments: seq<seq<char>>)
    ensures var h := IntendedHex(fragments);
      forall k, j :: 0 <= k < |fragments| && 0 <= j < |fragments[k]| ==>
        Hex.Value(h[k][j][2..]) == fragments[k][j] as int
  {
  }

  /** The record with its hex entry as intended; the same key error as written when no fragments were stored. */
  function TranslateRecordIntended(record: Record): (r: Result<Record>)
    ensures r.Ok? <==> record.exactMatches.Some?
    ensures r.Ok? ==> r.value == record.(exactMatchesHex := Some(IntendedHex(record.exactMatches.value)))
  {
    if record.exactMatches.None? then Err("KeyError: exact_matches")
    else Ok(record.(exactMatchesHex := Some(IntendedHex(record.exactMatches.value))))
  }

  lemma CharHexLetters()
    ensures CharHex('a') == "0x61" && CharHex('b') == "0x62" && CharHex('c') == "0x63"
    ensures CharHex('d') == "0x64" && CharHex('e') == "0x65" && CharHex('f') == "0x66"
  {
    Hex.PyHexTwoDigits(0x61);
    Hex.PyHexTwoDigits(0x62);
    Hex.PyHexTwoDigits(0x63);
    Hex.PyHexTwoDigits(0x64);
    Hex.PyHexTwoDigits(0x65);
    Hex.PyHexTwoDigits(0x66);
  }

  lemma IntendedHexPair(f: seq<char>, g: seq<char>)
    ensures IntendedHex([f, g]) == [seq(|f|, j requires 0 <= j < |f| => CharHex(f[j])), seq(|g|, j requires 0 <= j < |g| => CharHex(g[j]))]
  {
  }

  /** Two fragments: as written the first one disappears from the hex entry, as intended both are there. */
  lemma HexTranslationDiffers()
    ensures var r := Record("ab", ContentSignature, [1], Some(["abc", "def"]), None);
      && TranslateRecord(r).value.exactMatchesHex.value == [["0x64"], ["0x65"], ["0x66"]]
      && TranslateRecordIntended(r).value.exactMatchesHex.value == [["0x61", "0x62", "0x63"], ["0x64", "0x65", "0x66"]]
  {
    CharHexLetters();
    assert WrappedCharHex("def") == [["0x64"], ["0x65"], ["0x66"]];
    IntendedHexPair("abc", "def");
    assert seq(3, j requires 0 <= j < 3 => CharHex("abc"[j])) == ["0x61", "0x62", "0x63"];
    assert seq(3, j requires 0 <= j < 3 => CharHex("def"[j])) == ["0x64", "0x65", "0x66"];
  }
}
