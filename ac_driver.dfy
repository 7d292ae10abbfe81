/**
 * Part C's driver. For every length threshold from 1 to the longest exact
 * match plus one, the exact matches at least that long go into a fresh
 * Aho-Corasick trie, the (pattern -> rules) map loses the shorter
 * patterns, and for thresholds 1..8 every search text is scanned, the
 * rules of each matched pattern are counted, and the extra storage a
 * rule list or an IBLT per pattern would take is computed.
 *
 * The map, the search records and the byte-string vectors the source
 * passes by reference or pointer are passed in and handed back; the trie
 * `runTest` allocates and deletes is a local object.
 */
module AcDriver {
  import opened Wrappers
  import Bstring
  import AhoCorasick
  import opened AcExactMatches
  import SearchItems
  import AcParser

  type Emit = AhoCorasick.Emit
  type SidsMap = map<seq<Byte>, set<int>>
  type SearchResults = SearchItems.SearchResults

  /** Bits per rule in a linked rule list: a 32-bit SID and a 32-bit next pointer. */
  const SidEntryInLinkedList: nat := 64
  /** Bits per IBLT cell: a 32-bit SID xor sum and an 8-bit Bloom filter. */
  const IbltCellSize: nat := 40
  /** IBLT cells per pattern for the 100%, 99% and 95% decoding success rates. */
  const IbltCellsSuccessRate100: nat := 256
  const IbltCellsSuccessRate99: nat := 32
  const IbltCellsSuccessRate95: nat := 8

  /** The thresholds for which the trie is searched and the storage computed. */
  predicate Searched(threshold: nat)
  {
    1 <= threshold <= 8
  }

  // ---------------------------------------------------------------------
  // The threshold filter of `runTest`.
  // ---------------------------------------------------------------------

  /** The byte strings at least `threshold` long, in their order. */
  function Thresholded(bstrings: seq<seq<Byte>>, threshold: nat): seq<seq<Byte>>
  {
    if bstrings == [] then []
    else
      var last := bstrings[|bstrings| - 1];
      var kept := Thresholded(bstrings[..|bstrings| - 1], threshold);
      if |last| >= threshold then kept + [last] else kept
  }

  /** A string is kept exactly when it is one of the inputs and at least `threshold` long. */
  lemma {:induction false} ThresholdedKeeps(bstrings: seq<seq<Byte>>, threshold: nat)
    ensures forall s :: s in Thresholded(bstrings, threshold) <==> s in bstrings && |s| >= threshold
    ensures |Thresholded(bstrings, threshold)| <= |bstrings|
  {
    if bstrings != [] {
      var init := bstrings[..|bstrings| - 1];
      ThresholdedKeeps(init, threshold);
      assert bstrings == init + [bstrings[|bstrings| - 1]];
    }
  }

  /** Filtering works piecewise, so the kept strings keep their relative order and multiplicity. */
  lemma {:induction false} ThresholdedConcat(a: seq<seq<Byte>>, b: seq<seq<Byte>>, threshold: nat)
    ensures Thresholded(a + b, threshold) == Thresholded(a, threshold) + Thresholded(b, threshold)
    decreases |b|
  {
    if b == [] {
      assert a + b == a;
    } else {
      var init := b[..|b| - 1];
      ThresholdedConcat(a, init, threshold);
      assert (a + b)[..|a + b| - 1] == a + init;
    }
  }

  /** Filtering at a higher threshold after a lower one is filtering at the higher one. */
  lemma {:induction false} ThresholdedTwice(bstrings: seq<seq<Byte>>, low: nat, high: nat)
    requires low <= high
    ensures Thresholded(Thresholded(bstrings, low), high) == Thresholded(bstrings, high)
  {
    if bstrings != [] {
      var init := bstrings[..|bstrings| - 1];
      var last := bstrings[|bstrings| - 1];
      ThresholdedTwice(init, low, high);
      if |last| >= low {
        var one: seq<seq<Byte>> := [last];
        ThresholdedConcat(Thresholded(init, low), one, high);
        assert one[..0] == [];
      }
    }
  }

  /** Above the longest length nothing is kept: the last threshold of the run inserts no exact match. */
  lemma ThresholdedBeyondMax(bstrings: seq<seq<Byte>>, threshold: nat)
    requires threshold > AcParser.MaxLength(bstrings)
    ensures Thresholded(bstrings, threshold) == []
  {
    ThresholdedKeeps(bstrings, threshold);
    AcParser.MaxLengthIsMaximum(bstrings);
  }

  /** The pre-test loop: every string of length at least `threshold` is pushed, in order. */
  method ThresholdFilter(bstrings: seq<seq<Byte>>, threshold: nat) returns (kept: seq<seq<Byte>>)
    ensures kept == Thresholded(bstrings, threshold)
  {
    kept := [];
    for k := 0 to |bstrings|
      invariant kept == Thresholded(bstrings[..k], threshold)
    {
      assert bstrings[..k + 1][..k] == bstrings[..k];
      if |bstrings[k]| >= threshold {
        kept := kept + [bstrings[k]];
      }
    }
    assert bstrings[..|bstrings|] == bstrings;
  }

  /**
   * The erase loop: every entry whose pattern is shorter than `threshold`
   * goes, the others stay with their rules.
   */
  method PruneMap(sidsMap: SidsMap, threshold: nat) returns (pruned: SidsMap)
    ensures forall k :: k in pruned <==> k in sidsMap && |k| >= threshold
    ensures forall k :: k in pruned ==> pruned[k] == sidsMap[k]
  {
    pruned := sidsMap;
    var remaining := sidsMap.Keys;
    while remaining != {}
      invariant remaining <= sidsMap.Keys
      invariant forall k :: k in pruned <==> k in sidsMap && (k in remaining || |k| >= threshold)
      invariant forall k :: k in pruned ==> pruned[k] == sidsMap[k]
      decreases |remaining|
    {
      var k :| k in remaining;
      if |k| < threshold {
        pruned := pruned - {k};
      }
      remaining := remaining - {k};
    }
  }

  /** The map as the erase loop leaves it at `threshold`: the entries with patterns at least that long. */
  function PrunedAt(sidsMap: SidsMap, threshold: nat): SidsMap
  {
    map k | k in sidsMap && |k| >= threshold :: sidsMap[k]
  }

  // ---------------------------------------------------------------------
  // Hit counting in `find`.
  // ---------------------------------------------------------------------

  /** `sids_hit[rule]` as `operator[]` reads it: 0 for a rule not yet present. */
  function Count(hits: map<int, nat>, rule: int): nat
  {
    if rule in hits then hits[rule] else 0
  }

  /** How many of the emits carry a pattern the map sends to a rule set holding `rule`. */
  function Hits(found: seq<Emit>, sidsMap: SidsMap, rule: int): nat
  {
    if found == [] then 0
    else
      var e := found[|found| - 1];
      Hits(found[..|found| - 1], sidsMap, rule) + (if e.keyword in sidsMap && rule in sidsMap[e.keyword] then 1 else 0)
  }

  /**
   * A rule is hit exactly when some emit's pattern is in the map with that
   * rule (emits of patterns missing from the map count nothing), and at
   * most once per emit.
   */
  lemma {:induction false} HitsWitness(found: seq<Emit>, sidsMap: SidsMap, rule: int)
    ensures Hits(found, sidsMap, rule) > 0 <==>
      exists i :: 0 <= i < |found| && found[i].keyword in sidsMap && rule in sidsMap[found[i].keyword]
    ensures Hits(found, sidsMap, rule) <= |found|
  {
    if found != [] {
      var init := found[..|found| - 1];
      HitsWitness(init, sidsMap, rule);
      if exists i :: 0 <= i < |init| && init[i].keyword in sidsMap && rule in sidsMap[init[i].keyword] {
        var i :| 0 <= i < |init| && init[i].keyword in sidsMap && rule in sidsMap[init[i].keyword];
        assert found[i] == init[i];
      }
      if exists i :: 0 <= i < |found| && found[i].keyword in sidsMap && rule in sidsMap[found[i].keyword] {
        var i :| 0 <= i < |found| && found[i].keyword in sidsMap && rule in sidsMap[found[i].keyword];
        if i < |init| {
          assert init[i] == found[i];
        }
      }
    }
  }

  /** The text holds `key` starting at `start`. */
  predicate OccursAt(text: seq<Byte>, key: seq<Byte>, start: nat)
  {
    start + |key| <= |text| && text[start..start + |key|] == key
  }

  /**
   * A counted rule is justified by the text: it belongs to a non-empty
   * pattern of the map that occurs in the scanned search text.
   */
  lemma HitJustified(found: seq<Emit>, sidsMap: SidsMap, rule: int, scanned: seq<Byte>)
    requires forall k :: 0 <= k < |found| ==> AhoCorasick.SoundEmit(found[k], scanned)
    requires Hits(found, sidsMap, rule) > 0
    ensures exists key :: key in sidsMap && rule in sidsMap[key] && key != [] && exists start: nat :: OccursAt(scanned, key, start)
  {
    HitsWitness(found, sidsMap, rule);
    var i :| 0 <= i < |found| && found[i].keyword in sidsMap && rule in sidsMap[found[i].keyword];
    var e := found[i];
    assert AhoCorasick.SoundEmit(e, scanned);
    assert OccursAt(scanned, e.keyword, e.interval.start);
  }

  /** `for (int rule : rules) log.sids_hit[rule]++;`: each rule of the set gains one hit. */
  method AddRules(hits: map<int, nat>, rules: set<int>) returns (out: map<int, nat>)
    ensures forall r :: Count(out, r) == Count(hits, r) + (if r in rules then 1 else 0)
    ensures forall r :: r in out <==> r in hits || r in rules
  {
    out := hits;
    var remaining := rules;
    while remaining != {}
      invariant remaining <= rules
      invariant forall r :: Count(out, r) == Count(hits, r) + (if r in rules && r !in remaining then 1 else 0)
      invariant forall r :: r in out <==> r in hits || (r in rules && r !in remaining)
      decreases |remaining|
    {
      // a set without a member is empty
      assert (forall x :: x !in remaining) ==> remaining == {};
      var rule :| rule in remaining;
      out := out[rule := Count(out, rule) + 1];
      remaining := remaining - {rule};
    }
  }

  /**
   * The emit loop of `find`: the rules of every emitted pattern found by
   * `map.at` gain one hit each; an absent pattern (the caught
   * `out_of_range`) changes nothing.
   */
  method CountHits(found: seq<Emit>, sidsMap: SidsMap, hits: map<int, nat>) returns (out: map<int, nat>)
    ensures forall r :: Count(out, r) == Count(hits, r) + Hits(found, sidsMap, r)
    ensures forall r :: r in out <==> r in hits || Hits(found, sidsMap, r) > 0
  {
    out := hits;
    for k := 0 to |found|
      invariant forall r :: Count(out, r) == Count(hits, r) + Hits(found[..k], sidsMap, r)
      invariant forall r :: r in out <==> r in hits || Hits(found[..k], sidsMap, r) > 0
    {
      assert found[..k + 1][..k] == found[..k];
      assert found[..k + 1][k] == found[k];
      var keyword := found[k].keyword;
      if keyword in sidsMap {
        out := AddRules(out, sidsMap[keyword]);
      }
    }
    assert found[..|found|] == found;
  }

  /**
   * The report loop of `find` reads `sids_hit[sid]` for every original SID;
   * `operator[]` inserts a zero count for one not yet present.
   */
  method ReadOriginalSids(hits: map<int, nat>, sids: seq<int>) returns (out: map<int, nat>)
    ensures forall r :: Count(out, r) == Count(hits, r)
    ensures forall r :: r in out <==> r in hits || r in sids
  {
    out := hits;
    for k := 0 to |sids|
      invariant forall r :: Count(out, r) == Count(hits, r)
      invariant forall r :: r in out <==> r in hits || r in sids[..k]
    {
      assert sids[..k + 1] == sids[..k] + [sids[k]];
      out := out[sids[k] := Count(out, sids[k])];
    }
    assert sids[..|sids|] == sids;
  }

  /**
   * `find(trie, text, log, map)`: the text is parsed (building the failure
   * links if stale), and every rule gains one hit per emit of a pattern
   * the map gives it; the emits are handed back alongside.
   */
  method Find(trie: AhoCorasick.Trie, text: seq<Byte>, log: SearchResults, sidsMap: SidsMap)
    returns (out: SearchResults, found: seq<Emit>)
    requires trie.Valid() && |text| < AhoCorasick.Two64
    modifies trie
    ensures trie.Valid() && trie.constructedFailureStates
    ensures forall k :: 0 <= k < |found| ==> AhoCorasick.SoundEmit(found[k], AhoCorasick.Scanned(text, trie.caseInsensitive))
    ensures out.originalSids == log.originalSids && out.searchKey == log.searchKey
    ensures forall r :: Count(out.sidsHit, r) == Count(log.sidsHit, r) + Hits(found, sidsMap, r)
    ensures forall r :: r in out.sidsHit <==> r in log.sidsHit || Hits(found, sidsMap, r) > 0 || r in log.originalSids
  {
    found := trie.ParseText(text);
    var hits := CountHits(found, sidsMap, log.sidsHit);
    hits := ReadOriginalSids(hits, log.originalSids);
    out := log.(sidsHit := hits);
  }

  // ---------------------------------------------------------------------
  // `runTest`.
  // ---------------------------------------------------------------------

  /**
   * What a search recorded for one search text: the emits are sound for
   * the lower-cased text, every rule's count is its number of hits, and
   * the counted rules are the hit ones and the original SIDs.
   */
  ghost predicate Recorded(result: SearchResults, found: seq<Emit>, text: seq<Byte>, sidsMap: SidsMap)
  {
    (forall k :: 0 <= k < |found| ==> AhoCorasick.SoundEmit(found[k], AhoCorasick.Scanned(text, true))) &&
    (forall r :: Count(result.sidsHit, r) == Hits(found, sidsMap, r)) &&
    (forall r :: r in result.sidsHit <==> Hits(found, sidsMap, r) > 0 || r in result.originalSids)
  }

  /** Every search text has its record of hits. */
  ghost predicate AllRecorded(results: seq<SearchResults>, found: seq<seq<Emit>>, texts: seq<seq<Byte>>, sidsMap: SidsMap)
  {
    |found| == |results| == |texts| && forall i :: 0 <= i < |results| ==> Recorded(results[i], found[i], texts[i], sidsMap)
  }

  /**
   * The records one searched threshold writes out: one per search item,
   * with its SIDs and key, every key decodes, and each record holds the
   * hits its decoded key has against `sidsMap`.
   */
  ghost predicate StoredRecords(records: seq<SearchResults>, searchResults: seq<SearchResults>, sidsMap: SidsMap)
  {
    && AcParser.DecodeAll(AcParser.SearchKeys(searchResults)).Ok?
    && |records| == |searchResults|
    && (forall i :: 0 <= i < |records| ==>
          records[i].originalSids == searchResults[i].originalSids && records[i].searchKey == searchResults[i].searchKey)
    && exists found :: AllRecorded(records, found, AcParser.DecodeAll(AcParser.SearchKeys(searchResults)).value, sidsMap)
  }

  /** The first loop of `runTest`: every record's hits are cleared. */
  method ClearHits(searchResults: seq<SearchResults>) returns (cleared: seq<SearchResults>)
    ensures |cleared| == |searchResults|
    ensures forall i :: 0 <= i < |cleared| ==> cleared[i] == searchResults[i].(sidsHit := map[])
    ensures AcParser.SearchKeys(cleared) == AcParser.SearchKeys(searchResults)
  {
    cleared := searchResults;
    for i := 0 to |searchResults|
      invariant |cleared| == |searchResults|
      invariant forall j :: 0 <= j < i ==> cleared[j] == searchResults[j].(sidsHit := map[])
      invariant forall j :: i <= j < |cleared| ==> cleared[j] == searchResults[j]
    {
      cleared := cleared[i := cleared[i].(sidsHit := map[])];
    }
    assert forall i :: 0 <= i < |cleared| ==> AcParser.SearchKeys(cleared)[i] == AcParser.SearchKeys(searchResults)[i];
  }

  /** A decoded hex text is never longer than the text. */
  lemma DecodedLength(s: string)
    requires Bstring.HexToBytes(s).Ok?
    ensures |Bstring.HexToBytes(s).value| <= |s|
  {
    assert |Bstring.StripPrefix(s)| <= |s|;
  }

  /** Decoding keeps every search text below the bound the automaton works with. */
  lemma DecodedKeysBounded(searchResults: seq<SearchResults>)
    requires forall i :: 0 <= i < |searchResults| ==> |searchResults[i].searchKey| < AhoCorasick.Two64
    requires AcParser.DecodeAll(AcParser.SearchKeys(searchResults)).Ok?
    ensures var texts := AcParser.DecodeAll(AcParser.SearchKeys(searchResults)).value;
      |texts| == |searchResults| && forall i :: 0 <= i < |texts| ==> |texts[i]| < AhoCorasick.Two64
  {
    var keys := AcParser.SearchKeys(searchResults);
    AcParser.DecodeAllPointwise(keys);
    forall i | 0 <= i < |keys|
      ensures |AcParser.DecodeAll(keys).value[i]| < AhoCorasick.Two64
    {
      DecodedLength(keys[i]);
    }
  }

  /** The insertion loop of `runTest`: every kept string is inserted and counted. */
  method InsertAll(trie: AhoCorasick.Trie, kept: seq<seq<Byte>>) returns (inserted: nat)
    requires trie.Valid()
    modifies trie
    ensures trie.Valid() && inserted == |kept|
    ensures forall k :: 0 <= k < |kept| && kept[k] != [] ==> exists t :: 0 <= t < |trie.path| && trie.path[t] == kept[k]
  {
    inserted := 0;
    for k := 0 to |kept|
      invariant trie.Valid() && inserted == k
      invariant forall j :: 0 <= j < k && kept[j] != [] ==> exists t :: 0 <= t < |trie.path| && trie.path[t] == kept[j]
    {
      ghost var before := trie.path;
      trie.Insert(kept[k]);
      forall j | 0 <= j < k && kept[j] != []
        ensures exists t :: 0 <= t < |trie.path| && trie.path[t] == kept[j]
      {
        var t :| 0 <= t < |before| && before[t] == kept[j];
        assert trie.path[..|before|][t] == before[t];
      }
      inserted := inserted + 1;
    }
  }

  /**
   * The search loop of `runTest`: search text `i` is looked up with
   * `find` and its hits go into record `i`.
   */
  method SearchAll(trie: AhoCorasick.Trie, texts: seq<seq<Byte>>, records: seq<SearchResults>, pruned: SidsMap)
    returns (results: seq<SearchResults>, found: seq<seq<Emit>>)
    requires trie.Valid() && trie.caseInsensitive && |texts| == |records|
    requires forall i :: 0 <= i < |texts| ==> |texts[i]| < AhoCorasick.Two64
    requires forall i :: 0 <= i < |records| ==> records[i].sidsHit == map[]
    modifies trie
    ensures trie.Valid()
    ensures |results| == |records|
    ensures forall i :: 0 <= i < |results| ==>
      results[i].originalSids == records[i].originalSids && results[i].searchKey == records[i].searchKey
    ensures AllRecorded(results, found, texts, pruned)
  {
    results := records;
    found := [];
    for i := 0 to |texts|
      invariant trie.Valid() && |results| == |records| && |found| == i
      invariant forall j :: 0 <= j < |results| ==>
        results[j].originalSids == records[j].originalSids && results[j].searchKey == records[j].searchKey
      invariant forall j :: i <= j < |results| ==> results[j].sidsHit == map[]
      invariant forall j :: 0 <= j < i ==> Recorded(results[j], found[j], texts[j], pruned)
    {
      var record, emits := Find(trie, texts[i], results[i], pruned);
      results := results[i := record];
      found := found + [emits];
    }
  }

  /**
   * `runTest`: clears the hits, filters the exact matches, prunes the map,
   * decodes the search keys (an odd key throws out of `runTest`), inserts
   * the kept strings into a fresh case-insensitive trie counting them, and
   * for thresholds 1..8 searches every decoded key, recording its hits
   * into its own record. The trie's size statistics are not modelled.
   */
  method RunTest(threshold: nat, bstrings: seq<seq<Byte>>, searchResults: seq<SearchResults>, sidsMap: SidsMap)
    returns (results: seq<SearchResults>, pruned: SidsMap, inserted: nat, error: Option<string>, found: seq<seq<Emit>>)
    requires forall i :: 0 <= i < |searchResults| ==> |searchResults[i].searchKey| < AhoCorasick.Two64
    ensures |results| == |searchResults|
    ensures forall i :: 0 <= i < |results| ==>
      results[i].originalSids == searchResults[i].originalSids && results[i].searchKey == searchResults[i].searchKey
    ensures forall k :: k in pruned <==> k in sidsMap && |k| >= threshold
    ensures forall k :: k in pruned ==> pruned[k] == sidsMap[k]
    ensures error.Some? <==> AcParser.DecodeAll(AcParser.SearchKeys(searchResults)).Err?
    ensures error.None? ==> inserted == |Thresholded(bstrings, threshold)|
    ensures error.Some? || !Searched(threshold) ==> forall i :: 0 <= i < |results| ==> results[i].sidsHit == map[]
    ensures error.None? && Searched(threshold) ==>
      AllRecorded(results, found, AcParser.DecodeAll(AcParser.SearchKeys(searchResults)).value, pruned)
  {
    results := ClearHits(searchResults);
    var kept := ThresholdFilter(bstrings, threshold);
    pruned := PruneMap(sidsMap, threshold);
    var searchStrings, decodeError := AcParser.SearchResultsToBstrings(Some(results), []);
    found := [];
    inserted := 0;
    if decodeError.Some? {
      return results, pruned, 0, decodeError, [];
    }
    error := None;
    assert searchStrings == AcParser.DecodeAll(AcParser.SearchKeys(searchResults)).value;

    var trie := new AhoCorasick.Trie(true);
    inserted := InsertAll(trie, kept);
    if Searched(threshold) {
      DecodedKeysBounded(searchResults);
      results, found := SearchAll(trie, searchStrings, results, pruned);
    }
  }

  // ---------------------------------------------------------------------
  // Storage arithmetic in `main`.
  // ---------------------------------------------------------------------

  /** The five sizes written for one threshold, in bytes. */
  datatype StorageSizes = StorageSizes(fullListSize: nat, ibltSizeOptimal: nat, ibltSize100Rate: nat, ibltSize99Rate: nat, ibltSize95Rate: nat)

  /** Whether an exact match is in the trie at this threshold: its decoded bytes are at least that long. */
  predicate InTrie(e: ExactMatch, threshold: nat)
  {
    Bstring.HexToBytes(e.exactMatch).Ok? && |Bstring.HexToBytes(e.exactMatch).value| >= threshold
  }

  /** The number of exact matches in the trie. */
  function KeptCount(entries: seq<ExactMatch>, threshold: nat): nat
  {
    if entries == [] then 0
    else KeptCount(entries[..|entries| - 1], threshold) + (if InTrie(entries[|entries| - 1], threshold) then 1 else 0)
  }

  /** The total number of rules of the exact matches in the trie. */
  function KeptRules(entries: seq<ExactMatch>, threshold: nat): nat
  {
    if entries == [] then 0
    else
      var last := entries[|entries| - 1];
      KeptRules(entries[..|entries| - 1], threshold) + (if InTrie(last, threshold) then |last.rulesNumber| else 0)
  }

  /**
   * The reported sizes in closed form: 8 bytes per rule in a linked list,
   * 10 bytes per rule in an optimal IBLT (two 40-bit cells), and 1280,
   * 160 and 40 bytes per pattern for the fixed IBLTs.
   */
  function Sizes(entries: seq<ExactMatch>, threshold: nat): StorageSizes
  {
    StorageSizes(8 * KeptRules(entries, threshold), 10 * KeptRules(entries, threshold),
      1280 * KeptCount(entries, threshold), 160 * KeptCount(entries, threshold), 40 * KeptCount(entries, threshold))
  }

  /** The patterns counted are exactly those the trie receives at that threshold. */
  lemma {:induction false} KeptIsThresholded(entries: seq<ExactMatch>, threshold: nat)
    requires AcParser.DecodeAll(AcParser.Texts(entries)).Ok?
    ensures KeptCount(entries, threshold) == |Thresholded(AcParser.DecodeAll(AcParser.Texts(entries)).value, threshold)|
  {
    if entries != [] {
      var init := entries[..|entries| - 1];
      var texts := AcParser.Texts(entries);
      assert AcParser.Texts(init) == texts[..|texts| - 1];
      KeptIsThresholded(init, threshold);
      var before := AcParser.DecodeAll(AcParser.Texts(init)).value;
      var all := AcParser.DecodeAll(texts).value;
      assert all == before + [Bstring.HexToBytes(entries[|entries| - 1].exactMatch).value];
      assert all[..|all| - 1] == before;
    }
  }

  /** Raising the threshold never increases any of the sizes. */
  lemma {:induction false} KeptMonotone(entries: seq<ExactMatch>, low: nat, high: nat)
    requires low <= high
    ensures KeptCount(entries, high) <= KeptCount(entries, low) && KeptRules(entries, high) <= KeptRules(entries, low)
    ensures KeptCount(entries, high) <= |entries|
  {
    if entries != [] {
      KeptMonotone(entries[..|entries| - 1], low, high);
    }
  }

  /** One more exact match adds its own share to both totals. */
  lemma KeptStep(entries: seq<ExactMatch>, k: nat, threshold: nat)
    requires k < |entries|
    ensures KeptCount(entries[..k + 1], threshold) == KeptCount(entries[..k], threshold) + (if InTrie(entries[k], threshold) then 1 else 0)
    ensures KeptRules(entries[..k + 1], threshold) ==
      KeptRules(entries[..k], threshold) + (if InTrie(entries[k], threshold) then |entries[k].rulesNumber| else 0)
  {
    assert entries[..k + 1][..k] == entries[..k];
  }

  /** The running totals of the storage loop, in bits, after the exact matches `done`. */
  ghost predicate Accumulated(done: seq<ExactMatch>, threshold: nat, bits: StorageSizes)
  {
    bits.fullListSize == 64 * KeptRules(done, threshold) && bits.ibltSizeOptimal == 80 * KeptRules(done, threshold)
    && bits.ibltSize100Rate == 10240 * KeptCount(done, threshold) && bits.ibltSize99Rate == 1280 * KeptCount(done, threshold)
    && bits.ibltSize95Rate == 320 * KeptCount(done, threshold)
  }

  /** The bits one exact match with `rules` rules adds to the totals. */
  function AddEntry(bits: StorageSizes, rules: nat): (r: StorageSizes)
    ensures r.fullListSize == bits.fullListSize + 64 * rules && r.ibltSizeOptimal == bits.ibltSizeOptimal + 80 * rules
    ensures r.ibltSize100Rate == bits.ibltSize100Rate + 10240 && r.ibltSize99Rate == bits.ibltSize99Rate + 1280
    ensures r.ibltSize95Rate == bits.ibltSize95Rate + 320
  {
    StorageSizes(bits.fullListSize + rules * SidEntryInLinkedList, bits.ibltSizeOptimal + 2 * rules * IbltCellSize,
      bits.ibltSize100Rate + IbltCellsSuccessRate100 * IbltCellSize, bits.ibltSize99Rate + IbltCellsSuccessRate99 * IbltCellSize,
      bits.ibltSize95Rate + IbltCellsSuccessRate95 * IbltCellSize)
  }

  /** The loop step: an exact match in the trie adds its bits, any other adds nothing. */
  lemma AccumulateStep(entries: seq<ExactMatch>, k: nat, threshold: nat, bits: StorageSizes)
    requires k < |entries| && Accumulated(entries[..k], threshold, bits)
    ensures InTrie(entries[k], threshold) ==> Accumulated(entries[..k + 1], threshold, AddEntry(bits, |entries[k].rulesNumber|))
    ensures !InTrie(entries[k], threshold) ==> Accumulated(entries[..k + 1], threshold, bits)
  {
    KeptStep(entries, k, threshold);
  }

  /** Dividing the bit totals by eight gives the sizes in bytes. */
  lemma InBytes(entries: seq<ExactMatch>, threshold: nat, bits: StorageSizes)
    requires Accumulated(entries, threshold, bits)
    ensures StorageSizes(bits.fullListSize / 8, bits.ibltSizeOptimal / 8, bits.ibltSize100Rate / 8,
      bits.ibltSize99Rate / 8, bits.ibltSize95Rate / 8) == Sizes(entries, threshold)
  {
  }

  /**
   * The storage loop of `main` for one threshold: every exact match is
   * decoded again (an odd length throws) and, when at least `threshold`
   * bytes long, adds its rule-list and IBLT sizes in bits; the totals
   * are reported in bytes.
   */
  method Storage(entries: seq<ExactMatch>, threshold: nat) returns (r: Result<StorageSizes>)
    ensures r.Err? <==> exists k :: 0 <= k < |entries| && Bstring.HexToBytes(entries[k].exactMatch).Err?
    ensures r.Ok? ==> r.value == Sizes(entries, threshold)
  {
    var bits := StorageSizes(0, 0, 0, 0, 0);
    for k := 0 to |entries|
      invariant forall j :: 0 <= j < k ==> Bstring.HexToBytes(entries[j].exactMatch).Ok?
      invariant Accumulated(entries[..k], threshold, bits)
    {
      var bstr := Bstring.HexToBstring(entries[k].exactMatch, []);
      if bstr.Err? {
        return Err(bstr.error);
      }
      assert [] + Bstring.HexToBytes(entries[k].exactMatch).value == Bstring.HexToBytes(entries[k].exactMatch).value;
      AccumulateStep(entries, k, threshold, bits);
      if |bstr.value| >= threshold {
        bits := AddEntry(bits, |entries[k].rulesNumber|);
      }
    }
    assert entries[..|entries|] == entries;
    InBytes(entries, threshold, bits);
    r := Ok(StorageSizes(bits.fullListSize / 8, bits.ibltSizeOptimal / 8, bits.ibltSize100Rate / 8,
      bits.ibltSize99Rate / 8, bits.ibltSize95Rate / 8));
  }

  // ---------------------------------------------------------------------
  // The threshold loop of `main`.
  // ---------------------------------------------------------------------

  /** Every pattern of the map created from the exact matches is at most as long as the longest of them. */
  lemma MapKeysBounded(entries: seq<ExactMatch>)
    requires AcParser.DecodeAll(AcParser.Texts(entries)).Ok? && MapAfter(entries, map[]).Ok?
    ensures forall key :: key in MapAfter(entries, map[]).value ==>
      |key| <= AcParser.MaxLength(AcParser.DecodeAll(AcParser.Texts(entries)).value)
  {
    var texts := AcParser.Texts(entries);
    var decoded := AcParser.DecodeAll(texts).value;
    AcParser.DecodeAllPointwise(texts);
    AcParser.MaxLengthIsMaximum(decoded);
    forall key | key in MapAfter(entries, map[]).value
      ensures |key| <= AcParser.MaxLength(decoded)
    {
      MapAfterKeys(entries, map[], key);
      var k :| 0 <= k < |entries| && Bstring.HexToBytes(entries[k].exactMatch) == Ok(key);
      assert texts[k] == entries[k].exactMatch;
      assert decoded[k] == key;
    }
  }

  /** When all the texts decode, each exact match decodes on its own. */
  lemma EachDecodes(entries: seq<ExactMatch>)
    requires AcParser.DecodeAll(AcParser.Texts(entries)).Ok?
    ensures forall k :: 0 <= k < |entries| ==> Bstring.HexToBytes(entries[k].exactMatch).Ok?
  {
    AcParser.DecodeAllPointwise(AcParser.Texts(entries));
    assert forall k :: 0 <= k < |entries| ==> AcParser.Texts(entries)[k] == entries[k].exactMatch;
  }

  /**
   * The set-up of `main` after parsing: the map is created from the exact
   * matches, then they are decoded and the longest length found; an odd
   * text throws from `createMap`, before the decoding.
   */
  method Prepare(exactMatches: ExactMatches) returns (sidsMap: Result<SidsMap>, bstrings: seq<seq<Byte>>, maxLength: nat)
    ensures sidsMap.Err? <==> AcParser.DecodeAll(AcParser.Texts(exactMatches.exactMatches)).Err?
    ensures sidsMap.Ok? ==>
      var decoded := AcParser.DecodeAll(AcParser.Texts(exactMatches.exactMatches)).value;
      sidsMap == MapAfter(exactMatches.exactMatches, map[]) && bstrings == decoded && maxLength == AcParser.MaxLength(decoded)
  {
    var entries := exactMatches.exactMatches;
    var texts := AcParser.Texts(entries);
    AcParser.DecodeAllPointwise(texts);
    MapAfterFails(entries, map[]);
    sidsMap := exactMatches.CreateMap(map[]);
    if sidsMap.Err? {
      var k :| 0 <= k < |entries| && Bstring.HexToBytes(entries[k].exactMatch).Err?;
      assert texts[k] == entries[k].exactMatch;
      return sidsMap, [], 0;
    }
    var longest;
    bstrings, longest := AcParser.ExactMatchesToBstrings(exactMatches, []);
    assert bstrings == [] + AcParser.DecodeAll(texts).value;
    maxLength := longest.value;
  }

  /**
   * One pass of the threshold loop: `runTest`, then for thresholds 1..8 the
   * storage sizes; the kept count and the sizes join those of the lower
   * thresholds.
   */
  method ThresholdPass(threshold: nat, entries: seq<ExactMatch>, bstrings: seq<seq<Byte>>,
                       searchResults: seq<SearchResults>, sidsMap: SidsMap, counts: seq<nat>, sizes: seq<StorageSizes>)
    returns (results: seq<SearchResults>, pruned: SidsMap, counts': seq<nat>, sizes': seq<StorageSizes>, error: Option<string>)
    requires threshold >= 1 && CountsUpTo(counts, bstrings, threshold - 1) && SizesUpTo(sizes, entries, threshold - 1)
    requires forall i :: 0 <= i < |searchResults| ==> |searchResults[i].searchKey| < AhoCorasick.Two64
    requires forall k :: 0 <= k < |entries| ==> Bstring.HexToBytes(entries[k].exactMatch).Ok?
    ensures |results| == |searchResults|
    ensures forall i :: 0 <= i < |results| ==>
      results[i].originalSids == searchResults[i].originalSids && results[i].searchKey == searchResults[i].searchKey
    ensures forall k :: k in pruned <==> k in sidsMap && |k| >= threshold
    ensures forall k :: k in pruned ==> pruned[k] == sidsMap[k]
    ensures error.Some? <==> AcParser.DecodeAll(AcParser.SearchKeys(searchResults)).Err?
    ensures error.None? ==> CountsUpTo(counts', bstrings, threshold) && SizesUpTo(sizes', entries, threshold)
    ensures error.Some? ==> counts' == counts && sizes' == sizes
    ensures error.None? && Searched(threshold) ==> StoredRecords(results, searchResults, pruned)
  {
    var found, inserted;
    results, pruned, inserted, error, found := RunTest(threshold, bstrings, searchResults, sidsMap);
    counts', sizes' := counts, sizes;
    if error.None? {
      var storage := None;
      if Searched(threshold) {
        var computed := Storage(entries, threshold);
        storage := Some(computed.value);
      }
      CountsStep(counts, bstrings, threshold - 1, inserted);
      SizesStep(sizes, entries, threshold - 1, storage);
      counts' := counts + [inserted];
      if storage.Some? {
        sizes' := sizes + [storage.value];
      }
    }
  }

  /** Records with the same search keys give the same key list. */
  lemma SameKeys(a: seq<SearchResults>, b: seq<SearchResults>)
    requires |a| == |b| && forall i :: 0 <= i < |a| ==> a[i].searchKey == b[i].searchKey
    ensures AcParser.SearchKeys(a) == AcParser.SearchKeys(b)
  {
  }

  /** The kept counts of thresholds 1..n, in order. */
  ghost predicate CountsUpTo(inserted: seq<nat>, bstrings: seq<seq<Byte>>, n: nat)
  {
    |inserted| == n && forall t :: 1 <= t <= n ==> inserted[t - 1] == |Thresholded(bstrings, t)|
  }

  /** The storage sizes of the searched thresholds among 1..n, in order. */
  ghost predicate SizesUpTo(sizes: seq<StorageSizes>, entries: seq<ExactMatch>, n: nat)
  {
    |sizes| == (if n < 8 then n else 8) && forall t :: 1 <= t <= |sizes| ==> sizes[t - 1] == Sizes(entries, t)
  }

  /** Appending the next threshold's kept count. */
  lemma CountsStep(inserted: seq<nat>, bstrings: seq<seq<Byte>>, n: nat, count: nat)
    requires CountsUpTo(inserted, bstrings, n) && count == |Thresholded(bstrings, n + 1)|
    ensures CountsUpTo(inserted + [count], bstrings, n + 1)
  {
  }

  /** Appending the next threshold's storage sizes, present exactly for the searched thresholds. */
  lemma SizesStep(sizes: seq<StorageSizes>, entries: seq<ExactMatch>, n: nat, storage: Option<StorageSizes>)
    requires SizesUpTo(sizes, entries, n)
    requires (storage.Some? <==> Searched(n + 1)) && (storage.Some? ==> storage.value == Sizes(entries, n + 1))
    ensures SizesUpTo(if storage.Some? then sizes + [storage.value] else sizes, entries, n + 1)
  {
  }

  /** `sidsMap` is the created map as the erase loops of thresholds below `threshold` leave it. */
  ghost predicate PrunedBelow(sidsMap: SidsMap, created: SidsMap, threshold: nat)
  {
    (forall k :: k in sidsMap <==> k in created && |k| + 1 >= threshold) &&
    (forall k :: k in sidsMap ==> sidsMap[k] == created[k])
  }

  /** Pruning the map left by the lower thresholds at `threshold` prunes the created map there. */
  lemma PrunedNext(before: SidsMap, after: SidsMap, created: SidsMap, threshold: nat)
    requires PrunedBelow(before, created, threshold)
    requires forall k :: k in after <==> k in before && |k| >= threshold
    requires forall k :: k in after ==> after[k] == before[k]
    ensures PrunedBelow(after, created, threshold + 1) && after == PrunedAt(created, threshold)
  {
  }

  /** The records of the searched thresholds 1..|recorded|, each against the map pruned there. */
  ghost predicate RecordedUpTo(recorded: seq<seq<SearchResults>>, searchResults: seq<SearchResults>, created: SidsMap)
  {
    forall t :: 1 <= t <= |recorded| ==> StoredRecords(recorded[t - 1], searchResults, PrunedAt(created, t))
  }

  /** Appending the next threshold's records. */
  lemma RecordedStep(recorded: seq<seq<SearchResults>>, searchResults: seq<SearchResults>, created: SidsMap,
                     records: seq<SearchResults>, before: seq<SearchResults>)
    requires RecordedUpTo(recorded, searchResults, created)
    requires StoredRecords(records, before, PrunedAt(created, |recorded| + 1))
    requires |before| == |searchResults|
    requires forall i :: 0 <= i < |before| ==>
      before[i].originalSids == searchResults[i].originalSids && before[i].searchKey == searchResults[i].searchKey
    ensures RecordedUpTo(recorded + [records], searchResults, created)
  {
    StoredTransfer(records, before, searchResults, PrunedAt(created, |recorded| + 1));
  }

  /** The stored records depend on the search items only through their SIDs and keys. */
  lemma StoredTransfer(records: seq<SearchResults>, a: seq<SearchResults>, b: seq<SearchResults>, sidsMap: SidsMap)
    requires StoredRecords(records, a, sidsMap)
    requires |a| == |b| && forall i :: 0 <= i < |a| ==> a[i].originalSids == b[i].originalSids && a[i].searchKey == b[i].searchKey
    ensures StoredRecords(records, b, sidsMap)
  {
    SameKeys(a, b);
  }

  /**
   * The threshold loop of `main`: `runTest` for thresholds 1 to
   * `maxThreshold`, in order, with the storage and the written records for
   * thresholds 1..8; the first exception ends the loop. The map is pruned
   * in place, so threshold `t` searches the created map pruned at `t`.
   */
  method ThresholdLoop(entries: seq<ExactMatch>, bstrings: seq<seq<Byte>>, maxThreshold: nat,
                       searchResults: seq<SearchResults>, created: SidsMap)
    returns (inserted: seq<nat>, sizes: seq<StorageSizes>, recorded: seq<seq<SearchResults>>, sidsMap: SidsMap, error: Option<string>)
    requires forall i :: 0 <= i < |searchResults| ==> |searchResults[i].searchKey| < AhoCorasick.Two64
    requires forall k :: 0 <= k < |entries| ==> Bstring.HexToBytes(entries[k].exactMatch).Ok?
    requires maxThreshold >= 1
    ensures error.Some? <==> AcParser.DecodeAll(AcParser.SearchKeys(searchResults)).Err?
    ensures error.None? ==> CountsUpTo(inserted, bstrings, maxThreshold) && SizesUpTo(sizes, entries, maxThreshold)
    ensures error.None? ==> forall k :: k in sidsMap <==> k in created && |k| >= maxThreshold
    ensures |recorded| == |sizes|
    ensures forall t :: 1 <= t <= |recorded| ==> StoredRecords(recorded[t - 1], searchResults, PrunedAt(created, t))
  {
    sidsMap := created;
    var results := searchResults;
    inserted := [];
    sizes := [];
    recorded := [];
    for threshold := 1 to maxThreshold + 1
      invariant |results| == |searchResults|
      invariant forall i :: 0 <= i < |results| ==>
        results[i].originalSids == searchResults[i].originalSids && results[i].searchKey == searchResults[i].searchKey
      invariant threshold > 1 ==> AcParser.DecodeAll(AcParser.SearchKeys(searchResults)).Ok?
      invariant CountsUpTo(inserted, bstrings, threshold - 1)
      invariant SizesUpTo(sizes, entries, threshold - 1)
      invariant PrunedBelow(sidsMap, created, threshold)
      invariant |recorded| == |sizes| && RecordedUpTo(recorded, searchResults, created)
    {
      var err;
      ghost var before := results;
      ghost var beforeMap := sidsMap;
      ghost var beforeSizes := sizes;
      results, sidsMap, inserted, sizes, err := ThresholdPass(threshold, entries, bstrings, results, sidsMap, inserted, sizes);
      SameKeys(before, searchResults);
      PrunedNext(beforeMap, sidsMap, created, threshold);
      if err.Some? {
        return inserted, sizes, recorded, sidsMap, err;
      }
      if Searched(threshold) {
        assert |recorded| + 1 == threshold;
        RecordedStep(recorded, searchResults, created, results, before);
        recorded := recorded + [results];
      }
    }
    error := None;
  }

  /** After the last threshold, one past the longest length, nothing is kept any more. */
  lemma LoopResults(inserted: seq<nat>, sizes: seq<StorageSizes>, bstrings: seq<seq<Byte>>, entries: seq<ExactMatch>)
    requires CountsUpTo(inserted, bstrings, AcParser.MaxLength(bstrings) + 1)
    requires SizesUpTo(sizes, entries, AcParser.MaxLength(bstrings) + 1)
    ensures |inserted| == AcParser.MaxLength(bstrings) + 1
    ensures forall t :: 1 <= t <= |inserted| ==> inserted[t - 1] == |Thresholded(bstrings, t)|
    ensures inserted[|inserted| - 1] == 0
    ensures |sizes| == (if |inserted| < 8 then |inserted| else 8)
    ensures forall t :: 1 <= t <= |sizes| ==> sizes[t - 1] == Sizes(entries, t)
  {
    ThresholdedBeyondMax(bstrings, AcParser.MaxLength(bstrings) + 1);
  }

  /**
   * `main` after parsing: the set-up, then `runTest` for thresholds 1 to
   * the longest length plus one, in order, with the storage computed for
   * thresholds 1..8. The kept counts and the storage sizes are returned
   * per threshold, with the map as the last threshold leaves it: empty.
   */
  method RunAllThresholds(exactMatches: ExactMatches, searchResults: seq<SearchResults>)
    returns (inserted: seq<nat>, sizes: seq<StorageSizes>, recorded: seq<seq<SearchResults>>, sidsMap: SidsMap, error: Option<string>)
    requires forall i :: 0 <= i < |searchResults| ==> |searchResults[i].searchKey| < AhoCorasick.Two64
    ensures error.Some? <==>
      AcParser.DecodeAll(AcParser.Texts(exactMatches.exactMatches)).Err? || AcParser.DecodeAll(AcParser.SearchKeys(searchResults)).Err?
    ensures error.None? ==> MapAfter(exactMatches.exactMatches, map[]).Ok?
    ensures error.None? ==>
      |recorded| == |sizes| &&
      forall t :: 1 <= t <= |recorded| ==>
        StoredRecords(recorded[t - 1], searchResults, PrunedAt(MapAfter(exactMatches.exactMatches, map[]).value, t))
    ensures error.None? ==>
      var decoded := AcParser.DecodeAll(AcParser.Texts(exactMatches.exactMatches)).value;
      |inserted| == AcParser.MaxLength(decoded) + 1 &&
      (forall t :: 1 <= t <= |inserted| ==> inserted[t - 1] == |Thresholded(decoded, t)|) &&
      inserted[|inserted| - 1] == 0 &&
      |sizes| == (if |inserted| < 8 then |inserted| else 8) &&
      (forall t :: 1 <= t <= |sizes| ==> sizes[t - 1] == Sizes(exactMatches.exactMatches, t)) &&
      sidsMap == map[]
  {
    var created, bstrings, maxLength := Prepare(exactMatches);
    if created.Err? {
      return [], [], [], map[], Some(created.error);
    }
    var entries := exactMatches.exactMatches;
    EachDecodes(entries);
    inserted, sizes, recorded, sidsMap, error := ThresholdLoop(entries, bstrings, maxLength + 1, searchResults, created.value);
    if error.None? {
      LoopResults(inserted, sizes, bstrings, entries);
      MapKeysBounded(entries);
      assert sidsMap.Keys == {};
    }
  }
}
