/**
 * Part B's parser: one exact match per line of the Part A output, the
 * count of distinct rules over all exact matches, and the total duplicate
 * count over the extracted substrings.
 */
module CuckooParser {
  import opened CuckooExactMatches
  import HexKeys

  /**
   * `parseLine` on an already parsed line: the `exact_match_hex` list and
   * the `rules` list. The rules go through a set, the key is built from
   * the hex list, and exactly one exact match is inserted. The two-argument
   * `ExactMatch` constructor the line calls is not declared in the header;
   * the entry gets the default type OTHER.
   */
  method ParseLine(exactMatchHex: seq<string>, nonUniqueRules: seq<int>, exactMatches: ExactMatches)
    modifies exactMatches
    ensures exactMatches.exactMatches == old(exactMatches.exactMatches) +
      [ExactMatch((set r | r in nonUniqueRules), Other, HexKeys.MatchKey(exactMatchHex))]
  {
    var rules := (set r | r in nonUniqueRules);
    var key := HexKeys.BuildMatchKey(exactMatchHex);
    exactMatches.Insert(ExactMatch(rules, Other, key));
  }

  /** The rule numbers of all entries together. */
  function UnionRules(entries: seq<ExactMatch>): set<int>
  {
    if entries == [] then {} else UnionRules(entries[..|entries| - 1]) + entries[|entries| - 1].rulesNumber
  }

  /** A rule number is in the union exactly when some entry lists it. */
  lemma {:induction false} UnionRulesMembers(entries: seq<ExactMatch>, x: int)
    ensures x in UnionRules(entries) <==> exists k :: 0 <= k < |entries| && x in entries[k].rulesNumber
  {
    if entries != [] {
      var init := entries[..|entries| - 1];
      UnionRulesMembers(init, x);
      if x in UnionRules(init) {
        var k :| 0 <= k < |init| && x in init[k].rulesNumber;
        assert entries[k] == init[k];
      }
      if exists k :: 0 <= k < |entries| && x in entries[k].rulesNumber {
        var k :| 0 <= k < |entries| && x in entries[k].rulesNumber;
        if k < |init| {
          assert init[k] == entries[k];
        }
      }
    }
  }

  /**
   * `parseExactMatches`: the number of distinct rule numbers over all
   * exact matches. The substring extraction and logging of the same loop
   * are not part of this model.
   */
  method ParseExactMatches(exactMatches: ExactMatches) returns (numOfUniqueRules: nat)
    ensures numOfUniqueRules == |UnionRules(exactMatches.exactMatches)|
  {
    var entries := exactMatches.exactMatches;
    var totalUniqueRules: set<int> := {};
    for k := 0 to |entries|
      invariant totalUniqueRules == UnionRules(entries[..k])
    {
      assert entries[..k + 1][..k] == entries[..k];
      totalUniqueRules := totalUniqueRules + entries[k].rulesNumber;
    }
    assert entries[..|entries|] == entries;
    numOfUniqueRules := |totalUniqueRules|;
  }

  /** The sum of a list of counts. */
  function Sum(counts: seq<nat>): nat
  {
    if counts == [] then 0 else Sum(counts[..|counts| - 1]) + counts[|counts| - 1]
  }

  lemma {:induction false} SumAppend(a: seq<nat>, b: seq<nat>)
    ensures Sum(a + b) == Sum(a) + Sum(b)
  {
    if b == [] {
      assert a + b == a;
    } else {
      assert (a + b)[..|a + b| - 1] == a + b[..|b| - 1];
      SumAppend(a, b[..|b| - 1]);
    }
  }

  /** No single count exceeds the total. */
  lemma {:induction false} SumBoundsEach(counts: seq<nat>, k: nat)
    requires k < |counts|
    ensures counts[k] <= Sum(counts)
  {
    if k < |counts| - 1 {
      SumBoundsEach(counts[..|counts| - 1], k);
    }
  }

  /**
   * `getTotalNumOfDups`, given each substring's duplicate count (the
   * counter lives in a Substring version that is not part of this model).
   */
  method GetTotalNumOfDups(dups: seq<nat>) returns (numOfDuplicates: nat)
    ensures numOfDuplicates == Sum(dups)
  {
    numOfDuplicates := 0;
    for k := 0 to |dups|
      invariant numOfDuplicates == Sum(dups[..k])
    {
      assert dups[..k + 1][..k] == dups[..k];
      numOfDuplicates := numOfDuplicates + dups[k];
    }
    assert dups[..|dups|] == dups;
  }
}
