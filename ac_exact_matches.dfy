/**
 * Part C's `ExactMatch` (a rule set and a hex text) and the `ExactMatches`
 * container, whose `createMap` maps each decoded exact match to its rules.
 */
module AcExactMatches {
  import opened Wrappers
  import Bstring

  type Byte = Bstring.Byte

  datatype ExactMatch = ExactMatch(rulesNumber: set<int>, exactMatch: string)

  /** The default constructor: no rules and an empty text. */
  const DefaultExactMatch := ExactMatch({}, "")

  /**
   * The caller's map after `createMap` has handled `entries`, in order:
   * each entry's decoded text maps to its rule set, replacing what was
   * there. A text of odd length makes `hexToBstring` throw, which ends the
   * loop with that error.
   */
  function MapAfter(entries: seq<ExactMatch>, m: map<seq<Byte>, set<int>>): Result<map<seq<Byte>, set<int>>>
  {
    if entries == [] then Ok(m)
    else
      var last := entries[|entries| - 1];
      match MapAfter(entries[..|entries| - 1], m)
      case Err(e) => Err(e)
      case Ok(before) =>
        match Bstring.HexToBytes(last.exactMatch)
        case Err(e) => Err(e)
        case Ok(key) => Ok(before[key := last.rulesNumber])
  }

  /** Once an entry has failed, the later ones change nothing: the error is the result. */
  lemma {:induction false} MapAfterStops(entries: seq<ExactMatch>, m: map<seq<Byte>, set<int>>, i: nat)
    requires i <= |entries| && MapAfter(entries[..i], m).Err?
    ensures MapAfter(entries, m) == MapAfter(entries[..i], m)
    decreases |entries| - i
  {
    if i < |entries| {
      assert entries[..i + 1][..i] == entries[..i];
      MapAfterStops(entries, m, i + 1);
    } else {
      assert entries[..i] == entries;
    }
  }

  /** `createMap` fails exactly when some entry's text has an odd number of digits. */
  lemma {:induction false} MapAfterFails(entries: seq<ExactMatch>, m: map<seq<Byte>, set<int>>)
    ensures MapAfter(entries, m).Err? <==> exists k :: 0 <= k < |entries| && Bstring.HexToBytes(entries[k].exactMatch).Err?
  {
    if entries != [] {
      MapAfterFails(entries[..|entries| - 1], m);
      SomeOddSplit(entries);
    }
  }

  /** Some entry's text has an odd number of digits. */
  predicate SomeOdd(entries: seq<ExactMatch>)
  {
    exists k :: 0 <= k < |entries| && Bstring.HexToBytes(entries[k].exactMatch).Err?
  }

  /** Some entry is odd exactly when one before the last is, or the last is. */
  lemma SomeOddSplit(entries: seq<ExactMatch>)
    requires entries != []
    ensures SomeOdd(entries) <==> SomeOdd(entries[..|entries| - 1]) || Bstring.HexToBytes(entries[|entries| - 1].exactMatch).Err?
  {
    var init := entries[..|entries| - 1];
    if SomeOdd(entries) {
      var k :| 0 <= k < |entries| && Bstring.HexToBytes(entries[k].exactMatch).Err?;
      if k < |init| {
        assert init[k] == entries[k];
      }
    }
    if SomeOdd(init) {
      var k :| 0 <= k < |init| && Bstring.HexToBytes(init[k].exactMatch).Err?;
      assert entries[k] == init[k];
    }
  }

  /** A key no entry decodes to keeps its place and its rules in the caller's map. */
  lemma {:induction false} MapAfterKeepsOthers(entries: seq<ExactMatch>, m: map<seq<Byte>, set<int>>, key: seq<Byte>)
    requires MapAfter(entries, m).Ok?
    requires forall k :: 0 <= k < |entries| ==> Bstring.HexToBytes(entries[k].exactMatch) != Ok(key)
    ensures var r := MapAfter(entries, m).value;
      (key in r <==> key in m) && (key in m ==> r[key] == m[key])
  {
    if entries != [] {
      var init := entries[..|entries| - 1];
      assert forall k :: 0 <= k < |init| ==> init[k] == entries[k];
      MapAfterKeepsOthers(init, m, key);
    }
  }

  /**
   * The last entry decoding to a key decides its rules: earlier entries
   * with the same bytes are overwritten.
   */
  lemma {:induction false} MapAfterLastWins(entries: seq<ExactMatch>, m: map<seq<Byte>, set<int>>, k: nat, key: seq<Byte>)
    requires MapAfter(entries, m).Ok?
    requires k < |entries| && Bstring.HexToBytes(entries[k].exactMatch) == Ok(key)
    requires forall j :: k < j < |entries| ==> Bstring.HexToBytes(entries[j].exactMatch) != Ok(key)
    ensures key in MapAfter(entries, m).value && MapAfter(entries, m).value[key] == entries[k].rulesNumber
  {
    var init := entries[..|entries| - 1];
    if k < |entries| - 1 {
      assert forall j :: k < j < |init| ==> init[j] == entries[j];
      MapAfterLastWins(init, m, k, key);
    }
  }

  /** `createMap` adds no other key: every key of the result was in the caller's map or is the decoding of an entry. */
  lemma {:induction false} MapAfterKeys(entries: seq<ExactMatch>, m: map<seq<Byte>, set<int>>, key: seq<Byte>)
    requires MapAfter(entries, m).Ok? && key in MapAfter(entries, m).value
    ensures key in m || exists k :: 0 <= k < |entries| && Bstring.HexToBytes(entries[k].exactMatch) == Ok(key)
  {
    if entries != [] {
      var init := entries[..|entries| - 1];
      if Bstring.HexToBytes(entries[|entries| - 1].exactMatch) != Ok(key) {
        MapAfterKeys(init, m, key);
        if key !in m {
          var k :| 0 <= k < |init| && Bstring.HexToBytes(init[k].exactMatch) == Ok(key);
          assert entries[k] == init[k];
        }
      }
    }
  }

  /** The container: the vector of (copies of) inserted exact matches. */
  class ExactMatches {
    var exactMatches: seq<ExactMatch>

    constructor ()
      ensures exactMatches == []
    {
      exactMatches := [];
    }

    /** `insert`: a copy goes at the end; earlier entries stay as they were. */
    method Insert(toInsert: ExactMatch)
      modifies this
      ensures exactMatches == old(exactMatches) + [toInsert]
    {
      exactMatches := exactMatches + [toInsert];
    }

    /**
     * `createMap`: for every exact match in insertion order, its text is
     * decoded into a fresh byte string and `map[bytes] = rules`. The map
     * is the caller's, passed in and handed back.
     */
    method CreateMap(m: map<seq<Byte>, set<int>>) returns (r: Result<map<seq<Byte>, set<int>>>)
      ensures r == MapAfter(exactMatches, m)
    {
      var entries := exactMatches;
      var current := m;
      for k := 0 to |entries|
        invariant MapAfter(entries[..k], m) == Ok(current)
      {
        PrefixStep(entries, k);
        var bstr := Bstring.HexToBstring(entries[k].exactMatch, []);
        if bstr.Err? {
          MapAfterStops(entries, m, k + 1);
          return Err(bstr.error);
        }
        assert Bstring.HexToBytes(entries[k].exactMatch) == Ok(bstr.value) by {
          assert [] + Bstring.HexToBytes(entries[k].exactMatch).value == Bstring.HexToBytes(entries[k].exactMatch).value;
        }
        current := current[bstr.value := entries[k].rulesNumber];
      }
      WholePrefix(entries);
      r := Ok(current);
    }
  }
}
