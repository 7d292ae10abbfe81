/**
 * Part C's parser: exact-match lines into `ExactMatches`, and exact
 * matches or search keys into the byte strings the automaton works on.
 * A byte-string vector the source fills through a reference is passed in
 * and handed back; the `invalid_argument` of `hexToBstring` is an `Err`.
 */
module AcParser {
  import opened Wrappers
  import Bstring
  import HexKeys
  import opened AcExactMatches
  import SearchItems

  /**
   * `addBstring`: decodes one hex text and appends it. On an odd length the
   * exception leaves the vector as it was.
   */
  method AddBstring(hexString: string, bstrings: seq<seq<Byte>>) returns (out: seq<seq<Byte>>, length: Result<nat>)
    ensures Bstring.HexToBytes(hexString).Err? ==>
      out == bstrings && length == Err(Bstring.HexToBytes(hexString).error)
    ensures Bstring.HexToBytes(hexString).Ok? ==>
      out == bstrings + [Bstring.HexToBytes(hexString).value] && length == Ok(|Bstring.HexToBytes(hexString).value|)
  {
    var bstring := Bstring.HexToBstring(hexString, []);
    if bstring.Err? {
      return bstrings, Err(bstring.error);
    }
    assert [] + Bstring.HexToBytes(hexString).value == Bstring.HexToBytes(hexString).value;
    out := bstrings + [bstring.value];
    length := Ok(|bstring.value|);
  }

  /** The decoded texts, in order, or the first decoding error. */
  function DecodeAll(texts: seq<string>): Result<seq<seq<Byte>>>
  {
    if texts == [] then Ok([])
    else
      match DecodeAll(texts[..|texts| - 1])
      case Err(e) => Err(e)
      case Ok(init) =>
        match Bstring.HexToBytes(texts[|texts| - 1])
        case Err(e) => Err(e)
        case Ok(b) => Ok(init + [b])
  }

  /** Decoding all texts succeeds exactly when each one decodes, and then gives each one's bytes at its index. */
  lemma DecodeAllPointwise(texts: seq<string>)
    ensures DecodeAll(texts).Ok? <==> forall k :: 0 <= k < |texts| ==> Bstring.HexToBytes(texts[k]).Ok?
    ensures DecodeAll(texts).Ok? ==>
      |DecodeAll(texts).value| == |texts| &&
      forall k :: 0 <= k < |texts| ==> DecodeAll(texts).value[k] == Bstring.HexToBytes(texts[k]).value
  {
    if DecodeAll(texts).Ok? {
      DecodedPointwise(texts);
    }
    if forall k :: 0 <= k < |texts| ==> Bstring.HexToBytes(texts[k]).Ok? {
      EachDecodes(texts);
    }
  }

  lemma {:induction false} DecodedPointwise(texts: seq<string>)
    requires DecodeAll(texts).Ok?
    ensures forall k :: 0 <= k < |texts| ==> Bstring.HexToBytes(texts[k]).Ok?
    ensures |DecodeAll(texts).value| == |texts|
    ensures forall k :: 0 <= k < |texts| ==> DecodeAll(texts).value[k] == Bstring.HexToBytes(texts[k]).value
  {
    if texts != [] {
      var init := texts[..|texts| - 1];
      DecodedPointwise(init);
      var d := DecodeAll(init).value;
      var b := Bstring.HexToBytes(texts[|texts| - 1]).value;
      assert DecodeAll(texts).value == d + [b];
      forall k | 0 <= k < |texts| - 1
        ensures Bstring.HexToBytes(texts[k]).Ok? && (d + [b])[k] == Bstring.HexToBytes(texts[k]).value
      {
        assert init[k] == texts[k];
      }
    }
  }

  lemma {:induction false} EachDecodes(texts: seq<string>)
    requires forall k :: 0 <= k < |texts| ==> Bstring.HexToBytes(texts[k]).Ok?
    ensures DecodeAll(texts).Ok?
  {
    if texts != [] {
      var init := texts[..|texts| - 1];
      forall k | 0 <= k < |init| ensures Bstring.HexToBytes(init[k]).Ok? {
        assert init[k] == texts[k];
      }
      EachDecodes(init);
    }
  }

  /** One more text: decoding the longer prefix fails with it or appends its bytes. */
  lemma DecodeAllStep(texts: seq<string>, k: nat)
    requires k < |texts| && DecodeAll(texts[..k]).Ok?
    ensures Bstring.HexToBytes(texts[k]).Err? ==> DecodeAll(texts[..k + 1]).Err?
    ensures Bstring.HexToBytes(texts[k]).Ok? ==>
      DecodeAll(texts[..k + 1]) == Ok(DecodeAll(texts[..k]).value + [Bstring.HexToBytes(texts[k]).value])
  {
    PrefixStep(texts, k);
  }

  lemma {:induction false} DecodeAllStops(texts: seq<string>, i: nat)
    requires i <= |texts| && DecodeAll(texts[..i]).Err?
    ensures DecodeAll(texts).Err?
    decreases |texts| - i
  {
    if i < |texts| {
      assert texts[..i + 1][..i] == texts[..i];
      DecodeAllStops(texts, i + 1);
    } else {
      assert texts[..i] == texts;
    }
  }

  /** The length of the longest byte string, 0 for none. */
  function MaxLength(bs: seq<seq<Byte>>): nat
  {
    if bs == [] then 0
    else
      var m := MaxLength(bs[..|bs| - 1]);
      if |bs[|bs| - 1]| > m then |bs[|bs| - 1]| else m
  }

  /** `MaxLength` is at least every length, and is 0 or the length of one of the strings. */
  lemma {:induction false} MaxLengthIsMaximum(bs: seq<seq<Byte>>)
    ensures forall k :: 0 <= k < |bs| ==> |bs[k]| <= MaxLength(bs)
    ensures MaxLength(bs) == 0 || exists k :: 0 <= k < |bs| && |bs[k]| == MaxLength(bs)
  {
    if bs != [] {
      var init := bs[..|bs| - 1];
      MaxLengthIsMaximum(init);
      assert forall k :: 0 <= k < |init| ==> init[k] == bs[k];
      if MaxLength(bs) != |bs[|bs| - 1]| && MaxLength(bs) != 0 {
        var k :| 0 <= k < |init| && |init[k]| == MaxLength(init);
        assert |bs[k]| == MaxLength(bs);
      }
    }
  }

  lemma MaxLengthStep(bs: seq<seq<Byte>>, b: seq<Byte>)
    ensures MaxLength(bs + [b]) == if |b| > MaxLength(bs) then |b| else MaxLength(bs)
  {
    InitOfAppend(bs, [b]);
  }

  /** The exact-match texts of the entries, in order. */
  function Texts(entries: seq<ExactMatch>): (r: seq<string>)
    ensures |r| == |entries|
  {
    seq(|entries|, k requires 0 <= k < |entries| => entries[k].exactMatch)
  }

  /**
   * `toBstring(const ExactMatches&, …)`: every exact match is decoded and
   * appended in order, and the longest decoded length (0 for none) is
   * returned.
   */
  method ExactMatchesToBstrings(exactMatches: ExactMatches, bstrings: seq<seq<Byte>>)
    returns (out: seq<seq<Byte>>, maxLength: Result<nat>)
    ensures DecodeAll(Texts(exactMatches.exactMatches)).Err? <==> maxLength.Err?
    ensures maxLength.Ok? ==>
      var decoded := DecodeAll(Texts(exactMatches.exactMatches)).value;
      out == bstrings + decoded && maxLength.value == MaxLength(decoded)
  {
    var entries := exactMatches.exactMatches;
    var texts := Texts(entries);
    out := bstrings;
    var longest: nat := 0;
    for k := 0 to |entries|
      invariant DecodeAll(texts[..k]).Ok?
      invariant out == bstrings + DecodeAll(texts[..k]).value
      invariant longest == MaxLength(DecodeAll(texts[..k]).value)
    {
      ghost var before := DecodeAll(texts[..k]).value;
      DecodeAllStep(texts, k);
      var length;
      out, length := AddBstring(entries[k].exactMatch, out);
      if length.Err? {
        DecodeAllStops(texts, k + 1);
        WholePrefix(texts);
        return out, Err(length.error);
      }
      ghost var b := Bstring.HexToBytes(texts[k]).value;
      AssocThree(bstrings, before, [b]);
      MaxLengthStep(before, b);
      if length.value > longest {
        longest := length.value;
      }
    }
    WholePrefix(texts);
    maxLength := Ok(longest);
  }

  /** The search keys of the records, in order. */
  function SearchKeys(results: seq<SearchItems.SearchResults>): (r: seq<string>)
    ensures |r| == |results|
  {
    seq(|results|, k requires 0 <= k < |results| => results[k].searchKey)
  }

  /**
   * `toBstring(const std::vector<SearchResults>*, …)`: a null pointer
   * (None) leaves the vector unchanged; otherwise each search key is
   * decoded and appended in order.
   */
  method SearchResultsToBstrings(searchResults: Option<seq<SearchItems.SearchResults>>, bstrings: seq<seq<Byte>>)
    returns (out: seq<seq<Byte>>, error: Option<string>)
    ensures searchResults.None? ==> out == bstrings && error.None?
    ensures searchResults.Some? ==>
      (error.None? <==> DecodeAll(SearchKeys(searchResults.value)).Ok?) &&
      (error.None? ==> out == bstrings + DecodeAll(SearchKeys(searchResults.value)).value)
  {
    if searchResults.None? {
      return bstrings, None;
    }
    var items := searchResults.value;
    var keys := SearchKeys(items);
    out := bstrings;
    for k := 0 to |items|
      invariant DecodeAll(keys[..k]).Ok?
      invariant out == bstrings + DecodeAll(keys[..k]).value
    {
      ghost var before := DecodeAll(keys[..k]).value;
      DecodeAllStep(keys, k);
      var length;
      out, length := AddBstring(items[k].searchKey, out);
      if length.Err? {
        DecodeAllStops(keys, k + 1);
        WholePrefix(keys);
        return out, Some(length.error);
      }
      AssocThree(bstrings, before, [Bstring.HexToBytes(keys[k]).value]);
    }
    WholePrefix(keys);
    error := None;
  }

  /**
   * `parseLine` on an already parsed line: the rules go through a set, the
   * key is built from the hex list, and exactly one exact match is
   * inserted.
   */
  method ParseLine(exactMatchHex: seq<string>, nonUniqueRules: seq<int>, exactMatches: ExactMatches)
    modifies exactMatches
    ensures exactMatches.exactMatches == old(exactMatches.exactMatches) +
      [ExactMatch((set r | r in nonUniqueRules), HexKeys.MatchKey(exactMatchHex))]
  {
    var rules := (set r | r in nonUniqueRules);
    var key := HexKeys.BuildMatchKey(exactMatchHex);
    exactMatches.Insert(ExactMatch(rules, key));
  }
}
