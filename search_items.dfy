/**
 * The search-pattern file both C++ parts read: each item has the rule
 * numbers it should hit and a spaced hex example ("FF FF …"), turned into
 * a search key "0xFFFF…". The `SearchResults` record itself is declared in
 * a header that is not part of this model; only the fields the parsers and
 * the Aho-Corasick driver use are kept.
 */
module SearchItems {
  import HexKeys

  /** One already parsed JSON item: `sids` and `hex_string_example`. */
  datatype SearchItem = SearchItem(sids: seq<int>, hexStringExample: string)

  /** A search pattern and the hits recorded for it, per rule number. */
  datatype SearchResults = SearchResults(originalSids: seq<int>, searchKey: string, sidsHit: map<int, nat>)

  /** The record `parseFile` builds for one item; no hits yet. */
  function ResultFor(item: SearchItem): SearchResults
  {
    SearchResults(item.sids, "0x" + HexKeys.WithoutSpaces(item.hexStringExample), map[])
  }

  /**
   * The item loop of `parseFile(…, std::vector<SearchResults>&)`: one
   * record per item, in order, after what the caller's vector held.
   */
  method ParseSearchItems(items: seq<SearchItem>, res: seq<SearchResults>) returns (out: seq<SearchResults>)
    ensures |out| == |res| + |items|
    ensures out[..|res|] == res
    ensures forall k :: 0 <= k < |items| ==> out[|res| + k] == ResultFor(items[k])
  {
    out := res;
    for k := 0 to |items|
      invariant |out| == |res| + k && out[..|res|] == res
      invariant forall j :: 0 <= j < k ==> out[|res| + j] == ResultFor(items[j])
    {
      var searchKey := HexKeys.BuildSearchKey(items[k].hexStringExample);
      out := out + [SearchResults(items[k].sids, searchKey, map[])];
    }
  }
}
