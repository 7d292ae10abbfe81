/**
 * The Aho-Corasick automaton of Part C (`aho_corasick::trie`, a
 * `basic_trie<char>` over bytes): intervals and emits, the trie of states
 * with their child maps, failure links and emit sets, keyword insertion,
 * the breadth-first construction of the failure links, and the text scan.
 *
 * States live in one arena: state k is index k of the per-state sequences,
 * state 0 is the root, and a null `state*` is `None`. Each state's path
 * (the bytes spelled from the root) and its parent are ghost fields that
 * state the trie's shape.
 */
module AhoCorasick {
  import opened Wrappers
  import Hex

  type Byte = Hex.Byte

  /** The number of `size_t` values. */
  const Two64: nat := 0x1_0000_0000_0000_0000

  // Intervals.

  /** `interval`: the closed range [start, end] of text positions. */
  datatype Interval = Interval(start: nat, end: nat)

  /** `size()`, computed as `end - start + 1` in `size_t`. */
  function Size(i: Interval): (r: nat)
    ensures i.start <= i.end + 1 && i.end + 1 - i.start < Two64 ==> r == i.end + 1 - i.start
  {
    (i.end - i.start + 1) % Two64
  }

  /** `overlaps_with(const interval&)`. */
  predicate OverlapsWith(a: Interval, b: Interval)
  {
    a.start <= b.end && a.end >= b.start
  }

  /** `overlaps_with(size_t point)`. */
  predicate OverlapsWithPoint(a: Interval, p: nat)
  {
    a.start <= p <= a.end
  }

  /** `operator<`: intervals are ordered by their start alone. */
  predicate Before(a: Interval, b: Interval)
  {
    a.start < b.start
  }

  /** `operator!=`: a different start or a different end. */
  predicate Differs(a: Interval, b: Interval)
  {
    a.start != b.start || a.end != b.end
  }

  lemma OverlapsSymmetric(a: Interval, b: Interval)
    ensures OverlapsWith(a, b) == OverlapsWith(b, a)
  {
  }

  /** Two non-empty intervals overlap exactly when some position lies in both. */
  lemma OverlapsSharePoint(a: Interval, b: Interval)
    requires a.start <= a.end && b.start <= b.end
    ensures OverlapsWith(a, b) <==> exists p :: OverlapsWithPoint(a, p) && OverlapsWithPoint(b, p)
  {
    if OverlapsWith(a, b) {
      var p := if a.start < b.start then b.start else a.start;
      assert OverlapsWithPoint(a, p) && OverlapsWithPoint(b, p);
    }
  }

  /** A point overlaps exactly as the one-position interval at it does. */
  lemma PointIsUnitInterval(a: Interval, p: nat)
    ensures OverlapsWithPoint(a, p) == OverlapsWith(a, Interval(p, p))
  {
  }

  /** `!=` is the negation of `==` (equal start and equal end). */
  lemma DiffersIsNotEqual(a: Interval, b: Interval)
    ensures Differs(a, b) <==> a != b
  {
  }

  // Keywords, emits and the scanned text.

  /** One entry of a state's emit set: a keyword and the insertion number it got. */
  datatype KeyIndex = KeyIndex(keyword: seq<Byte>, index: nat)

  /** `emit`: a keyword found at an interval of the text, with its insertion number. */
  datatype Emit = Emit(interval: Interval, keyword: seq<Byte>, index: nat)

  predicate IsSuffix(a: seq<Byte>, b: seq<Byte>)
  {
    |a| <= |b| && b[|b| - |a|..] == a
  }

  predicate IsProperSuffix(a: seq<Byte>, b: seq<Byte>)
  {
    |a| < |b| && b[|b| - |a|..] == a
  }

  lemma SuffixTransitive(a: seq<Byte>, b: seq<Byte>, c: seq<Byte>)
    requires IsSuffix(a, b) && IsSuffix(b, c)
    ensures IsSuffix(a, c)
  {
    assert c[|c| - |a|..] == c[|c| - |b|..][|b| - |a|..];
  }

  lemma SuffixExtend(a: seq<Byte>, b: seq<Byte>, x: Byte)
    requires IsSuffix(a, b)
    ensures IsSuffix(a + [x], b + [x])
  {
    assert (b + [x])[|b| + 1 - (|a| + 1)..] == b[|b| - |a|..] + [x];
  }

  /** `std::tolower` on a byte: only 'A'..'Z' change. */
  function ToLower(c: Byte): Byte
  {
    if 'A' as int <= c <= 'Z' as int then c + 32 else c
  }

  /** The text as the scan sees it: lower-cased when the trie is case-insensitive. */
  function Scanned(text: seq<Byte>, caseInsensitive: bool): (r: seq<Byte>)
    ensures |r| == |text|
  {
    if caseInsensitive then seq(|text|, i requires 0 <= i < |text| => ToLower(text[i])) else text
  }

  /** The emit `store_emits` records at position `pos` for one entry: start `pos - |keyword| + 1` in `size_t`. */
  function EmitAt(pos: nat, e: KeyIndex): Emit
  {
    Emit(Interval((pos + 1 - |e.keyword|) % Two64, pos), e.keyword, e.index)
  }

  /**
   * What every collected emit promises: the keyword is not empty, it ends
   * at `end`, starts at `end - |keyword| + 1`, and the scanned text holds
   * exactly the keyword there.
   */
  predicate SoundEmit(e: Emit, scanned: seq<Byte>)
  {
    e.keyword != [] && e.interval.end < |scanned| && e.interval.start + |e.keyword| == e.interval.end + 1
    && scanned[e.interval.start..e.interval.end + 1] == e.keyword
  }

  /** The numbers below `n`. */
  ghost function Range(n: nat): (r: set<nat>)
    ensures forall x: nat :: x in r <==> x < n
  {
    if n == 0 then {} else Range(n - 1) + {n - 1}
  }

  /** An entry whose keyword ends the scanned text up to `pos` gives a sound emit ending at `pos`. */
  lemma EmitSound(pos: nat, e: KeyIndex, scanned: seq<Byte>)
    requires pos < |scanned| < Two64 && e.keyword != [] && IsSuffix(e.keyword, scanned[..pos + 1])
    ensures SoundEmit(EmitAt(pos, e), scanned) && EmitAt(pos, e).interval.end == pos
  {
    assert scanned[pos + 1 - |e.keyword|..pos + 1] == scanned[..pos + 1][pos + 1 - |e.keyword|..];
  }

  /** The value of a byte read as a signed `char`, as on targets where `char` is signed. */
  function SignedValue(b: Byte): (v: int)
    ensures -128 <= v < 128 && (v < 0 <==> b >= 128) && v % 256 == b as int
  {
    if b < 128 then b as int else b as int - 256
  }

  /** A byte with the least signed value exists: search upward from `lo`, below which there is none. */
  lemma {:induction false} MinExists(keys: set<Byte>, lo: int)
    requires keys != {} && -128 <= lo <= 128 && forall d :: d in keys ==> lo <= SignedValue(d)
    ensures exists m :: m in keys && forall d :: d in keys ==> SignedValue(m) <= SignedValue(d)
    decreases 128 - lo
  {
    var x :| x in keys;
    if exists d :: d in keys && SignedValue(d) == lo {
      var d :| d in keys && SignedValue(d) == lo;
      assert forall e :: e in keys ==> SignedValue(d) <= SignedValue(e);
    } else {
      assert SignedValue(x) < 128;
      MinExists(keys, lo + 1);
    }
  }

  /**
   * The first key of a child map in `std::map<char>` order: with a signed
   * `char` the bytes 0x80..0xFF (negative) come before 0x00..0x7F.
   */
  method SmallestKey(keys: set<Byte>) returns (c: Byte)
    requires keys != {}
    ensures c in keys && forall d :: d in keys ==> SignedValue(c) <= SignedValue(d)
  {
    MinExists(keys, -128);
    c :| c in keys && forall d :: d in keys ==> SignedValue(c) <= SignedValue(d);
  }

  /** Every state's emits in `after` include those it had in `before`. */
  ghost predicate EmitsGrow(before: seq<set<KeyIndex>>, after: seq<set<KeyIndex>>)
  {
    |before| == |after| && forall s :: 0 <= s < |before| ==> before[s] <= after[s]
  }

  lemma EmitsGrowTransitive(a: seq<set<KeyIndex>>, b: seq<set<KeyIndex>>, c: seq<set<KeyIndex>>)
    requires EmitsGrow(a, b) && EmitsGrow(b, c)
    ensures EmitsGrow(a, c)
  {
  }

  /**
   * `order` lists, without repeats, the entries of `all` taken so far, and
   * `rest` holds the others.
   */
  ghost predicate Drained(order: seq<KeyIndex>, rest: set<KeyIndex>, all: set<KeyIndex>)
  {
    (forall e :: e in all <==> e in order || e in rest)
    && (forall e :: e in order ==> e !in rest)
    && |order| + |rest| == |all|
    && (forall i, j :: 0 <= i < j < |order| ==> order[i] != order[j])
  }

  /** Taking one more entry out of `rest` keeps `order` free of repeats. */
  lemma DrainStep(order: seq<KeyIndex>, rest: set<KeyIndex>, all: set<KeyIndex>, e: KeyIndex)
    requires Drained(order, rest, all) && e in rest
    ensures Drained(order + [e], rest - {e}, all)
  {
    var order' := order + [e];
    forall i, j | 0 <= i < j < |order'| ensures order'[i] != order'[j] {
      if j == |order| {
        assert order'[i] == order[i];
      }
    }
  }

  /** `basic_trie<char>` with its states. */
  class Trie {
    var depth: seq<nat>
    var success: seq<map<Byte, nat>>
    var failure: seq<Option<nat>>
    var emits: seq<set<KeyIndex>>
    var numKeywords: nat
    var constructedFailureStates: bool
    const caseInsensitive: bool
    ghost var path: seq<seq<Byte>>
    ghost var parent: seq<nat>
    ghost var parentChar: seq<Byte>

    ghost predicate Sized()
      reads this`depth, this`success, this`path, this`parent, this`parentChar
    {
      |depth| >= 1 && |success| == |depth| && |path| == |depth| && |parent| == |depth| && |parentChar| == |depth|
    }

    /** Every child edge leads to a later, non-root state whose parent is this state through this byte. */
    ghost predicate EdgeOk(s: nat, c: Byte)
      reads this`depth, this`success, this`path, this`parent, this`parentChar
      requires Sized() && s < |depth| && c in success[s]
    {
      var t := success[s][c];
      0 < t < |depth| && parent[t] == s && parentChar[t] == c
    }

    /** Every non-root state hangs below an earlier state: one byte longer path, one level deeper. */
    ghost predicate ParentOk(t: nat)
      reads this`depth, this`success, this`path, this`parent, this`parentChar
      requires Sized() && 0 < t < |depth|
    {
      var p := parent[t];
      p < t && parentChar[t] in success[p] && success[p][parentChar[t]] == t
      && path[t] == path[p] + [parentChar[t]] && depth[t] == depth[p] + 1
    }

    /** The shape of the trie: a tree rooted at state 0, labels of length `depth`, no two states with one path. */
    ghost predicate Skeleton()
      reads this`depth, this`success, this`path, this`parent, this`parentChar
    {
      Sized() && depth[0] == 0 && path[0] == []
      && (forall s, c :: 0 <= s < |depth| && c in success[s] ==> EdgeOk(s, c))
      && (forall t :: 0 < t < |depth| ==> ParentOk(t))
      && (forall s :: 0 <= s < |depth| ==> |path[s]| == depth[s])
    }

    /** A state's emits are non-empty suffixes of its path, numbered below the keyword count. */
    ghost predicate EmitsOkIn(ems: seq<set<KeyIndex>>, s: nat)
      reads this`depth, this`success, this`path, this`parent, this`parentChar, this`numKeywords
      requires Sized() && |ems| == |depth| && s < |depth|
    {
      forall e :: e in ems[s] ==> e.keyword != [] && IsSuffix(e.keyword, path[s]) && e.index < numKeywords
    }

    ghost predicate Structure()
      reads this
    {
      Skeleton() && |failure| == |depth| && |emits| == |depth|
      && forall s :: 0 <= s < |depth| ==> EmitsOkIn(emits, s)
    }

    /** A failure link is set and points to a state whose path is a proper suffix of this one's. */
    ghost predicate FailureOkIn(fail: seq<Option<nat>>, s: nat)
      reads this`depth, this`success, this`path, this`parent, this`parentChar
      requires Sized() && |fail| == |depth| && s < |depth|
    {
      fail[s].Some? && fail[s].value < |depth| && IsProperSuffix(path[fail[s].value], path[s])
    }

    /** The state holds every emit of its failure target. */
    ghost predicate AbsorbedIn(fail: seq<Option<nat>>, ems: seq<set<KeyIndex>>, s: nat)
      reads this`depth, this`success, this`path, this`parent, this`parentChar
      requires Sized() && |fail| == |depth| && |ems| == |depth| && s < |depth| && FailureOkIn(fail, s)
    {
      ems[fail[s].value] <= ems[s]
    }

    ghost predicate FailuresBuilt()
      reads this
      requires Sized() && |failure| == |depth| && |emits| == |depth|
    {
      forall t :: 0 < t < |depth| ==> FailureOkIn(failure, t) && AbsorbedIn(failure, emits, t)
    }

    /** The class invariant: a well-formed trie, with failure links built whenever the flag says so. */
    ghost predicate Valid()
      reads this
    {
      Structure() && (constructedFailureStates ==> FailuresBuilt())
    }

    /** `basic_trie(const config&)`: a root state alone; the default config is case-insensitive. */
    constructor (caseInsensitive: bool)
      ensures Valid() && this.caseInsensitive == caseInsensitive
      ensures |depth| == 1 && numKeywords == 0 && !constructedFailureStates
    {
      depth := [0];
      success := [map[]];
      failure := [None];
      emits := [{}];
      numKeywords := 0;
      constructedFailureStates := false;
      this.caseInsensitive := caseInsensitive;
      path := [[]];
      parent := [0];
      parentChar := [0];
    }

    /** `getNumKeywords`. */
    function GetNumKeywords(): nat
      reads this
    {
      numKeywords
    }

    /**
     * `state::next_state(c)`: the child through `c`; with no such child the
     * root answers itself and every other state answers null.
     */
    function Next(s: nat, c: Byte): (r: Option<nat>)
      reads this`depth, this`success, this`path, this`parent, this`parentChar
      requires Skeleton() && s < |depth|
      ensures s == 0 ==> r.Some?
      ensures r.Some? ==> r.value < |depth|
    {
      if c in success[s] then Some(success[s][c]) else if s == 0 then Some(0) else None
    }

    // Lemmas about the shape.

    lemma RootOnlyAtDepthZero(t: nat)
      requires Skeleton() && 0 < t < |depth|
      ensures depth[t] >= 1 && path[t] != []
    {
      assert ParentOk(t);
    }

    /** No two states share a path: a path fixes its parent's path and the last byte, and a child map holds one state per byte. */
    lemma {:induction false} PathsDiffer(s: nat, t: nat)
      requires Skeleton() && s < |depth| && t < |depth| && path[s] == path[t]
      ensures s == t
      decreases depth[s]
    {
      if s != 0 && t != 0 {
        assert ParentOk(s) && ParentOk(t);
        var n := |path[s]| - 1;
        assert path[s][..n] == path[parent[s]] && path[s][n] == parentChar[s];
        assert path[t][..n] == path[parent[t]] && path[t][n] == parentChar[t];
        PathsDiffer(parent[s], parent[t]);
      } else if s != 0 {
        RootOnlyAtDepthZero(s);
      } else if t != 0 {
        RootOnlyAtDepthZero(t);
      }
    }

    /** A state labelled with some path plus one byte is the child through that byte. */
    lemma ChildByLabel(s: nat, c: Byte, u: nat)
      requires Skeleton() && s < |depth| && u < |depth| && path[u] == path[s] + [c]
      ensures c in success[s] && success[s][c] == u
    {
      assert u != 0;
      assert ParentOk(u);
      var p := parent[u];
      assert path[u][..|path[u]| - 1] == path[p] && path[u][|path[u]| - 1] == parentChar[u];
      assert path[u][..|path[u]| - 1] == path[s] && path[u][|path[u]| - 1] == c;
      PathsDiffer(p, s);
    }

    /** Every prefix of a state's path is itself the path of a state. */
    lemma {:induction false} PrefixState(t: nat, i: nat)
      requires Skeleton() && t < |depth| && i <= |path[t]|
      ensures exists u :: 0 <= u < |depth| && path[u] == path[t][..i]
      decreases t
    {
      if i == |path[t]| {
        assert path[t][..i] == path[t];
      } else {
        assert t != 0;
        assert ParentOk(t);
        var p := parent[t];
        assert path[t][..i] == path[p][..i];
        PrefixState(p, i);
      }
    }

    lemma DepthOneFailsToRoot(t: nat)
      requires Valid() && constructedFailureStates && 0 < t < |depth| && depth[t] == 1
      ensures failure[t] == Some(0)
    {
      assert FailureOkIn(failure, t);
      var f := failure[t].value;
      if f != 0 {
        RootOnlyAtDepthZero(f);
      }
    }

    lemma RootHasNoEmits(ems: seq<set<KeyIndex>>)
      requires Skeleton() && |ems| == |depth| && EmitsOkIn(ems, 0)
      ensures ems[0] == {}
    {
    }

    // Insertion.

    /**
     * `state::add_state(c)`: the existing child through `c`, or a new state
     * one level deeper, hung below `cur`.
     */
    method AddState(cur: nat, c: Byte) returns (next: nat)
      requires Structure() && cur < |depth|
      modifies this
      ensures Structure() && |depth| >= old(|depth|)
      ensures next < |depth| && c in success[cur] && success[cur][c] == next && path[next] == old(path[cur]) + [c]
      ensures old(c in success[cur]) ==>
        depth == old(depth) && success == old(success) && failure == old(failure) && emits == old(emits)
        && path == old(path) && parent == old(parent) && parentChar == old(parentChar)
      ensures !old(c in success[cur]) ==>
        next == old(|depth|) && depth == old(depth) + [old(depth[cur]) + 1]
        && success == (old(success) + [map[]])[cur := old(success[cur])[c := next]]
        && failure == old(failure) + [None] && emits == old(emits) + [{}]
        && path == old(path) + [old(path[cur]) + [c]]
        && parent == old(parent) + [cur] && parentChar == old(parentChar) + [c]
      ensures numKeywords == old(numKeywords) && constructedFailureStates == old(constructedFailureStates)
    {
      if c in success[cur] {
        next := success[cur][c];
        assert EdgeOk(cur, c) && ParentOk(next);
      } else {
        next := |depth|;
        depth := depth + [depth[cur] + 1];
        success := (success + [map[]])[cur := success[cur][c := next]];
        failure := failure + [None];
        emits := emits + [{}];
        path := path + [path[cur] + [c]];
        parent := parent + [cur];
        parentChar := parentChar + [c];
        GrowKeepsStructure(cur);
      }
    }

    /**
     * Hanging a new state below `cur` through a byte it has no edge for
     * keeps the structure; the byte is the new state's `parentChar`.
     */
    twostate lemma GrowKeepsStructure(cur: nat)
      requires old(Structure()) && cur < old(|depth|)
      requires parent == old(parent) + [cur] && |parentChar| == |parent| && parentChar[..old(|depth|)] == old(parentChar)
      requires parentChar[old(|depth|)] !in old(success[cur])
      requires numKeywords == old(numKeywords)
      requires depth == old(depth) + [old(depth[cur]) + 1]
      requires success == (old(success) + [map[]])[cur := old(success[cur])[parentChar[old(|depth|)] := old(|depth|)]]
      requires failure == old(failure) + [None] && emits == old(emits) + [{}]
      requires path == old(path) + [old(path[cur]) + [parentChar[old(|depth|)]]]
      ensures Structure()
    {
      var c := parentChar[old(|depth|)];
      assert parentChar == old(parentChar) + [c];
      var next := old(|depth|);
      forall s | 0 <= s < |depth| ensures EmitsOkIn(emits, s) {
        if s < next {
          assert old(EmitsOkIn(emits, s));
        }
      }
      forall t | 0 < t < |depth| ensures ParentOk(t) {
        if t < next {
          assert old(ParentOk(t));
        }
      }
      forall s, d | 0 <= s < |depth| && d in success[s] ensures EdgeOk(s, d) {
        if s < next && !(s == cur && d == c) {
          assert old(EdgeOk(s, d));
        }
      }
    }

    /** Emits of the states before `n`, and none for the states added after them. */
    ghost function EmitsBefore(oldEmits: seq<set<KeyIndex>>, s: nat): set<KeyIndex>
    {
      if s < |oldEmits| then oldEmits[s] else {}
    }

    /**
     * The loop of `insert`: `add_state` for each byte of the keyword, from
     * the root. It ends at the state whose path is the keyword; existing
     * states keep their paths, edges and emits, new ones have no emits, and
     * when some state already had that path no state is added.
     */
    method InsertPath(keyword: seq<Byte>) returns (cur: nat)
      requires Structure()
      modifies this
      ensures Structure() && cur < |depth| && path[cur] == keyword
      ensures numKeywords == old(numKeywords) && constructedFailureStates == old(constructedFailureStates)
      ensures |depth| >= old(|depth|) && depth[..old(|depth|)] == old(depth) && path[..old(|depth|)] == old(path)
      ensures forall s :: 0 <= s < |depth| ==> emits[s] == EmitsBefore(old(emits), s)
      ensures forall s, c :: 0 <= s < old(|success|) && c in old(success[s]) ==> c in success[s] && success[s][c] == old(success[s][c])
      ensures old(exists t :: 0 <= t < |path| && path[t] == keyword) ==> |depth| == old(|depth|)
    {
      ghost var present := exists t :: 0 <= t < |path| && path[t] == keyword;
      cur := 0;
      for i := 0 to |keyword|
        invariant Structure() && cur < |depth| && path[cur] == keyword[..i]
        invariant numKeywords == old(numKeywords) && constructedFailureStates == old(constructedFailureStates)
        invariant |depth| >= old(|depth|) && depth[..old(|depth|)] == old(depth) && path[..old(|depth|)] == old(path)
        invariant forall s :: 0 <= s < |depth| ==> emits[s] == EmitsBefore(old(emits), s)
        invariant forall s, c :: 0 <= s < old(|success|) && c in old(success[s]) ==> c in success[s] && success[s][c] == old(success[s][c])
        invariant present ==> |depth| == old(|depth|) && path == old(path)
      {
        if present {
          var t :| 0 <= t < |path| && path[t] == keyword;
          PrefixState(t, i + 1);
          var u :| 0 <= u < |depth| && path[u] == path[t][..i + 1];
          assert path[u] == path[cur] + [keyword[i]];
          ChildByLabel(cur, keyword[i], u);
        }
        cur := AddState(cur, keyword[i]);
        assert path[cur] == keyword[..i + 1];
      }
      assert keyword[..|keyword|] == keyword;
    }

    /**
     * `insert(keyword)`: the empty keyword changes nothing. Otherwise the
     * path of the keyword is followed, adding missing states, the state
     * reached gains the emit (keyword, keyword count), the count grows by
     * one and the failure links are marked stale. Existing states, edges
     * and labels are kept; a keyword already in the trie adds no state.
     */
    method Insert(keyword: seq<Byte>)
      requires Valid()
      modifies this
      ensures Valid()
      ensures keyword == [] ==>
        depth == old(depth) && success == old(success) && failure == old(failure) && emits == old(emits)
        && numKeywords == old(numKeywords) && constructedFailureStates == old(constructedFailureStates)
      ensures keyword != [] ==> numKeywords == old(numKeywords) + 1 && !constructedFailureStates
      ensures keyword != [] ==> exists t :: 0 <= t < |depth| && path[t] == keyword && depth[t] == |keyword|
      ensures keyword != [] ==> forall s :: 0 <= s < |depth| ==>
        emits[s] == EmitsBefore(old(emits), s) + (if path[s] == keyword then {KeyIndex(keyword, old(numKeywords))} else {})
      ensures |depth| >= old(|depth|) && depth[..old(|depth|)] == old(depth) && path[..old(|depth|)] == old(path)
      ensures forall s, c :: 0 <= s < old(|success|) && c in old(success[s]) ==> c in success[s] && success[s][c] == old(success[s][c])
      ensures old(exists t :: 0 <= t < |path| && path[t] == keyword) ==> |depth| == old(|depth|)
    {
      if keyword == [] {
        return;
      }
      var cur := InsertPath(keyword);
      label Reached:
      var entry := KeyIndex(keyword, numKeywords);
      emits := emits[cur := emits[cur] + {entry}];
      numKeywords := numKeywords + 1;
      constructedFailureStates := false;
      AddEmitKeepsStructure@Reached(cur);
      forall s | 0 <= s < |depth| && path[s] == keyword
        ensures s == cur
      {
        PathsDiffer(s, cur);
      }
    }

    /**
     * Giving the state reached by a keyword the emit (keyword, keyword
     * count) and counting the keyword keeps the structure.
     */
    twostate lemma AddEmitKeepsStructure(cur: nat)
      requires old(Structure()) && cur < old(|depth|) && old(path[cur]) != []
      requires depth == old(depth) && success == old(success) && failure == old(failure)
      requires path == old(path) && parent == old(parent) && parentChar == old(parentChar)
      requires numKeywords == old(numKeywords) + 1
      requires emits == old(emits)[cur := old(emits[cur]) + {KeyIndex(old(path[cur]), old(numKeywords))}]
      ensures Structure()
    {
      forall s | 0 <= s < |depth| ensures EmitsOkIn(emits, s) {
        assert old(EmitsOkIn(emits, s));
      }
    }

    // The failure links.

    /** A state that needs no further work: the root, a processed state, or one in the queue. */
    ghost predicate Settled(x: nat, q: seq<nat>, done: set<nat>)
    {
      x == 0 || x in done || x in q
    }

    /** The queue holds distinct unprocessed states, by non-decreasing depth, spanning at most two levels. */
    ghost predicate QueueOk(q: seq<nat>, done: set<nat>)
      reads this`depth, this`success, this`path, this`parent, this`parentChar
      requires Sized()
    {
      (forall i :: 0 <= i < |q| ==> 0 < q[i] < |depth| && q[i] !in done)
      && (forall s :: s in done ==> 0 < s < |depth|)
      && (forall i, j :: 0 <= i < j < |q| ==> depth[q[i]] <= depth[q[j]] && q[i] != q[j])
      && (forall i :: 0 <= i < |q| ==> depth[q[i]] <= depth[q[0]] + 1)
    }

    /** Every settled state but the root has a sound failure link to a settled state, and holds that state's emits. */
    ghost predicate LinksOk(q: seq<nat>, done: set<nat>, fail: seq<Option<nat>>, ems: seq<set<KeyIndex>>)
      reads this`depth, this`success, this`path, this`parent, this`parentChar
      requires Sized() && |fail| == |depth| && |ems| == |depth|
    {
      forall s :: 0 < s < |depth| && Settled(s, q, done) ==>
        FailureOkIn(fail, s) && AbsorbedIn(fail, ems, s)
        && (fail[s].value == 0 || fail[s].value in done || fail[s].value in q)
    }

    /** Children of the root and of processed states are processed or queued. */
    ghost predicate Enqueued(q: seq<nat>, done: set<nat>)
      reads this`depth, this`success, this`path, this`parent, this`parentChar
      requires Sized()
    {
      forall t :: 0 < t < |depth| && (parent[t] == 0 || parent[t] in done) ==> t in done || t in q
    }

    /**
     * Processed states are children of the root or of processed states;
     * queued ones may also be children of the state being expanded.
     */
    ghost predicate Origin(q: seq<nat>, done: set<nat>, expanding: nat)
      reads this`depth, this`success, this`path, this`parent, this`parentChar
      requires Sized()
    {
      (forall t :: 0 < t < |depth| && t in done ==> parent[t] == 0 || parent[t] in done)
      && (forall t :: 0 < t < |depth| && t in q ==> parent[t] == 0 || parent[t] in done || parent[t] == expanding)
    }

    /** Every state shallower than the front of the queue has been processed. */
    ghost predicate Levels(q: seq<nat>, done: set<nat>)
      reads this`depth, this`success, this`path, this`parent, this`parentChar
      requires Sized() && (|q| > 0 ==> q[0] < |depth|)
    {
      |q| > 0 ==> forall t :: 0 < t < |depth| && depth[t] < depth[q[0]] ==> t in done
    }

    ghost predicate EmitsAllOk(ems: seq<set<KeyIndex>>)
      reads this`depth, this`success, this`path, this`parent, this`parentChar, this`numKeywords
      requires Sized()
    {
      |ems| == |depth| && forall s :: 0 <= s < |depth| ==> EmitsOkIn(ems, s)
    }

    /**
     * The breadth-first pass's invariant over the queue `q`, the set `done`
     * of states taken off it, the failure links and emits built so far, and
     * the state whose children are being linked (0 between two turns).
     */
    ghost predicate BfsInv(q: seq<nat>, done: set<nat>, fail: seq<Option<nat>>, ems: seq<set<KeyIndex>>, expanding: nat)
      reads this`depth, this`success, this`path, this`parent, this`parentChar, this`numKeywords
      requires Skeleton()
    {
      |fail| == |depth| && EmitsAllOk(ems) && QueueOk(q, done) && LinksOk(q, done, fail, ems)
      && Enqueued(q, done) && Origin(q, done, expanding) && Levels(q, done)
    }

    /**
     * The failure-following loop for the child of the front state `cur`
     * through `c`: from `cur`'s failure target, follow failure links until a
     * state has a transition on `c` (the root always has one).
     */
    method FollowFailure(q: seq<nat>, done: set<nat>, fail: seq<Option<nat>>, ems: seq<set<KeyIndex>>, c: Byte)
      returns (newFailure: nat)
      requires Skeleton() && |q| > 0 && BfsInv(q, done, fail, ems, q[0]) && c in success[q[0]]
      ensures newFailure < |depth| && IsProperSuffix(path[newFailure], path[q[0]] + [c])
      ensures Settled(newFailure, q, done)
    {
      var cur := q[0];
      assert Settled(cur, q, done);
      var trace: nat := fail[cur].value;
      var next := Next(trace, c);
      while next.None?
        invariant trace < |depth| && IsProperSuffix(path[trace], path[cur])
        invariant trace == 0 || trace in done
        invariant next == Next(trace, c)
        decreases depth[trace]
      {
        assert Settled(trace, q, done);
        ghost var prev := trace;
        trace := fail[trace].value;
        SuffixTransitive(path[trace], path[prev], path[cur]);
        if trace != 0 {
          RootOnlyAtDepthZero(trace);
        }
        next := Next(trace, c);
      }
      newFailure := next.value;
      if c in success[trace] {
        assert EdgeOk(trace, c) && ParentOk(newFailure);
        SuffixExtend(path[trace], path[cur], c);
      }
    }

    lemma QueueGrows(q: seq<nat>, done: set<nat>, target: nat)
      requires Sized() && QueueOk(q, done) && |q| > 0
      requires 0 < target < |depth| && target !in done && target !in q && depth[target] == depth[q[0]] + 1
      ensures QueueOk(q + [target], done)
    {
    }

    lemma EmitsAbsorbed(ems: seq<set<KeyIndex>>, target: nat, from: nat)
      requires Sized() && EmitsAllOk(ems) && target < |depth| && from < |depth| && IsSuffix(path[from], path[target])
      ensures EmitsAllOk(ems[target := ems[target] + ems[from]])
    {
      var ems' := ems[target := ems[target] + ems[from]];
      forall s | 0 <= s < |depth| ensures EmitsOkIn(ems', s) {
        if s == target {
          forall e | e in ems[from] ensures IsSuffix(e.keyword, path[target]) {
            assert EmitsOkIn(ems, from);
            SuffixTransitive(e.keyword, path[from], path[target]);
          }
          assert EmitsOkIn(ems, target) && EmitsOkIn(ems, from);
        } else {
          assert EmitsOkIn(ems, s);
        }
      }
    }

    lemma LinksGrow(q: seq<nat>, done: set<nat>, fail: seq<Option<nat>>, ems: seq<set<KeyIndex>>, target: nat, newFailure: nat)
      requires Sized() && |fail| == |depth| && |ems| == |depth| && LinksOk(q, done, fail, ems)
      requires 0 < target < |depth| && !Settled(target, q, done)
      requires newFailure < |depth| && IsProperSuffix(path[newFailure], path[target]) && Settled(newFailure, q, done)
      ensures LinksOk(q + [target], done, fail[target := Some(newFailure)], ems[target := ems[target] + ems[newFailure]])
    {
      var q', fail', ems' := q + [target], fail[target := Some(newFailure)], ems[target := ems[target] + ems[newFailure]];
      forall s | 0 < s < |depth| && Settled(s, q', done)
        ensures FailureOkIn(fail', s) && AbsorbedIn(fail', ems', s)
          && (fail'[s].value == 0 || fail'[s].value in done || fail'[s].value in q')
      {
        if s != target {
          assert Settled(s, q, done);
          assert FailureOkIn(fail, s) && AbsorbedIn(fail, ems, s);
          assert fail[s].value != target;
        }
      }
    }

    /** One turn of the transition loop: the child through `c` is queued and gets its failure link and emits. */
    method LinkChild(q: seq<nat>, done: set<nat>, fail: seq<Option<nat>>, ems: seq<set<KeyIndex>>, c: Byte)
      returns (q': seq<nat>, fail': seq<Option<nat>>, ems': seq<set<KeyIndex>>)
      requires Skeleton() && |q| > 0 && BfsInv(q, done, fail, ems, q[0]) && c in success[q[0]]
      requires success[q[0]][c] !in q
      ensures BfsInv(q', done, fail', ems', q[0]) && q' == q + [success[q[0]][c]]
      ensures EmitsGrow(ems, ems')
    {
      var cur := q[0];
      var target := success[cur][c];
      assert EdgeOk(cur, c) && ParentOk(target);
      assert target !in done;
      var newFailure := FollowFailure(q, done, fail, ems, c);
      q' := q + [target];
      fail' := fail[target := Some(newFailure)];
      ems' := ems[target := ems[target] + ems[newFailure]];
      QueueGrows(q, done, target);
      EmitsAbsorbed(ems, target, newFailure);
      LinksGrow(q, done, fail, ems, target, newFailure);
      assert Origin(q', done, cur);
      assert Enqueued(q', done);
      assert Levels(q', done);
    }

    /** At the start of a turn the front state may be expanded: none of its children is queued yet. */
    lemma ExpandFront(q: seq<nat>, done: set<nat>, fail: seq<Option<nat>>, ems: seq<set<KeyIndex>>)
      requires Skeleton() && |q| > 0 && BfsInv(q, done, fail, ems, 0)
      ensures BfsInv(q, done, fail, ems, q[0])
      ensures forall c :: c in success[q[0]] ==> success[q[0]][c] !in q
    {
      forall c | c in success[q[0]] ensures success[q[0]][c] !in q {
        assert EdgeOk(q[0], c);
      }
    }

    /**
     * One turn of the queue loop: every transition of the front state, in
     * increasing byte order, links its child; then the front is popped.
     */
    method ProcessFront(q: seq<nat>, done: set<nat>, fail: seq<Option<nat>>, ems: seq<set<KeyIndex>>)
      returns (q': seq<nat>, done': set<nat>, fail': seq<Option<nat>>, ems': seq<set<KeyIndex>>)
      requires Skeleton() && |q| > 0 && BfsInv(q, done, fail, ems, 0)
      ensures BfsInv(q', done', fail', ems', 0) && done' == done + {q[0]} && q[0] !in done
      ensures EmitsGrow(ems, ems')
    {
      var cur := q[0];
      ExpandFront(q, done, fail, ems);
      var transitions := success[cur].Keys;
      var queue, links, found := q, fail, ems;
      while transitions != {}
        invariant transitions <= success[cur].Keys
        invariant |queue| > 0 && queue[0] == cur && BfsInv(queue, done, links, found, cur)
        invariant ChildrenSplit(cur, transitions, queue)
        invariant EmitsGrow(ems, found)
        decreases transitions
      {
        var c := SmallestKey(transitions);
        ghost var before, grown := queue, found;
        queue, links, found := LinkChild(queue, done, links, found, c);
        ChildLinked(cur, transitions, before, c);
        EmitsGrowTransitive(ems, grown, found);
        transitions := transitions - {c};
      }
      PopFront(queue, done, links, found);
      q', done', fail', ems' := queue[1..], done + {cur}, links, found;
    }

    /** The children of `cur` through `transitions` are not queued yet; those through its other bytes are. */
    ghost predicate ChildrenSplit(cur: nat, transitions: set<Byte>, queue: seq<nat>)
      reads this`depth, this`success, this`path, this`parent, this`parentChar
      requires Sized() && cur < |depth|
    {
      (forall c :: c in success[cur] && c !in transitions ==> success[cur][c] in queue)
      && (forall c :: c in transitions && c in success[cur] ==> success[cur][c] !in queue)
    }

    /** Queuing the child through `c` moves `c` from the pending bytes to the linked ones. */
    lemma ChildLinked(cur: nat, transitions: set<Byte>, queue: seq<nat>, c: Byte)
      requires Skeleton() && cur < |depth| && transitions <= success[cur].Keys && c in transitions
      requires ChildrenSplit(cur, transitions, queue)
      ensures ChildrenSplit(cur, transitions - {c}, queue + [success[cur][c]])
    {
      forall d | d in transitions - {c} ensures success[cur][d] != success[cur][c] {
        assert EdgeOk(cur, d) && EdgeOk(cur, c);
      }
    }

    /** Once every child of the front is queued, popping it keeps the invariant. */
    lemma PopFront(q: seq<nat>, done: set<nat>, fail: seq<Option<nat>>, ems: seq<set<KeyIndex>>)
      requires Skeleton() && |q| > 0 && BfsInv(q, done, fail, ems, q[0])
      requires ChildrenSplit(q[0], {}, q)
      ensures BfsInv(q[1..], done + {q[0]}, fail, ems, 0)
    {
      PopQueue(q, done);
      PopLinks(q, done, fail, ems);
      PopEnqueued(q, done);
      PopOrigin(q, done);
      PopLevels(q, done);
    }

    lemma PopQueue(q: seq<nat>, done: set<nat>)
      requires Sized() && QueueOk(q, done) && |q| > 0
      ensures QueueOk(q[1..], done + {q[0]})
    {
      var q' := q[1..];
      forall i | 0 <= i < |q'| ensures q'[i] != q[0] && depth[q'[i]] <= depth[q'[0]] + 1 {
        assert q'[i] == q[i + 1];
        if i > 0 {
          assert q'[0] == q[1];
        }
      }
      forall i, j | 0 <= i < j < |q'| ensures depth[q'[i]] <= depth[q'[j]] && q'[i] != q'[j] {
        assert q'[i] == q[i + 1] && q'[j] == q[j + 1];
      }
    }

    lemma PopLinks(q: seq<nat>, done: set<nat>, fail: seq<Option<nat>>, ems: seq<set<KeyIndex>>)
      requires Sized() && |fail| == |depth| && |ems| == |depth| && QueueOk(q, done) && LinksOk(q, done, fail, ems) && |q| > 0
      ensures LinksOk(q[1..], done + {q[0]}, fail, ems)
    {
      forall x ensures Settled(x, q[1..], done + {q[0]}) <==> Settled(x, q, done) {
        if x in q {
          var i :| 0 <= i < |q| && q[i] == x;
          if i > 0 {
            assert q[1..][i - 1] == x;
          }
        }
      }
    }

    lemma PopEnqueued(q: seq<nat>, done: set<nat>)
      requires Skeleton() && QueueOk(q, done) && Enqueued(q, done) && |q| > 0
      requires forall c :: c in success[q[0]] ==> success[q[0]][c] in q
      ensures Enqueued(q[1..], done + {q[0]})
    {
      var q', done' := q[1..], done + {q[0]};
      forall t | 0 < t < |depth| && (parent[t] == 0 || parent[t] in done')
        ensures t in done' || t in q'
      {
        if parent[t] == q[0] {
          assert ParentOk(t);
          assert EdgeOk(q[0], parentChar[t]);
        }
        if t != q[0] && t in q {
          var i :| 0 <= i < |q| && q[i] == t;
          assert q'[i - 1] == t;
        }
      }
    }

    lemma PopOrigin(q: seq<nat>, done: set<nat>)
      requires Skeleton() && |q| > 0 && QueueOk(q, done) && Origin(q, done, q[0])
      ensures Origin(q[1..], done + {q[0]}, 0)
    {
      assert ParentOk(q[0]);
    }

    lemma PopLevels(q: seq<nat>, done: set<nat>)
      requires Skeleton() && |q| > 0 && QueueOk(q, done) && Levels(q, done) && Enqueued(q, done) && Origin(q, done, q[0])
      ensures Levels(q[1..], done + {q[0]})
    {
      var cur := q[0];
      var q', done' := q[1..], done + {cur};
      if |q'| > 0 {
        assert q'[0] == q[1] && depth[q[1]] <= depth[q[0]] + 1;
        forall t | 0 < t < |depth| && depth[t] < depth[q'[0]] ensures t in done' {
          assert ParentOk(t);
          var p := parent[t];
          if p != 0 {
            RootOnlyAtDepthZero(p);
          }
          assert p == 0 || p in done;
          assert t in done || t in q;
          assert forall j :: 1 <= j < |q| ==> depth[q'[0]] <= depth[q[j]];
        }
      }
    }

    /** Once the queue is empty, every state has been processed. */
    lemma AllDone(done: set<nat>, fail: seq<Option<nat>>, ems: seq<set<KeyIndex>>)
      requires Skeleton() && BfsInv([], done, fail, ems, 0)
      ensures forall t :: 0 < t < |depth| ==> t in done
    {
      forall t | 0 < t < |depth| ensures t in done {
        DoneByIndex(done, t);
      }
    }

    lemma {:induction false} DoneByIndex(done: set<nat>, t: nat)
      requires Skeleton() && Enqueued([], done) && 0 < t < |depth|
      ensures t in done
      decreases t
    {
      assert ParentOk(t);
      if parent[t] != 0 {
        DoneByIndex(done, parent[t]);
      }
    }

    /** The first part of `construct_failure_states`: the root's children, in byte order, fail to the root and fill the queue. */
    method RootLinks() returns (q: seq<nat>, fail: seq<Option<nat>>)
      requires Structure()
      ensures BfsInv(q, {}, fail, emits, 0)
    {
      q, fail := RootQueue();
      RootStart(q, fail);
    }

    /** The loop over the root's transitions. */
    method RootQueue() returns (q: seq<nat>, fail: seq<Option<nat>>)
      requires Skeleton() && |failure| == |depth|
      ensures |fail| == |depth|
      ensures forall i :: 0 <= i < |q| ==> 0 < q[i] < |depth| && depth[q[i]] == 1 && parent[q[i]] == 0
      ensures forall i, j :: 0 <= i < j < |q| ==> q[i] != q[j]
      ensures forall c :: c in success[0] ==> success[0][c] in q
      ensures forall s :: 0 < s < |depth| && s in q ==> fail[s] == Some(0)
    {
      fail := failure;
      q := [];
      var rootTransitions := success[0].Keys;
      while rootTransitions != {}
        invariant rootTransitions <= success[0].Keys
        invariant |fail| == |depth|
        invariant forall i :: 0 <= i < |q| ==> 0 < q[i] < |depth| && depth[q[i]] == 1 && parent[q[i]] == 0
        invariant forall i, j :: 0 <= i < j < |q| ==> q[i] != q[j]
        invariant forall c :: c in success[0] && c !in rootTransitions ==> success[0][c] in q
        invariant forall c :: c in rootTransitions ==> success[0][c] !in q
        invariant forall s :: 0 < s < |depth| && s in q ==> fail[s] == Some(0)
        decreases rootTransitions
      {
        var c := SmallestKey(rootTransitions);
        var child := success[0][c];
        assert EdgeOk(0, c) && ParentOk(child);
        fail := fail[child := Some(0)];
        q := q + [child];
        rootTransitions := rootTransitions - {c};
        forall d | d in rootTransitions ensures success[0][d] !in q {
          assert EdgeOk(0, d);
        }
      }
    }

    /** After the root's children are queued, the breadth-first invariant holds with nothing processed. */
    lemma RootStart(q: seq<nat>, fail: seq<Option<nat>>)
      requires Structure() && |fail| == |depth|
      requires forall i :: 0 <= i < |q| ==> 0 < q[i] < |depth| && depth[q[i]] == 1 && parent[q[i]] == 0
      requires forall i, j :: 0 <= i < j < |q| ==> q[i] != q[j]
      requires forall c :: c in success[0] ==> success[0][c] in q
      requires forall s :: 0 < s < |depth| && s in q ==> fail[s] == Some(0)
      ensures BfsInv(q, {}, fail, emits, 0)
    {
      RootHasNoEmits(emits);
      forall t | 0 < t < |depth| && t in q ensures FailureOkIn(fail, t) && AbsorbedIn(fail, emits, t) {
        RootOnlyAtDepthZero(t);
      }
      forall t | 0 < t < |depth| && parent[t] == 0 ensures t in q {
        assert ParentOk(t);
        assert EdgeOk(0, parentChar[t]);
      }
      forall t | 0 < t < |depth| ensures depth[t] >= 1 {
        RootOnlyAtDepthZero(t);
      }
      assert QueueOk(q, {});
      assert LinksOk(q, {}, fail, emits);
      assert Origin(q, {}, 0);
      assert Levels(q, {});
    }

    /**
     * `construct_failure_states` on copies of the failure links and the
     * emits: after the root's children, each state taken off the queue gives
     * each child its failure link and its failure target's emits, until the
     * queue is empty. Every state then has a sound failure link and holds its
     * target's emits; emits only grow.
     */
    method BuildLinks() returns (fail: seq<Option<nat>>, ems: seq<set<KeyIndex>>)
      requires Structure()
      ensures |fail| == |depth| && EmitsAllOk(ems)
      ensures forall s :: 0 <= s < |depth| ==> emits[s] <= ems[s]
      ensures forall t :: 0 < t < |depth| ==> FailureOkIn(fail, t) && AbsorbedIn(fail, ems, t)
    {
      var q;
      q, fail := RootLinks();
      ems := emits;
      var done: set<nat> := {};
      while q != []
        invariant BfsInv(q, done, fail, ems, 0)
        invariant EmitsGrow(emits, ems)
        decreases Range(|depth|) - done
      {
        ghost var grown := ems;
        q, done, fail, ems := ProcessFront(q, done, fail, ems);
        EmitsGrowTransitive(emits, grown, ems);
      }
      AllDone(done, fail, ems);
      forall t | 0 < t < |depth| ensures FailureOkIn(fail, t) && AbsorbedIn(fail, ems, t) {
        assert Settled(t, q, done);
      }
    }

    /** `construct_failure_states`: only the failure links, the emits and the flag change. */
    method ConstructFailureStates()
      requires Structure()
      modifies this
      ensures Valid() && constructedFailureStates
      ensures depth == old(depth) && success == old(success) && path == old(path)
      ensures numKeywords == old(numKeywords) && parent == old(parent) && parentChar == old(parentChar)
      ensures forall s :: 0 <= s < |emits| ==> old(emits[s]) <= emits[s]
    {
      var fail, ems := BuildLinks();
      failure := fail;
      emits := ems;
      constructedFailureStates := true;

    }

    /** `check_construct_failure_states`: rebuild the failure links when they are stale. */
    method CheckConstructFailureStates()
      requires Valid()
      modifies this
      ensures Valid() && constructedFailureStates
      ensures depth == old(depth) && success == old(success) && path == old(path) && numKeywords == old(numKeywords)
    {
      if !constructedFailureStates {
        ConstructFailureStates();
      }
    }

    // Scanning a text.

    /**
     * `get_state(cur, c)`: the transition on `c`, following failure links
     * while there is none. The state reached is labelled with a suffix of
     * the current path followed by `c`.
     */
    method GetState(cur: nat, c: Byte) returns (result: nat)
      requires Valid() && constructedFailureStates && cur < |depth|
      ensures result < |depth| && IsSuffix(path[result], path[cur] + [c])
    {
      var state: nat := cur;
      var next := Next(state, c);
      while next.None?
        invariant state < |depth| && IsSuffix(path[state], path[cur])
        invariant next == Next(state, c)
        decreases depth[state]
      {
        assert FailureOkIn(failure, state);
        ghost var prev := state;
        state := failure[state].value;
        SuffixTransitive(path[state], path[prev], path[cur]);
        next := Next(state, c);
      }
      result := next.value;
      if c in success[state] {
        assert EdgeOk(state, c);
        assert ParentOk(result);
        SuffixExtend(path[state], path[cur], c);
      }
    }

    /** The emits recorded at `pos` for entries taken in the order `order`. */
    static function EmitsAt(pos: nat, order: seq<KeyIndex>): (r: seq<Emit>)
      ensures |r| == |order|
    {
      seq(|order|, i requires 0 <= i < |order| => EmitAt(pos, order[i]))
    }

    /**
     * `store_emits(pos, cur, collected)`: one emit per entry of the state's
     * emit set, appended after what was collected. `order` is the order the
     * set is enumerated in: each entry exactly once.
     */
    method StoreEmits(pos: nat, cur: nat, collected: seq<Emit>) returns (out: seq<Emit>, ghost order: seq<KeyIndex>)
      requires cur < |emits|
      ensures out == collected + EmitsAt(pos, order)
      ensures |order| == |emits[cur]| && forall e :: e in order <==> e in emits[cur]
      ensures forall i, j :: 0 <= i < j < |order| ==> order[i] != order[j]
    {
      out := collected;
      order := [];
      var rest := emits[cur];
      while rest != {}
        invariant Drained(order, rest, emits[cur])
        invariant out == collected + EmitsAt(pos, order)
        decreases rest
      {
        var e :| e in rest;
        DrainStep(order, rest, emits[cur], e);
        EmitsAtStep(pos, order, e);
        AssocThree(collected, EmitsAt(pos, order), [EmitAt(pos, e)]);
        out := out + [EmitAt(pos, e)];
        order := order + [e];
        rest := rest - {e};
      }
      assert Drained(order, {}, emits[cur]);
    }

    static lemma EmitsAtStep(pos: nat, order: seq<KeyIndex>, e: KeyIndex)
      ensures EmitsAt(pos, order + [e]) == EmitsAt(pos, order) + [EmitAt(pos, e)]
    {
    }

    /** Entries of a state whose path ends the scanned text at `pos` give sound emits ending at `pos`. */
    lemma StoredSound(pos: nat, cur: nat, order: seq<KeyIndex>, scanned: seq<Byte>)
      requires Structure() && cur < |depth| && pos < |scanned| < Two64 && IsSuffix(path[cur], scanned[..pos + 1])
      requires forall e :: e in order ==> e in emits[cur]
      ensures forall k :: 0 <= k < |order| ==> SoundEmit(EmitsAt(pos, order)[k], scanned) && EmitsAt(pos, order)[k].interval.end == pos
    {
      forall k | 0 <= k < |order|
        ensures SoundEmit(EmitAt(pos, order[k]), scanned) && EmitAt(pos, order[k]).interval.end == pos
      {
        assert order[k] in emits[cur];
        assert EmitsOkIn(emits, cur);
        SuffixTransitive(order[k].keyword, path[cur], scanned[..pos + 1]);
        EmitSound(pos, order[k], scanned);
      }
    }

    /** Every collected emit is sound and ends before `bound`. */
    static ghost predicate AllSound(collected: seq<Emit>, scanned: seq<Byte>, bound: nat)
    {
      forall i :: 0 <= i < |collected| ==> SoundEmit(collected[i], scanned) && collected[i].interval.end < bound
    }

    /** The collected emits come in order of their end position. */
    static ghost predicate EndsOrdered(collected: seq<Emit>)
    {
      forall i, j :: 0 <= i < j < |collected| ==> collected[i].interval.end <= collected[j].interval.end
    }

    /** Appending the emits of position `pos` keeps the collection sound and ordered. */
    lemma AppendAt(before: seq<Emit>, pos: nat, cur: nat, order: seq<KeyIndex>, scanned: seq<Byte>)
      requires Structure() && cur < |depth| && pos < |scanned| < Two64 && IsSuffix(path[cur], scanned[..pos + 1])
      requires forall e :: e in order ==> e in emits[cur]
      requires AllSound(before, scanned, pos) && EndsOrdered(before)
      ensures AllSound(before + EmitsAt(pos, order), scanned, pos + 1) && EndsOrdered(before + EmitsAt(pos, order))
    {
      StoredSound(pos, cur, order, scanned);
      var after := before + EmitsAt(pos, order);
      assert forall i :: |before| <= i < |after| ==> after[i] == EmitsAt(pos, order)[i - |before|];
      assert forall i :: 0 <= i < |before| ==> after[i] == before[i];
    }

    /** Following the transition on the next scanned byte keeps the state's path a suffix of the scanned prefix. */
    lemma Advance(prev: nat, cur: nat, pos: nat, scanned: seq<Byte>)
      requires Skeleton() && prev < |depth| && cur < |depth| && pos < |scanned|
      requires IsSuffix(path[prev], scanned[..pos]) && IsSuffix(path[cur], path[prev] + [scanned[pos]])
      ensures IsSuffix(path[cur], scanned[..pos + 1])
    {
      assert scanned[..pos + 1] == scanned[..pos] + [scanned[pos]];
      SuffixExtend(path[prev], scanned[..pos], scanned[pos]);
      SuffixTransitive(path[cur], path[prev] + [scanned[pos]], scanned[..pos + 1]);
    }

    /** The scanning loop of `parse_text`, once the failure links are built. */
    method Scan(text: seq<Byte>) returns (collected: seq<Emit>)
      requires Valid() && constructedFailureStates && |text| < Two64
      ensures forall i :: 0 <= i < |collected| ==> SoundEmit(collected[i], Scanned(text, caseInsensitive))
      ensures forall i, j :: 0 <= i < j < |collected| ==> collected[i].interval.end <= collected[j].interval.end
    {
      ghost var scanned := Scanned(text, caseInsensitive);
      var cur: nat := 0;
      collected := [];
      assert Sized();
      for pos := 0 to |text|
        invariant cur < |depth| == |path| && IsSuffix(path[cur], scanned[..pos])
        invariant AllSound(collected, scanned, pos) && EndsOrdered(collected)
      {
        var c := text[pos];
        if caseInsensitive {
          c := ToLower(c);
        }
        assert c == scanned[pos];
        ghost var prev := cur;
        cur := GetState(cur, c);
        Advance(prev, cur, pos, scanned);
        ghost var before := collected;
        ghost var order;
        collected, order := StoreEmits(pos, cur, collected);
        AppendAt(before, pos, cur, order, scanned);
      }
    }

    /**
     * `parse_text` with the default configuration (overlaps allowed, not
     * only whole words): rebuild stale failure links, then scan. Every emit
     * is found in the scanned text where it says, emits come out in order of
     * their end position, and the trie's states and edges are unchanged.
     */
    method ParseText(text: seq<Byte>) returns (collected: seq<Emit>)
      requires Valid() && |text| < Two64
      modifies this
      ensures Valid() && constructedFailureStates
      ensures depth == old(depth) && success == old(success) && path == old(path) && numKeywords == old(numKeywords)
      ensures forall i :: 0 <= i < |collected| ==> SoundEmit(collected[i], Scanned(text, caseInsensitive))
      ensures forall i, j :: 0 <= i < j < |collected| ==> collected[i].interval.end <= collected[j].interval.end
    {
      CheckConstructFailureStates();
      collected := Scan(text);
    }
  }
}
