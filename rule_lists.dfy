/**
 * The lists of rule numbers kept by the bookkeeping code: the numbers
 * 1..n as `range` produces them, `list.remove` of the first occurrence,
 * and the ascending lists that repeated removals leave behind.
 */
module RuleLists {
  import opened Wrappers

  /** `list(range(lo, hi))`. */
  function Range(lo: nat, hi: nat): (r: seq<nat>)
    ensures |r| == if lo <= hi then hi - lo else 0
    ensures forall k :: 0 <= k < |r| ==> r[k] == lo + k
    decreases hi - lo
  {
    if lo >= hi then [] else [lo] + Range(lo + 1, hi)
  }

  predicate Increasing(xs: seq<nat>)
  {
    forall i, j :: 0 <= i < j < |xs| ==> xs[i] < xs[j]
  }

  lemma RangeIncreasing(lo: nat, hi: nat)
    ensures Increasing(Range(lo, hi))
    ensures forall x :: x in Range(lo, hi) <==> lo <= x < hi
  {
    var r := Range(lo, hi);
    forall x | lo <= x < hi ensures x in r {
      assert r[x - lo] == x;
    }
  }

  /** `xs.remove(x)` for an `x` that occurs: its first occurrence is dropped. */
  function RemoveFirst(xs: seq<nat>, x: nat): (r: seq<nat>)
    requires x in xs
    ensures |r| == |xs| - 1
  {
    if xs[0] == x then xs[1..] else [xs[0]] + RemoveFirst(xs[1..], x)
  }

  /** `if x in xs: xs.remove(x)`. */
  function RemoveIfPresent(xs: seq<nat>, x: nat): seq<nat>
  {
    if x in xs then RemoveFirst(xs, x) else xs
  }

  /** `for x in rules: if x in xs: xs.remove(x)`. */
  function RemoveEach(xs: seq<nat>, rules: seq<nat>): seq<nat>
  {
    if rules == [] then xs
    else RemoveIfPresent(RemoveEach(xs, rules[..|rules| - 1]), rules[|rules| - 1])
  }

  /** The elements of `xs` that are not in `s`, in their order. */
  function Without(xs: seq<nat>, s: set<nat>): (r: seq<nat>)
    ensures |r| <= |xs|
    ensures forall x :: x in r <==> x in xs && x !in s
  {
    if xs == [] then []
    else
      var rest := Without(xs[1..], s);
      assert forall x :: x in xs <==> x == xs[0] || x in xs[1..];
      if xs[0] in s then rest else [xs[0]] + rest
  }

  lemma PrependIncreasing(x: nat, ys: seq<nat>)
    requires Increasing(ys)
    requires forall y :: y in ys ==> x < y
    ensures Increasing([x] + ys)
  {
    var zs := [x] + ys;
    forall i, j | 0 <= i < j < |zs| ensures zs[i] < zs[j] {
      assert zs[j] == ys[j - 1];
      if i > 0 {
        assert zs[i] == ys[i - 1];
      } else {
        assert ys[j - 1] in ys;
      }
    }
  }

  lemma {:induction false} WithoutIncreasing(xs: seq<nat>, s: set<nat>)
    requires Increasing(xs)
    ensures Increasing(Without(xs, s))
  {
    if xs != [] {
      assert Increasing(xs[1..]) by {
        forall i, j | 0 <= i < j < |xs[1..]| ensures xs[1..][i] < xs[1..][j] {
          assert xs[1..][i] == xs[i + 1] && xs[1..][j] == xs[j + 1];
        }
      }
      WithoutIncreasing(xs[1..], s);
      var rest := Without(xs[1..], s);
      if xs[0] !in s {
        forall x | x in rest ensures xs[0] < x {
          assert x in xs[1..];
          var k :| 0 <= k < |xs[1..]| && xs[1..][k] == x;
          assert xs[k + 1] == x;
        }
        PrependIncreasing(xs[0], rest);
      }
    }
  }

  lemma {:induction false} WithoutNone(xs: seq<nat>, s: set<nat>)
    requires forall x :: x in xs ==> x !in s
    ensures Without(xs, s) == xs
  {
    if xs != [] {
      WithoutNone(xs[1..], s);
    }
  }

  /** In an ascending list, removing the first occurrence removes the only one. */
  lemma {:induction false} RemoveFirstIncreasing(xs: seq<nat>, x: nat)
    requires Increasing(xs) && x in xs
    ensures RemoveFirst(xs, x) == Without(xs, {x})
  {
    if xs[0] == x {
      forall y | y in xs[1..] ensures y != x {
        var k :| 0 <= k < |xs[1..]| && xs[1..][k] == y;
        assert xs[k + 1] == y;
      }
      WithoutNone(xs[1..], {x});
    } else {
      RemoveFirstIncreasing(xs[1..], x);
    }
  }

  lemma {:induction false} WithoutWithout(xs: seq<nat>, a: set<nat>, b: set<nat>)
    ensures Without(Without(xs, a), b) == Without(xs, a + b)
  {
    if xs != [] {
      WithoutWithout(xs[1..], a, b);
    }
  }

  lemma RemoveIfPresentIncreasing(xs: seq<nat>, x: nat)
    requires Increasing(xs)
    ensures RemoveIfPresent(xs, x) == Without(xs, {x})
  {
    if x in xs {
      RemoveFirstIncreasing(xs, x);
    } else {
      WithoutNone(xs, {x});
    }
  }

  /** On an ascending list, the removal loop leaves exactly the elements not named in `rules`. */
  lemma {:induction false} RemoveEachIncreasing(xs: seq<nat>, rules: seq<nat>)
    requires Increasing(xs)
    ensures RemoveEach(xs, rules) == Without(xs, set r | r in rules)
    ensures Increasing(RemoveEach(xs, rules))
  {
    if rules == [] {
      var none := set r | r in rules;
      assert forall x :: x !in none;
      WithoutNone(xs, none);
    } else {
      var pre := rules[..|rules| - 1];
      var last := rules[|rules| - 1];
      var p := set r | r in pre;
      var all := set r | r in rules;
      RemoveEachIncreasing(xs, pre);
      var mid := RemoveEach(xs, pre);
      assert mid == Without(xs, p);
      RemoveIfPresentIncreasing(mid, last);
      assert RemoveEach(xs, rules) == RemoveIfPresent(mid, last);
      WithoutWithout(xs, p, {last});
      assert rules == pre + [last];
      assert p + {last} == all;
      assert RemoveEach(xs, rules) == Without(xs, all);
      WithoutIncreasing(xs, set r | r in rules);
    }
  }

  /** Every number named in any of the lists. */
  function AllOf(lists: seq<seq<nat>>): set<nat>
  {
    if lists == [] then {}
    else
      var last := lists[|lists| - 1];
      AllOf(lists[..|lists| - 1]) + set r | r in last
  }

  lemma {:induction false} AllOfMember(lists: seq<seq<nat>>, x: nat)
    ensures x in AllOf(lists) <==> exists k :: 0 <= k < |lists| && x in lists[k]
  {
    if lists != [] {
      AllOfMember(lists[..|lists| - 1], x);
      if x in lists[|lists| - 1] {
        assert 0 <= |lists| - 1 < |lists|;
      }
      if exists k :: 0 <= k < |lists| && x in lists[k] {
        var k :| 0 <= k < |lists| && x in lists[k];
        if k < |lists| - 1 {
          assert lists[..|lists| - 1][k] == lists[k];
        }
      }
    }
  }

  /** The removal loop run over each list in turn. */
  function RemoveAll(xs: seq<nat>, lists: seq<seq<nat>>): seq<nat>
  {
    if lists == [] then xs
    else RemoveEach(RemoveAll(xs, lists[..|lists| - 1]), lists[|lists| - 1])
  }

  /** On an ascending list, removing every listed number leaves exactly the numbers named in no list. */
  lemma {:induction false} RemoveAllIncreasing(xs: seq<nat>, lists: seq<seq<nat>>)
    requires Increasing(xs)
    ensures RemoveAll(xs, lists) == Without(xs, AllOf(lists))
    ensures Increasing(RemoveAll(xs, lists))
  {
    if lists == [] {
      WithoutNone(xs, {});
    } else {
      var pre := lists[..|lists| - 1];
      var last := lists[|lists| - 1];
      RemoveAllIncreasing(xs, pre);
      RemoveEachIncreasing(RemoveAll(xs, pre), last);
      WithoutWithout(xs, AllOf(pre), set r | r in last);
      WithoutIncreasing(xs, AllOf(lists));
    }
  }

  /** The numbers 1..n named in no list, ascending: what is left of `range(1, n + 1)`. */
  lemma Unreferenced(n: nat, lists: seq<seq<nat>>)
    ensures var r := RemoveAll(Range(1, n + 1), lists);
      && Increasing(r)
      && forall x :: x in r <==> 1 <= x <= n && forall k :: 0 <= k < |lists| ==> x !in lists[k]
  {
    RangeIncreasing(1, n + 1);
    RemoveAllIncreasing(Range(1, n + 1), lists);
    forall x ensures x in AllOf(lists) <==> exists k :: 0 <= k < |lists| && x in lists[k] {
      AllOfMember(lists, x);
    }
  }

  /**
   * `xs.remove(r)` for each r of `rules` in turn, where removing a number
   * that is no longer present raises ValueError (None here).
   */
  function RemoveEachOrFail(xs: seq<nat>, rules: seq<nat>): (r: Option<seq<nat>>)
    ensures r.Some? ==> |r.value| == |xs| - |rules|
  {
    if rules == [] then Some(xs)
    else
      var mid := RemoveEachOrFail(xs, rules[..|rules| - 1]);
      var last := rules[|rules| - 1];
      if mid.Some? && last in mid.value then Some(RemoveFirst(mid.value, last)) else None
  }

  /** One more turn of the removal loop over `rules`. */
  lemma RemoveEachStep(xs: seq<nat>, rules: seq<nat>, j: nat)
    requires j < |rules|
    ensures RemoveEach(xs, rules[..j + 1]) == RemoveIfPresent(RemoveEach(xs, rules[..j]), rules[j])
  {
    PrefixStep(rules, j);
  }

  /** One more list in the removal over all lists. */
  lemma RemoveAllStep(xs: seq<nat>, lists: seq<seq<nat>>, i: nat)
    requires i < |lists|
    ensures RemoveAll(xs, lists[..i + 1]) == RemoveEach(RemoveAll(xs, lists[..i]), lists[i])
  {
    PrefixStep(lists, i);
  }

  /** One more turn of the failing removal loop. */
  lemma RemoveEachOrFailStep(xs: seq<nat>, rules: seq<nat>, i: nat)
    requires i < |rules| && RemoveEachOrFail(xs, rules[..i]).Some?
    ensures rules[i] in RemoveEachOrFail(xs, rules[..i]).value ==>
      RemoveEachOrFail(xs, rules[..i + 1]) == Some(RemoveFirst(RemoveEachOrFail(xs, rules[..i]).value, rules[i]))
    ensures rules[i] !in RemoveEachOrFail(xs, rules[..i]).value ==> RemoveEachOrFail(xs, rules[..i + 1]).None?
  {
    PrefixStep(rules, i);
  }

  /** Once a removal has failed, removing more numbers cannot succeed. */
  lemma {:induction false} RemoveEachOrFailStops(xs: seq<nat>, rules: seq<nat>, i: nat)
    requires i <= |rules| && RemoveEachOrFail(xs, rules[..i]).None?
    ensures RemoveEachOrFail(xs, rules).None?
    decreases |rules| - i
  {
    if i < |rules| {
      assert rules[..i + 1][..i] == rules[..i];
      RemoveEachOrFailStops(xs, rules, i + 1);
    } else {
      assert rules[..i] == rules;
    }
  }

  /** The last element of an ascending list is not among the earlier ones, which are ascending too. */
  lemma IncreasingLast(rules: seq<nat>)
    requires Increasing(rules) && rules != []
    ensures Increasing(rules[..|rules| - 1])
    ensures rules[|rules| - 1] !in rules[..|rules| - 1]
  {
    var pre := rules[..|rules| - 1];
    forall k | 0 <= k < |pre| ensures pre[k] < rules[|rules| - 1] {
      assert pre[k] == rules[k];
    }
  }

  lemma RemoveLastIncreasing(xs: seq<nat>, pre: seq<nat>, last: nat)
    requires Increasing(xs) && last in xs && last !in pre
    ensures var mid := Without(xs, set r | r in pre);
      && last in mid
      && RemoveFirst(mid, last) == Without(xs, set r | r in pre + [last])
  {
    var p := set r | r in pre;
    var all := set r | r in pre + [last];
    var mid := Without(xs, p);
    WithoutIncreasing(xs, p);
    assert last !in p;
    assert last in mid;
    RemoveFirstIncreasing(mid, last);
    WithoutWithout(xs, p, {last});
    assert forall r :: r in pre + [last] <==> r in pre || r == last;
    assert p + {last} == all;
    assert RemoveFirst(mid, last) == Without(mid, {last}) == Without(xs, all);
  }

  /**
   * Removing the numbers of an ascending list, all present in an ascending
   * list, never fails and leaves exactly the other numbers.
   */
  lemma {:induction false} RemoveEachOrFailIncreasing(xs: seq<nat>, rules: seq<nat>)
    requires Increasing(xs) && Increasing(rules)
    requires forall r :: r in rules ==> r in xs
    ensures RemoveEachOrFail(xs, rules) == Some(Without(xs, set r | r in rules))
  {
    if rules == [] {
      var none := set r | r in rules;
      assert forall x :: x !in none;
      WithoutNone(xs, none);
    } else {
      var pre := rules[..|rules| - 1];
      var last := rules[|rules| - 1];
      IncreasingLast(rules);
      assert forall r :: r in pre ==> r in rules;
      RemoveEachOrFailIncreasing(xs, pre);
      RemoveLastIncreasing(xs, pre, last);
      assert rules == pre + [last];
    }
  }
}
