/**
 * The checks run on the parser's output after parsing: which rules have no
 * content/pcre signature at all, and which rules had signatures but lost
 * every exact match on the way.
 */
module ResultsAnalysis {
  import opened Wrappers
  import opened RuleLists

  /** One entry of the parser's output as read here: its rule numbers and its exact matches. */
  datatype SignatureData = SignatureData(rules: seq<nat>, exactMatches: seq<seq<char>>)

  /** The rule lists of all entries, in order. */
  function RuleListsOf(data: seq<SignatureData>): (r: seq<seq<nat>>)
    ensures |r| == |data|
    ensures forall k :: 0 <= k < |data| ==> r[k] == data[k].rules
  {
    seq(|data|, k requires 0 <= k < |data| => data[k].rules)
  }

  /**
   * The rule lists the first loop of the lost-rule check removes: an entry
   * without exact matches is skipped, which removes nothing.
   */
  function FragmentRuleListsOf(data: seq<SignatureData>): (r: seq<seq<nat>>)
    ensures |r| == |data|
    ensures forall k :: 0 <= k < |data| ==> r[k] == if data[k].exactMatches == [] then [] else data[k].rules
  {
    seq(|data|, k requires 0 <= k < |data| => if data[k].exactMatches == [] then [] else data[k].rules)
  }

  /** The no-signature list: 1..n with every referenced rule removed. */
  function NoSignatures(n: nat, data: seq<SignatureData>): seq<nat>
  {
    RemoveAll(Range(1, n + 1), RuleListsOf(data))
  }

  /** The lost list after its first loop: 1..n with the rules of entries that kept fragments removed. */
  function WithFragmentsRemoved(n: nat, data: seq<SignatureData>): seq<nat>
  {
    RemoveAll(Range(1, n + 1), FragmentRuleListsOf(data))
  }

  predicate Referenced(data: seq<SignatureData>, x: nat)
  {
    exists k :: 0 <= k < |data| && x in data[k].rules
  }

  predicate ReferencedWithFragments(data: seq<SignatureData>, x: nat)
  {
    exists k :: 0 <= k < |data| && data[k].exactMatches != [] && x in data[k].rules
  }

  /** The no-signature list is ascending and holds exactly the numbers 1..n that no entry references. */
  lemma NoSignaturesMembers(n: nat, data: seq<SignatureData>)
    ensures Increasing(NoSignatures(n, data))
    ensures forall x :: x in NoSignatures(n, data) <==> 1 <= x <= n && !Referenced(data, x)
  {
    Unreferenced(n, RuleListsOf(data));
  }

  /** After the first loop, the lost list holds exactly the numbers 1..n no entry with fragments references. */
  lemma WithFragmentsRemovedMembers(n: nat, data: seq<SignatureData>)
    ensures Increasing(WithFragmentsRemoved(n, data))
    ensures forall x :: x in WithFragmentsRemoved(n, data) <==> 1 <= x <= n && !ReferencedWithFragments(data, x)
  {
    var lists := FragmentRuleListsOf(data);
    Unreferenced(n, lists);
    forall x ensures (forall k :: 0 <= k < |lists| ==> x !in lists[k]) <==> !ReferencedWithFragments(data, x) {
      if ReferencedWithFragments(data, x) {
        var k :| 0 <= k < |data| && data[k].exactMatches != [] && x in data[k].rules;
        assert x in lists[k];
      }
    }
  }

  /**
   * The whole lost-rule check, run on the no-signature list of the same
   * data: the removal at the end never fails, and what is left is,
   * ascending, exactly the rules that some entry references but only
   * entries without exact matches do. No such rule is in the no-signature
   * list.
   */
  lemma LostRulesMembers(n: nat, data: seq<SignatureData>)
    ensures var noSigs := NoSignatures(n, data);
      var lost := RemoveEachOrFail(WithFragmentsRemoved(n, data), noSigs);
      && lost.Some?
      && Increasing(lost.value)
      && (forall x :: x in lost.value <==> 1 <= x <= n && Referenced(data, x) && !ReferencedWithFragments(data, x))
      && (forall x :: x in lost.value ==> x !in noSigs)
  {
    var noSigs := NoSignatures(n, data);
    var first := WithFragmentsRemoved(n, data);
    NoSignaturesMembers(n, data);
    WithFragmentsRemovedMembers(n, data);
    forall x ensures ReferencedWithFragments(data, x) ==> Referenced(data, x) {
      if ReferencedWithFragments(data, x) {
        var k :| 0 <= k < |data| && data[k].exactMatches != [] && x in data[k].rules;
      }
    }
    assert forall r :: r in noSigs ==> r in first;
    RemoveEachOrFailIncreasing(first, noSigs);
    WithoutIncreasing(first, set r | r in noSigs);
  }

  /** The analysis state: the rule count from the parser and the two lists the checks compute. */
  class Analysis {
    var totalRules: nat
    var noSignatures: seq<nat>
    var lostWhileParsing: seq<nat>

    constructor (totalRules: nat)
      ensures this.totalRules == totalRules
      ensures noSignatures == [] && lostWhileParsing == []
    {
      this.totalRules := totalRules;
      noSignatures := [];
      lostWhileParsing := [];
    }

    /** `check_rules_with_no_signitures`. */
    method CheckRulesWithNoSignatures(data: seq<SignatureData>)
      modifies this
      ensures noSignatures == NoSignatures(totalRules, data)
      ensures totalRules == old(totalRules) && lostWhileParsing == old(lostWhileParsing)
    {
      noSignatures := Range(1, totalRules + 1);
      var lists := RuleListsOf(data);
      for i := 0 to |data|
        invariant noSignatures == RemoveAll(Range(1, totalRules + 1), lists[..i])
        invariant totalRules == old(totalRules) && lostWhileParsing == old(lostWhileParsing)
      {
        RemoveAllStep(Range(1, totalRules + 1), lists, i);
        var rules := data[i].rules;
        ghost var before := noSignatures;
        for j := 0 to |rules|
          invariant noSignatures == RemoveEach(before, rules[..j])
          invariant totalRules == old(totalRules) && lostWhileParsing == old(lostWhileParsing)
        {
          RemoveEachStep(before, rules, j);
          if rules[j] in noSignatures {
            noSignatures := RemoveFirst(noSignatures, rules[j]);
          }
        }
        WholePrefix(rules);
      }
      WholePrefix(lists);
    }

    /**
     * `check_rules_lost_while_parsing`: the first loop removes the rules of
     * entries that kept exact matches, the second removes every rule of the
     * no-signature list, raising ValueError (the error here) when one is
     * already gone.
     */
    method CheckRulesLostWhileParsing(data: seq<SignatureData>) returns (error: Option<string>)
      modifies this
      ensures var lost := RemoveEachOrFail(WithFragmentsRemoved(totalRules, data), noSignatures);
        && (error.None? <==> lost.Some?)
        && (error.None? ==> lostWhileParsing == lost.value)
      ensures totalRules == old(totalRules) && noSignatures == old(noSignatures)
    {
      lostWhileParsing := Range(1, totalRules + 1);
      var lists := FragmentRuleListsOf(data);
      for i := 0 to |data|
        invariant lostWhileParsing == RemoveAll(Range(1, totalRules + 1), lists[..i])
        invariant totalRules == old(totalRules) && noSignatures == old(noSignatures)
      {
        RemoveAllStep(Range(1, totalRules + 1), lists, i);
        if |data[i].exactMatches| == 0 {
          assert RemoveEach(lostWhileParsing, lists[i]) == lostWhileParsing;
          continue;
        }
        var rules := data[i].rules;
        ghost var before := lostWhileParsing;
        for j := 0 to |rules|
          invariant lostWhileParsing == RemoveEach(before, rules[..j])
          invariant totalRules == old(totalRules) && noSignatures == old(noSignatures)
        {
          RemoveEachStep(before, rules, j);
          if rules[j] in lostWhileParsing {
            lostWhileParsing := RemoveFirst(lostWhileParsing, rules[j]);
          }
        }
        WholePrefix(rules);
      }
      WholePrefix(lists);
      ghost var first := lostWhileParsing;
      var noSigs := noSignatures;
      for i := 0 to |noSigs|
        invariant RemoveEachOrFail(first, noSigs[..i]) == Some(lostWhileParsing)
        invariant totalRules == old(totalRules) && noSignatures == old(noSignatures)
      {
        RemoveEachOrFailStep(first, noSigs, i);
        var rule := noSigs[i];
        if rule !in lostWhileParsing {
          RemoveEachOrFailStops(first, noSigs, i + 1);
          return Some("list.remove(x): x not in list");
        }
        lostWhileParsing := RemoveFirst(lostWhileParsing, rule);
      }
      WholePrefix(noSigs);
      error := None;
    }

    /**
     * The module's `main`: both checks on the same data. The second never
     * fails, and the two lists are the ones described by
     * NoSignaturesMembers and LostRulesMembers.
     */
    method Analyse(data: seq<SignatureData>) returns (error: Option<string>)
      modifies this
      ensures error.None?
      ensures totalRules == old(totalRules)
      ensures Increasing(noSignatures) && Increasing(lostWhileParsing)
      ensures forall x :: x in noSignatures <==> 1 <= x <= totalRules && !Referenced(data, x)
      ensures forall x :: x in lostWhileParsing <==>
        1 <= x <= totalRules && Referenced(data, x) && !ReferencedWithFragments(data, x)
    {
      CheckRulesWithNoSignatures(data);
      error := CheckRulesLostWhileParsing(data);
      NoSignaturesMembers(totalRules, data);
      LostRulesMembers(totalRules, data);
    }
  }
}
