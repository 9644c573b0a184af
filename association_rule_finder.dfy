/**
 * The general rule generator of src/association_rule_finder.py.
 *
 * An `AssociationRuleFinder` holds a confidence threshold fixed at
 * construction. `FindRules` takes a table from itemsets (as sets) to their
 * support and, for every itemset of more than one item and every non-empty
 * proper subset L of it (by increasing size) that is itself a key, emits the
 * rule L -> (itemset - L) when supp(itemset) / supp(L) reaches the threshold.
 * Antecedents missing from the table are skipped; an antecedent of support
 * zero makes Python raise `ZeroDivisionError`, which the model returns as
 * `Failure`.
 */
module RuleFinder {
  import opened Itemsets
  import opened Results

  /** The default `c_threshold`. */
  const DefaultThreshold: real := 0.5

  /** The exception `find_rules` can raise. */
  datatype FinderError = ZeroDivisionError

  /** A rule X -> Y, keyed as the pair (left side, right side). */
  type Rule = (set<int>, set<int>)

  // ---------------------------------------------------------------------
  // Specification
  // ---------------------------------------------------------------------

  /** L -> R is a rule of `f` reaching `c` (inclusive): a split of a key into two non-empty disjoint parts, L a key of non-zero support. */
  ghost predicate IsRule(f: map<set<int>, int>, c: real, left: set<int>, right: set<int>) {
    && left != {} && right != {} && left !! right
    && left + right in f && left in f && f[left] != 0
    && Confidence(f[left + right], f[left]) >= c
  }

  /** Line 34 divides by zero on this pair: `left` is a non-empty proper subset of the key `whole`, and a key of support zero. */
  ghost predicate BreaksAt(f: map<set<int>, int>, whole: set<int>, left: set<int>) {
    whole in f && |whole| > 1 && left < whole && left != {} && left in f && f[left] == 0
  }

  /** The pairs visited so far: every key in `done`, and of key `cur` the antecedents in `tried`. */
  ghost predicate Covered(done: set<set<int>>, cur: set<int>, tried: set<set<int>>, whole: set<int>, left: set<int>) {
    whole in done || (whole == cur && left in tried)
  }

  /** The loop invariant of lines 26-40. */
  ghost predicate RulesSoFar(
    rules: map<Rule, real>, f: map<set<int>, int>, c: real,
    done: set<set<int>>, cur: set<int>, tried: set<set<int>>)
  {
    && (forall r :: r in rules ==>
          IsRule(f, c, r.0, r.1) && Covered(done, cur, tried, r.0 + r.1, r.0)
          && rules[r] == Confidence(f[r.0 + r.1], f[r.0]))
    && (forall left, right :: IsRule(f, c, left, right) && Covered(done, cur, tried, left + right, left) ==> (left, right) in rules)
    && (forall whole, left :: BreaksAt(f, whole, left) ==> !Covered(done, cur, tried, whole, left))
  }

  /** Line 29: `combinations(item_set, n)` turned into sets: every size-`n` subset of `itemSet`. */
  function Antecedents(itemSet: set<int>, n: nat): (lefts: seq<set<int>>)
    ensures forall left :: left in lefts <==> left <= itemSet && |left| == n
  {
    var xs := SortedItems(itemSet);
    var combos := Combinations(xs, n);
    var lefts := seq(|combos|, i requires 0 <= i < |combos| => Elems(combos[i]));
    AntecedentsAreSubsets(xs, n, lefts);
    lefts
  }

  lemma AntecedentsAreSubsets(xs: seq<int>, n: nat, lefts: seq<set<int>>)
    requires Increasing(xs)
    requires |lefts| == |Combinations(xs, n)|
    requires forall i :: 0 <= i < |lefts| ==> lefts[i] == Elems(Combinations(xs, n)[i])
    ensures forall left :: left in lefts <==> left <= Elems(xs) && |left| == n
  {
    var combos := Combinations(xs, n);
    CombinationsMembership(xs, n);
    forall left | left in lefts ensures left <= Elems(xs) && |left| == n {
      var i :| 0 <= i < |lefts| && lefts[i] == left;
      assert combos[i] in combos;
      IncreasingCard(combos[i]);
    }
    forall left | left <= Elems(xs) && |left| == n ensures left in lefts {
      var sorted := SortedItems(left);
      assert SortedSubset(sorted, n, Elems(xs));
      var i :| 0 <= i < |combos| && combos[i] == sorted;
      assert lefts[i] == left;
    }
  }

  lemma ProperSubsetSmaller(left: set<int>, whole: set<int>)
    requires left < whole
    ensures |left| < |whole|
  {
    var extra := whole - left;
    assert whole == left + extra;
    assert extra != {};
  }

  lemma SplitSize(left: set<int>, right: set<int>)
    requires left != {} && right != {} && left !! right
    ensures |left + right| > 1
  {
    HasItem(left);
    HasItem(right);
    var x :| x in left;
    var y :| y in right;
    assert {x, y} <= left + right;
    assert |{x, y}| == 2;
    SubsetCardinality({x, y}, left + right);
  }

  // ---------------------------------------------------------------------
  // The class
  // ---------------------------------------------------------------------

  class AssociationRuleFinder {
    /** Fixed at construction (lines 14-15); nothing reassigns it. */
    const cThreshold: real

    constructor (c: real := DefaultThreshold)
      ensures cThreshold == c
    {
      cThreshold := c;
    }

    /**
     * Lines 17-42. Succeeds exactly when no antecedent that is a key has
     * support zero; then the result holds exactly the rules reaching the
     * threshold, each mapped to its confidence.
     */
    method FindRules(frequentItemsets: map<set<int>, int>) returns (result: Result<map<Rule, real>, FinderError>)
      ensures result.Success? <==> forall whole, left :: !BreaksAt(frequentItemsets, whole, left)
      ensures result.Success? ==>
        forall left, right :: (left, right) in result.value <==> IsRule(frequentItemsets, cThreshold, left, right)
      ensures result.Success? ==>
        forall r :: r in result.value ==>
          IsRule(frequentItemsets, cThreshold, r.0, r.1)
          && result.value[r] == Confidence(frequentItemsets[r.0 + r.1], frequentItemsets[r.0])
    {
      var rules: map<Rule, real> := map[];
      ghost var done: set<set<int>> := {};
      var rest := set x | x in frequentItemsets && |x| > 1;
      ghost var all := rest;
      while rest != {}
        invariant rest <= all && done == all - rest
        invariant RulesSoFar(rules, frequentItemsets, cThreshold, done, {}, {})
        decreases rest
      {
        HasMember(rest);
        var itemSet :| itemSet in rest;
        var visited := RulesOfItemSet(frequentItemsets, itemSet, rules, done);
        if visited.Failure? {
          return Failure(visited.error);
        }
        rules := visited.value;
        rest := rest - {itemSet};
        done := done + {itemSet};
      }
      RulesFinished(rules, frequentItemsets, cThreshold, done);
      return Success(rules);
    }

    /** Lines 28-39, the body of the outer loop for one key of more than one item. */
    method RulesOfItemSet(frequentItemsets: map<set<int>, int>, itemSet: set<int>, rules: map<Rule, real>, ghost done: set<set<int>>)
      returns (result: Result<map<Rule, real>, FinderError>)
      requires itemSet in frequentItemsets && |itemSet| > 1 && itemSet !in done
      requires RulesSoFar(rules, frequentItemsets, cThreshold, done, {}, {})
      ensures result.Success? ==> RulesSoFar(result.value, frequentItemsets, cThreshold, done + {itemSet}, {}, {})
      ensures result.Failure? ==> exists left :: BreaksAt(frequentItemsets, itemSet, left)
    {
      var found := rules;
      ghost var tried: set<set<int>> := {};
      OpenItemSet(found, frequentItemsets, cThreshold, done, itemSet);
      for leftSideLength := 1 to |itemSet|
        invariant forall left :: left <= itemSet && 1 <= |left| < leftSideLength ==> left in tried
        invariant RulesSoFar(found, frequentItemsets, cThreshold, done, itemSet, tried)
      {
        var lefts := Antecedents(itemSet, leftSideLength);
        for j := 0 to |lefts|
          invariant forall k :: 0 <= k < j ==> lefts[k] in tried
          invariant forall left :: left <= itemSet && 1 <= |left| < leftSideLength ==> left in tried
          invariant RulesSoFar(found, frequentItemsets, cThreshold, done, itemSet, tried)
        {
          var leftSide := lefts[j];
          assert leftSide <= itemSet && |leftSide| == leftSideLength;
          ghost var before := found;
          if leftSide in frequentItemsets {
            if frequentItemsets[leftSide] == 0 {
              assert leftSide != itemSet;
              assert BreaksAt(frequentItemsets, itemSet, leftSide);
              return Failure(ZeroDivisionError);
            }
            var confidence := Confidence(frequentItemsets[itemSet], frequentItemsets[leftSide]);
            if confidence >= cThreshold {
              var rightSide := itemSet - leftSide;
              found := found[(leftSide, rightSide) := confidence];
            }
          }
          VisitAntecedent(before, found, frequentItemsets, cThreshold, done, itemSet, tried, leftSide);
          PrefixSeen(lefts, tried, j);
          tried := tried + {leftSide};
        }
        LengthDone(lefts, tried, itemSet, leftSideLength);
      }
      CloseItemSet(found, frequentItemsets, cThreshold, done, itemSet, tried);
      return Success(found);
    }
  }

  // ---------------------------------------------------------------------
  // Lemmas behind the loop invariants
  // ---------------------------------------------------------------------

  lemma LengthDone(lefts: seq<set<int>>, tried: set<set<int>>, itemSet: set<int>, n: nat)
    requires forall k :: 0 <= k < |lefts| ==> lefts[k] in tried
    requires forall left :: left in lefts <==> left <= itemSet && |left| == n
    requires forall left :: left <= itemSet && 1 <= |left| < n ==> left in tried
    ensures forall left :: left <= itemSet && 1 <= |left| < n + 1 ==> left in tried
  {
    forall left | left <= itemSet && |left| == n ensures left in tried {
      var k :| 0 <= k < |lefts| && lefts[k] == left;
    }
  }

  /** Starting on a new key changes nothing that has been visited. */
  lemma OpenItemSet(rules: map<Rule, real>, f: map<set<int>, int>, c: real, done: set<set<int>>, cur: set<int>)
    requires cur !in done
    requires RulesSoFar(rules, f, c, done, {}, {})
    ensures RulesSoFar(rules, f, c, done, cur, {})
  {
  }

  /** Lines 31-39 for one antecedent keep `RulesSoFar`. */
  lemma VisitAntecedent(
    before: map<Rule, real>, after: map<Rule, real>, f: map<set<int>, int>, c: real,
    done: set<set<int>>, cur: set<int>, tried: set<set<int>>, left: set<int>)
    requires cur !in done && cur in f
    requires left != {} && left < cur
    requires RulesSoFar(before, f, c, done, cur, tried)
    requires left in f ==> f[left] != 0
    requires left in f && Confidence(f[cur], f[left]) >= c ==>
      after == before[(left, cur - left) := Confidence(f[cur], f[left])]
    requires !(left in f && Confidence(f[cur], f[left]) >= c) ==> after == before
    ensures RulesSoFar(after, f, c, done, cur, tried + {left})
  {
    var tried' := tried + {left};
    assert left + (cur - left) == cur;
    forall l, r | IsRule(f, c, l, r) && Covered(done, cur, tried', l + r, l) ensures (l, r) in after {
      if l == left && l + r == cur {
        assert r == cur - left;
      }
    }
  }

  /** Once every non-empty proper subset of `cur` is tried, `cur` counts as a visited key. */
  lemma CloseItemSet(rules: map<Rule, real>, f: map<set<int>, int>, c: real, done: set<set<int>>, cur: set<int>, tried: set<set<int>>)
    requires forall left :: left <= cur && 1 <= |left| < |cur| ==> left in tried
    requires RulesSoFar(rules, f, c, done, cur, tried)
    ensures RulesSoFar(rules, f, c, done + {cur}, {}, {})
  {
    var done' := done + {cur};
    forall r | r in rules ensures Covered(done', {}, {}, r.0 + r.1, r.0) {
    }
    forall left, right | IsRule(f, c, left, right) && Covered(done', {}, {}, left + right, left)
      ensures Covered(done, cur, tried, left + right, left)
    {
      if left + right == cur {
        ProperPart(left, right);
        ProperSubsetSmaller(left, cur);
      }
    }
    forall whole, left | BreaksAt(f, whole, left) ensures !Covered(done', {}, {}, whole, left) {
      if whole == cur {
        ProperSubsetSmaller(left, whole);
      }
    }
  }

  lemma ProperPart(left: set<int>, right: set<int>)
    requires left != {} && right != {} && left !! right
    ensures left < left + right
  {
    HasItem(right);
    var y :| y in right;
    assert y !in left;
  }

  /** After every key of more than one item is visited, `RulesSoFar` is the postcondition of a successful call. */
  lemma RulesFinished(rules: map<Rule, real>, f: map<set<int>, int>, c: real, done: set<set<int>>)
    requires done == set x | x in f && |x| > 1
    requires RulesSoFar(rules, f, c, done, {}, {})
    ensures forall whole, left :: !BreaksAt(f, whole, left)
    ensures forall left, right :: (left, right) in rules <==> IsRule(f, c, left, right)
  {
    forall left, right | IsRule(f, c, left, right) ensures left + right in done {
      SplitSize(left, right);
    }
  }

  // ---------------------------------------------------------------------
  // Bounds on the confidences
  // ---------------------------------------------------------------------

  /**
   * On a table of exact supports (supp(X) = Support(X, ts) for every key),
   * every rule's confidence lies in [0, 1]: the whole itemset occurs in no
   * more transactions than its antecedent. It is positive exactly when the
   * whole itemset occurs at all.
   */
  lemma ConfidenceOfRuleBounded(f: map<set<int>, int>, ts: seq<set<int>>, c: real, left: set<int>, right: set<int>)
    requires forall x :: x in f ==> f[x] == Support(x, ts)
    requires IsRule(f, c, left, right)
    ensures 0.0 <= Confidence(f[left + right], f[left]) <= 1.0
    ensures 0.0 < Confidence(f[left + right], f[left]) <==> f[left + right] != 0
  {
    SupportAntiMonotone(left, left + right, ts);
    if f[left + right] != 0 {
      ConfidenceBounds(f[left + right], f[left]);
    } else {
      var conf := Confidence(f[left + right], f[left]);
      assert conf * f[left] as real == 0.0;
      assert conf == 0.0;
    }
  }
}
