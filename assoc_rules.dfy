/**
 * The single-consequent rule generator of src/assoc_rules.py.
 *
 * For every key I of the itemset table with more than one element, and for
 * every sorted subset of I one item short of I, the rule "subset -> missing
 * item" gets confidence supp(I) / supp(subset); rules reaching the threshold
 * are stored under the key `subset + (missing item,)`. A subset that is not a
 * key aborts the whole call with a `KeyError`, and a subset of support zero
 * with a `ZeroDivisionError`; the model returns those as `Failure`.
 *
 * Table keys are arbitrary tuples here, as in the source: nothing requires
 * them to be sorted or duplicate-free. The subsets are built from the SET of
 * the key's items, so a key's "size minus one" is that set's size minus one.
 */
module AssocRules {
  import opened Itemsets
  import opened Results
  import Apriori

  /** The default confidence threshold `c` of `association_rules`. */
  const DefaultConfidence: real := 0.5

  /** The exceptions `association_rules` can raise. */
  datatype RuleError = KeyError(key: seq<int>) | ZeroDivisionError

  // ---------------------------------------------------------------------
  // find_subsets
  // ---------------------------------------------------------------------

  /** Lines 6-21: every size-`n` subset of `s`, each as a sorted tuple. */
  function FindSubsets(s: set<int>, n: nat): (subsets: seq<seq<int>>)
    ensures forall t :: t in subsets <==> SortedSubset(t, n, s)
  {
    var xs := SortedItems(s);
    var combos := Combinations(xs, n);
    var sorted := seq(|combos|, i requires 0 <= i < |combos| => SortedItems(Elems(combos[i])));
    SortingCombinationsKeepsThem(xs, n, sorted);
    sorted
  }

  /** Sorting a tuple that `combinations` drew from a sorted list changes nothing. */
  lemma SortingCombinationsKeepsThem(xs: seq<int>, n: nat, sorted: seq<seq<int>>)
    requires Increasing(xs)
    requires |sorted| == |Combinations(xs, n)|
    requires forall i :: 0 <= i < |sorted| ==> sorted[i] == SortedItems(Elems(Combinations(xs, n)[i]))
    ensures forall t :: t in sorted <==> SortedSubset(t, n, Elems(xs))
  {
    var combos := Combinations(xs, n);
    CombinationsMembership(xs, n);
    forall i | 0 <= i < |sorted| ensures sorted[i] == combos[i] {
      assert combos[i] in combos;
      SortedItemsOfIncreasing(combos[i]);
    }
    assert sorted == combos;
  }

  // ---------------------------------------------------------------------
  // Specification of association_rules
  // ---------------------------------------------------------------------

  /** `sub` is one of the subsets line 46 builds for the key `iSet`: sorted, one item short of iSet's items. */
  ghost predicate AntecedentOf(sub: seq<int>, iSet: seq<int>) {
    Increasing(sub) && |sub| + 1 == |Elems(iSet)| && Elems(sub) <= Elems(iSet)
  }

  /** A (key, subset) pair the loops of lines 35-63 visit. */
  ghost predicate Candidate(f: map<seq<int>, int>, iSet: seq<int>, sub: seq<int>) {
    iSet in f && |iSet| > 1 && AntecedentOf(sub, iSet)
  }

  /** A visited pair on which lines 50-53 raise: the subset is missing or has support zero. */
  ghost predicate Breaks(f: map<seq<int>, int>, iSet: seq<int>, sub: seq<int>) {
    Candidate(f, iSet, sub) && (sub !in f || f[sub] == 0)
  }

  /** A visited pair whose rule reaches the threshold `c` (inclusive). */
  ghost predicate RuleOf(f: map<seq<int>, int>, c: real, iSet: seq<int>, sub: seq<int>) {
    Candidate(f, iSet, sub) && sub in f && f[sub] != 0 && Confidence(f[iSet], f[sub]) >= c
  }

  /** Line 63: the rule's key, the antecedent followed by the symmetric difference of the two item sets. */
  function RuleKey(iSet: seq<int>, sub: seq<int>): (key: seq<int>)
    ensures |key| >= |sub| && key[..|sub|] == sub
  {
    var items := Elems(iSet);
    var subItems := Elems(sub);
    sub + SortedItems((items - subItems) + (subItems - items))
  }

  /**
   * The key of a rule has as many elements as the itemset has items, holds
   * exactly those items, starts with the antecedent, and ends with the one
   * item the antecedent lacks.
   */
  lemma RuleKeyShape(iSet: seq<int>, sub: seq<int>)
    requires AntecedentOf(sub, iSet)
    ensures var key := RuleKey(iSet, sub);
      && |key| == |Elems(iSet)|
      && Elems(key) == Elems(iSet)
      && key[..|key| - 1] == sub
      && key[|key| - 1] in Elems(iSet) - Elems(sub)
  {
    var items := Elems(iSet);
    var subItems := Elems(sub);
    var x := MissingItem(items, subItems, sub);
    assert (items - subItems) + (subItems - items) == {x};
    var tail := SortedItems({x});
    assert tail[0] in {x};
    assert tail == [x];
    assert RuleKey(iSet, sub) == sub + [x];
    assert Elems(sub + [x]) == subItems + {x};
  }

  /** The one item a sorted antecedent lacks. */
  lemma MissingItem(items: set<int>, subItems: set<int>, sub: seq<int>) returns (x: int)
    requires Increasing(sub) && Elems(sub) == subItems
    requires |sub| + 1 == |items| && subItems <= items
    ensures items - subItems == {x} && items == subItems + {x}
  {
    IncreasingCard(sub);
    var rest := items - subItems;
    assert items == subItems + rest;
    assert |rest| == 1;
    HasItem(rest);
    x :| x in rest;
    assert rest - {x} == {};
    assert rest == {x};
  }

  /** What the loops have established after visiting the keys in `done` and, of key `cur`, the subsets in `tried`. */
  ghost predicate Visited(done: set<seq<int>>, cur: seq<int>, tried: set<seq<int>>, iSet: seq<int>, sub: seq<int>) {
    iSet in done || (iSet == cur && sub in tried)
  }

  /** `origin` names the visited (key, subset) pair whose rule the stored value `v` under `key` is. */
  ghost predicate Justified(
    f: map<seq<int>, int>, c: real, done: set<seq<int>>, cur: seq<int>, tried: set<seq<int>>,
    key: seq<int>, origin: (seq<int>, seq<int>), v: real)
  {
    && RuleOf(f, c, origin.0, origin.1)
    && Visited(done, cur, tried, origin.0, origin.1)
    && RuleKey(origin.0, origin.1) == key
    && v == Confidence(f[origin.0], f[origin.1])
  }

  /**
   * The loop invariant of lines 35-63: every visited rule reaching `c` is
   * stored, every stored value is justified by a visited rule, and no
   * visited subset breaks.
   */
  ghost predicate RulesSoFar(
    aRules: map<seq<int>, real>, origins: map<seq<int>, (seq<int>, seq<int>)>, f: map<seq<int>, int>, c: real,
    done: set<seq<int>>, cur: seq<int>, tried: set<seq<int>>)
  {
    && (forall iSet, sub :: RuleOf(f, c, iSet, sub) && Visited(done, cur, tried, iSet, sub) ==> RuleKey(iSet, sub) in aRules)
    && (forall key :: key in aRules ==> key in origins && Justified(f, c, done, cur, tried, key, origins[key], aRules[key]))
    && (forall iSet, sub :: Breaks(f, iSet, sub) ==> !Visited(done, cur, tried, iSet, sub))
  }

  // ---------------------------------------------------------------------
  // association_rules
  // ---------------------------------------------------------------------

  /**
   * Lines 24-65. Succeeds exactly when no visited subset is missing or has
   * support zero; then every rule reaching `c` is stored, and every stored
   * key is the key of such a rule, mapped to its confidence.
   */
  method AssociationRules(fItemSets: map<seq<int>, int>, c: real := DefaultConfidence) returns (result: Result<map<seq<int>, real>, RuleError>)
    ensures result.Success? <==> forall iSet, sub :: !Breaks(fItemSets, iSet, sub)
    ensures result.Failure? && result.error.KeyError? ==>
      exists iSet :: Candidate(fItemSets, iSet, result.error.key) && result.error.key !in fItemSets
    ensures result.Failure? && result.error.ZeroDivisionError? ==>
      exists iSet, sub :: Candidate(fItemSets, iSet, sub) && sub in fItemSets && fItemSets[sub] == 0
    ensures result.Success? ==>
      forall iSet, sub :: RuleOf(fItemSets, c, iSet, sub) ==> RuleKey(iSet, sub) in result.value
    ensures result.Success? ==>
      forall key :: key in result.value ==>
        exists iSet, sub :: RuleOf(fItemSets, c, iSet, sub)
          && RuleKey(iSet, sub) == key && result.value[key] == Confidence(fItemSets[iSet], fItemSets[sub])
    ensures result.Success? ==>
      forall key :: key in result.value ==>
        exists iSet :: iSet in fItemSets && |key| == |Elems(iSet)| && Elems(key) == Elems(iSet)
  {
    var aRules: map<seq<int>, real> := map[];
    ghost var origins: map<seq<int>, (seq<int>, seq<int>)> := map[];
    var rest := fItemSets.Keys;
    ghost var done: set<seq<int>> := {};
    while rest != {}
      invariant rest <= fItemSets.Keys && done == fItemSets.Keys - rest
      invariant RulesSoFar(aRules, origins, fItemSets, c, done, [], {})
      decreases rest
    {
      HasMember(rest);
      var iSet :| iSet in rest;
      if |iSet| > 1 {
        var visited;
        visited, origins := RulesOfItemSet(fItemSets, c, iSet, aRules, origins, done);
        if visited.Failure? {
          return Failure(visited.error);
        }
        aRules := visited.value;
      } else {
        SkipItemSet(aRules, origins, fItemSets, c, done, iSet);
      }
      rest := rest - {iSet};
      done := done + {iSet};
    }
    RulesFinished(aRules, origins, fItemSets, c);
    StoredKeysShape(fItemSets, c, aRules);
    return Success(aRules);
  }

  /** Every key built by line 63 for a visited pair is a reordering of a key of the table. */
  lemma StoredKeysShape(f: map<seq<int>, int>, c: real, rules: map<seq<int>, real>)
    requires forall key :: key in rules ==> exists iSet, sub :: RuleOf(f, c, iSet, sub) && RuleKey(iSet, sub) == key
    ensures forall key :: key in rules ==> exists iSet :: iSet in f && |key| == |Elems(iSet)| && Elems(key) == Elems(iSet)
  {
    forall key | key in rules ensures exists iSet :: iSet in f && |key| == |Elems(iSet)| && Elems(key) == Elems(iSet) {
      var iSet, sub :| RuleOf(f, c, iSet, sub) && RuleKey(iSet, sub) == key;
      RuleKeyShape(iSet, sub);
    }
  }

  /**
   * Lines 40-63, the body of the outer loop for one key `iSet` of more than
   * one element: visit each subset one item short, failing as Python would,
   * and store the rules that reach `c`.
   */
  method RulesOfItemSet(
    fItemSets: map<seq<int>, int>, c: real, iSet: seq<int>, aRules: map<seq<int>, real>,
    ghost origins: map<seq<int>, (seq<int>, seq<int>)>, ghost done: set<seq<int>>)
    returns (result: Result<map<seq<int>, real>, RuleError>, ghost origins': map<seq<int>, (seq<int>, seq<int>)>)
    requires iSet in fItemSets && |iSet| > 1 && iSet !in done
    requires RulesSoFar(aRules, origins, fItemSets, c, done, [], {})
    ensures result.Success? ==> RulesSoFar(result.value, origins', fItemSets, c, done + {iSet}, [], {})
    ensures result.Failure? ==> exists sub :: Breaks(fItemSets, iSet, sub)
    ensures result.Failure? && result.error.KeyError? ==>
      Candidate(fItemSets, iSet, result.error.key) && result.error.key !in fItemSets
    ensures result.Failure? && result.error.ZeroDivisionError? ==>
      exists sub :: Candidate(fItemSets, iSet, sub) && sub in fItemSets && fItemSets[sub] == 0
  {
    var rules := aRules;
    origins' := origins;
    var sISet := fItemSets[iSet];
    var items := Elems(iSet);
    assert iSet[0] in items;
    var iSubsets := FindSubsets(items, |items| - 1);
    OpenItemSet(rules, origins', fItemSets, c, done, iSet);
    ghost var tried: set<seq<int>> := {};
    for j := 0 to |iSubsets|
      invariant forall k :: 0 <= k < j ==> iSubsets[k] in tried
      invariant RulesSoFar(rules, origins', fItemSets, c, done, iSet, tried)
    {
      var iSubset := iSubsets[j];
      assert SortedSubset(iSubset, |items| - 1, items);
      if iSubset !in fItemSets {
        assert Breaks(fItemSets, iSet, iSubset);
        return Failure(KeyError(iSubset)), origins';
      }
      var sISubset := fItemSets[iSubset];
      if sISubset == 0 {
        assert Breaks(fItemSets, iSet, iSubset);
        return Failure(ZeroDivisionError), origins';
      }
      var cRule := Confidence(sISet, sISubset);
      ghost var before := rules;
      ghost var originsBefore := origins';
      if cRule >= c {
        rules := rules[RuleKey(iSet, iSubset) := cRule];
        origins' := origins'[RuleKey(iSet, iSubset) := (iSet, iSubset)];
      }
      VisitSubset(before, rules, originsBefore, origins', fItemSets, c, done, iSet, tried, iSubset);
      PrefixSeen(iSubsets, tried, j);
      tried := tried + {iSubset};
    }
    CloseItemSet(rules, origins', fItemSets, c, done, iSet, tried);
    return Success(rules), origins';
  }

  /** Starting on a new key changes nothing that has been visited. */
  lemma OpenItemSet(
    aRules: map<seq<int>, real>, origins: map<seq<int>, (seq<int>, seq<int>)>, f: map<seq<int>, int>, c: real,
    done: set<seq<int>>, cur: seq<int>)
    requires cur !in done
    requires RulesSoFar(aRules, origins, f, c, done, [], {})
    ensures RulesSoFar(aRules, origins, f, c, done, cur, {})
  {
    forall key | key in aRules ensures Justified(f, c, done, cur, {}, key, origins[key], aRules[key]) {
      assert Justified(f, c, done, [], {}, key, origins[key], aRules[key]);
    }
  }

  /** A key with at most one element yields no subsets to visit. */
  lemma SkipItemSet(
    aRules: map<seq<int>, real>, origins: map<seq<int>, (seq<int>, seq<int>)>, f: map<seq<int>, int>, c: real,
    done: set<seq<int>>, cur: seq<int>)
    requires |cur| <= 1
    requires RulesSoFar(aRules, origins, f, c, done, [], {})
    ensures RulesSoFar(aRules, origins, f, c, done + {cur}, [], {})
  {
    forall key | key in aRules ensures Justified(f, c, done + {cur}, [], {}, key, origins[key], aRules[key]) {
      assert Justified(f, c, done, [], {}, key, origins[key], aRules[key]);
    }
  }

  /** Lines 48-63 for one subset keep `RulesSoFar`. */
  lemma VisitSubset(
    before: map<seq<int>, real>, after: map<seq<int>, real>,
    originsBefore: map<seq<int>, (seq<int>, seq<int>)>, originsAfter: map<seq<int>, (seq<int>, seq<int>)>,
    f: map<seq<int>, int>, c: real, done: set<seq<int>>, cur: seq<int>, tried: set<seq<int>>, sub: seq<int>)
    requires cur !in done
    requires RulesSoFar(before, originsBefore, f, c, done, cur, tried)
    requires Candidate(f, cur, sub) && sub in f && f[sub] != 0
    requires Confidence(f[cur], f[sub]) >= c ==>
      && after == before[RuleKey(cur, sub) := Confidence(f[cur], f[sub])]
      && originsAfter == originsBefore[RuleKey(cur, sub) := (cur, sub)]
    requires Confidence(f[cur], f[sub]) < c ==> after == before && originsAfter == originsBefore
    ensures RulesSoFar(after, originsAfter, f, c, done, cur, tried + {sub})
  {
    var tried' := tried + {sub};
    var stored := Confidence(f[cur], f[sub]) >= c;
    forall key | key in after
      ensures key in originsAfter && Justified(f, c, done, cur, tried', key, originsAfter[key], after[key])
    {
      if stored && key == RuleKey(cur, sub) {
        assert Visited(done, cur, tried', cur, sub);
      } else {
        assert Justified(f, c, done, cur, tried, key, originsBefore[key], before[key]);
      }
    }
    forall iSet, s | RuleOf(f, c, iSet, s) && Visited(done, cur, tried', iSet, s)
      ensures RuleKey(iSet, s) in after
    {
      if !(iSet == cur && s == sub) {
        assert Visited(done, cur, tried, iSet, s);
      }
    }
    forall iSet, s | Breaks(f, iSet, s) ensures !Visited(done, cur, tried', iSet, s) {
      assert !Visited(done, cur, tried, iSet, s);
    }
  }

  /** Once every subset of `cur` is tried, `cur` counts as a visited key. */
  lemma CloseItemSet(
    aRules: map<seq<int>, real>, origins: map<seq<int>, (seq<int>, seq<int>)>, f: map<seq<int>, int>, c: real,
    done: set<seq<int>>, cur: seq<int>, tried: set<seq<int>>)
    requires |Elems(cur)| >= 1
    requires RulesSoFar(aRules, origins, f, c, done, cur, tried)
    requires forall t :: SortedSubset(t, |Elems(cur)| - 1, Elems(cur)) ==> t in tried
    ensures RulesSoFar(aRules, origins, f, c, done + {cur}, [], {})
  {
    var done' := done + {cur};
    forall iSet, s | Candidate(f, iSet, s) && Visited(done', [], {}, iSet, s)
      ensures Visited(done, cur, tried, iSet, s)
    {
      if iSet == cur {
        assert SortedSubset(s, |Elems(cur)| - 1, Elems(cur));
      }
    }
    forall key | key in aRules ensures Justified(f, c, done', [], {}, key, origins[key], aRules[key]) {
      assert Justified(f, c, done, cur, tried, key, origins[key], aRules[key]);
    }
  }

  /** After every key is visited, `RulesSoFar` is the postcondition of a successful call. */
  lemma RulesFinished(
    aRules: map<seq<int>, real>, origins: map<seq<int>, (seq<int>, seq<int>)>, f: map<seq<int>, int>, c: real)
    requires RulesSoFar(aRules, origins, f, c, f.Keys, [], {})
    ensures forall iSet, sub :: !Breaks(f, iSet, sub)
    ensures forall iSet, sub :: RuleOf(f, c, iSet, sub) ==> RuleKey(iSet, sub) in aRules
    ensures forall key :: key in aRules ==>
      exists iSet, sub :: RuleOf(f, c, iSet, sub) && RuleKey(iSet, sub) == key && aRules[key] == Confidence(f[iSet], f[sub])
  {
    forall key | key in aRules
      ensures exists iSet, sub :: RuleOf(f, c, iSet, sub) && RuleKey(iSet, sub) == key && aRules[key] == Confidence(f[iSet], f[sub])
    {
      var o := origins[key];
      assert Justified(f, c, f.Keys, [], {}, key, o, aRules[key]);
      assert RuleOf(f, c, o.0, o.1) && RuleKey(o.0, o.1) == key && aRules[key] == Confidence(f[o.0], f[o.1]);
    }
  }

  // ---------------------------------------------------------------------
  // On tables the miner produces
  // ---------------------------------------------------------------------

  /**
   * A table produced by `Apriori` is downward closed with positive supports,
   * so `association_rules` never raises on it, and every rule it can form
   * has confidence in (0, 1].
   */
  lemma {:induction false} AprioriTableNeverBreaks(f: map<seq<int>, int>, ts: seq<set<int>>, s: int, maxLen: int)
    requires Apriori.IsFrequentTable(f, ts, s, maxLen)
    ensures forall iSet, sub :: !Breaks(f, iSet, sub)
    ensures forall iSet, sub :: Candidate(f, iSet, sub) ==>
      sub in f && f[sub] != 0 && 0.0 < Confidence(f[iSet], f[sub]) <= 1.0
  {
    forall iSet, sub | Candidate(f, iSet, sub)
      ensures sub in f && 0 < f[iSet] <= f[sub]
    {
      SubsetOfFrequent(f, ts, s, maxLen, iSet, sub);
    }
    forall iSet, sub | Candidate(f, iSet, sub)
      ensures sub in f && f[sub] != 0 && 0.0 < Confidence(f[iSet], f[sub]) <= 1.0
    {
      SubsetOfFrequent(f, ts, s, maxLen, iSet, sub);
      ConfidenceBounds(f[iSet], f[sub]);
    }
  }

  lemma SubsetOfFrequent(f: map<seq<int>, int>, ts: seq<set<int>>, s: int, maxLen: int, iSet: seq<int>, sub: seq<int>)
    requires Apriori.IsFrequentTable(f, ts, s, maxLen)
    requires Candidate(f, iSet, sub)
    ensures sub in f && 0 < f[iSet] <= f[sub]
  {
    assert Apriori.Frequent(iSet, ts, s);
    IncreasingCard(iSet);
    SupportAntiMonotone(Elems(sub), Elems(iSet), ts);
    assert Apriori.Frequent(sub, ts, s);
  }
}
