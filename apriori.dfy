/**
 * The level-wise A-Priori miner of src/apriori.py.
 *
 * Pass `k` (k = 0, 1, ...) counts candidate (k+1)-itemsets per transaction.
 * Pass 0 counts every single item; pass k >= 1 first shrinks each
 * transaction to the items that lie in one of its frequent k-subsets (as
 * recorded in the lookup table `lk` built by the previous pass), counts all
 * (k+1)-combinations of what is left, and writes the shrunk transaction back
 * into the caller's list. After each pass the counts that reach the support
 * threshold are added to the result; a pass that counts nothing ends the
 * search.
 *
 * The main theorem (the postcondition of `Apriori`): the result holds exactly
 * the itemsets of size 1 .. k_itemsets+1 whose support in the ORIGINAL
 * transactions reaches the threshold (and is at least one), each mapped to
 * that support. Shrinking the transactions never loses a frequent itemset.
 */
module Apriori {
  import opened Itemsets

  /** The default `s_threshold` of `find_frequent_singletones`. */
  const DefaultSingletonThreshold: int := 1161

  // ---------------------------------------------------------------------
  // Specification predicates
  // ---------------------------------------------------------------------

  /** `c` is a frequent itemset of `ts`: sorted, non-empty, with support at least `s` and at least one. */
  ghost predicate Frequent(c: seq<int>, ts: seq<set<int>>, s: int) {
    Increasing(c) && |c| >= 1 && Support(Elems(c), ts) >= s && Support(Elems(c), ts) >= 1
  }

  /** `f` maps exactly the frequent itemsets of size at most `maxLen` to their support. */
  ghost predicate IsFrequentTable(f: map<seq<int>, int>, ts: seq<set<int>>, s: int, maxLen: int) {
    && (forall c :: c in f <==> Frequent(c, ts, s) && |c| <= maxLen)
    && (forall c :: c in f ==> f[c] == Support(Elems(c), ts))
  }

  /** `counts` maps every sorted itemset of the given size that some transaction holds to its support. */
  ghost predicate CountsExact(counts: map<seq<int>, int>, ts: seq<set<int>>, size: nat) {
    && (forall c :: c in counts <==> Increasing(c) && |c| == size && Support(Elems(c), ts) >= 1)
    && (forall c :: c in counts ==> counts[c] == Support(Elems(c), ts))
  }

  /** The lookup table `Lk` after a pass over `ts` that counted itemsets of size `k`. */
  ghost predicate LookupExact(lk: map<seq<int>, bool>, ts: seq<set<int>>, k: nat, s: int) {
    && (forall d :: d in lk <==> Increasing(d) && |d| == k && Support(Elems(d), ts) >= 1)
    && (forall d :: d in lk ==> (lk[d] <==> Support(Elems(d), ts) >= s))
  }

  /** Every transaction of `ts` is a subset of the one at the same position of `ts0`. */
  ghost predicate Shrunk(ts0: seq<set<int>>, ts: seq<set<int>>) {
    |ts| == |ts0| && forall i :: 0 <= i < |ts| ==> ts[i] <= ts0[i]
  }

  /**
   * Shrinking `ts0` to `ts` kept every itemset of the given size whose support
   * in `ts0` reaches `s`: each transaction that held it still does.
   */
  ghost predicate Retains(ts0: seq<set<int>>, ts: seq<set<int>>, size: nat, s: int)
    requires |ts| == |ts0|
  {
    forall c, i ::
      Increasing(c) && |c| == size && Support(Elems(c), ts0) >= s && 0 <= i < |ts0| && Elems(c) <= ts0[i]
      ==> Elems(c) <= ts[i]
  }

  /** `kept` is what lines 30-40 make of a transaction: the items of its frequent size-`k` subsets. */
  ghost predicate IsKeptItems(kept: set<int>, t: set<int>, k: nat, lk: map<seq<int>, bool>) {
    forall x :: x in kept <==> exists d :: SortedSubset(d, k, t) && d in lk && lk[d] && x in d
  }

  /**
   * `t` is what a pass at level `k` leaves of the original basket `t0`: exactly
   * the items of the frequent `k`-itemsets of `ts0` that `t0` contains.
   */
  ghost predicate HoldsFrequentItems(t: set<int>, t0: set<int>, ts0: seq<set<int>>, k: nat, s: int) {
    forall x :: x in t <==> exists d :: Frequent(d, ts0, s) && |d| == k && Elems(d) <= t0 && x in d
  }

  /** Every transaction of `ts` is what a pass at level `k` leaves of the one at the same position of `ts0`. */
  ghost predicate HoldsFrequentLevel(ts: seq<set<int>>, ts0: seq<set<int>>, k: nat, s: int) {
    |ts| == |ts0| && forall i :: 0 <= i < |ts| ==> HoldsFrequentItems(ts[i], ts0[i], ts0, k, s)
  }

  /**
   * Basket `i` as pass `k` leaves it, computed from the original baskets
   * alone: before pass 1 the original, from pass 1 on the original cut down
   * to the items of its frequent `k`-itemsets.
   */
  ghost function KeptItems(ts0: seq<set<int>>, s: int, k: nat, i: nat): (t: set<int>)
    requires i < |ts0|
    ensures t <= ts0[i]
  {
    if k == 0 then ts0[i]
    else set x | x in ts0[i] && exists d :: Frequent(d, ts0, s) && |d| == k && Elems(d) <= ts0[i] && x in d
  }

  /** Pass `k` counts something: some basket it leaves has more than `k` items. */
  ghost predicate Counted(ts0: seq<set<int>>, s: int, k: nat) {
    exists i :: 0 <= i < |ts0| && |KeptItems(ts0, s, k, i)| > k
  }

  /** Of `passes` passes, every one before the last counted something. */
  ghost predicate CountedBefore(ts0: seq<set<int>>, s: int, passes: nat) {
    forall p: nat :: p + 1 < passes ==> Counted(ts0, s, p)
  }

  /**
   * The search stopped after `passes` passes because the last one, pass
   * `passes - 1`, counted nothing: no basket it left has `passes` items (so
   * no `passes`-itemset has positive support), and no frequent itemset has
   * that many.
   */
  ghost predicate Stopped(ts0: seq<set<int>>, ts: seq<set<int>>, s: int, passes: nat) {
    && passes >= 1
    && (forall i :: 0 <= i < |ts| ==> |ts[i]| < passes)
    && (forall c :: Frequent(c, ts0, s) ==> |c| < passes)
  }

  /** The size of the largest transaction. */
  ghost function MaxSize(ts: seq<set<int>>): (m: nat)
    ensures forall i :: 0 <= i < |ts| ==> |ts[i]| <= m
    ensures ts == [] ==> m == 0
    ensures ts != [] ==> exists i :: 0 <= i < |ts| && |ts[i]| == m
    decreases |ts|
  {
    if ts == [] then 0
    else
      var m := MaxSize(ts[..|ts| - 1]);
      if |ts[|ts| - 1]| > m then |ts[|ts| - 1]| else m
  }

  // ---------------------------------------------------------------------
  // find_frequent_singletones and generate_candidate_item_sets
  // ---------------------------------------------------------------------

  /** The items that occur in more than `s` baskets (strict `>`, unlike `Apriori`). */
  ghost predicate IsFrequentSingletonSet(r: set<int>, ts: seq<set<int>>, s: int) {
    forall x :: x in r <==> Support({x}, ts) >= 1 && Support({x}, ts) > s
  }

  /** Lines 87-89 for one basket: every item of the basket gets one more occurrence. */
  method CountBasket(itemToSupport: map<int, int>, basket: set<int>) returns (counts: map<int, int>)
    ensures forall x :: x in counts <==> x in itemToSupport || x in basket
    ensures forall x :: x in counts ==>
      counts[x] == (if x in itemToSupport then itemToSupport[x] else 0) + (if x in basket then 1 else 0)
  {
    counts := itemToSupport;
    var rest := basket;
    while rest != {}
      invariant rest <= basket
      invariant forall x :: x in counts <==> x in itemToSupport || x in basket - rest
      invariant forall x :: x in counts ==>
        counts[x] == (if x in itemToSupport then itemToSupport[x] else 0) + (if x in basket - rest then 1 else 0)
      decreases rest
    {
      HasItem(rest);
      var item :| item in rest;
      rest := rest - {item};
      counts := counts[item := (if item in counts then counts[item] else 0) + 1];
    }
  }

  /** Counts every item over all baskets, then keeps those counted more than `sThreshold` times. */
  method FindFrequentSingletons(transactions: seq<set<int>>, sThreshold: int := DefaultSingletonThreshold) returns (frequent: set<int>)
    ensures IsFrequentSingletonSet(frequent, transactions, sThreshold)
  {
    var itemToSupport: map<int, int> := map[];
    for i := 0 to |transactions|
      invariant forall x :: x in itemToSupport <==> Support({x}, transactions[..i]) >= 1
      invariant forall x :: x in itemToSupport ==> itemToSupport[x] == Support({x}, transactions[..i])
    {
      itemToSupport := CountBasket(itemToSupport, transactions[i]);
      assert transactions[..i + 1] == transactions[..i] + [transactions[i]];
      forall x ensures Support({x}, transactions[..i + 1]) == Support({x}, transactions[..i]) + (if x in transactions[i] then 1 else 0) {
        SupportSnoc({x}, transactions[..i], transactions[i]);
      }
    }
    assert transactions[..|transactions|] == transactions;
    frequent := set x | x in itemToSupport && itemToSupport[x] > sThreshold;
  }

  /**
   * The singletons `FindFrequentSingletons` returns for threshold `s` are
   * exactly the 1-itemsets `Apriori` stores for threshold `s + 1`: the two
   * functions differ only in `>` versus `>=`.
   */
  lemma SingletonsAgree(r: set<int>, f: map<seq<int>, int>, ts: seq<set<int>>, s: int, maxLen: int)
    requires IsFrequentSingletonSet(r, ts, s)
    requires IsFrequentTable(f, ts, s + 1, maxLen) && maxLen >= 1
    ensures forall x :: x in r <==> [x] in f
  {
    forall x ensures x in r <==> [x] in f {
      assert Elems([x]) == {x};
    }
  }

  /** `combinations(sorted(item_sets), k_itemsets)`: every sorted size-`k` subset, once each. */
  function GenerateCandidateItemSets(itemSets: set<int>, kItemsets: nat): (candidates: seq<seq<int>>)
    ensures forall c :: c in candidates <==> SortedSubset(c, kItemsets, itemSets)
    ensures Distinct(candidates)
  {
    var xs := SortedItems(itemSets);
    CombinationsMembership(xs, kItemsets);
    CombinationsDistinct(xs, kItemsets);
    Combinations(xs, kItemsets)
  }

  // ---------------------------------------------------------------------
  // The pieces of one pass of `apriori`
  // ---------------------------------------------------------------------

  /** Lines 46-51: add one to the count of every candidate in `ck`. */
  method CountCandidates(counts: map<seq<int>, int>, ck: seq<seq<int>>) returns (counts': map<seq<int>, int>)
    ensures forall c :: c in counts' <==> c in counts || c in ck
    ensures forall c :: c in counts' ==> counts'[c] == (if c in counts then counts[c] else 0) + multiset(ck)[c]
  {
    counts' := counts;
    for j := 0 to |ck|
      invariant forall c :: c in counts' <==> c in counts || c in ck[..j]
      invariant forall c :: c in counts' ==> counts'[c] == (if c in counts then counts[c] else 0) + multiset(ck[..j])[c]
    {
      var item := ck[j];
      assert ck[..j + 1] == ck[..j] + [item];
      if item !in counts' {
        counts' := counts'[item := 1];
      } else {
        counts' := counts'[item := counts'[item] + 1];
      }
    }
    assert ck[..|ck|] == ck;
  }

  /**
   * Lines 30-40: the items of a transaction that lie in one of its frequent
   * size-`k` subsets. The lookup `lk[kItem]` needs every size-`k` subset of
   * the transaction to be a key; `Apriori` proves that it is.
   */
  method FrequentItemsOf(transaction: set<int>, k: nat, lk: map<seq<int>, bool>) returns (fSingletons: set<int>)
    requires forall d :: SortedSubset(d, k, transaction) ==> d in lk
    ensures IsKeptItems(fSingletons, transaction, k, lk)
  {
    var kSubsets := GenerateCandidateItemSets(transaction, k);
    var kMinFItems: seq<seq<int>> := [];
    for j := 0 to |kSubsets|
      invariant forall d :: d in kMinFItems <==> d in kSubsets[..j] && d in lk && lk[d]
    {
      var kItem := kSubsets[j];
      PrefixMembers(kSubsets, j);
      if lk[kItem] {
        kMinFItems := kMinFItems + [kItem];
      }
    }
    assert kSubsets[..|kSubsets|] == kSubsets;
    fSingletons := set l, x | l in kMinFItems && x in l :: x;
    forall x ensures x in fSingletons <==> exists d :: SortedSubset(d, k, transaction) && d in lk && lk[d] && x in d {
      if x in fSingletons {
        var l :| l in kMinFItems && x in l;
        assert SortedSubset(l, k, transaction);
      }
    }
  }

  /** One transaction's step of the counting loop keeps `CountsExact`. */
  lemma CountStep(
    prev: map<seq<int>, int>, counts: map<seq<int>, int>, ck: seq<seq<int>>,
    done: seq<set<int>>, t: set<int>, size: nat)
    requires CountsExact(prev, done, size)
    requires forall c :: c in ck <==> SortedSubset(c, size, t)
    requires Distinct(ck)
    requires forall c :: c in counts <==> c in prev || c in ck
    requires forall c :: c in counts ==> counts[c] == (if c in prev then prev[c] else 0) + multiset(ck)[c]
    ensures CountsExact(counts, done + [t], size)
  {
    forall c ensures multiset(ck)[c] == if c in ck then 1 else 0 {
      DistinctMultiplicity(ck, c);
    }
    forall c ensures Support(Elems(c), done + [t]) == Support(Elems(c), done) + (if Elems(c) <= t then 1 else 0) {
      SupportSnoc(Elems(c), done, t);
    }
  }

  lemma {:induction false} DistinctMultiplicity<T>(s: seq<T>, x: T)
    requires Distinct(s)
    ensures multiset(s)[x] == if x in s then 1 else 0
    decreases |s|
  {
    if s != [] {
      var last := s[|s| - 1];
      var init := s[..|s| - 1];
      assert s == init + [last];
      assert Distinct(init);
      assert last !in init;
      DistinctMultiplicity(init, x);
    }
  }

  /**
   * The candidates a basket contributes to pass `k`: at pass 0 its own items
   * taken one at a time; later, the sorted `(k+1)`-subsets of its kept items.
   */
  method BasketCandidates(transaction: set<int>, k: nat, lk: map<seq<int>, bool>)
    returns (fSingletons: set<int>, ck: seq<seq<int>>)
    requires k > 0 ==> forall d :: SortedSubset(d, k, transaction) ==> d in lk
    ensures k == 0 ==> fSingletons == transaction
    ensures k > 0 ==> IsKeptItems(fSingletons, transaction, k, lk)
    ensures forall c :: c in ck <==> SortedSubset(c, k + 1, fSingletons)
    ensures Distinct(ck)
  {
    fSingletons := transaction;
    if k == 0 {
      // create singletons
      ck := GenerateCandidateItemSets(transaction, 1);
    } else {
      fSingletons := FrequentItemsOf(transaction, k, lk);
      ck := GenerateCandidateItemSets(fSingletons, k + 1);
    }
  }

  /**
   * Lines 23-56: one counting pass over all transactions. Pass 0 counts
   * singletons and leaves the transactions alone; pass k >= 1 replaces each
   * transaction by its frequent items and counts the (k+1)-combinations of
   * those. Either way the counts are the supports of the (k+1)-itemsets in
   * the transactions as they are after the pass.
   */
  method CountPass(transactions: array<set<int>>, k: nat, lk: map<seq<int>, bool>) returns (counts: map<seq<int>, int>)
    requires k > 0 ==> forall i, d :: 0 <= i < transactions.Length && SortedSubset(d, k, transactions[i]) ==> d in lk
    modifies transactions
    ensures k == 0 ==> transactions[..] == old(transactions[..])
    ensures k > 0 ==> forall i :: 0 <= i < transactions.Length ==> IsKeptItems(transactions[i], old(transactions[i]), k, lk)
    ensures CountsExact(counts, transactions[..], k + 1)
    ensures forall c :: c in counts ==> 1 <= counts[c] <= transactions.Length
  {
    counts := map[];
    for idx := 0 to transactions.Length
      invariant forall i :: idx <= i < transactions.Length ==> transactions[i] == old(transactions[i])
      invariant k == 0 ==> forall i :: 0 <= i < idx ==> transactions[i] == old(transactions[i])
      invariant k > 0 ==> forall i :: 0 <= i < idx ==> IsKeptItems(transactions[i], old(transactions[i]), k, lk)
      invariant CountsExact(counts, transactions[..idx], k + 1)
    {
      var fSingletons, ck := BasketCandidates(transactions[idx], k, lk);
      ghost var prev := counts;
      ghost var done := transactions[..idx];
      counts := CountCandidates(counts, ck);
      if k != 0 {
        transactions[idx] := fSingletons;
      }
      assert transactions[..idx] == done;
      assert transactions[..idx + 1] == done + [fSingletons];
      CountStep(prev, counts, ck, done, fSingletons, k + 1);
    }
    assert transactions[..transactions.Length] == transactions[..];
  }

  /**
   * Lines 59-68: mark each counted itemset in `Lk` by whether it reaches the
   * threshold (inclusive), and store those that do with their count.
   */
  method SelectFrequent(counts: map<seq<int>, int>, sThreshold: int, frequent: map<seq<int>, int>)
    returns (lk: map<seq<int>, bool>, frequent': map<seq<int>, int>)
    ensures lk.Keys == counts.Keys
    ensures forall c :: c in counts ==> (lk[c] <==> counts[c] >= sThreshold)
    ensures forall c :: c in frequent' <==> c in frequent || (c in counts && counts[c] >= sThreshold)
    ensures forall c :: c in frequent' ==>
      frequent'[c] == if c in counts && counts[c] >= sThreshold then counts[c] else frequent[c]
  {
    lk := map[];
    frequent' := frequent;
    var rest := counts.Keys;
    while rest != {}
      invariant rest <= counts.Keys
      invariant lk.Keys == counts.Keys - rest
      invariant forall c :: c in lk ==> (lk[c] <==> counts[c] >= sThreshold)
      invariant forall c :: c in frequent' <==> c in frequent || (c in counts && c !in rest && counts[c] >= sThreshold)
      invariant forall c :: c in frequent' ==>
        frequent'[c] == if c in counts && c !in rest && counts[c] >= sThreshold then counts[c] else frequent[c]
      decreases rest
    {
      HasMember(rest);
      var key :| key in rest;
      rest := rest - {key};
      var v := counts[key];
      if v >= sThreshold {
        lk := lk[key := true];
        frequent' := frequent'[key := v];
      } else {
        lk := lk[key := false];
      }
    }
  }

  // ---------------------------------------------------------------------
  // Why the passes are correct
  // ---------------------------------------------------------------------

  /** An itemset retained by the shrinking keeps its support. */
  lemma RetainedSupport(ts0: seq<set<int>>, ts: seq<set<int>>, c: seq<int>, s: int)
    requires Shrunk(ts0, ts) && Retains(ts0, ts, |c|, s)
    requires Increasing(c) && Support(Elems(c), ts0) >= s
    ensures Support(Elems(c), ts) == Support(Elems(c), ts0)
  {
    SupportShrink(Elems(c), ts0, ts);
  }

  /**
   * Pass k >= 1 keeps every frequent (k+1)-itemset: each of its items lies in
   * a frequent k-subset of every transaction that holds it.
   */
  lemma LevelStep(ts0: seq<set<int>>, cur: seq<set<int>>, next: seq<set<int>>, k: nat, s: int, lk: map<seq<int>, bool>)
    requires k >= 1
    requires Shrunk(ts0, cur) && |next| == |cur|
    requires Retains(ts0, cur, k, s)
    requires LookupExact(lk, cur, k, s)
    requires forall i :: 0 <= i < |cur| ==> IsKeptItems(next[i], cur[i], k, lk)
    ensures Shrunk(ts0, next)
    ensures Retains(ts0, next, k + 1, s)
    ensures HoldsFrequentLevel(next, ts0, k, s)
  {
    forall i | 0 <= i < |next| ensures HoldsFrequentItems(next[i], ts0[i], ts0, k, s) {
      LevelItems(ts0, cur, k, s, lk, i, next[i]);
    }
    forall i | 0 <= i < |next| ensures next[i] <= ts0[i] {
      forall x | x in next[i] ensures x in cur[i] {
        var d :| SortedSubset(d, k, cur[i]) && d in lk && lk[d] && x in d;
      }
    }
    forall c, i | Increasing(c) && |c| == k + 1 && Support(Elems(c), ts0) >= s && 0 <= i < |ts0| && Elems(c) <= ts0[i]
      ensures Elems(c) <= next[i]
    {
      forall x | x in Elems(c) ensures x in next[i] {
        KeptByLevel(ts0, cur, k, s, lk, c, i, x);
      }
    }
  }

  lemma KeptByLevel(ts0: seq<set<int>>, cur: seq<set<int>>, k: nat, s: int, lk: map<seq<int>, bool>, c: seq<int>, i: nat, x: int)
    requires k >= 1
    requires Shrunk(ts0, cur)
    requires Retains(ts0, cur, k, s)
    requires LookupExact(lk, cur, k, s)
    requires Increasing(c) && |c| == k + 1 && Support(Elems(c), ts0) >= s
    requires i < |ts0| && Elems(c) <= ts0[i] && x in Elems(c)
    ensures exists d :: SortedSubset(d, k, cur[i]) && d in lk && lk[d] && x in d
  {
    var p :| 0 <= p < |c| && c[p] == x;
    var j := if p == 0 then 1 else 0;
    var d := c[..j] + c[j + 1..];
    RemoveAt(c, j);
    assert c[p] != c[j];
    assert x in Elems(d);
    SupportAntiMonotone(Elems(d), Elems(c), ts0);
    assert Elems(d) <= cur[i];
    RetainedSupport(ts0, cur, d, s);
    SupportPositive(Elems(d), cur, i);
    assert SortedSubset(d, k, cur[i]) && d in lk && lk[d] && x in d;
  }

  /**
   * The kept items of pass k >= 1, stated against the original transactions:
   * a frequent k-subset of the shrunk basket is a frequent k-itemset of the
   * original one, and back.
   */
  lemma LevelItems(ts0: seq<set<int>>, cur: seq<set<int>>, k: nat, s: int, lk: map<seq<int>, bool>, i: nat, kept: set<int>)
    requires k >= 1
    requires Shrunk(ts0, cur) && Retains(ts0, cur, k, s)
    requires LookupExact(lk, cur, k, s)
    requires i < |cur| && IsKeptItems(kept, cur[i], k, lk)
    ensures HoldsFrequentItems(kept, ts0[i], ts0, k, s)
  {
    forall x | x in kept ensures exists d :: Frequent(d, ts0, s) && |d| == k && Elems(d) <= ts0[i] && x in d {
      var d :| SortedSubset(d, k, cur[i]) && d in lk && lk[d] && x in d;
      SupportShrink(Elems(d), ts0, cur);
      assert Frequent(d, ts0, s);
    }
    forall x | (exists d :: Frequent(d, ts0, s) && |d| == k && Elems(d) <= ts0[i] && x in d) ensures x in kept {
      var d :| Frequent(d, ts0, s) && |d| == k && Elems(d) <= ts0[i] && x in d;
      RetainedSupport(ts0, cur, d, s);
      SupportPositive(Elems(d), cur, i);
      assert SortedSubset(d, k, cur[i]) && d in lk && lk[d];
    }
  }

  /** A pass that counts something extends the run of passes that did. */
  lemma StopRuleStep(ts0: seq<set<int>>, s: int, k: nat)
    requires CountedBefore(ts0, s, k + 1) && Counted(ts0, s, k)
    ensures CountedBefore(ts0, s, k + 2)
  {
  }

  /** A basket holding exactly the items of its original's frequent `k`-itemsets is the one `KeptItems` describes. */
  lemma KeptItemsExact(t: set<int>, ts0: seq<set<int>>, k: nat, s: int, i: nat)
    requires k >= 1 && i < |ts0| && HoldsFrequentItems(t, ts0[i], ts0, k, s)
    ensures t == KeptItems(ts0, s, k, i)
  {
    forall x ensures x in t <==> x in KeptItems(ts0, s, k, i) {
      if x in t {
        var d :| Frequent(d, ts0, s) && |d| == k && Elems(d) <= ts0[i] && x in d;
      }
    }
  }

  /** A pass counts something exactly when some basket has at least as many items as the counted itemsets. */
  lemma CountsNonEmpty(counts: map<seq<int>, int>, ts: seq<set<int>>, size: nat)
    requires CountsExact(counts, ts, size)
    ensures counts.Keys != {} <==> exists i :: 0 <= i < |ts| && |ts[i]| >= size
  {
    if counts.Keys != {} {
      HasMember(counts.Keys);
      var c :| c in counts;
      SupportWitness(Elems(c), ts);
      var i :| 0 <= i < |ts| && Elems(c) <= ts[i];
      IncreasingCard(c);
      SubsetCardinality(Elems(c), ts[i]);
    }
    if exists i :: 0 <= i < |ts| && |ts[i]| >= size {
      var i :| 0 <= i < |ts| && |ts[i]| >= size;
      var xs := SortedItems(ts[i]);
      var c := xs[..size];
      assert Increasing(c);
      assert Elems(c) <= ts[i];
      SupportPositive(Elems(c), ts, i);
      assert c in counts;
    }
  }

  /** Adding the counted itemsets that reach the threshold extends the table by one level. */
  lemma TableStep(
    frequent: map<seq<int>, int>, frequent': map<seq<int>, int>, counts: map<seq<int>, int>,
    ts0: seq<set<int>>, cur: seq<set<int>>, k: nat, s: int)
    requires IsFrequentTable(frequent, ts0, s, k)
    requires CountsExact(counts, cur, k + 1)
    requires Shrunk(ts0, cur) && Retains(ts0, cur, k + 1, s)
    requires forall c :: c in frequent' <==> c in frequent || (c in counts && counts[c] >= s)
    requires forall c :: c in frequent' ==>
      frequent'[c] == if c in counts && counts[c] >= s then counts[c] else frequent[c]
    ensures IsFrequentTable(frequent', ts0, s, k + 1)
  {
    forall c | Increasing(c) && |c| == k + 1
      ensures c in frequent' <==> Frequent(c, ts0, s)
      ensures c in frequent' ==> frequent'[c] == Support(Elems(c), ts0)
    {
      SupportShrink(Elems(c), ts0, cur);
      if Support(Elems(c), ts0) >= s {
        RetainedSupport(ts0, cur, c, s);
      }
    }
  }

  /** When a pass leaves `Lk` empty, no frequent itemset is as large as that pass's candidates. */
  lemma Exhausted(lk: map<seq<int>, bool>, ts0: seq<set<int>>, cur: seq<set<int>>, k: nat, s: int)
    requires LookupExact(lk, cur, k + 1, s) && lk == map[]
    requires Shrunk(ts0, cur) && Retains(ts0, cur, k + 1, s)
    ensures forall c :: Frequent(c, ts0, s) ==> |c| <= k
  {
    forall c | Increasing(c) && |c| > k
      ensures Support(Elems(c), ts0) < s || Support(Elems(c), ts0) < 1
    {
      var d := c[..k + 1];
      assert Increasing(d);
      assert Elems(d) <= Elems(c);
      SupportAntiMonotone(Elems(d), Elems(c), ts0);
      if Support(Elems(d), ts0) >= s {
        RetainedSupport(ts0, cur, d, s);
      }
      assert d !in lk;
    }
  }

  /** A pass that left the lookup table `Lk` empty stopped the search. */
  lemma StoppedAt(
    ts0: seq<set<int>>, ts: seq<set<int>>, s: int, passes: nat,
    lk: map<seq<int>, bool>, frequent: map<seq<int>, int>)
    requires passes >= 1 && PassState(ts0, ts, passes, s, lk, frequent) && lk == map[]
    ensures Stopped(ts0, ts, s, passes)
  {
    forall i | 0 <= i < |ts| ensures |ts[i]| < passes {
      if |ts[i]| >= passes {
        var d := SortedItems(ts[i])[..passes];
        assert Increasing(d);
        assert Elems(d) <= ts[i];
        SupportPositive(Elems(d), ts, i);
      }
    }
    Exhausted(lk, ts0, ts, passes - 1, s);
  }

  /** Pass `p` counts something only if some original basket has more than `p` items. */
  lemma CountedWithinLargest(ts0: seq<set<int>>, s: int, p: nat)
    requires Counted(ts0, s, p)
    ensures p + 1 <= MaxSize(ts0)
  {
    var i :| 0 <= i < |ts0| && |KeptItems(ts0, s, p, i)| > p;
    SubsetCardinality(KeptItems(ts0, s, p, i), ts0[i]);
  }

  /** A table that already holds every frequent itemset stays exact under a larger size bound. */
  lemma TableWiden(f: map<seq<int>, int>, ts: seq<set<int>>, s: int, a: int, b: int)
    requires IsFrequentTable(f, ts, s, a)
    requires forall c :: Frequent(c, ts, s) ==> |c| <= a
    requires a <= b
    ensures IsFrequentTable(f, ts, s, b)
  {
  }

  /** Under a size bound below one the table is empty, whatever the bound. */
  lemma TableBelowOne(f: map<seq<int>, int>, ts: seq<set<int>>, s: int, a: int, b: int)
    requires IsFrequentTable(f, ts, s, a)
    requires a <= 0 && b <= 0
    ensures IsFrequentTable(f, ts, s, b)
  {
  }

  // ---------------------------------------------------------------------
  // apriori
  // ---------------------------------------------------------------------

  /**
   * The state between two passes of lines 19-72, before pass `k`: the
   * transactions only shrank, pass 0 changed nothing, the passes from 1 on
   * kept every frequent itemset and exactly the items of the last level's
   * frequent itemsets, `Lk` is the last lookup table, and `frequent` holds
   * exactly the frequent itemsets of size at most `k`.
   */
  ghost predicate PassState(
    ts0: seq<set<int>>, ts: seq<set<int>>, k: nat, s: int,
    lk: map<seq<int>, bool>, frequent: map<seq<int>, int>)
  {
    && Shrunk(ts0, ts)
    && (k <= 1 ==> ts == ts0)
    && (k >= 1 ==> Retains(ts0, ts, k, s) && LookupExact(lk, ts, k, s))
    && (k >= 2 ==> HoldsFrequentLevel(ts, ts0, k - 1, s))
    && IsFrequentTable(frequent, ts0, s, k)
  }

  /**
   * Lines 20-72, one pass `k`: count the `(k+1)`-candidates (shrinking the
   * transactions from pass 1 on), then select the frequent ones. `Lk` comes
   * out non-empty exactly when the pass counted something, and then every
   * pass so far has counted something.
   */
  method Pass(
    transactions: array<set<int>>, ghost ts0: seq<set<int>>, sThreshold: int, k: nat,
    lk: map<seq<int>, bool>, frequentItemSets: map<seq<int>, int>)
    returns (lk': map<seq<int>, bool>, frequentItemSets': map<seq<int>, int>)
    modifies transactions
    requires PassState(ts0, transactions[..], k, sThreshold, lk, frequentItemSets)
    requires CountedBefore(ts0, sThreshold, k + 1)
    ensures PassState(ts0, transactions[..], k + 1, sThreshold, lk', frequentItemSets')
    ensures lk' != map[] <==> Counted(ts0, sThreshold, k)
    ensures lk' != map[] ==> CountedBefore(ts0, sThreshold, k + 2)
  {
    ghost var cur := transactions[..];
    if k > 0 {
      // the lookup Lk[k_item] never misses
      forall i, d | 0 <= i < transactions.Length && SortedSubset(d, k, transactions[i]) ensures d in lk {
        SupportPositive(Elems(d), cur, i);
      }
    }
    var counts := CountPass(transactions, k, lk);
    ghost var next := transactions[..];
    if k == 0 {
      assert next == ts0;
    } else {
      LevelStep(ts0, cur, next, k, sThreshold, lk);
    }
    lk', frequentItemSets' := SelectFrequent(counts, sThreshold, frequentItemSets);
    TableStep(frequentItemSets, frequentItemSets', counts, ts0, next, k, sThreshold);
    forall i | 0 <= i < |next| ensures next[i] == KeptItems(ts0, sThreshold, k, i) {
      if k > 0 {
        KeptItemsExact(next[i], ts0, k, sThreshold, i);
      }
    }
    CountsNonEmpty(counts, next, k + 1);
    if lk' != map[] {
      assert counts.Keys != {};
      StopRuleStep(ts0, sThreshold, k);
    } else {
      assert counts.Keys == {};
    }
  }

  /**
   * Lines 19-72: the passes, from pass 0 until one counts nothing or
   * `k_itemsets + 1` passes have run. `passes` counts the passes run and
   * `lk` is the last lookup table.
   */
  method RunPasses(transactions: array<set<int>>, ghost ts0: seq<set<int>>, sThreshold: int, kItemsets: int)
    returns (frequentItemSets: map<seq<int>, int>, lk: map<seq<int>, bool>, ghost passes: nat)
    modifies transactions
    requires transactions[..] == ts0
    ensures passes <= (if kItemsets < 0 then 0 else kItemsets + 1)
    ensures kItemsets >= 0 ==> passes >= 1
    ensures PassState(ts0, transactions[..], passes, sThreshold, lk, frequentItemSets)
    ensures CountedBefore(ts0, sThreshold, passes)
    ensures passes < kItemsets + 1 ==> lk == map[]
  {
    frequentItemSets := map[];
    lk := map[];
    passes := 0;
    var k := 0;
    while k < kItemsets + 1
      invariant 0 <= k && (k <= kItemsets + 1 || k == 0)
      invariant passes == k
      invariant PassState(ts0, transactions[..], k, sThreshold, lk, frequentItemSets)
      invariant CountedBefore(ts0, sThreshold, k + 1)
      decreases kItemsets + 1 - k
    {
      lk, frequentItemSets := Pass(transactions, ts0, sThreshold, k, lk, frequentItemSets);
      passes := k + 1;
      if lk == map[] {
        break;
      }
      k := k + 1;
    }
  }

  /**
   * Lines 6-74. `transactions` is the caller's list, which the passes from 1
   * on overwrite in place. `passes` counts the passes run.
   */
  method Apriori(transactions: array<set<int>>, sThreshold: int, kItemsets: int)
    returns (frequentItemSets: map<seq<int>, int>, ghost passes: nat)
    modifies transactions
    ensures IsFrequentTable(frequentItemSets, old(transactions[..]), sThreshold, kItemsets + 1)
    ensures passes <= (if kItemsets < 0 then 0 else kItemsets + 1)
    ensures passes <= MaxSize(old(transactions[..])) + 1
    ensures passes < kItemsets + 1 ==> forall c :: Frequent(c, old(transactions[..]), sThreshold) ==> |c| < passes
    ensures Shrunk(old(transactions[..]), transactions[..])
    ensures Retains(old(transactions[..]), transactions[..], passes, sThreshold)
    ensures passes >= 2 ==> HoldsFrequentLevel(transactions[..], old(transactions[..]), passes - 1, sThreshold)
    ensures passes <= 1 ==> transactions[..] == old(transactions[..])
    ensures kItemsets <= 0 ==> transactions[..] == old(transactions[..])
    ensures kItemsets >= 0 ==> passes >= 1
    ensures CountedBefore(old(transactions[..]), sThreshold, passes)
    ensures 1 <= passes < kItemsets + 1 ==> forall i :: 0 <= i < transactions.Length ==> |transactions[i]| < passes
  {
    ghost var ts0 := transactions[..];
    var lk;
    frequentItemSets, lk, passes := RunPasses(transactions, ts0, sThreshold, kItemsets);
    if passes >= 2 {
      CountedWithinLargest(ts0, sThreshold, passes - 2);
    }
    if passes < kItemsets + 1 {
      StoppedAt(ts0, transactions[..], sThreshold, passes, lk, frequentItemSets);
      TableWiden(frequentItemSets, ts0, sThreshold, passes, kItemsets + 1);
    } else if passes == 0 {
      TableBelowOne(frequentItemSets, ts0, sThreshold, passes, kItemsets + 1);
    }
  }
}
