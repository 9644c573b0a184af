/**
 * Itemsets, transactions and support.
 *
 * An itemset is kept the way the miner keys its tables: a tuple of items in
 * strictly increasing order (what `combinations(sorted(...), k)` yields).
 * A transaction (basket) is a set of items. Support is the reference
 * definition every counting loop of the model is proved against: the number
 * of transactions that contain the itemset.
 */
module Itemsets {

  /** Strictly increasing: the shape of every tuple built from sorted input. */
  predicate Increasing(s: seq<int>) {
    forall i, j :: 0 <= i < j < |s| ==> s[i] < s[j]
  }

  /** The items of a tuple, as a set (Python's `set(t)`). */
  function Elems(s: seq<int>): set<int> {
    set x | x in s
  }

  /** No element occurs twice in the list. */
  predicate Distinct<T(==)>(s: seq<T>) {
    forall i, j :: 0 <= i < j < |s| ==> s[i] != s[j]
  }

  /** `c` is a size-`k` subset of `items`, written as a sorted tuple. */
  predicate SortedSubset(c: seq<int>, k: nat, items: set<int>) {
    Increasing(c) && |c| == k && Elems(c) <= items
  }

  // ---------------------------------------------------------------------
  // Sorting a set (Python's `sorted` applied to a set)
  // ---------------------------------------------------------------------

  /** A set with no members is empty (extensionality, spelled out). */
  lemma NoMemberEmpty<T>(s: set<T>)
    requires forall x :: x !in s
    ensures s == {}
  {
    assert forall x :: x in s <==> x in {};
  }

  /** A non-empty set has a member that can be picked. */
  lemma HasMember<T>(s: set<T>)
    requires s != {}
    ensures exists x :: x in s
  {
    if forall x :: x !in s {
      NoMemberEmpty(s);
    }
  }

  /**
   * The `int` instance of `HasMember`, kept separately: the generic lemma's
   * witness is stated over boxed values, which a `:|` over a `set<int>`
   * does not pick up.
   */
  lemma HasItem(s: set<int>)
    requires s != {}
    ensures exists x: int :: x in s
  {
    if forall x: int :: x !in s {
      NoMemberEmpty(s);
    }
  }

  /** The least element of a non-empty set, found by picking any element. */
  ghost function Least(s: set<int>): (m: int)
    requires s != {}
    ensures m in s && forall y :: y in s ==> m <= y
  {
    HasItem(s);
    var x :| x in s;
    var rest := s - {x};
    assert forall y :: y in s ==> y == x || y in rest;
    if rest == {} then x
    else
      var m := Least(rest);
      if x < m then x else m
  }

  /** The least element of a non-empty set (unique, so it can be computed). */
  function MinOf(s: set<int>): (m: int)
    requires s != {}
    ensures m in s && forall y :: y in s ==> m <= y
  {
    var least := Least(s);
    var m :| m in s && forall y :: y in s ==> m <= y;
    m
  }

  /** The items of `s` in ascending order. */
  function SortedItems(s: set<int>): (r: seq<int>)
    ensures Increasing(r) && Elems(r) == s && |r| == |s|
    decreases |s|
  {
    if s == {} then []
    else
      var m := MinOf(s);
      var rest := SortedItems(s - {m});
      ConsLeast(m, rest, s);
      [m] + rest
  }

  lemma ConsLeast(m: int, rest: seq<int>, s: set<int>)
    requires m in s && forall y :: y in s ==> m <= y
    requires Increasing(rest) && Elems(rest) == s - {m} && |rest| == |s - {m}|
    ensures Increasing([m] + rest) && Elems([m] + rest) == s && |[m] + rest| == |s|
  {
    var r := [m] + rest;
    assert r[0] == m;
    forall i, j | 0 <= i < j < |r| ensures r[i] < r[j] {
      assert r[j] == rest[j - 1] && rest[j - 1] in Elems(rest);
      if i > 0 { assert r[i] == rest[i - 1]; }
    }
    forall x | x in Elems(r) ensures x in s {
      if x != m {
        var i :| 0 <= i < |r| && r[i] == x;
        assert rest[i - 1] == x;
        assert x in Elems(rest);
      }
    }
    forall x | x in s ensures x in Elems(r) {
      if x == m {
        assert r[0] == x;
      } else {
        assert x in Elems(rest);
        var i :| 0 <= i < |rest| && rest[i] == x;
        assert r[i + 1] == x;
      }
    }
  }

  lemma {:induction false} IncreasingTail(c: seq<int>)
    requires Increasing(c) && |c| > 0
    ensures Increasing(c[1..])
    ensures Elems(c) == {c[0]} + Elems(c[1..])
    ensures c[0] !in Elems(c[1..])
    ensures forall y :: y in Elems(c[1..]) ==> c[0] < y
  {
    assert c == [c[0]] + c[1..];
  }

  /** A sorted tuple has as many distinct items as it has positions. */
  lemma {:induction false} IncreasingCard(c: seq<int>)
    requires Increasing(c)
    ensures |Elems(c)| == |c|
  {
    if |c| > 0 {
      IncreasingTail(c);
      IncreasingCard(c[1..]);
    }
  }

  /** Two sorted tuples with the same items are the same tuple. */
  lemma {:induction false} IncreasingUnique(a: seq<int>, b: seq<int>)
    requires Increasing(a) && Increasing(b) && Elems(a) == Elems(b)
    ensures a == b
  {
    IncreasingCard(a);
    IncreasingCard(b);
    if |a| > 0 {
      SameHeadAndTail(a, b);
      IncreasingUnique(a[1..], b[1..]);
      assert a == [a[0]] + a[1..];
      assert b == [b[0]] + b[1..];
    }
  }

  /** Two sorted tuples with the same items start alike, and their tails hold the same items. */
  lemma SameHeadAndTail(a: seq<int>, b: seq<int>)
    requires Increasing(a) && Increasing(b) && Elems(a) == Elems(b) && |a| > 0 && |b| > 0
    ensures a[0] == b[0]
    ensures Increasing(a[1..]) && Increasing(b[1..]) && Elems(a[1..]) == Elems(b[1..])
  {
    HeadLeast(a);
    HeadLeast(b);
    IncreasingTail(a);
    IncreasingTail(b);
  }

  /** The head of a sorted tuple is its least item. */
  lemma HeadLeast(c: seq<int>)
    requires Increasing(c) && |c| > 0
    ensures c[0] in Elems(c)
    ensures forall y :: y in Elems(c) ==> c[0] <= y
  {
  }

  /** Sorting the items of a sorted tuple gives the tuple back. */
  lemma SortedItemsOfIncreasing(c: seq<int>)
    requires Increasing(c)
    ensures SortedItems(Elems(c)) == c
  {
    IncreasingUnique(SortedItems(Elems(c)), c);
  }

  /** Dropping one position from a sorted tuple keeps it sorted. */
  lemma RemoveAt(c: seq<int>, j: nat)
    requires Increasing(c) && j < |c|
    ensures var d := c[..j] + c[j + 1..];
      Increasing(d) && |d| == |c| - 1 && Elems(d) == Elems(c) - {c[j]}
  {
    RemoveAtOrder(c, j);
    RemoveAtElems(c, j);
  }

  lemma RemoveAtOrder(c: seq<int>, j: nat)
    requires Increasing(c) && j < |c|
    ensures Increasing(c[..j] + c[j + 1..])
  {
    var d := c[..j] + c[j + 1..];
    forall a, b | 0 <= a < b < |d| ensures d[a] < d[b] {
      var a' := if a < j then a else a + 1;
      var b' := if b < j then b else b + 1;
      assert d[a] == c[a'] && d[b] == c[b'];
    }
  }

  lemma RemoveAtElems(c: seq<int>, j: nat)
    requires Increasing(c) && j < |c|
    ensures Elems(c[..j] + c[j + 1..]) == Elems(c) - {c[j]}
  {
    var d := c[..j] + c[j + 1..];
    forall x | x in d ensures x in c && x != c[j] {
      var a :| 0 <= a < |d| && d[a] == x;
      var a' := if a < j then a else a + 1;
      assert c[a'] == x;
      if a' < j { assert c[a'] < c[j]; } else { assert c[j] < c[a']; }
    }
    forall x | x in c && x != c[j] ensures x in d {
      var a' :| 0 <= a' < |c| && c[a'] == x;
      var a := if a' < j then a' else a' - 1;
      assert d[a] == x;
    }
  }

  // ---------------------------------------------------------------------
  // k-combinations (Python's `itertools.combinations`)
  // ---------------------------------------------------------------------

  /**
   * The size-`k` sub-tuples of `xs`, each keeping the order of `xs`: those
   * that keep `xs[0]`, then those that drop it.
   */
  function Combinations(xs: seq<int>, k: nat): (r: seq<seq<int>>)
    decreases |xs|
  {
    if k == 0 then [[]]
    else if xs == [] then []
    else
      var keep := Combinations(xs[1..], k - 1);
      seq(|keep|, i requires 0 <= i < |keep| => [xs[0]] + keep[i]) + Combinations(xs[1..], k)
  }

  /** Over sorted input, the combinations are exactly the sorted size-`k` subsets. */
  lemma {:induction false} CombinationsMembership(xs: seq<int>, k: nat)
    requires Increasing(xs)
    ensures forall c :: c in Combinations(xs, k) <==> SortedSubset(c, k, Elems(xs))
    decreases |xs|
  {
    if k == 0 {
      forall c ensures c in Combinations(xs, k) <==> SortedSubset(c, k, Elems(xs)) {
        if |c| == 0 { assert c == []; }
      }
    } else if xs == [] {
      forall c ensures c in Combinations(xs, k) <==> SortedSubset(c, k, Elems(xs)) {
        if SortedSubset(c, k, Elems(xs)) { assert c[0] in Elems(c); }
      }
    } else {
      var x0, rest := xs[0], xs[1..];
      IncreasingTail(xs);
      CombinationsMembership(rest, k - 1);
      CombinationsMembership(rest, k);
      var keep := Combinations(rest, k - 1);
      var left := seq(|keep|, i requires 0 <= i < |keep| => [x0] + keep[i]);
      var right := Combinations(rest, k);
      assert Combinations(xs, k) == left + right;
      forall c ensures c in Combinations(xs, k) <==> SortedSubset(c, k, Elems(xs)) {
        if c in left {
          var i :| 0 <= i < |keep| && left[i] == c;
          var d := keep[i];
          assert SortedSubset(d, k - 1, Elems(rest));
          assert c == [x0] + d;
          forall a, b | 0 <= a < b < |c| ensures c[a] < c[b] {
            if a == 0 { assert c[b] == d[b - 1] && d[b - 1] in Elems(rest); }
            else { assert c[a] == d[a - 1] && c[b] == d[b - 1]; }
          }
          assert Elems(c) == {x0} + Elems(d);
        }
        if SortedSubset(c, k, Elems(xs)) {
          IncreasingTail(c);
          if c[0] == x0 {
            var d := c[1..];
            assert Elems(d) <= Elems(rest) by {
              forall y | y in Elems(d) ensures y in Elems(rest) {
                assert y in Elems(xs) && y != x0;
              }
            }
            assert d in keep;
            var i :| 0 <= i < |keep| && keep[i] == d;
            assert left[i] == c;
          } else {
            assert c[0] in Elems(rest);
            assert Elems(c) <= Elems(rest) by {
              forall y | y in Elems(c) ensures y in Elems(rest) {
                assert y in Elems(xs);
              }
            }
            assert c in right;
          }
        }
      }
    }
  }

  lemma DistinctConcat<T>(a: seq<T>, b: seq<T>)
    requires Distinct(a) && Distinct(b)
    requires forall x :: x in a ==> x !in b
    ensures Distinct(a + b)
  {
    var ab := a + b;
    forall i, j | 0 <= i < j < |ab| ensures ab[i] != ab[j] {
      if i < |a| && j >= |a| {
        assert ab[i] == a[i] && ab[j] == b[j - |a|];
        assert a[i] in a;
      } else if i < |a| {
        assert ab[i] == a[i] && ab[j] == a[j];
      } else {
        assert ab[i] == b[i - |a|] && ab[j] == b[j - |a|];
      }
    }
  }

  /** Over sorted input, no combination is emitted twice. */
  lemma {:induction false} CombinationsDistinct(xs: seq<int>, k: nat)
    requires Increasing(xs)
    ensures Distinct(Combinations(xs, k))
    decreases |xs|
  {
    if k != 0 && xs != [] {
      var x0, rest := xs[0], xs[1..];
      IncreasingTail(xs);
      CombinationsDistinct(rest, k - 1);
      CombinationsDistinct(rest, k);
      CombinationsMembership(rest, k);
      var keep := Combinations(rest, k - 1);
      var left := seq(|keep|, i requires 0 <= i < |keep| => [x0] + keep[i]);
      var right := Combinations(rest, k);
      forall i, j | 0 <= i < j < |left| ensures left[i] != left[j] {
        assert left[i][1..] == keep[i] && left[j][1..] == keep[j];
      }
      forall c | c in left ensures c !in right {
        var i :| 0 <= i < |left| && left[i] == c;
        assert c[0] == x0 && x0 in Elems(c);
      }
      DistinctConcat(left, right);
    }
  }

  /** A subset is no larger than its superset. */
  lemma SubsetCardinality(a: set<int>, b: set<int>)
    requires a <= b
    ensures |a| <= |b|
  {
    assert b == a + (b - a);
  }

  /** The first `j + 1` elements of `xs` are the first `j` and the `j`-th. */
  lemma PrefixMembers<T>(xs: seq<T>, j: nat)
    requires j < |xs|
    ensures forall d :: d in xs[..j + 1] <==> d in xs[..j] || d == xs[j]
  {
    assert xs[..j + 1] == xs[..j] + [xs[j]];
  }

  /** Adding the `j`-th element of `xs` to a set holding the first `j` gives one holding the first `j + 1`. */
  lemma PrefixSeen<T>(xs: seq<T>, seen: set<T>, j: nat)
    requires j < |xs|
    requires forall k :: 0 <= k < j ==> xs[k] in seen
    ensures forall k :: 0 <= k < j + 1 ==> xs[k] in seen + {xs[j]}
  {
  }

  // ---------------------------------------------------------------------
  // Support
  // ---------------------------------------------------------------------

  /** The number of transactions in `ts` that contain every item of `items`. */
  ghost function Support(items: set<int>, ts: seq<set<int>>): (n: nat)
    ensures n <= |ts|
    decreases |ts|
  {
    if ts == [] then 0
    else Support(items, ts[..|ts| - 1]) + (if items <= ts[|ts| - 1] then 1 else 0)
  }

  lemma SupportSnoc(items: set<int>, ts: seq<set<int>>, t: set<int>)
    ensures Support(items, ts + [t]) == Support(items, ts) + (if items <= t then 1 else 0)
  {
    assert (ts + [t])[..|ts|] == ts;
  }

  /** Support is anti-monotone: a larger itemset occurs in no more transactions. */
  lemma {:induction false} SupportAntiMonotone(x: set<int>, y: set<int>, ts: seq<set<int>>)
    requires x <= y
    ensures Support(y, ts) <= Support(x, ts)
    decreases |ts|
  {
    if ts != [] {
      SupportAntiMonotone(x, y, ts[..|ts| - 1]);
    }
  }

  /** An itemset contained in some transaction has positive support. */
  lemma {:induction false} SupportPositive(x: set<int>, ts: seq<set<int>>, i: nat)
    requires i < |ts| && x <= ts[i]
    ensures Support(x, ts) >= 1
    decreases |ts|
  {
    if i < |ts| - 1 {
      SupportPositive(x, ts[..|ts| - 1], i);
    }
  }

  /** An itemset with positive support is contained in some transaction. */
  lemma {:induction false} SupportWitness(x: set<int>, ts: seq<set<int>>)
    requires Support(x, ts) >= 1
    ensures exists i :: 0 <= i < |ts| && x <= ts[i]
    decreases |ts|
  {
    if !(x <= ts[|ts| - 1]) {
      SupportWitness(x, ts[..|ts| - 1]);
      var i :| 0 <= i < |ts| - 1 && x <= ts[..|ts| - 1][i];
      assert x <= ts[i];
    }
  }

  /**
   * Shrinking every transaction can only lower support; it keeps support
   * unchanged when every transaction that contained `x` still does.
   */
  lemma {:induction false} SupportShrink(x: set<int>, ts: seq<set<int>>, us: seq<set<int>>)
    requires |ts| == |us|
    requires forall i :: 0 <= i < |us| ==> us[i] <= ts[i]
    ensures Support(x, us) <= Support(x, ts)
    ensures (forall i :: 0 <= i < |ts| && x <= ts[i] ==> x <= us[i]) ==> Support(x, us) == Support(x, ts)
    decreases |ts|
  {
    if ts != [] {
      SupportShrink(x, ts[..|ts| - 1], us[..|us| - 1]);
    }
  }

  // ---------------------------------------------------------------------
  // Confidence
  // ---------------------------------------------------------------------

  /**
   * The confidence of a rule X -> Y: supp(X u Y) / supp(X), as an exact
   * rational. A zero denominator is the caller's error path.
   */
  function Confidence(suppWhole: int, suppLeft: int): (r: real)
    requires suppLeft != 0
    ensures r * suppLeft as real == suppWhole as real
  {
    suppWhole as real / suppLeft as real
  }

  /** On supports where the antecedent is at least as common as the whole, confidence lies in (0, 1]. */
  lemma ConfidenceBounds(suppWhole: int, suppLeft: int)
    requires 0 < suppWhole <= suppLeft
    ensures 0.0 < Confidence(suppWhole, suppLeft) <= 1.0
  {
  }
}
