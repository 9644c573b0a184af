# Frequent itemsets and association rules, modelled in Dafny

This project models the market-basket mining core of `frequent_itemsets_apriori`:

- the level-wise A-Priori miner `apriori`, with its helpers `find_frequent_singletones` and `generate_candidate_item_sets` (`src/apriori.py`);
- the single-consequent rule generator `association_rules`, with `find_subsets` (`src/assoc_rules.py`);
- the general rule generator `AssociationRuleFinder.find_rules` (`src/association_rule_finder.py`).

## Representation

An itemset is a strictly increasing `seq<int>`, because that is the tuple `combinations(sorted(...))` builds. A transaction is a `set<int>`. The itemset table that `apriori` returns is a `map<seq<int>, int>`.

`apriori` overwrites the caller's transaction list in place. The model takes that list as an `array<set<int>>` and declares that it modifies it.

`find_rules` keys its table by frozensets, so its model uses `map<set<int>, int>`. Its rules are keyed by the pair (left side, right side).

Support is a ghost reference function: `Itemsets.Support(X, ts)` is the number of transactions in `ts` that contain every item of `X`. Every counting loop is proved against it.

The source's default arguments are the models' default parameter values: `s_threshold = 1161` for `find_frequent_singletones` (`Apriori.DefaultSingletonThreshold`), `c = 0.5` for `association_rules` (`AssocRules.DefaultConfidence`) and `c_threshold = 0.5` for `AssociationRuleFinder` (`RuleFinder.DefaultThreshold`).

A confidence is an exact `real` quotient of two integer supports. A Python exception (`KeyError`, `ZeroDivisionError`) becomes the `Failure` case of `Results.Result`.

## Main results

- **`Apriori.Apriori`:**
  - The returned table holds exactly the itemsets of size 1 to `k_itemsets + 1` whose support in the original transactions is at least `s_threshold` (and at least one). Each is mapped to that support.
  - Shrinking the transactions from pass 1 on never loses a frequent itemset. The `Lk[k_item]` lookup never misses.
  - Every counting pass produces exactly the supports of the `(k+1)`-itemsets in the shrunk transactions.
  - The number of passes is at most `k_itemsets + 1` and at most one more than the largest transaction's size. An early stop means no larger frequent itemset exists.
  - The number of passes is pinned from both sides. Every pass before the last counted something. Whether pass `p` counts something (`Apriori.Counted`) is defined on the original transactions alone, through the items each basket keeps (`Apriori.KeptItems`). When the search stops before `k_itemsets + 1` passes, every final transaction has fewer items than the number of passes, so the last pass counted nothing.
- **`AssocRules.AssociationRules`:**
  - It succeeds exactly when no visited subset is missing from the table or has support zero.
  - On success, every rule reaching `c` is stored under its key, and every stored key is such a rule's key, mapped to its confidence.
  - On any table `Apriori` produces, it cannot fail, and every confidence lies in (0, 1].
- **`RuleFinder.AssociationRuleFinder.FindRules`:**
  - It succeeds exactly when no antecedent that is a key has support zero.
  - On success, the result holds exactly the pairs `(L, R)` where `L` and `R` are non-empty and disjoint, `L ∪ R` and `L` are keys, and the confidence is at least the threshold. Each pair is mapped to its confidence.

## Model

| member | source | states |
|---|---|---|
| `Itemsets.SortedItems` | src/apriori.py:30 | `sorted` of a set: strictly increasing, holding exactly the set's items, one entry per item |
| `Itemsets.CombinationsMembership` | src/apriori.py:109 | the `k`-combinations of a sorted list are exactly the sorted size-`k` tuples drawn from its items |
| `Itemsets.CombinationsDistinct` | src/apriori.py:109 | no combination is produced twice |
| `Itemsets.Support` | src/apriori.py:23-51 | an itemset's support (the count the passes accumulate) never exceeds the number of transactions |
| `Itemsets.SupportAntiMonotone` | src/apriori.py:30-43 | adding items never raises support: the anti-monotonicity that justifies keeping only items of frequent `k`-subsets |
| `Itemsets.SupportShrink` | src/apriori.py:53-56 | shrinking transactions never raises support, and keeps it when every transaction holding the itemset still holds it |
| `Itemsets.Confidence` | src/assoc_rules.py:53 | the confidence times the antecedent's support is the whole itemset's support |
| `Itemsets.ConfidenceBounds` | src/assoc_rules.py:53 | the confidence is in (0, 1] when the whole's support is positive and at most the antecedent's |
| `Apriori.FindFrequentSingletons` | src/apriori.py:76-96 | returns exactly the items whose occurrence count over all baskets is strictly greater than `s_threshold` |
| `Apriori.CountBasket` | src/apriori.py:87-89 | after one basket, every item of the basket has one more occurrence, every other item keeps its count, and the counted items are the old ones plus the basket's |
| `Apriori.SingletonsAgree` | src/apriori.py:61 | the `>` filter of `find_frequent_singletones` at `s` selects exactly the 1-itemsets the `>=` filter of `apriori` keeps at `s + 1` |
| `Apriori.GenerateCandidateItemSets` | src/apriori.py:98-111 | every sorted size-`k` subset of the input, each exactly once |
| `Apriori.CountCandidates` | src/apriori.py:46-51 | each counted candidate's count grows by its number of occurrences in the candidate list; new keys are exactly the new candidates |
| `Apriori.FrequentItemsOf` | src/apriori.py:30-40 | the kept items are exactly those lying in some size-`k` subset of the transaction that `Lk` marks frequent; a lookup in `Lk` never misses |
| `Apriori.BasketCandidates` | src/apriori.py:24-43 | at pass 0 the candidates are the basket's items one at a time; later, the kept items are exactly those of the basket's frequent `k`-subsets and the candidates are every sorted `(k+1)`-subset of them, each once |
| `Apriori.CountPass` | src/apriori.py:23-56 | pass 0 leaves the transactions unchanged; later passes replace each by its kept items; the counts are exactly the supports (between 1 and the number of transactions) of the sorted `(k+1)`-itemsets in the resulting transactions |
| `Apriori.SelectFrequent` | src/apriori.py:59-68 | `Lk` has the counted keys, true exactly when the count is at least the threshold; those itemsets are added to the result with their counts and nothing else changes |
| `Apriori.RetainedSupport` | src/apriori.py:53-56 | an itemset that every shrunk transaction still holds where the original did keeps its support |
| `Apriori.LevelStep` | src/apriori.py:30-56 | a pass from 1 on keeps every transaction a subset of the original, keeps every frequent `(k+1)`-itemset inside each transaction that held it, and leaves each transaction exactly the items of the original basket's frequent `k`-itemsets |
| `Apriori.TableStep` | src/apriori.py:59-68 | adding a pass's frequent counts extends an exact table of itemsets up to size `k` to one up to size `k+1` |
| `Apriori.Exhausted` | src/apriori.py:70-72 | when no `(k+1)`-itemset has positive support in the transactions a pass left (an empty `Lk`), no frequent itemset of the original transactions has `k+1` or more items |
| `Apriori.StoppedAt` | src/apriori.py:70-72 | after a pass that leaves `Lk` empty, every transaction has fewer items than the number of passes, and no frequent itemset has that many |
| `Apriori.CountedWithinLargest` | src/apriori.py:23-51 | pass `p` counts something only if some original transaction has at least `p+1` items |
| `Apriori.LevelItems` | src/apriori.py:30-56 | the items a pass at level `k >= 1` keeps in a basket are exactly the items of the frequent `k`-itemsets of the original transactions that the original basket contains |
| `Apriori.Pass` | src/apriori.py:20-72 | one pass `k` carries the state between passes from `k` to `k + 1` (transactions only shrink, frequent itemsets kept, the table exact up to size `k + 1`); `Lk` is non-empty exactly when the pass counted something (`Counted`, judged on the original transactions), and then every pass up to this one counted something |
| `Apriori.RunPasses` | src/apriori.py:19-72 | at most `k_itemsets + 1` passes, at least one when `k_itemsets >= 0`; every pass before the last counted something; a stop before `k_itemsets + 1` passes leaves `Lk` empty; the state between passes holds after the last one |
| `Apriori.Apriori` | src/apriori.py:6-74 | the result is exactly the frequent itemsets of size 1 to `k_itemsets + 1` of the original transactions, with their supports; the pass bounds; the stop rule both ways (every pass before the last counted something, and after an early stop every transaction has fewer items than the number of passes); each transaction only shrinks, still holds every frequent itemset of the last counted size that it held, and after a pass from 1 on holds exactly the items of the original basket's frequent itemsets of that pass's size; none changes after pass 0 alone or when `k_itemsets <= 0` |
| `AssocRules.FindSubsets` | src/assoc_rules.py:6-21 | exactly the sorted size-`n` tuples drawn from the set |
| `AssocRules.RuleKey` | src/assoc_rules.py:63 | the key starts with the antecedent |
| `AssocRules.RuleKeyShape` | src/assoc_rules.py:63 | the key's length is the itemset's item count, its elements are exactly the itemset's items, and it ends with the one item the antecedent lacks |
| `AssocRules.AssociationRules` | src/assoc_rules.py:24-65 | fails exactly when some visited subset is missing (`KeyError`, naming it) or has support zero (`ZeroDivisionError`); on success, complete and sound for the rules whose confidence is at least `c`, and every stored key has exactly the items of some key of the table |
| `AssocRules.StoredKeysShape` | src/assoc_rules.py:63 | each key built for a visited pair has the length and the items of a key of the table |
| `AssocRules.RulesOfItemSet` | src/assoc_rules.py:38-63 | one key's subsets extend the invariant to that key, or the call fails on a subset of that key |
| `AssocRules.VisitSubset` | src/assoc_rules.py:48-63 | storing a rule exactly when its confidence reaches `c` keeps every visited rule stored and every stored value justified |
| `AssocRules.AprioriTableNeverBreaks` | src/assoc_rules.py:50-53 | on a table `Apriori` produces, every visited subset is a key of positive support, so the call cannot fail, and every confidence is in (0, 1] |
| `RuleFinder.Antecedents` | src/association_rule_finder.py:29 | exactly the subsets of the itemset with the given number of items |
| `RuleFinder.SplitSize` | src/association_rule_finder.py:26 | a split into two non-empty disjoint sides has more than one item, so skipping smaller keys loses no rule |
| `RuleFinder.AssociationRuleFinder.constructor` | src/association_rule_finder.py:14-15 | the threshold is the one given; it is a `const` that nothing reassigns |
| `RuleFinder.AssociationRuleFinder.FindRules` | src/association_rule_finder.py:17-42 | fails exactly when an antecedent that is a key has support zero; on success, holds exactly the rules `L -> R` with confidence at least the threshold, each mapped to its confidence |
| `RuleFinder.AssociationRuleFinder.RulesOfItemSet` | src/association_rule_finder.py:28-40 | every non-empty proper subset of one key, by increasing size, extends the invariant to that key, or the call fails on a subset of that key |
| `RuleFinder.VisitAntecedent` | src/association_rule_finder.py:32-40 | skipping an antecedent that is not a key, and storing `(L, itemset - L)` exactly when the confidence reaches the threshold, keeps the invariant |
| `RuleFinder.ConfidenceOfRuleBounded` | src/association_rule_finder.py:34 | on a table of exact supports, every rule's confidence is in [0, 1], and it is positive exactly when the rule's whole itemset has non-zero support |

## Behaviour worth knowing

- `apriori` keeps a candidate when its count is `>=` the threshold (src/apriori.py:61); its docstring only speaks of a "support threshold s" (src/apriori.py:7). `find_frequent_singletones` uses a strict `>` (src/apriori.py:95), as its docstring's "greater than s" says (src/apriori.py:79). `Apriori.SingletonsAgree` relates the two filters.
- Candidates of pass `k` are not unions of two frequent `k`-itemsets. They are all `(k+1)`-combinations of the items that, in each transaction, lie in a frequent `k`-subset (src/apriori.py:30-43). The model proves that this never loses a frequent itemset.
- The search stops when a pass counts nothing (src/apriori.py:70), or after `k_itemsets + 1` passes (src/apriori.py:19).
- `find_rules` keeps rules with confidence `>=` the threshold (src/association_rule_finder.py:37), while its docstring says "greater than".
- Both rule generators divide by the antecedent's stored support without checking it. A support of zero raises, and so does a missing subset in `association_rules`. The model returns these as failures. `AssocRules.AprioriTableNeverBreaks` shows that the miner's own tables never trigger them.

## Left out

- `src/dataset_reader.py`: file reading and parsing. Transactions are a parameter.
- The `print` calls and the `np.mean` average (src/apriori.py:71, 91-92): console output and floating point.
- `filter_frequent_item_sets` (src/apriori.py:113-158): it is unfinished. It returns an empty dict whenever it returns, because line 135 replaces the counter; with candidates that match, the comprehension of lines 127-134 raises `TypeError` first, since it puts `set` objects into a `Counter`.
- The `__main__` driver (src/apriori.py:162-172).
- Binary floating-point rounding: confidences and thresholds are exact reals.
- Iteration order over Python sets and dicts is left unspecified. The model visits dictionary keys in an arbitrary order. Where a tuple is built from a set, the model uses ascending order:
  - the antecedent part of a key at src/assoc_rules.py:63;
  - `combinations` over an unsorted set at src/assoc_rules.py:16 and src/association_rule_finder.py:29.

  As a result, which of several failures is reported first, and which of two writes to the same key happens last, are not pinned down. The postconditions hold whatever the order.
- Negative sizes: `combinations` raises `ValueError` for a negative size. The model's size parameters are natural numbers, and the core never passes a negative size.
- `AssocRules.RuleKey`: its own contract only says the key starts with the antecedent. The rest of the key's shape is stated by `AssocRules.RuleKeyShape` for the pairs the loops visit.
- A Python list of transactions may hold the same basket twice. The model keeps duplicates, because a transaction is an element of a sequence. Duplicate items inside one basket are not representable: the parser builds sets.
- `src/apriori.py:56` stores each shrunk basket as a `list` built from a set. The model keeps it a `set<int>`: the later passes sort it before taking its combinations (src/apriori.py:30), and the order of that list is Python's unspecified set order.
