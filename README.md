# Co-occurrence scoring of two term classes

This project models `score_pmid_cooccurrence`, which scores how often terms
of two classes (for example diseases and genes) are mentioned by the same
PubMed articles. It is written in Dafny and its properties are proved.

The function takes one index per class. An index maps each term to the set
of PubMed ids (PMIDs) that mention it. The function then does four things.

1. It takes the union of each index's document sets and intersects the two
   unions. The result is the *corpus*: the articles that mention some term
   of each class. `total_pmids` is the corpus size.
2. It copies both indices. In each copy it intersects every term's set with
   the corpus, in key order, and deletes the terms left with nothing.
3. It visits every pair of surviving terms in `itertools.product` order:
   class-0 terms outer, class-1 terms inner. For each pair it builds the 2x2
   contingency table
   `a = |pmids0 & pmids1|`, `b = |pmids0| - a`, `c = |pmids1| - a`,
   `d = total - |pmids0 | pmids1|`.
   It also computes `expected = |pmids0| * |pmids1| / total` and
   `enrichment = a / expected`.
4. It appends one row per pair.

The model has three modules.

- `Contingency` (`contingency.dfy`) holds the table, the exact quotient
  `Ratio` and the division `Divide`. `Divide` requires a non-zero
  denominator, because Python's `/` raises `ZeroDivisionError`.
- `TermIndexes` (`term_index.dfy`) holds the index. A Python dict is a key
  sequence in insertion order plus a map.
  - The class `TermIndex` is the working copy that the restriction loop
    mutates in place: `Copy`, `Set`, `Delete`, `RestrictEntry` and
    `RestrictTo`.
  - `UnionAll` specifies `set.union(*d.values())` (lines 13-14).
    `Kept`, `Restricted`, `Remove` and `RestrictPrefix` specify the
    restriction loop.
- `Cooccurrence` (`cooccurrence.dfy`) holds the corpus, the product order,
  the rows, the specification `ScoreSpec` and the imperative `Score`.
  `Score` has nested loops that unfold the `itertools.product` of line 36,
  and its contract ties it to `ScoreSpec`.

An empty index is an error, not a precondition. `set.union(*d.values())`
on an empty dict calls `set.union` with no argument, which raises
`TypeError`. That is `Err(EmptyIndex)` here.

One reading of the code says that `total_pmids == 0` reaches a division by
zero at line 46. As written, it cannot. An empty corpus empties both
restricted indices, the pair loop never runs, and the result is an empty
table. `EmptyCorpusNoRows` proves this. Inside the loop, `CorpusNotEmpty`
and the requires on `ScoreRow` prove that both denominators are positive.

## Model

| member | source | states |
|---|---|---|
| Contingency.Tabulate | cooccurrence.py:40-43 | builds `a`, `b`, `c`, `d` from the two sets and `total_pmids` as lines 40-43 do; for any two sets the overlap is at most either size, `b` and `c` are never negative, and the four cells add up to `total_pmids` (only `d` can go negative, see `UnrestrictedTableCanGoNegative`) |
| Contingency.Divide | cooccurrence.py:46-47 | Python's true division; it can only be called with a non-zero denominator, which is where `ZeroDivisionError` would be raised, and its result is the exact quotient (cross-multiplied, `q.num · den = num · q.den`) |
| TermIndexes.UnionAll | cooccurrence.py:13-14 | `set.union(*d.values())`, taken in key order; every term's set lies inside it |
| Cooccurrence.Corpus | cooccurrence.py:13-15 | `all_pmids0 & all_pmids1`; every document shared by a class-0 term and a class-1 term is in it |
| TermIndexes.Kept | cooccurrence.py:24-28 | the key order after the restriction loop: the keys whose set meets the corpus, in their original order; it holds only original keys and is never longer |
| TermIndexes.Restricted | cooccurrence.py:24-28 | the dict after the restriction loop: each surviving term's set intersected with the corpus; no new key, and every value is non-empty and inside the corpus |
| TermIndexes.Remove | cooccurrence.py:28 | the key order after `del d[x]`: `x` no longer occurs in it, and it is no longer than before |
| Cooccurrence.ScoreRow | cooccurrence.py:37-47 | the body of the pair loop for one pair: the table of lines 40-44, `expected` over `total_pmids` and `enrichment` = `a` over `expected`; it requires `total_pmids` > 0 and both sets non-empty, so neither division raises; the row names the pair, its `expected` denominator is `total_pmids` and its `enrichment` denominator is positive |
| Cooccurrence.PairsFor | cooccurrence.py:36 | the block of `itertools.product` for one class-0 term: one pair per class-1 key |
| Cooccurrence.Product | cooccurrence.py:36 | `itertools.product(keys0, keys1)` with class-0 keys outer: len(keys0) · len(keys1) pairs |
| Cooccurrence.RowsOf | cooccurrence.py:35-50 | the `rows.append` loop over the pairs in order: exactly one row per pair |
| Contingency.ContingencySound | cooccurrence.py:40-44 | if both sets lie in the corpus: `a` = the intersection, `b` and `c` = the one-sided differences, `d` = corpus documents in neither set; all four ≥ 0; they sum to `total_pmids`; `a+b` is the size of `pmids0` and `a+c` the size of `pmids1`; `a` is at most either size |
| Contingency.UnrestrictedTableCanGoNegative | cooccurrence.py:43 | without the restriction step `d` can be negative; this is why lines 22-28 run before the tables are built |
| Contingency.TabulateExample | cooccurrence.py:40-44 | {1,2,3} against {2,3,4} in a corpus of 10 gives the table [[2,1],[1,6]] |
| Cooccurrence.ScoreRowExample | cooccurrence.py:40-47 | the same pair scored as one row: table [[2,1],[1,6]], `expected` = 9/10 and `enrichment` = 20/9 |
| TermIndexes.UnionAllMembers | cooccurrence.py:13-14 | a PMID is in `set.union(*d.values())` exactly when some key of `d` maps to a set holding it |
| Cooccurrence.CorpusMembers | cooccurrence.py:13-16 | `pmids_in_both` holds exactly the PMIDs mentioned by some class-0 term and by some class-1 term; `total_pmids` is its size |
| TermIndexes.KeptMembers | cooccurrence.py:24-28 | a key survives restriction exactly when it was a key and its set meets the corpus; surviving keys stay distinct |
| TermIndexes.RestrictionSound | cooccurrence.py:22-28 | the restricted index is well formed; it keeps exactly the terms whose set meets the corpus; each maps to its non-empty intersection with the corpus; no key is added |
| TermIndexes.RestrictedAt | cooccurrence.py:26 | each surviving term maps to `value & pmids_in_both` |
| TermIndexes.EmptyCorpusEmptiesIndex | cooccurrence.py:26-28 | with an empty corpus every term is deleted |
| TermIndexes.RemoveMembers | cooccurrence.py:28 | `del d[key]` removes exactly that key from the key order |
| TermIndexes.RemoveDistinct | cooccurrence.py:28 | deleting a key keeps the key order free of duplicates |
| TermIndexes.TermIndex.constructor | cooccurrence.py:6 | the caller's dict, passed in as `term0_to_pmids` or `term1_to_pmids`: a new index with exactly the given key order and values |
| TermIndexes.TermIndex.Copy | cooccurrence.py:22-23 | `d.copy()` is a new dict with the same key order and the same values |
| TermIndexes.TermIndex.Set | cooccurrence.py:26 | assigning to an existing key keeps the key order and replaces only that value |
| TermIndexes.TermIndex.Delete | cooccurrence.py:28 | `del` removes the key from the order and from the map and changes nothing else |
| TermIndexes.TermIndex.RestrictEntry | cooccurrence.py:26-28 | one turn of the restriction loop: intersect the value with the corpus, then delete the key if the result is empty |
| TermIndexes.TermIndex.RestrictTo | cooccurrence.py:24-28 | the loop over a snapshot of `d.items()` leaves exactly the surviving keys in their original order (`Kept`), each mapped to its intersection with the corpus (`Restricted`) |
| Cooccurrence.RestrictedCopy | cooccurrence.py:22-28 | copy and restrict: the result is `Kept` / `Restricted` of the caller's index, and the caller's index is not modified |
| Cooccurrence.ScoreSpec | cooccurrence.py:13-14 | the result is an error exactly when one of the two indices is empty |
| Cooccurrence.CorpusNotEmpty | cooccurrence.py:46 | a corpus holding a non-empty term set has positive size, so the division by `total_pmids` is safe |
| Cooccurrence.ScoreRowSound | cooccurrence.py:37-47 | a row scored from two non-empty restricted sets has a partition table, `expected` = size of `pmids0` times size of `pmids1`, over `total`, with a positive denominator, and `enrichment = a / expected` with a positive denominator; `enrichment · expected = a` exactly |
| Cooccurrence.ProductAt | cooccurrence.py:36 | product order: the pair at position i · len(keys1) + j is `(keys0[i], keys1[j])` |
| Cooccurrence.ProductMembers | cooccurrence.py:36 | every pair joins a key of the first dict with a key of the second |
| Cooccurrence.RowsOfSound | cooccurrence.py:35-50 | every accumulated row is sound in the sense of `ScoreRowSound` |
| Cooccurrence.RowsInProductOrder | cooccurrence.py:35-50 | over two restricted indices there are len(keys0) · len(keys1) rows; row i · len(keys1) + j names `keys0[i]`, `keys1[j]` and tabulates their sets |
| Cooccurrence.ScoreRows | cooccurrence.py:35-50 | one row per pair of surviving terms, len(kept0) · len(kept1) of them, each sound with positive denominators |
| Cooccurrence.ScoreCell | cooccurrence.py:36-44 | the row at i · len(kept1) + j pairs the i-th surviving class-0 term with the j-th surviving class-1 term, and its table is built from their original sets intersected with the corpus |
| Cooccurrence.ScoreRowsInOrder | cooccurrence.py:35-50 | the statement of `ScoreCell` for every cell at once: the output order is the product order of the two restricted dicts |
| Cooccurrence.EmptyCorpusNoRows | cooccurrence.py:16-47 | if the classes share no article, the result is an empty table and no division is reached |
| Cooccurrence.Score | cooccurrence.py:6-50 | the nested loops that unfold the `itertools.product` of line 36 compute exactly `ScoreSpec`, including the error case; the method has no modifies clause, so the caller's indices are unchanged |
| Cooccurrence.ScoreTwice | cooccurrence.py:22-23 | scoring the same indices twice gives the same result: the first call leaves nothing behind that the second could see |

## Left out

- `scipy.stats.fisher_exact` (line 49) is a foreign floating-point routine. The odds ratio and p-value columns are not modelled. The model keeps the contingency table that is passed to the test.
- `expected` and `enrichment` are floats in the source. Here each is an exact `Ratio` (numerator, denominator). The model proves that the denominator is positive and that `enrichment · expected = a` holds exactly. Rounding is not modelled.
- Building the `pandas.DataFrame` and naming its columns (lines 52-53) is not modelled. The result is the sequence of `Row` records in the same order. `term0_name` and `term1_name` only label columns and messages, so they are not parameters.
- The `verbose` printing (lines 17-20, 30-33 and 55-56) is output only and is not modelled.
- `eutility.py`, a paginated HTTP fetcher of PMID lists, independent of the scorer, is not part of this model: it is network I/O.
- Document sets are values here. The Python sets are shared objects between the caller's dict and its shallow copy. The source never mutates a set in place (line 26 builds a new one), so this sharing is not modelled.
- A Python dict's hashing is not modelled. Only its observable iteration order is, as the key sequence in insertion order.

