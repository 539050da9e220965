/** `score_pmid_cooccurrence`: the documents both term classes share, the
    two indices restricted to them, and one scored row for every pair of
    surviving terms. */
module Cooccurrence {
  import opened TermIndexes
  import opened Contingency

  /** `set.union(*d.values())` with an empty dict calls `set.union` with no
      argument, which raises TypeError. */
  datatype ScoreError = EmptyIndex

  datatype Result<T> = Ok(value: T) | Err(error: ScoreError)

  /** One output row. `table` is the table given to the Fisher test and its
      `a` is the `cooccurrence` column; `expected` and `enrichment` are the
      two true divisions, kept as quotients. */
  datatype Row = Row(term0: Term, term1: Term, table: Table, expected: Ratio, enrichment: Ratio)

  /** `pmids_in_both`: the documents mentioning some term of each class. */
  function Corpus(keys0: seq<Term>, docs0: map<Term, set<Pmid>>,
                  keys1: seq<Term>, docs1: map<Term, set<Pmid>>): (corpus: set<Pmid>)
    requires forall k :: k in keys0 ==> k in docs0
    requires forall k :: k in keys1 ==> k in docs1
    ensures forall i, j :: 0 <= i < |keys0| && 0 <= j < |keys1| ==>
      docs0[keys0[i]] * docs1[keys1[j]] <= corpus
  {
    UnionAll(keys0, docs0) * UnionAll(keys1, docs1)
  }

  /** The corpus holds exactly the documents that mention some term of
      class 0 and some term of class 1. */
  lemma CorpusMembers(keys0: seq<Term>, docs0: map<Term, set<Pmid>>,
                      keys1: seq<Term>, docs1: map<Term, set<Pmid>>)
    requires forall k :: k in keys0 ==> k in docs0
    requires forall k :: k in keys1 ==> k in docs1
    ensures forall p :: p in Corpus(keys0, docs0, keys1, docs1) <==>
      (exists k :: k in keys0 && p in docs0[k]) && (exists k :: k in keys1 && p in docs1[k])
  {
    UnionAllMembers(keys0, docs0);
    UnionAllMembers(keys1, docs1);
  }

  /** A corpus that holds some term's documents is not empty. */
  lemma CorpusNotEmpty(pmids: set<Pmid>, corpus: set<Pmid>)
    requires pmids != {} && pmids <= corpus
    ensures |corpus| > 0
  {
    // A subset is no larger than its superset.
  }

  /** The body of the pair loop for one pair. Both true divisions need a
      non-zero denominator, which the caller has to establish. */
  function ScoreRow(term0: Term, term1: Term, pmids0: set<Pmid>, pmids1: set<Pmid>, total: int): (r: Row)
    requires total > 0 && pmids0 != {} && pmids1 != {}
    ensures r.term0 == term0 && r.term1 == term1
    ensures r.expected.den == total && r.enrichment.den > 0
  {
    var table := Tabulate(pmids0, pmids1, total);
    var sizes := |pmids0| * |pmids1|;
    Row(term0, term1, table, Divide(sizes, total), Divide(table.a * total, sizes))
  }

  /** The row for {1,2,3} against {2,3,4} in a corpus of 10: the table
      [[2,1],[1,6]], `expected` 3 * 3 / 10 and `enrichment` 2 / (9 / 10). */
  lemma ScoreRowExample()
    ensures ScoreRow("t0", "t1", {"1", "2", "3"}, {"2", "3", "4"}, 10)
         == Row("t0", "t1", Table(2, 1, 1, 6), Ratio(9, 10), Ratio(20, 9))
  {
    TabulateExample();
    assert |{"1", "2", "3"}| == 3;
    assert |{"2", "3", "4"}| == 3;
  }

  /** `itertools.product(keys0, keys1)` for a single term0. */
  function PairsFor(term0: Term, keys1: seq<Term>): (pairs: seq<(Term, Term)>)
    ensures |pairs| == |keys1|
  {
    if keys1 == [] then []
    else PairsFor(term0, keys1[..|keys1| - 1]) + [(term0, keys1[|keys1| - 1])]
  }

  /** `itertools.product(keys0, keys1)`: term0 outer, term1 inner. */
  function Product(keys0: seq<Term>, keys1: seq<Term>): (pairs: seq<(Term, Term)>)
    ensures |pairs| == |keys0| * |keys1|
  {
    if keys0 == [] then []
    else
      var n := |keys0| - 1;
      assert (n + 1) * |keys1| == n * |keys1| + |keys1|;
      Product(keys0[..n], keys1) + PairsFor(keys0[n], keys1)
  }

  /** Both terms of every pair have a non-empty document set in the corpus. */
  predicate PairsCovered(pairs: seq<(Term, Term)>, docs0: map<Term, set<Pmid>>,
                         docs1: map<Term, set<Pmid>>, corpus: set<Pmid>)
  {
    forall k :: 0 <= k < |pairs| ==> Usable(pairs[k].0, docs0, corpus) && Usable(pairs[k].1, docs1, corpus)
  }

  /** The rows accumulated by `rows.append`, one per pair, in pair order. */
  function RowsOf(pairs: seq<(Term, Term)>, docs0: map<Term, set<Pmid>>,
                  docs1: map<Term, set<Pmid>>, corpus: set<Pmid>): (rows: seq<Row>)
    requires PairsCovered(pairs, docs0, docs1, corpus)
    ensures |rows| == |pairs|
  {
    if pairs == [] then []
    else
      var pair := pairs[|pairs| - 1];
      CorpusNotEmpty(docs0[pair.0], corpus);
      RowsOf(pairs[..|pairs| - 1], docs0, docs1, corpus)
        + [ScoreRow(pair.0, pair.1, docs0[pair.0], docs1[pair.1], |corpus|)]
  }

  /** What the scorer returns for two indices, each given as its key order
      and its map. */
  function ScoreSpec(keys0: seq<Term>, docs0: map<Term, set<Pmid>>,
                     keys1: seq<Term>, docs1: map<Term, set<Pmid>>): (r: Result<seq<Row>>)
    requires WellFormed(keys0, docs0) && WellFormed(keys1, docs1)
    ensures r.Err? <==> keys0 == [] || keys1 == []
  {
    if keys0 == [] || keys1 == [] then Err(EmptyIndex)
    else
      var corpus := Corpus(keys0, docs0, keys1, docs1);
      var kept0, kept1 := Kept(keys0, docs0, corpus), Kept(keys1, docs1, corpus);
      var res0, res1 := Restricted(docs0, corpus), Restricted(docs1, corpus);
      RestrictionSound(keys0, docs0, corpus);
      RestrictionSound(keys1, docs1, corpus);
      ProductCovered(kept0, res0, kept1, res1, corpus);
      Ok(RowsOf(Product(kept0, kept1), res0, res1, corpus))
  }

  /** What every row promises: a table of non-negative counts that add up to
      the corpus size, `expected` = |pmids0| * |pmids1| / total with
      |pmids0| = a + b and |pmids1| = a + c, and `enrichment` = a / expected;
      both denominators are positive. */
  predicate SoundRow(r: Row, total: int)
  {
    var t := r.table;
    && 0 <= t.a && 0 <= t.b && 0 <= t.c && 0 <= t.d
    && t.a + t.b + t.c + t.d == total
    && total > 0 && 0 < t.a + t.b && 0 < t.a + t.c
    && r.expected == Ratio((t.a + t.b) * (t.a + t.c), total)
    && r.enrichment == Ratio(t.a * total, r.expected.num)
    && r.expected.num > 0
  }

  /** A row scored from two restricted sets is sound, and its enrichment
      times its expected value is exactly its overlap count. */
  lemma ScoreRowSound(term0: Term, term1: Term, pmids0: set<Pmid>, pmids1: set<Pmid>, corpus: set<Pmid>)
    requires pmids0 != {} && pmids1 != {} && pmids0 <= corpus && pmids1 <= corpus
    ensures |corpus| > 0
    ensures var r := ScoreRow(term0, term1, pmids0, pmids1, |corpus|);
      && SoundRow(r, |corpus|)
      && r.term0 == term0 && r.term1 == term1
      && r.table.a == |pmids0 * pmids1|
      && r.table.a + r.table.b == |pmids0| && r.table.a + r.table.c == |pmids1|
      && r.enrichment.num * r.expected.num == r.table.a * r.enrichment.den * r.expected.den
  {
    CorpusNotEmpty(pmids0, corpus);
    ContingencySound(pmids0, pmids1, corpus);
    var r := ScoreRow(term0, term1, pmids0, pmids1, |corpus|);
    var sizes := |pmids0| * |pmids1|;
    assert r.enrichment.num * r.expected.num == (r.table.a * |corpus|) * sizes;
    assert r.table.a * r.enrichment.den * r.expected.den == r.table.a * sizes * |corpus|;
  }

  lemma {:induction false} PairsForAt(term0: Term, keys1: seq<Term>)
    ensures forall j :: 0 <= j < |keys1| ==> PairsFor(term0, keys1)[j] == (term0, keys1[j])
  {
    if keys1 != [] {
      PairsForAt(term0, keys1[..|keys1| - 1]);
    }
  }

  /** The pair in row i, column j of the product. */
  lemma {:induction false} ProductCell(keys0: seq<Term>, keys1: seq<Term>, i: int, j: int)
    requires 0 <= i < |keys0| && 0 <= j < |keys1|
    ensures 0 <= i * |keys1| + j < |Product(keys0, keys1)|
    ensures Product(keys0, keys1)[i * |keys1| + j] == (keys0[i], keys1[j])
  {
    var n, m := |keys0| - 1, |keys1|;
    var front := keys0[..n];
    var before, last := Product(front, keys1), PairsFor(keys0[n], keys1);
    assert Product(keys0, keys1) == before + last;
    if i < n {
      ProductCell(front, keys1, i, j);
      assert keys0[i] == front[i];
    } else {
      PairsForAt(keys0[n], keys1);
      assert i == n;
      assert i * m == |before|;
    }
  }

  /** Position k of pairs exists and holds pair. */
  predicate PairAt(pairs: seq<(Term, Term)>, k: int, pair: (Term, Term))
  {
    0 <= k < |pairs| && pairs[k] == pair
  }

  /** Product order: there are |keys0| * |keys1| pairs, and the pair at
      position i * |keys1| + j is (keys0[i], keys1[j]). */
  lemma ProductAt(keys0: seq<Term>, keys1: seq<Term>)
    ensures |Product(keys0, keys1)| == |keys0| * |keys1|
    ensures forall i, j :: 0 <= i < |keys0| && 0 <= j < |keys1| ==>
      PairAt(Product(keys0, keys1), i * |keys1| + j, (keys0[i], keys1[j]))
  {
    forall i, j | 0 <= i < |keys0| && 0 <= j < |keys1|
      ensures PairAt(Product(keys0, keys1), i * |keys1| + j, (keys0[i], keys1[j]))
    {
      ProductCell(keys0, keys1, i, j);
    }
  }

  /** Every pair of the product joins a term of keys0 with a term of keys1. */
  lemma {:induction false} ProductMembers(keys0: seq<Term>, keys1: seq<Term>)
    ensures forall k :: 0 <= k < |Product(keys0, keys1)| ==>
      Product(keys0, keys1)[k].0 in keys0 && Product(keys0, keys1)[k].1 in keys1
  {
    if keys0 != [] {
      var n := |keys0| - 1;
      ProductMembers(keys0[..n], keys1);
      PairsForAt(keys0[n], keys1);
      var before, last := Product(keys0[..n], keys1), PairsFor(keys0[n], keys1);
      forall k | 0 <= k < |Product(keys0, keys1)|
        ensures Product(keys0, keys1)[k].0 in keys0 && Product(keys0, keys1)[k].1 in keys1
      {
        if k < |before| {
          assert Product(keys0, keys1)[k] == before[k];
          assert before[k].0 in keys0[..n];
        } else {
          assert Product(keys0, keys1)[k] == last[k - |before|];
        }
      }
    }
  }

  /** The product of two restricted indices only pairs restricted terms. */
  lemma ProductCovered(keys0: seq<Term>, docs0: map<Term, set<Pmid>>,
                       keys1: seq<Term>, docs1: map<Term, set<Pmid>>, corpus: set<Pmid>)
    requires Covers(keys0, docs0, corpus) && Covers(keys1, docs1, corpus)
    ensures PairsCovered(Product(keys0, keys1), docs0, docs1, corpus)
  {
    ProductMembers(keys0, keys1);
  }

  /** The row accumulated for the k-th pair. */
  lemma {:induction false} RowsOfCell(pairs: seq<(Term, Term)>, docs0: map<Term, set<Pmid>>,
                                      docs1: map<Term, set<Pmid>>, corpus: set<Pmid>, k: int)
    requires PairsCovered(pairs, docs0, docs1, corpus)
    requires 0 <= k < |pairs|
    ensures k < |RowsOf(pairs, docs0, docs1, corpus)|
    ensures var row := RowsOf(pairs, docs0, docs1, corpus)[k];
      && row.term0 == pairs[k].0 && row.term1 == pairs[k].1
      && row.table == Tabulate(docs0[pairs[k].0], docs1[pairs[k].1], |corpus|)
  {
    var n := |pairs| - 1;
    if k < n {
      RowsOfCell(pairs[..n], docs0, docs1, corpus, k);
    }
  }

  /** Every row accumulated is sound. */
  lemma {:induction false} RowsOfSound(pairs: seq<(Term, Term)>, docs0: map<Term, set<Pmid>>,
                                       docs1: map<Term, set<Pmid>>, corpus: set<Pmid>)
    requires PairsCovered(pairs, docs0, docs1, corpus)
    ensures forall r :: r in RowsOf(pairs, docs0, docs1, corpus) ==> SoundRow(r, |corpus|)
  {
    if pairs != [] {
      var pair := pairs[|pairs| - 1];
      RowsOfSound(pairs[..|pairs| - 1], docs0, docs1, corpus);
      ScoreRowSound(pair.0, pair.1, docs0[pair.0], docs1[pair.1], corpus);
    }
  }

  /** Position k of rows exists and holds the pair (term0, term1) with that table. */
  predicate RowCellIs(rows: seq<Row>, k: int, term0: Term, term1: Term, table: Table)
  {
    0 <= k < |rows| && rows[k].term0 == term0 && rows[k].term1 == term1 && rows[k].table == table
  }

  /** The row in row i, column j of the product of two restricted indices. */
  lemma RowCell(keys0: seq<Term>, docs0: map<Term, set<Pmid>>,
                keys1: seq<Term>, docs1: map<Term, set<Pmid>>, corpus: set<Pmid>, i: int, j: int)
    requires 0 <= i < |keys0| && 0 <= j < |keys1| && keys0[i] in docs0 && keys1[j] in docs1
    requires PairsCovered(Product(keys0, keys1), docs0, docs1, corpus)
    ensures RowCellIs(RowsOf(Product(keys0, keys1), docs0, docs1, corpus), i * |keys1| + j,
                      keys0[i], keys1[j], Tabulate(docs0[keys0[i]], docs1[keys1[j]], |corpus|))
  {
    ProductCell(keys0, keys1, i, j);
    RowsOfCell(Product(keys0, keys1), docs0, docs1, corpus, i * |keys1| + j);
  }

  /** The rows of the product of two restricted indices: |keys0| * |keys1|
      of them, in product order. */
  lemma RowsInProductOrder(keys0: seq<Term>, docs0: map<Term, set<Pmid>>,
                           keys1: seq<Term>, docs1: map<Term, set<Pmid>>, corpus: set<Pmid>)
    requires Covers(keys0, docs0, corpus) && Covers(keys1, docs1, corpus)
    ensures PairsCovered(Product(keys0, keys1), docs0, docs1, corpus)
    ensures |RowsOf(Product(keys0, keys1), docs0, docs1, corpus)| == |keys0| * |keys1|
    ensures forall i, j :: 0 <= i < |keys0| && 0 <= j < |keys1| ==>
      RowCellIs(RowsOf(Product(keys0, keys1), docs0, docs1, corpus), i * |keys1| + j,
                keys0[i], keys1[j], Tabulate(docs0[keys0[i]], docs1[keys1[j]], |corpus|))
  {
    ProductCovered(keys0, docs0, keys1, docs1, corpus);
    forall i, j | 0 <= i < |keys0| && 0 <= j < |keys1|
      ensures RowCellIs(RowsOf(Product(keys0, keys1), docs0, docs1, corpus), i * |keys1| + j,
                        keys0[i], keys1[j], Tabulate(docs0[keys0[i]], docs1[keys1[j]], |corpus|))
    {
      RowCell(keys0, docs0, keys1, docs1, corpus, i, j);
    }
  }

  /** The scorer's promises about its rows as a whole: one row for each
      pair of surviving terms, |kept0| * |kept1| of them, each sound and
      with positive denominators. */
  lemma ScoreRows(keys0: seq<Term>, docs0: map<Term, set<Pmid>>,
                  keys1: seq<Term>, docs1: map<Term, set<Pmid>>)
    requires WellFormed(keys0, docs0) && WellFormed(keys1, docs1)
    requires keys0 != [] && keys1 != []
    ensures var corpus := Corpus(keys0, docs0, keys1, docs1);
      var rows := ScoreSpec(keys0, docs0, keys1, docs1).value;
      && |rows| == |Kept(keys0, docs0, corpus)| * |Kept(keys1, docs1, corpus)|
      && forall r :: r in rows ==> SoundRow(r, |corpus|)
  {
    var corpus := Corpus(keys0, docs0, keys1, docs1);
    var kept0, kept1 := Kept(keys0, docs0, corpus), Kept(keys1, docs1, corpus);
    var res0, res1 := Restricted(docs0, corpus), Restricted(docs1, corpus);
    RestrictionSound(keys0, docs0, corpus);
    RestrictionSound(keys1, docs1, corpus);
    ProductCovered(kept0, res0, kept1, res1, corpus);
    RowsOfSound(Product(kept0, kept1), res0, res1, corpus);
  }

  /** `ProductCovered` for the indices the scorer actually pairs: the two
      inputs restricted to a corpus by `Kept` and `Restricted`. */
  lemma RestrictedPairsCovered(keys0: seq<Term>, docs0: map<Term, set<Pmid>>,
                               keys1: seq<Term>, docs1: map<Term, set<Pmid>>, corpus: set<Pmid>)
    requires WellFormed(keys0, docs0) && WellFormed(keys1, docs1)
    ensures PairsCovered(Product(Kept(keys0, docs0, corpus), Kept(keys1, docs1, corpus)),
                         Restricted(docs0, corpus), Restricted(docs1, corpus), corpus)
  {
    RestrictionSound(keys0, docs0, corpus);
    RestrictionSound(keys1, docs1, corpus);
    ProductCovered(Kept(keys0, docs0, corpus), Restricted(docs0, corpus),
                   Kept(keys1, docs1, corpus), Restricted(docs1, corpus), corpus);
  }

  /** The scorer's rows are the rows of the product of the two restricted
      indices over the corpus. */
  lemma ScoreValue(keys0: seq<Term>, docs0: map<Term, set<Pmid>>,
                   keys1: seq<Term>, docs1: map<Term, set<Pmid>>)
    requires WellFormed(keys0, docs0) && WellFormed(keys1, docs1)
    requires keys0 != [] && keys1 != []
    ensures var corpus := Corpus(keys0, docs0, keys1, docs1);
      var res0, res1 := Restricted(docs0, corpus), Restricted(docs1, corpus);
      var pairs := Product(Kept(keys0, docs0, corpus), Kept(keys1, docs1, corpus));
      && PairsCovered(pairs, res0, res1, corpus)
      && ScoreSpec(keys0, docs0, keys1, docs1) == Ok(RowsOf(pairs, res0, res1, corpus))
  {
    RestrictedPairsCovered(keys0, docs0, keys1, docs1, Corpus(keys0, docs0, keys1, docs1));
  }

  /** The cell at row i, column j of the scorer's rows: it pairs the i-th
      surviving term of class 0 with the j-th of class 1 and tabulates
      their documents within the corpus. */
  predicate ScoreCellIs(keys0: seq<Term>, docs0: map<Term, set<Pmid>>,
                        keys1: seq<Term>, docs1: map<Term, set<Pmid>>, i: int, j: int)
    requires WellFormed(keys0, docs0) && WellFormed(keys1, docs1)
    requires keys0 != [] && keys1 != []
  {
    var corpus := Corpus(keys0, docs0, keys1, docs1);
    var kept0, kept1 := Kept(keys0, docs0, corpus), Kept(keys1, docs1, corpus);
    && 0 <= i < |kept0| && 0 <= j < |kept1|
    && RowCellIs(ScoreSpec(keys0, docs0, keys1, docs1).value, i * |kept1| + j, kept0[i], kept1[j],
                 Tabulate(docs0[kept0[i]] * corpus, docs1[kept1[j]] * corpus, |corpus|))
  }

  lemma ScoreCell(keys0: seq<Term>, docs0: map<Term, set<Pmid>>,
                  keys1: seq<Term>, docs1: map<Term, set<Pmid>>, i: int, j: int)
    requires WellFormed(keys0, docs0) && WellFormed(keys1, docs1)
    requires keys0 != [] && keys1 != []
    requires 0 <= i < |Kept(keys0, docs0, Corpus(keys0, docs0, keys1, docs1))|
    requires 0 <= j < |Kept(keys1, docs1, Corpus(keys0, docs0, keys1, docs1))|
    ensures ScoreCellIs(keys0, docs0, keys1, docs1, i, j)
  {
    var corpus := Corpus(keys0, docs0, keys1, docs1);
    var kept0, kept1 := Kept(keys0, docs0, corpus), Kept(keys1, docs1, corpus);
    var res0, res1 := Restricted(docs0, corpus), Restricted(docs1, corpus);
    ScoreValue(keys0, docs0, keys1, docs1);
    RestrictedAt(keys0, docs0, corpus, kept0[i]);
    RestrictedAt(keys1, docs1, corpus, kept1[j]);
    RowCell(kept0, res0, kept1, res1, corpus, i, j);
  }

  /** The scorer's rows in order: the row at position i * |kept1| + j pairs
      the i-th surviving term of class 0 with the j-th of class 1 and
      tabulates their documents within the corpus. */
  lemma ScoreRowsInOrder(keys0: seq<Term>, docs0: map<Term, set<Pmid>>,
                         keys1: seq<Term>, docs1: map<Term, set<Pmid>>)
    requires WellFormed(keys0, docs0) && WellFormed(keys1, docs1)
    requires keys0 != [] && keys1 != []
    ensures forall i, j ::
      && 0 <= i < |Kept(keys0, docs0, Corpus(keys0, docs0, keys1, docs1))|
      && 0 <= j < |Kept(keys1, docs1, Corpus(keys0, docs0, keys1, docs1))|
      ==> ScoreCellIs(keys0, docs0, keys1, docs1, i, j)
  {
    forall i, j |
      && 0 <= i < |Kept(keys0, docs0, Corpus(keys0, docs0, keys1, docs1))|
      && 0 <= j < |Kept(keys1, docs1, Corpus(keys0, docs0, keys1, docs1))|
      ensures ScoreCellIs(keys0, docs0, keys1, docs1, i, j)
    {
      ScoreCell(keys0, docs0, keys1, docs1, i, j);
    }
  }

  /** If the two classes share no document, both indices restrict to
      nothing and no row is produced, so no division is ever reached. */
  lemma EmptyCorpusNoRows(keys0: seq<Term>, docs0: map<Term, set<Pmid>>,
                          keys1: seq<Term>, docs1: map<Term, set<Pmid>>)
    requires WellFormed(keys0, docs0) && WellFormed(keys1, docs1)
    requires keys0 != [] && keys1 != []
    requires Corpus(keys0, docs0, keys1, docs1) == {}
    ensures ScoreSpec(keys0, docs0, keys1, docs1) == Ok([])
  {
    // With an empty corpus Kept is empty on both sides (EmptyCorpusEmptiesIndex),
    // so the product has no pair.
  }

  /** One turn of the inner loop of the scorer. */
  lemma ScoreStep(done: seq<(Term, Term)>, keys1: seq<Term>, j: nat, term0: Term,
                  docs0: map<Term, set<Pmid>>, docs1: map<Term, set<Pmid>>, corpus: set<Pmid>)
    requires j < |keys1|
    requires PairsCovered(done + PairsFor(term0, keys1[..j]), docs0, docs1, corpus)
    requires Usable(term0, docs0, corpus) && Covers(keys1, docs1, corpus)
    ensures PairsCovered(done + PairsFor(term0, keys1[..j + 1]), docs0, docs1, corpus)
    ensures |corpus| > 0
    ensures RowsOf(done + PairsFor(term0, keys1[..j + 1]), docs0, docs1, corpus)
      == RowsOf(done + PairsFor(term0, keys1[..j]), docs0, docs1, corpus)
         + [ScoreRow(term0, keys1[j], docs0[term0], docs1[keys1[j]], |corpus|)]
  {
    CorpusNotEmpty(docs0[term0], corpus);
    assert keys1[..j + 1][..j] == keys1[..j];
    var prefix := done + PairsFor(term0, keys1[..j]);
    var extended := done + PairsFor(term0, keys1[..j + 1]);
    assert extended == prefix + [(term0, keys1[j])];
    assert extended[..|extended| - 1] == prefix;
  }

  /** The inner loop over keys1 starts with no pair of its block. */
  lemma InnerStart(done: seq<(Term, Term)>, term0: Term, keys1: seq<Term>)
    ensures done + PairsFor(term0, keys1[..0]) == done
  {
    // keys1[..0] is empty, and PairsFor of no key is no pair.
  }

  /** The inner loop over keys1 completes the outer loop's next block. */
  lemma ProductStep(keys0: seq<Term>, keys1: seq<Term>, i: nat)
    requires i < |keys0|
    ensures Product(keys0[..i], keys1) + PairsFor(keys0[i], keys1[..|keys1|])
      == Product(keys0[..i + 1], keys1)
  {
    assert keys1[..|keys1|] == keys1;
    assert keys0[..i + 1][..i] == keys0[..i];
  }

  /** `d.copy()` followed by the restriction loop: the caller's index is
      only read, and the copy ends up restricted to the corpus. */
  method RestrictedCopy(index: TermIndex, corpus: set<Pmid>) returns (keys: seq<Term>, docs: map<Term, set<Pmid>>)
    requires index.Valid()
    ensures keys == Kept(index.keys, index.docs, corpus)
    ensures docs == Restricted(index.docs, corpus)
  {
    var work := new TermIndex.Copy(index);
    work.RestrictTo(corpus);
    keys, docs := work.keys, work.docs;
  }

  /** `score_pmid_cooccurrence`. The caller's indices are only read: the
      method works on copies, and its empty modifies clause guarantees that
      neither index object changes. */
  method Score(index0: TermIndex, index1: TermIndex) returns (result: Result<seq<Row>>)
    requires index0.Valid() && index1.Valid()
    ensures result == ScoreSpec(index0.keys, index0.docs, index1.keys, index1.docs)
  {
    if index0.keys == [] || index1.keys == [] {
      return Err(EmptyIndex);
    }
    var corpus := UnionAll(index0.keys, index0.docs) * UnionAll(index1.keys, index1.docs);
    var total := |corpus|;
    var keys0, docs0 := RestrictedCopy(index0, corpus);
    var keys1, docs1 := RestrictedCopy(index1, corpus);
    ScoreValue(index0.keys, index0.docs, index1.keys, index1.docs);
    RestrictionSound(index0.keys, index0.docs, corpus);
    RestrictionSound(index1.keys, index1.docs, corpus);
    var rows: seq<Row> := [];
    var i := 0;
    while i < |keys0|
      invariant 0 <= i <= |keys0|
      invariant PairsCovered(Product(keys0[..i], keys1), docs0, docs1, corpus)
      invariant rows == RowsOf(Product(keys0[..i], keys1), docs0, docs1, corpus)
    {
      var term0 := keys0[i];
      var j := 0;
      InnerStart(Product(keys0[..i], keys1), term0, keys1);
      while j < |keys1|
        invariant 0 <= j <= |keys1|
        invariant PairsCovered(Product(keys0[..i], keys1) + PairsFor(term0, keys1[..j]), docs0, docs1, corpus)
        invariant rows == RowsOf(Product(keys0[..i], keys1) + PairsFor(term0, keys1[..j]), docs0, docs1, corpus)
      {
        var term1 := keys1[j];
        var pmids0, pmids1 := docs0[term0], docs1[term1];
        CorpusNotEmpty(pmids0, corpus);
        ScoreStep(Product(keys0[..i], keys1), keys1, j, term0, docs0, docs1, corpus);
        rows := rows + [ScoreRow(term0, term1, pmids0, pmids1, total)];
        j := j + 1;
      }
      ProductStep(keys0, keys1, i);
      i := i + 1;
    }
    assert keys0[..i] == keys0;
    return Ok(rows);
  }

  /** Scoring the same two indices twice gives the same table: the first
      call leaves nothing behind that the second could see. */
  method ScoreTwice(index0: TermIndex, index1: TermIndex) returns (first: Result<seq<Row>>, second: Result<seq<Row>>)
    requires index0.Valid() && index1.Valid()
    ensures first == second
  {
    first := Score(index0, index1);
    second := Score(index0, index1);
  }
}
