/** The 2x2 contingency table built for one (term0, term1) pair, and the
    integer quotients that stand in for the floating-point `expected` and
    `enrichment` columns. */
module Contingency {

  /** The table [[a, b], [c, d]] handed to the one-sided Fisher test. */
  datatype Table = Table(a: int, b: int, c: int, d: int)

  /** A true division num / den, kept unevaluated so that no rounding enters. */
  datatype Ratio = Ratio(num: int, den: int)

  /** Python's `/`: it raises ZeroDivisionError on a zero denominator, so
      every caller has to show that the denominator is not zero. */
  function Divide(num: int, den: int): (q: Ratio)
    requires den != 0
    ensures q.den != 0 && q.num * den == num * q.den
  {
    Ratio(num, den)
  }

  /** The counts a, b, c and d of the scorer: overlap, the two one-sided counts, and the
      documents of the corpus that carry neither term. */
  function Tabulate<D>(pmids0: set<D>, pmids1: set<D>, total: int): (t: Table)
    ensures 0 <= t.a <= |pmids0| && t.a <= |pmids1|
    ensures 0 <= t.b && 0 <= t.c
    ensures t.a + t.b + t.c + t.d == total
  {
    InclusionExclusion(pmids0, pmids1);
    var a := |pmids0 * pmids1|;
    Table(a, |pmids0| - a, |pmids1| - a, total - |pmids0 + pmids1|)
  }

  /** Removing a subset removes exactly its size. */
  lemma CardDifference<T>(whole: set<T>, part: set<T>)
    requires part <= whole
    ensures |whole - part| == |whole| - |part|
  {
    // Dafny's set axioms split whole into the disjoint whole - part and part.
  }

  /** The overlap is at most either set, and the union counts it once. */
  lemma InclusionExclusion<T>(s: set<T>, t: set<T>)
    ensures |s * t| <= |s| && |s * t| <= |t|
    ensures |s + t| == |s| + |t| - |s * t|
  {
    var both := s * t;
    CardDifference(s, both);
    CardDifference(t, both);
    assert s + t == (s - both) + (t - both) + both;
    assert (s - both) * (t - both) == {};
    assert ((s - both) + (t - both)) * both == {};
  }

  /** Once both document sets lie inside the corpus, the table partitions the
      corpus: every cell is a count of real documents, so none is negative
      and together they add up to the corpus size. */
  lemma ContingencySound<D>(pmids0: set<D>, pmids1: set<D>, corpus: set<D>)
    requires pmids0 <= corpus && pmids1 <= corpus
    ensures var t := Tabulate(pmids0, pmids1, |corpus|);
      && t.a == |pmids0 * pmids1|
      && t.b == |pmids0 - pmids1|
      && t.c == |pmids1 - pmids0|
      && t.d == |corpus - (pmids0 + pmids1)|
      && 0 <= t.a && 0 <= t.b && 0 <= t.c && 0 <= t.d
      && t.a + t.b + t.c + t.d == |corpus|
      && t.a + t.b == |pmids0| && t.a + t.c == |pmids1|
      && t.a <= |pmids0| && t.a <= |pmids1|
  {
    // Follows from the contract of Tabulate (inclusion–exclusion) and the
    // cardinality of a set difference.
  }

  /** A table computed from sets that do NOT lie in the corpus can have a
      negative cell: this is why the scorer restricts both indices first. */
  lemma UnrestrictedTableCanGoNegative()
    ensures Tabulate({"1"}, {"2"}, 1).d < 0
  {
    assert {"1"} + {"2"} == {"1", "2"};
    assert {"1"} * {"2"} == {};
  }

  /** The worked example: {1,2,3} against {2,3,4} in a corpus of ten. */
  lemma TabulateExample()
    ensures Tabulate({"1", "2", "3"}, {"2", "3", "4"}, 10) == Table(2, 1, 1, 6)
  {
    assert {"1", "2", "3"} * {"2", "3", "4"} == {"2", "3"};
    assert {"1", "2", "3"} + {"2", "3", "4"} == {"1", "2", "3", "4"};
  }
}
