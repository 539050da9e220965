/** A term index: the Python dict from a term to the set of PubMed ids that
    mention it. A dict remembers insertion order, so it is modelled as the
    sequence of its keys in that order beside the map itself. */
module TermIndexes {

  type Term = string
  type Pmid = string

  /** No term occurs twice in the key order. */
  predicate Distinct(keys: seq<Term>)
  {
    forall i, j :: 0 <= i < j < |keys| ==> keys[i] != keys[j]
  }

  /** `keys` lists every key of `docs` exactly once. */
  ghost predicate WellFormed(keys: seq<Term>, docs: map<Term, set<Pmid>>)
  {
    Distinct(keys) && forall k :: k in docs <==> k in keys
  }

  /** The term has a non-empty document set inside `corpus`. */
  predicate Usable(term: Term, docs: map<Term, set<Pmid>>, corpus: set<Pmid>)
  {
    term in docs && docs[term] != {} && docs[term] <= corpus
  }

  /** Every listed term is usable: the shape an index has after restriction. */
  predicate Covers(keys: seq<Term>, docs: map<Term, set<Pmid>>, corpus: set<Pmid>)
  {
    forall i :: 0 <= i < |keys| ==> Usable(keys[i], docs, corpus)
  }

  /** `set.union` over the values of the index, taken in key order. */
  function UnionAll(keys: seq<Term>, docs: map<Term, set<Pmid>>): (union: set<Pmid>)
    requires forall k :: k in keys ==> k in docs
    ensures forall i :: 0 <= i < |keys| ==> docs[keys[i]] <= union
  {
    if keys == [] then {}
    else docs[keys[0]] + UnionAll(keys[1..], docs)
  }

  /** A document is in the union exactly when some listed term has it. */
  lemma {:induction false} UnionAllMembers(keys: seq<Term>, docs: map<Term, set<Pmid>>)
    requires forall k :: k in keys ==> k in docs
    ensures forall p :: p in UnionAll(keys, docs) <==> exists k :: k in keys && p in docs[k]
  {
    if keys != [] {
      UnionAllMembers(keys[1..], docs);
      forall p | p in UnionAll(keys, docs)
        ensures exists k :: k in keys && p in docs[k]
      {
        assert UnionAll(keys, docs) == docs[keys[0]] + UnionAll(keys[1..], docs);
        if p !in docs[keys[0]] {
          var k :| k in keys[1..] && p in docs[k];
          assert k in keys;
        }
      }
      forall p | exists k :: k in keys && p in docs[k]
        ensures p in UnionAll(keys, docs)
      {
        var k :| k in keys && p in docs[k];
        if k != keys[0] {
          assert k in keys[1..];
        }
      }
    }
  }

  /** The terms, in their original order, whose document set meets `corpus`. */
  function Kept(keys: seq<Term>, docs: map<Term, set<Pmid>>, corpus: set<Pmid>): (kept: seq<Term>)
    requires forall k :: k in keys ==> k in docs
    ensures forall k :: k in kept ==> k in keys
    ensures |kept| <= |keys|
  {
    if keys == [] then []
    else
      var last := keys[|keys| - 1];
      Kept(keys[..|keys| - 1], docs, corpus) + (if docs[last] * corpus != {} then [last] else [])
  }

  /** Each term's document set cut down to `corpus`, dropping the terms left
      with nothing. */
  function Restricted(docs: map<Term, set<Pmid>>, corpus: set<Pmid>): (restricted: map<Term, set<Pmid>>)
    ensures restricted.Keys <= docs.Keys
    ensures forall k :: k in restricted ==> restricted[k] != {} && restricted[k] <= corpus
  {
    map k | k in docs && docs[k] * corpus != {} :: docs[k] * corpus
  }

  /** The key order after `del d[x]`. */
  function Remove(keys: seq<Term>, x: Term): (rest: seq<Term>)
    ensures x !in rest
    ensures |rest| <= |keys|
  {
    if keys == [] then []
    else (if keys[0] == x then [] else [keys[0]]) + Remove(keys[1..], x)
  }

  lemma {:induction false} RemoveMembers(keys: seq<Term>, x: Term)
    ensures forall k :: k in Remove(keys, x) <==> k in keys && k != x
  {
    if keys != [] {
      RemoveMembers(keys[1..], x);
      assert keys == [keys[0]] + keys[1..];
    }
  }

  lemma {:induction false} RemoveDistinct(keys: seq<Term>, x: Term)
    requires Distinct(keys)
    ensures Distinct(Remove(keys, x))
  {
    if keys != [] {
      var rest := Remove(keys[1..], x);
      RemoveDistinct(keys[1..], x);
      RemoveMembers(keys[1..], x);
      assert keys[0] !in keys[1..];
      if keys[0] != x {
        forall i, j | 0 <= i < j < |[keys[0]] + rest|
          ensures ([keys[0]] + rest)[i] != ([keys[0]] + rest)[j]
        {
          if i == 0 {
            assert ([keys[0]] + rest)[j] == rest[j - 1];
          }
        }
      }
    }
  }

  lemma {:induction false} RemoveAbsent(keys: seq<Term>, x: Term)
    requires x !in keys
    ensures Remove(keys, x) == keys
  {
    if keys != [] {
      RemoveAbsent(keys[1..], x);
      assert keys == [keys[0]] + keys[1..];
    }
  }

  lemma {:induction false} RemoveAppend(front: seq<Term>, back: seq<Term>, x: Term)
    ensures Remove(front + back, x) == Remove(front, x) + Remove(back, x)
  {
    if front != [] {
      assert (front + back)[1..] == front[1..] + back;
      RemoveAppend(front[1..], back, x);
    } else {
      assert front + back == back;
    }
  }

  /** Kept is an order-preserving filter: a term survives exactly when its
      set meets the corpus, and no term appears twice. */
  lemma {:induction false} KeptMembers(keys: seq<Term>, docs: map<Term, set<Pmid>>, corpus: set<Pmid>)
    requires forall k :: k in keys ==> k in docs
    ensures forall k :: k in Kept(keys, docs, corpus) <==> k in keys && docs[k] * corpus != {}
    ensures Distinct(keys) ==> Distinct(Kept(keys, docs, corpus))
  {
    if keys != [] {
      var front := keys[..|keys| - 1];
      assert keys == front + [keys[|keys| - 1]];
      KeptMembers(front, docs, corpus);
    }
  }

  /** The working copy once the keys in `done` have been processed, in
      that order, and the rest not yet. */
  function RestrictPrefix(docs: map<Term, set<Pmid>>, corpus: set<Pmid>, done: seq<Term>): map<Term, set<Pmid>>
    requires forall k :: k in done ==> k in docs
  {
    if done == [] then docs
    else
      var key := done[|done| - 1];
      var before := RestrictPrefix(docs, corpus, done[..|done| - 1]);
      if docs[key] * corpus == {} then before - {key} else before[key := docs[key] * corpus]
  }

  /** A key not yet processed still holds its original set. */
  lemma {:induction false} RestrictPrefixUntouched(docs: map<Term, set<Pmid>>, corpus: set<Pmid>, done: seq<Term>, key: Term)
    requires forall k :: k in done ==> k in docs
    requires key in docs && key !in done
    ensures key in RestrictPrefix(docs, corpus, done)
    ensures RestrictPrefix(docs, corpus, done)[key] == docs[key]
  {
    if done != [] {
      var front := done[..|done| - 1];
      assert done == front + [done[|done| - 1]];
      RestrictPrefixUntouched(docs, corpus, front, key);
    }
  }

  /** Processing distinct keys one at a time restricts exactly those keys. */
  lemma {:induction false} RestrictPrefixMeaning(docs: map<Term, set<Pmid>>, corpus: set<Pmid>, done: seq<Term>)
    requires Distinct(done) && forall k :: k in done ==> k in docs
    ensures RestrictPrefix(docs, corpus, done) ==
      map k | k in docs && (k in done ==> docs[k] * corpus != {}) ::
        if k in done then docs[k] * corpus else docs[k]
  {
    if done != [] {
      var front := done[..|done| - 1];
      assert done == front + [done[|done| - 1]];
      RestrictPrefixMeaning(docs, corpus, front);
    }
  }

  /** Where the restriction loop's cursor splits the snapshot. */
  lemma SplitAtCursor(items: seq<Term>, i: nat, kept: seq<Term>)
    requires i < |items|
    ensures items[i..] == [items[i]] + items[i + 1..]
    ensures kept + items[i..] == (kept + [items[i]]) + items[i + 1..]
    ensures items[..i + 1][..i] == items[..i]
  {
  }

  /** Kept grows by at most the next key of the snapshot. */
  lemma KeptSnoc(items: seq<Term>, i: nat, docs: map<Term, set<Pmid>>, corpus: set<Pmid>)
    requires forall k :: k in items ==> k in docs
    requires i < |items|
    ensures Kept(items[..i + 1], docs, corpus) ==
      Kept(items[..i], docs, corpus) + (if docs[items[i]] * corpus != {} then [items[i]] else [])
  {
    assert items[..i + 1][..i] == items[..i];
  }

  /** Deleting the key under the cursor of the restriction loop. */
  lemma {:induction false} RemoveAtCursor(kept: seq<Term>, key: Term, rest: seq<Term>)
    requires key !in kept && key !in rest
    ensures Remove(kept + ([key] + rest), key) == kept + rest
  {
    var single := [key];
    assert single[1..] == [];
    assert Remove(single, key) == [] + Remove([], key);
    RemoveAppend(single, rest, key);
    RemoveAbsent(rest, key);
    var tail := single + rest;
    assert Remove(tail, key) == rest;
    RemoveAppend(kept, tail, key);
    RemoveAbsent(kept, key);
  }

  /** One turn of the restriction loop, on the key order: the order after
      the turn is the one the invariant asks for. */
  lemma RestrictStepKeys(items: seq<Term>, i: nat, docs: map<Term, set<Pmid>>, corpus: set<Pmid>)
    requires WellFormed(items, docs) && i < |items|
    ensures var key, kept := items[i], Kept(items[..i], docs, corpus);
      Kept(items[..i + 1], docs, corpus) + items[i + 1..] ==
        if docs[key] * corpus == {} then Remove(kept + items[i..], key) else kept + items[i..]
  {
    var key, kept := items[i], Kept(items[..i], docs, corpus);
    SplitAtCursor(items, i, kept);
    KeptSnoc(items, i, docs, corpus);
    KeptMembers(items[..i], docs, corpus);
    assert key !in kept;
    assert key !in items[i + 1..];
    RemoveAtCursor(kept, key, items[i + 1..]);
  }

  /** One turn of the restriction loop, on the map. */
  lemma RestrictStepDocs(items: seq<Term>, i: nat, docs: map<Term, set<Pmid>>, corpus: set<Pmid>)
    requires WellFormed(items, docs) && i < |items|
    ensures var key, before := items[i], RestrictPrefix(docs, corpus, items[..i]);
      RestrictPrefix(docs, corpus, items[..i + 1]) ==
        if docs[key] * corpus == {} then before - {key} else before[key := docs[key] * corpus]
  {
    SplitAtCursor(items, i, []);
  }

  /** Before the loop nothing is restricted; after it, everything is. */
  lemma RestrictPrefixEnds(items: seq<Term>, docs: map<Term, set<Pmid>>, corpus: set<Pmid>)
    requires WellFormed(items, docs)
    ensures RestrictPrefix(docs, corpus, []) == docs
    ensures RestrictPrefix(docs, corpus, items) == Restricted(docs, corpus)
  {
    RestrictPrefixMeaning(docs, corpus, items);
  }

  /** Restriction of a well-formed index yields a well-formed index whose
      terms are exactly the original terms that meet the corpus, each mapped
      to its non-empty intersection with the corpus; no term is added. */
  lemma RestrictionSound(keys: seq<Term>, docs: map<Term, set<Pmid>>, corpus: set<Pmid>)
    requires WellFormed(keys, docs)
    ensures var keys', docs' := Kept(keys, docs, corpus), Restricted(docs, corpus);
      && WellFormed(keys', docs')
      && Covers(keys', docs', corpus)
      && (forall k :: k in docs' <==> k in docs && docs[k] * corpus != {})
      && (forall k :: k in docs' ==> docs'[k] == docs[k] * corpus)
      && docs'.Keys <= docs.Keys
  {
    KeptMembers(keys, docs, corpus);
  }

  /** A surviving term maps to its documents within the corpus. */
  lemma RestrictedAt(keys: seq<Term>, docs: map<Term, set<Pmid>>, corpus: set<Pmid>, k: Term)
    requires WellFormed(keys, docs)
    requires k in Kept(keys, docs, corpus)
    ensures k in Restricted(docs, corpus) && Restricted(docs, corpus)[k] == docs[k] * corpus
  {
    KeptMembers(keys, docs, corpus);
  }

  /** With an empty corpus nothing survives restriction. */
  lemma {:induction false} EmptyCorpusEmptiesIndex(keys: seq<Term>, docs: map<Term, set<Pmid>>)
    requires forall k :: k in keys ==> k in docs
    ensures Kept(keys, docs, {}) == []
    ensures Restricted(docs, {}) == map[]
  {
    if keys != [] {
      EmptyCorpusEmptiesIndex(keys[..|keys| - 1], docs);
    }
  }

  /** A mutable dict from term to document set. */
  class TermIndex {
    var keys: seq<Term>
    var docs: map<Term, set<Pmid>>

    ghost predicate Valid()
      reads this
    {
      WellFormed(keys, docs)
    }

    /** A dict built by the caller, for example from a literal: its keys in
        insertion order and its values. */
    constructor (keys: seq<Term>, docs: map<Term, set<Pmid>>)
      requires WellFormed(keys, docs)
      ensures Valid()
      ensures this.keys == keys && this.docs == docs
    {
      this.keys := keys;
      this.docs := docs;
    }

    /** `d.copy()`: a new dict, same keys in the same order, same values. */
    constructor Copy(other: TermIndex)
      requires other.Valid()
      ensures Valid()
      ensures keys == other.keys && docs == other.docs
    {
      keys := other.keys;
      docs := other.docs;
    }

    /** `d[key] = value`: an existing key keeps its place, a new key goes last. */
    method Set(key: Term, value: set<Pmid>)
      requires Valid()
      modifies this
      ensures Valid()
      ensures keys == if key in old(docs) then old(keys) else old(keys) + [key]
      ensures docs == old(docs)[key := value]
    {
      if key !in docs {
        keys := keys + [key];
      }
      docs := docs[key := value];
    }

    /** `del d[key]`; Python raises KeyError for a missing key, which the
        scorer never deletes. */
    method Delete(key: Term)
      requires Valid() && key in docs
      modifies this
      ensures Valid()
      ensures keys == Remove(old(keys), key)
      ensures docs == old(docs) - {key}
    {
      RemoveMembers(keys, key);
      RemoveDistinct(keys, key);
      keys := Remove(keys, key);
      docs := docs - {key};
    }

    /** The body of the restriction loop for one entry: `d[key] = value &
        corpus`, then `del d[key]` when that left it empty. */
    method RestrictEntry(key: Term, value: set<Pmid>, corpus: set<Pmid>)
      requires Valid() && key in docs
      modifies this
      ensures Valid()
      ensures keys == if value * corpus == {} then Remove(old(keys), key) else old(keys)
      ensures docs == if value * corpus == {} then old(docs) - {key} else old(docs)[key := value * corpus]
    {
      Set(key, value * corpus);
      if docs[key] == {} {
        assert docs[key := value * corpus] - {key} == docs - {key};
        Delete(key);
      }
    }

    /** The loop `for key, value in list(d.items())` of the scorer: each
        value is replaced by its intersection with `corpus`, and a key whose
        value becomes empty is deleted. */
    method RestrictTo(corpus: set<Pmid>)
      requires Valid()
      modifies this
      ensures Valid()
      ensures keys == Kept(old(keys), old(docs), corpus)
      ensures docs == Restricted(old(docs), corpus)
    {
      var items, original := keys, docs;
      var i := 0;
      RestrictPrefixEnds(items, original, corpus);
      assert items[..0] == [];
      while i < |items|
        invariant 0 <= i <= |items|
        invariant Valid()
        invariant keys == Kept(items[..i], original, corpus) + items[i..]
        invariant docs == RestrictPrefix(original, corpus, items[..i])
      {
        var key := items[i];
        var value := original[key];
        RestrictStepKeys(items, i, original, corpus);
        RestrictStepDocs(items, i, original, corpus);
        RestrictPrefixUntouched(original, corpus, items[..i], key);
        RestrictEntry(key, value, corpus);
        i := i + 1;
      }
      assert items[..i] == items;
    }
  }
}
