/** The ranker of the word-occurrence engine.

    The ranker copies every entry of the occurrence map into a vector of
    exactly the map's size, lower-casing each stored spelling, and sorts the
    vector by occurrences, largest first. The sort's treatment of equal
    counts is not specified, so the contract of `Rank` says only that the
    result is a permutation of the copied entries, in non-increasing order
    of occurrences. `Sort` is one insertion sort meeting that contract.
 */
module Ranker {
  import opened Ascii
  import opened Occurrences

  /** One row of the result: a word and how often it occurs. */
  datatype WordOccurrence = WordOccurrence(word: Bytes, occurrences: nat)

  type Ranking = seq<WordOccurrence>

  /** Non-increasing order of occurrences. */
  predicate SortedDesc(v: Ranking) {
    forall i, j :: 0 <= i < j < |v| ==> v[i].occurrences >= v[j].occurrences
  }

  /** No word appears in two rows. */
  predicate DistinctWords(v: Ranking) {
    forall i, j :: 0 <= i < j < |v| ==> v[i].word != v[j].word
  }

  /** The map's entries, in table order, each under its lower-case
      spelling. */
  function ToVector(t: Table): (v: Ranking)
    ensures |v| == |t|
    ensures forall i :: 0 <= i < |t| ==> v[i] == WordOccurrence(LowerWord(t[i].key), t[i].count)
  {
    if |t| == 0 then []
    else [WordOccurrence(LowerWord(t[0].key), t[0].count)] + ToVector(t[1..])
  }

  /** Inserts `x` into a sorted vector, keeping it sorted. */
  function Insert(x: WordOccurrence, v: Ranking): (r: Ranking)
    requires SortedDesc(v)
    ensures SortedDesc(r)
    ensures multiset(r) == multiset(v) + multiset{x}
    ensures forall e :: e in r ==> e == x || e in v
  {
    if |v| == 0 then [x]
    else if x.occurrences >= v[0].occurrences then [x] + v
    else
      var r' := Insert(x, v[1..]);
      InsertBehind(x, v, r');
      [v[0]] + r'
  }

  /** The step of `Insert` that keeps the head of `v` in front. */
  lemma InsertBehind(x: WordOccurrence, v: Ranking, r': Ranking)
    requires SortedDesc(v) && |v| > 0 && x.occurrences < v[0].occurrences
    requires SortedDesc(r') && multiset(r') == multiset(v[1..]) + multiset{x}
    requires forall e :: e in r' ==> e == x || e in v[1..]
    ensures SortedDesc([v[0]] + r')
    ensures multiset([v[0]] + r') == multiset(v) + multiset{x}
    ensures forall e :: e in [v[0]] + r' ==> e == x || e in v
  {
    assert forall e :: e in r' ==> e.occurrences <= v[0].occurrences;
    assert v == [v[0]] + v[1..];
  }

  /** Sorts by occurrences, largest first. */
  function Sort(v: Ranking): (r: Ranking)
    ensures SortedDesc(r)
    ensures multiset(r) == multiset(v)
  {
    if |v| == 0 then []
    else
      assert v == [v[0]] + v[1..];
      Insert(v[0], Sort(v[1..]))
  }

  /** The ranked vector: every map entry exactly once, lower-cased, in
      non-increasing order of occurrences. */
  function Rank(t: Table): (r: Ranking)
    ensures SortedDesc(r)
    ensures multiset(r) == multiset(ToVector(t))
    ensures |r| == |t|
    ensures forall i :: 0 <= i < |r| ==> IsLowerWord(r[i].word)
    ensures Distinct(t) ==> DistinctWords(r)
  {
    var v := ToVector(t);
    var r := Sort(v);
    PermutationOfVector(t, r);
    r
  }

  /** What any reordering of the copied entries inherits from the map. */
  lemma PermutationOfVector(t: Table, r: Ranking)
    requires multiset(r) == multiset(ToVector(t))
    ensures |r| == |t|
    ensures forall i :: 0 <= i < |r| ==> IsLowerWord(r[i].word)
    ensures Distinct(t) ==> DistinctWords(r)
  {
    var v := ToVector(t);
    assert |r| == |multiset(r)| == |multiset(v)| == |v|;
    forall i | 0 <= i < |r|
      ensures IsLowerWord(r[i].word)
    {
      RowOfVector(t, r[i]);
    }
    if Distinct(t) {
      assert DistinctWords(v);
      PermutationKeepsDistinctWords(v, r);
    }
  }

  lemma RowOfVector(t: Table, x: WordOccurrence)
    requires x in multiset(ToVector(t))
    ensures IsLowerWord(x.word)
  {
    var v := ToVector(t);
    var p :| 0 <= p < |v| && v[p] == x;
    LowerWordIsLower(t[p].key);
  }

  /** Each row of the ranking is an entry of the map and each entry of the
      map is a row of the ranking. */
  lemma RankRows(t: Table)
    ensures forall i :: 0 <= i < |Rank(t)| ==>
      exists p :: 0 <= p < |t| && Rank(t)[i] == WordOccurrence(LowerWord(t[p].key), t[p].count)
    ensures forall p :: 0 <= p < |t| ==>
      WordOccurrence(LowerWord(t[p].key), t[p].count) in Rank(t)
  {
    var r := Rank(t);
    forall i | 0 <= i < |r|
      ensures exists p :: 0 <= p < |t| && r[i] == WordOccurrence(LowerWord(t[p].key), t[p].count)
    {
      RowOfRank(t, r[i]);
    }
    forall p | 0 <= p < |t|
      ensures WordOccurrence(LowerWord(t[p].key), t[p].count) in r
    {
      EntryInRank(t, p);
    }
  }

  /** A map entry, lower-cased, is a row of the ranking. */
  lemma EntryInRank(t: Table, p: nat)
    requires p < |t|
    ensures WordOccurrence(LowerWord(t[p].key), t[p].count) in Rank(t)
  {
    assert ToVector(t)[p] in multiset(Rank(t));
  }

  /** A row of the ranking is a lower-cased map entry. */
  lemma RowOfRank(t: Table, x: WordOccurrence)
    requires x in Rank(t)
    ensures exists p :: 0 <= p < |t| && x == WordOccurrence(LowerWord(t[p].key), t[p].count)
  {
    assert x in multiset(ToVector(t));
    var p :| 0 <= p < |ToVector(t)| && ToVector(t)[p] == x;
  }

  /** The sum of the occurrences of all rows. */
  function TotalOccurrences(v: Ranking): nat {
    if |v| == 0 then 0 else v[0].occurrences + TotalOccurrences(v[1..])
  }

  lemma TotalOccurrencesSplit(v: Ranking, p: nat)
    requires p < |v|
    ensures TotalOccurrences(v) == v[p].occurrences + TotalOccurrences(v[..p] + v[p + 1..])
  {
    SliceAround(v, p);
    TotalOccurrencesAppend(v[..p], [v[p]] + v[p + 1..]);
    TotalOccurrencesCons(v[p], v[p + 1..]);
    TotalOccurrencesAppend(v[..p], v[p + 1..]);
  }

  lemma SliceAround(v: Ranking, p: nat)
    requires p < |v|
    ensures v == v[..p] + ([v[p]] + v[p + 1..])
  {
  }

  lemma TotalOccurrencesCons(e: WordOccurrence, rest: Ranking)
    ensures TotalOccurrences([e] + rest) == e.occurrences + TotalOccurrences(rest)
  {
    assert ([e] + rest)[1..] == rest;
  }

  lemma {:induction false} TotalOccurrencesAppend(x: Ranking, y: Ranking)
    ensures TotalOccurrences(x + y) == TotalOccurrences(x) + TotalOccurrences(y)
    decreases |x|
  {
    if |x| > 0 {
      assert (x + y)[1..] == x[1..] + y;
      TotalOccurrencesAppend(x[1..], y);
    } else {
      assert x + y == y;
    }
  }

  /** Reordering rows does not change the sum of their occurrences. */
  lemma {:induction false} TotalOccurrencesPermutation(a: Ranking, b: Ranking)
    requires multiset(a) == multiset(b)
    ensures TotalOccurrences(a) == TotalOccurrences(b)
    decreases |a|
  {
    if |a| == 0 {
      assert |b| == |multiset(b)| == 0;
    } else {
      assert a[0] in multiset(b);
      var p :| 0 <= p < |b| && b[p] == a[0];
      RemoveMatching(a, b, p);
      TotalOccurrencesPermutation(a[1..], b[..p] + b[p + 1..]);
      TotalOccurrencesSplit(b, p);
    }
  }

  /** Removing the same row from two reorderings of each other leaves two
      reorderings of each other. */
  lemma RemoveMatching(a: Ranking, b: Ranking, p: nat)
    requires multiset(a) == multiset(b) && |a| > 0 && p < |b| && b[p] == a[0]
    ensures multiset(a[1..]) == multiset(b[..p] + b[p + 1..])
  {
    MultisetCons(a);
    MultisetRemove(b, p);
    CancelOne(a[0], multiset(a[1..]), multiset(b[..p] + b[p + 1..]));
  }

  lemma CancelOne<T>(e: T, x: multiset<T>, y: multiset<T>)
    requires multiset{e} + x == multiset{e} + y
    ensures x == y
  {
    forall z
      ensures x[z] == y[z]
    {
      assert (multiset{e} + x)[z] == (multiset{e} + y)[z];
    }
  }

  lemma MultisetCons(a: Ranking)
    requires |a| > 0
    ensures multiset(a) == multiset{a[0]} + multiset(a[1..])
  {
    assert a == [a[0]] + a[1..];
  }

  lemma MultisetRemove(b: Ranking, p: nat)
    requires p < |b|
    ensures multiset(b) == multiset{b[p]} + multiset(b[..p] + b[p + 1..])
  {
    assert b == b[..p] + [b[p]] + b[p + 1..];
  }

  /** Copying the map keeps the sum of its counts. */
  lemma {:induction false} TotalOfVector(t: Table)
    ensures TotalOccurrences(ToVector(t)) == Total(t)
  {
    if |t| > 0 {
      assert ToVector(t)[1..] == ToVector(t[1..]);
      TotalOfVector(t[1..]);
    }
  }

  /** Two positions holding the same row make that row occur twice. */
  lemma TwiceInMultiset(b: Ranking, i: nat, j: nat)
    requires i < j < |b| && b[i] == b[j]
    ensures multiset(b)[b[i]] >= 2
  {
    assert b == b[..j] + b[j..];
    assert b[i] in b[..j];
    assert b[j] in b[j..];
    assert multiset(b) == multiset(b[..j]) + multiset(b[j..]);
  }

  /** Rows with pairwise different words occur at most once each. */
  lemma {:induction false} DistinctWordsOnce(a: Ranking, x: WordOccurrence)
    requires DistinctWords(a)
    ensures multiset(a)[x] <= 1
  {
    if |a| > 0 {
      assert a == [a[0]] + a[1..];
      assert DistinctWords(a[1..]);
      DistinctWordsOnce(a[1..], x);
      if a[0] == x {
        assert x !in a[1..];
      }
    }
  }

  /** Reordering rows keeps the words pairwise different. */
  lemma PermutationKeepsDistinctWords(a: Ranking, b: Ranking)
    requires DistinctWords(a) && multiset(a) == multiset(b)
    ensures DistinctWords(b)
  {
    forall i, j | 0 <= i < j < |b|
      ensures b[i].word != b[j].word
    {
      if b[i] == b[j] {
        TwiceInMultiset(b, i, j);
        DistinctWordsOnce(a, b[i]);
      } else {
        assert b[i] in multiset(a) && b[j] in multiset(a);
        var p :| 0 <= p < |a| && a[p] == b[i];
        var q :| 0 <= q < |a| && a[q] == b[j];
        assert p != q;
      }
    }
  }
}
