/** The word-occurrence pipeline: split the file content into words, count
    them in a fresh case-insensitive map, rank the map, discard it.

    `SplitAndSort` is the pipeline as one function; `SplitWords` is the
    splitting-and-counting loop written as a loop over byte positions, and is
    proved to build the same map as the functional description.
 */
module WordCount {
  import opened Ascii
  import opened Tokenizer
  import opened Occurrences
  import opened Ranker

  /** The ranking of the words of `content`, counted ignoring case. */
  function SplitAndSort(content: Bytes): (r: Ranking)
    ensures SortedDesc(r)
    ensures DistinctWords(r)
    ensures forall i :: 0 <= i < |r| ==> IsLowerWord(r[i].word)
  {
    Rank(Aggregate(Split(content)))
  }

  /** The counting loop: take the word-part run at the cursor, skip the
      non-word run after it, and put the run into the map unless it is
      empty; stop when the input is exhausted. */
  method SplitWords(content: Bytes) returns (t: Table)
    ensures t == Aggregate(Split(content))
    ensures Distinct(t)
    ensures Total(t) == |Split(content)|
  {
    t := [];
    var pos := 0;
    while pos < |content|
      invariant 0 <= pos <= |content|
      invariant Distinct(t)
      invariant PutAll(t, Split(content[pos..])) == Aggregate(Split(content))
      decreases |content| - pos
    {
      var end := SkipSpan(content, pos);
      var next := SkipCSpan(content, end);
      SplitStepAt(content, pos, end, next);
      ghost var later := Split(content[next..]);
      if end > pos {
        var word := content[pos..end];
        PutAllCons(t, word, later);
        t := Put(t, word);
      } else {
        assert Split(content[pos..]) == later;
      }
      pos := next;
    }
    assert content[pos..] == [];
    PutAllCounts([], Split(content));
  }

  /** End of the run of word-part bytes that starts at `from`. */
  method SkipSpan(content: Bytes, from: nat) returns (end: nat)
    requires from <= |content|
    ensures from <= end <= |content|
    ensures forall i :: from <= i < end ==> IsWordPart(content[i])
    ensures end < |content| ==> !IsWordPart(content[end])
  {
    end := from;
    while end < |content| && IsWordPart(content[end])
      invariant from <= end <= |content|
      invariant forall i :: from <= i < end ==> IsWordPart(content[i])
      decreases |content| - end
    {
      end := end + 1;
    }
  }

  /** End of the run of non-word bytes that starts at `from`. */
  method SkipCSpan(content: Bytes, from: nat) returns (end: nat)
    requires from <= |content|
    ensures from <= end <= |content|
    ensures forall i :: from <= i < end ==> !IsWordPart(content[i])
    ensures end < |content| ==> IsWordPart(content[end])
  {
    end := from;
    while end < |content| && !IsWordPart(content[end])
      invariant from <= end <= |content|
      invariant forall i :: from <= i < end ==> !IsWordPart(content[i])
      decreases |content| - end
    {
      end := end + 1;
    }
  }

  lemma PutAllCons(t: Table, w: Bytes, ws: seq<Bytes>)
    requires Distinct(t)
    ensures PutAll(t, [w] + ws) == PutAll(Put(t, w), ws)
  {
    assert ([w] + ws)[1..] == ws;
  }

  /** One turn of the counting loop is one step of `Split`. */
  lemma SplitStepAt(content: Bytes, pos: nat, end: nat, next: nat)
    requires pos < |content| && pos <= end <= next <= |content|
    requires forall i :: pos <= i < end ==> IsWordPart(content[i])
    requires end < |content| ==> !IsWordPart(content[end])
    requires forall i :: end <= i < next ==> !IsWordPart(content[i])
    requires next < |content| ==> IsWordPart(content[next])
    ensures pos < next
    ensures Split(content[pos..])
      == (if end == pos then [] else [content[pos..end]]) + Split(content[next..])
  {
    if end == pos {
      SplitFromGap(content, pos, next);
    } else {
      SplitFromWord(content, pos, end);
      SplitFromGap(content, end, next);
    }
  }

  /** Separator bytes at the cursor contribute no word. */
  lemma SplitFromGap(content: Bytes, from: nat, to: nat)
    requires from <= to <= |content|
    requires forall i :: from <= i < to ==> !IsWordPart(content[i])
    requires to < |content| ==> IsWordPart(content[to])
    ensures Split(content[from..]) == Split(content[to..])
  {
    var s := content[from..];
    CSpanLenUnique(s, to - from);
    assert s[to - from..] == content[to..];
    SplitSkipSeparators(s);
  }

  /** A run of word-part bytes at the cursor is the next word. */
  lemma SplitFromWord(content: Bytes, pos: nat, end: nat)
    requires pos < end <= |content|
    requires forall i :: pos <= i < end ==> IsWordPart(content[i])
    requires end < |content| ==> !IsWordPart(content[end])
    ensures Split(content[pos..]) == [content[pos..end]] + Split(content[end..])
  {
    var s := content[pos..];
    SpanLenUnique(s, end - pos);
    assert s[..end - pos] == content[pos..end];
    assert s[end - pos..] == content[end..];
    SplitWordFirst(s);
  }

  /** The longest word-part prefix is the only prefix of word-part bytes
      followed by a separator or the end. */
  lemma {:induction false} SpanLenUnique(s: Bytes, m: nat)
    requires m <= |s|
    requires forall i :: 0 <= i < m ==> IsWordPart(s[i])
    requires m < |s| ==> !IsWordPart(s[m])
    ensures SpanLen(s) == m
  {
    if m > 0 {
      SpanLenUnique(s[1..], m - 1);
    }
  }

  lemma {:induction false} CSpanLenUnique(s: Bytes, m: nat)
    requires m <= |s|
    requires forall i :: 0 <= i < m ==> !IsWordPart(s[i])
    requires m < |s| ==> IsWordPart(s[m])
    ensures CSpanLen(s) == m
  {
    if m > 0 {
      CSpanLenUnique(s[1..], m - 1);
    }
  }

  // ---------------------------------------------------------------------
  // Properties of the ranking

  /** Every row is a word of the input, lower-cased, together with the
      number of times that word occurs in the input ignoring case; that
      number is at least one. */
  lemma RowsAreCountedWords(content: Bytes)
    ensures forall i :: 0 <= i < |SplitAndSort(content)| ==>
      && IsWord(SplitAndSort(content)[i].word)
      && SplitAndSort(content)[i].occurrences == Occ(Split(content), SplitAndSort(content)[i].word)
      && SplitAndSort(content)[i].occurrences >= 1
  {
    var r := SplitAndSort(content);
    forall i | 0 <= i < |r|
      ensures IsWord(r[i].word) && r[i].occurrences == Occ(Split(content), r[i].word) && r[i].occurrences >= 1
    {
      RowIsCountedWord(content, r[i]);
    }
  }

  lemma RowIsCountedWord(content: Bytes, x: WordOccurrence)
    requires x in SplitAndSort(content)
    ensures IsWord(x.word) && x.occurrences == Occ(Split(content), x.word) && x.occurrences >= 1
  {
    var ws := Split(content);
    var t := Aggregate(ws);
    RowOfRank(t, x);
    var p :| 0 <= p < |t| && x == WordOccurrence(LowerWord(t[p].key), t[p].count);
    EntryOfAggregate(ws, p);
    var j :| 0 <= j < |ws| && ws[j] == t[p].key;
    LowerWordIsWord(ws[j]);
  }

  /** One entry of the map built from `ws`. */
  lemma EntryOfAggregate(ws: seq<Bytes>, p: nat)
    requires p < |Aggregate(ws)|
    ensures Aggregate(ws)[p].key in ws
    ensures Aggregate(ws)[p].count == Occ(ws, LowerWord(Aggregate(ws)[p].key))
    ensures Aggregate(ws)[p].count >= 1
  {
    AggregateSpec(ws);
  }

  lemma LowerWordIsWord(w: Bytes)
    requires IsWord(w)
    ensures IsWord(LowerWord(w))
  {
    forall i | 0 <= i < |w|
      ensures IsWordPart(LowerWord(w)[i])
    {
      assert IsWordPart(w[i]);
    }
  }

  /** Every word of the input appears, lower-cased, as the word of a row. */
  lemma EveryWordRanked(content: Bytes)
    ensures forall j :: 0 <= j < |Split(content)| ==>
      exists i :: 0 <= i < |SplitAndSort(content)| && SplitAndSort(content)[i].word == LowerWord(Split(content)[j])
  {
    var ws := Split(content);
    var t := Aggregate(ws);
    var r := SplitAndSort(content);
    AggregateSpec(ws);
    RankRows(t);
    forall j | 0 <= j < |ws|
      ensures exists i :: 0 <= i < |r| && r[i].word == LowerWord(ws[j])
    {
      var p :| 0 <= p < |t| && LowerWord(t[p].key) == LowerWord(ws[j]);
      assert WordOccurrence(LowerWord(t[p].key), t[p].count) in r;
    }
  }

  /** The occurrences add up to the number of maximal word-part runs of the
      input. */
  lemma OccurrencesAddUp(content: Bytes)
    ensures TotalOccurrences(SplitAndSort(content)) == |Split(content)|
    ensures TotalOccurrences(SplitAndSort(content)) == RunStarts(content, false)
  {
    var t := Aggregate(Split(content));
    AggregateSpec(Split(content));
    TotalOccurrencesPermutation(SplitAndSort(content), ToVector(t));
    TotalOfVector(t);
    SplitCount(content);
  }

  /** The ranking is empty exactly when the input has no word-part byte,
      in particular when the input is empty. */
  lemma EmptyRanking(content: Bytes)
    ensures SplitAndSort(content) == [] <==> forall i :: 0 <= i < |content| ==> !IsWordPart(content[i])
    ensures |content| == 0 ==> SplitAndSort(content) == []
  {
    var ws := Split(content);
    AggregateSpec(ws);
    SplitIsEmptyIff(content);
    if |ws| > 0 {
      assert HasKey(Aggregate(ws), ws[0]);
    }
  }

  /** Inputs that differ only in ASCII case have the same ranking. */
  lemma CaseInsensitive(c1: Bytes, c2: Bytes)
    requires LowerWord(c1) == LowerWord(c2)
    ensures SplitAndSort(c1) == SplitAndSort(c2)
  {
    var ws1, ws2 := Split(c1), Split(c2);
    SplitLower(c1);
    SplitLower(c2);
    assert LowerAll(ws1) == LowerAll(ws2);
    assert |ws1| == |LowerAll(ws1)|;
    forall j | 0 <= j < |ws1|
      ensures LowerWord(ws1[j]) == LowerWord(ws2[j])
    {
      assert LowerAll(ws1)[j] == LowerAll(ws2)[j];
    }
    PutAllIgnoresCase([], [], ws1, ws2);
    var t1, t2 := Aggregate(ws1), Aggregate(ws2);
    assert ToVector(t1) == ToVector(t2);
  }

  /** No count exceeds the input length, so counts held in 32 bits cannot
      wrap for any input shorter than 2^32 bytes. */
  lemma CountsFitInInputLength(content: Bytes)
    ensures forall i :: 0 <= i < |SplitAndSort(content)| ==>
      SplitAndSort(content)[i].occurrences <= |content|
    ensures |content| < 0x1_0000_0000 ==>
      forall i :: 0 <= i < |SplitAndSort(content)| ==> SplitAndSort(content)[i].occurrences < 0x1_0000_0000
  {
    var ws := Split(content);
    var r := SplitAndSort(content);
    RowsAreCountedWords(content);
    SplitLength(content);
    forall i | 0 <= i < |r|
      ensures r[i].occurrences <= |content|
    {
      OccAtMostLength(ws, r[i].word);
    }
  }

  lemma OccAtMostLength(ws: seq<Bytes>, k: Bytes)
    ensures Occ(ws, k) <= |ws|
  {
  }
}
