/** The occurrence map of the word-occurrence engine.

    The map compares and hashes its keys ignoring ASCII case. The first
    spelling of a word that is put in becomes the stored key; later
    spellings that are equal up to case only bump its count. The model is
    the table of entries in insertion order, looked up by case-insensitive
    comparison; the hashing itself is not modelled.
 */
module Occurrences {
  import opened Ascii

  datatype Option<T> = None | Some(value: T)

  /** One slot of the map: the stored spelling and its count. */
  datatype Entry = Entry(key: Bytes, count: nat)

  type Table = seq<Entry>

  /** The map's key invariant: no two keys are equal up to case. */
  predicate Distinct(t: Table) {
    forall i, j :: 0 <= i < j < |t| ==> LowerWord(t[i].key) != LowerWord(t[j].key)
  }

  /** Every stored count is at least one. */
  predicate Positive(t: Table) {
    forall i :: 0 <= i < |t| ==> t[i].count >= 1
  }

  /** Whether some key equals `w` up to case. */
  predicate HasKey(t: Table, w: Bytes) {
    exists i :: 0 <= i < |t| && LowerWord(t[i].key) == LowerWord(w)
  }

  /** Position of the key equal to `w` up to case, if there is one. */
  function Find(t: Table, w: Bytes): (r: Option<nat>)
    ensures r.Some? ==> r.value < |t| && LowerWord(t[r.value].key) == LowerWord(w)
    ensures r.None? <==> !HasKey(t, w)
  {
    if |t| == 0 then None
    else
      SameIgnoringCaseIffLowerEqual(t[0].key, w);
      if SameIgnoringCase(t[0].key, w) then Some(0)
      else match Find(t[1..], w)
        case None =>
          assert forall i :: 1 <= i < |t| ==> t[i] == t[1..][i - 1];
          None
        case Some(i) => Some(i + 1)
  }

  /** Puts one word: a new key is stored with count 1 under the spelling
      given; a key already present keeps its spelling and its count grows
      by one. */
  function Put(t: Table, w: Bytes): (r: Table)
    requires Distinct(t)
    ensures Distinct(r)
    ensures |r| == if HasKey(t, w) then |t| else |t| + 1
    ensures forall i :: 0 <= i < |t| ==> r[i].key == t[i].key
    ensures forall i :: 0 <= i < |t| ==>
      r[i].count == t[i].count + (if LowerWord(t[i].key) == LowerWord(w) then 1 else 0)
    ensures !HasKey(t, w) ==> r[|t|] == Entry(w, 1)
  {
    match Find(t, w)
    case Some(i) => t[i := Entry(t[i].key, t[i].count + 1)]
    case None => t + [Entry(w, 1)]
  }

  /** Puts every word of `ws`, first to last. */
  function PutAll(t: Table, ws: seq<Bytes>): (r: Table)
    requires Distinct(t)
    ensures Distinct(r)
    ensures |t| <= |r|
    ensures forall i :: 0 <= i < |t| ==> r[i].key == t[i].key
    decreases |ws|
  {
    if |ws| == 0 then t else PutAll(Put(t, ws[0]), ws[1..])
  }

  /** The map built from an empty one by putting every word of `ws`. */
  function Aggregate(ws: seq<Bytes>): (r: Table)
    ensures Distinct(r)
  {
    PutAll([], ws)
  }

  // ---------------------------------------------------------------------
  // Reference counts

  /** How many words of `ws` are `k` once lower-cased. */
  function Occ(ws: seq<Bytes>, k: Bytes): nat {
    if |ws| == 0 then 0
    else (if LowerWord(ws[0]) == k then 1 else 0) + Occ(ws[1..], k)
  }

  /** The count the table holds for lower-case word `k`: the sum over the
      entries whose key lower-cases to `k`. */
  function CountOf(t: Table, k: Bytes): nat {
    if |t| == 0 then 0
    else (if LowerWord(t[0].key) == k then t[0].count else 0) + CountOf(t[1..], k)
  }

  /** The sum of all counts. */
  function Total(t: Table): nat {
    if |t| == 0 then 0 else t[0].count + Total(t[1..])
  }

  lemma CountOfAppend(t: Table, e: Entry, k: Bytes)
    ensures CountOf(t + [e], k) == CountOf(t, k) + (if LowerWord(e.key) == k then e.count else 0)
  {
    if |t| > 0 {
      assert (t + [e])[1..] == t[1..] + [e];
      CountOfAppend(t[1..], e, k);
    }
  }

  lemma CountOfUpdate(t: Table, i: nat, e: Entry, k: Bytes)
    requires i < |t| && e.key == t[i].key && e.count >= t[i].count
    ensures CountOf(t[i := e], k)
      == CountOf(t, k) + (if LowerWord(e.key) == k then e.count - t[i].count else 0)
  {
    if i > 0 {
      assert t[i := e][1..] == t[1..][i - 1 := e];
      CountOfUpdate(t[1..], i - 1, e, k);
    } else {
      assert t[i := e][1..] == t[1..];
    }
  }

  lemma TotalAppend(t: Table, e: Entry)
    ensures Total(t + [e]) == Total(t) + e.count
  {
    if |t| > 0 {
      assert (t + [e])[1..] == t[1..] + [e];
      TotalAppend(t[1..], e);
    }
  }

  lemma TotalUpdate(t: Table, i: nat, e: Entry)
    requires i < |t| && e.count >= t[i].count
    ensures Total(t[i := e]) == Total(t) + (e.count - t[i].count)
  {
    if i > 0 {
      assert t[i := e][1..] == t[1..][i - 1 := e];
      TotalUpdate(t[1..], i - 1, e);
    } else {
      assert t[i := e][1..] == t[1..];
    }
  }

  /** Putting a word adds exactly one to that word's count, one to the
      total, and changes no other word's count. */
  lemma PutCounts(t: Table, w: Bytes)
    requires Distinct(t)
    ensures forall k :: CountOf(Put(t, w), k) == CountOf(t, k) + (if LowerWord(w) == k then 1 else 0)
    ensures Total(Put(t, w)) == Total(t) + 1
    ensures Positive(t) ==> Positive(Put(t, w))
  {
    match Find(t, w)
    case Some(i) => PutCountsFound(t, w, i);
    case None => PutCountsNew(t, w);
  }

  lemma PutCountsFound(t: Table, w: Bytes, i: nat)
    requires Distinct(t) && Find(t, w) == Some(i)
    ensures forall k :: CountOf(Put(t, w), k) == CountOf(t, k) + (if LowerWord(w) == k then 1 else 0)
    ensures Total(Put(t, w)) == Total(t) + 1
    ensures Positive(t) ==> Positive(Put(t, w))
  {
    var u := t[i := Entry(t[i].key, t[i].count + 1)];
    PutFound(t, w, i);
    BumpCounts(t, w, i);
    forall k
      ensures CountOf(Put(t, w), k) == CountOf(t, k) + (if LowerWord(w) == k then 1 else 0)
    {
      assert CountOf(u, k) == CountOf(t, k) + (if LowerWord(w) == k then 1 else 0);
    }
  }

  lemma PutFound(t: Table, w: Bytes, i: nat)
    requires Distinct(t) && Find(t, w) == Some(i)
    ensures Put(t, w) == t[i := Entry(t[i].key, t[i].count + 1)]
  {
  }

  /** Putting a spelling of an existing key adds one to that key only. */
  lemma PutExisting(t: Table, w: Bytes, i: nat)
    requires Distinct(t) && i < |t| && LowerWord(t[i].key) == LowerWord(w)
    ensures Put(t, w) == t[i := Entry(t[i].key, t[i].count + 1)]
  {
    var r := Put(t, w);
    assert HasKey(t, w);
    assert |r| == |t|;
    forall j | 0 <= j < |t|
      ensures r[j] == t[i := Entry(t[i].key, t[i].count + 1)][j]
    {
      if j != i {
        assert LowerWord(t[j].key) != LowerWord(w);
      }
    }
  }

  /** Putting a spelling of no key appends it with count one. */
  lemma PutNew(t: Table, w: Bytes)
    requires Distinct(t) && forall i :: 0 <= i < |t| ==> LowerWord(t[i].key) != LowerWord(w)
    ensures Put(t, w) == t + [Entry(w, 1)]
  {
    var r := Put(t, w);
    assert !HasKey(t, w);
    forall j | 0 <= j < |r|
      ensures r[j] == (t + [Entry(w, 1)])[j]
    {
    }
  }

  lemma PutCountsNew(t: Table, w: Bytes)
    requires Distinct(t) && Find(t, w) == None
    ensures forall k :: CountOf(Put(t, w), k) == CountOf(t, k) + (if LowerWord(w) == k then 1 else 0)
    ensures Total(Put(t, w)) == Total(t) + 1
    ensures Positive(t) ==> Positive(Put(t, w))
  {
    AppendCounts(t, w);
  }

  /** Adding one to the entry of `w`. */
  lemma BumpCounts(t: Table, w: Bytes, i: nat)
    requires i < |t| && LowerWord(t[i].key) == LowerWord(w)
    ensures forall k ::
      CountOf(t[i := Entry(t[i].key, t[i].count + 1)], k) == CountOf(t, k) + (if LowerWord(w) == k then 1 else 0)
    ensures Total(t[i := Entry(t[i].key, t[i].count + 1)]) == Total(t) + 1
    ensures Positive(t) ==> Positive(t[i := Entry(t[i].key, t[i].count + 1)])
  {
    var e := Entry(t[i].key, t[i].count + 1);
    forall k
      ensures CountOf(t[i := e], k) == CountOf(t, k) + (if LowerWord(w) == k then 1 else 0)
    {
      CountOfUpdate(t, i, e, k);
    }
    TotalUpdate(t, i, e);
  }

  /** Appending `w` with count one. */
  lemma AppendCounts(t: Table, w: Bytes)
    ensures forall k :: CountOf(t + [Entry(w, 1)], k) == CountOf(t, k) + (if LowerWord(w) == k then 1 else 0)
    ensures Total(t + [Entry(w, 1)]) == Total(t) + 1
    ensures Positive(t) ==> Positive(t + [Entry(w, 1)])
  {
    var e := Entry(w, 1);
    forall k
      ensures CountOf(t + [e], k) == CountOf(t, k) + (if LowerWord(w) == k then 1 else 0)
    {
      CountOfAppend(t, e, k);
    }
    TotalAppend(t, e);
  }

  /** Putting a sequence of words adds each word's occurrences to its count,
      adds the number of words to the total, and keeps counts positive. */
  lemma {:induction false} PutAllCounts(t: Table, ws: seq<Bytes>)
    requires Distinct(t)
    ensures forall k :: CountOf(PutAll(t, ws), k) == CountOf(t, k) + Occ(ws, k)
    ensures Total(PutAll(t, ws)) == Total(t) + |ws|
    ensures Positive(t) ==> Positive(PutAll(t, ws))
    decreases |ws|
  {
    if |ws| > 0 {
      PutCounts(t, ws[0]);
      PutAllCounts(Put(t, ws[0]), ws[1..]);
    }
  }

  /** The stored spellings, in table order. */
  function Keys(t: Table): (r: seq<Bytes>)
    ensures |r| == |t|
    ensures forall i :: 0 <= i < |t| ==> r[i] == t[i].key
  {
    if |t| == 0 then [] else [t[0].key] + Keys(t[1..])
  }

  /** Every key of the table after putting `ws` into `t` is a key of `t` or
      one of the words of `ws`: keys are spellings actually seen. */
  lemma {:induction false} PutAllKeysFrom(t: Table, ws: seq<Bytes>)
    requires Distinct(t)
    ensures forall i :: 0 <= i < |PutAll(t, ws)| ==> PutAll(t, ws)[i].key in Keys(t) + ws
    decreases |ws|
  {
    var r := PutAll(t, ws);
    if |ws| == 0 {
      assert r == t;
      forall i | 0 <= i < |r|
        ensures r[i].key in Keys(t) + ws
      {
        assert Keys(t)[i] == r[i].key;
      }
    } else {
      var t' := Put(t, ws[0]);
      PutAllKeysFrom(t', ws[1..]);
      assert r == PutAll(t', ws[1..]);
      forall i | 0 <= i < |r|
        ensures r[i].key in Keys(t) + ws
      {
        var x := r[i].key;
        assert x in Keys(t') + ws[1..];
        if x in Keys(t') {
          var p :| 0 <= p < |t'| && Keys(t')[p] == x;
          PutKey(t, ws[0], p);
          if p < |t| {
            assert Keys(t)[p] == x;
          } else {
            assert x == ws[0];
          }
        } else {
          assert x in ws;
        }
      }
    }
  }

  /** A key after one put is the old key at that position, or the word put. */
  lemma PutKey(t: Table, w: Bytes, p: nat)
    requires Distinct(t) && p < |Put(t, w)|
    ensures Put(t, w)[p].key == if p < |t| then t[p].key else w
  {
  }

  /** After putting `ws`, every word of `ws` has a key equal to it up to
      case. */
  lemma {:induction false} PutAllCovers(t: Table, ws: seq<Bytes>)
    requires Distinct(t)
    ensures forall j :: 0 <= j < |ws| ==> HasKey(PutAll(t, ws), ws[j])
    decreases |ws|
  {
    if |ws| > 0 {
      var t' := Put(t, ws[0]);
      var r := PutAll(t, ws);
      PutAllCovers(t', ws[1..]);
      assert r == PutAll(t', ws[1..]);
      forall j | 0 <= j < |ws|
        ensures HasKey(r, ws[j])
      {
        if j == 0 {
          var p: nat;
          if HasKey(t, ws[0]) {
            p :| 0 <= p < |t| && LowerWord(t[p].key) == LowerWord(ws[0]);
          } else {
            p := |t|;
          }
          assert LowerWord(t'[p].key) == LowerWord(ws[0]);
          assert LowerWord(r[p].key) == LowerWord(ws[0]);
        } else {
          assert ws[j] == ws[1..][j - 1];
        }
      }
    }
  }

  // ---------------------------------------------------------------------
  // Case insensitivity

  /** Two tables that differ only in the case of their stored spellings. */
  predicate SameUpToCase(t1: Table, t2: Table) {
    && |t1| == |t2|
    && forall i :: 0 <= i < |t1| ==>
         LowerWord(t1[i].key) == LowerWord(t2[i].key) && t1[i].count == t2[i].count
  }

  /** Putting two spellings that differ only in case into tables that differ
      only in case yields tables that differ only in case. */
  lemma PutIgnoresCase(t1: Table, t2: Table, w1: Bytes, w2: Bytes)
    requires Distinct(t1) && Distinct(t2) && SameUpToCase(t1, t2)
    requires LowerWord(w1) == LowerWord(w2)
    ensures SameUpToCase(Put(t1, w1), Put(t2, w2))
  {
    HasKeyUpToCase(t1, t2, w1, w2);
    var r1, r2 := Put(t1, w1), Put(t2, w2);
    forall i | 0 <= i < |r1|
      ensures LowerWord(r1[i].key) == LowerWord(r2[i].key) && r1[i].count == r2[i].count
    {
      if i == |t1| {
        assert r1[i] == Entry(w1, 1) && r2[i] == Entry(w2, 1);
      }
    }
  }

  lemma HasKeyUpToCase(t1: Table, t2: Table, w1: Bytes, w2: Bytes)
    requires SameUpToCase(t1, t2) && LowerWord(w1) == LowerWord(w2)
    ensures HasKey(t1, w1) <==> HasKey(t2, w2)
  {
    if HasKey(t1, w1) {
      var i :| 0 <= i < |t1| && LowerWord(t1[i].key) == LowerWord(w1);
      assert LowerWord(t2[i].key) == LowerWord(w2);
    }
    if HasKey(t2, w2) {
      var i :| 0 <= i < |t2| && LowerWord(t2[i].key) == LowerWord(w2);
      assert LowerWord(t1[i].key) == LowerWord(w1);
    }
  }

  /** Two spellings that differ only in ASCII case go to the same entry:
      when that entry exists, putting either gives the same table, and in
      any case the tables differ at most in the case of the new key. */
  lemma PutSameEntry(t: Table, w1: Bytes, w2: Bytes)
    requires Distinct(t)
    requires SameIgnoringCase(w1, w2)
    ensures HasKey(t, w1) ==> Put(t, w1) == Put(t, w2)
    ensures SameUpToCase(Put(t, w1), Put(t, w2))
  {
    SameIgnoringCaseIffLowerEqual(w1, w2);
    PutIgnoresCase(t, t, w1, w2);
    if HasKey(t, w1) {
      assert HasKey(t, w2);
      assert |Put(t, w1)| == |Put(t, w2)| == |t|;
    }
  }

  /** Putting word sequences that differ only in case into tables that
      differ only in case yields tables that differ only in case. */
  lemma {:induction false} PutAllIgnoresCase(t1: Table, t2: Table, ws1: seq<Bytes>, ws2: seq<Bytes>)
    requires Distinct(t1) && Distinct(t2) && SameUpToCase(t1, t2)
    requires |ws1| == |ws2| && forall j :: 0 <= j < |ws1| ==> LowerWord(ws1[j]) == LowerWord(ws2[j])
    ensures SameUpToCase(PutAll(t1, ws1), PutAll(t2, ws2))
    decreases |ws1|
  {
    if |ws1| > 0 {
      PutIgnoresCase(t1, t2, ws1[0], ws2[0]);
      PutAllIgnoresCase(Put(t1, ws1[0]), Put(t2, ws2[0]), ws1[1..], ws2[1..]);
    }
  }

  /** Under the key invariant, the count the table holds for a key's
      lower-case form is that entry's own count. */
  lemma {:induction false} CountOfEntry(t: Table, i: nat)
    requires Distinct(t) && i < |t|
    ensures CountOf(t, LowerWord(t[i].key)) == t[i].count
  {
    if i > 0 {
      CountOfEntry(t[1..], i - 1);
    } else {
      CountOfAbsent(t[1..], LowerWord(t[0].key));
    }
  }

  lemma CountOfAbsent(t: Table, k: Bytes)
    requires forall i :: 0 <= i < |t| ==> LowerWord(t[i].key) != k
    ensures CountOf(t, k) == 0
  {
  }

  /** The map built from the words `ws`: one entry per distinct word up to
      case, stored under the spelling of one of its occurrences, whose
      count is the number of occurrences of that word in `ws`. The counts
      add up to the number of words. */
  lemma AggregateSpec(ws: seq<Bytes>)
    ensures Distinct(Aggregate(ws)) && Positive(Aggregate(ws))
    ensures forall i :: 0 <= i < |Aggregate(ws)| ==>
      Aggregate(ws)[i].count == Occ(ws, LowerWord(Aggregate(ws)[i].key))
    ensures forall i :: 0 <= i < |Aggregate(ws)| ==> Aggregate(ws)[i].key in ws
    ensures forall j :: 0 <= j < |ws| ==> HasKey(Aggregate(ws), ws[j])
    ensures Total(Aggregate(ws)) == |ws|
  {
    var t := Aggregate(ws);
    PutAllCounts([], ws);
    PutAllKeysFrom([], ws);
    PutAllCovers([], ws);
    forall i | 0 <= i < |t|
      ensures t[i].count == Occ(ws, LowerWord(t[i].key))
    {
      CountOfEntry(t, i);
    }
  }

  /** A word that does not occur has no entry. */
  lemma AggregateAbsent(ws: seq<Bytes>, k: Bytes)
    requires Occ(ws, k) == 0
    ensures forall i :: 0 <= i < |Aggregate(ws)| ==> LowerWord(Aggregate(ws)[i].key) != k
  {
    AggregateSpec(ws);
  }
}
