/** The tokenizer of the word-occurrence engine.

    The scan is a loop: take the longest prefix of word-part bytes (the
    word), then skip the longest following run of non-word bytes, and drop
    the word when it is empty. `Split` is that loop, one iteration per
    recursive call. Its partners are an algebraic description of maximal
    runs (`SplitEmpty`, `SplitRun`, `SplitSeparator`), the word-part bytes of
    the input in order (`SplitConcat`) and a byte-at-a-time run counter
    (`SplitCount`).
 */
module Tokenizer {
  import opened Ascii

  /** A word: a non-empty string of word-part bytes. */
  predicate IsWord(w: Bytes) {
    |w| > 0 && forall i :: 0 <= i < |w| ==> IsWordPart(w[i])
  }

  /** Length of the longest prefix made of word-part bytes. */
  function SpanLen(s: Bytes): (n: nat)
    ensures n <= |s|
    ensures forall i :: 0 <= i < n ==> IsWordPart(s[i])
    ensures n < |s| ==> !IsWordPart(s[n])
  {
    if |s| == 0 || !IsWordPart(s[0]) then 0 else 1 + SpanLen(s[1..])
  }

  /** Length of the longest prefix made of non-word bytes. */
  function CSpanLen(s: Bytes): (n: nat)
    ensures n <= |s|
    ensures forall i :: 0 <= i < n ==> !IsWordPart(s[i])
    ensures n < |s| ==> IsWordPart(s[n])
  {
    if |s| == 0 || IsWordPart(s[0]) then 0 else 1 + CSpanLen(s[1..])
  }

  /** The words of `s`, in order: each maximal run of word-part bytes. */
  function Split(s: Bytes): (words: seq<Bytes>)
    ensures forall k :: 0 <= k < |words| ==> IsWord(words[k])
    decreases |s|
  {
    if |s| == 0 then []
    else
      var n := SpanLen(s);
      var rest := s[n..];
      var next := rest[CSpanLen(rest)..];
      if n == 0 then Split(next) else [s[..n]] + Split(next)
  }

  /** The word-part bytes of `s`, in order. */
  function Keep(s: Bytes): (r: Bytes)
    ensures |r| <= |s|
  {
    if |s| == 0 then []
    else (if IsWordPart(s[0]) then [s[0]] else []) + Keep(s[1..])
  }

  function Concat(ws: seq<Bytes>): Bytes {
    if |ws| == 0 then [] else ws[0] + Concat(ws[1..])
  }

  /** Reference run counter: scans byte by byte, remembering whether the
      previous byte was a word part, and counts the bytes that open a run. */
  function RunStarts(s: Bytes, inWord: bool): nat {
    if |s| == 0 then 0
    else
      (if IsWordPart(s[0]) && !inWord then 1 else 0)
      + RunStarts(s[1..], IsWordPart(s[0]))
  }

  // ---------------------------------------------------------------------
  // Algebra of maximal runs

  lemma SplitEmpty()
    ensures Split([]) == []
  {
  }

  /** A single run of word-part bytes is one word. */
  lemma SplitRun(w: Bytes)
    requires IsWord(w)
    ensures Split(w) == [w]
  {
    assert SpanLen(w) == |w|;
    assert w[..|w|] == w;
  }

  /** Skipping the leading separators does not change the words. */
  lemma SplitSkipSeparators(s: Bytes)
    ensures Split(s[CSpanLen(s)..]) == Split(s)
  {
    if |s| > 0 && IsWordPart(s[0]) {
      assert s[0..] == s;
    }
  }

  lemma SpanLenBeforeSeparator(a: Bytes, c: byte, b: Bytes)
    requires !IsWordPart(c)
    ensures SpanLen(a + [c] + b) == SpanLen(a)
  {
    var s := a + [c] + b;
    var n := SpanLen(a);
    assert s[n] == if n < |a| then a[n] else c;
    assert forall i :: 0 <= i < n ==> s[i] == a[i];
  }

  /** A separator byte cuts the input into two independent halves. */
  lemma {:induction false} SplitSeparator(a: Bytes, c: byte, b: Bytes)
    requires !IsWordPart(c)
    ensures Split(a + [c] + b) == Split(a) + Split(b)
    decreases |a|
  {
    if |a| == 0 {
      SplitLeadingSeparator(c, b);
    } else if !IsWordPart(a[0]) {
      SplitSeparator(a[1..], c, b);
      SplitSeparatorAfterGap(a, c, b);
    } else {
      var n := SpanLen(a);
      SplitSeparator(a[n..], c, b);
      SplitSeparatorAfterWord(a, c, b);
    }
  }

  lemma SplitLeadingSeparator(c: byte, b: Bytes)
    requires !IsWordPart(c)
    ensures Split([] + [c] + b) == Split(b)
  {
    var s := [c] + b;
    assert [] + [c] + b == s;
    assert s[1..] == b;
    SplitDropSeparator(s);
  }

  /** The step of `SplitSeparator` for an input that opens with a
      separator. */
  lemma SplitSeparatorAfterGap(a: Bytes, c: byte, b: Bytes)
    requires !IsWordPart(c) && |a| > 0 && !IsWordPart(a[0])
    requires Split(a[1..] + [c] + b) == Split(a[1..]) + Split(b)
    ensures Split(a + [c] + b) == Split(a) + Split(b)
  {
    SplitDropSeparatorBefore(a, c, b);
    SplitDropSeparator(a);
  }

  /** A separator byte that opens the input can be dropped, whatever
      follows. */
  lemma SplitDropSeparatorBefore(a: Bytes, c: byte, b: Bytes)
    requires |a| > 0 && !IsWordPart(a[0])
    ensures Split(a + [c] + b) == Split(a[1..] + [c] + b)
  {
    var s := a + [c] + b;
    assert s[1..] == a[1..] + [c] + b;
    SplitDropSeparator(s);
  }

  /** The step of `SplitSeparator` for an input that opens with a word. */
  lemma SplitSeparatorAfterWord(a: Bytes, c: byte, b: Bytes)
    requires !IsWordPart(c) && |a| > 0 && IsWordPart(a[0])
    requires Split(a[SpanLen(a)..] + [c] + b) == Split(a[SpanLen(a)..]) + Split(b)
    ensures Split(a + [c] + b) == Split(a) + Split(b)
  {
    SplitWordBefore(a, c, b);
    SplitWordFirst(a);
    AppendAssoc([a[..SpanLen(a)]], Split(a[SpanLen(a)..]), Split(b));
  }

  lemma AppendAssoc<T>(x: seq<T>, y: seq<T>, z: seq<T>)
    ensures x + (y + z) == (x + y) + z
  {
  }

  /** An input that opens with a word splits into that word and the words
      of what follows it. */
  lemma SplitWordFirst(s: Bytes)
    requires |s| > 0 && IsWordPart(s[0])
    ensures Split(s) == [s[..SpanLen(s)]] + Split(s[SpanLen(s)..])
  {
    SplitSkipSeparators(s[SpanLen(s)..]);
  }

  /** The first word of `a` stays the first word when a separator and
      anything else follow `a`. */
  lemma SplitWordBefore(a: Bytes, c: byte, b: Bytes)
    requires !IsWordPart(c) && |a| > 0 && IsWordPart(a[0])
    ensures Split(a + [c] + b) == [a[..SpanLen(a)]] + Split(a[SpanLen(a)..] + [c] + b)
  {
    var s := a + [c] + b;
    var n := SpanLen(a);
    SpanLenBeforeSeparator(a, c, b);
    assert s[n..] == a[n..] + [c] + b;
    assert s[..n] == a[..n];
    SplitWordFirst(s);
  }

  /** A leading separator byte can be dropped. */
  lemma SplitDropSeparator(s: Bytes)
    requires |s| > 0 && !IsWordPart(s[0])
    ensures Split(s) == Split(s[1..])
  {
    var t := s[1..];
    assert CSpanLen(s) == 1 + CSpanLen(t);
    assert s[0..] == s;
    assert s[CSpanLen(s)..] == t[CSpanLen(t)..];
    SplitSkipSeparators(t);
  }

  /** A run of separator bytes, possibly empty. */
  predicate IsSeparators(g: Bytes) {
    forall i :: 0 <= i < |g| ==> !IsWordPart(g[i])
  }

  /** A non-empty run of separator bytes. */
  predicate IsGap(g: Bytes) {
    |g| > 0 && IsSeparators(g)
  }

  /** Each word followed by its gap. */
  function Join(ws: seq<Bytes>, gaps: seq<Bytes>): (s: Bytes)
    requires |gaps| == |ws|
  {
    if |ws| == 0 then [] else ws[0] + gaps[0] + Join(ws[1..], gaps[1..])
  }

  /** Leading separator bytes can be dropped. */
  lemma {:induction false} SplitDropGap(u: Bytes, x: Bytes)
    requires IsSeparators(u)
    ensures Split(u + x) == Split(x)
    decreases |u|
  {
    if |u| > 0 {
      assert (u + x)[1..] == u[1..] + x;
      SplitDropSeparator(u + x);
      SplitDropGap(u[1..], x);
    } else {
      assert u + x == x;
    }
  }

  /** Round trip: words, each followed by a run of separator bytes that is
      non-empty except possibly after the last word, split back into
      exactly those words. */
  lemma {:induction false} SplitJoin(ws: seq<Bytes>, gaps: seq<Bytes>)
    requires |gaps| == |ws|
    requires forall k :: 0 <= k < |ws| ==> IsWord(ws[k])
    requires forall k :: 0 <= k < |gaps| ==> IsSeparators(gaps[k])
    requires forall k :: 0 <= k < |gaps| - 1 ==> |gaps[k]| > 0
    ensures Split(Join(ws, gaps)) == ws
    decreases |ws|
  {
    if |ws| == 1 {
      assert Join(ws[1..], gaps[1..]) == [];
      SplitWordEnd(ws[0], gaps[0]);
      assert ws == [ws[0]];
    } else if |ws| > 1 {
      assert IsGap(gaps[0]);
      SplitWordGap(ws[0], gaps[0], Join(ws[1..], gaps[1..]));
      SplitJoin(ws[1..], gaps[1..]);
      assert ws == [ws[0]] + ws[1..];
    }
  }

  /** A last word, with or without trailing separators, is the only word. */
  lemma SplitWordEnd(w: Bytes, g: Bytes)
    requires IsWord(w) && IsSeparators(g)
    ensures Split(w + g + []) == [w]
  {
    if |g| > 0 {
      SplitWordGap(w, g, []);
      SplitEmpty();
    } else {
      assert w + g + [] == w;
      SplitRun(w);
    }
  }

  lemma RegroupGap(w: Bytes, g: Bytes, x: Bytes)
    requires |g| > 0
    ensures w + g + x == w + [g[0]] + (g[1..] + x)
  {
    assert g == [g[0]] + g[1..];
  }

  /** A word followed by a gap is the first word of what follows. */
  lemma SplitWordGap(w: Bytes, g: Bytes, x: Bytes)
    requires IsWord(w) && IsGap(g)
    ensures Split(w + g + x) == [w] + Split(x)
  {
    RegroupGap(w, g, x);
    SplitSeparator(w, g[0], g[1..] + x);
    SplitRun(w);
    SplitDropGap(g[1..], x);
  }

  // ---------------------------------------------------------------------
  // Contents and number of the words

  lemma KeepAppend(a: Bytes, b: Bytes)
    ensures Keep(a + b) == Keep(a) + Keep(b)
  {
    if |a| > 0 {
      assert (a + b)[1..] == a[1..] + b;
      KeepAppend(a[1..], b);
    } else {
      assert a + b == b;
    }
  }

  lemma {:induction false} KeepAllWordPart(w: Bytes)
    requires forall i :: 0 <= i < |w| ==> IsWordPart(w[i])
    ensures Keep(w) == w
    decreases |w|
  {
    if |w| > 0 {
      KeepAllWordPart(w[1..]);
      assert w == [w[0]] + w[1..];
    }
  }

  /** Concatenating the words gives back every word-part byte of the input,
      in order, and nothing else: no byte is lost and no separator byte
      enters a word. */
  lemma {:induction false} SplitConcat(s: Bytes)
    ensures Concat(Split(s)) == Keep(s)
    decreases |s|
  {
    if |s| > 0 {
      if !IsWordPart(s[0]) {
        SplitDropSeparator(s);
        SplitConcat(s[1..]);
      } else {
        var n := SpanLen(s);
        SplitWordFirst(s);
        SplitConcat(s[n..]);
        KeepAfterWord(s);
        ConcatCons(s[..n], Split(s[n..]));
      }
    }
  }

  lemma ConcatCons(w: Bytes, ws: seq<Bytes>)
    ensures Concat([w] + ws) == w + Concat(ws)
  {
    assert ([w] + ws)[1..] == ws;
  }

  /** The word-part bytes of an input that opens with a word: that word,
      then those of the rest. */
  lemma KeepAfterWord(s: Bytes)
    requires |s| > 0 && IsWordPart(s[0])
    ensures Keep(s) == s[..SpanLen(s)] + Keep(s[SpanLen(s)..])
  {
    var n := SpanLen(s);
    assert s == s[..n] + s[n..];
    KeepAppend(s[..n], s[n..]);
    KeepAllWordPart(s[..n]);
  }

  lemma RunStartsInsideRun(w: Bytes, r: Bytes, inWord: bool)
    requires |w| > 0 && forall i :: 0 <= i < |w| ==> IsWordPart(w[i])
    ensures RunStarts(w + r, inWord) == (if inWord then 0 else 1) + RunStarts(r, true)
    decreases |w|
  {
    assert (w + r)[1..] == w[1..] + r;
    if |w| > 1 {
      RunStartsInsideRun(w[1..], r, true);
    } else {
      assert w[1..] + r == r;
    }
  }

  /** The number of words is the number of bytes that open a run of
      word-part bytes. */
  lemma {:induction false} SplitCount(s: Bytes)
    ensures |Split(s)| == RunStarts(s, false)
    decreases |s|
  {
    if |s| > 0 {
      if !IsWordPart(s[0]) {
        SplitDropSeparator(s);
        SplitCount(s[1..]);
      } else {
        var n := SpanLen(s);
        SplitWordFirst(s);
        SplitCount(s[n..]);
        RunStartsAfterWord(s);
      }
    }
  }

  /** A run opens at the first byte of `s`, and the next run opens after
      the first separator. */
  lemma RunStartsAfterWord(s: Bytes)
    requires |s| > 0 && IsWordPart(s[0])
    ensures RunStarts(s, false) == 1 + RunStarts(s[SpanLen(s)..], false)
  {
    var n := SpanLen(s);
    assert s == s[..n] + s[n..];
    RunStartsInsideRun(s[..n], s[n..], false);
  }

  /** No word at all exactly when the input holds no word-part byte; in
      particular the empty input has no word. */
  lemma {:induction false} SplitIsEmptyIff(s: Bytes)
    ensures Split(s) == [] <==> forall i :: 0 <= i < |s| ==> !IsWordPart(s[i])
  {
    SplitConcat(s);
    if Split(s) != [] {
      assert |Split(s)[0]| > 0;
      assert Concat(Split(s)) == Split(s)[0] + Concat(Split(s)[1..]);
      KeepNonEmpty(s);
    } else {
      KeepEmpty(s);
    }
  }

  lemma {:induction false} KeepNonEmpty(s: Bytes)
    requires |Keep(s)| > 0
    ensures exists i :: 0 <= i < |s| && IsWordPart(s[i])
  {
    if !IsWordPart(s[0]) {
      KeepNonEmpty(s[1..]);
      var i :| 0 <= i < |s[1..]| && IsWordPart(s[1..][i]);
      assert IsWordPart(s[i + 1]);
    }
  }

  lemma {:induction false} KeepEmpty(s: Bytes)
    requires Keep(s) == []
    ensures forall i :: 0 <= i < |s| ==> !IsWordPart(s[i])
  {
    if |s| > 0 {
      KeepEmpty(s[1..]);
      assert forall i :: 1 <= i < |s| ==> s[i] == s[1..][i - 1];
    }
  }

  /** There are never more words than bytes. */
  lemma {:induction false} SplitLength(s: Bytes)
    ensures |Split(s)| <= |s|
    decreases |s|
  {
    if |s| > 0 {
      var n := SpanLen(s);
      var rest := s[n..];
      var next := rest[CSpanLen(rest)..];
      SplitLength(next);
    }
  }

  // ---------------------------------------------------------------------
  // Case folding

  function LowerAll(ws: seq<Bytes>): (r: seq<Bytes>)
    ensures |r| == |ws|
    ensures forall k :: 0 <= k < |ws| ==> r[k] == LowerWord(ws[k])
  {
    if |ws| == 0 then [] else [LowerWord(ws[0])] + LowerAll(ws[1..])
  }

  lemma SpanLenLower(s: Bytes)
    ensures SpanLen(LowerWord(s)) == SpanLen(s)
    ensures CSpanLen(LowerWord(s)) == CSpanLen(s)
  {
    var n := SpanLen(s);
    assert n < |s| ==> !IsWordPart(LowerWord(s)[n]);
    var m := CSpanLen(s);
    assert m < |s| ==> IsWordPart(LowerWord(s)[m]);
  }

  /** Lower-casing the input lower-cases each word and changes nothing
      else: word-part bytes stay word parts under ASCII case folding. */
  lemma {:induction false} SplitLower(s: Bytes)
    ensures Split(LowerWord(s)) == LowerAll(Split(s))
    decreases |s|
  {
    if |s| > 0 {
      var l := LowerWord(s);
      var n := SpanLen(s);
      var rest := s[n..];
      var k := CSpanLen(rest);
      var next := rest[k..];
      SpanLenLower(s);
      LowerWordSlice(s, 0, n);
      assert l[n..] == LowerWord(rest);
      SpanLenLower(rest);
      LowerWordSlice(rest, k, |rest|);
      assert LowerWord(rest)[k..] == LowerWord(next);
      SplitLower(next);
      if n > 0 {
        assert l[..n] == LowerWord(s[..n]);
        assert LowerAll(Split(s)) == [LowerWord(s[..n])] + LowerAll(Split(next));
      }
    }
  }
}
