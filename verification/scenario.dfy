/** A worked example: the input "The cat sat on the mat. THE CAT ran."
    written as its nine words joined by their separators. The words split
    back out, the map counts "The"/"the"/"THE" under the first spelling
    seen, and the ranking starts with ("the", 3) then ("cat", 2), followed by
    four rows of count 1 in an order the sort leaves open.
 */
module Scenario {
  import opened Ascii
  import opened Tokenizer
  import opened Occurrences
  import opened Ranker
  import opened WordCount

  const The: Bytes := [0x54, 0x68, 0x65]
  const the: Bytes := [0x74, 0x68, 0x65]
  const THE: Bytes := [0x54, 0x48, 0x45]
  const cat: Bytes := [0x63, 0x61, 0x74]
  const CAT: Bytes := [0x43, 0x41, 0x54]
  const sat: Bytes := [0x73, 0x61, 0x74]
  const on: Bytes := [0x6F, 0x6E]
  const mat: Bytes := [0x6D, 0x61, 0x74]
  const ran: Bytes := [0x72, 0x61, 0x6E]
  const Space: Bytes := [0x20]
  const DotSpace: Bytes := [0x2E, 0x20]
  const Dot: Bytes := [0x2E]

  const Words: seq<Bytes> := [The, cat, sat, on, the, mat, THE, CAT, ran]
  const Gaps: seq<Bytes> := [Space, Space, Space, Space, Space, DotSpace, Space, Space, Dot]

  /** "The cat sat on the mat. THE CAT ran." as ASCII bytes. */
  const Sentence: Bytes := [0x54, 0x68, 0x65, 0x20, 0x63, 0x61, 0x74, 0x20, 0x73, 0x61, 0x74, 0x20,
                            0x6F, 0x6E, 0x20, 0x74, 0x68, 0x65, 0x20, 0x6D, 0x61, 0x74, 0x2E, 0x20,
                            0x54, 0x48, 0x45, 0x20, 0x43, 0x41, 0x54, 0x20, 0x72, 0x61, 0x6E, 0x2E]

  /** The words joined by their separators spell out the sentence. */
  lemma SentenceExample()
    ensures Join(Words, Gaps) == Sentence
  {
    WordsCons();
    GapsCons();
    Join1(ran, Dot, [], []);
    Join1(CAT, Space, [ran] + [], [Dot] + []);
    Join1(THE, Space, [CAT] + ([ran] + []), [Space] + ([Dot] + []));
    Join1(mat, DotSpace, [THE] + ([CAT] + ([ran] + [])), [Space] + ([Space] + ([Dot] + [])));
    Join1(the, Space, [mat] + ([THE] + ([CAT] + ([ran] + []))),
          [DotSpace] + ([Space] + ([Space] + ([Dot] + []))));
    Join1(on, Space, [the] + ([mat] + ([THE] + ([CAT] + ([ran] + [])))),
          [Space] + ([DotSpace] + ([Space] + ([Space] + ([Dot] + [])))));
    Join1(sat, Space, [on] + ([the] + ([mat] + ([THE] + ([CAT] + ([ran] + []))))),
          [Space] + ([Space] + ([DotSpace] + ([Space] + ([Space] + ([Dot] + []))))));
    Join1(cat, Space, [sat] + ([on] + ([the] + ([mat] + ([THE] + ([CAT] + ([ran] + [])))))),
          [Space] + ([Space] + ([Space] + ([DotSpace] + ([Space] + ([Space] + ([Dot] + [])))))));
    Join1(The, Space, [cat] + ([sat] + ([on] + ([the] + ([mat] + ([THE] + ([CAT] + ([ran] + []))))))),
          [Space] + ([Space] + ([Space] + ([Space] + ([DotSpace] + ([Space] + ([Space] + ([Dot] + []))))))));
    SentencePieces();
  }

  lemma Join1(a: Bytes, x: Bytes, ws: seq<Bytes>, gs: seq<Bytes>)
    requires |ws| == |gs|
    ensures Join([a] + ws, [x] + gs) == a + x + Join(ws, gs)
  {
    assert ([a] + ws)[1..] == ws && ([x] + gs)[1..] == gs;
  }

  const Clause1: Bytes := [0x54, 0x68, 0x65, 0x20, 0x63, 0x61, 0x74, 0x20, 0x73, 0x61, 0x74, 0x20]
  const Clause2: Bytes := [0x6F, 0x6E, 0x20, 0x74, 0x68, 0x65, 0x20, 0x6D, 0x61, 0x74, 0x2E, 0x20]
  const Clause3: Bytes := [0x54, 0x48, 0x45, 0x20, 0x43, 0x41, 0x54, 0x20, 0x72, 0x61, 0x6E, 0x2E]

  /** The sentence cut at its words and separators. */
  lemma SentencePieces()
    ensures The + Space + (cat + Space + (sat + Space + (on + Space + (the + Space + (mat + DotSpace + (THE + Space + (CAT + Space + (ran + Dot + [])))))))) == Sentence
  {
    assert on + Space + (the + Space + (mat + DotSpace + (THE + Space + (CAT + Space + (ran + Dot + []))))) == Clause2 + Clause3 by {
      assert THE + Space + (CAT + Space + (ran + Dot + [])) == Clause3;
    }
    assert The + Space + (cat + Space + (sat + Space + (Clause2 + Clause3))) == Clause1 + (Clause2 + Clause3);
    SentenceClauses();
  }

  lemma SentenceClauses()
    ensures Clause1 + (Clause2 + Clause3) == Sentence
  {
  }

  lemma SplitExample()
    ensures Split(Join(Words, Gaps)) == Words
    ensures Split(Sentence) == Words
  {
    SplitJoin(Words, Gaps);
    SentenceExample();
  }

  /** The lower-case forms of the example's spellings. */
  lemma LowerOf(w: Bytes, l: Bytes)
    requires |w| == |l| && forall i :: 0 <= i < |w| ==> ToLower(w[i]) == l[i]
    ensures LowerWord(w) == l
  {
  }

  lemma LowerForms()
    ensures LowerWord(The) == the && LowerWord(the) == the && LowerWord(THE) == the
    ensures LowerWord(cat) == cat && LowerWord(CAT) == cat
    ensures LowerWord(sat) == sat && LowerWord(on) == on
    ensures LowerWord(mat) == mat && LowerWord(ran) == ran
  {
    LowerOf(The, the);
    LowerOf(the, the);
    LowerOf(THE, the);
    LowerOf(cat, cat);
    LowerOf(CAT, cat);
    LowerOf(sat, sat);
    LowerOf(on, on);
    LowerOf(mat, mat);
    LowerOf(ran, ran);
  }

  const T0: Table := []
  const T1: Table := T0 + [Entry(The, 1)]
  const T2: Table := T1 + [Entry(cat, 1)]
  const T3: Table := T2 + [Entry(sat, 1)]
  const T4: Table := T3 + [Entry(on, 1)]
  const T5: Table := T4[0 := Entry(The, 2)]
  const T6: Table := T5 + [Entry(mat, 1)]
  const T7: Table := T6[0 := Entry(The, 3)]
  const T8: Table := T7[1 := Entry(cat, 2)]
  const T9: Table := T8 + [Entry(ran, 1)]

  lemma Step1()
    ensures Distinct(T1) && Put(T0, The) == T1
  {
    PutNew(T0, The);
  }

  lemma Step2()
    ensures Distinct(T1) && Distinct(T2) && Put(T1, cat) == T2
  {
    assert Distinct(T1) by { Step1(); }
    LowerForms();
    assert the[0] != cat[0];
    PutNew(T1, cat);
  }

  lemma Step3()
    ensures Distinct(T2) && Distinct(T3) && Put(T2, sat) == T3
  {
    assert Distinct(T2) by { Step2(); }
    LowerForms();
    assert the[0] != sat[0] && cat[0] != sat[0];
    PutNew(T2, sat);
  }

  lemma Step4()
    ensures Distinct(T3) && Distinct(T4) && Put(T3, on) == T4
  {
    assert Distinct(T3) by { Step3(); }
    LowerForms();
    assert |on| != 3;
    PutNew(T3, on);
  }

  lemma Step5()
    ensures Distinct(T4) && Distinct(T5) && Put(T4, the) == T5
  {
    assert Distinct(T4) by { Step4(); }
    LowerForms();
    PutExisting(T4, the, 0);
  }

  lemma Step6()
    ensures Distinct(T5) && Distinct(T6) && Put(T5, mat) == T6
  {
    assert Distinct(T5) by { Step5(); }
    LowerForms();
    assert the[0] != mat[0] && cat[0] != mat[0] && sat[0] != mat[0] && |on| != |mat|;
    PutNew(T5, mat);
  }

  lemma Step7()
    ensures Distinct(T6) && Distinct(T7) && Put(T6, THE) == T7
  {
    assert Distinct(T6) by { Step6(); }
    LowerForms();
    PutExisting(T6, THE, 0);
  }

  lemma Step8()
    ensures Distinct(T7) && Distinct(T8) && Put(T7, CAT) == T8
  {
    assert Distinct(T7) by { Step7(); }
    LowerForms();
    PutExisting(T7, CAT, 1);
  }

  lemma Step9()
    ensures Distinct(T8) && Distinct(T9) && Put(T8, ran) == T9
  {
    assert Distinct(T8) by { Step8(); }
    LowerForms();
    assert the[0] != ran[0] && cat[0] != ran[0] && sat[0] != ran[0] && |on| != |ran| && mat[0] != ran[0];
    PutNew(T8, ran);
  }

  lemma WordsCons()
    ensures Words == [The] + ([cat] + ([sat] + ([on] + ([the] + ([mat] + ([THE] + ([CAT] + ([ran] + []))))))))
  {
  }

  lemma GapsCons()
    ensures Gaps == [Space] + ([Space] + ([Space] + ([Space] + ([Space] + ([DotSpace] + ([Space] + ([Space] + ([Dot] + []))))))))
  {
  }

  /** The map built from the example's words, step by step. */
  lemma AggregateExample()
    ensures Aggregate(Words) == T9
  {
    Step1(); Step2(); Step3();
    Step4(); Step5(); Step6();
    Step7(); Step8(); Step9();
    WordsCons();
    PutAllCons(T0, The, [cat] + ([sat] + ([on] + ([the] + ([mat] + ([THE] + ([CAT] + ([ran] + []))))))));
    PutAllCons(T1, cat, [sat] + ([on] + ([the] + ([mat] + ([THE] + ([CAT] + ([ran] + [])))))));
    PutAllCons(T2, sat, [on] + ([the] + ([mat] + ([THE] + ([CAT] + ([ran] + []))))));
    PutAllCons(T3, on, [the] + ([mat] + ([THE] + ([CAT] + ([ran] + [])))));
    PutAllCons(T4, the, [mat] + ([THE] + ([CAT] + ([ran] + []))));
    PutAllCons(T5, mat, [THE] + ([CAT] + ([ran] + [])));
    PutAllCons(T6, THE, [CAT] + ([ran] + []));
    PutAllCons(T7, CAT, [ran] + []);
    PutAllCons(T8, ran, []);
  }
}

/** The ranking of the worked example. */
module ScenarioRanking {
  import opened Ascii
  import opened Tokenizer
  import opened Occurrences
  import opened Ranker
  import opened WordCount
  import opened Scenario

  const Rows: Ranking := [WordOccurrence(the, 3), WordOccurrence(cat, 2), WordOccurrence(sat, 1),
                          WordOccurrence(on, 1), WordOccurrence(mat, 1), WordOccurrence(ran, 1)]

  lemma VectorExample()
    ensures ToVector(Aggregate(Words)) == Rows
  {
    AggregateExample();
    var t := T9;
    var v := ToVector(t);
    LowerForms();
    assert |v| == 6;
    forall i | 0 <= i < 6
      ensures v[i] == Rows[i]
    {
    }
  }

  lemma RowsOfPermutation(r: Ranking)
    requires multiset(r) == multiset(Rows)
    ensures |r| == 6
    ensures forall i :: 0 <= i < |r| ==> r[i] in Rows
    ensures WordOccurrence(the, 3) in r && WordOccurrence(cat, 2) in r
  {
    assert |r| == |multiset(r)| == 6;
    forall i | 0 <= i < 6
      ensures r[i] in Rows
    {
      assert r[i] in multiset(r);
    }
    assert WordOccurrence(the, 3) in multiset(r);
    assert WordOccurrence(cat, 2) in multiset(r);
  }

  lemma TopRow(r: Ranking)
    requires |r| == 6 && SortedDesc(r) && forall i :: 0 <= i < |r| ==> r[i] in Rows
    requires WordOccurrence(the, 3) in r
    ensures r[0] == WordOccurrence(the, 3)
  {
    var k :| 0 <= k < 6 && r[k] == WordOccurrence(the, 3);
    assert r[0].occurrences >= 3;
  }

  lemma SecondRow(r: Ranking)
    requires |r| == 6 && SortedDesc(r) && DistinctWords(r) && forall i :: 0 <= i < |r| ==> r[i] in Rows
    requires r[0] == WordOccurrence(the, 3) && WordOccurrence(cat, 2) in r
    ensures r[1] == WordOccurrence(cat, 2)
  {
    var k :| 0 <= k < 6 && r[k] == WordOccurrence(cat, 2);
    assert r[1].occurrences >= 2;
    assert r[1].word != the;
  }

  lemma OtherRows(r: Ranking)
    requires |r| == 6 && DistinctWords(r) && forall i :: 0 <= i < |r| ==> r[i] in Rows
    requires r[0] == WordOccurrence(the, 3) && r[1] == WordOccurrence(cat, 2)
    ensures forall i :: 2 <= i < |r| ==> r[i].occurrences == 1
  {
    forall i | 2 <= i < 6
      ensures r[i].occurrences == 1
    {
      assert r[i].word != the && r[i].word != cat;
    }
  }

  /** Any sorted reordering of the example's rows with distinct words
      starts with "the" then "cat". */
  lemma SortedRows(r: Ranking)
    requires multiset(r) == multiset(Rows) && SortedDesc(r) && DistinctWords(r)
    ensures |r| == 6
    ensures r[0] == WordOccurrence(the, 3) && r[1] == WordOccurrence(cat, 2)
    ensures forall i :: 2 <= i < |r| ==> r[i].occurrences == 1
  {
    RowsOfPermutation(r);
    TopRow(r);
    SecondRow(r);
    OtherRows(r);
  }

  /** The ranking of "The cat sat on the mat. THE CAT ran.". */
  lemma RankExample()
    ensures |SplitAndSort(Sentence)| == 6
    ensures SplitAndSort(Sentence)[0] == WordOccurrence(the, 3)
    ensures SplitAndSort(Sentence)[1] == WordOccurrence(cat, 2)
    ensures forall i :: 2 <= i < 6 ==> SplitAndSort(Sentence)[i].occurrences == 1
    ensures multiset(SplitAndSort(Sentence)) == multiset(Rows)
  {
    SplitExample();
    VectorExample();
    SortedRows(SplitAndSort(Sentence));
  }
}
