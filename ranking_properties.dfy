/**
  What the candidate ranking guarantees, stated without the loop: it is empty
  exactly when no word passes the filter, otherwise it has one entry more
  than there are kept words; it is sorted by confidence, highest first, holds
  exactly the kept words' results and the aggregate, and keeps the order of
  equal confidences, so the aggregate comes before every word that ties with
  it; every entry has a trimmed, non-empty text and a confidence above 30.
 */
module RankingProperties {
  import opened Text
  import opened StrategyBase
  import opened TesseractOcr

  /** Every entry has a non-empty trimmed text. */
  predicate AllTrimmed(rs: seq<OCRResult>) {
    forall k :: 0 <= k < |rs| ==> Trimmed(rs[k])
  }

  /** Every entry is above the confidence floor. */
  predicate AllAbove(rs: seq<OCRResult>) {
    forall k :: 0 <= k < |rs| ==> rs[k].confidence > MinConfidence
  }

  /** No word is kept exactly when none passes the filter. */
  lemma {:induction false} KeptEmpty(ws: seq<Word>)
    ensures Kept(ws) == [] <==> forall i :: 0 <= i < |ws| ==> !Passes(ws[i])
  {
    if ws != [] {
      var init := ws[..|ws| - 1];
      var last := ws[|ws| - 1];
      KeptEmpty(init);
      assert Kept(ws) == Kept(init) + (if Passes(last) then [WordResult(last)] else []);
      if Passes(last) {
        assert Kept(ws) != [];
      } else {
        assert Kept(ws) == Kept(init);
        forall i | 0 <= i < |ws| ensures !Passes(ws[i]) <==> (i == |ws| - 1 || !Passes(init[i])) {
        }
      }
    }
  }

  // `AppendEntries` and `LastEntry` only break the step of `KeptEntries`
  // into pieces the solver handles separately; Dafny proves each unaided.

  lemma AppendEntries(a: seq<OCRResult>, b: seq<OCRResult>)
    requires AllTrimmed(a) && AllTrimmed(b) && AllAbove(a) && AllAbove(b)
    ensures AllTrimmed(a + b) && AllAbove(a + b)
  {
  }

  lemma LastEntry(last: Word)
    ensures var tail := if Passes(last) then [WordResult(last)] else [];
      AllTrimmed(tail) && AllAbove(tail)
  {
  }

  /** Every kept word's result has a non-empty trimmed text and a confidence
      above 30. */
  lemma {:induction false} KeptEntries(ws: seq<Word>)
    ensures AllTrimmed(Kept(ws)) && AllAbove(Kept(ws))
  {
    if ws != [] {
      var init := ws[..|ws| - 1];
      var last := ws[|ws| - 1];
      KeptEntries(init);
      LastEntry(last);
      AppendEntries(Kept(init), if Passes(last) then [WordResult(last)] else []);
    }
  }

  lemma {:induction false} TextsFacts(rs: seq<OCRResult>)
    ensures |Texts(rs)| == |rs|
    ensures forall k :: 0 <= k < |rs| ==> Texts(rs)[k] == rs[k].text
  {
    if rs != [] {
      TextsFacts(rs[..|rs| - 1]);
    }
  }

  lemma {:induction false} TotalAbove(rs: seq<OCRResult>)
    requires AllAbove(rs)
    ensures rs != [] ==> Total(rs) > MinConfidence * (|rs| as real)
  {
    if rs != [] {
      TotalAbove(rs[..|rs| - 1]);
    }
  }

  lemma Mean(mean: real, total: real, n: real, floor: real)
    requires n > 0.0 && total > floor * n && mean == total / n
    ensures mean > floor
  {
  }

  /** The aggregate's text is the kept texts joined by single spaces (already
      trimmed, so the result's own stripping changes nothing), and it has no
      box. */
  lemma AggregateText(kept: seq<OCRResult>)
    requires kept != [] && AllTrimmed(kept)
    ensures Aggregate(kept).text == Join(Texts(kept), " ") && Trimmed(Aggregate(kept))
    ensures Aggregate(kept).bbox == []
  {
    TextsFacts(kept);
    JoinTrimmed(Texts(kept), " ");
    StripTrimmed(Join(Texts(kept), " "));
  }

  /** The mean of confidences that are all above the floor is above it. */
  lemma OverallAbove(rs: seq<OCRResult>)
    requires rs != [] && AllAbove(rs)
    ensures Overall(rs) > MinConfidence
  {
    TotalAbove(rs);
    Mean(Overall(rs), Total(rs), |rs| as real, MinConfidence);
  }

  /** The aggregate's confidence, the mean of the kept confidences, is above
      the floor like each of them. */
  lemma AggregateConfidence(kept: seq<OCRResult>)
    requires kept != [] && AllAbove(kept)
    ensures Aggregate(kept).confidence > MinConfidence
  {
    OverallAbove(kept);
  }

  /** The ranking is empty exactly when no word passes the filter, and
      otherwise one longer than the list of kept words. */
  lemma RankLength(ws: seq<Word>)
    ensures Rank(ws) == [] <==> forall i :: 0 <= i < |ws| ==> !Passes(ws[i])
    ensures |Rank(ws)| == if Kept(ws) == [] then 0 else |Kept(ws)| + 1
  {
    KeptEmpty(ws);
    SortFacts(Unsorted(ws));
    assert |multiset(Rank(ws))| == |multiset(Unsorted(ws))|;
  }

  /** The ranking is the stable sort of the aggregate followed by the kept
      words' results: highest confidence first, the same entries, and entries
      of equal confidence in their order before sorting. */
  lemma RankSorted(ws: seq<Word>)
    ensures Descending(Rank(ws))
    ensures multiset(Rank(ws)) == multiset(Unsorted(ws))
    ensures forall c :: WithConfidence(Rank(ws), c) == WithConfidence(Unsorted(ws), c)
  {
    SortFacts(Unsorted(ws));
  }

  /** Every candidate has a non-empty trimmed text and a confidence above 30. */
  lemma RankEntries(ws: seq<Word>)
    ensures AllTrimmed(Rank(ws)) && AllAbove(Rank(ws))
  {
    var u := Unsorted(ws);
    KeptEntries(ws);
    if Kept(ws) != [] {
      AggregateText(Kept(ws));
      AggregateConfidence(Kept(ws));
    }
    assert AllTrimmed(u) && AllAbove(u);
    SortFacts(u);
    forall k | 0 <= k < |Rank(ws)|
      ensures Trimmed(Rank(ws)[k]) && Rank(ws)[k].confidence > MinConfidence
    {
      assert Rank(ws)[k] in multiset(u);
    }
  }

  /** Among the candidates sharing the aggregate's confidence, the aggregate
      comes first. */
  lemma AggregateLeadsTies(ws: seq<Word>)
    requires Kept(ws) != []
    ensures var a := Aggregate(Kept(ws));
      WithConfidence(Rank(ws), a.confidence) != [] && WithConfidence(Rank(ws), a.confidence)[0] == a
  {
    SortFacts(Unsorted(ws));
  }

  const ExampleWords: seq<Word> :=
    [Word("ABC123", 92.0, 10, 20, 60, 12), Word("wrench", 45.0, 80, 20, 50, 12), Word("  ", 99.0, 0, 0, 5, 5)]

  /** A word made of printable ASCII is its own stripped form. */
  lemma StripPrintable(t: string)
    requires t != [] && forall i :: 0 <= i < |t| ==> 0x21 <= t[i] as int <= 0x7E
    ensures Strip(t) == t
  {
    NotSpace(t[0]);
    NotSpace(t[|t| - 1]);
    StripTrimmed(t);
  }

  lemma ExampleWordResults()
    ensures Passes(ExampleWords[0]) && WordResult(ExampleWords[0]) == OCRResult("ABC123", 92.0, [10, 20, 60, 12])
    ensures Passes(ExampleWords[1]) && WordResult(ExampleWords[1]) == OCRResult("wrench", 45.0, [80, 20, 50, 12])
    ensures !Passes(ExampleWords[2])
  {
    StripPrintable("ABC123");
    StripPrintable("wrench");
    SpaceAndTab();
    assert Strip("  ") == [];
  }

  lemma KeptSnocPass(ws: seq<Word>, w: Word)
    requires Passes(w)
    ensures Kept(ws + [w]) == Kept(ws) + [WordResult(w)]
  {
    assert (ws + [w])[..|ws|] == ws;
  }

  lemma KeptSnocFail(ws: seq<Word>, w: Word)
    requires !Passes(w)
    ensures Kept(ws + [w]) == Kept(ws)
  {
    assert (ws + [w])[..|ws|] == ws;
  }

  /** Sequence identities for the three-word example, proved unaided but kept
      apart from the heavier facts of `KeptTwoOfThree`. */
  lemma ThreeAppends(w1: Word, w2: Word, w3: Word, r1: OCRResult, r2: OCRResult)
    ensures [] + [w1] == [w1] && [w1] + [w2] == [w1, w2] && [w1, w2] + [w3] == [w1, w2, w3]
    ensures [] + [r1] + [r2] == [r1, r2]
  {
  }

  /** Of three words, the first two pass and the last does not. */
  lemma KeptTwoOfThree(w1: Word, w2: Word, w3: Word)
    requires Passes(w1) && Passes(w2) && !Passes(w3)
    ensures Kept([w1, w2, w3]) == [WordResult(w1), WordResult(w2)]
  {
    ThreeAppends(w1, w2, w3, WordResult(w1), WordResult(w2));
    KeptSnocPass([], w1);
    KeptSnocPass([w1], w2);
    KeptSnocFail([w1, w2], w3);
  }

  lemma ExampleKept()
    ensures Kept(ExampleWords)
         == [OCRResult("ABC123", 92.0, [10, 20, 60, 12]), OCRResult("wrench", 45.0, [80, 20, 50, 12])]
  {
    var ws := ExampleWords;
    ExampleWordResults();
    assert ws == [ws[0], ws[1], ws[2]];
    KeptTwoOfThree(ws[0], ws[1], ws[2]);
  }

  lemma ExampleAggregate()
    ensures Aggregate([OCRResult("ABC123", 92.0, [10, 20, 60, 12]), OCRResult("wrench", 45.0, [80, 20, 50, 12])])
         == OCRResult("ABC123 wrench", 68.5, [])
  {
    var kept := [OCRResult("ABC123", 92.0, [10, 20, 60, 12]), OCRResult("wrench", 45.0, [80, 20, 50, 12])];
    var first := kept[..1];
    assert first == [kept[0]] && first[..0] == [];
    assert Texts(first) == Texts(first[..0]) + [first[0].text];
    assert Total(first) == 92.0 && Texts(first) == ["ABC123"];
    assert Total(kept) == 137.0 && Texts(kept) == ["ABC123", "wrench"];
    assert Overall(kept) == 68.5;
    var joined := "ABC123 wrench";
    assert Join(["ABC123", "wrench"], " ") == joined;
    NotSpace(joined[0]);
    NotSpace(joined[12]);
    StripTrimmed(joined);
  }

  /** Three words, one of them blank: the blank one is dropped, and the
      aggregate `ABC123 wrench` with the mean 68.5 ranks between the two
      kept words. */
  lemma RankExample()
    ensures Rank(ExampleWords)
         == [OCRResult("ABC123", 92.0, [10, 20, 60, 12]), OCRResult("ABC123 wrench", 68.5, []),
             OCRResult("wrench", 45.0, [80, 20, 50, 12])]
  {
    ExampleKept();
    ExampleAggregate();
  }
}
