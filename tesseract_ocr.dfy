/**
  The candidate ranking of the Tesseract recogniser: from the recogniser's
  word table to the list of text candidates offered to the operator.

  Words whose stripped text is empty or whose confidence is not above 30 are
  dropped; if any word is kept, one more entry holding all kept texts joined
  by spaces, with their mean confidence, goes in front; then everything is
  sorted by confidence, highest first, keeping the order of equal
  confidences.

  `RankWords` is the loop itself; `Rank` is what it computes, and the lemmas
  below say what that is without the loop.
 */
module TesseractOcr {
  import opened Wrappers
  import opened Text
  import opened StrategyBase

  /** One row of the recogniser's word table: the raw word, its confidence
      and its box. */
  datatype Word = Word(text: string, conf: real, left: int, top: int, width: int, height: int)

  /** Confidence a word must exceed to be kept. */
  const MinConfidence: real := 30.0

  /** The language string handed to the recogniser by default; it only
      reaches the recogniser call itself, which is not modelled. */
  const DefaultLanguage: string := "kor+eng"

  /** `text and confidence > 30` on the stripped text. */
  predicate Passes(w: Word) {
    Strip(w.text) != [] && w.conf > MinConfidence
  }

  /** A candidate whose text is non-empty and has no whitespace at either end. */
  predicate Trimmed(r: OCRResult) {
    r.text != [] && !IsSpace(r.text[0]) && !IsSpace(r.text[|r.text| - 1])
  }

  /** The result recorded for a kept word: stripped text, confidence and the
      box `[left, top, width, height]`. */
  function WordResult(w: Word): (r: OCRResult)
    requires Passes(w)
    ensures r.text == Strip(w.text) && Trimmed(r)
    ensures r.confidence == w.conf && r.bbox == [w.left, w.top, w.width, w.height]
  {
    var text := Strip(w.text);
    StripTrimmed(text);
    NewOCRResult(text, w.conf, Some([w.left, w.top, w.width, w.height]))
  }

  // ---------------------------------------------------------------------------
  // What the loop computes

  /** The results of the kept words, in table order. */
  function Kept(ws: seq<Word>): seq<OCRResult> {
    if ws == [] then []
    else Kept(ws[..|ws| - 1]) + (if Passes(ws[|ws| - 1]) then [WordResult(ws[|ws| - 1])] else [])
  }

  function Texts(rs: seq<OCRResult>): seq<string> {
    if rs == [] then [] else Texts(rs[..|rs| - 1]) + [rs[|rs| - 1].text]
  }

  function Total(rs: seq<OCRResult>): real {
    if rs == [] then 0.0 else Total(rs[..|rs| - 1]) + rs[|rs| - 1].confidence
  }

  /** `sum(confidences) / len(results) if results else 0`. */
  function Overall(rs: seq<OCRResult>): real {
    if rs != [] then Total(rs) / (|rs| as real) else 0.0
  }

  /** The entry standing for all recognised text: the kept texts joined by
      spaces, with their overall confidence and no box. */
  function Aggregate(kept: seq<OCRResult>): OCRResult {
    NewOCRResult(Join(Texts(kept), " "), Overall(kept))
  }

  /** The list before sorting: nothing when no word is kept, otherwise the
      aggregate in front of the kept words' results. */
  function Unsorted(ws: seq<Word>): seq<OCRResult> {
    var kept := Kept(ws);
    if kept == [] then [] else [Aggregate(kept)] + kept
  }

  /** `x` placed before the first entry whose confidence does not exceed its
      own: after every higher one, before every equal one. */
  function Insert(x: OCRResult, rs: seq<OCRResult>): seq<OCRResult> {
    if rs == [] || rs[0].confidence <= x.confidence then [x] + rs
    else [rs[0]] + Insert(x, rs[1..])
  }

  /** `list.sort(key=confidence, reverse=True)`: a stable sort, highest
      confidence first. */
  function SortByConfidence(rs: seq<OCRResult>): seq<OCRResult> {
    if rs == [] then [] else Insert(rs[0], SortByConfidence(rs[1..]))
  }

  /** The ranked candidates for a word table. */
  function Rank(ws: seq<Word>): seq<OCRResult> {
    SortByConfidence(Unsorted(ws))
  }

  // ---------------------------------------------------------------------------
  // The loop

  /** The body of `extract_text` after the recogniser has answered: collect the
      kept words and their texts, put the aggregate in front, sort. */
  method RankWords(words: seq<Word>) returns (results: seq<OCRResult>)
    ensures results == Rank(words)
  {
    results := [];
    var texts: seq<string> := [];
    var i := 0;
    while i < |words|
      invariant 0 <= i <= |words|
      invariant results == Kept(words[..i])
      invariant texts == Texts(results)
    {
      assert words[..i + 1][..i] == words[..i];
      var text := Strip(words[i].text);
      var confidence := words[i].conf;
      if text != [] && confidence > MinConfidence {
        var bbox := [words[i].left, words[i].top, words[i].width, words[i].height];
        results := results + [NewOCRResult(text, confidence, Some(bbox))];
        texts := texts + [text];
        assert results[..|results| - 1] == Kept(words[..i]);
      }
      i := i + 1;
    }
    assert words[..|words|] == words;
    if texts != [] {
      var fullText := Join(texts, " ");
      var overall := if results != [] then Total(results) / (|results| as real) else 0.0;
      results := [NewOCRResult(fullText, overall)] + results;
    } else {
      assert results == [];
    }
    results := SortByConfidence(results);
  }

  // ---------------------------------------------------------------------------
  // The recogniser

  /** The recogniser as `extract_text` sees it: its language (which only
      reaches the recogniser call), whether Tesseract is installed, and the
      word table it reads from an image (`None` when the call raises). */
  datatype Tesseract = Tesseract(language: string, available: bool, table: Image -> Option<seq<Word>>) {

    /** What `extract_text(image)` returns: nothing when the recogniser is
        missing or fails, otherwise the ranked candidates of its word table;
        either way sorted by confidence, highest first. */
    function Answer(image: Image): (r: seq<OCRResult>)
      ensures !available || table(image).None? ==> r == []
      ensures available && table(image).Some? ==> r == Rank(table(image).value)
      ensures Descending(r)
    {
      if !available then []
      else match table(image)
        case None => []
        case Some(words) => RankDescending(words); Rank(words)
    }

    /** `extract_text(image)`. */
    method ExtractText(image: Image) returns (results: seq<OCRResult>)
      ensures results == Answer(image)
    {
      if !available {
        return [];
      }
      match table(image)
      case None =>
        results := [];
      case Some(words) =>
        results := RankWords(words);
        RankDescending(words);
    }
  }

  // ---------------------------------------------------------------------------
  // Sorting

  predicate Descending(rs: seq<OCRResult>) {
    forall i, j :: 0 <= i < j < |rs| ==> rs[i].confidence >= rs[j].confidence
  }

  /** The entries of `rs` with confidence `c`, in order. */
  function WithConfidence(rs: seq<OCRResult>, c: real): seq<OCRResult> {
    if rs == [] then []
    else (if rs[0].confidence == c then [rs[0]] else []) + WithConfidence(rs[1..], c)
  }

  lemma {:induction false} InsertDescending(x: OCRResult, rs: seq<OCRResult>)
    requires Descending(rs)
    ensures Descending(Insert(x, rs))
    ensures Insert(x, rs)[0] == x || (rs != [] && Insert(x, rs)[0] == rs[0])
  {
    if rs != [] && rs[0].confidence > x.confidence {
      InsertDescending(x, rs[1..]);
      var t := Insert(x, rs[1..]);
      assert rs[0].confidence >= t[0].confidence;
      assert Insert(x, rs) == [rs[0]] + t;
    }
  }

  lemma {:induction false} InsertPermutes(x: OCRResult, rs: seq<OCRResult>)
    ensures multiset(Insert(x, rs)) == multiset(rs) + multiset{x}
  {
    if rs != [] && rs[0].confidence > x.confidence {
      InsertPermutes(x, rs[1..]);
      assert rs == [rs[0]] + rs[1..];
    }
  }

  lemma {:induction false} InsertStable(x: OCRResult, rs: seq<OCRResult>, c: real)
    ensures WithConfidence(Insert(x, rs), c) == WithConfidence([x] + rs, c)
  {
    if rs != [] && rs[0].confidence > x.confidence {
      InsertStable(x, rs[1..], c);
      assert ([rs[0]] + Insert(x, rs[1..]))[1..] == Insert(x, rs[1..]);
      assert ([x] + rs)[1..] == rs;
      assert ([x] + rs[1..])[1..] == rs[1..];
      if rs[0].confidence == c {
        assert x.confidence != c;
      }
    }
  }

  /** The sort puts the highest confidence first, loses and adds nothing, and
      keeps the order of entries with equal confidence. */
  lemma {:induction false} SortFacts(rs: seq<OCRResult>)
    ensures Descending(SortByConfidence(rs))
    ensures multiset(SortByConfidence(rs)) == multiset(rs)
    ensures forall c :: WithConfidence(SortByConfidence(rs), c) == WithConfidence(rs, c)
  {
    if rs != [] {
      SortFacts(rs[1..]);
      InsertDescending(rs[0], SortByConfidence(rs[1..]));
      InsertPermutes(rs[0], SortByConfidence(rs[1..]));
      assert rs == [rs[0]] + rs[1..];
      forall c ensures WithConfidence(SortByConfidence(rs), c) == WithConfidence(rs, c) {
        InsertStable(rs[0], SortByConfidence(rs[1..]), c);
      }
    }
  }

  lemma RankDescending(ws: seq<Word>)
    ensures Descending(Rank(ws))
  {
    SortFacts(Unsorted(ws));
  }
}
