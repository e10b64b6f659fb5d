/** Cutting the normalised document text into numbered questions (`split_questions`). */
module Segment {
  import opened Wrappers
  import opened Text
  import opened Patterns

  /** A question as the segmenter returns it: `(int(m.group(1)), qtext)`. */
  datatype Question = Question(number: nat, body: string)

  /** The question number a marker carries. */
  function Number(s: string, h: Hit): nat
    requires WellFormed(QuestionMarker, s, h)
  {
    DigitsValue(s[h.groupStart..h.groupEnd])
  }

  /** Where the body of the `i`-th question stops: at the start of the next
      marker, or at the end of the text for the last one. */
  function BodyEnd(s: string, hits: seq<Hit>, i: nat): nat
    requires i < |hits|
  {
    if i + 1 < |hits| then hits[i + 1].start else |s|
  }

  /** Every marker is well formed and its body runs from its end to the next
      marker's start, or to the end of the text. */
  lemma MarkerBodies(s: string)
    ensures var hits := FindAll(QuestionMarker, s);
      forall i :: 0 <= i < |hits| ==>
        WellFormed(QuestionMarker, s, hits[i]) && hits[i].end <= BodyEnd(s, hits, i) <= |s|
  {
  }

  /** `split_questions`: one question per marker, in the order the markers
      occur, each body being the stripped text after its marker. */
  function SplitQuestions(s: string): (qs: seq<Question>)
    ensures |qs| == |FindAll(QuestionMarker, s)|
    ensures forall i :: 0 <= i < |qs| ==> IsTrimmed(qs[i].body)
  {
    var hits := FindAll(QuestionMarker, s);
    MarkerBodies(s);
    seq(|hits|, i requires 0 <= i < |hits| =>
      Question(Number(s, hits[i]), Trim(s[hits[i].end..BodyEnd(s, hits, i)])))
  }

  /** For any sequence of markers meeting the declarative description of
      `finditer`, the questions are exactly: one per marker, in order, numbered
      by its digits, with the stripped slice from the marker's end to the next
      marker's start (or to the end of the text) as body. */
  lemma SegmentsBetweenMarkers(s: string, hits: seq<Hit>)
    requires IsFindAll(Matcher(QuestionMarker, s), |s|, 0, hits)
    ensures |SplitQuestions(s)| == |hits|
    ensures forall i :: 0 <= i < |hits| ==>
      && WellFormed(QuestionMarker, s, hits[i])
      && hits[i].end <= BodyEnd(s, hits, i) <= |s|
      && SplitQuestions(s)[i] == Question(Number(s, hits[i]), Trim(s[hits[i].end..BodyEnd(s, hits, i)]))
  {
    FindAllUnique(QuestionMarker, s, hits);
  }

  /** The segmenter returns nothing exactly when no position of the text starts
      a question marker. */
  lemma NoMarkerNoQuestions(s: string)
    ensures SplitQuestions(s) == [] <==> forall p :: 0 <= p <= |s| ==> QuestionAt(s, p).None?
  {
    var hits := FindAll(QuestionMarker, s);
    if |hits| > 0 {
      assert Matcher(QuestionMarker, s)(hits[0].start) == Some(hits[0]);
    } else {
      assert NoMatchIn(Matcher(QuestionMarker, s), |s|, 0, |s| + 1);
      forall p | 0 <= p <= |s| ensures QuestionAt(s, p).None? {
        assert Matcher(QuestionMarker, s)(p).None?;
      }
    }
  }

  /** `^` is anchored at line starts, so text without a line break holds at most
      one question, and holds one exactly when it starts with a marker: two
      numbered sentences on one line stay a single question. */
  lemma OneLineAtMostOneQuestion(s: string)
    requires '\n' !in s
    ensures |SplitQuestions(s)| <= 1
    ensures |SplitQuestions(s)| == 1 <==> QuestionAt(s, 0).Some?
  {
    var at := Matcher(QuestionMarker, s);
    var hits := FindAll(QuestionMarker, s);
    forall i | 0 <= i < |hits| ensures hits[i].start == 0 {
      assert at(hits[i].start) == Some(hits[i]);
      assert QuestionAt(s, hits[i].start).Some?;
      assert AtLineStart(s, hits[i].start);
    }
    ScanHead(at, |s|, 0, hits);
  }

  /** Digits and a period at the start of a line begin a question whatever
      follows, since `\s*` may match nothing: a line reading `3.14` is
      question 3. */
  lemma DigitsAndPeriodStartQuestion(ds: string, t: string)
    requires ds != [] && AllIn(Digit, ds)
    ensures var s := ds + "." + t;
      QuestionAt(s, 0).Some? && Number(s, QuestionAt(s, 0).value) == DigitsValue(ds)
  {
    var s := ds + "." + t;
    assert s[0] == ds[0];
    SpanUpTo(Space, s, 0, 0);
    assert s[0..|ds|] == ds;
    assert s[|ds|] == '.';
    SpanUpTo(Digit, s, 0, |ds|);
  }
}
