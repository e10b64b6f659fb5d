/** Per-page layout recovery in `extract_text_columns_with_positions`: choosing
    the x coordinate that separates the two text columns, and indexing where
    each question number starts. Word and ruling-line extraction are inputs. */
module Layout {
  import opened Wrappers
  import opened Text

  datatype Column = Left | Right

  /** `question_positions[n]`: `{"page", "y_start", "col"}`. */
  datatype Position = Position(page: int, yStart: real, col: Column)

  /** A word as the layout reader yields it; `top` may be missing. */
  datatype Word = Word(text: string, top: Option<real>)

  /** A ruling line segment; every coordinate may be missing. */
  datatype Line = Line(x0: Option<real>, x1: Option<real>, y0: Option<real>, y1: Option<real>)

  /** A crop box `(x0, top, x1, bottom)`. */
  datatype Box = Box(x0: real, top: real, x1: real, bottom: real)

  /** The chosen split point, the gap left on each side of it, and the two column crops. */
  datatype Split = Split(x: real, gap: real, left: Box, right: Box)

  function Abs(x: real): real {
    if x < 0.0 then -x else x
  }

  function Max(a: real, b: real): real {
    if a >= b then a else b
  }

  function Min(a: real, b: real): real {
    if a <= b then a else b
  }

  /** A nearly flat line in the bottom 5% of the page: the footer rule, skipped. */
  predicate IsFooterRule(h: real, y0: real, y1: real) {
    Abs(y1 - y0) < 2.0 && y0 > h * 0.95
  }

  /** A nearly vertical line taller than 30% of the page whose x lies strictly
      inside the middle half of the page. */
  predicate IsDivider(w: real, h: real, x0: real, x1: real, y0: real, y1: real) {
    Abs(x0 - x1) < 4.0 && y1 - y0 > 0.3 * h && 0.25 * w < x0 < 0.75 * w
  }

  /** Whether a line contributes its `x0` as a candidate split point; a missing
      `y0` reads as 0 and a missing `y1` as the page height. */
  predicate IsCandidate(w: real, h: real, ln: Line) {
    && ln.x0.Some? && ln.x1.Some?
    && var y0 := Get(ln.y0, 0.0);
    && var y1 := Get(ln.y1, h);
    && !IsFooterRule(h, y0, y1)
    && IsDivider(w, h, ln.x0.value, ln.x1.value, y0, y1)
  }

  /** The candidate split points, in line order. */
  function Candidates(w: real, h: real, lines: seq<Line>): (cs: seq<real>)
    ensures |cs| <= |lines|
    ensures forall k :: 0 <= k < |cs| ==> 0.25 * w < cs[k] < 0.75 * w
  {
    if |lines| == 0 then []
    else
      var cs := Candidates(w, h, lines[..|lines| - 1]);
      var last := lines[|lines| - 1];
      if IsCandidate(w, h, last) then cs + [last.x0.value] else cs
  }

  /** The candidates are exactly the `x0` of the lines that qualify. */
  lemma {:induction false} CandidatesFromLines(w: real, h: real, lines: seq<Line>)
    ensures forall i :: 0 <= i < |lines| && IsCandidate(w, h, lines[i]) ==> lines[i].x0.value in Candidates(w, h, lines)
    ensures forall c :: c in Candidates(w, h, lines) ==> exists i :: 0 <= i < |lines| && IsCandidate(w, h, lines[i]) && lines[i].x0 == Some(c)
  {
    if |lines| > 0 {
      var init := lines[..|lines| - 1];
      CandidatesFromLines(w, h, init);
      assert forall i :: 0 <= i < |init| ==> init[i] == lines[i];
    }
  }

  /** `sorted(cs, key=lambda x: abs(x - t))[0]`: Python's sort is stable, so
      this is the first candidate at the least distance from `t`. */
  function Nearest(cs: seq<real>, t: real): (i: nat)
    requires |cs| > 0
    ensures i < |cs|
    ensures forall j :: 0 <= j < |cs| ==> Abs(cs[i] - t) <= Abs(cs[j] - t)
    ensures forall j :: 0 <= j < i ==> Abs(cs[j] - t) > Abs(cs[i] - t)
  {
    if |cs| == 1 then 0
    else
      var k := Nearest(cs[..|cs| - 1], t);
      assert forall j :: 0 <= j < |cs| - 1 ==> cs[..|cs| - 1][j] == cs[j];
      if Abs(cs[|cs| - 1] - t) < Abs(cs[k] - t) then |cs| - 1 else k
  }

  /** The split point and the two column crops (extract.py:213-222). */
  function ChooseSplit(w: real, h: real, lines: seq<Line>): (sp: Split)
    ensures var cs := Candidates(w, h, lines);
      && (|cs| == 0 ==> sp.x == w / 2.0)
      && (|cs| > 0 ==> sp.x in cs && forall c :: c in cs ==> Abs(sp.x - w / 2.0) <= Abs(c - w / 2.0))
    ensures sp.gap >= 4.0 && sp.gap >= w * 0.01 && (sp.gap == 4.0 || sp.gap == w * 0.01)
    ensures sp.left == Box(0.0, 0.0, Max(0.0, sp.x - sp.gap), h)
    ensures sp.right == Box(Min(w, sp.x + sp.gap), 0.0, w, h)
  {
    var cs := Candidates(w, h, lines);
    var x := if |cs| == 0 then w / 2.0 else cs[Nearest(cs, w / 2.0)];
    var gap := Max(4.0, w * 0.01);
    Split(x, gap, Box(0.0, 0.0, Max(0.0, x - gap), h), Box(Min(w, x + gap), 0.0, w, h))
  }

  /** On a page of positive width the split lies inside the page, the left crop
      ends at or before it, the right crop starts at or after it, and the two
      crops are separated. */
  lemma SplitSeparatesColumns(w: real, h: real, lines: seq<Line>)
    requires w > 0.0
    ensures var sp := ChooseSplit(w, h, lines);
      && 0.0 < sp.x < w
      && sp.left.x1 <= sp.x <= sp.right.x0
      && sp.left.x1 < sp.right.x0
  {
    var cs := Candidates(w, h, lines);
    var sp := ChooseSplit(w, h, lines);
    if |cs| > 0 {
      var k :| 0 <= k < |cs| && cs[k] == sp.x;
    }
  }

  /** The crops for a split at `x` as the retry at extract.py:232-240 builds
      them: not clamped to the page. */
  function Unclamped(w: real, h: real, x: real, gap: real): (sp: Split) {
    Split(x, gap, Box(0.0, 0.0, x - gap, h), Box(x + gap, 0.0, w, h))
  }

  /** The split the page's text is read with: when either column's text came
      out blank and the first choice was not the page middle, the page is cut
      again at the middle with the same gap. */
  function FinalSplit(w: real, h: real, lines: seq<Line>, leftBlank: bool, rightBlank: bool): (sp: Split)
    ensures !leftBlank && !rightBlank ==> sp == ChooseSplit(w, h, lines)
    ensures leftBlank || rightBlank ==> sp.x == w / 2.0
    ensures sp != ChooseSplit(w, h, lines) <==> (leftBlank || rightBlank) && ChooseSplit(w, h, lines).x != w / 2.0
    ensures sp.gap == ChooseSplit(w, h, lines).gap
    ensures sp != ChooseSplit(w, h, lines) ==>
      sp.left == Box(0.0, 0.0, w / 2.0 - sp.gap, h) && sp.right == Box(w / 2.0 + sp.gap, 0.0, w, h)
  {
    var first := ChooseSplit(w, h, lines);
    if (leftBlank || rightBlank) && first.x != w / 2.0 then Unclamped(w, h, w / 2.0, first.gap)
    else first
  }

  /** On a page of positive width the crops the text is read with never overlap. */
  lemma FinalSplitSeparates(w: real, h: real, lines: seq<Line>, leftBlank: bool, rightBlank: bool)
    requires w > 0.0
    ensures var sp := FinalSplit(w, h, lines, leftBlank, rightBlank);
      sp.left.x1 < sp.right.x0 && 0.0 < sp.x < w
  {
    SplitSeparatesColumns(w, h, lines);
  }

  /** The token test exactly as written at extract.py:242, `^\s*(\d+)\.\s`:
      a period followed by one whitespace character. */
  function TokenNumberAsWritten(t: string): (r: Option<nat>)
    ensures r.Some? ==> exists d :: 0 < d < |t| - 1 && t[d] == '.' && IsSpace(t[d + 1])
  {
    var k := Span(Space, t, 0);
    var d := k + Span(Digit, t, k);
    if d > k && d + 2 <= |t| && t[d] == '.' && IsSpace(t[d + 1]) then Some(DigitsValue(t[k..d])) else None
  }

  /** The test with what the pattern evidently intends, a number followed by a
      period at the start of the token, whether or not whitespace follows in
      the same token: `^\s*(\d+)\.(?:\s|$)`. */
  function TokenNumber(t: string): (r: Option<nat>)
  {
    var k := Span(Space, t, 0);
    var d := k + Span(Digit, t, k);
    if d > k && d + 1 <= |t| && t[d] == '.' && (d + 1 == |t| || IsSpace(t[d + 1])) then Some(DigitsValue(t[k..d])) else None
  }

  /** Word extraction splits at whitespace, so its tokens contain none; as
      written, no such token is ever taken as a question start. */
  lemma AsWrittenIgnoresWords(t: string)
    requires forall i :: 0 <= i < |t| ==> !IsSpace(t[i])
    ensures TokenNumberAsWritten(t) == None
  {
  }

  /** The token `"7."` shows it: the as-written test rejects it, the corrected
      one reads question 7. */
  lemma BareNumberToken()
    ensures TokenNumberAsWritten("7.") == None
    ensures TokenNumber("7.") == Some(7)
  {
    var t := "7.";
    assert Span(Space, t, 0) == 0;
    assert Span(Digit, t, 0) == 1;
    assert t[0..1] == "7";
    assert DigitsValue("7") == 7 by {
      assert "7"[..0] == [];
    }
  }

  /** The corrected test reads every number written as digits and a period. */
  lemma CorrectedReadsBareNumbers(ds: string)
    requires ds != [] && AllIn(Digit, ds)
    ensures TokenNumber(ds + ".") == Some(DigitsValue(ds))
  {
    var t := ds + ".";
    assert t[0] == ds[0] && !IsSpace(t[0]);
    SpanUpTo(Space, t, 0, 0);
    assert t[0..|ds|] == ds && t[|ds|] == '.';
    SpanUpTo(Digit, t, 0, |ds|);
  }

  /** The correction only adds tokens that end right after the period: on every
      token the as-written test accepts, both read the same number. */
  lemma CorrectedAgreesWithAsWritten(t: string)
    requires TokenNumberAsWritten(t).Some?
    ensures TokenNumber(t) == TokenNumberAsWritten(t)
  {
  }

  /** The question a word starts, as the indexer tests it. */
  function WordNumber(w: Word): Option<nat> {
    TokenNumber(w.text)
  }

  /** The question a word starts under the as-written test. */
  function WordNumberAsWritten(w: Word): Option<nat> {
    TokenNumberAsWritten(w.text)
  }

  /** The entry a word writes: a missing `top` reads as 0. */
  function Entry(page: int, col: Column, w: Word): Position {
    Position(page, Get(w.top, 0.0), col)
  }

  /** The index of the last word in `words` that `num` reads as question `n`. */
  function LastStarting(num: Word -> Option<nat>, words: seq<Word>, n: nat): (r: Option<nat>)
    ensures r.Some? ==> r.value < |words| && num(words[r.value]) == Some(n)
    ensures r.Some? ==> forall j :: r.value < j < |words| ==> num(words[j]) != Some(n)
    ensures r.None? ==> forall j :: 0 <= j < |words| ==> num(words[j]) != Some(n)
  {
    if |words| == 0 then None
    else if num(words[|words| - 1]) == Some(n) then Some(|words| - 1)
    else
      var r := LastStarting(num, words[..|words| - 1], n);
      assert forall j :: 0 <= j < |words| - 1 ==> words[..|words| - 1][j] == words[j];
      r
  }

  /** One of the two loops at extract.py:245-266, with the token test `num`:
      every word that starts a question overwrites that number's entry. */
  function IndexWords(num: Word -> Option<nat>, m: map<nat, Position>, page: int, col: Column, words: seq<Word>): (r: map<nat, Position>)
    ensures forall n :: LastStarting(num, words, n).Some? ==> n in r && r[n] == Entry(page, col, words[LastStarting(num, words, n).value])
    ensures forall n :: LastStarting(num, words, n).None? ==> (n in r <==> n in m) && (n in m ==> r[n] == m[n])
  {
    if |words| == 0 then m
    else
      var init := words[..|words| - 1];
      var last := words[|words| - 1];
      var m0 := IndexWords(num, m, page, col, init);
      assert forall j :: 0 <= j < |init| ==> init[j] == words[j];
      match num(last)
      case Some(n) => m0[n := Entry(page, col, last)]
      case None => m0
  }

  /** Indexing one page: the left column's words, then the right column's. */
  function IndexPage(m: map<nat, Position>, page: int, left: seq<Word>, right: seq<Word>): (r: map<nat, Position>)
    ensures forall n :: n in m ==> n in r
    ensures forall n :: n in r ==> r[n].page == page || (n in m && r[n] == m[n])
  {
    IndexWords(WordNumber, IndexWords(WordNumber, m, page, Left, left), page, Right, right)
  }

  /** Indexing one page with the token test as written. */
  function IndexPageAsWritten(m: map<nat, Position>, page: int, left: seq<Word>, right: seq<Word>): (r: map<nat, Position>)
    ensures forall n :: n in m ==> n in r
    ensures forall n :: n in r ==> r[n].page == page || (n in m && r[n] == m[n])
  {
    IndexWords(WordNumberAsWritten, IndexWords(WordNumberAsWritten, m, page, Left, left), page, Right, right)
  }

  /** When a word of the right column starts `n`, the last such word decides `n`'s entry. */
  lemma LastInRight(num: Word -> Option<nat>, m: map<nat, Position>, page: int, left: seq<Word>, right: seq<Word>, n: nat, i: nat)
    requires LastStarting(num, left + right, n) == Some(i)
    requires LastStarting(num, right, n).Some?
    ensures |left| <= i
    ensures var r := IndexWords(num, IndexWords(num, m, page, Left, left), page, Right, right);
      n in r && r[n] == Entry(page, Right, (left + right)[i])
  {
    var j := LastStarting(num, right, n).value;
    LastStartingRight(num, left, right, n, j);
    assert (left + right)[i] == right[j];
  }

  /** The last word of `right` starting `n` is the last such word of `left + right`. */
  lemma LastStartingRight(num: Word -> Option<nat>, left: seq<Word>, right: seq<Word>, n: nat, j: nat)
    requires LastStarting(num, right, n) == Some(j)
    ensures LastStarting(num, left + right, n) == Some(|left| + j)
  {
    LastStartingConcat(num, left, right, n);
  }

  /** With no word of `right` starting `n`, the last such word of `left + right` is in `left`. */
  lemma LastStartingLeft(num: Word -> Option<nat>, left: seq<Word>, right: seq<Word>, n: nat)
    requires LastStarting(num, right, n).None?
    ensures LastStarting(num, left + right, n) == LastStarting(num, left, n)
  {
    LastStartingConcat(num, left, right, n);
  }

  /** With no word of the right column starting `n`, the last one in the left column decides. */
  lemma LastInLeft(num: Word -> Option<nat>, m: map<nat, Position>, page: int, left: seq<Word>, right: seq<Word>, n: nat, i: nat)
    requires LastStarting(num, left + right, n) == Some(i)
    requires LastStarting(num, right, n).None?
    ensures i < |left|
    ensures var r := IndexWords(num, IndexWords(num, m, page, Left, left), page, Right, right);
      n in r && r[n] == Entry(page, Left, (left + right)[i])
  {
    LastStartingLeft(num, left, right, n);
    var inner := IndexWords(num, m, page, Left, left);
    assert n in inner && inner[n] == Entry(page, Left, left[i]);
    assert (left + right)[i] == left[i];
  }

  /** Both columns indexed with the token test `num`: the last word starting
      `n` in left-then-right order decides. */
  lemma LastInColumns(num: Word -> Option<nat>, m: map<nat, Position>, page: int, left: seq<Word>, right: seq<Word>, n: nat, i: nat)
    requires LastStarting(num, left + right, n) == Some(i)
    ensures var r := IndexWords(num, IndexWords(num, m, page, Left, left), page, Right, right);
      n in r && r[n] == Entry(page, if i < |left| then Left else Right, (left + right)[i])
  {
    if LastStarting(num, right, n).Some? {
      LastInRight(num, m, page, left, right, n, i);
    } else {
      LastInLeft(num, m, page, left, right, n, i);
    }
  }

  /** The last word starting `n` in left-then-right order decides `n`'s entry,
      including its column. */
  lemma IndexPageLastWins(m: map<nat, Position>, page: int, left: seq<Word>, right: seq<Word>, n: nat, i: nat)
    requires LastStarting(WordNumber, left + right, n) == Some(i)
    ensures var r := IndexPage(m, page, left, right);
      n in r && r[n] == Entry(page, if i < |left| then Left else Right, (left + right)[i])
  {
    LastInColumns(WordNumber, m, page, left, right, n, i);
  }

  /** The same for the token test as written: the last word it accepts decides. */
  lemma IndexPageAsWrittenLastWins(m: map<nat, Position>, page: int, left: seq<Word>, right: seq<Word>, n: nat, i: nat)
    requires LastStarting(WordNumberAsWritten, left + right, n) == Some(i)
    ensures var r := IndexPageAsWritten(m, page, left, right);
      n in r && r[n] == Entry(page, if i < |left| then Left else Right, (left + right)[i])
  {
    LastInColumns(WordNumberAsWritten, m, page, left, right, n, i);
  }

  /** A word the token test `num` reads as `n` that ends the right column decides `n`'s entry. */
  lemma LastWordIndexed(num: Word -> Option<nat>, m: map<nat, Position>, page: int, left: seq<Word>, right: seq<Word>, w: Word, n: nat)
    requires num(w) == Some(n)
    ensures var r := IndexWords(num, IndexWords(num, m, page, Left, left), page, Right, right + [w]);
      n in r && r[n] == Entry(page, Right, w)
  {
    var words := right + [w];
    assert words[..|words| - 1] == right && words[|words| - 1] == w;
  }

  /** With the corrected test, a word made of digits and a period that ends
      the page's right column records that number's position: this page, the
      right column and the word's `top`. */
  lemma BareNumberWordIndexed(m: map<nat, Position>, page: int, left: seq<Word>, right: seq<Word>, ds: string, top: Option<real>)
    requires ds != [] && AllIn(Digit, ds)
    ensures var r := IndexPage(m, page, left, right + [Word(ds + ".", top)]);
      DigitsValue(ds) in r && r[DigitsValue(ds)] == Position(page, Get(top, 0.0), Right)
  {
    var w := Word(ds + ".", top);
    CorrectedReadsBareNumbers(ds);
    assert WordNumber(w) == Some(DigitsValue(ds));
    LastWordIndexed(WordNumber, m, page, left, right, w, DigitsValue(ds));
  }

  /** A number no word on the page starts keeps its entry, or its absence. */
  lemma IndexPageKeepsOthers(m: map<nat, Position>, page: int, left: seq<Word>, right: seq<Word>, n: nat)
    requires LastStarting(WordNumber, left + right, n) == None
    ensures var r := IndexPage(m, page, left, right);
      (n in r <==> n in m) && (n in m ==> r[n] == m[n])
  {
    LastStartingConcat(WordNumber, left, right, n);
    var inner := IndexWords(WordNumber, m, page, Left, left);
  }

  /** The same for the token test as written. */
  lemma IndexPageAsWrittenKeepsOthers(m: map<nat, Position>, page: int, left: seq<Word>, right: seq<Word>, n: nat)
    requires LastStarting(WordNumberAsWritten, left + right, n) == None
    ensures var r := IndexPageAsWritten(m, page, left, right);
      (n in r <==> n in m) && (n in m ==> r[n] == m[n])
  {
    LastStartingConcat(WordNumberAsWritten, left, right, n);
  }

  /** The last word starting `n` in `left + right` is the last in `right`, or
      failing that the last in `left`. */
  lemma {:induction false} LastStartingConcat(num: Word -> Option<nat>, left: seq<Word>, right: seq<Word>, n: nat)
    ensures LastStarting(num, left + right, n) ==
      match LastStarting(num, right, n)
      case Some(j) => Some(|left| + j)
      case None => LastStarting(num, left, n)
    decreases |right|
  {
    if |right| == 0 {
      assert left + right == left;
    } else {
      var all := left + right;
      var last := right[|right| - 1];
      assert all[|all| - 1] == last;
      if num(last) == Some(n) {
        assert LastStarting(num, all, n) == Some(|all| - 1);
        assert LastStarting(num, right, n) == Some(|right| - 1);
      } else {
        var init := right[..|right| - 1];
        assert all[..|all| - 1] == left + init;
        assert LastStarting(num, all, n) == LastStarting(num, left + init, n);
        assert LastStarting(num, right, n) == LastStarting(num, init, n);
        LastStartingConcat(num, left, init, n);
      }
    }
  }

  /** Words no test reads as a question leave the index as it was. */
  lemma {:induction false} NothingIndexed(num: Word -> Option<nat>, m: map<nat, Position>, page: int, col: Column, words: seq<Word>)
    requires forall i :: 0 <= i < |words| ==> num(words[i]) == None
    ensures IndexWords(num, m, page, col, words) == m
  {
    if |words| > 0 {
      var init := words[..|words| - 1];
      assert forall i :: 0 <= i < |init| ==> init[i] == words[i];
      NothingIndexed(num, m, page, col, init);
    }
  }

  /** Words as extracted contain no whitespace, so the as-written indexer
      records no question position at all: every page leaves the index as it
      was, and no image is ever attached. */
  lemma AsWrittenIndexesNothing(m: map<nat, Position>, page: int, left: seq<Word>, right: seq<Word>)
    requires forall i, j :: 0 <= i < |left| && 0 <= j < |left[i].text| ==> !IsSpace(left[i].text[j])
    requires forall i, j :: 0 <= i < |right| && 0 <= j < |right[i].text| ==> !IsSpace(right[i].text[j])
    ensures IndexPageAsWritten(m, page, left, right) == m
  {
    forall i | 0 <= i < |left| ensures WordNumberAsWritten(left[i]) == None {
      AsWrittenIgnoresWords(left[i].text);
    }
    forall i | 0 <= i < |right| ensures WordNumberAsWritten(right[i]) == None {
      AsWrittenIgnoresWords(right[i].text);
    }
    NothingIndexed(WordNumberAsWritten, m, page, Left, left);
    NothingIndexed(WordNumberAsWritten, m, page, Right, right);
  }
}
