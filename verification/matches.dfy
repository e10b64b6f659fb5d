/** What each of the two patterns matches at a position, stated without the
    scanners, and proof that the scanners find exactly that. */
module Matches {
  import opened Wrappers
  import opened Text
  import opened Patterns

  /** What `(?m)^\s*(\d+)\.\s*` matches at `p`, stated without the scanner:
      `p` starts a line, a whitespace run leads to a non-empty digit run (the
      group), a period follows, and the match ends after the longest whitespace
      run behind the period. */
  predicate IsQuestionMatch(s: seq<char>, p: nat, h: Hit) {
    && p <= |s| && AtLineStart(s, p)
    && h.start == p && h.valueStart == h.end
    && p <= h.groupStart < h.groupEnd < h.end <= |s|
    && AllSpace(s[p..h.groupStart])
    && AllIn(Digit, s[h.groupStart..h.groupEnd])
    && s[h.groupEnd] == '.'
    && AllSpace(s[h.groupEnd + 1..h.end])
    && (h.end == |s| || !IsSpace(s[h.end]))
  }

  /** An attempt of the question pattern succeeds with `h` exactly when `h`
      is what the regex matches there. */
  lemma QuestionAtExactly(s: seq<char>, p: nat, h: Hit)
    requires p <= |s|
    ensures QuestionAt(s, p) == Some(h) <==> IsQuestionMatch(s, p, h)
  {
    if QuestionAt(s, p) == Some(h) {
      QuestionAtMatches(s, p);
    }
    if IsQuestionMatch(s, p, h) {
      QuestionMatchFound(s, p, h);
    }
  }

  lemma QuestionAtMatches(s: seq<char>, p: nat)
    requires p <= |s| && QuestionAt(s, p).Some?
    ensures IsQuestionMatch(s, p, QuestionAt(s, p).value)
  {
  }

  lemma QuestionMatchFound(s: seq<char>, p: nat, h: Hit)
    requires p <= |s| && IsQuestionMatch(s, p, h)
    ensures QuestionAt(s, p) == Some(h)
  {
    QuestionMatchSpans(s, p, h);
    QuestionAtSpans(s, p, h.groupStart, h.groupEnd);
    QuestionAfterSpan(s, p, h.groupStart, h.groupEnd, h.end);
  }

  /** The three runs the scanner measures end where the match says. */
  lemma QuestionMatchSpans(s: seq<char>, p: nat, h: Hit)
    requires p <= |s| && IsQuestionMatch(s, p, h)
    ensures Span(Space, s, p) == h.groupStart - p
    ensures Span(Digit, s, h.groupStart) == h.groupEnd - h.groupStart
    ensures Span(Space, s, h.groupEnd + 1) == h.end - h.groupEnd - 1
  {
    assert s[h.groupStart..h.groupEnd][0] == s[h.groupStart];
    SpanUpTo(Space, s, p, h.groupStart);
    SpanUpTo(Digit, s, h.groupStart, h.groupEnd);
    SpanUpTo(Space, s, h.groupEnd + 1, h.end);
  }

  lemma QuestionAtSpans(s: seq<char>, p: nat, k: nat, d: nat)
    requires p <= k <= d <= |s| && AtLineStart(s, p)
    requires Span(Space, s, p) == k - p && Span(Digit, s, k) == d - k
    ensures QuestionAt(s, p) == QuestionAfterDigits(s, p, k, d)
  {
    QuestionAtSpace(s, p, k);
    QuestionAfterSpaceDigits(s, p, k, d);
  }

  lemma QuestionAtSpace(s: seq<char>, p: nat, k: nat)
    requires p <= k <= |s| && AtLineStart(s, p) && Span(Space, s, p) == k - p
    ensures QuestionAt(s, p) == QuestionAfterSpace(s, p, k)
  {
    assert p + Span(Space, s, p) == k;
  }

  lemma QuestionAfterSpaceDigits(s: seq<char>, p: nat, k: nat, d: nat)
    requires p <= k <= d <= |s| && Span(Digit, s, k) == d - k
    ensures QuestionAfterSpace(s, p, k) == QuestionAfterDigits(s, p, k, d)
  {
  }

  lemma QuestionAfterSpan(s: seq<char>, p: nat, k: nat, d: nat, e: nat)
    requires p <= k < d < |s| && d + 1 <= e <= |s| && s[d] == '.'
    requires Span(Space, s, d + 1) == e - d - 1
    ensures QuestionAfterDigits(s, p, k, d) == Some(Hit(p, k, d, e, e))
  {
  }

  /** What the option pattern matches at `p`, stated without the scanner: the
      lookbehind holds, a letter a-f or A-F (the group) and `)` follow, the
      value starts after the longest whitespace run and the match ends at the
      first position from there where the lookahead holds. */
  predicate IsOptionMatch(s: seq<char>, p: nat, h: Hit) {
    && p + 2 <= |s|
    && (p == 0 || IsSpace(s[p - 1]) || s[p - 1] == '.')
    && IsOptionLetter(s[p]) && s[p + 1] == ')'
    && h.start == p && h.groupStart == p && h.groupEnd == p + 1
    && p + 2 <= h.valueStart <= h.end <= |s|
    && AllSpace(s[p + 2..h.valueStart])
    && (h.valueStart == |s| || !IsSpace(s[h.valueStart]))
    && OptionFollows(s, h.end)
    && (forall j :: h.valueStart <= j < h.end ==> !OptionFollows(s, j))
  }

  /** The first position from `v` where the lookahead holds is where the lazy
      group stops. */
  lemma {:induction false} LazyEndIsFirst(s: seq<char>, v: nat, q: nat)
    requires v <= q <= |s| && OptionFollows(s, q)
    requires forall j :: v <= j < q ==> !OptionFollows(s, j)
    ensures LazyEnd(s, v) == q
    decreases q - v
  {
    if v < q {
      LazyEndIsFirst(s, v + 1, q);
    }
  }

  /** An attempt of the option pattern succeeds with `h` exactly when `h` is
      what the regex matches there. */
  lemma OptionAtExactly(s: seq<char>, p: nat, h: Hit)
    requires p <= |s|
    ensures OptionAt(s, p) == Some(h) <==> IsOptionMatch(s, p, h)
  {
    if OptionAt(s, p) == Some(h) {
      OptionAtMatches(s, p);
    }
    if IsOptionMatch(s, p, h) {
      OptionMatchFound(s, p, h);
    }
  }

  lemma OptionAtMatches(s: seq<char>, p: nat)
    requires p <= |s| && OptionAt(s, p).Some?
    ensures IsOptionMatch(s, p, OptionAt(s, p).value)
  {
  }

  lemma OptionMatchFound(s: seq<char>, p: nat, h: Hit)
    requires p <= |s| && IsOptionMatch(s, p, h)
    ensures OptionAt(s, p) == Some(h)
  {
    SpanUpTo(Space, s, p + 2, h.valueStart);
    OptionAtSpan(s, p, h.valueStart);
    LazyEndIsFirst(s, h.valueStart, h.end);
  }

  lemma OptionAtSpan(s: seq<char>, p: nat, v: nat)
    requires p + 2 <= v <= |s|
    requires p == 0 || IsSpace(s[p - 1]) || s[p - 1] == '.'
    requires IsOptionLetter(s[p]) && s[p + 1] == ')'
    requires Span(Space, s, p + 2) == v - p - 2
    ensures OptionAt(s, p) == Some(OptionFrom(s, p, v))
  {
  }
}
