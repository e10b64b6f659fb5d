/** The two regular expressions the segmenter and the option parser scan with,
    written as explicit scanners, and Python's `finditer` over either of them. */
module Patterns {
  import opened Wrappers
  import opened Text

  /** The regexes scanned for with `finditer`/`findall`:
      QuestionMarker is `(?m)^\s*(\d+)\.\s*` (extract.py:288),
      OptionMarker is `(?i)(?:(?<=^)|(?<=[\s\.]))([a-fA-F])\)\s*(.*?)(?=(?:[\s\.][a-fA-F]\)|$))`
      with DOTALL (extract.py:340-343). */
  datatype Pattern = QuestionMarker | OptionMarker

  /** One match: the whole match is `[start, end)`, the first group is
      `[groupStart, groupEnd)` and the text the marker introduces starts at
      `valueStart` (for an option its value is `[valueStart, end)`; for a question
      `valueStart == end` and its body runs on to the next marker). */
  datatype Hit = Hit(start: nat, groupStart: nat, groupEnd: nat, valueStart: nat, end: nat)

  predicate IsOptionLetter(c: char) {
    'a' <= c <= 'f' || 'A' <= c <= 'F'
  }

  predicate WellFormed(pat: Pattern, s: seq<char>, h: Hit) {
    && h.start <= h.groupStart < h.groupEnd <= h.valueStart <= h.end <= |s|
    && (pat == QuestionMarker ==> AllIn(Digit, s[h.groupStart..h.groupEnd]) && h.valueStart == h.end)
    && (pat == OptionMarker ==> h.groupEnd == h.groupStart + 1 && IsOptionLetter(s[h.groupStart]))
  }

  /** `(?m)^`: the start of the text or just after a `\n`. */
  predicate AtLineStart(s: seq<char>, p: nat)
    requires p <= |s|
  {
    p == 0 || s[p - 1] == '\n'
  }

  /** An attempt of `(?m)^\s*(\d+)\.\s*` at position `p`. The greedy `\s*` and
      `\d+` never need to give characters back: `\s` and `\d` are disjoint and a
      shorter digit run would be followed by a digit, not by `.`. */
  function QuestionAt(s: seq<char>, p: nat): (r: Option<Hit>)
    requires p <= |s|
    ensures r.Some? ==> r.value.start == p && r.value.start < r.value.end && WellFormed(QuestionMarker, s, r.value)
  {
    if !AtLineStart(s, p) then None
    else QuestionAfterSpace(s, p, p + Span(Space, s, p))
  }

  /** The rest of the attempt at `p` once the leading whitespace ends at `k`. */
  function QuestionAfterSpace(s: seq<char>, p: nat, k: nat): Option<Hit>
    requires p <= k <= |s|
  {
    QuestionAfterDigits(s, p, k, k + Span(Digit, s, k))
  }

  /** The rest of the attempt at `p` once the leading whitespace ends at `k`
      and the digit run at `d`: the run must be non-empty and be followed by
      `.`, after which the trailing `\s*` is consumed. */
  function QuestionAfterDigits(s: seq<char>, p: nat, k: nat, d: nat): Option<Hit>
    requires p <= k <= d <= |s|
  {
    if d == k || d == |s| || s[d] != '.' then None
    else
      var e := d + 1 + Span(Space, s, d + 1);
      Some(Hit(p, k, d, e, e))
  }

  /** The lookahead `(?=(?:[\s\.][a-fA-F]\)|$))` at position `q`; without
      MULTILINE, `$` holds at the end and just before a final `\n`. */
  predicate OptionFollows(s: seq<char>, q: nat)
    requires q <= |s|
  {
    || (q + 3 <= |s| && (IsSpace(s[q]) || s[q] == '.') && IsOptionLetter(s[q + 1]) && s[q + 2] == ')')
    || q == |s|
    || (q + 1 == |s| && s[q] == '\n')
  }

  /** Where the lazy `(.*?)` stops: the first position from `v` on where the
      lookahead holds. */
  function LazyEnd(s: seq<char>, v: nat): (q: nat)
    requires v <= |s|
    ensures v <= q <= |s|
    ensures OptionFollows(s, q)
    ensures forall j :: v <= j < q ==> !OptionFollows(s, j)
    decreases |s| - v
  {
    if OptionFollows(s, v) then v else LazyEnd(s, v + 1)
  }

  /** An attempt of the option pattern at position `p`: the lookbehind accepts
      the start of the text (`^` without MULTILINE), whitespace or `.`. */
  function OptionAt(s: seq<char>, p: nat): (r: Option<Hit>)
    requires p <= |s|
    ensures r.Some? ==> r.value.start == p && r.value.start < r.value.end && WellFormed(OptionMarker, s, r.value)
  {
    if p + 2 > |s| then None
    else if !(p == 0 || IsSpace(s[p - 1]) || s[p - 1] == '.') then None
    else if !IsOptionLetter(s[p]) || s[p + 1] != ')' then None
    else Some(OptionFrom(s, p, p + 2 + Span(Space, s, p + 2)))
  }

  /** The match at `p` once the whitespace after `)` ends at `v`: the value
      runs from `v` to where the lazy group stops. */
  function OptionFrom(s: seq<char>, p: nat, v: nat): Hit
    requires v <= |s|
  {
    Hit(p, p, p + 1, v, LazyEnd(s, v))
  }

  function MatchAt(pat: Pattern, s: seq<char>, p: nat): (r: Option<Hit>)
    requires p <= |s|
    ensures r.Some? ==> r.value.start == p && r.value.start < r.value.end && WellFormed(pat, s, r.value)
  {
    match pat
    case QuestionMarker => QuestionAt(s, p)
    case OptionMarker => OptionAt(s, p)
  }

  /** The attempt of `pat` at every position of `s`, failing past the end. */
  function Matcher(pat: Pattern, s: seq<char>): nat -> Option<Hit> {
    (p: nat) => if p <= |s| then MatchAt(pat, s, p) else None
  }

  /** Whatever an attempt at `p <= n` matches starts at `p` and consumes at least
      one character of a text of length `n`. */
  ghost predicate Advances(at: nat -> Option<Hit>, n: nat) {
    forall p: nat :: p <= n && at(p).Some? ==> at(p).value.start == p < at(p).value.end <= n
  }

  lemma MatcherAdvances(pat: Pattern, s: seq<char>)
    ensures Advances(Matcher(pat, s), |s|)
  {
  }

  /** No attempt succeeds at any position in `[lo, hi)`. */
  ghost predicate NoMatchIn(at: nat -> Option<Hit>, n: nat, lo: int, hi: int) {
    forall p: nat :: lo <= p < hi && p <= n ==> at(p).None?
  }

  /** What `finditer` returns when scanning a text of length `n` from `from`,
      stated without the scan: every hit is a successful attempt at its own
      start, the hits do not overlap and come in order, and no attempt succeeds
      in any gap between them (an attempt that starts inside an earlier hit is
      never made). */
  ghost predicate IsFindAll(at: nat -> Option<Hit>, n: nat, from: nat, hits: seq<Hit>) {
    && (forall i :: 0 <= i < |hits| ==> from <= hits[i].start <= n && at(hits[i].start) == Some(hits[i]))
    && (forall i :: 0 <= i < |hits| - 1 ==> hits[i].end <= hits[i + 1].start)
    && NoMatchIn(at, n, from, if |hits| == 0 then n + 1 else hits[0].start)
    && (forall i :: 0 <= i < |hits| - 1 ==> NoMatchIn(at, n, hits[i].end, hits[i + 1].start))
    && (|hits| > 0 ==> NoMatchIn(at, n, hits[|hits| - 1].end, n + 1))
  }

  /** A hit at `from` followed by a scan from its end is a scan from `from`. */
  lemma ScanCons(at: nat -> Option<Hit>, n: nat, from: nat, h: Hit, rest: seq<Hit>)
    requires Advances(at, n)
    requires from <= n
    requires at(from) == Some(h)
    requires IsFindAll(at, n, h.end, rest)
    ensures IsFindAll(at, n, from, [h] + rest)
  {
    var hits := [h] + rest;
    assert forall i :: 1 <= i < |hits| ==> hits[i] == rest[i - 1];
    forall i | 0 <= i < |hits| - 1
      ensures hits[i].end <= hits[i + 1].start
      ensures NoMatchIn(at, n, hits[i].end, hits[i + 1].start)
    {
      if i > 0 {
        assert hits[i] == rest[i - 1] && hits[i + 1] == rest[i];
      }
    }
  }

  /** A failed attempt at `from` followed by a scan from `from + 1` is a scan from `from`. */
  lemma ScanSkip(at: nat -> Option<Hit>, n: nat, from: nat, hits: seq<Hit>)
    requires from <= n
    requires at(from).None?
    requires IsFindAll(at, n, from + 1, hits)
    ensures IsFindAll(at, n, from, hits)
  {
    assert NoMatchIn(at, n, from + 1, if |hits| == 0 then n + 1 else hits[0].start);
  }

  /** A stretch of failed attempts before a scan from `hi` extends it back to `lo`. */
  lemma ScanGap(at: nat -> Option<Hit>, n: nat, lo: nat, hi: nat, hits: seq<Hit>)
    requires lo <= hi
    requires NoMatchIn(at, n, lo, hi)
    requires IsFindAll(at, n, hi, hits)
    ensures IsFindAll(at, n, lo, hits)
  {
  }

  /** Python's `finditer`: try every position left to right, and after a match
      resume at its end. */
  function Scan(at: nat -> Option<Hit>, n: nat, from: nat): (hits: seq<Hit>)
    requires Advances(at, n)
    requires from <= n + 1
    ensures IsFindAll(at, n, from, hits)
    decreases n + 1 - from
  {
    if from > n then []
    else
      match at(from)
      case Some(h) =>
        var rest := Scan(at, n, h.end);
        ScanCons(at, n, from, h, rest);
        [h] + rest
      case None =>
        var hits := Scan(at, n, from + 1);
        ScanSkip(at, n, from, hits);
        hits
  }

  /** The first step of a scan: a successful attempt at `from` is its first hit,
      and otherwise it is also a scan from `from + 1`. */
  lemma ScanHead(at: nat -> Option<Hit>, n: nat, from: nat, hits: seq<Hit>)
    requires from <= n
    requires IsFindAll(at, n, from, hits)
    ensures at(from).Some? ==> |hits| > 0 && hits[0] == at(from).value
    ensures at(from).None? ==> IsFindAll(at, n, from + 1, hits)
  {
    if at(from).Some? {
      assert !NoMatchIn(at, n, from, from + 1);
    } else if |hits| > 0 {
      assert hits[0].start != from;
    }
  }

  /** Hits of a scan end before any later hit starts. */
  lemma {:induction false} HitsIncreasing(at: nat -> Option<Hit>, n: nat, from: nat, hits: seq<Hit>, i: nat, j: nat)
    requires Advances(at, n)
    requires IsFindAll(at, n, from, hits)
    requires i < j < |hits|
    ensures hits[i].end <= hits[j].start
    decreases j - i
  {
    if j > i + 1 {
      HitsIncreasing(at, n, from, hits, i + 1, j);
      assert at(hits[i + 1].start) == Some(hits[i + 1]);
    }
  }

  /** The tail of a scan is a scan from the end of its first hit. */
  lemma ScanTail(at: nat -> Option<Hit>, n: nat, from: nat, hits: seq<Hit>)
    requires Advances(at, n)
    requires IsFindAll(at, n, from, hits)
    requires |hits| > 0
    ensures IsFindAll(at, n, hits[0].end, hits[1..])
  {
    var rest := hits[1..];
    assert forall i :: 0 <= i < |rest| ==> rest[i] == hits[i + 1];
    if |rest| > 0 {
      assert NoMatchIn(at, n, hits[0].end, hits[1].start);
    }
    forall i | 0 <= i < |rest| - 1 ensures NoMatchIn(at, n, rest[i].end, rest[i + 1].start) {
      assert NoMatchIn(at, n, hits[i + 1].end, hits[i + 2].start);
    }
    forall i | 0 <= i < |rest| ensures hits[0].end <= rest[i].start {
      HitsIncreasing(at, n, from, hits, 0, i + 1);
    }
  }

  /** A successful attempt at `from` followed by the scan from its end is the scan from `from`. */
  lemma ScanStepHit(at: nat -> Option<Hit>, n: nat, from: nat, hits: seq<Hit>)
    requires Advances(at, n)
    requires from <= n && at(from).Some?
    requires |hits| > 0 && hits[0] == at(from).value
    requires hits[1..] == Scan(at, n, hits[0].end)
    ensures hits == Scan(at, n, from)
  {
    assert hits == [hits[0]] + hits[1..];
  }

  /** A failed attempt at `from` leaves the scan from `from + 1`. */
  lemma ScanStepMiss(at: nat -> Option<Hit>, n: nat, from: nat, hits: seq<Hit>)
    requires Advances(at, n)
    requires from <= n && at(from).None?
    requires hits == Scan(at, n, from + 1)
    ensures hits == Scan(at, n, from)
  {
  }

  /** The scan is the only sequence meeting the declarative description. */
  lemma {:induction false} ScanUnique(at: nat -> Option<Hit>, n: nat, from: nat, hits: seq<Hit>)
    requires Advances(at, n)
    requires from <= n + 1
    requires IsFindAll(at, n, from, hits)
    ensures hits == Scan(at, n, from)
    decreases n + 1 - from
  {
    if from <= n {
      ScanHead(at, n, from, hits);
      if at(from).Some? {
        ScanTail(at, n, from, hits);
        ScanUnique(at, n, hits[0].end, hits[1..]);
        ScanStepHit(at, n, from, hits);
      } else {
        ScanUnique(at, n, from + 1, hits);
        ScanStepMiss(at, n, from, hits);
      }
    }
  }

  /** Two sequences meeting the declarative description from the same position are equal. */
  lemma ScanDeterministic(at: nat -> Option<Hit>, n: nat, from: nat, a: seq<Hit>, b: seq<Hit>)
    requires Advances(at, n)
    requires from <= n + 1
    requires IsFindAll(at, n, from, a)
    requires IsFindAll(at, n, from, b)
    ensures a == b
  {
    ScanUnique(at, n, from, a);
    ScanUnique(at, n, from, b);
  }

  /** `finditer(s)` for one of the two patterns. */
  function FindAll(pat: Pattern, s: seq<char>): (hits: seq<Hit>)
    ensures IsFindAll(Matcher(pat, s), |s|, 0, hits)
    ensures forall i :: 0 <= i < |hits| ==> hits[i].start < hits[i].end && WellFormed(pat, s, hits[i])
  {
    MatcherAdvances(pat, s);
    var hits := Scan(Matcher(pat, s), |s|, 0);
    assert forall i :: 0 <= i < |hits| ==> MatchAt(pat, s, hits[i].start) == Some(hits[i]);
    hits
  }

  /** The scan result is the only sequence meeting the declarative description. */
  lemma FindAllUnique(pat: Pattern, s: seq<char>, hits: seq<Hit>)
    requires IsFindAll(Matcher(pat, s), |s|, 0, hits)
    ensures hits == FindAll(pat, s)
  {
    MatcherAdvances(pat, s);
    ScanDeterministic(Matcher(pat, s), |s|, 0, hits, FindAll(pat, s));
  }
}
