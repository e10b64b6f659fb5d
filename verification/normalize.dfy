/** The fixed pipeline of rewrites in `normalize_keep_lines` (extract.py:277-284),
    one function per rewrite, each scanning left to right the way `str.replace`
    and `re.sub` do. */
module Normalize {
  import opened Text

  /** `str.replace("\r\n", "\n")`. */
  function CrLfToLf(s: string): (r: string)
    ensures |r| <= |s|
    ensures forall c :: c in r ==> c in s
    decreases |s|
  {
    if |s| == 0 then []
    else if |s| >= 2 && s[0] == '\r' && s[1] == '\n' then "\n" + CrLfToLf(s[2..])
    else [s[0]] + CrLfToLf(s[1..])
  }

  /** Reference for the first replacement, one character at a time: a carriage
      return disappears exactly when a line feed follows it. */
  function DropCrBeforeLf(s: string): (r: string)
    decreases |s|
  {
    if |s| == 0 then []
    else (if |s| >= 2 && s[0] == '\r' && s[1] == '\n' then [] else [s[0]]) + DropCrBeforeLf(s[1..])
  }

  /** Consuming `\r\n` pairs left to right drops exactly the carriage returns
      that precede a line feed: no pair is ever split by an earlier one. */
  lemma {:induction false} CrLfDropsCr(s: string)
    ensures CrLfToLf(s) == DropCrBeforeLf(s)
    decreases |s|
  {
    if |s| >= 2 && s[0] == '\r' && s[1] == '\n' {
      assert s[1..][1..] == s[2..];
      CrLfDropsCr(s[2..]);
    } else if |s| > 0 {
      CrLfDropsCr(s[1..]);
    }
  }

  /** `str.replace("\r", "\n")`. */
  function CrToLf(s: string): (r: string)
    ensures |r| == |s|
    ensures '\r' !in r
    ensures forall c :: c in r ==> c in s || c == '\n'
  {
    seq(|s|, i requires 0 <= i < |s| => if s[i] == '\r' then '\n' else s[i])
  }

  /** Both line-ending replacements: no carriage return survives. */
  function LineEnds(s: string): (r: string)
    ensures '\r' !in r
    ensures forall c :: c in r ==> c in s || c == '\n'
  {
    CrToLf(CrLfToLf(s))
  }

  /** Text without carriage returns passes through the line-ending step unchanged. */
  lemma {:induction false} LineEndsFixed(s: string)
    requires '\r' !in s
    ensures LineEnds(s) == s
  {
    NoCrKept(s);
  }

  lemma {:induction false} NoCrKept(s: string)
    requires '\r' !in s
    ensures CrLfToLf(s) == s
    decreases |s|
  {
    if |s| > 0 {
      assert s == [s[0]] + s[1..];
      NoCrKept(s[1..]);
    }
  }

  /** `s` contains `a` immediately followed by `b` somewhere. */
  predicate HasPair(s: string, a: char, b: char) {
    exists i :: 0 <= i < |s| - 1 && s[i] == a && s[i + 1] == b
  }

  /** `re.sub(r'-\n', '', s)`: every hyphen at a line end is removed together
      with the line break. */
  function RemoveHyphenBreaks(s: string): (r: string)
    ensures |r| <= |s|
    ensures forall c :: c in r ==> c in s
    decreases |s|
  {
    if |s| == 0 then []
    else if |s| >= 2 && s[0] == '-' && s[1] == '\n' then RemoveHyphenBreaks(s[2..])
    else [s[0]] + RemoveHyphenBreaks(s[1..])
  }

  /** A hyphenated line break joins the text around it, whatever that text is. */
  lemma {:induction false} HyphenBreakJoins(a: string, b: string)
    ensures RemoveHyphenBreaks(a + "-\n" + b) == RemoveHyphenBreaks(a) + RemoveHyphenBreaks(b)
    decreases |a|
  {
    var s := a + "-\n" + b;
    if |a| == 0 {
      assert s == "-\n" + b;
      assert s[2..] == b;
    } else if |a| >= 2 && a[0] == '-' && a[1] == '\n' {
      assert s[0] == '-' && s[1] == '\n';
      assert s[2..] == a[2..] + "-\n" + b;
      HyphenBreakJoins(a[2..], b);
      assert RemoveHyphenBreaks(s) == RemoveHyphenBreaks(s[2..]);
      assert RemoveHyphenBreaks(a) == RemoveHyphenBreaks(a[2..]);
    } else {
      assert s[0] == a[0];
      assert s[1] == if |a| == 1 then '-' else a[1];
      assert s[1..] == a[1..] + "-\n" + b;
      HyphenBreakJoins(a[1..], b);
      assert RemoveHyphenBreaks(s) == [a[0]] + RemoveHyphenBreaks(s[1..]);
      assert RemoveHyphenBreaks(a) == [a[0]] + RemoveHyphenBreaks(a[1..]);
    }
  }

  /** Text without a hyphenated line break is unchanged. */
  lemma {:induction false} NoHyphenBreakFixed(s: string)
    requires !HasPair(s, '-', '\n')
    ensures RemoveHyphenBreaks(s) == s
    decreases |s|
  {
    if |s| > 0 {
      assert !(|s| >= 2 && s[0] == '-' && s[1] == '\n');
      forall i | 0 <= i < |s[1..]| - 1 ensures !(s[1..][i] == '-' && s[1..][i + 1] == '\n') {
        assert s[1..][i] == s[i + 1] && s[1..][i + 1] == s[i + 2];
      }
      NoHyphenBreakFixed(s[1..]);
      assert s == [s[0]] + s[1..];
    }
  }

  /** How `a + run + b` splits at a position `k` inside `a`. */
  lemma SplitInsideFirst(a: string, run: string, b: string, k: nat)
    requires k <= |a|
    ensures (a + run + b)[..k] == a[..k]
    ensures (a + run + b)[k..] == a[k..] + run + b
    ensures k < |a| ==> (a + run + b)[k] == a[k]
  {
  }

  /** How `run + b` splits after `run`. */
  lemma SplitAfterFirst(run: string, b: string)
    ensures (run + b)[..|run|] == run && (run + b)[|run|..] == b
  {
  }

  /** Regrouping a concatenation: if `lhs` is `p` before `x + y + z` and
      `rhs` is `p` before `x`, then `lhs` is `rhs` before `y + z`. */
  lemma Regroup(lhs: string, rhs: string, p: string, mid: string, x: string, y: string, z: string)
    requires lhs == p + mid && mid == x + y + z && rhs == p + x
    ensures lhs == rhs + y + z
  {
  }

  /** `s` with every character of class `cls` left out, the rest in order. */
  function Without(cls: CharClass, s: string): (r: string)
    ensures |r| <= |s|
    decreases |s|
  {
    if |s| == 0 then []
    else (if InClass(cls, s[0]) then [] else [s[0]]) + Without(cls, s[1..])
  }

  lemma {:induction false} WithoutConcat(cls: CharClass, a: string, b: string)
    ensures Without(cls, a + b) == Without(cls, a) + Without(cls, b)
    decreases |a|
  {
    if |a| > 0 {
      assert (a + b)[0] == a[0] && (a + b)[1..] == a[1..] + b;
      WithoutConcat(cls, a[1..], b);
      Regroup(Without(cls, a + b), Without(cls, a), if InClass(cls, a[0]) then [] else [a[0]],
              Without(cls, (a + b)[1..]), Without(cls, a[1..]), Without(cls, b), []);
    } else {
      assert a + b == b;
    }
  }

  lemma {:induction false} WithoutRun(cls: CharClass, a: string)
    requires AllIn(cls, a)
    ensures Without(cls, a) == []
    decreases |a|
  {
    if |a| > 0 {
      assert InClass(cls, a[0]);
      WithoutRun(cls, a[1..]);
    }
  }

  /** Dropping a leading run of the class changes nothing once the class is left out. */
  lemma WithoutSkipsRun(cls: CharClass, s: string, n: nat)
    requires n <= |s| && AllIn(cls, s[..n])
    ensures Without(cls, s) == Without(cls, s[n..])
  {
    assert s == s[..n] + s[n..];
    WithoutConcat(cls, s[..n], s[n..]);
    WithoutRun(cls, s[..n]);
  }

  /** Replacing a leading run of the class by another run of it keeps the text
      outside the class. */
  lemma WithoutReplacesRun(cls: CharClass, s: string, n: nat, run: string, rest: string)
    requires n <= |s| && AllIn(cls, s[..n]) && AllIn(cls, run)
    requires Without(cls, rest) == Without(cls, s[n..])
    ensures Without(cls, run + rest) == Without(cls, s)
  {
    WithoutSkipsRun(cls, s, n);
    WithoutConcat(cls, run, rest);
    WithoutRun(cls, run);
  }

  /** A space or a tab, the class `[ \t]`. */
  predicate IsBlank(c: char) {
    c == ' ' || c == '\t'
  }

  /** `re.sub(r'[ \t]+', ' ', s)`: every maximal run of spaces and tabs
      becomes one space. */
  function CollapseBlanks(s: string): (r: string)
    ensures '\t' !in r
    ensures !HasPair(r, ' ', ' ')
    ensures |s| > 0 <==> |r| > 0
    ensures |s| > 0 ==> (r[0] == ' ' <==> IsBlank(s[0]))
    ensures forall c :: c in r ==> c in s || c == ' '
    ensures Without(Blank, r) == Without(Blank, s)
    decreases |s|
  {
    if |s| == 0 then []
    else if IsBlank(s[0]) then
      var n := Span(Blank, s, 0);
      var rest := CollapseBlanks(s[n..]);
      assert s[..n] == s[0..n];
      WithoutSkipsRun(Blank, s, n);
      assert (" " + rest)[1..] == rest;
      assert |rest| > 0 ==> rest[0] != ' ';
      var r := " " + rest;
      assert forall i :: 1 <= i < |r| ==> r[i] == rest[i - 1];
      r
    else
      var rest := CollapseBlanks(s[1..]);
      var r := [s[0]] + rest;
      assert forall i :: 1 <= i < |r| ==> r[i] == rest[i - 1];
      r
  }

  /** Text with no tab and no two spaces in a row is unchanged; in particular
      the step is idempotent. */
  lemma {:induction false} CollapseBlanksFixed(s: string)
    requires '\t' !in s && !HasPair(s, ' ', ' ')
    ensures CollapseBlanks(s) == s
    decreases |s|
  {
    if |s| > 0 {
      assert '\t' !in s[1..];
      forall i | 0 <= i < |s[1..]| - 1 ensures !(s[1..][i] == ' ' && s[1..][i + 1] == ' ') {
        assert s[1..][i] == s[i + 1] && s[1..][i + 1] == s[i + 2];
      }
      CollapseBlanksFixed(s[1..]);
      if IsBlank(s[0]) {
        SpanUpTo(Blank, s, 0, 1);
      }
      assert s == [s[0]] + s[1..];
    }
  }

  lemma CollapseBlanksIdempotent(s: string)
    ensures CollapseBlanks(CollapseBlanks(s)) == CollapseBlanks(s)
  {
    CollapseBlanksFixed(CollapseBlanks(s));
  }

  /** The leading run of the class in a text that opens with one and ends
      outside it: non-empty, strictly inside, and followed by a character
      outside the class. */
  lemma LeadingRunInside(cls: CharClass, a: string) returns (n: nat)
    requires |a| > 0 && InClass(cls, a[0]) && !InClass(cls, a[|a| - 1])
    ensures n == Span(cls, a, 0)
    ensures 0 < n < |a| && AllIn(cls, a[..n]) && !InClass(cls, a[n])
  {
    n := Span(cls, a, 0);
    assert a[0..n] == a[..n];
  }

  /** A leading blank run of length `n` becomes one space. */
  lemma CollapseBlanksLead(s: string, n: nat)
    requires 0 < n <= |s| && AllIn(Blank, s[..n]) && (n == |s| || !IsBlank(s[n]))
    ensures CollapseBlanks(s) == " " + CollapseBlanks(s[n..])
  {
    assert s[..n][0] == s[0];
    assert s[0..n] == s[..n];
    SpanUpTo(Blank, s, 0, n);
  }

  /** A leading character that is not blank is kept. */
  lemma CollapseBlanksKeep(s: string)
    requires |s| > 0 && !IsBlank(s[0])
    ensures CollapseBlanks(s) == [s[0]] + CollapseBlanks(s[1..])
  {
  }

  /** `CollapseBlanksRun` when `a` is empty. */
  lemma CollapseBlanksRunAlone(a: string, run: string, b: string)
    requires a == [] && run != [] && AllIn(Blank, run)
    requires b == [] || !IsBlank(b[0])
    ensures CollapseBlanks(a + run + b) == CollapseBlanks(a) + " " + CollapseBlanks(b)
  {
    SplitAfterFirst(run, b);
    assert a + run + b == run + b;
    CollapseBlanksLead(run + b, |run|);
    assert CollapseBlanks(a) == [];
  }

  /** `CollapseBlanksRun` when `a` opens with a blank run of length `n`,
      given the result for the rest of `a`. */
  lemma CollapseBlanksRunAfterBlanks(a: string, run: string, b: string, n: nat)
    requires 0 < n < |a| && AllIn(Blank, a[..n]) && !IsBlank(a[n])
    requires CollapseBlanks(a[n..] + run + b) == CollapseBlanks(a[n..]) + " " + CollapseBlanks(b)
    ensures CollapseBlanks(a + run + b) == CollapseBlanks(a) + " " + CollapseBlanks(b)
  {
    SplitInsideFirst(a, run, b, n);
    CollapseBlanksLead(a, n);
    CollapseBlanksLead(a + run + b, n);
    Regroup(CollapseBlanks(a + run + b), CollapseBlanks(a), " ", CollapseBlanks(a[n..] + run + b),
            CollapseBlanks(a[n..]), " ", CollapseBlanks(b));
  }

  /** `CollapseBlanksRun` when `a` opens with a kept character, given the
      result for the rest of `a`. */
  lemma CollapseBlanksRunAfterKept(a: string, run: string, b: string)
    requires |a| > 0 && !IsBlank(a[0])
    requires CollapseBlanks(a[1..] + run + b) == CollapseBlanks(a[1..]) + " " + CollapseBlanks(b)
    ensures CollapseBlanks(a + run + b) == CollapseBlanks(a) + " " + CollapseBlanks(b)
  {
    SplitInsideFirst(a, run, b, 1);
    CollapseBlanksKeep(a + run + b);
    CollapseBlanksKeep(a);
    Regroup(CollapseBlanks(a + run + b), CollapseBlanks(a), [a[0]], CollapseBlanks(a[1..] + run + b),
            CollapseBlanks(a[1..]), " ", CollapseBlanks(b));
  }

  /** A maximal run of spaces and tabs, whatever its length, becomes exactly
      one space, and the text on either side is collapsed on its own. */
  lemma {:induction false} CollapseBlanksRun(a: string, run: string, b: string)
    requires run != [] && AllIn(Blank, run)
    requires a == [] || !IsBlank(a[|a| - 1])
    requires b == [] || !IsBlank(b[0])
    ensures CollapseBlanks(a + run + b) == CollapseBlanks(a) + " " + CollapseBlanks(b)
    decreases |a|
  {
    if |a| == 0 {
      CollapseBlanksRunAlone(a, run, b);
    } else if IsBlank(a[0]) {
      var n := LeadingRunInside(Blank, a);
      CollapseBlanksRun(a[n..], run, b);
      CollapseBlanksRunAfterBlanks(a, run, b, n);
    } else {
      CollapseBlanksRun(a[1..], run, b);
      CollapseBlanksRunAfterKept(a, run, b);
    }
  }

  /** Three line feeds in a row somewhere in `s`. */
  predicate HasTripleNewline(s: string) {
    exists i :: 0 <= i < |s| - 2 && s[i] == '\n' && s[i + 1] == '\n' && s[i + 2] == '\n'
  }

  /** At most two line feeds in front of text that does not start with one
      make no triple line feed. */
  lemma ShortRunBeforeLine(run: string, rest: string)
    requires 0 < |run| <= 2 && AllIn(Newline, run)
    requires !HasTripleNewline(rest) && (|rest| > 0 ==> rest[0] != '\n')
    ensures !HasTripleNewline(run + rest)
    ensures (run + rest)[0] == '\n'
  {
    var r := run + rest;
    assert forall i :: |run| <= i < |r| ==> r[i] == rest[i - |run|];
    assert forall i :: 0 <= i < |run| ==> r[i] == run[i];
  }

  /** `re.sub(r'\n{3,}', '\n\n', s)`: every run of three or more line feeds
      becomes exactly two. */
  function CollapseNewlines(s: string): (r: string)
    ensures !HasTripleNewline(r)
    ensures |s| > 0 <==> |r| > 0
    ensures |s| > 0 ==> (r[0] == '\n' <==> s[0] == '\n')
    ensures forall c :: c in r ==> c in s
    ensures Without(Newline, r) == Without(Newline, s)
    decreases |s|
  {
    if |s| == 0 then []
    else if s[0] == '\n' then
      var n := Span(Newline, s, 0);
      assert s[..n] == s[0..n];
      var rest := CollapseNewlines(s[n..]);
      CollapseNewlinesRunStep(s, n, rest);
      RunOut(s[..n]) + rest
    else
      var rest := CollapseNewlines(s[1..]);
      CollapseNewlinesKeepStep(s, rest);
      [s[0]] + rest
  }

  /** What `\n{3,}` leaves of a line-feed run. */
  function RunOut(run: string): string {
    if |run| >= 3 then "\n\n" else run
  }

  /** The line-feed branch of `CollapseNewlines`: given what the recursive
      call promises about `rest`, putting what is left of the leading run in
      front of it keeps every promise for `s`. */
  lemma CollapseNewlinesRunStep(s: string, n: nat, rest: string)
    requires 0 < n <= |s| && AllIn(Newline, s[..n]) && (n == |s| || s[n] != '\n')
    requires !HasTripleNewline(rest)
    requires |s[n..]| > 0 <==> |rest| > 0
    requires |s[n..]| > 0 ==> (rest[0] == '\n' <==> s[n..][0] == '\n')
    requires forall c :: c in rest ==> c in s[n..]
    requires Without(Newline, rest) == Without(Newline, s[n..])
    ensures var r := RunOut(s[..n]) + rest;
      !HasTripleNewline(r) && |r| > 0 && r[0] == '\n' &&
      (forall c :: c in r ==> c in s) && Without(Newline, r) == Without(Newline, s)
  {
    var run := RunOut(s[..n]);
    assert s[..n][0] == s[0];
    assert AllIn(Newline, run);
    WithoutReplacesRun(Newline, s, n, run, rest);
    ShortRunBeforeLine(run, rest);
    forall c | c in run + rest ensures c in s {
      if c in run {
        assert c == '\n';
      } else {
        assert c in s[n..];
      }
    }
  }

  /** The other branch of `CollapseNewlines`: given what the recursive call
      promises about `rest`, keeping the first character in front of it keeps
      every promise for `s`. */
  lemma CollapseNewlinesKeepStep(s: string, rest: string)
    requires |s| > 0 && s[0] != '\n'
    requires !HasTripleNewline(rest)
    requires forall c :: c in rest ==> c in s[1..]
    requires Without(Newline, rest) == Without(Newline, s[1..])
    ensures var r := [s[0]] + rest;
      !HasTripleNewline(r) && r[0] == s[0] &&
      (forall c :: c in r ==> c in s) && Without(Newline, r) == Without(Newline, s)
  {
    var r := [s[0]] + rest;
    assert r[1..] == rest;
    assert forall i :: 1 <= i < |r| ==> r[i] == rest[i - 1];
  }

  /** Text with no three line feeds in a row is unchanged; in particular the
      step is idempotent. */
  lemma {:induction false} CollapseNewlinesFixed(s: string)
    requires !HasTripleNewline(s)
    ensures CollapseNewlines(s) == s
    decreases |s|
  {
    if |s| > 0 {
      var k := if s[0] != '\n' || |s| == 1 || s[1] != '\n' then 1 else 2;
      if s[0] == '\n' {
        assert |s| >= 3 && k == 2 ==> s[2] != '\n';
        assert AllIn(Newline, s[0..k]);
        SpanUpTo(Newline, s, 0, k);
      }
      forall i | 0 <= i < |s[k..]| - 2 ensures !(s[k..][i] == '\n' && s[k..][i + 1] == '\n' && s[k..][i + 2] == '\n') {
        assert s[k..][i] == s[k + i] && s[k..][i + 1] == s[k + i + 1] && s[k..][i + 2] == s[k + i + 2];
      }
      CollapseNewlinesFixed(s[k..]);
      assert s == s[..k] + s[k..];
    }
  }

  /** A leading line-feed run of length `n` is kept when shorter than three
      and becomes two line feeds otherwise. */
  lemma CollapseNewlinesLead(s: string, n: nat)
    requires 0 < n <= |s| && AllIn(Newline, s[..n]) && (n == |s| || s[n] != '\n')
    ensures CollapseNewlines(s) == RunOut(s[..n]) + CollapseNewlines(s[n..])
  {
    assert s[..n][0] == s[0];
    assert s[0..n] == s[..n];
    SpanUpTo(Newline, s, 0, n);
  }

  /** A leading character other than a line feed is kept. */
  lemma CollapseNewlinesKeep(s: string)
    requires |s| > 0 && s[0] != '\n'
    ensures CollapseNewlines(s) == [s[0]] + CollapseNewlines(s[1..])
  {
  }

  /** `CollapseNewlinesRun` when `a` is empty. */
  lemma CollapseNewlinesRunAlone(a: string, run: string, b: string)
    requires a == [] && run != [] && AllIn(Newline, run)
    requires b == [] || b[0] != '\n'
    ensures CollapseNewlines(a + run + b) == CollapseNewlines(a) + RunOut(run) + CollapseNewlines(b)
  {
    SplitAfterFirst(run, b);
    assert a + run + b == run + b;
    CollapseNewlinesLead(run + b, |run|);
    assert CollapseNewlines(a) == [];
  }

  /** `CollapseNewlinesRun` when `a` opens with a line-feed run of length
      `n`, given the result for the rest of `a`. */
  lemma CollapseNewlinesRunAfterRun(a: string, run: string, b: string, n: nat)
    requires 0 < n < |a| && AllIn(Newline, a[..n]) && a[n] != '\n'
    requires CollapseNewlines(a[n..] + run + b) == CollapseNewlines(a[n..]) + RunOut(run) + CollapseNewlines(b)
    ensures CollapseNewlines(a + run + b) == CollapseNewlines(a) + RunOut(run) + CollapseNewlines(b)
  {
    SplitInsideFirst(a, run, b, n);
    CollapseNewlinesLead(a, n);
    CollapseNewlinesLead(a + run + b, n);
    Regroup(CollapseNewlines(a + run + b), CollapseNewlines(a), RunOut(a[..n]), CollapseNewlines(a[n..] + run + b),
            CollapseNewlines(a[n..]), RunOut(run), CollapseNewlines(b));
  }

  /** `CollapseNewlinesRun` when `a` opens with a kept character, given the
      result for the rest of `a`. */
  lemma CollapseNewlinesRunAfterKept(a: string, run: string, b: string)
    requires |a| > 0 && a[0] != '\n'
    requires CollapseNewlines(a[1..] + run + b) == CollapseNewlines(a[1..]) + RunOut(run) + CollapseNewlines(b)
    ensures CollapseNewlines(a + run + b) == CollapseNewlines(a) + RunOut(run) + CollapseNewlines(b)
  {
    SplitInsideFirst(a, run, b, 1);
    CollapseNewlinesKeep(a + run + b);
    CollapseNewlinesKeep(a);
    Regroup(CollapseNewlines(a + run + b), CollapseNewlines(a), [a[0]], CollapseNewlines(a[1..] + run + b),
            CollapseNewlines(a[1..]), RunOut(run), CollapseNewlines(b));
  }

  /** A maximal line-feed run of three or more becomes exactly two line feeds,
      a shorter one is kept, and the text on either side is collapsed on its own. */
  lemma {:induction false} CollapseNewlinesRun(a: string, run: string, b: string)
    requires run != [] && AllIn(Newline, run)
    requires a == [] || a[|a| - 1] != '\n'
    requires b == [] || b[0] != '\n'
    ensures CollapseNewlines(a + run + b) == CollapseNewlines(a) + (if |run| >= 3 then "\n\n" else run) + CollapseNewlines(b)
    decreases |a|
  {
    assert RunOut(run) == (if |run| >= 3 then "\n\n" else run);
    if |a| == 0 {
      CollapseNewlinesRunAlone(a, run, b);
    } else if a[0] == '\n' {
      var n := LeadingRunInside(Newline, a);
      CollapseNewlinesRun(a[n..], run, b);
      CollapseNewlinesRunAfterRun(a, run, b, n);
    } else {
      CollapseNewlinesRun(a[1..], run, b);
      CollapseNewlinesRunAfterKept(a, run, b);
    }
  }

  /** The word `ular` standing alone at `i`: whitespace right before it, and
      whitespace or the end of the text right after it. */
  predicate UlarAt(s: string, i: nat) {
    && 1 <= i && i + 4 <= |s|
    && IsSpace(s[i - 1])
    && s[i..i + 4] == "ular"
    && (i + 4 == |s| || IsSpace(s[i + 4]))
  }

  /** The scan of `re.sub(r'(?<=\s)ular(?=\s|\n|$)', '', s)` from position `i`;
      both look-arounds read the text as it was before any removal. */
  function DropUlarFrom(s: string, i: nat): (r: string)
    requires i <= |s|
    ensures |r| <= |s| - i
    ensures forall c :: c in r ==> c in s
    decreases |s| - i
  {
    if i == |s| then []
    else if UlarAt(s, i) then DropUlarFrom(s, i + 4)
    else [s[i]] + DropUlarFrom(s, i + 1)
  }

  /** Every standalone `ular` is removed, nothing else. */
  function DropUlar(s: string): (r: string)
    ensures |r| <= |s|
    ensures forall c :: c in r ==> c in s
  {
    DropUlarFrom(s, 0)
  }

  /** Text with no standalone `ular` is unchanged. */
  lemma NoUlarFixed(s: string)
    requires forall i :: 0 <= i < |s| ==> !UlarAt(s, i)
    ensures DropUlar(s) == s
  {
    NoUlarFixedFrom(s, 0);
  }

  lemma {:induction false} NoUlarFixedFrom(s: string, i: nat)
    requires i <= |s|
    requires forall j :: 0 <= j < |s| ==> !UlarAt(s, j)
    ensures DropUlarFrom(s, i) == s[i..]
    decreases |s| - i
  {
    if i < |s| {
      NoUlarFixedFrom(s, i + 1);
      assert s[i..] == [s[i]] + s[i + 1..];
    }
  }

  /** `normalize_keep_lines`: the rewrites in order, then `str.strip()`. The
      result has no carriage return, no tab, and no whitespace at either end. */
  function NormalizeKeepLines(s: string): (r: string)
    ensures '\r' !in r && '\t' !in r
    ensures IsTrimmed(r)
    ensures forall c :: c in r ==> c in s || c == '\n' || c == ' '
  {
    var a := LineEnds(s);
    var b := RemoveHyphenBreaks(a);
    var c := CollapseBlanks(b);
    var d := CollapseNewlines(c);
    var e := DropUlar(d);
    TrimChars(e);
    Trim(e)
  }

  /** Already normal text: what the pipeline leaves as it is. */
  predicate IsNormal(s: string) {
    && '\r' !in s && '\t' !in s
    && !HasPair(s, '-', '\n') && !HasPair(s, ' ', ' ')
    && !HasTripleNewline(s)
    && (forall i :: 0 <= i < |s| ==> !UlarAt(s, i))
    && IsTrimmed(s)
  }

  /** The pipeline changes no text that is already normal. */
  lemma NormalIsFixed(s: string)
    requires IsNormal(s)
    ensures NormalizeKeepLines(s) == s
  {
    LineEndsFixed(s);
    NoHyphenBreakFixed(s);
    CollapseBlanksFixed(s);
    CollapseNewlinesFixed(s);
    NoUlarFixed(s);
    TrimmedIsFixed(s);
  }

  /** The text of the example below passes the first four rewrites unchanged. */
  lemma UlarExampleEarlyStages(s: string)
    requires s == "a\n\nular\n\nb"
    ensures CollapseNewlines(CollapseBlanks(RemoveHyphenBreaks(LineEnds(s)))) == s
  {
    assert !HasPair(s, '-', '\n');
    assert !HasPair(s, ' ', ' ');
    assert '\r' !in s && '\t' !in s;
    assert !HasTripleNewline(s);
    LineEndsFixed(s);
    NoHyphenBreakFixed(s);
    CollapseBlanksFixed(s);
    CollapseNewlinesFixed(s);
  }

  /** The `ular` between the two blank lines of the example is removed. */
  lemma UlarExampleDrop(s: string)
    requires s == "a\n\nular\n\nb"
    ensures DropUlar(s) == "a\n\n\n\nb"
  {
    assert UlarAt(s, 3) by {
      assert s[3..7] == "ular";
    }
    assert DropUlarFrom(s, 10) == [];
    assert !UlarAt(s, 9) && !UlarAt(s, 8) && !UlarAt(s, 7);
    assert DropUlarFrom(s, 9) == "b";
    assert DropUlarFrom(s, 8) == "\nb";
    assert DropUlarFrom(s, 7) == "\n\nb";
    assert DropUlarFrom(s, 3) == "\n\nb";
    assert !UlarAt(s, 2) && !UlarAt(s, 1) && !UlarAt(s, 0);
    assert DropUlarFrom(s, 2) == "\n\n\nb";
    assert DropUlarFrom(s, 1) == "\n\n\n\nb";
    assert DropUlarFrom(s, 0) == "a\n\n\n\nb";
  }

  /** Text that the first four steps leave as it is normalises to its
      `ular`-free form when that form is already stripped. */
  lemma NormalizeViaDrop(s: string, t: string)
    requires CollapseNewlines(CollapseBlanks(RemoveHyphenBreaks(LineEnds(s)))) == s
    requires DropUlar(s) == t && IsTrimmed(t)
    ensures NormalizeKeepLines(s) == t
  {
    TrimmedIsFixed(t);
  }

  /** The example's output is stripped and holds three line feeds in a row. */
  lemma UlarExampleOutput(t: string)
    requires t == "a\n\n\n\nb"
    ensures IsTrimmed(t) && HasTripleNewline(t)
  {
    assert t[1] == '\n' && t[2] == '\n' && t[3] == '\n';
  }

  /** Removing `ular` runs after the line-feed step, so it can bring blank lines
      together again: the pipeline's output may hold three line feeds in a row,
      and normalising that output once more changes it. */
  lemma UlarJoinsBlankLines(s: string)
    requires s == "a\n\nular\n\nb"
    ensures NormalizeKeepLines(s) == "a\n\n\n\nb"
    ensures HasTripleNewline(NormalizeKeepLines(s))
  {
    var t := "a\n\n\n\nb";
    UlarExampleEarlyStages(s);
    UlarExampleDrop(s);
    UlarExampleOutput(t);
    NormalizeViaDrop(s, t);
  }
}
