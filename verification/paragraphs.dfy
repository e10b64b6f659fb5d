/** Wrapping blank-line separated blocks in `<p>` tags (`wrap_html_paragraphs`). */
module Paragraphs {
  import opened Wrappers
  import opened Text

  const Separator: string := "\n\n"

  /** `s` contains no `"\n\n"`. */
  predicate NoBreak(s: string) {
    forall j :: 0 <= j < |s| - 1 ==> !(s[j] == '\n' && s[j + 1] == '\n')
  }

  /** The leftmost `"\n\n"` at or after `from`. */
  function FirstBreak(s: string, from: nat): (r: Option<nat>)
    requires from <= |s|
    ensures r.Some? ==> from <= r.value && r.value + 2 <= |s| && s[r.value] == '\n' && s[r.value + 1] == '\n'
    ensures r.Some? ==> NoBreak(s[from..r.value + 1])
    ensures r.None? ==> NoBreak(s[from..])
    decreases |s| - from
  {
    if from + 2 > |s| then None
    else if s[from] == '\n' && s[from + 1] == '\n' then Some(from)
    else
      var r := FirstBreak(s, from + 1);
      assert r.Some? ==> s[from..r.value + 1] == [s[from]] + s[from + 1..r.value + 1];
      assert r.None? ==> s[from..] == [s[from]] + s[from + 1..];
      r
  }

  /** `"\n\n".join(parts)`. */
  function Join(parts: seq<string>): string {
    if |parts| == 0 then ""
    else if |parts| == 1 then parts[0]
    else parts[0] + Separator + Join(parts[1..])
  }

  /** `s.split("\n\n")`: the pieces joined back give `s`, no piece contains the
      separator, and every piece but the last is cut at the leftmost separator
      (so it cannot end with `\n`). */
  function SplitBlocks(s: string): (parts: seq<string>)
    ensures |parts| >= 1
    ensures Join(parts) == s
    ensures forall i :: 0 <= i < |parts| ==> NoBreak(parts[i])
    ensures forall i :: 0 <= i < |parts| - 1 ==> NoBreak(parts[i] + "\n")
    decreases |s|
  {
    match FirstBreak(s, 0)
    case None =>
      assert s[0..] == s;
      [s]
    case Some(j) =>
      var head := s[..j];
      var rest := SplitBlocks(s[j + 2..]);
      var parts := [head] + rest;
      assert parts[1..] == rest;
      assert s == head + Separator + s[j + 2..] by {
        assert s[j..j + 2] == Separator;
        assert s == s[..j] + s[j..j + 2] + s[j + 2..];
      }
      assert head + "\n" == s[0..j + 1];
      assert forall i :: 1 <= i < |parts| ==> parts[i] == rest[i - 1];
      assert NoBreak(head) by {
        assert head == s[0..j + 1][..j];
      }
      parts
  }

  /** The stripped, non-blank blocks, in order. */
  function Blocks(parts: seq<string>): (ps: seq<string>)
    ensures forall i :: 0 <= i < |ps| ==> ps[i] != [] && IsTrimmed(ps[i])
  {
    if |parts| == 0 then []
    else
      var p := Trim(parts[0]);
      var rest := Blocks(parts[1..]);
      if p == [] then rest else [p] + rest
  }

  /** Every piece is whitespace. */
  predicate AllBlank(parts: seq<string>) {
    forall i :: 0 <= i < |parts| ==> AllSpace(parts[i])
  }

  lemma AllBlankCons(parts: seq<string>)
    requires |parts| > 0
    ensures AllBlank(parts) <==> AllSpace(parts[0]) && AllBlank(parts[1..])
  {
    assert forall i :: 1 <= i < |parts| ==> parts[i] == parts[1..][i - 1];
  }

  /** No block survives exactly when every piece is whitespace. */
  lemma {:induction false} BlocksEmpty(parts: seq<string>)
    ensures Blocks(parts) == [] <==> AllBlank(parts)
  {
    if |parts| > 0 {
      BlocksEmpty(parts[1..]);
      AllBlankCons(parts);
    }
  }

  /** `"".join(f"<p>{p}</p>" for p in ps)`. */
  function Tags(ps: seq<string>): (html: string)
    ensures html == [] <==> ps == []
  {
    if |ps| == 0 then "" else "<p>" + ps[0] + "</p>" + Tags(ps[1..])
  }

  /** The paragraphs `wrap_html_paragraphs` wraps: the stripped, non-blank
      `"\n\n"`-separated blocks of `s`, in order. */
  function Paragraphs(s: string): (ps: seq<string>)
    ensures forall i :: 0 <= i < |ps| ==> ps[i] != [] && IsTrimmed(ps[i])
  {
    Blocks(SplitBlocks(s))
  }

  /** `wrap_html_paragraphs`. */
  function WrapHtmlParagraphs(s: string): (html: string)
    ensures html == [] <==> AllSpace(s)
  {
    var parts := SplitBlocks(s);
    JoinAllSpace(parts);
    BlocksEmpty(parts);
    Tags(Paragraphs(s))
  }

  lemma AllSpaceConcat(a: string, b: string)
    ensures AllSpace(a + b) <==> AllSpace(a) && AllSpace(b)
  {
    if AllSpace(a) && AllSpace(b) {
      forall i | 0 <= i < |a + b| ensures IsSpace((a + b)[i]) {
        if i >= |a| { assert (a + b)[i] == b[i - |a|]; }
      }
    }
    if AllSpace(a + b) {
      forall i | 0 <= i < |b| ensures IsSpace(b[i]) {
        assert (a + b)[|a| + i] == b[i];
      }
      forall i | 0 <= i < |a| ensures IsSpace(a[i]) {
        assert (a + b)[i] == a[i];
      }
    }
  }

  /** Joined blocks are all whitespace exactly when every block is. */
  lemma {:induction false} JoinAllSpace(parts: seq<string>)
    requires |parts| >= 1
    ensures AllSpace(Join(parts)) <==> forall i :: 0 <= i < |parts| ==> AllSpace(parts[i])
  {
    if |parts| > 1 {
      JoinAllSpace(parts[1..]);
      assert forall i :: 1 <= i < |parts| ==> parts[i] == parts[1..][i - 1];
      AllSpaceConcat(parts[0] + Separator, Join(parts[1..]));
      AllSpaceConcat(parts[0], Separator);
      assert AllSpace(Separator);
    }
  }

  /** Text without a blank line splits into itself alone. */
  lemma OnePiece(s: string)
    requires NoBreak(s)
    ensures SplitBlocks(s) == [s]
  {
    assert FirstBreak(s, 0).None?;
  }

  /** A single stripped block with no blank line inside becomes exactly one paragraph. */
  lemma SingleParagraph(s: string)
    requires s != [] && IsTrimmed(s) && NoBreak(s)
    ensures WrapHtmlParagraphs(s) == "<p>" + s + "</p>"
  {
    OnePiece(s);
    TrimmedIsFixed(s);
    assert [s][1..] == [];
    assert Blocks([s]) == [s];
  }

  /** The separator after a block that has no blank line and does not end in
      `\n` is the leftmost one. */
  lemma FirstBreakAfter(a: string, b: string)
    requires NoBreak(a + "\n")
    ensures FirstBreak(a + Separator + b, 0) == Some(|a|)
  {
    var s := a + Separator + b;
    assert s[|a|] == '\n' && s[|a| + 1] == '\n';
    assert !NoBreak(s[0..]) by {
      assert s[0..][|a|] == '\n' && s[0..][|a| + 1] == '\n';
    }
    forall k | 0 <= k < |a| ensures !(s[k] == '\n' && s[k + 1] == '\n') {
      assert (a + "\n")[k] == s[k] && (a + "\n")[k + 1] == s[k + 1];
    }
    forall e | |a| + 2 <= e <= |s| ensures !NoBreak(s[0..e]) {
      assert s[0..e][|a|] == '\n' && s[0..e][|a| + 1] == '\n';
    }
  }

  lemma {:induction false} BlocksConcat(xs: seq<string>, ys: seq<string>)
    ensures Blocks(xs + ys) == Blocks(xs) + Blocks(ys)
  {
    if |xs| > 0 {
      assert (xs + ys)[1..] == xs[1..] + ys;
      BlocksConcat(xs[1..], ys);
    } else {
      assert xs + ys == ys;
    }
  }

  /** A block with no blank line inside and not ending in `\n`, followed by the
      separator, contributes its own paragraphs and then those of the rest. */
  lemma WrapConcat(a: string, b: string)
    requires NoBreak(a + "\n")
    ensures WrapHtmlParagraphs(a + Separator + b) == WrapHtmlParagraphs(a) + WrapHtmlParagraphs(b)
  {
    var s := a + Separator + b;
    FirstBreakAfter(a, b);
    assert s[..|a|] == a;
    assert s[|a| + 2..] == b;
    assert SplitBlocks(s) == [a] + SplitBlocks(b);
    assert NoBreak(a) by {
      forall j | 0 <= j < |a| - 1 ensures !(a[j] == '\n' && a[j + 1] == '\n') {
        assert (a + "\n")[j] == a[j] && (a + "\n")[j + 1] == a[j + 1];
      }
    }
    OnePiece(a);
    BlocksConcat([a], SplitBlocks(b));
    TagsConcat(Blocks([a]), Blocks(SplitBlocks(b)));
  }

  lemma {:induction false} TagsConcat(xs: seq<string>, ys: seq<string>)
    ensures Tags(xs + ys) == Tags(xs) + Tags(ys)
  {
    if |xs| > 0 {
      assert (xs + ys)[1..] == xs[1..] + ys;
      TagsConcat(xs[1..], ys);
    } else {
      assert xs + ys == ys;
    }
  }
}
