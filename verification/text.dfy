/** Character classes, maximal runs and Python's `str.strip()` over `seq<char>`. */
module Text {

  /** Python's `str.isspace`: the set `\s` matches in a `str` pattern and the set
      `str.strip()` removes. */
  predicate IsSpace(c: char) {
    var n := c as int;
    || 0x09 <= n <= 0x0D
    || 0x1C <= n <= 0x20
    || n == 0x85 || n == 0xA0 || n == 0x1680
    || 0x2000 <= n <= 0x200A
    || n == 0x2028 || n == 0x2029 || n == 0x202F || n == 0x205F || n == 0x3000
  }

  /** An ASCII decimal digit (`\d` restricted to ASCII). */
  predicate IsDigit(c: char) {
    '0' <= c <= '9'
  }

  /** The character classes whose maximal runs the scanners consume. */
  datatype CharClass =
    | Space    // `\s`
    | Digit    // `\d`
    | Blank    // `[ \t]`
    | Newline  // `\n`

  predicate InClass(cls: CharClass, c: char) {
    match cls
    case Space => IsSpace(c)
    case Digit => IsDigit(c)
    case Blank => c == ' ' || c == '\t'
    case Newline => c == '\n'
  }

  predicate AllIn(cls: CharClass, s: seq<char>) {
    forall i :: 0 <= i < |s| ==> InClass(cls, s[i])
  }

  predicate AllSpace(s: seq<char>) {
    AllIn(Space, s)
  }

  /** The length of the greedy run `cls*` starting at `from`. */
  function Span(cls: CharClass, s: seq<char>, from: nat): (n: nat)
    requires from <= |s|
    ensures from + n <= |s|
    ensures AllIn(cls, s[from..from + n])
    ensures from + n == |s| || !InClass(cls, s[from + n])
    decreases |s| - from
  {
    if from == |s| || !InClass(cls, s[from]) then 0
    else 1 + Span(cls, s, from + 1)
  }

  /** The greedy run from `from` ends wherever the class first stops. */
  lemma {:induction false} SpanUpTo(cls: CharClass, s: seq<char>, from: nat, e: nat)
    requires from <= e <= |s|
    requires AllIn(cls, s[from..e])
    requires e == |s| || !InClass(cls, s[e])
    ensures Span(cls, s, from) == e - from
    decreases e - from
  {
    if from < e {
      assert s[from..e][0] == s[from];
      assert s[from + 1..e] == s[from..e][1..];
      SpanUpTo(cls, s, from + 1, e);
    }
  }

  /** The length of the whitespace run that ends `s`. */
  function TrailingSpaces(s: seq<char>): (n: nat)
    ensures n <= |s|
    ensures AllSpace(s[|s| - n..])
    ensures n == |s| || !IsSpace(s[|s| - n - 1])
  {
    if |s| == 0 || !IsSpace(s[|s| - 1]) then 0
    else
      var n := TrailingSpaces(s[..|s| - 1]);
      assert s[..|s| - 1][|s| - 1 - n..] + [s[|s| - 1]] == s[|s| - n - 1..];
      1 + n
  }

  /** Neither end is whitespace: what `str.strip()` returns. */
  predicate IsTrimmed(s: seq<char>) {
    |s| == 0 || (!IsSpace(s[0]) && !IsSpace(s[|s| - 1]))
  }

  /** `r` is `s` with whitespace removed from both ends only. */
  ghost predicate StripOf(s: seq<char>, r: seq<char>) {
    exists a, b :: 0 <= a <= b <= |s| && r == s[a..b] && AllSpace(s[..a]) && AllSpace(s[b..])
  }

  /** Python's `str.strip()`. */
  function Trim(s: seq<char>): (r: seq<char>)
    ensures IsTrimmed(r)
    ensures StripOf(s, r)
    ensures r == [] <==> AllSpace(s)
  {
    var a := Span(Space, s, 0);
    var t := TrailingSpaces(s[a..]);
    var r := s[a..|s| - t];
    assert s[a..][|s[a..]| - t..] == s[|s| - t..];
    assert r == s[a..][..|s[a..]| - t];
    assert AllSpace(s) ==> a == |s|;
    assert a == |s| ==> s[..a] == s;
    r
  }

  lemma TrimmedIsFixed(s: seq<char>)
    requires IsTrimmed(s)
    ensures Trim(s) == s
  {
    var a := Span(Space, s, 0);
    assert a == 0;
  }

  /** Every character of the stripped text occurs in the text. */
  lemma TrimChars(s: seq<char>)
    ensures forall c :: c in Trim(s) ==> c in s
  {
    var r := Trim(s);
    var a, b :| 0 <= a <= b <= |s| && r == s[a..b] && AllSpace(s[..a]) && AllSpace(s[b..]);
    forall c | c in r ensures c in s {
      var k :| 0 <= k < |r| && r[k] == c;
      assert s[a + k] == c;
    }
  }

  /** `int(ds)` for a string of decimal digits. */
  function DigitsValue(ds: seq<char>): nat
    requires AllIn(Digit, ds)
  {
    if |ds| == 0 then 0
    else 10 * DigitsValue(ds[..|ds| - 1]) + (ds[|ds| - 1] as int - '0' as int)
  }
}
