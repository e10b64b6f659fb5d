/** Splitting a question body into its stem and lettered options (`parse_question_block`). */
module Alternatives {
  import opened Wrappers
  import opened Text
  import opened Patterns

  /** `(enunciado, alternatives)`: the stem and the map from
      `alternativa_<letter>` to the option's text. */
  datatype Block = Block(stem: string, alternatives: map<string, string>)

  const KeyPrefix: string := "alternativa_"

  /** `letter.lower()` on an option letter. */
  function Lower(c: char): (r: char)
    requires IsOptionLetter(c)
    ensures 'a' <= r <= 'f'
    ensures r == c || r as int == c as int + 32
  {
    if 'A' <= c <= 'F' then (c as int + 32) as char else c
  }

  /** `alternativa_` followed by one lower-case letter from `a` to `f`. */
  predicate IsAlternativeKey(k: string) {
    |k| == |KeyPrefix| + 1 && k[..|KeyPrefix|] == KeyPrefix && 'a' <= k[|KeyPrefix|] <= 'f'
  }

  /** The map key an option marker writes. */
  function KeyOf(s: string, h: Hit): (k: string)
    requires WellFormed(OptionMarker, s, h)
    ensures IsAlternativeKey(k)
  {
    var k := KeyPrefix + [Lower(s[h.groupStart])];
    assert k[..|KeyPrefix|] == KeyPrefix;
    k
  }

  /** The stripped value captured by an option marker. */
  function ValueOf(s: string, h: Hit): (v: string)
    requires WellFormed(OptionMarker, s, h)
    ensures IsTrimmed(v)
  {
    Trim(s[h.valueStart..h.end])
  }

  predicate AllOptions(s: string, hits: seq<Hit>) {
    forall i :: 0 <= i < |hits| ==> WellFormed(OptionMarker, s, hits[i])
  }

  /** The loop `alternatives[key] = val.strip()` over the matches in order. */
  function AltMap(s: string, hits: seq<Hit>): (m: map<string, string>)
    requires AllOptions(s, hits)
    ensures forall k :: k in m ==> IsAlternativeKey(k) && IsTrimmed(m[k])
  {
    if |hits| == 0 then map[]
    else
      var init := hits[..|hits| - 1];
      var last := hits[|hits| - 1];
      var m0 := AltMap(s, init);
      var k := KeyOf(s, last);
      var v := ValueOf(s, last);
      assert IsAlternativeKey(k) && IsTrimmed(v);
      m0[k := v]
  }

  /** Every marker's key is in the map. */
  lemma {:induction false} AltMapHasKeys(s: string, hits: seq<Hit>)
    requires AllOptions(s, hits)
    ensures forall i :: 0 <= i < |hits| ==> KeyOf(s, hits[i]) in AltMap(s, hits)
  {
    if |hits| > 0 {
      var init := hits[..|hits| - 1];
      AltMapHasKeys(s, init);
      forall i | 0 <= i < |hits| - 1 ensures KeyOf(s, hits[i]) in AltMap(s, hits) {
        assert init[i] == hits[i];
      }
    }
  }

  /** No marker, no key. */
  lemma AltMapKeyNonEmpty(s: string, hits: seq<Hit>, k: string)
    requires AllOptions(s, hits)
    requires k in AltMap(s, hits)
    ensures |hits| > 0
  {
  }

  /** A marker that wrote a given key of the map. */
  lemma {:induction false} KeyWitness(s: string, hits: seq<Hit>, k: string) returns (i: nat)
    requires AllOptions(s, hits)
    requires k in AltMap(s, hits)
    ensures i < |hits| && KeyOf(s, hits[i]) == k
  {
    AltMapKeyNonEmpty(s, hits, k);
    var last := |hits| - 1;
    if k == KeyOf(s, hits[last]) {
      i := last;
    } else {
      AltMapKeepsOthers(s, hits, k);
      var init := hits[..last];
      var j := KeyWitness(s, init, k);
      assert init[j] == hits[j];
      i := j;
    }
  }

  /** Every key of the map is some marker's key. */
  lemma AltMapOnlyKeys(s: string, hits: seq<Hit>)
    requires AllOptions(s, hits)
    ensures forall k :: k in AltMap(s, hits) ==> exists i :: 0 <= i < |hits| && KeyOf(s, hits[i]) == k
  {
    forall k | k in AltMap(s, hits) ensures exists i :: 0 <= i < |hits| && KeyOf(s, hits[i]) == k {
      var i := KeyWitness(s, hits, k);
    }
  }

  lemma AllOptionsPrefix(s: string, hits: seq<Hit>)
    requires AllOptions(s, hits) && |hits| > 0
    ensures AllOptions(s, hits[..|hits| - 1])
  {
    var init := hits[..|hits| - 1];
    forall j | 0 <= j < |init| ensures WellFormed(OptionMarker, s, init[j]) {
      assert init[j] == hits[j];
    }
  }

  /** The last marker leaves every other key's entry as the earlier markers wrote it. */
  lemma AltMapKeepsOthers(s: string, hits: seq<Hit>, k: string)
    requires AllOptions(s, hits) && |hits| > 0
    requires k != KeyOf(s, hits[|hits| - 1])
    ensures AllOptions(s, hits[..|hits| - 1])
    ensures k in AltMap(s, hits) <==> k in AltMap(s, hits[..|hits| - 1])
    ensures k in AltMap(s, hits) ==> AltMap(s, hits)[k] == AltMap(s, hits[..|hits| - 1])[k]
  {
    AllOptionsPrefix(s, hits);
  }

  /** A letter that does not occur again keeps the value of this occurrence:
      the last occurrence of a repeated letter wins. */
  lemma {:induction false} LastOccurrenceWins(s: string, hits: seq<Hit>, i: nat)
    requires AllOptions(s, hits)
    requires i < |hits|
    requires forall j :: i < j < |hits| ==> KeyOf(s, hits[j]) != KeyOf(s, hits[i])
    ensures KeyOf(s, hits[i]) in AltMap(s, hits)
    ensures AltMap(s, hits)[KeyOf(s, hits[i])] == ValueOf(s, hits[i])
  {
    if i < |hits| - 1 {
      var init := hits[..|hits| - 1];
      AllOptionsPrefix(s, hits);
      assert init[i] == hits[i];
      forall j | i < j < |init| ensures KeyOf(s, init[j]) != KeyOf(s, init[i]) {
        assert init[j] == hits[j];
      }
      LastOccurrenceWins(s, init, i);
      AltMapKeepsOthers(s, hits, KeyOf(s, hits[i]));
    }
  }

  /** `parse_question_block`: the stem is the stripped text before the first
      option marker (all of it when there is none); the alternatives come from
      every marker. */
  function ParseQuestionBlock(s: string): (b: Block)
    ensures IsTrimmed(b.stem)
    ensures forall k :: k in b.alternatives ==> IsAlternativeKey(k) && IsTrimmed(b.alternatives[k])
  {
    var hits := FindAll(OptionMarker, s);
    var stem := if |hits| == 0 then Trim(s) else Trim(s[..hits[0].start]);
    Block(stem, AltMap(s, hits))
  }

  /** For any sequence of option markers meeting the declarative description of
      `finditer`: the stem is the stripped text before the first of them (the
      whole text stripped when there are none), the keys are exactly the
      markers' lower-cased letters, and each key holds the stripped value of
      its letter's last occurrence. */
  lemma BlockFromMarkers(s: string, hits: seq<Hit>)
    requires IsFindAll(Matcher(OptionMarker, s), |s|, 0, hits)
    ensures AllOptions(s, hits)
    ensures |hits| == 0 ==> ParseQuestionBlock(s).stem == Trim(s) && ParseQuestionBlock(s).alternatives == map[]
    ensures |hits| > 0 ==> hits[0].start <= |s| && ParseQuestionBlock(s).stem == Trim(s[..hits[0].start])
    ensures forall i :: 0 <= i < |hits| ==> KeyOf(s, hits[i]) in ParseQuestionBlock(s).alternatives
    ensures forall k :: k in ParseQuestionBlock(s).alternatives ==> exists i :: 0 <= i < |hits| && KeyOf(s, hits[i]) == k
    ensures forall i :: 0 <= i < |hits| && (forall j :: i < j < |hits| ==> KeyOf(s, hits[j]) != KeyOf(s, hits[i])) ==>
      ParseQuestionBlock(s).alternatives[KeyOf(s, hits[i])] == ValueOf(s, hits[i])
  {
    FindAllUnique(OptionMarker, s, hits);
    AltMapHasKeys(s, hits);
    AltMapOnlyKeys(s, hits);
    forall i | 0 <= i < |hits| && (forall j :: i < j < |hits| ==> KeyOf(s, hits[j]) != KeyOf(s, hits[i]))
      ensures ParseQuestionBlock(s).alternatives[KeyOf(s, hits[i])] == ValueOf(s, hits[i])
    {
      LastOccurrenceWins(s, hits, i);
    }
  }

  /** A body has no alternatives exactly when no position starts an option
      marker, and then its stem is the whole body stripped. */
  lemma NoMarkerNoAlternatives(s: string)
    ensures ParseQuestionBlock(s).alternatives == map[] <==> forall p :: 0 <= p <= |s| ==> OptionAt(s, p).None?
    ensures ParseQuestionBlock(s).alternatives == map[] ==> ParseQuestionBlock(s).stem == Trim(s)
  {
    var hits := FindAll(OptionMarker, s);
    if |hits| > 0 {
      assert Matcher(OptionMarker, s)(hits[0].start) == Some(hits[0]);
      AltMapHasKeys(s, hits);
      assert KeyOf(s, hits[0]) in ParseQuestionBlock(s).alternatives;
    } else {
      assert NoMatchIn(Matcher(OptionMarker, s), |s|, 0, |s| + 1);
      forall p | 0 <= p <= |s| ensures OptionAt(s, p).None? {
        assert Matcher(OptionMarker, s)(p).None?;
      }
    }
  }

  /** The single option marker of `"a) b) x"`: the greedy `\s*` after `a)` eats
      the space the next marker's lookbehind needed, so the lazy value runs to
      the end. */
  lemma EmptyOptionMarker(s: string)
    requires s == "a) b) x"
    ensures IsFindAll(Matcher(OptionMarker, s), |s|, 0, [Hit(0, 0, 1, 3, 7)])
  {
    assert AllIn(Space, s[2..3]);
    SpanUpTo(Space, s, 2, 3);
    assert !OptionFollows(s, 3) && !OptionFollows(s, 4) && !OptionFollows(s, 5) && !OptionFollows(s, 6);
    assert LazyEnd(s, 6) == 7;
    assert LazyEnd(s, 3) == 7;
    assert OptionAt(s, 0) == Some(Hit(0, 0, 1, 3, 7));
    assert Matcher(OptionMarker, s)(7).None?;
  }

  /** The alternatives the marker of `"a) b) x"` writes. */
  lemma EmptyOptionValue(s: string, h: Hit)
    requires s == "a) b) x" && h == Hit(0, 0, 1, 3, 7)
    ensures WellFormed(OptionMarker, s, h)
    ensures AltMap(s, [h]) == map["alternativa_a" := "b) x"]
  {
    assert [h][..0] == [];
    assert KeyOf(s, h) == "alternativa_a";
    assert s[3..7] == "b) x";
    TrimmedIsFixed("b) x");
  }

  /** An empty option swallows the one after it: `"a) b) x"` has an empty stem
      and the single alternative `a` with value `"b) x"`. */
  lemma EmptyOptionSwallowsNext(s: string)
    requires s == "a) b) x"
    ensures ParseQuestionBlock(s) == Block("", map["alternativa_a" := "b) x"])
  {
    var h := Hit(0, 0, 1, 3, 7);
    EmptyOptionMarker(s);
    FindAllUnique(OptionMarker, s, [h]);
    EmptyOptionValue(s, h);
    assert s[..0] == [];
    TrimmedIsFixed([]);
  }

  /** An option whose value is one character, followed by the next marker or
      the end of the text. */
  lemma OneCharacterOption(s: string, p: nat)
    requires p + 4 <= |s|
    requires p == 0 || IsSpace(s[p - 1]) || s[p - 1] == '.'
    requires IsOptionLetter(s[p]) && s[p + 1] == ')' && IsSpace(s[p + 2])
    requires !IsSpace(s[p + 3]) && s[p + 3] != '.' && s[p + 3] != '\n'
    requires OptionFollows(s, p + 4)
    ensures OptionAt(s, p) == Some(Hit(p, p, p + 1, p + 3, p + 4))
  {
    assert AllIn(Space, s[p + 2..p + 3]);
    SpanUpTo(Space, s, p + 2, p + 3);
    assert !OptionFollows(s, p + 3);
  }

  /** No option marker starts inside the stem of the example below. */
  lemma ThreeOptionsStem(s: string)
    requires s == "What is 2+2? a) 3 b) 4 c) 5"
    ensures forall p :: 0 <= p < 13 ==> OptionAt(s, p).None?
  {
    forall p | 0 <= p < 13 ensures OptionAt(s, p).None? {
      assert s[p + 1] in s[1..14];
    }
  }

  /** Where the option attempts on the example below succeed. */
  lemma ThreeOptionAttempts(s: string)
    requires s == "What is 2+2? a) 3 b) 4 c) 5"
    ensures OptionAt(s, 13) == Some(Hit(13, 13, 14, 16, 17))
    ensures OptionAt(s, 18) == Some(Hit(18, 18, 19, 21, 22))
    ensures OptionAt(s, 23) == Some(Hit(23, 23, 24, 26, 27))
  {
    OneCharacterOption(s, 13);
    OneCharacterOption(s, 18);
    OneCharacterOption(s, 23);
  }

  /** The attempts just after each marker of the example fail. */
  lemma ThreeOptionMisses(s: string)
    requires s == "What is 2+2? a) 3 b) 4 c) 5"
    ensures OptionAt(s, 17).None? && OptionAt(s, 22).None? && OptionAt(s, 27).None?
  {
  }

  /** Three successful attempts separated by failed ones make up the whole scan. */
  lemma ThreeHitScan(at: nat -> Option<Hit>, ha: Hit, hb: Hit, hc: Hit)
    requires Advances(at, 27)
    requires ha == Hit(13, 13, 14, 16, 17) && hb == Hit(18, 18, 19, 21, 22) && hc == Hit(23, 23, 24, 26, 27)
    requires NoMatchIn(at, 27, 0, 13)
    requires at(13) == Some(ha) && at(18) == Some(hb) && at(23) == Some(hc)
    requires at(17).None? && at(22).None? && at(27).None?
    ensures IsFindAll(at, 27, 0, [ha, hb, hc])
  {
    assert IsFindAll(at, 27, 27, []);
    ScanCons(at, 27, 23, hc, []);
    ScanSkip(at, 27, 22, [hc]);
    ScanCons(at, 27, 18, hb, [hc]);
    ScanSkip(at, 27, 17, [hb, hc]);
    ScanCons(at, 27, 13, ha, [hb, hc]);
    assert [ha] + [hb, hc] == [ha, hb, hc];
    ScanGap(at, 27, 0, 13, [ha, hb, hc]);
  }

  /** The three option markers of a stem followed by three short options. */
  lemma ThreeOptionMarkers(s: string)
    requires s == "What is 2+2? a) 3 b) 4 c) 5"
    ensures IsFindAll(Matcher(OptionMarker, s), |s|, 0, [Hit(13, 13, 14, 16, 17), Hit(18, 18, 19, 21, 22), Hit(23, 23, 24, 26, 27)])
  {
    var at := Matcher(OptionMarker, s);
    MatcherAdvances(OptionMarker, s);
    ThreeOptionsStem(s);
    ThreeOptionAttempts(s);
    ThreeOptionMisses(s);
    assert NoMatchIn(at, 27, 0, 13);
    ThreeHitScan(at, Hit(13, 13, 14, 16, 17), Hit(18, 18, 19, 21, 22), Hit(23, 23, 24, 26, 27));
  }

  /** The entry a marker with a lower-case letter and an already stripped value writes. */
  lemma EntryOf(s: string, h: Hit, c: char, v: string)
    requires WellFormed(OptionMarker, s, h)
    requires s[h.groupStart] == c && 'a' <= c <= 'f'
    requires s[h.valueStart..h.end] == v && IsTrimmed(v)
    ensures KeyOf(s, h) == KeyPrefix + [c]
    ensures ValueOf(s, h) == v
  {
    TrimmedIsFixed(v);
  }

  /** The entries of the example's three markers, one lemma per marker. */
  lemma ThreeOptionEntryA(s: string)
    requires s == "What is 2+2? a) 3 b) 4 c) 5"
    ensures WellFormed(OptionMarker, s, Hit(13, 13, 14, 16, 17))
    ensures KeyOf(s, Hit(13, 13, 14, 16, 17)) == "alternativa_a" && ValueOf(s, Hit(13, 13, 14, 16, 17)) == "3"
  {
    assert s[16..17] == "3";
    EntryOf(s, Hit(13, 13, 14, 16, 17), 'a', "3");
    assert KeyPrefix + "a" == "alternativa_a";
  }

  lemma ThreeOptionEntryB(s: string)
    requires s == "What is 2+2? a) 3 b) 4 c) 5"
    ensures WellFormed(OptionMarker, s, Hit(18, 18, 19, 21, 22))
    ensures KeyOf(s, Hit(18, 18, 19, 21, 22)) == "alternativa_b" && ValueOf(s, Hit(18, 18, 19, 21, 22)) == "4"
  {
    assert s[21..22] == "4";
    EntryOf(s, Hit(18, 18, 19, 21, 22), 'b', "4");
    assert KeyPrefix + "b" == "alternativa_b";
  }

  lemma ThreeOptionEntryC(s: string)
    requires s == "What is 2+2? a) 3 b) 4 c) 5"
    ensures WellFormed(OptionMarker, s, Hit(23, 23, 24, 26, 27))
    ensures KeyOf(s, Hit(23, 23, 24, 26, 27)) == "alternativa_c" && ValueOf(s, Hit(23, 23, 24, 26, 27)) == "5"
  {
    assert s[26..27] == "5";
    EntryOf(s, Hit(23, 23, 24, 26, 27), 'c', "5");
    assert KeyPrefix + "c" == "alternativa_c";
  }

  /** The last marker writes its entry over what the earlier ones wrote. */
  lemma AltMapLast(s: string, hits: seq<Hit>)
    requires AllOptions(s, hits) && |hits| > 0
    ensures AllOptions(s, hits[..|hits| - 1])
    ensures AltMap(s, hits) == AltMap(s, hits[..|hits| - 1])[KeyOf(s, hits[|hits| - 1]) := ValueOf(s, hits[|hits| - 1])]
  {
    AllOptionsPrefix(s, hits);
  }

  /** Three markers write their three entries in order, a later one
      overwriting an earlier one with the same key. */
  lemma AltMapOfThree(s: string, hits: seq<Hit>)
    requires AllOptions(s, hits) && |hits| == 3
    ensures AltMap(s, hits) == map[KeyOf(s, hits[0]) := ValueOf(s, hits[0]),
                                   KeyOf(s, hits[1]) := ValueOf(s, hits[1]),
                                   KeyOf(s, hits[2]) := ValueOf(s, hits[2])]
  {
    var h2 := hits[..2];
    var h1 := h2[..1];
    AltMapLast(s, hits);
    AltMapLast(s, h2);
    AltMapLast(s, h1);
    assert h1[..0] == [];
    assert h1[0] == hits[0] && h2[1] == hits[1];
  }

  /** The stem of the example: the text before `a)`, stripped. */
  lemma ThreeOptionStemText(s: string)
    requires s == "What is 2+2? a) 3 b) 4 c) 5"
    ensures Trim(s[..13]) == "What is 2+2?"
  {
    var t := s[..13];
    assert t == "What is 2+2? ";
    SpanUpTo(Space, t, 0, 0);
    assert t[..12] == "What is 2+2?";
    assert TrailingSpaces(t[..12]) == 0;
    assert TrailingSpaces(t) == 1;
  }


  /** Three option markers found by the scan determine the whole block. */
  lemma BlockOfThree(s: string, hits: seq<Hit>)
    requires IsFindAll(Matcher(OptionMarker, s), |s|, 0, hits) && |hits| == 3
    requires AllOptions(s, hits)
    ensures hits[0].start <= |s|
    ensures ParseQuestionBlock(s) == Block(Trim(s[..hits[0].start]),
      map[KeyOf(s, hits[0]) := ValueOf(s, hits[0]),
          KeyOf(s, hits[1]) := ValueOf(s, hits[1]),
          KeyOf(s, hits[2]) := ValueOf(s, hits[2])])
  {
    FindAllUnique(OptionMarker, s, hits);
    AltMapOfThree(s, hits);
  }

  /** The documented example: the stem is the text before `a)` and each letter
      maps to its one-character value. */
  lemma ThreeOptions(s: string)
    requires s == "What is 2+2? a) 3 b) 4 c) 5"
    ensures ParseQuestionBlock(s) == Block("What is 2+2?", map["alternativa_a" := "3", "alternativa_b" := "4", "alternativa_c" := "5"])
  {
    var hits := [Hit(13, 13, 14, 16, 17), Hit(18, 18, 19, 21, 22), Hit(23, 23, 24, 26, 27)];
    ThreeOptionMarkers(s);
    ThreeOptionEntryA(s);
    ThreeOptionEntryB(s);
    ThreeOptionEntryC(s);
    ThreeOptionStemText(s);
    BlockOfThree(s, hits);
  }
}
