# quest-extractor text core in Dafny

quest-extractor turns an exam PDF into question records. It reads the two text
columns of each page and normalises the text. It then cuts the text into
numbered questions and each question into a stem and lettered alternatives
(`a)` … `f)`). It wraps text in `<p>` paragraphs and attaches to a question the
purple-marked image found near where that question starts on the page.

This project models the part of `extract.py` that runs once the PDF libraries
have produced strings, words and coordinates:

- `normalize_keep_lines`: five rewrites and a final strip (module `Normalize`).
- `split_questions`: a line-anchored `digits "."` marker scan (modules `Patterns`
  and `Segment`).
- `parse_question_block`: the option-marker scan, the stem, and the map
  `alternativa_<letter>` → value (module `Alternatives`).
- `wrap_html_paragraphs` (module `Paragraphs`).
- Inside `extract_text_columns_with_positions`:
  - the choice of the x coordinate that splits the two columns, and the
    middle-of-page retry when a column reads blank;
  - the loops that record where each question number starts
    (module `Layout`).
- `match_image_to_question` (module `Matching`).

The two regular expressions are written as explicit scanners over `seq<char>`.
Module `Matches` states what each regex matches without the scanner, and
proves that the scanner finds exactly that.
`re.finditer` is written as a left-to-right scan. The scan is proved to be the
only sequence that meets a declarative description: every hit is a successful
attempt at its own start, hits are ordered and do not overlap, and no attempt
succeeds in any gap (`Patterns.IsFindAll`). The lemmas about segmentation and
alternatives are stated over that description. Coordinates are `real`. The
source only compares them, adds them and scales them by constants.

Whitespace is the set Python's `str.isspace` accepts. It is the same set that
`\s` and `str.strip()` use on `str`.

## Behaviour of the code worth knowing

Each of these follows from the regular expressions and the order of the
rewrites as written. A lemma states each one.

- A question marker needs no whitespace after its period: `\s*` may match
  nothing. A line starting `3.14` is question 3 (`Segment.DigitsAndPeriodStartQuestion`).
- `^` in `(?m)^\s*(\d+)\.\s*` anchors at line starts only. Two numbered
  sentences on one line stay one question (`Segment.OneLineAtMostOneQuestion`).
- An option marker needs no whitespace after `)`. The greedy `\s*` also
  consumes the separator a following marker would need. `"a) b) x"` has the
  single alternative `a` = `"b) x"` (`Alternatives.EmptyOptionSwallowsNext`).
- The normaliser is not idempotent. Removing a standalone `ular` happens after
  line-feed runs are collapsed, so it can bring blank lines together again
  (`Normalize.UlarJoinsBlankLines`).

## Model

| member | source | states |
|---|---|---|
| Text.Trim | extract.py:294 | `str.strip()`: the result is a slice of the input with only whitespace cut on either side, it has no whitespace at either end, and it is empty exactly when the input is all whitespace |
| Patterns.QuestionAt | extract.py:288 | an attempt of the question marker at a position either fails or yields a match that starts there, is non-empty, has an all-digit group, and ends where the body begins |
| Matches.QuestionAtExactly | extract.py:288 | the attempt succeeds with a match exactly when that match is a line start, whitespace, a non-empty digit group, a period and the longest whitespace run after it; fails when no such match exists |
| Patterns.LazyEnd | extract.py:341 | the lazy `(.*?)` of an option value stops at the first position from the value's start where the lookahead (`[\s.]` + letter + `)`, or end of text) holds |
| Patterns.OptionAt | extract.py:340-343 | an attempt of the option marker either fails or yields a non-empty match starting there whose group is a single letter a–f in either case |
| Matches.OptionAtExactly | extract.py:340-343 | the attempt succeeds with a match exactly when that match has the lookbehind, letter, `)`, longest whitespace run and first lookahead position; fails when no such match exists |
| Matches.LazyEndIsFirst | extract.py:341 | any first position from the value's start where the lookahead holds is where the lazy group stops |
| Patterns.Scan | extract.py:289 | the `finditer` scan meets the declarative description: hits at their own starts, in order, not overlapping, with no successful attempt in any gap |
| Patterns.HitsIncreasing | extract.py:289 | any two hits of a scan are in text order and do not overlap |
| Patterns.ScanUnique | extract.py:289 | any sequence meeting the declarative description is the scan |
| Patterns.ScanDeterministic | extract.py:289 | two sequences meeting the declarative description from the same position are equal |
| Patterns.FindAll | extract.py:353 | `findall`/`finditer` over a whole text: every hit is well formed and non-empty, and the hits meet the declarative description |
| Patterns.FindAllUnique | extract.py:289 | the declarative description determines the hits |
| Segment.SplitQuestions | extract.py:286-297 | one question per marker match, each body stripped |
| Segment.SegmentsBetweenMarkers | extract.py:291-295 | for the markers found, question `i` is numbered by marker `i`'s digits and its body is the stripped slice from marker `i`'s end to marker `i+1`'s start, or to the end of the text for the last |
| Segment.NoMarkerNoQuestions | extract.py:288-297 | the result is empty exactly when no position of the text starts a marker |
| Segment.OneLineAtMostOneQuestion | extract.py:288 | text without a line feed yields at most one question, and yields one exactly when a marker starts at position 0 |
| Segment.DigitsAndPeriodStartQuestion | extract.py:288 | digits followed by `.` at the start of the text form a marker whatever follows, numbered by the digits' value |
| Alternatives.Lower | extract.py:354 | `letter.lower()` on a letter a–f or A–F gives a–f: the letter itself or the one 32 code points above |
| Alternatives.KeyOf | extract.py:354 | the key a marker writes is `alternativa_` followed by one lower-case letter a–f |
| Alternatives.ValueOf | extract.py:354 | the value a marker writes is stripped |
| Alternatives.AltMap | extract.py:352-354 | the map the loop builds has only `alternativa_<a–f>` keys and stripped values |
| Alternatives.AltMapHasKeys | extract.py:352-354 | every marker's key is in the map |
| Alternatives.KeyWitness | extract.py:352-354 | every key in the map was written by some marker |
| Alternatives.AltMapOnlyKeys | extract.py:352-354 | the map holds no key other than the markers' keys |
| Alternatives.AltMapKeepsOthers | extract.py:353-354 | the last marker leaves every other key's presence and value as the earlier markers left them |
| Alternatives.LastOccurrenceWins | extract.py:352-354 | a letter that does not occur again keeps this occurrence's value: the last occurrence of a repeated letter wins |
| Alternatives.ParseQuestionBlock | extract.py:338-356 | the stem is stripped, every key is `alternativa_<a–f>`, and every value is stripped |
| Alternatives.BlockFromMarkers | extract.py:345-356 | for the markers found: the stem is the stripped text before the first marker (the whole text stripped when there is none), the keys are exactly the markers' keys, and each key holds its last occurrence's value |
| Alternatives.NoMarkerNoAlternatives | extract.py:345-350 | the map is empty exactly when no position starts an option marker, and then the stem is the whole text stripped |
| Alternatives.OneCharacterOption | extract.py:341 | a letter, `)`, one space and one character followed by the next marker or the end match with that character as the value |
| Alternatives.EmptyOptionSwallowsNext | extract.py:341 | `"a) b) x"` has empty stem and the single alternative `a` = `"b) x"` |
| Alternatives.AltMapOfThree | extract.py:352-354 | three markers build exactly the map of their three key-value writes in order, a later key overwriting an equal earlier one |
| Alternatives.BlockOfThree | extract.py:345-356 | when the scan finds exactly three markers, the block is the stripped text before the first marker plus the map of their three writes |
| Alternatives.ThreeOptions | extract.py:338-356 | `"What is 2+2? a) 3 b) 4 c) 5"` parses to stem `"What is 2+2?"` and alternatives a = 3, b = 4, c = 5 |
| Paragraphs.FirstBreak | extract.py:360 | the leftmost `"\n\n"` at or after a position, with none before it |
| Paragraphs.SplitBlocks | extract.py:360 | `split("\n\n")`: the pieces joined with the separator give back the text, no piece holds the separator, and every piece but the last is cut at the leftmost separator |
| Paragraphs.Blocks | extract.py:360 | the kept blocks are non-empty and stripped |
| Paragraphs.BlocksEmpty | extract.py:360 | no block is kept exactly when every piece is whitespace |
| Paragraphs.Tags | extract.py:361 | the tag string is empty exactly when there are no blocks |
| Paragraphs.Paragraphs | extract.py:360 | the paragraphs are non-empty and stripped |
| Paragraphs.WrapHtmlParagraphs | extract.py:358-361 | the output is `""` exactly when the input is empty or all whitespace |
| Paragraphs.JoinAllSpace | extract.py:360 | joined pieces are all whitespace exactly when every piece is |
| Paragraphs.OnePiece | extract.py:360 | text without a blank line splits into itself alone |
| Paragraphs.SingleParagraph | extract.py:358-361 | a stripped, non-empty block with no blank line becomes `<p>` + block + `</p>` |
| Paragraphs.FirstBreakAfter | extract.py:360 | after a block with no blank line that does not end in a line feed, the separator that follows is the leftmost |
| Paragraphs.BlocksConcat | extract.py:360 | the kept blocks of two piece lists joined are those of each, in order |
| Paragraphs.TagsConcat | extract.py:361 | tagging two block lists joined is tagging each, in order |
| Paragraphs.WrapConcat | extract.py:358-361 | a block and the rest of the text, with a blank line between, wrap to the block's paragraphs followed by the rest's |
| Layout.Candidates | extract.py:199-211 | there are at most as many candidates as lines, and every candidate lies strictly inside the middle half of the page |
| Layout.CandidatesFromLines | extract.py:199-211 | the candidates are exactly the `x0` of the lines that have both x coordinates, are not the footer rule and are tall, nearly vertical and in the middle half |
| Layout.Nearest | extract.py:214 | `sorted(…, key=abs(x - w/2))[0]` under a stable sort: a candidate at the least distance, and none before it at that distance |
| Layout.ChooseSplit | extract.py:213-222 | the split is `w/2` without candidates and otherwise a candidate nearest `w/2`; the gap is `max(4, w*0.01)`; the crops are `(0, 0, max(0, x-gap), h)` and `(min(w, x+gap), 0, w, h)` |
| Layout.SplitSeparatesColumns | extract.py:213-222 | on a page of positive width the split lies inside the page, the left crop ends before it, the right crop starts after it, and the crops do not meet |
| Layout.FinalSplit | extract.py:232-240 | the first split is replaced exactly when a column reads blank and the first split was not the page middle; when a column reads blank the final split is the middle; the gap is kept; a replaced split's crops end at middle minus gap and start at middle plus gap, without clamping |
| Layout.FinalSplitSeparates | extract.py:232-240 | the crops the text is finally read with never overlap and the split lies inside a page of positive width |
| Layout.TokenNumberAsWritten | extract.py:242 | the token test as written accepts only tokens with whitespace right after the period |
| Layout.AsWrittenIgnoresWords | extract.py:242 | a token without whitespace never passes the test as written |
| Layout.BareNumberToken | extract.py:242 | `"7."` fails the test as written and reads as 7 under the corrected one |
| Layout.CorrectedReadsBareNumbers | extract.py:242 | the corrected test reads every token made of digits and a period as the digits' value |
| Layout.CorrectedAgreesWithAsWritten | extract.py:242 | on every token the test as written accepts, the corrected test reads the same number |
| Layout.LastStarting | extract.py:245-266 | the last word a token test reads as a given number, or none when no word does |
| Layout.IndexWords | extract.py:245-254 | after a column's loop, a number some word starts holds the entry of its last such word, and every other number keeps its entry or its absence |
| Layout.LastStartingConcat | extract.py:244-266 | the last word starting a number in left-then-right order is the last in the right column, or failing that the last in the left |
| Layout.LastInColumns | extract.py:244-266 | with both loops run, the last word starting a number in left-then-right order decides its entry and column |
| Layout.IndexPage | extract.py:244-266 | indexing a page with the corrected token test removes no entry, and every entry is either written by this page or left as it was |
| Layout.IndexPageAsWritten | extract.py:242-266 | the same two facts for the loops with the token test as written |
| Layout.IndexPageLastWins | extract.py:244-266 | with the corrected token test, the last word on the page starting a number, left column first, decides its entry: page, `top` (0 when missing) and column |
| Layout.IndexPageAsWrittenLastWins | extract.py:242-266 | with the token test as written, the last word it accepts, left column first, decides that number's entry |
| Layout.LastWordIndexed | extract.py:257-266 | a word the token test reads as a number, at the end of the right column, writes that number's entry with the right column |
| Layout.BareNumberWordIndexed | extract.py:242-266 | with the corrected test, a word of digits and a period at the end of the right column records that number at this page, in the right column, at the word's `top` (0 when missing) |
| Layout.IndexPageKeepsOthers | extract.py:244-266 | with the corrected token test, a number no word on the page starts keeps its entry, or its absence |
| Layout.IndexPageAsWrittenKeepsOthers | extract.py:242-266 | with the token test as written, a number no accepted word starts keeps its entry, or its absence |
| Layout.NothingIndexed | extract.py:245-266 | words the test never accepts leave the index as it was |
| Layout.AsWrittenIndexesNothing | extract.py:242-266 | with the test as written, words without whitespace, as extracted, leave the index unchanged on every page |
| Matching.SameCellImages | extract.py:320-323 | an image is kept exactly when it is in the list and on the question's page and in its column; there are no more kept images than images |
| Matching.FirstInWindow | extract.py:326-336 | an image the loop returns is among the candidates and its centre is in the window |
| Matching.FirstFit | extract.py:320-336 | reference search: the first image in list order on the question's page and column with its centre in `[y-50, y+150]`, or none when no image fits |
| Matching.FilterThenSearch | extract.py:320-336 | filtering by page and column and then taking the first image in the window finds the same image as the reference search |
| Matching.MatchImageToQuestion | extract.py:299-336 | `""` for a question without a position or when no image fits, and otherwise the `b64` of the first image in list order that fits |
| Matching.EmptyMeansNoImage | extract.py:308-336 | when every image carries data, the result is `""` exactly when the question has no position or no image fits |
| Normalize.CrLfToLf | extract.py:279 | `replace("\r\n", "\n")` never lengthens the text or adds a character |
| Normalize.CrLfDropsCr | extract.py:279 | replacing `\r\n` pairs left to right removes exactly the carriage returns followed by a line feed |
| Normalize.CrToLf | extract.py:279 | `replace("\r", "\n")` keeps the length and leaves no carriage return |
| Normalize.LineEnds | extract.py:279 | after both replacements no carriage return is left, and only line feeds are added |
| Normalize.LineEndsFixed | extract.py:279 | text without a carriage return is unchanged |
| Normalize.NoCrKept | extract.py:279 | the first replacement leaves text without a carriage return unchanged |
| Normalize.RemoveHyphenBreaks | extract.py:280 | removing `-\n` never lengthens the text or adds a character |
| Normalize.HyphenBreakJoins | extract.py:280 | a `-\n` joins the text on either side of it, whatever that text is |
| Normalize.NoHyphenBreakFixed | extract.py:280 | text without `-\n` is unchanged |
| Normalize.CollapseBlanks | extract.py:281 | the result has no tab and no two spaces in a row, is empty exactly when the input is, starts with a space exactly when the input starts with a blank, adds only spaces, and keeps every character other than space and tab, in order |
| Normalize.CollapseBlanksFixed | extract.py:281 | text with no tab and no two spaces in a row is unchanged |
| Normalize.CollapseBlanksIdempotent | extract.py:281 | collapsing blanks twice is collapsing them once |
| Normalize.CollapseBlanksRun | extract.py:281 | a maximal run of spaces and tabs, of any length, becomes exactly one space between the collapsed text before it and the collapsed text after it |
| Normalize.CollapseNewlines | extract.py:282 | the result has no three line feeds in a row, is empty exactly when the input is, starts with a line feed exactly when the input does, adds no character, and keeps every character other than the line feed, in order |
| Normalize.CollapseNewlinesFixed | extract.py:282 | text with no three line feeds in a row is unchanged |
| Normalize.CollapseNewlinesRun | extract.py:282 | a maximal line-feed run of three or more becomes exactly two line feeds, and a shorter one is kept as it is, between the collapsed text before it and the collapsed text after it |
| Normalize.DropUlarFrom | extract.py:283 | the removal scan from a position yields no more characters than remain and adds none |
| Normalize.DropUlar | extract.py:283 | removing standalone `ular` never lengthens the text or adds a character |
| Normalize.NoUlarFixed | extract.py:283 | text without a standalone `ular` is unchanged |
| Normalize.NoUlarFixedFrom | extract.py:283 | without a standalone `ular`, the removal scan from any position gives the rest of the text |
| Normalize.NormalizeKeepLines | extract.py:277-284 | the output has no carriage return or tab, is stripped, and holds only characters of the input, line feeds and spaces |
| Normalize.NormalIsFixed | extract.py:277-284 | text that no step would change (no CR or tab, no `-\n`, no double space, no triple line feed, no standalone `ular`, stripped) is its own normal form |
| Normalize.UlarExampleDrop | extract.py:283 | in `"a\n\nular\n\nb"` the `ular` is removed, leaving `"a\n\n\n\nb"` |
| Normalize.NormalizeViaDrop | extract.py:277-284 | text the first four steps leave alone normalises to its `ular`-free form when that is already stripped |
| Normalize.UlarJoinsBlankLines | extract.py:277-284 | `"a\n\nular\n\nb"` normalises to `"a\n\n\n\nb"`, which holds three line feeds in a row, so normalising again changes it |

## Left out

- PyMuPDF and Pillow work is not modelled: drawing enumeration, the purple-colour test, rasterising, recolouring, PNG and base64 encoding, redaction and saving (extract.py:20-163). It is foreign library code, floating-point colour distance and file I/O. The image records it produces are inputs to `Matching`.
- pdfplumber opening, cropping and text and word extraction (extract.py:171-198, 223-231, 236-239) are not modelled. The ruling lines, the words of each column and whether each column's text came out blank are inputs to `Layout`.
- The two-page limit (extract.py:182) and the page text join (extract.py:268-275) are page iteration and string assembly around the library calls; `Layout` models one page.
- The command line, JSON output, record assembly, temporary-file cleanup and the cap at the first 100 questions in `main` (extract.py:363-426) are I/O and assembly.
- Every `print` call is left out; none affects a result.
- Coordinates are exact reals. IEEE-754 rounding is not modelled, so a comparison at a window edge can differ: the source computes `(q_y + 100) + 50` in floating point, which may round differently from `q_y + 150`.
- `\d` and `int()` are modelled for ASCII digits only. Python also accepts other Unicode decimal digits.
- Patterns.QuestionAt: the contract states only that a successful attempt is a well-formed match at that position. What it matches, and when it succeeds, is stated by `Matches.QuestionAtExactly`.
- Patterns.OptionAt: the contract states only that a successful attempt is a well-formed match at that position. What it matches, and when it succeeds, is stated by `Matches.OptionAtExactly`.
- Segment.SplitQuestions: the contract gives the count and stripped bodies. The exact bodies and numbers are in `Segment.SegmentsBetweenMarkers`.
- Alternatives.ParseQuestionBlock: the contract gives the key and value shapes. The exact stem and map are in `Alternatives.BlockFromMarkers`.
- Layout.Candidates: the contract gives the bounds. Membership in both directions is in `Layout.CandidatesFromLines`; line order is not stated as a separate property.
- Layout.FinalSplit: whether a column's text is blank is taken as an input, because it comes from text extraction.
- Matching.SameCellImages: the contract states which images are kept but not that they keep their list order. The order matters only for which image is first, and that is stated through `Matching.FilterThenSearch`.
- Matching.FirstInWindow: the contract states only that a returned image is a candidate in the window. That it is the first one is stated through `Matching.FilterThenSearch`.
- Matching.EmptyMeansNoImage: requires every image's `b64` to be non-empty. An empty `b64` cannot be told apart from "no image".
- Normalize.DropUlarFrom: the contract states length and characters only, like `Normalize.DropUlar` below.
- Normalize.DropUlar: the contract states length and characters only. Exact removal is shown for text without `ular` (`Normalize.NoUlarFixed`) and on an example (`Normalize.UlarExampleDrop`).
- Normalize.NormalizeKeepLines: idempotence is not stated because it does not hold (`Normalize.UlarJoinsBlankLines`).

## Findings

| source | as written | input that shows it | evidently intended | confidence | as-written member | corrected member |
|---|---|---|---|---|---|---|
| extract.py:242 | the token test `^\s*(\d+)\.\s` needs whitespace after the period, but it is applied to single extracted words, which contain no whitespace, so no question position is ever recorded and no image is ever attached | the word `"7."` | a word made of a number and a period starts that question: the period is followed by whitespace or by the end of the word | medium, not executed | Layout.AsWrittenIndexesNothing | Layout.BareNumberWordIndexed |
