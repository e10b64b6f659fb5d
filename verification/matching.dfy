/** Attaching a purple-marked image to a question (`match_image_to_question`). */
module Matching {
  import opened Wrappers
  import opened Layout

  /** One purple region: `{"page", "rect", "b64", "y_center", "col_hint"}`. */
  datatype Image = Image(page: int, rect: Box, b64: string, yCenter: real, colHint: Column)

  /** The height a question is assumed to span below its first line. */
  const AssumedHeight: real := 100.0

  /** The tolerance added above and below that span. */
  const Margin: real := 50.0

  /** The image lies on the question's page and in its column. */
  predicate SameCell(p: Position, img: Image) {
    img.page == p.page && img.colHint == p.col
  }

  /** The image's vertical centre lies within the question's span, margin included. */
  predicate InWindow(p: Position, img: Image) {
    p.yStart - Margin <= img.yCenter <= p.yStart + AssumedHeight + Margin
  }

  /** Everything the matcher asks of an image. */
  predicate Fits(p: Position, img: Image) {
    SameCell(p, img) && InWindow(p, img)
  }

  /** The list comprehension keeping the images on the question's page and column. */
  function SameCellImages(p: Position, images: seq<Image>): (cs: seq<Image>)
    ensures |cs| <= |images|
    ensures forall k :: 0 <= k < |cs| ==> SameCell(p, cs[k])
    ensures forall img :: img in cs <==> img in images && SameCell(p, img)
  {
    if |images| == 0 then []
    else
      var rest := SameCellImages(p, images[1..]);
      assert forall img :: img in images <==> img == images[0] || img in images[1..];
      if SameCell(p, images[0]) then [images[0]] + rest else rest
  }

  /** The loop returning the first candidate inside the window. */
  function FirstInWindow(p: Position, cs: seq<Image>): (r: Option<Image>)
    ensures r.Some? ==> r.value in cs && InWindow(p, r.value)
  {
    if |cs| == 0 then None
    else if InWindow(p, cs[0]) then Some(cs[0])
    else FirstInWindow(p, cs[1..])
  }

  /** The reference search: the index of the first image that fits, scanning
      the original list once. */
  function FirstFit(p: Position, images: seq<Image>): (r: Option<nat>)
    ensures r.Some? ==> r.value < |images| && Fits(p, images[r.value])
    ensures r.Some? ==> forall j :: 0 <= j < r.value ==> !Fits(p, images[j])
    ensures r.None? ==> forall j :: 0 <= j < |images| ==> !Fits(p, images[j])
  {
    if |images| == 0 then None
    else if Fits(p, images[0]) then Some(0)
    else
      match FirstFit(p, images[1..])
      case Some(k) =>
        assert forall j :: 1 <= j <= k ==> images[j] == images[1..][j - 1];
        Some(k + 1)
      case None =>
        assert forall j :: 1 <= j < |images| ==> images[j] == images[1..][j - 1];
        None
  }

  /** Filtering by page and column and then taking the first image in the
      window finds the same image as one scan for the first that fits. */
  lemma {:induction false} FilterThenSearch(p: Position, images: seq<Image>)
    ensures FirstInWindow(p, SameCellImages(p, images)) ==
      match FirstFit(p, images)
      case Some(i) => Some(images[i])
      case None => None
  {
    if |images| > 0 {
      FilterThenSearch(p, images[1..]);
      match FirstFit(p, images[1..])
      case Some(k) =>
        assert images[1..][k] == images[k + 1];
      case None =>
    }
  }

  /** `match_image_to_question`: the `b64` of the first image, in list order,
      on the question's page and column whose centre is within the question's
      window; `""` when the question has no recorded position or no image fits. */
  function MatchImageToQuestion(q: nat, positions: map<nat, Position>, images: seq<Image>): (b64: string)
    ensures q !in positions ==> b64 == ""
    ensures q in positions && (forall j :: 0 <= j < |images| ==> !Fits(positions[q], images[j])) ==> b64 == ""
    ensures q in positions ==> forall i :: 0 <= i < |images| && Fits(positions[q], images[i]) && (forall j :: 0 <= j < i ==> !Fits(positions[q], images[j])) ==>
      b64 == images[i].b64
  {
    if q !in positions then ""
    else
      var p := positions[q];
      FilterThenSearch(p, images);
      match FirstInWindow(p, SameCellImages(p, images))
      case Some(img) => img.b64
      case None => ""
  }

  /** When every image carries data, the matcher returns `""` exactly when the
      question has no position or no image fits it. */
  lemma EmptyMeansNoImage(q: nat, positions: map<nat, Position>, images: seq<Image>)
    requires forall j :: 0 <= j < |images| ==> images[j].b64 != ""
    ensures MatchImageToQuestion(q, positions, images) == "" <==>
      q !in positions || forall j :: 0 <= j < |images| ==> !Fits(positions[q], images[j])
  {
    if q in positions {
      match FirstFit(positions[q], images)
      case Some(i) =>
      case None =>
    }
  }
}
