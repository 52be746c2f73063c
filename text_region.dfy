/** The text-region selection rule: the contours found in the preprocessed mask are
    walked in discovery order; small ones and tall-narrow ones are dropped, and the
    four corners of each survivor's minimum-area rectangle are emitted. */
module TextRegion {
  import opened Geometry

  /** What the image library reports about one contour: its enclosed area, its closed
      arc length, the polygon approximation computed from that length, and its
      minimum-area rectangle. */
  datatype MeasuredContour = MeasuredContour(
    area: real,
    arcLength: real,
    approx: seq<Point>,
    minRect: RotatedRect)

  /** Contours enclosing less than this many square pixels are noise. */
  const MinArea: real := 700.0

  /** A contour whose bounding height exceeds this fraction of its bounding width
      is too narrow to be a line of text. */
  const AspectLimit: real := 0.9

  /** Width of the axis-aligned box around the minimum-area rectangle. */
  function BoxWidth(c: MeasuredContour): int
  {
    c.minRect.boundingRect.Dx()
  }

  /** Height of the axis-aligned box around the minimum-area rectangle. */
  function BoxHeight(c: MeasuredContour): int
  {
    c.minRect.boundingRect.Dy()
  }

  /** First rejection: the enclosed area is below the minimum. */
  predicate TooSmall(c: MeasuredContour)
  {
    c.area < MinArea
  }

  /** Second rejection: the bounding box is taller than 0.9 times its width. */
  predicate TooNarrow(c: MeasuredContour)
  {
    BoxHeight(c) as real > BoxWidth(c) as real * AspectLimit
  }

  /** A contour survives when neither rejection applies. */
  predicate Accepted(c: MeasuredContour)
  {
    !TooSmall(c) && !TooNarrow(c)
  }

  /** The regions emitted for `cs`, built by appending one contour at a time from the
      front, as the loop over the contour list does. */
  function TextRegions(cs: seq<MeasuredContour>): (r: seq<seq<Point>>)
    ensures |r| <= |cs|
    decreases |cs|
  {
    if cs == [] then []
    else
      var n := |cs| - 1;
      TextRegions(cs[..n]) + (if Accepted(cs[n]) then [cs[n].minRect.points] else [])
  }

  predicate StrictlyIncreasing(idx: seq<nat>)
  {
    forall i, j :: 0 <= i < j < |idx| ==> idx[i] < idx[j]
  }

  /** The positions of the accepted contours, in increasing order: an enumeration of the
      accepted indices that is independent of what is emitted for them. */
  function AcceptedIndices(cs: seq<MeasuredContour>): (idx: seq<nat>)
    ensures StrictlyIncreasing(idx)
    ensures forall k :: 0 <= k < |idx| ==> idx[k] < |cs| && Accepted(cs[idx[k]])
    ensures forall j :: 0 <= j < |cs| && Accepted(cs[j]) ==> j in idx
    decreases |cs|
  {
    if cs == [] then []
    else
      var n := |cs| - 1;
      AcceptedIndices(cs[..n]) + (if Accepted(cs[n]) then [n] else [])
  }

  /** The selection loop over the contour list. */
  method FindTextRegion(contours: seq<MeasuredContour>) returns (rects: seq<seq<Point>>)
    ensures rects == TextRegions(contours)
    ensures contours == [] ==> rects == []
  {
    rects := [];
    for i := 0 to |contours|
      invariant rects == TextRegions(contours[..i])
    {
      assert contours[..i + 1][..i] == contours[..i];
      var cnt := contours[i];
      var area := cnt.area;
      if area < MinArea {
        continue;
      }
      // The approximation epsilon is computed and its polygon discarded: the
      // polygon `cnt.approx` plays no part in the decision.
      var epsilon := 0.001 * cnt.arcLength;
      var rect := cnt.minRect;
      var mWidth := (rect.boundingRect.max.x - rect.boundingRect.min.x) as real;
      var mHeight := (rect.boundingRect.max.y - rect.boundingRect.min.y) as real;
      if mHeight > mWidth * AspectLimit {
        continue;
      }
      rects := rects + [rect.points];
    }
    assert contours[..|contours|] == contours;
  }
}
