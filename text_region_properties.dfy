/** What the selection rule guarantees about its output: it is exactly the
    order-preserving filter of the contour list by the two tests, each survivor
    contributing its rectangle's corners unchanged, and nothing else influences it. */
module TextRegionProperties {
  import opened Geometry
  import opened TextRegion

  /** `r` is what selecting the contours at `idx` yields, when `idx` lists, in increasing
      order, exactly the positions of the accepted contours of `cs`. */
  ghost predicate IsOrderedSelection(cs: seq<MeasuredContour>, idx: seq<nat>, r: seq<seq<Point>>)
  {
    && StrictlyIncreasing(idx)
    && (forall k :: 0 <= k < |idx| ==> idx[k] < |cs| && Accepted(cs[idx[k]]))
    && (forall j :: 0 <= j < |cs| && Accepted(cs[j]) ==> j in idx)
    && |r| == |idx|
    && (forall k :: 0 <= k < |idx| ==> idx[k] < |cs| && r[k] == cs[idx[k]].minRect.points)
  }

  /** The k-th emitted region is the rectangle of the k-th accepted contour. */
  lemma {:induction false} TextRegionsSelectsAccepted(cs: seq<MeasuredContour>)
    ensures |TextRegions(cs)| == |AcceptedIndices(cs)|
    ensures forall k :: 0 <= k < |TextRegions(cs)| ==>
      TextRegions(cs)[k] == cs[AcceptedIndices(cs)[k]].minRect.points
    decreases |cs|
  {
    if cs != [] {
      var n := |cs| - 1;
      var prefix := cs[..n];
      TextRegionsSelectsAccepted(prefix);
      var regions, accepted := TextRegions(prefix), AcceptedIndices(prefix);
      var last := if Accepted(cs[n]) then [cs[n].minRect.points] else [];
      var lastIndex := if Accepted(cs[n]) then [n] else [];
      assert TextRegions(cs) == regions + last;
      assert AcceptedIndices(cs) == accepted + lastIndex;
      forall k | 0 <= k < |TextRegions(cs)|
        ensures TextRegions(cs)[k] == cs[AcceptedIndices(cs)[k]].minRect.points
      {
        if k < |regions| {
          assert TextRegions(cs)[k] == regions[k];
          assert AcceptedIndices(cs)[k] == accepted[k];
          assert prefix[accepted[k]] == cs[accepted[k]];
        }
      }
    }
  }

  /** Two increasing sequences with the same elements are equal. */
  lemma {:induction false} IncreasingEnumerationUnique(a: seq<nat>, b: seq<nat>)
    requires StrictlyIncreasing(a) && StrictlyIncreasing(b)
    requires forall x :: x in a <==> x in b
    ensures a == b
    decreases |a|
  {
    assert a != [] ==> a[0] in b;
    assert b != [] ==> b[0] in a;
    if a != [] && b != [] {
      assert a[0] == b[0] by {
        assert a[0] in b;
        assert b[0] in a;
      }
      forall x
        ensures x in a[1..] <==> x in b[1..]
      {
        TailMembers(a, x);
        TailMembers(b, x);
      }
      IncreasingEnumerationUnique(a[1..], b[1..]);
    }
  }

  /** The tail of an increasing sequence holds exactly its elements above the head. */
  lemma TailMembers(a: seq<nat>, x: nat)
    requires StrictlyIncreasing(a) && a != []
    ensures x in a[1..] <==> x in a && x > a[0]
  {
    if x in a {
      var i :| 0 <= i < |a| && a[i] == x;
      if i > 0 {
        assert a[1..][i - 1] == x;
      }
    }
  }

  /** The emitted regions are exactly the order-preserving selection of the accepted
      contours, and no other sequence is. */
  lemma FilterCharacterization(cs: seq<MeasuredContour>, r: seq<seq<Point>>)
    ensures r == TextRegions(cs) <==> exists idx :: IsOrderedSelection(cs, idx, r)
  {
    var ai := AcceptedIndices(cs);
    TextRegionsSelectsAccepted(cs);
    if r == TextRegions(cs) {
      assert IsOrderedSelection(cs, ai, r);
    }
    if idx :| IsOrderedSelection(cs, idx, r) {
      IncreasingEnumerationUnique(idx, ai);
      assert r == TextRegions(cs);
    }
  }

  /** The aspect test, stated as the program's floating comparison, in exact reals, is the integer test
      `10 * height > 9 * width`. */
  lemma AspectIntegerForm(c: MeasuredContour)
    ensures TooNarrow(c) <==> 10 * BoxHeight(c) > 9 * BoxWidth(c)
  {
  }

  /** `region` is the rectangle of some contour of `cs` whose area is at least 700 and
      whose bounding height is at most 0.9 times its bounding width. */
  ghost predicate FromPassingContour(cs: seq<MeasuredContour>, region: seq<Point>)
  {
    exists j :: 0 <= j < |cs| && region == cs[j].minRect.points
      && cs[j].area >= 700.0 && 10 * BoxHeight(cs[j]) <= 9 * BoxWidth(cs[j])
  }

  /** Soundness: every emitted region comes from a contour that passes both tests. */
  lemma {:induction false} EmittedPassBothTests(cs: seq<MeasuredContour>)
    ensures forall k :: 0 <= k < |TextRegions(cs)| ==> FromPassingContour(cs, TextRegions(cs)[k])
  {
    TextRegionsSelectsAccepted(cs);
    var ai := AcceptedIndices(cs);
    forall k | 0 <= k < |TextRegions(cs)|
      ensures FromPassingContour(cs, TextRegions(cs)[k])
    {
      var j := ai[k];
      AspectIntegerForm(cs[j]);
      assert 0 <= j < |cs| && TextRegions(cs)[k] == cs[j].minRect.points;
    }
  }

  /** Completeness: a contour that passes both tests is emitted, at the position given
      by the number of accepted contours before it. */
  lemma AcceptedContoursEmitted(cs: seq<MeasuredContour>, j: nat)
    requires j < |cs|
    requires cs[j].area >= 700.0 && 10 * BoxHeight(cs[j]) <= 9 * BoxWidth(cs[j])
    ensures |AcceptedIndices(cs[..j])| < |TextRegions(cs)|
    ensures TextRegions(cs)[|AcceptedIndices(cs[..j])|] == cs[j].minRect.points
  {
    AspectIntegerForm(cs[j]);
    PrefixRegions(cs, j + 1);
    assert cs[..j + 1][..j] == cs[..j];
    TextRegionsSelectsAccepted(cs[..j]);
  }

  /** The regions of a prefix are a prefix of the regions. */
  lemma {:induction false} PrefixRegions(cs: seq<MeasuredContour>, m: nat)
    requires m <= |cs|
    ensures TextRegions(cs[..m]) <= TextRegions(cs)
    decreases |cs| - m
  {
    if m < |cs| {
      PrefixRegions(cs, m + 1);
      assert cs[..m + 1][..m] == cs[..m];
    } else {
      assert cs[..m] == cs;
    }
  }

  /** Contours that agree on area, bounding box and corner points contribute alike. */
  ghost predicate SameDecisionData(c: MeasuredContour, d: MeasuredContour)
  {
    c.area == d.area && c.minRect.boundingRect == d.minRect.boundingRect
    && c.minRect.points == d.minRect.points
  }

  /** The output depends only on each contour's area, bounding box and corner points:
      not on the arc length, the approximated polygon, or the rotated rectangle's own
      centre, side lengths and angle. */
  lemma {:induction false} DecisionDataSuffices(cs: seq<MeasuredContour>, ds: seq<MeasuredContour>)
    requires |cs| == |ds|
    requires forall i :: 0 <= i < |cs| ==> SameDecisionData(cs[i], ds[i])
    ensures TextRegions(cs) == TextRegions(ds)
    decreases |cs|
  {
    if cs != [] {
      var n := |cs| - 1;
      DecisionDataSuffices(cs[..n], ds[..n]);
    }
  }

  /** The polygon approximation has no influence: lists that differ only in arc length
      and approximated polygon yield the same regions. */
  lemma {:induction false} ApproximationIgnored(cs: seq<MeasuredContour>, ds: seq<MeasuredContour>)
    requires |cs| == |ds|
    requires forall i :: 0 <= i < |cs| ==> ds[i].area == cs[i].area && ds[i].minRect == cs[i].minRect
    ensures TextRegions(cs) == TextRegions(ds)
  {
    DecisionDataSuffices(cs, ds);
  }

  /** Each emitted region has four corners when every minimum-area rectangle has. */
  lemma {:induction false} EmittedHaveFourCorners(cs: seq<MeasuredContour>)
    requires forall i :: 0 <= i < |cs| ==> |cs[i].minRect.points| == 4
    ensures forall k :: 0 <= k < |TextRegions(cs)| ==> |TextRegions(cs)[k]| == 4
  {
    TextRegionsSelectsAccepted(cs);
  }

  /** Area exactly 700 is kept; any smaller area is not. */
  lemma AreaBoundary(c: MeasuredContour)
    requires 10 * BoxHeight(c) <= 9 * BoxWidth(c)
    ensures c.area == 700.0 ==> Accepted(c)
    ensures c.area < 700.0 ==> !Accepted(c)
  {
    AspectIntegerForm(c);
  }

  /** Height exactly 0.9 times the width is kept; one more pixel of height is not. */
  lemma RatioBoundary(c: MeasuredContour)
    requires c.area >= 700.0 && BoxWidth(c) == 100
    ensures BoxHeight(c) == 90 ==> Accepted(c)
    ensures BoxHeight(c) == 91 ==> !Accepted(c)
  {
  }

  /** A rotated rectangle is judged by its axis-aligned box, not its own sides: a
      100 by 10 rectangle standing on end, reported with width 10 and height 100 at a
      right angle, is kept because its box is 100 wide and 10 high. */
  lemma RotatedSizeNotConsulted()
    ensures Accepted(MeasuredContour(1000.0, 220.0, [],
      RotatedRect([Point(0, 10), Point(0, 0), Point(100, 0), Point(100, 10)],
        Rectangle(Point(0, 0), Point(100, 10)), Point(50, 5), 10, 100, 90.0)))
  {
  }

  /** A wide blob (a 200 by 40 filled rectangle) is emitted, a thin vertical line
      (4 by 300) is not, even though its area passes the minimum. */
  lemma BlobKeptLineDropped()
    ensures
      var blob := MeasuredContour(7761.0, 476.0, [],
        RotatedRect([Point(0, 39), Point(0, 0), Point(199, 0), Point(199, 39)],
          Rectangle(Point(0, 0), Point(200, 40)), Point(100, 20), 199, 39, 90.0));
      var line := MeasuredContour(897.0, 604.0, [],
        RotatedRect([Point(500, 299), Point(500, 0), Point(503, 0), Point(503, 299)],
          Rectangle(Point(500, 0), Point(504, 300)), Point(502, 150), 3, 299, 90.0));
      TextRegions([blob, line]) == [blob.minRect.points]
  {
  }
}
