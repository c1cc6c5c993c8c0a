/**
  Two concrete 20 x 20 images, zero except for their peaks, and the stars2
  that a completed OnFinder leaves for each. The result is pinned down
  through DetectsUnique: the expected list satisfies Detects, and so does
  what OnFinder stores, so the two are equal.
*/
module Scenarios {
  import opened Detections
  import opened Grid
  import opened StarFinder
  import opened Properties

  /** The 20 x 20 image that is 0 everywhere except at the peaks that
      IsPeak picks out, where it is v. */
  predicate PeakImage(image: array2<int>, IsPeak: (int, int) -> bool, v: int)
    reads image
  {
    image.Length0 == 20 && image.Length1 == 20 &&
    forall x, y :: 0 <= x < 20 && 0 <= y < 20 ==> image[x, y] == if IsPeak(x, y) then v else 0
  }

  /** The single peak at (10, 10). */
  predicate OnePeak(x: int, y: int)
  {
    x == 10 && y == 10
  }

  /** The two peaks at (2, 2) and (15, 15). */
  predicate TwoPeak(x: int, y: int)
  {
    (x == 2 && y == 2) || (x == 15 && y == 15)
  }

  /** A single peak at (10, 10) is the whole answer at threshold 100. */
  lemma SinglePeakDetects(image: array2<int>)
    requires PeakImage(image, OnePeak, 100)
    ensures Detects(image, [Pos(10, 10)], 100)
  {
    var ds := [Pos(10, 10)];
    assert ds[..0] == [];
    assert Qualifies(image, [], Pos(10, 10));
    forall x, y | InImage(image, x, y) && image[x, y] >= 100
      ensures Suppressed(ds, x, y)
    {
      assert InWindow(ds[0], x, y);
    }
  }

  /** Two peaks 13 rows and columns apart are both found, in scan order, at
      threshold 50: the second lies outside the window of the first. */
  lemma TwoPeaksDetect(image: array2<int>)
    requires PeakImage(image, TwoPeak, 50)
    ensures Detects(image, [Pos(2, 2), Pos(15, 15)], 50)
  {
    var ds := [Pos(2, 2), Pos(15, 15)];
    assert ds[..0] == [] && ds[..1] == [Pos(2, 2)];
    assert Qualifies(image, [], Pos(2, 2));
    assert !Suppressed([Pos(2, 2)], 15, 15);
    forall x, y | InImage(image, x, y) && !Suppressed([Pos(2, 2)], x, y)
      ensures image[x, y] <= 50
      ensures ScansBefore(Pos(x, y), Pos(15, 15)) ==> image[x, y] < 50
    {
      assert [Pos(2, 2)][0] == Pos(2, 2);
    }
    assert Qualifies(image, [Pos(2, 2)], Pos(15, 15));
    forall x, y | InImage(image, x, y) && image[x, y] >= 50
      ensures Suppressed(ds, x, y)
    {
      if x == 2 {
        assert InWindow(ds[0], x, y);
      } else {
        assert InWindow(ds[1], x, y);
      }
    }
  }

  /** The minimum and maximum of a peak image with a positive peak value. */
  lemma PeakRange(image: array2<int>, IsPeak: (int, int) -> bool, v: int, p: Pos)
    requires PeakImage(image, IsPeak, v) && 0 < v && IsPeak(p.row, p.col)
    requires 0 <= p.row < 20 && 0 <= p.col < 20 && !IsPeak(0, 0)
    ensures MinOf(image) == 0 && MaxOf(image) == v
  {
    MinOfIsMinimum(image);
    MaxOfIsMaximum(image);
    assert image[p.row, p.col] == v && image[0, 0] == 0;
  }

  /** A flat list of even length whose pairs satisfy Detects is the
      flattening of any other list that does. */
  lemma StoredList(image: array2<int>, s: seq<int>, expected: seq<Pos>, t: int)
    requires |s| % 2 == 0 && Detects(image, Pairs(s), t) && Detects(image, expected, t)
    ensures s == Flatten(expected)
  {
    DetectsUnique(image, Pairs(s), expected, t);
    FlattenOfPairs(s);
  }

  /** The flat lists of one and of two detections. */
  lemma FlattenShort(p: Pos, q: Pos)
    ensures Flatten([p]) == [p.row, p.col]
    ensures Flatten([p, q]) == [p.row, p.col, q.row, q.col]
  {
    assert [p][..0] == [] && [p, q][..1] == [p];
  }

  /** On a 20 x 20 image with a single 100 at (10, 10) the search stops,
      and the stars2 of a completed OnFinder is [10, 10]. */
  lemma SinglePeak(image: array2<int>, stars2: seq<int>)
    requires PeakImage(image, OnePeak, 100)
    requires |stars2| % 2 == 0 && Detects(image, Pairs(stars2), MaxOf(image) - MinOf(image))
    ensures Halts(image) && stars2 == [10, 10]
  {
    PeakRange(image, OnePeak, 100, Pos(10, 10));
    SinglePeakDetects(image);
    StoredList(image, stars2, [Pos(10, 10)], 100);
    FlattenShort(Pos(10, 10), Pos(10, 10));
  }

  /** On a 20 x 20 image with 50 at (2, 2) and at (15, 15) the search stops,
      and the stars2 of a completed OnFinder holds both, (2, 2) first. */
  lemma TwoPeaks(image: array2<int>, stars2: seq<int>)
    requires PeakImage(image, TwoPeak, 50)
    requires |stars2| % 2 == 0 && Detects(image, Pairs(stars2), MaxOf(image) - MinOf(image))
    ensures Halts(image) && stars2 == [2, 2, 15, 15]
  {
    PeakRange(image, TwoPeak, 50, Pos(2, 2));
    TwoPeaksDetect(image);
    StoredList(image, stars2, [Pos(2, 2), Pos(15, 15)], 50);
    FlattenShort(Pos(2, 2), Pos(15, 15));
  }
}
