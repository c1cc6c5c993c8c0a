/**
  What the declarative specification of the star finder implies about the
  list it produces: the list is determined by the image and the threshold,
  it comes out brightest first and in scan order among equals, no detection
  lies in the window of an earlier one, and on a flat non-negative image the
  search never stops.
*/
module Properties {
  import opened Detections
  import opened Grid
  import opened StarFinder

  /** Every detection of a greedy scan qualifies given the detections
      before it. */
  lemma {:induction false} GreedyScanAt(image: array2<int>, ds: seq<Pos>, k: int)
    requires GreedyScan(image, ds) && 0 <= k < |ds|
    ensures Qualifies(image, ds[..k], ds[k])
    decreases |ds|
  {
    var n := |ds| - 1;
    if k < n {
      GreedyScanAt(image, ds[..n], k);
      assert ds[..n][..k] == ds[..k] && ds[..n][k] == ds[k];
    }
  }

  /** Given the same earlier detections, at most one pixel qualifies next:
      both candidates are as bright as each other, and neither can come
      before the other in the scan. */
  lemma NextAgrees(image: array2<int>, earlier: seq<Pos>, earlier': seq<Pos>, p: Pos, q: Pos)
    requires earlier == earlier'
    requires Qualifies(image, earlier, p) && Qualifies(image, earlier', q)
    ensures p == q
  {
    assert image[p.row, p.col] == image[q.row, q.col];
    assert !ScansBefore(p, q) && !ScansBefore(q, p);
  }

  /** Two greedy scans agree on their first n detections. */
  lemma {:induction false} AgreeUpTo(image: array2<int>, ds: seq<Pos>, es: seq<Pos>, n: int)
    requires GreedyScan(image, ds) && GreedyScan(image, es)
    requires 0 <= n <= |ds| && n <= |es|
    ensures ds[..n] == es[..n]
    decreases n
  {
    if n > 0 {
      AgreeUpTo(image, ds, es, n - 1);
      GreedyScanAt(image, ds, n - 1);
      GreedyScanAt(image, es, n - 1);
      NextAgrees(image, ds[..n - 1], es[..n - 1], ds[n - 1], es[n - 1]);
      PrefixStep(ds, es, n);
    }
  }

  /** Prefixes that agree and are followed by the same element still agree
      one element further on. */
  lemma PrefixStep(ds: seq<Pos>, es: seq<Pos>, n: int)
    requires 0 < n <= |ds| && n <= |es|
    requires ds[..n - 1] == es[..n - 1] && ds[n - 1] == es[n - 1]
    ensures ds[..n] == es[..n]
  {
    assert ds[..n] == ds[..n - 1] + [ds[n - 1]];
    assert es[..n] == es[..n - 1] + [es[n - 1]];
  }

  /** The specification of the finder leaves no freedom: for a given image
      and threshold Detects accepts at most one detection list. A longer list would need a next detection outside every
      window of the shorter one, and the shorter one already covers every
      pixel that bright. */
  lemma DetectsUnique(image: array2<int>, ds: seq<Pos>, es: seq<Pos>, t: int)
    requires Detects(image, ds, t) && Detects(image, es, t)
    ensures ds == es
  {
    ShorterCovers(image, ds, es, t);
    ShorterCovers(image, es, ds, t);
    AgreeUpTo(image, ds, es, |ds|);
    assert ds[..|ds|] == ds && es[..|es|] == es;
  }

  /** A list that Detects accepts is not a proper prefix of another greedy
      scan at the same threshold. */
  lemma ShorterCovers(image: array2<int>, ds: seq<Pos>, es: seq<Pos>, t: int)
    requires Detects(image, ds, t) && Found(image, es, t)
    ensures |es| <= |ds|
  {
    if |ds| < |es| {
      AgreeUpTo(image, ds, es, |ds|);
      assert ds[..|ds|] == ds;
      var q := es[|ds|];
      assert InImage(image, q.row, q.col) && image[q.row, q.col] >= t;
      assert Suppressed(ds, q.row, q.col);
      GreedyScanAt(image, es, |ds|);
      assert false;
    }
  }

  /** The order in which detections come out: never brighter than an
      earlier one, after it in the row-major scan when equally bright, and
      never inside an earlier detection's window. */
  lemma DetectionOrder(image: array2<int>, ds: seq<Pos>, t: int, k: int, l: int)
    requires Found(image, ds, t) && 0 <= k < l < |ds|
    ensures image[ds[l].row, ds[l].col] <= image[ds[k].row, ds[k].col]
    ensures image[ds[l].row, ds[l].col] == image[ds[k].row, ds[k].col] ==> ScansBefore(ds[k], ds[l])
    ensures !InWindow(ds[k], ds[l].row, ds[l].col)
  {
    GreedyScanAt(image, ds, k);
    GreedyScanAt(image, ds, l);
    var p, q := ds[k], ds[l];
    assert ds[..l][k] == p;
    assert !InWindow(p, q.row, q.col);
    forall m | 0 <= m < k
      ensures !InWindow(ds[..k][m], q.row, q.col)
    {
      assert ds[..l][m] == ds[..k][m];
    }
    assert image[q.row, q.col] <= image[p.row, p.col];
    if image[q.row, q.col] == image[p.row, p.col] {
      assert !ScansBefore(q, p);
      assert p != q by {
        assert InWindow(p, p.row, p.col);
      }
    }
  }

  /** Zeroing only lowers values when the image is non-negative, which it is
      whenever the search loop runs (its guard needs min >= 0): a new
      detection never raises a cell of the buffer. */
  lemma ZeroingNeverRaises(image: array2<int>, ds: seq<Pos>, p: Pos, x: int, y: int)
    requires forall u, v :: InImage(image, u, v) ==> 0 <= image[u, v]
    ensures Expected(image, ds + [p], x, y) <= Expected(image, ds, x, y)
  {
    SuppressedAppend(ds, p, x, y);
  }

  /** On a flat image whose value is not negative the threshold is 0, and
      the zero padding keeps the buffer maximum at 0 or more whatever has
      been suppressed: the loop guard never fails, so the search does not
      stop. */
  lemma FlatImageNeverExits(c: array2<int>, image: array2<int>, ds: seq<Pos>)
    requires 0 < image.Length0 && 0 < image.Length1
    requires Masks(c, image, ds) && MinOf(image) == MaxOf(image)
    ensures MaxOf(c) >= MaxOf(image) - MinOf(image)
  {
    MaxOfIsMaximum(c);
    assert c[image.Length0, 0] == Expected(image, ds, image.Length0, 0);
  }
}
