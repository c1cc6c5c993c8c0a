/**
  The detection list of the star finder.

  OnFinder records each detected pixel by appending its row and then its
  column to one flat list, and OnExport reads that list back two numbers at a
  time. This module gives the flat list its meaning (a sequence of positions),
  proves that reading it back in pairs recovers exactly the appended
  positions, and defines the 20 x 20 window that every detection suppresses.
*/
module Detections {

  /** A detected pixel, as (row, column) in the original image. */
  datatype Pos = Pos(row: int, col: int)

  /** The flat list [r0, c0, r1, c1, ...] that appending each detection builds. */
  function Flatten(ps: seq<Pos>): (s: seq<int>)
    ensures |s| == 2 * |ps|
    decreases |ps|
  {
    if ps == [] then []
    else Flatten(ps[..|ps| - 1]) + [ps[|ps| - 1].row, ps[|ps| - 1].col]
  }

  /** Reading a flat list back two numbers at a time, as the export loop does
      with indices 2*i and 2*i+1 for i below len/2 (a trailing odd element is
      never read). */
  function Pairs(s: seq<int>): seq<Pos>
  {
    seq(|s| / 2, k requires 0 <= k < |s| / 2 => Pos(s[2 * k], s[2 * k + 1]))
  }

  /** Position k of the detections sits at indices 2k and 2k+1 of the flat list. */
  lemma {:induction false} FlattenAt(ps: seq<Pos>, k: int)
    requires 0 <= k < |ps|
    ensures Flatten(ps)[2 * k] == ps[k].row && Flatten(ps)[2 * k + 1] == ps[k].col
    decreases |ps|
  {
    var init := ps[..|ps| - 1];
    if k < |ps| - 1 {
      FlattenAt(init, k);
      assert init[k] == ps[k];
    }
  }

  /** Reading back the flat list recovers the detections, in order. */
  lemma PairsOfFlatten(ps: seq<Pos>)
    ensures Pairs(Flatten(ps)) == ps
  {
    var s := Flatten(ps);
    assert |Pairs(s)| == |ps|;
    forall k | 0 <= k < |ps|
      ensures Pairs(s)[k] == ps[k]
    {
      FlattenAt(ps, k);
    }
  }

  /** Conversely, every flat list of even length is the flattening of its pairs. */
  lemma FlattenOfPairs(s: seq<int>)
    requires |s| % 2 == 0
    ensures Flatten(Pairs(s)) == s
  {
    var ps := Pairs(s);
    var f := Flatten(ps);
    assert |f| == |s|;
    forall i | 0 <= i < |s|
      ensures f[i] == s[i]
    {
      var k := i / 2;
      FlattenAt(ps, k);
      assert i == 2 * k || i == 2 * k + 1;
    }
  }

  /** Pixel (x, y) of the original image lies in the 20 x 20 window that the
      detection at p zeroes: rows p.row-10 .. p.row+9, columns p.col-10 .. p.col+9. */
  predicate InWindow(p: Pos, x: int, y: int)
  {
    p.row - 10 <= x <= p.row + 9 && p.col - 10 <= y <= p.col + 9
  }

  /** Some detection of ds has zeroed pixel (x, y). */
  predicate Suppressed(ds: seq<Pos>, x: int, y: int)
  {
    exists k :: 0 <= k < |ds| && InWindow(ds[k], x, y)
  }

  /** A new detection adds exactly its own window to the suppressed pixels. */
  lemma SuppressedAppend(ds: seq<Pos>, p: Pos, x: int, y: int)
    ensures Suppressed(ds + [p], x, y) <==> Suppressed(ds, x, y) || InWindow(p, x, y)
  {
    var ds' := ds + [p];
    if Suppressed(ds, x, y) {
      var k :| 0 <= k < |ds| && InWindow(ds[k], x, y);
      assert ds'[k] == ds[k];
    }
    if InWindow(p, x, y) {
      assert ds'[|ds|] == p;
    }
    if Suppressed(ds', x, y) {
      var k :| 0 <= k < |ds'| && InWindow(ds'[k], x, y);
      if k < |ds| {
        assert ds'[k] == ds[k];
      }
    }
  }

  /** p comes strictly before q in the row-major order of the scan. */
  predicate ScansBefore(p: Pos, q: Pos)
  {
    p.row < q.row || (p.row == q.row && p.col < q.col)
  }
}
