/**
  The two-dimensional pixel buffers of the star finder: the whole-array
  minimum and maximum, the zero-padded working copy of the image, and the
  in-place zeroing of the 20 x 20 window around a detection, whose negative
  indices wrap around to the end of an axis as they do in numpy.
*/
module Grid {

  /** Largest of g[x, 0], ..., g[x, n-1]. */
  function RowMax(g: array2<int>, x: int, n: int): int
    reads g
    requires 0 <= x < g.Length0 && 0 < n <= g.Length1
    decreases n
  {
    if n == 1 then g[x, 0]
    else
      var m := RowMax(g, x, n - 1);
      if g[x, n - 1] > m then g[x, n - 1] else m
  }

  /** Largest pixel of rows 0, ..., rows-1. */
  function MaxRows(g: array2<int>, rows: int): int
    reads g
    requires 0 < rows <= g.Length0 && 0 < g.Length1
    decreases rows
  {
    var r := RowMax(g, rows - 1, g.Length1);
    if rows == 1 then r
    else
      var m := MaxRows(g, rows - 1);
      if r > m then r else m
  }

  /** The maximum of a non-empty array, as numpy's max() computes it. */
  function MaxOf(g: array2<int>): int
    reads g
    requires 0 < g.Length0 && 0 < g.Length1
  {
    MaxRows(g, g.Length0)
  }

  /** Smallest of g[x, 0], ..., g[x, n-1]. */
  function RowMin(g: array2<int>, x: int, n: int): int
    reads g
    requires 0 <= x < g.Length0 && 0 < n <= g.Length1
    decreases n
  {
    if n == 1 then g[x, 0]
    else
      var m := RowMin(g, x, n - 1);
      if g[x, n - 1] < m then g[x, n - 1] else m
  }

  /** Smallest pixel of rows 0, ..., rows-1. */
  function MinRows(g: array2<int>, rows: int): int
    reads g
    requires 0 < rows <= g.Length0 && 0 < g.Length1
    decreases rows
  {
    var r := RowMin(g, rows - 1, g.Length1);
    if rows == 1 then r
    else
      var m := MinRows(g, rows - 1);
      if r < m then r else m
  }

  /** The minimum of a non-empty array, as numpy's min() computes it. */
  function MinOf(g: array2<int>): int
    reads g
    requires 0 < g.Length0 && 0 < g.Length1
  {
    MinRows(g, g.Length0)
  }

  lemma {:induction false} RowMaxIsMaximum(g: array2<int>, x: int, n: int)
    requires 0 <= x < g.Length0 && 0 < n <= g.Length1
    ensures forall y :: 0 <= y < n ==> g[x, y] <= RowMax(g, x, n)
    ensures exists y :: 0 <= y < n && g[x, y] == RowMax(g, x, n)
    decreases n
  {
    if n == 1 {
      assert g[x, 0] == RowMax(g, x, 1);
    } else {
      RowMaxIsMaximum(g, x, n - 1);
      if g[x, n - 1] > RowMax(g, x, n - 1) {
        assert g[x, n - 1] == RowMax(g, x, n);
      } else {
        var y :| 0 <= y < n - 1 && g[x, y] == RowMax(g, x, n - 1);
        assert g[x, y] == RowMax(g, x, n);
      }
    }
  }

  lemma {:induction false} MaxRowsIsMaximum(g: array2<int>, rows: int)
    requires 0 < rows <= g.Length0 && 0 < g.Length1
    ensures forall x, y :: 0 <= x < rows && 0 <= y < g.Length1 ==> g[x, y] <= MaxRows(g, rows)
    ensures exists x, y :: 0 <= x < rows && 0 <= y < g.Length1 && g[x, y] == MaxRows(g, rows)
    decreases rows
  {
    RowMaxIsMaximum(g, rows - 1, g.Length1);
    if rows > 1 {
      MaxRowsIsMaximum(g, rows - 1);
    }
  }

  /** MaxOf is the maximum: no pixel exceeds it and some pixel attains it. */
  lemma MaxOfIsMaximum(g: array2<int>)
    requires 0 < g.Length0 && 0 < g.Length1
    ensures forall x, y :: 0 <= x < g.Length0 && 0 <= y < g.Length1 ==> g[x, y] <= MaxOf(g)
    ensures exists x, y :: 0 <= x < g.Length0 && 0 <= y < g.Length1 && g[x, y] == MaxOf(g)
  {
    MaxRowsIsMaximum(g, g.Length0);
  }

  lemma {:induction false} RowMinIsMinimum(g: array2<int>, x: int, n: int)
    requires 0 <= x < g.Length0 && 0 < n <= g.Length1
    ensures forall y :: 0 <= y < n ==> RowMin(g, x, n) <= g[x, y]
    ensures exists y :: 0 <= y < n && g[x, y] == RowMin(g, x, n)
    decreases n
  {
    if n == 1 {
      assert g[x, 0] == RowMin(g, x, 1);
    } else {
      RowMinIsMinimum(g, x, n - 1);
      if g[x, n - 1] < RowMin(g, x, n - 1) {
        assert g[x, n - 1] == RowMin(g, x, n);
      } else {
        var y :| 0 <= y < n - 1 && g[x, y] == RowMin(g, x, n - 1);
        assert g[x, y] == RowMin(g, x, n);
      }
    }
  }

  lemma {:induction false} MinRowsIsMinimum(g: array2<int>, rows: int)
    requires 0 < rows <= g.Length0 && 0 < g.Length1
    ensures forall x, y :: 0 <= x < rows && 0 <= y < g.Length1 ==> MinRows(g, rows) <= g[x, y]
    ensures exists x, y :: 0 <= x < rows && 0 <= y < g.Length1 && g[x, y] == MinRows(g, rows)
    decreases rows
  {
    RowMinIsMinimum(g, rows - 1, g.Length1);
    if rows > 1 {
      MinRowsIsMinimum(g, rows - 1);
    }
  }

  /** MinOf is the minimum: no pixel is below it and some pixel attains it. */
  lemma MinOfIsMinimum(g: array2<int>)
    requires 0 < g.Length0 && 0 < g.Length1
    ensures forall x, y :: 0 <= x < g.Length0 && 0 <= y < g.Length1 ==> MinOf(g) <= g[x, y]
    ensures exists x, y :: 0 <= x < g.Length0 && 0 <= y < g.Length1 && g[x, y] == MinOf(g)
  {
    MinRowsIsMinimum(g, g.Length0);
  }

  /** The working copy: the image with 10 zero rows appended below and 10
      zero columns appended on the right. Building it appends columns, then
      transposes, appends again and transposes back; the second append only
      lines up when the image is square. The image itself is left untouched. */
  method Padded(image: array2<int>) returns (c: array2<int>)
    requires image.Length0 == image.Length1
    ensures fresh(c)
    ensures c.Length0 == image.Length0 + 10 && c.Length1 == image.Length1 + 10
    ensures forall x, y :: 0 <= x < c.Length0 && 0 <= y < c.Length1 ==>
      c[x, y] == if x < image.Length0 && y < image.Length1 then image[x, y] else 0
  {
    c := new int[image.Length0 + 10, image.Length1 + 10](
      (x, y) reads image =>
        if 0 <= x < image.Length0 && 0 <= y < image.Length1 then image[x, y] else 0);
  }

  /** The cell that index t selects on an axis of length n: a negative index
      counts from the end, as in numpy. */
  function Wrap(t: int, n: int): (x: int)
    requires -n <= t < n
    ensures 0 <= x < n
  {
    if t < 0 then n + t else t
  }

  /** Index x of an axis of length n is among Wrap(center - 10 + t, n) for
      lo <= t < hi. */
  predicate HitBetween(center: int, x: int, n: int, lo: int, hi: int)
  {
    lo <= x - center + 10 < hi || lo <= x - n - center + 10 < hi
  }

  /** Index x of an axis of length n is written by the 20 offsets -10 .. +9
      around center. Inside the first n - 10 indices this is exactly the
      plain window; the offsets that go negative only ever reach the last 10
      indices, which is where the padding is. */
  function Hit(center: int, x: int, n: int): (r: bool)
    requires 0 <= center && center + 10 <= n && 0 <= x < n
    ensures x < n - 10 ==> (r <==> center - 10 <= x <= center + 9)
    ensures r && !(center - 10 <= x <= center + 9) ==> n - 10 <= x && center < 10
  {
    HitBetween(center, x, n, 0, 20)
  }

  /** Zeroes the 20 x 20 window of c around (i, j), writing
      c[i - 10 + k, j - 10 + l] for k, l in 0 .. 19 with negative indices
      wrapped. Every other cell keeps its value. */
  method Suppress(c: array2<int>, i: int, j: int)
    requires 0 <= i && i + 10 <= c.Length0 && 0 <= j && j + 10 <= c.Length1
    modifies c
    ensures forall x, y :: 0 <= x < c.Length0 && 0 <= y < c.Length1 ==>
      c[x, y] == if Hit(i, x, c.Length0) && Hit(j, y, c.Length1) then 0 else old(c[x, y])
  {
    var n0, n1 := c.Length0, c.Length1;
    for k := 0 to 20
      invariant forall x, y :: 0 <= x < n0 && 0 <= y < n1 ==>
        c[x, y] == if HitBetween(i, x, n0, 0, k) && Hit(j, y, n1) then 0 else old(c[x, y])
    {
      for l := 0 to 20
        invariant forall x, y :: 0 <= x < n0 && 0 <= y < n1 ==>
          c[x, y] == if (HitBetween(i, x, n0, 0, k) && Hit(j, y, n1))
                        || (HitBetween(i, x, n0, k, k + 1) && HitBetween(j, y, n1, 0, l))
                     then 0 else old(c[x, y])
      {
        c[Wrap(i - 10 + k, n0), Wrap(j - 10 + l, n1)] := 0;
      }
    }
  }
}
