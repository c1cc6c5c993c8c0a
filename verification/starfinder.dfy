/**
  The star finder of the viewer window: OnFinder's greedy peak search over a
  zero-padded copy of the image, and the export loop that reads the flat
  detection list back as (row, column) pairs.

  The search is specified declaratively by GreedyScan, Detects and the
  threshold max - min of the image; DetectsUnique shows that this
  specification accepts at most one detection list.
*/
module StarFinder {
  import opened Detections
  import opened Grid

  /** How a call to OnFinder ends. */
  datatype Outcome =
    | Completed
    | EmptyImage      // min() of a zero-size image raises
    | ShapeMismatch   // the second np.append only lines up for square images

  datatype Option<T> = None | Some(value: T)

  /** (x, y) is a pixel of the original image. */
  predicate InImage(image: array2<int>, x: int, y: int)
  {
    0 <= x < image.Length0 && 0 <= y < image.Length1
  }

  /** No pixel that the earlier detections left unsuppressed is brighter than p. */
  ghost predicate Brightest(image: array2<int>, earlier: seq<Pos>, p: Pos)
    reads image
    requires InImage(image, p.row, p.col)
  {
    forall x, y :: InImage(image, x, y) && !Suppressed(earlier, x, y) ==>
      image[x, y] <= image[p.row, p.col]
  }

  /** Every unsuppressed pixel that the row-major scan meets before p is
      strictly dimmer than p: p is the first pixel of its brightness found. */
  ghost predicate FirstInScan(image: array2<int>, earlier: seq<Pos>, p: Pos)
    reads image
    requires InImage(image, p.row, p.col)
  {
    forall x, y :: InImage(image, x, y) && ScansBefore(Pos(x, y), p) && !Suppressed(earlier, x, y) ==>
      image[x, y] < image[p.row, p.col]
  }

  /** p is a valid next detection after the detections earlier: a pixel of
      the image outside their windows, at least as bright as every pixel they
      leave unsuppressed, and the first such pixel in row-major order. */
  ghost predicate Qualifies(image: array2<int>, earlier: seq<Pos>, p: Pos)
    reads image
  {
    InImage(image, p.row, p.col) &&
    !Suppressed(earlier, p.row, p.col) &&
    Brightest(image, earlier, p) &&
    FirstInScan(image, earlier, p)
  }

  /** ds is a greedy scan: every detection qualifies given the ones before it. */
  ghost predicate GreedyScan(image: array2<int>, ds: seq<Pos>)
    reads image
    decreases |ds|
  {
    ds == [] ||
    (GreedyScan(image, ds[..|ds| - 1]) && Qualifies(image, ds[..|ds| - 1], ds[|ds| - 1]))
  }

  /** The detections ds are a greedy scan of pixels at least t bright. */
  ghost predicate Found(image: array2<int>, ds: seq<Pos>, t: int)
    reads image
  {
    GreedyScan(image, ds) &&
    forall k :: 0 <= k < |ds| ==> InImage(image, ds[k].row, ds[k].col) && image[ds[k].row, ds[k].col] >= t
  }

  /** ds is what the search reports for threshold t: a greedy scan whose
      every detection is at least t bright and after which every pixel at
      least t bright is suppressed. */
  ghost predicate Detects(image: array2<int>, ds: seq<Pos>, t: int)
    reads image
  {
    Found(image, ds, t) &&
    forall x, y :: InImage(image, x, y) && image[x, y] >= t ==> Suppressed(ds, x, y)
  }

  /** What a buffer cell holds once the detections ds have been suppressed:
      the image value inside the image and outside every window, else 0. */
  ghost function Expected(image: array2<int>, ds: seq<Pos>, x: int, y: int): int
    reads image
  {
    if InImage(image, x, y) && !Suppressed(ds, x, y) then image[x, y] else 0
  }

  /** The working buffer is the image padded with zero rows and columns, with
      the window of every detection zeroed and nothing else changed. */
  ghost predicate Masks(c: array2<int>, image: array2<int>, ds: seq<Pos>)
    reads c, image
  {
    c.Length0 == image.Length0 + 10 && c.Length1 == image.Length1 + 10 &&
    forall x, y :: 0 <= x < c.Length0 && 0 <= y < c.Length1 ==> c[x, y] == Expected(image, ds, x, y)
  }

  /** The search stops: it does unless the image is square, non-empty and
      flat with a non-negative value (then the threshold is 0, which the zero
      padding always reaches). */
  predicate Halts(image: array2<int>)
    reads image
  {
    0 < image.Length0 && 0 < image.Length1 && image.Length0 == image.Length1 ==>
      MinOf(image) < 0 || MinOf(image) < MaxOf(image)
  }

  /** The application window, reduced to the state the finder and the export
      use: the loaded image and the flat list of detected coordinates. */
  class Frame {
    var imageData: array2<int>
    /** [r0, c0, r1, c1, ...] in detection order. */
    var stars2: seq<int>
    /** Whether stars2 exists yet: it is first assigned by OnFinder. */
    var searched: bool

    /** A window on which an image has been opened. */
    constructor (image: array2<int>)
      ensures imageData == image && !searched
    {
      imageData := image;
      stars2 := [];
      searched := false;
    }

    /** One pass of the search loop: scans the original a x b region in
        row-major order, records every pixel that still equals maxim and
        zeroes its window at once, so later pixels of the pass inside that
        window are read as 0. Afterwards every pixel still unsuppressed is
        below maxim. */
    method ScanPass(c: array2<int>, maxim: int, ghost t: int, ghost found: seq<Pos>)
      returns (ghost found': seq<Pos>)
      requires c != imageData && 0 < t <= maxim
      requires Searching(c, imageData, found, maxim, t) && stars2 == Flatten(found)
      modifies this`stars2, c
      ensures Scanned(c, imageData, found', maxim, t) && stars2 == Flatten(found')
      ensures |found| <= |found'| && found'[..|found|] == found
      ensures forall k :: |found| <= k < |found'| ==>
        InImage(imageData, found'[k].row, found'[k].col) && imageData[found'[k].row, found'[k].col] == maxim
    {
      var a, b := imageData.Length0, imageData.Length1;
      found' := found;
      PassStarts(c, imageData, found, maxim, t);
      for i := 0 to a
        invariant Scanning(c, imageData, t, found, found', maxim, Pos(i, 0))
        invariant stars2 == Flatten(found')
      {
        found' := ScanRow(c, i, maxim, t, found, found');
      }
      PassDone(c, imageData, t, found, found', maxim);
    }

    /** Row i of a pass: visits its pixels from left to right. */
    method ScanRow(c: array2<int>, i: int, maxim: int, ghost t: int, ghost start: seq<Pos>, ghost ds: seq<Pos>)
      returns (ghost ds': seq<Pos>)
      requires c != imageData && 0 <= i < imageData.Length0
      requires Scanning(c, imageData, t, start, ds, maxim, Pos(i, 0)) && stars2 == Flatten(ds)
      modifies this`stars2, c
      ensures Scanning(c, imageData, t, start, ds', maxim, Pos(i + 1, 0)) && stars2 == Flatten(ds')
      ensures ExtendsInRow(ds, ds', i)
    {
      ds' := ds;
      for j := 0 to imageData.Length1
        invariant Scanning(c, imageData, t, start, ds', maxim, Pos(i, j))
        invariant stars2 == Flatten(ds')
        invariant ExtendsInRow(ds, ds', i)
      {
        ds' := VisitInRow(c, i, j, maxim, t, start, ds, ds');
      }
      NextRow(c, imageData, t, start, ds', maxim, i);
    }

    /** The visit of pixel (i, j) during a pass: if its buffer cell still
        equals maxim, its coordinates are appended to stars2 and its window
        is zeroed. Since the buffer masks the detections so far, that is the
        case exactly when (i, j) is unsuppressed and equal to maxim in the
        image; no other detection is added. */
    method Visit(c: array2<int>, i: int, j: int, maxim: int, ghost t: int, ghost start: seq<Pos>, ghost ds: seq<Pos>)
      returns (ghost ds': seq<Pos>)
      requires c != imageData && InImage(imageData, i, j)
      requires Scanning(c, imageData, t, start, ds, maxim, Pos(i, j))
      requires stars2 == Flatten(ds)
      modifies this`stars2, c
      ensures Scanning(c, imageData, t, start, ds', maxim, Pos(i, j + 1))
      ensures stars2 == Flatten(ds')
      ensures ds' == if !Suppressed(ds, i, j) && imageData[i, j] == maxim then ds + [Pos(i, j)] else ds
    {
      ds' := ds;
      var v := c[i, j];
      if v == maxim {
        Take(c, i, j, maxim, t, start, ds);
        ds' := ds + [Pos(i, j)];
      } else {
        PixelSkipped(imageData, t, start, ds, maxim, i, j);
      }
    }

    /** A proof step of the row loop, with no code of its own: the visit of
        (i, j) as its row sees it, where the detections since the start of
        the row stay in row i. */
    method VisitInRow(c: array2<int>, i: int, j: int, maxim: int, ghost t: int, ghost start: seq<Pos>,
                      ghost rowStart: seq<Pos>, ghost ds: seq<Pos>)
      returns (ghost ds': seq<Pos>)
      requires c != imageData && InImage(imageData, i, j)
      requires Scanning(c, imageData, t, start, ds, maxim, Pos(i, j))
      requires stars2 == Flatten(ds) && ExtendsInRow(rowStart, ds, i)
      modifies this`stars2, c
      ensures Scanning(c, imageData, t, start, ds', maxim, Pos(i, j + 1))
      ensures stars2 == Flatten(ds') && ExtendsInRow(rowStart, ds', i)
    {
      ghost var hit := !Suppressed(ds, i, j) && imageData[i, j] == maxim;
      ds' := Visit(c, i, j, maxim, t, start, ds);
      RowStep(rowStart, ds, ds', i, j, hit);
    }

    /** Recording pixel (i, j), which still equals maxim: its row and column
        are appended to stars2 and its window is zeroed. */
    method Take(c: array2<int>, i: int, j: int, maxim: int, ghost t: int, ghost start: seq<Pos>, ghost ds: seq<Pos>)
      requires c != imageData && InImage(imageData, i, j)
      requires Scanning(c, imageData, t, start, ds, maxim, Pos(i, j)) && c[i, j] == maxim
      requires stars2 == Flatten(ds)
      modifies this`stars2, c
      ensures Scanning(c, imageData, t, start, ds + [Pos(i, j)], maxim, Pos(i, j + 1))
      ensures stars2 == Flatten(ds + [Pos(i, j)])
    {
      stars2 := stars2 + [i, j];
      Detected(imageData, t, start, ds, maxim, i, j);
      Record(c, imageData, ds, i, j);
    }

    /** The star finder. On a non-empty square image it records, in the
        order found, every pixel that Detects singles out for the threshold
        max - min; on any other image it raises before touching stars2. */
    method OnFinder() returns (outcome: Outcome)
      requires Halts(imageData)
      modifies this`stars2, this`searched
      ensures outcome == EmptyImage <==> imageData.Length0 == 0 || imageData.Length1 == 0
      ensures outcome == ShapeMismatch <==>
        0 < imageData.Length0 && 0 < imageData.Length1 && imageData.Length0 != imageData.Length1
      ensures outcome != Completed ==> stars2 == old(stars2) && searched == old(searched)
      ensures outcome == Completed ==>
        searched && |stars2| % 2 == 0 &&
        Detects(imageData, Pairs(stars2), old(MaxOf(imageData) - MinOf(imageData)))
      ensures outcome == Completed && old(MinOf(imageData)) < 0 ==> stars2 == []
    {
      var image := imageData;
      var a, b := image.Length0, image.Length1;
      if a == 0 || b == 0 {
        return EmptyImage;
      }
      var mini := MinOf(image);
      var maxi := MaxOf(image);
      if a != b {
        return ShapeMismatch;
      }
      var c := Padded(image);
      PaddedMasks(c, image, maxi - mini);
      ghost var found := Search(c, mini, maxi);
      PairsOfFlatten(found);
      assert Pairs(stars2) == found && |stars2| == 2 * |found|;
      outcome := Completed;
    }

    /** The search of OnFinder on the padded buffer c: starts a fresh stars2
        and passes with the current buffer maximum while it reaches the
        threshold max - min. Each pass strictly lowers the maximum, so the
        loop ends unless the threshold is 0 and the zero padding keeps the
        maximum at it. */
    method Search(c: array2<int>, mini: int, maxi: int) returns (ghost found: seq<Pos>)
      requires c != imageData && 0 < imageData.Length0 && 0 < imageData.Length1
      requires Searching(c, imageData, [], maxi, maxi - mini) && (mini < 0 || mini < maxi)
      modifies this`stars2, this`searched, c
      ensures searched && stars2 == Flatten(found) && Detects(imageData, found, maxi - mini)
      ensures mini < 0 ==> found == []
    {
      var maxim := maxi;
      stars2 := [];
      searched := true;
      found := [];
      while maxim >= maxi - mini
        invariant Searching(c, imageData, found, maxim, maxi - mini) && stars2 == Flatten(found)
        invariant maxim <= maxi
        invariant found != [] ==> 0 <= mini
        invariant searched
        decreases maxim
      {
        found := ScanPass(c, maxim, maxi - mini, found);
        NextMaximum(c, imageData, found, maxim, maxi - mini);
        maxim := MaxOf(c);
      }
      SearchEnds(c, imageData, found, maxim, maxi - mini);
    }

    /** The export loop: reads stars2 back as (row, column) pairs with
        indices 2*i and 2*i+1 for i below len/2. Before any search stars2
        does not exist and the export fails. */
    method OnExport() returns (records: Option<seq<Pos>>)
      ensures records == None <==> !searched
      ensures searched ==> records == Some(Pairs(stars2))
    {
      if !searched {
        return None;
      }
      var rows: seq<Pos> := [];
      for i := 0 to |stars2| / 2
        invariant rows == Pairs(stars2)[..i]
      {
        rows := rows + [Pos(stars2[2 * i], stars2[2 * i + 1])];
      }
      assert rows == Pairs(stars2);
      return Some(rows);
    }
  }

  /** ds' is ds followed by detections in row i only. */
  ghost predicate ExtendsInRow(ds: seq<Pos>, ds': seq<Pos>, i: int)
    decreases |ds'|
  {
    ds' == ds ||
    (|ds| < |ds'| && ds'[|ds'| - 1].row == i && ExtendsInRow(ds, ds'[..|ds'| - 1], i))
  }

  /** What a row adds to the detections: ds stays a prefix, and every later
      detection lies in row i. */
  lemma {:induction false} ExtendsInRowMeans(ds: seq<Pos>, ds': seq<Pos>, i: int)
    requires ExtendsInRow(ds, ds', i)
    ensures |ds| <= |ds'| && ds'[..|ds|] == ds
    ensures forall k :: |ds| <= k < |ds'| ==> ds'[k].row == i
    decreases |ds'|
  {
    if ds' != ds {
      var init := ds'[..|ds'| - 1];
      ExtendsInRowMeans(ds, init, i);
      assert ds'[..|ds|] == init[..|ds|];
      forall k | |ds| <= k < |ds'|
        ensures ds'[k].row == i
      {
        if k < |init| {
          assert ds'[k] == init[k];
        }
      }
    }
  }

  /** Visiting pixel (i, j), which appends it when hit and nothing
      otherwise, keeps the detections of the row in row i. */
  lemma RowStep(ds: seq<Pos>, before: seq<Pos>, after: seq<Pos>, i: int, j: int, hit: bool)
    requires ExtendsInRow(ds, before, i)
    requires after == if hit then before + [Pos(i, j)] else before
    ensures ExtendsInRow(ds, after, i)
  {
    if hit {
      ExtendsInRowMeans(ds, before, i);
      assert after[..|after| - 1] == before;
    }
  }

  /** No pixel left unsuppressed by ds is brighter than m. */
  ghost predicate Below(image: array2<int>, ds: seq<Pos>, m: int)
    reads image
  {
    forall x, y :: InImage(image, x, y) && !Suppressed(ds, x, y) ==> image[x, y] <= m
  }

  /** The state at the head of the search loop for threshold t: the buffer
      masks the detections, they are found at threshold t, and maxim bounds
      every pixel still unsuppressed. */
  ghost predicate Searching(c: array2<int>, image: array2<int>, found: seq<Pos>, maxim: int, t: int)
    reads c, image
  {
    Masks(c, image, found) && Found(image, found, t) && Below(image, found, maxim)
  }

  /** The state after a pass with maxim: as Searching, except that every
      pixel still unsuppressed is now strictly below maxim. */
  ghost predicate Scanned(c: array2<int>, image: array2<int>, found: seq<Pos>, maxim: int, t: int)
    reads c, image
  {
    0 < maxim && Masks(c, image, found) && Found(image, found, t) && Below(image, found, maxim - 1)
  }

  /** The detections of a pass with maxim that has visited every pixel of
      the image before pos in row-major order: start was the detection list
      when the pass began, ds extends it with pixels equal to maxim, no
      unsuppressed pixel exceeds maxim, and every visited one is below it. */
  ghost predicate ScanState(image: array2<int>, t: int, start: seq<Pos>, ds: seq<Pos>, maxim: int, pos: Pos)
    reads image
  {
    0 < t <= maxim && Found(image, ds, t) && Below(image, ds, maxim) &&
    |start| <= |ds| && ds[..|start|] == start &&
    (forall k :: |start| <= k < |ds| ==> image[ds[k].row, ds[k].col] == maxim) &&
    (forall x, y :: InImage(image, x, y) && ScansBefore(Pos(x, y), pos) && !Suppressed(ds, x, y) ==>
      image[x, y] < maxim)
  }

  /** The buffer during a pass: it masks the detections so far, which are in
      the scan state for pos. */
  ghost predicate Scanning(c: array2<int>, image: array2<int>, t: int, start: seq<Pos>, ds: seq<Pos>, maxim: int, pos: Pos)
    reads c, image
  {
    Masks(c, image, ds) && ScanState(image, t, start, ds, maxim, pos)
  }

  /** The pixel (i, j) that a pass finds still equal to maxim is the next
      detection of the greedy scan, and the scan moves on past it. */
  lemma Detected(image: array2<int>, t: int, start: seq<Pos>, ds: seq<Pos>, maxim: int, i: int, j: int)
    requires ScanState(image, t, start, ds, maxim, Pos(i, j))
    requires InImage(image, i, j) && Expected(image, ds, i, j) == maxim
    ensures ScanState(image, t, start, ds + [Pos(i, j)], maxim, Pos(i, j + 1))
  {
    var p := Pos(i, j);
    var ds' := ds + [p];
    assert !Suppressed(ds, i, j) && image[i, j] == maxim;
    assert ds'[..|ds|] == ds && ds'[|ds|] == p;
    assert Qualifies(image, ds, p);
    forall k | 0 <= k < |ds'|
      ensures InImage(image, ds'[k].row, ds'[k].col) && image[ds'[k].row, ds'[k].col] >= t
      ensures k >= |start| ==> image[ds'[k].row, ds'[k].col] == maxim
    {
      if k < |ds| {
        assert ds'[k] == ds[k];
      }
    }
    assert ds'[..|start|] == start;
    forall x, y | InImage(image, x, y) && !Suppressed(ds', x, y)
      ensures image[x, y] <= maxim
      ensures ScansBefore(Pos(x, y), Pos(i, j + 1)) ==> image[x, y] < maxim
    {
      SuppressedAppend(ds, p, x, y);
    }
  }

  /** Zeroing the window of (i, j) turns the buffer for ds into the buffer
      for ds + [(i, j)]: inside the image the written cells are exactly the
      window, and the wrapped writes land in the padding, which is 0 anyway. */
  lemma WindowZeroed(image: array2<int>, ds: seq<Pos>, i: int, j: int, x: int, y: int)
    requires InImage(image, i, j)
    requires 0 <= x < image.Length0 + 10 && 0 <= y < image.Length1 + 10
    ensures Expected(image, ds + [Pos(i, j)], x, y) ==
      if Hit(i, x, image.Length0 + 10) && Hit(j, y, image.Length1 + 10) then 0 else Expected(image, ds, x, y)
  {
    SuppressedAppend(ds, Pos(i, j), x, y);
  }

  /** Zeroing the window of a new detection (i, j) in the buffer for ds
      gives the buffer for ds + [(i, j)]. */
  method Record(c: array2<int>, image: array2<int>, ghost ds: seq<Pos>, i: int, j: int)
    requires c != image && Masks(c, image, ds) && InImage(image, i, j)
    modifies c
    ensures Masks(c, image, ds + [Pos(i, j)])
  {
    Suppress(c, i, j);
    forall x, y | 0 <= x < c.Length0 && 0 <= y < c.Length1
      ensures c[x, y] == Expected(image, ds + [Pos(i, j)], x, y)
    {
      WindowZeroed(image, ds, i, j, x, y);
    }
  }

  /** The freshly padded buffer is the mask of no detections. */
  lemma PaddedMasks(c: array2<int>, image: array2<int>, t: int)
    requires c.Length0 == image.Length0 + 10 && c.Length1 == image.Length1 + 10
    requires forall x, y :: 0 <= x < c.Length0 && 0 <= y < c.Length1 ==>
      c[x, y] == if x < image.Length0 && y < image.Length1 then image[x, y] else 0
    requires 0 < image.Length0 && 0 < image.Length1
    ensures Searching(c, image, [], MaxOf(image), t)
  {
    MaxOfIsMaximum(image);
  }

  /** A pass starts with nothing visited. */
  lemma PassStarts(c: array2<int>, image: array2<int>, found: seq<Pos>, maxim: int, t: int)
    requires Searching(c, image, found, maxim, t) && 0 < t <= maxim
    ensures Scanning(c, image, t, found, found, maxim, Pos(0, 0))
  {
    assert found[..|found|] == found;
  }

  /** Visiting a pixel whose buffer cell is not maxim only moves the scan on. */
  lemma PixelSkipped(image: array2<int>, t: int, start: seq<Pos>, ds: seq<Pos>, maxim: int, i: int, j: int)
    requires ScanState(image, t, start, ds, maxim, Pos(i, j))
    requires InImage(image, i, j) && Expected(image, ds, i, j) != maxim
    ensures ScanState(image, t, start, ds, maxim, Pos(i, j + 1))
  {
    forall x, y | InImage(image, x, y) && ScansBefore(Pos(x, y), Pos(i, j + 1)) && !Suppressed(ds, x, y)
      ensures image[x, y] < maxim
    {
      if !(x == i && y == j) {
        assert ScansBefore(Pos(x, y), Pos(i, j));
      }
    }
  }

  /** Finishing row i is reaching the start of row i + 1. */
  lemma NextRow(c: array2<int>, image: array2<int>, t: int, start: seq<Pos>, ds: seq<Pos>, maxim: int, i: int)
    requires Scanning(c, image, t, start, ds, maxim, Pos(i, image.Length1))
    ensures Scanning(c, image, t, start, ds, maxim, Pos(i + 1, 0))
  {
  }

  /** After the last row every unsuppressed pixel is below maxim. */
  lemma PassDone(c: array2<int>, image: array2<int>, t: int, start: seq<Pos>, ds: seq<Pos>, maxim: int)
    requires Scanning(c, image, t, start, ds, maxim, Pos(image.Length0, 0))
    ensures Scanned(c, image, ds, maxim, t)
    ensures |start| <= |ds| && ds[..|start|] == start
    ensures forall k :: |start| <= k < |ds| ==>
      InImage(image, ds[k].row, ds[k].col) && image[ds[k].row, ds[k].col] == maxim
  {
  }

  /** After a pass the buffer maximum is below the pass's maxim, so the
      search makes progress. */
  lemma NextMaximum(c: array2<int>, image: array2<int>, ds: seq<Pos>, maxim: int, t: int)
    requires Scanned(c, image, ds, maxim, t) && 0 < image.Length0 && 0 < image.Length1
    ensures MaxOf(c) < maxim
    ensures Searching(c, image, ds, MaxOf(c), t)
  {
    MaxOfIsMaximum(c);
    var m := MaxOf(c);
    var x, y :| 0 <= x < c.Length0 && 0 <= y < c.Length1 && c[x, y] == m;
    assert c[x, y] == Expected(image, ds, x, y);
    forall x', y' | InImage(image, x', y') && !Suppressed(ds, x', y')
      ensures image[x', y'] <= m
    {
      assert c[x', y'] == Expected(image, ds, x', y');
    }
  }

  /** When the buffer maximum falls below the threshold, the detections made
      so far are exactly what Detects asks for: every pixel of the image at
      least t bright lies in some detection's window. */
  lemma SearchEnds(c: array2<int>, image: array2<int>, found: seq<Pos>, maxim: int, t: int)
    requires Searching(c, image, found, maxim, t) && maxim < t
    ensures Detects(image, found, t)
  {
  }
}
