# starfinder in Dafny

A model of the star finder of the `starfinder` FITS viewer: the window
method `Frame.OnFinder`, which picks the bright peaks of a loaded image by
greedy non-maximum suppression, and the pairing loop of `Frame.OnExport`,
which reads the detections back as (row, column) pairs.

The finder works like this:
- it takes the minimum and maximum of the image;
- it builds a working copy padded with 10 zero rows and 10 zero columns;
- while the buffer maximum `maxim` is at least `max - min`, it scans the
  original region row by row.

During a scan, every pixel that still equals `maxim` has its row and column
appended to the flat list `stars2`. The 20 x 20 window around that pixel is
then zeroed at once, so later pixels of the same pass inside the window read
as 0. Negative window indices wrap round to the end of an axis, as numpy
indexing does, and so land in the padding. After each pass the maximum is
taken again over the whole padded buffer.

Files:
- `detections.dfy`, module `Detections`:
  - the flat detection list and its reading in pairs (`Flatten`, `Pairs`) and
    the proofs that the two are inverse;
  - the window that a detection zeroes.
- `grid.dfy`, module `Grid`:
  - numpy's `min()`/`max()` over a 2-D array and their characterisation as
    minimum and maximum;
  - the padded working copy;
  - numpy's negative-index wrap-around;
  - the in-place zeroing of one window (`Suppress`, two nested loops).
- `starfinder.dfy`, module `StarFinder`:
  - the `Frame` class with fields `imageData`, `stars2` and `searched`;
  - `OnFinder` and its loops (`Search`, `ScanPass`, `ScanRow`, `Visit`,
    `Take`) and `OnExport`;
  - the declarative specification of the search and the loop lemmas.
- `properties.dfy`, module `Properties`: what the specification implies. At
  most one list satisfies it for a given image and threshold. It is ordered
  brightest-first and then in scan order, and no detection lies in an earlier
  window. On a non-negative image, the only kind the loop runs on,
  zeroing never raises a value; on a flat image with a non-negative value
  the loop guard never fails.
- `scenarios.dfy`, module `Scenarios`: two 20 x 20 images and the `stars2`
  that a completed `OnFinder` leaves for each.

### The specification of the search

`Qualifies(image, earlier, p)` holds when pixel `p` is a valid next
detection after the detections `earlier`:
- it is in the image;
- it lies outside every earlier window;
- it is at least as bright as every pixel still unsuppressed;
- it is the first such pixel in row-major order.

The other predicates build on it:
- `GreedyScan` holds when every detection qualifies given the ones before it.
- `Detects(image, ds, t)` holds when `ds` is a greedy scan of pixels at least
  `t` bright after which every pixel at least `t` bright is suppressed.

`OnFinder` promises `Detects(image, Pairs(stars2), max - min)`, and
`Properties.DetectsUnique` shows that at most one list satisfies it. Together
these pin down the result completely.

The buffer is tied to the specification by `Masks`. Each cell of the buffer
holds the image value when it is inside the image and outside every window
so far, and 0 otherwise. This also states that the padding is 0 and stays 0,
and that the image itself is never written: `OnFinder` does not list
`imageData` in its `modifies` clause.

### Flat images

Take a non-empty square image whose pixels all equal one non-negative value.
On such an image the search never ends:
- the threshold `maxi - mini` is 0;
- the maximum over the padded buffer is never below 0, because the padding
  stays 0;
- so the loop guard `maxim >= maxi - mini` (`__main__.py:109`) never fails.

`OnFinder` requires `Halts(imageData)`, which excludes exactly these images.
`Properties.FlatImageNeverExits` proves that on such an image the guard holds
for every buffer that is the padded image with some detections' windows
zeroed. A flat image with a negative value
does not diverge: its threshold 0 is above the maximum, so the loop never
starts and `stars2` stays empty.

## Model

| member | source | states |
|---|---|---|
| StarFinder.Frame.OnFinder | __main__.py:96-119 | An empty image ends in EmptyImage and a non-empty non-square one in ShapeMismatch, both with stars2 unchanged. Otherwise stars2 has even length and its pairs are exactly the detections that Detects demands for threshold max - min; a negative minimum leaves stars2 empty |
| StarFinder.Frame.Search | __main__.py:107-119 | Starting from the padded buffer, the threshold loop ends with stars2 the flattening of a list satisfying Detects for max - min, empty when the minimum is negative; the loop variant is the buffer maximum |
| StarFinder.Frame.ScanPass | __main__.py:110-118 | A pass with maxim extends the detection list only by image pixels equal to maxim, keeps the buffer the mask of the detections and the list a greedy scan, and leaves every unsuppressed pixel strictly below maxim |
| StarFinder.Frame.ScanRow | __main__.py:111-118 | Scanning row i moves the scan state from the start of row i to the start of row i + 1, and every detection it adds lies in row i |
| StarFinder.Frame.Visit | __main__.py:112-118 | The visit of (i, j) appends exactly (i, j) to the detections when the pixel is unsuppressed and equal to maxim (which is when its buffer cell equals maxim) and nothing otherwise; the scan state moves past the pixel either way |
| StarFinder.Frame.VisitInRow | __main__.py:111-118 | A proof step of the row loop, with no code of its own: a visit in row i keeps every detection since the start of the row in row i |
| StarFinder.Frame.Take | __main__.py:113-118 | Recording a pixel whose buffer cell equals maxim appends its row and column to stars2, zeroes its window, and extends the greedy scan by it |
| StarFinder.Frame.OnExport | __main__.py:127-128 | Before any search there is no list and the export fails; after one it yields exactly Pairs(stars2), read with indices 2i and 2i+1 for i below len/2 |
| StarFinder.Frame.constructor | __main__.py:72 | A window holds the loaded image and has not searched yet |
| StarFinder.Detected | __main__.py:112-115 | The pixel a pass finds still equal to maxim qualifies as the next detection of the greedy scan |
| StarFinder.PixelSkipped | __main__.py:112 | A pixel whose buffer cell is not maxim is below maxim or suppressed, so skipping it keeps the scan state |
| StarFinder.WindowZeroed | __main__.py:116-118 | Zeroing the window of (i, j), wrapped writes included, turns the expected buffer for ds into the one for ds plus (i, j) |
| StarFinder.Record | __main__.py:116-118 | Zeroing the window of a new detection keeps the buffer the mask of the detections |
| StarFinder.PaddedMasks | __main__.py:102-106 | The freshly padded buffer is the mask of no detections, with every pixel at most the image maximum |
| StarFinder.ExtendsInRowMeans | __main__.py:111-115 | The detections of a row keep the earlier ones as a prefix and all lie in that row |
| StarFinder.RowStep | __main__.py:111-115 | Appending a pixel of row i, or nothing, keeps the detections of the row in row i |
| StarFinder.PassStarts | __main__.py:110 | A pass starts in the scan state with nothing visited |
| StarFinder.NextRow | __main__.py:110-111 | Finishing a row is starting the next one |
| StarFinder.PassDone | __main__.py:110-118 | After the last row every unsuppressed pixel is below maxim and the new detections equal maxim |
| StarFinder.NextMaximum | __main__.py:119 | After a pass the recomputed buffer maximum is strictly below the pass's maxim and bounds every unsuppressed pixel |
| StarFinder.SearchEnds | __main__.py:109 | When the maximum falls below the threshold every pixel at least that bright is suppressed, so the list satisfies Detects |
| Grid.MaxOf | __main__.py:101 | numpy's max() over a non-empty 2-D array, folded row by row; what it means is proved in Grid.MaxOfIsMaximum |
| Grid.MinOf | __main__.py:100 | numpy's min() over a non-empty 2-D array, folded row by row; what it means is proved in Grid.MinOfIsMinimum |
| Grid.MaxOfIsMaximum | __main__.py:101 | numpy's max() is at least every pixel and equal to one of them |
| Grid.MinOfIsMinimum | __main__.py:100 | numpy's min() is at most every pixel and equal to one of them |
| Grid.RowMaxIsMaximum | __main__.py:119 | The maximum of a row prefix bounds and is attained in that prefix |
| Grid.MaxRowsIsMaximum | __main__.py:119 | The maximum of the first rows bounds and is attained in those rows |
| Grid.RowMinIsMinimum | __main__.py:100 | The minimum of a row prefix bounds and is attained in that prefix |
| Grid.MinRowsIsMinimum | __main__.py:100 | The minimum of the first rows bounds and is attained in those rows |
| Grid.Padded | __main__.py:102-106 | The working copy is a new array 10 rows and 10 columns larger, equal to the image on the original region and 0 on the padding; only square images are accepted |
| Grid.Wrap | __main__.py:118 | An index in -n .. n-1 selects a cell in 0 .. n-1, counting from the end when negative |
| Grid.Hit | __main__.py:116-118 | On the original region the wrapped window is exactly rows or columns center-10 .. center+9; wrapped writes reach only the last 10 indices, that is the padding |
| Grid.Suppress | __main__.py:116-118 | Exactly the cells of the wrapped 20 x 20 window around (i, j) become 0 and every other cell keeps its value |
| Detections.Flatten | __main__.py:113-115 | Appending each detection's row and column gives a list twice as long as the detections |
| Detections.Pairs | __main__.py:127-128 | The export's reading of the flat list, entry i being (s[2i], s[2i+1]) for i below len/2; it inverts Flatten, as PairsOfFlatten and FlattenOfPairs prove |
| Detections.FlattenAt | __main__.py:113-115 | Detection k sits at indices 2k and 2k+1 of the flat list |
| Detections.PairsOfFlatten | __main__.py:127-128 | Reading the flat list in pairs recovers the detections in order |
| Detections.FlattenOfPairs | __main__.py:127-128 | An even-length flat list is the flattening of its pairs |
| Detections.SuppressedAppend | __main__.py:116-118 | A new detection adds exactly its own window to the suppressed pixels |
| Properties.GreedyScanAt | __main__.py:109-118 | Every detection qualifies given the detections before it |
| Properties.NextAgrees | __main__.py:110-112 | After the same earlier detections at most one pixel qualifies next |
| Properties.AgreeUpTo | __main__.py:109-119 | Two greedy scans of the same image agree on their common prefix |
| Properties.DetectsUnique | __main__.py:109-119 | For one image and threshold at most one list satisfies Detects |
| Properties.ShorterCovers | __main__.py:109-119 | No greedy scan above the threshold is longer than a list satisfying Detects |
| Properties.DetectionOrder | __main__.py:110-118 | Detections come out brightest first, in row-major order among equals, and never inside an earlier detection's window |
| Properties.ZeroingNeverRaises | __main__.py:118 | On a non-negative image a new detection never raises a buffer cell |
| Properties.FlatImageNeverExits | __main__.py:109-119 | On a flat image the threshold is 0, and every buffer that is the padded image with some detections' windows zeroed has maximum at least 0; with a non-negative value the search has started, so the loop does not end |
| Scenarios.SinglePeakDetects | __main__.py:109-119 | On a 20 x 20 image with a single 100 at (10, 10) the one detection (10, 10) satisfies Detects at threshold 100 |
| Scenarios.TwoPeaksDetect | __main__.py:109-119 | On a 20 x 20 image with 50 at (2, 2) and (15, 15) the detections (2, 2), (15, 15) satisfy Detects at threshold 50 |
| Scenarios.PeakRange | __main__.py:100-101 | An image that is 0 except for positive peaks has min 0 and max the peak value |
| Scenarios.StoredList | __main__.py:113-115 | A stored flat list whose pairs satisfy Detects is the flattening of any other list that does |
| Scenarios.SinglePeak | __main__.py:96-119 | On the single-peak image the search ends and a completed OnFinder leaves stars2 equal to [10, 10] |
| Scenarios.TwoPeaks | __main__.py:96-119 | On the two-peak image the search ends and a completed OnFinder leaves stars2 equal to [2, 2, 15, 15] |

## Left out

- The wxPython window, its menus and dialogs, `OnAbout`, `Toolbar`, `OnExit`, `ComingSoon` and application start-up: user interface only.
- `OnOpen`: reading the FITS file, parsing the WCS header and drawing with matplotlib are file I/O and foreign library calls. The loaded image is a parameter of the `Frame` constructor.
- `OnExport`'s file dialog, the opening and closing of the file and the Python 2 `print >>` formatting of each pair: I/O and number formatting. The export yields the pairs it would write.
- Floating-point pixels and NaN: pixels are integers. The finder only uses min, max, equality and assignment of 0. The working buffer and `stars2` are float arrays in numpy (`np.append` with `np.zeros` returns a float copy of the whole buffer, and `np.concatenate` converts `stars2`), and the model keeps them as integers.
- Fixed-width pixel types: pixels are unbounded integers, so `maxi - mini` is exact. In numpy the subtraction is done in the image's integer type, and for a signed type whose range does not fit it wraps to a negative value. The loop then runs even though the minimum is negative, and it never ends, since the padding keeps the maximum at 0 or more. StarFinder.Frame.OnFinder's promise that a negative minimum leaves `stars2` empty holds in the source only when `max - min` fits the image's type.
- The exception that `OnExport` raises when no search has run, because `stars2` does not exist yet: modelled as the `None` result, with the `searched` flag standing for the attribute's existence.
- StarFinder.Frame.OnFinder: requires `Halts`. On a non-empty square image whose pixels all equal one non-negative value the loop never ends, so no postcondition can be stated for that input. `Properties.FlatImageNeverExits` states the divergence instead.
- Scenarios.SinglePeak: takes the postcondition of a completed `OnFinder` as its hypothesis rather than running `OnFinder` on a concrete array. The number of passes the loop makes is not stated.
- Scenarios.TwoPeaks: takes the postcondition of a completed `OnFinder` as its hypothesis rather than running `OnFinder` on a concrete array. The number of passes the loop makes is not stated.
