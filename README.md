# Pixel sorting engine of net.niceEli.PASort, in Dafny

PASort is a small Java/OpenCV program that applies the "pixel sorting" glitch
effect to an image. Each column (vertical sort) or each row (horizontal sort)
of the image is reordered in place so that its pixels appear in ascending
order of a sort key. The `type` argument chooses the direction. This project
models that engine: the two sort methods of `Main.java` and the rule that
picks between them.

- `lines.dfy` (module `Lines`) covers one line of the image. A pixel is the
  sequence of its channel values, and its key is the first channel. The
  predicate `SortsAscending` is the contract of OpenCV's `Core.sortIdx` with
  `SORT_ASCENDING`: the index list is a permutation of `0..L-1` and reads the
  keys in non-decreasing order. `IndexSort` says that a routine meets that
  contract on every key line. The library routine is a parameter `sortIdx`
  of the line functions and of the sorts, constrained only by `IndexSort`,
  so the model assumes no order among equal keys. `SortIdx` is one routine
  that meets the contract. `Gather` is the write-back from a snapshot of the
  line. `LiveWrite` is the write-back that reads the line while it is being
  overwritten.
- `pixel_sort.dfy` (module `PixelSort`) holds the image as a 2-D array of
  pixels (`image[row, col]`) and the mask as a 2-D array of intensities.
  - `VerticalPixelSort` and `HorizontalPixelSort` loop over the columns or
    rows. Each pass (`SortColumn`, `SortRow`) snapshots the line, index-sorts
    its keys and writes the pixels back in that order.
  - The `...Live` variants model the write-back as the code performs it,
    reading the line through the image while writing it (see Findings).
- `dispatch.dfy` (module `Dispatch`) contains the `type` selection and the
  sorting step of the window constructor, which dispatches to the corrected
  (snapshot-reading) sorts. The invalid case is an `Exit(1)`
  outcome. The file also has a client method showing that the mask has no
  effect.

The Java methods return nothing and change `image` in place. The Dafny
methods therefore have `modifies image`, and each `ensures` gives every
column (or row) of the new image as a function of that same column (or row)
of the old image. The lemmas about that function (`SortLine`) carry the
properties that matter: it is a permutation of the line, its keys are
non-decreasing, and re-sorting keeps the keys.

Two facts about the code shape the preconditions and the results:
- The code never checks that the mask has the image's size. It only takes
  `mask.col(col)` or `mask.row(row)`, so the model requires the mask to have
  at least as many columns (vertical) or rows (horizontal) as the image.
- `Core.sortIdx` promises no order among equal keys. The sorted line is
  therefore stated for whatever routine `sortIdx` is passed. Its key
  sequence is the same for every such routine (`SortLineKeysAgree`), but
  which of several equal-key pixels comes first is not. With the write-back
  as written, even the keys can depend on the tie order (`LiveWriteTies`).

## Model

| member | source | states |
|---|---|---|
| `Lines.SortIdx` | src/main/java/net/niceEli/Main.java:64-65 | a routine meeting the assumed contract of `Core.sortIdx` with `SORT_ASCENDING` exists: for every key line, its index line is a permutation of 0..L-1 and reads the keys in non-decreasing order |
| `Lines.SortIdxMeetsIndexSort` | src/main/java/net/niceEli/Main.java:64-65 | the stand-in routine meets `IndexSort`, the contract of `Core.sortIdx` that every sort requires of its routine |
| `Lines.OrderOf513` | src/main/java/net/niceEli/Main.java:65 | for keys [5, 1, 3], the only index line the sort contract allows is [1, 2, 0] |
| `Lines.GatherPermutes` | src/main/java/net/niceEli/Main.java:67-70 | writing position j from index `sorted[j]` of a snapshot, for a permutation `sorted`, keeps the line's multiset of pixels |
| `Lines.GatherSorts` | src/main/java/net/niceEli/Main.java:65-71 | for any index line meeting the sort contract, the written-back line is a permutation of the old one and its keys are non-decreasing |
| `Lines.ResortKeepsKeys` | src/main/java/net/niceEli/Main.java:65-71 | re-sorting a line whose keys are already non-decreasing, with any index line meeting the contract, leaves its key sequence unchanged |
| `Lines.SortLine` | src/main/java/net/niceEli/Main.java:61-71 | one processed line (snapshot reading), for any routine meeting the sort contract, is a permutation of the old line with non-decreasing keys |
| `Lines.SortLineKeysAgree` | src/main/java/net/niceEli/Main.java:65-71 | two routines meeting the sort contract give the processed line the same key sequence; they can differ only in the order of equal-key pixels |
| `Lines.SortLineIdempotentKeys` | src/main/java/net/niceEli/Main.java:61-88 | sorting a line a second time, by any routine meeting the contract, gives the same keys as sorting it once (both the column pass and the row pass) |
| `Lines.SortLineKeepsChannels` | src/main/java/net/niceEli/Main.java:67-70 | a processed line has the old line's length, and every pixel keeps the channel count shared by the old line's pixels |
| `Lines.SortLineOf513` | src/main/java/net/niceEli/Main.java:65-70 | a line with keys [5, 1, 3] becomes its pixels 1, 2, 0, with keys [1, 3, 5] |
| `Lines.LiveWriteFromLine` | src/main/java/net/niceEli/Main.java:67-70 | the in-place write-back through the live view creates no pixel: each written pixel was already in the line |
| `Lines.SortLineLive` | src/main/java/net/niceEli/Main.java:61-71 | one line processed as written keeps its length, and every pixel comes from the old line |
| `Lines.SortLineLiveOf513` | src/main/java/net/niceEli/Main.java:67-70 | as written, a line with keys [5, 1, 3] becomes its pixels 1, 2, 1, with keys [1, 3, 1], which is not a permutation, whatever routine meets the sort contract |
| `Lines.LiveWriteTies` | src/main/java/net/niceEli/Main.java:65-70 | as written, keys [1, 1, 0] admit the index lines [2, 0, 1] and [2, 1, 0], and the live write-back leaves keys [0, 0, 0] through one and [0, 1, 0] through the other |
| `PixelSort.SortColumn` | src/main/java/net/niceEli/Main.java:61-71 | one pass over column `col`: cell (r, col) receives the sorted snapshot's pixel r, and no cell outside column `col` changes |
| `PixelSort.VerticalPixelSort` | src/main/java/net/niceEli/Main.java:58-73 | for any routine meeting the sort contract, every column of the new image is `SortLine` of that column of the old image; the mask is not consulted and not modified; the dimensions are fixed |
| `PixelSort.SortRow` | src/main/java/net/niceEli/Main.java:78-88 | one pass over row `row`: cell (row, c) receives the sorted snapshot's pixel c, and no cell outside row `row` changes |
| `PixelSort.HorizontalPixelSort` | src/main/java/net/niceEli/Main.java:75-90 | for any routine meeting the sort contract, every row of the new image is `SortLine` of that row of the old image; the mask is not consulted and not modified |
| `PixelSort.SortColumnLive` | src/main/java/net/niceEli/Main.java:61-71 | as written: column `col` becomes the live write-back of its old contents through its index line, and no other column changes |
| `PixelSort.VerticalPixelSortLive` | src/main/java/net/niceEli/Main.java:58-73 | as written: every column of the new image is `SortLineLive` of that column of the old image |
| `PixelSort.SortRowLive` | src/main/java/net/niceEli/Main.java:78-88 | as written: row `row` becomes the live write-back of its old contents, and no other row changes |
| `PixelSort.HorizontalPixelSortLive` | src/main/java/net/niceEli/Main.java:75-90 | as written: every row of the new image is `SortLineLive` of that row of the old image |
| `Dispatch.SelectSort` | src/main/java/net/niceEli/Main.java:36-43 | `equalsIgnoreCase` selects vertical exactly for "v"/"V", horizontal exactly for "h"/"H", and nothing for every other string |
| `Dispatch.SortByType` | src/main/java/net/niceEli/Main.java:36-43 | the selected corrected (snapshot-reading) sort's postcondition holds; an invalid type leaves the image untouched and ends in exit status 1 |
| `Dispatch.MaskHasNoEffect` | src/main/java/net/niceEli/Main.java:58-90 | two runs on equal images with the same type and the same index-sort routine, but different masks, leave equal images; a mask needs only enough columns for "v", enough rows for "h", and nothing for an invalid type |

## Left out

- The Swing window (`JFrame`, the panel, `paintComponent`, `repaint`, Main.java lines 15-33 and 46-47): presentation only.
- `updateBufferedImage` (Main.java lines 50-56): OpenCV `convertTo`/`cvtColor` and the raster copy are library pixel-format code. Its conversion to 8-bit and its BGR-to-RGB swap at line 52 also change `image` before the sort. The model treats channels abstractly and does not say which colour comes first.
- `main` (Main.java lines 92-113): loading the native library, the argument-count check, reading files with `Imgcodecs.imread`, and the hand-off to the Swing thread are I/O and threading.
- `System.exit` and console output: an invalid type is modelled as the outcome `Exit(1)`, not as process termination, and the usage message is not modelled.
- The internals of `Core.sortIdx`, `Mat.get` and `Mat.put`. The sorts take the index-sort routine as a parameter that meets only the sort contract. `SortIdx` is one such routine (a stable insertion sort), and nothing else in the model uses it.
- Multi-channel input to `Core.sortIdx`: OpenCV's index sort accepts only single-channel data. Every image this program sorts has three channels, because `Imgcodecs.imread` loads it in colour (Main.java line 108), and `updateBufferedImage`, called at line 23 before the sort, keeps three channels when it converts it from BGR to RGB at line 52. So the program as written stops at line 65 or 82, before any write-back. The model takes the first channel as the key instead, and does not capture that rejection.
- Pixel values are unbounded integers. The source reads and writes them as `double[]`, and the `(int)` cast of the index is exact for valid indices. No 8-bit saturation is modelled.
- Mask dimension checking: the code does none. The model requires only that `mask.col(col)` or `mask.row(row)` exists.

## Findings

| source | as written | input that shows it | evidently intended | confidence | as-written member | corrected member |
|---|---|---|---|---|---|---|
| src/main/java/net/niceEli/Main.java:69 | `colData` is `image.col(col)`, a view sharing storage with `image`. The gather `colData.get(idx, 0)` therefore reads cells already overwritten by `image.put` at line 70 | a column whose keys are [5, 1, 3]: sortIdx must give [1, 2, 0], and the column becomes keys [1, 3, 1], losing the pixel with key 5 | the column becomes [1, 3, 5], a permutation of the old column | medium, not executed (rests on `Mat.col` returning a view, as OpenCV documents; latent in the program as written, where `Core.sortIdx` rejects the three-channel image at line 65 first, and it shows only once the key comes from one channel, as in the model) | `PixelSort.VerticalPixelSortLive` with `Lines.SortLineLiveOf513` | `PixelSort.VerticalPixelSort` with `Lines.SortLineOf513` |
| src/main/java/net/niceEli/Main.java:86 | `rowData` is `image.row(row)`, a view. The gather `rowData.get(0, idx)` reads cells already overwritten at line 87 | a row whose keys are [5, 1, 3] becomes keys [1, 3, 1] | the row becomes [1, 3, 5] | medium, not executed (rests on `Mat.row` returning a view; latent behind `Core.sortIdx` rejecting the three-channel image at line 82, and it shows only once the key comes from one channel, as in the model) | `PixelSort.HorizontalPixelSortLive` with `Lines.SortLineLiveOf513` | `PixelSort.HorizontalPixelSort` with `Lines.SortLineOf513` |
