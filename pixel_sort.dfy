/**
  The two pixel sorts of net.niceEli.Main: every column (vertical) or every
  row (horizontal) of the image is reordered in place by ascending key.

  The image is a 2-D array of pixels (`image[row, col]`), the mask a 2-D
  array of intensities. In the source, `image.col(col)` and `image.row(row)`
  are views that share storage with the image, so the write-back loop reads
  cells it has already overwritten. The primary sorts below read the line
  from a snapshot taken before its write-back loop (the reordering that
  SORT_ASCENDING and the name "pixel sorting" describe); the `Live` variants
  read the image itself, as the code is written.

  Core.sortIdx is the parameter `sortIdx`, any routine meeting the sort
  contract `IndexSort`; no order among equal keys is assumed.
 */
module PixelSort {
  import opened Lines

  /** Column `c` of a 2-D array, top to bottom. */
  function Column<T>(a: array2<T>, c: int): (line: seq<T>)
    requires 0 <= c < a.Length1
    reads a
    ensures |line| == a.Length0
    ensures forall r :: 0 <= r < a.Length0 ==> line[r] == a[r, c]
  {
    seq(a.Length0, r requires 0 <= r < a.Length0 reads a => a[r, c])
  }

  /** Row `r` of a 2-D array, left to right. */
  function Row<T>(a: array2<T>, r: int): (line: seq<T>)
    requires 0 <= r < a.Length0
    reads a
    ensures |line| == a.Length1
    ensures forall c :: 0 <= c < a.Length1 ==> line[c] == a[r, c]
  {
    seq(a.Length1, c requires 0 <= c < a.Length1 reads a => a[r, c])
  }

  /**
    One pass of the vertical sort's outer loop, on column `col`: the
    column is snapshotted, its keys are index-sorted, and the snapshot's pixel at
    index `sortedColData[row]` is written to position `row`. No other column is
    written.
   */
  method SortColumn(image: array2<Pixel>, col: int, sortIdx: seq<int> -> seq<int>)
    requires IndexSort(sortIdx)
    requires 0 <= col < image.Length1
    modifies image
    ensures forall r :: 0 <= r < image.Length0 ==> image[r, col] == SortLine(old(Column(image, col)), sortIdx)[r]
    ensures forall r, c :: 0 <= r < image.Length0 && 0 <= c < image.Length1 && c != col ==>
      image[r, c] == old(image[r, c])
  {
    // Snapshot of the column before any of its cells is written.
    var colData := Column(image, col);
    var sortedColData := sortIdx(Keys(colData));
    ghost var sorted := SortLine(colData, sortIdx);
    assert SortsAscending(Keys(colData), sortedColData);
    assert |sortedColData| == image.Length0;
    var row := 0;
    while row < image.Length0
      invariant 0 <= row <= image.Length0
      invariant forall r :: 0 <= r < row ==> image[r, col] == sorted[r]
      invariant forall r, c :: 0 <= r < image.Length0 && 0 <= c < image.Length1 && c != col ==>
        image[r, c] == old(image[r, c])
    {
      var idx := sortedColData[row];
      var pixel := colData[idx];
      image[row, col] := pixel;
      row := row + 1;
    }
  }

  /**
    Vertical pixel sort: each column becomes its own key-sorted permutation.
    The mask column is fetched and never used, so the result does not depend
    on the mask; each column's result depends only on that column.
   */
  method VerticalPixelSort(image: array2<Pixel>, mask: array2<int>, sortIdx: seq<int> -> seq<int>)
    requires IndexSort(sortIdx)
    requires mask.Length1 >= image.Length1
    modifies image
    ensures forall c :: 0 <= c < image.Length1 ==> Column(image, c) == SortLine(old(Column(image, c)), sortIdx)
  {
    ghost var before := seq(image.Length1, c requires 0 <= c < image.Length1 reads image => Column(image, c));
    ghost var after := seq(image.Length1, c requires 0 <= c < image.Length1 => SortLine(before[c], sortIdx));
    var col := 0;
    while col < image.Length1
      invariant 0 <= col <= image.Length1
      invariant forall r, c :: 0 <= r < image.Length0 && 0 <= c < image.Length1 && c < col ==>
        image[r, c] == after[c][r]
      invariant forall r, c :: 0 <= r < image.Length0 && 0 <= c < image.Length1 && col <= c ==>
        image[r, c] == before[c][r]
    {
      var maskColumn := Column(mask, col);
      assert Column(image, col) == before[col];
      SortColumn(image, col, sortIdx);
      col := col + 1;
    }
    forall c | 0 <= c < image.Length1
      ensures Column(image, c) == SortLine(old(Column(image, c)), sortIdx)
    {
      assert Column(image, c) == after[c];
    }
  }

  /**
    One pass of the horizontal sort's outer loop, on row `row`: the
    row is snapshotted, its keys are index-sorted, and the snapshot's pixel at
    index `sortedRowData[col]` is written to position `col`. No other row is
    written.
   */
  method SortRow(image: array2<Pixel>, row: int, sortIdx: seq<int> -> seq<int>)
    requires IndexSort(sortIdx)
    requires 0 <= row < image.Length0
    modifies image
    ensures forall c :: 0 <= c < image.Length1 ==> image[row, c] == SortLine(old(Row(image, row)), sortIdx)[c]
    ensures forall r, c :: 0 <= r < image.Length0 && 0 <= c < image.Length1 && r != row ==>
      image[r, c] == old(image[r, c])
  {
    // Snapshot of the row before any of its cells is written.
    var rowData := Row(image, row);
    var sortedRowData := sortIdx(Keys(rowData));
    ghost var sorted := SortLine(rowData, sortIdx);
    assert SortsAscending(Keys(rowData), sortedRowData);
    assert |sortedRowData| == image.Length1;
    var col := 0;
    while col < image.Length1
      invariant 0 <= col <= image.Length1
      invariant forall c :: 0 <= c < col ==> image[row, c] == sorted[c]
      invariant forall r, c :: 0 <= r < image.Length0 && 0 <= c < image.Length1 && r != row ==>
        image[r, c] == old(image[r, c])
    {
      var idx := sortedRowData[col];
      var pixel := rowData[idx];
      image[row, col] := pixel;
      col := col + 1;
    }
  }

  /**
    Horizontal pixel sort: each row becomes its own key-sorted permutation.
    The mask row is fetched and never used, so the result does not depend
    on the mask; each row's result depends only on that row.
   */
  method HorizontalPixelSort(image: array2<Pixel>, mask: array2<int>, sortIdx: seq<int> -> seq<int>)
    requires IndexSort(sortIdx)
    requires mask.Length0 >= image.Length0
    modifies image
    ensures forall r :: 0 <= r < image.Length0 ==> Row(image, r) == SortLine(old(Row(image, r)), sortIdx)
  {
    ghost var before := seq(image.Length0, r requires 0 <= r < image.Length0 reads image => Row(image, r));
    ghost var after := seq(image.Length0, r requires 0 <= r < image.Length0 => SortLine(before[r], sortIdx));
    var row := 0;
    while row < image.Length0
      invariant 0 <= row <= image.Length0
      invariant forall r, c :: 0 <= r < image.Length0 && 0 <= c < image.Length1 && r < row ==>
        image[r, c] == after[r][c]
      invariant forall r, c :: 0 <= r < image.Length0 && 0 <= c < image.Length1 && row <= r ==>
        image[r, c] == before[r][c]
    {
      var maskRow := Row(mask, row);
      assert Row(image, row) == before[row];
      SortRow(image, row, sortIdx);
      row := row + 1;
    }
    forall r | 0 <= r < image.Length0
      ensures Row(image, r) == SortLine(old(Row(image, r)), sortIdx)
    {
      assert Row(image, r) == after[r];
    }
  }

  /**
    One pass of the vertical sort's outer loop as written, on column `col`:
    `colData` is a view of the column, so position `row` receives what the
    image holds at position `sortedColData[row]` of the column at that moment, which
    may already have been overwritten. No other column is written.
   */
  method SortColumnLive(image: array2<Pixel>, col: int, sortIdx: seq<int> -> seq<int>)
    requires IndexSort(sortIdx)
    requires 0 <= col < image.Length1
    modifies image
    ensures Column(image, col) == SortLineLive(old(Column(image, col)), sortIdx)
    ensures forall r, c :: 0 <= r < image.Length0 && 0 <= c < image.Length1 && c != col ==>
      image[r, c] == old(image[r, c])
  {
    var colData := Column(image, col);
    var sortedColData := sortIdx(Keys(colData));
    assert SortsAscending(Keys(colData), sortedColData);
    var row := 0;
    while row < image.Length0
      invariant 0 <= row <= image.Length0
      invariant LiveWrite(Column(image, col), sortedColData, row) == LiveWrite(colData, sortedColData, 0)
      invariant forall r, c :: 0 <= r < image.Length0 && 0 <= c < image.Length1 && c != col ==>
        image[r, c] == old(image[r, c])
    {
      ghost var current := Column(image, col);
      var idx := sortedColData[row];
      var pixel := image[idx, col];
      image[row, col] := pixel;
      assert Column(image, col) == current[row := current[idx]];
      row := row + 1;
    }
  }

  /**
    The vertical sort as written, reading each column through the live view
    while writing it: the index order is computed from the column as it was,
    but the write-back may read cells already overwritten, so a column need
    not end up a permutation of itself. Only column `col` is written while
    it is processed, and every pixel written comes from that column.
   */
  method VerticalPixelSortLive(image: array2<Pixel>, mask: array2<int>, sortIdx: seq<int> -> seq<int>)
    requires IndexSort(sortIdx)
    requires mask.Length1 >= image.Length1
    modifies image
    ensures forall c :: 0 <= c < image.Length1 ==> Column(image, c) == SortLineLive(old(Column(image, c)), sortIdx)
  {
    ghost var before := seq(image.Length1, c requires 0 <= c < image.Length1 reads image => Column(image, c));
    ghost var after := seq(image.Length1, c requires 0 <= c < image.Length1 => SortLineLive(before[c], sortIdx));
    var col := 0;
    while col < image.Length1
      invariant 0 <= col <= image.Length1
      invariant forall r, c :: 0 <= r < image.Length0 && 0 <= c < image.Length1 && c < col ==>
        image[r, c] == after[c][r]
      invariant forall r, c :: 0 <= r < image.Length0 && 0 <= c < image.Length1 && col <= c ==>
        image[r, c] == before[c][r]
    {
      var maskColumn := Column(mask, col);
      assert Column(image, col) == before[col];
      SortColumnLive(image, col, sortIdx);
      col := col + 1;
    }
    forall c | 0 <= c < image.Length1
      ensures Column(image, c) == SortLineLive(old(Column(image, c)), sortIdx)
    {
      assert Column(image, c) == after[c];
    }
  }

  /**
    One pass of the horizontal sort's outer loop as written, on row `row`:
    `rowData` is a view of the row, so position `col` receives what the
    image holds at position `sortedRowData[col]` of the row at that moment, which
    may already have been overwritten. No other row is written.
   */
  method SortRowLive(image: array2<Pixel>, row: int, sortIdx: seq<int> -> seq<int>)
    requires IndexSort(sortIdx)
    requires 0 <= row < image.Length0
    modifies image
    ensures Row(image, row) == SortLineLive(old(Row(image, row)), sortIdx)
    ensures forall r, c :: 0 <= r < image.Length0 && 0 <= c < image.Length1 && r != row ==>
      image[r, c] == old(image[r, c])
  {
    var rowData := Row(image, row);
    var sortedRowData := sortIdx(Keys(rowData));
    assert SortsAscending(Keys(rowData), sortedRowData);
    var col := 0;
    while col < image.Length1
      invariant 0 <= col <= image.Length1
      invariant LiveWrite(Row(image, row), sortedRowData, col) == LiveWrite(rowData, sortedRowData, 0)
      invariant forall r, c :: 0 <= r < image.Length0 && 0 <= c < image.Length1 && r != row ==>
        image[r, c] == old(image[r, c])
    {
      ghost var current := Row(image, row);
      var idx := sortedRowData[col];
      var pixel := image[row, idx];
      image[row, col] := pixel;
      assert Row(image, row) == current[col := current[idx]];
      col := col + 1;
    }
  }

  /**
    The horizontal sort as written, reading each row through the live view
    while writing it: the index order is computed from the row as it was,
    but the write-back may read cells already overwritten, so a row need
    not end up a permutation of itself. Only row `row` is written while
    it is processed, and every pixel written comes from that row.
   */
  method HorizontalPixelSortLive(image: array2<Pixel>, mask: array2<int>, sortIdx: seq<int> -> seq<int>)
    requires IndexSort(sortIdx)
    requires mask.Length0 >= image.Length0
    modifies image
    ensures forall r :: 0 <= r < image.Length0 ==> Row(image, r) == SortLineLive(old(Row(image, r)), sortIdx)
  {
    ghost var before := seq(image.Length0, r requires 0 <= r < image.Length0 reads image => Row(image, r));
    ghost var after := seq(image.Length0, r requires 0 <= r < image.Length0 => SortLineLive(before[r], sortIdx));
    var row := 0;
    while row < image.Length0
      invariant 0 <= row <= image.Length0
      invariant forall r, c :: 0 <= r < image.Length0 && 0 <= c < image.Length1 && r < row ==>
        image[r, c] == after[r][c]
      invariant forall r, c :: 0 <= r < image.Length0 && 0 <= c < image.Length1 && row <= r ==>
        image[r, c] == before[r][c]
    {
      var maskRow := Row(mask, row);
      assert Row(image, row) == before[row];
      SortRowLive(image, row, sortIdx);
      row := row + 1;
    }
    forall r | 0 <= r < image.Length0
      ensures Row(image, r) == SortLineLive(old(Row(image, r)), sortIdx)
    {
      assert Row(image, r) == after[r];
    }
  }
}
