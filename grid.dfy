/**
 Row and column views of a flat, row-major grid.

 `GridRows` cuts the grid into consecutive chunks of `width` elements (the
 last one shorter when the length is not a multiple of the width);
 `GridCol` drops the first `col` elements and keeps every `width`-th one of
 the rest. `Row` and `Column` are the reference definitions by index, for a
 grid that is exactly width * height long; the lemmas tie the two together.
 */
module Grid {

  function Min(a: int, b: int): int { if a <= b then a else b }

  /** Arithmetic fact behind every row-major index: (y, x) lies inside the w * h grid. */
  lemma CellIndexInGrid(x: int, y: int, w: int, h: int)
    requires 0 <= x < w && 0 <= y < h
    ensures 0 <= y * w + x < w * h
  {
    RowEndInGrid(y, w, h);
  }

  /** Row y of a w * h grid ends inside the grid. */
  lemma RowEndInGrid(y: int, w: int, h: int)
    requires 0 <= w && 0 <= y < h
    ensures 0 <= y * w && y * w + w <= w * h
  {
    MulMonotone(y + 1, h, w);
    assert (y + 1) * w == y * w + w;
  }

  /** Two squares of a w-wide grid share a row-major index exactly when they are the same square. */
  lemma CellIndexUnique(x1: int, y1: int, x2: int, y2: int, w: int)
    requires 0 <= x1 < w && 0 <= y1 && 0 <= x2 < w && 0 <= y2
    ensures y1 * w + x1 == y2 * w + x2 <==> x1 == x2 && y1 == y2
  {
    if y1 < y2 {
      MulMonotone(y1 + 1, y2, w);
      assert (y1 + 1) * w == y1 * w + w;
    } else if y2 < y1 {
      MulMonotone(y2 + 1, y1, w);
      assert (y2 + 1) * w == y2 * w + w;
    }
  }

  /** A length pinned between (n - 1) * w and n * w determines n. */
  lemma CeilUnique(n: int, h: int, w: int)
    requires w > 0 && 0 <= h && 0 <= n
    requires (n - 1) * w < h * w <= n * w
    ensures n == h
  {
    if n < h {
      MulMonotone(n, h - 1, w);
    } else if n > h {
      MulMonotone(h, n - 1, w);
    }
  }

  /** The same, for a sequence that starts at offset x < w. */
  lemma CeilUniqueOffset(n: int, h: int, w: int, x: int)
    requires w > 0 && 0 <= h && 0 <= n && 0 <= x < w
    requires (n - 1) * w + x < h * w <= n * w + x
    ensures n == h
  {
    if n < h {
      MulMonotone(n, h - 1, w);
    } else if n > h {
      MulMonotone(h, n - 1, w);
    }
  }

  lemma MulMonotone(a: int, b: int, c: int)
    requires a <= b && 0 <= c
    ensures a * c <= b * c
  {
    assert b * c - a * c == (b - a) * c;
  }

  /** `r | rv::chunk(width)`. */
  function GridRows<T>(r: seq<T>, width: nat): (rows: seq<seq<T>>)
    requires width > 0
    decreases |r|
  {
    if |r| == 0 then []
    else if |r| <= width then [r]
    else [r[..width]] + GridRows(r[width..], width)
  }

  /** The number of chunks is the length divided by the width, rounded up. */
  lemma {:induction false} GridRowsCount<T>(r: seq<T>, width: nat)
    requires width > 0
    ensures |r| == 0 <==> |GridRows(r, width)| == 0
    ensures (|GridRows(r, width)| - 1) * width < |r| <= |GridRows(r, width)| * width
    decreases |r|
  {
    if |r| > width {
      var rest := GridRows(r[width..], width);
      GridRowsCount(r[width..], width);
      assert |GridRows(r, width)| == |rest| + 1;
      assert (|rest| + 1) * width == |rest| * width + width;
    }
  }

  /** A slice of the sequence without its first d elements is a slice of the sequence. */
  lemma SliceOfDrop<T>(r: seq<T>, d: nat, lo: nat, hi: nat)
    requires d <= |r| && lo <= hi <= |r| - d
    ensures r[d..][lo .. hi] == r[d + lo .. d + hi]
  {
  }

  /** Chunk y is the slice of the grid that starts at y * width. */
  lemma {:induction false} GridRowsSlice<T>(r: seq<T>, width: nat, y: nat)
    requires width > 0 && y < |GridRows(r, width)|
    ensures y * width < |r|
    ensures GridRows(r, width)[y] == r[y * width .. Min(y * width + width, |r|)]
    decreases y
  {
    if |r| <= width {
      assert GridRows(r, width) == [r];
      assert r[0 .. Min(width, |r|)] == r;
    } else {
      var rest := GridRows(r[width..], width);
      assert GridRows(r, width) == [r[..width]] + rest;
      if y > 0 {
        GridRowsSlice(r[width..], width, y - 1);
        var lo := (y - 1) * width;
        var hi := Min(lo + width, |r| - width);
        assert rest[y - 1] == r[width..][lo .. hi];
        SliceOfDrop(r, width, lo, hi);
        assert y * width == width + lo;
      }
    }
  }

  /** Element x of chunk y is element y * width + x of the grid. */
  lemma GridRowsAt<T>(r: seq<T>, width: nat, y: nat, x: nat)
    requires width > 0
    requires y < |GridRows(r, width)| && x < |GridRows(r, width)[y]|
    ensures y * width + x < |r| && GridRows(r, width)[y][x] == r[y * width + x]
  {
    GridRowsSlice(r, width, y);
  }

  /** `grid_rows(r, width)[row]`: the slice of the grid that forms row `row`. */
  function GridRow<T>(r: seq<T>, width: nat, row: nat): (line: seq<T>)
    requires width > 0 && row < |GridRows(r, width)|
    ensures row * width < |r|
    ensures line == r[row * width .. Min(row * width + width, |r|)]
  {
    GridRowsSlice(r, width, row);
    GridRows(r, width)[row]
  }

  /** `rv::stride(n)`: elements 0, n, 2n, ... of s. */
  function Stride<T>(s: seq<T>, n: nat): seq<T>
    requires n > 0
    decreases |s|
  {
    if |s| == 0 then [] else [s[0]] + Stride(s[Min(n, |s|)..], n)
  }

  /** A stride of a non-empty sequence has the length of the sequence divided by n, rounded up. */
  lemma {:induction false} StrideLength<T>(s: seq<T>, n: nat)
    requires n > 0
    ensures |s| == 0 ==> |Stride(s, n)| == 0
    ensures |s| > 0 ==> (|Stride(s, n)| - 1) * n < |s| <= |Stride(s, n)| * n
    decreases |s|
  {
    if |s| > n {
      var t := s[n..];
      StrideLength(t, n);
      var m := |Stride(t, n)|;
      assert |Stride(s, n)| == m + 1;
      assert (m + 1 - 1) * n == (m - 1) * n + n;
      assert (m + 1) * n == m * n + n;
    }
  }

  /** Element k of a stride is element k * n of the sequence. */
  lemma {:induction false} StrideAt<T>(s: seq<T>, n: nat, k: nat)
    requires n > 0 && k < |Stride(s, n)|
    ensures k * n < |s| && Stride(s, n)[k] == s[k * n]
    decreases k
  {
    if k > 0 {
      var t := s[Min(n, |s|)..];
      assert Stride(s, n) == [s[0]] + Stride(t, n);
      StrideAt(t, n, k - 1);
      assert k * n == (k - 1) * n + n;
    }
  }

  /** Dropping `col` elements and striding by `width` picks col, col + width, col + 2 * width, ... */
  lemma DropStride<T>(r: seq<T>, width: nat, col: nat)
    requires width > 0
    ensures var c := Stride(r[Min(col, |r|)..], width);
            && (col >= |r| ==> c == [])
            && (col < |r| ==> (|c| - 1) * width + col < |r| <= |c| * width + col)
            && (forall k :: 0 <= k < |c| ==> col + k * width < |r| && c[k] == r[col + k * width])
  {
    var dropped := r[Min(col, |r|)..];
    StrideLength(dropped, width);
    forall k | 0 <= k < |Stride(dropped, width)|
      ensures col + k * width < |r| && Stride(dropped, width)[k] == r[col + k * width]
    {
      StrideAt(dropped, width, k);
      var j := k * width;
      assert dropped[j] == r[col + j];
    }
  }

  /** `r | rv::drop(col) | rv::stride(width)`: column `col` of the grid. */
  function GridCol<T>(r: seq<T>, width: nat, col: nat): (c: seq<T>)
    requires width > 0
    ensures col >= |r| ==> c == []
    ensures col < |r| ==> (|c| - 1) * width + col < |r| <= |c| * width + col
    ensures forall k :: 0 <= k < |c| ==> col + k * width < |r| && c[k] == r[col + k * width]
  {
    DropStride(r, width, col);
    Stride(r[Min(col, |r|)..], width)
  }

  /** `rv::ints(0, width) | transform(grid_col)`: one column per x in [0, width). */
  function GridCols<T>(r: seq<T>, width: nat): (cols: seq<seq<T>>)
  {
    seq(width, i requires 0 <= i < width => GridCol(r, width, i))
  }

  /** Reference definition of row y of a width * height grid, by index. */
  function Row<T>(s: seq<T>, width: nat, height: nat, y: nat): (line: seq<T>)
    requires |s| == width * height && y < height
    ensures |line| == width
    ensures forall x :: 0 <= x < width ==> y * width + x < |s| && line[x] == s[y * width + x]
  {
    RowEndInGrid(y, width, height);
    s[y * width .. y * width + width]
  }

  /** Reference definition of column x of a width * height grid, by index. */
  function Column<T>(s: seq<T>, width: nat, height: nat, x: nat): (line: seq<T>)
    requires |s| == width * height && x < width
    ensures |line| == height
    ensures forall y :: 0 <= y < height ==> y * width + x < |s| && line[y] == s[y * width + x]
  {
    assert forall y :: 0 <= y < height ==> y * width + x < |s| by {
      forall y | 0 <= y < height
        ensures y * width + x < |s|
      {
        CellIndexInGrid(x, y, width, height);
      }
    }
    seq(height, y requires 0 <= y < height => s[y * width + x])
  }

  /** Every cell of a row is a cell of the grid. */
  lemma RowCellsInGrid<T>(s: seq<T>, width: nat, height: nat, y: nat)
    requires |s| == width * height && y < height
    ensures forall x :: 0 <= x < width ==> Row(s, width, height, y)[x] in s
  {
  }

  /** Every cell of a column is a cell of the grid. */
  lemma ColumnCellsInGrid<T>(s: seq<T>, width: nat, height: nat, x: nat)
    requires |s| == width * height && x < width
    ensures forall y :: 0 <= y < height ==> Column(s, width, height, x)[y] in s
  {
  }

  /** For a full grid, the chunk view yields exactly the rows by index. */
  lemma GridRowsAreRows<T>(s: seq<T>, width: nat, height: nat)
    requires width > 0 && |s| == width * height
    ensures |GridRows(s, width)| == height
    ensures forall y :: 0 <= y < height ==> GridRows(s, width)[y] == Row(s, width, height, y)
  {
    var rows := GridRows(s, width);
    GridRowsCount(s, width);
    assert |s| == height * width;
    CeilUnique(|rows|, height, width);
    forall y | 0 <= y < height
      ensures rows[y] == Row(s, width, height, y)
    {
      GridRowsSlice(s, width, y);
      RowEndInGrid(y, width, height);
    }
  }

  /** For a full grid, the stride view of column x is exactly the column by index. */
  lemma GridColIsColumn<T>(s: seq<T>, width: nat, height: nat, x: nat)
    requires width > 0 && |s| == width * height && x < width
    ensures GridCol(s, width, x) == Column(s, width, height, x)
  {
    var c := GridCol(s, width, x);
    if height == 0 {
      assert |s| == 0;
    } else {
      assert |s| == height * width;
      CeilUniqueOffset(|c|, height, width, x);
      forall k | 0 <= k < height
        ensures c[k] == Column(s, width, height, x)[k]
      {
        assert x + k * width == k * width + x;
      }
    }
  }

  /** The column view yields exactly `width` columns, each the column by index. */
  lemma GridColsAreColumns<T>(s: seq<T>, width: nat, height: nat)
    requires width > 0 && |s| == width * height
    ensures |GridCols(s, width)| == width
    ensures forall x :: 0 <= x < width ==> GridCols(s, width)[x] == Column(s, width, height, x)
  {
    forall x | 0 <= x < width
      ensures GridCols(s, width)[x] == Column(s, width, height, x)
    {
      GridColIsColumn(s, width, height, x);
    }
  }

  /** Transpose consistency: element y of column x is element x of row y. */
  lemma {:induction false} ColumnsTransposeRows<T>(s: seq<T>, width: nat, height: nat, x: nat, y: nat)
    requires width > 0 && |s| == width * height && x < width && y < height
    ensures |GridCols(s, width)| == width && |GridRows(s, width)| == height
    ensures |GridCols(s, width)[x]| == height && |GridRows(s, width)[y]| == width
    ensures GridCols(s, width)[x][y] == GridRows(s, width)[y][x]
  {
    GridRowsAreRows(s, width, height);
    GridColsAreColumns(s, width, height);
  }
}
