/**
 * `_img_crop` of backend/ocr/ocr_domain.py: a saved segment image is scanned
 * for its inked pixels, and the image is replaced by their bounding box on a
 * white canvas with a margin of 5 pixels. Only channel 0 of each pixel is
 * read and kept, so an image is a grid of channel-0 values, row by row.
 */
module Cropping {
  import opened Wrappers

  type Grid = seq<seq<int>>

  /** Every row of the grid is `cols` pixels wide. */
  predicate Rectangular(g: Grid, cols: int) {
    forall r :: 0 <= r < |g| ==> |g[r]| == cols
  }

  /** The pixels of an image as `np.array` yields them: `g[r][c]` is row r, column c. */
  function Pixels(img: array2<int>): (g: Grid)
    reads img
    ensures |g| == img.Length0 && Rectangular(g, img.Length1)
    ensures forall r, c :: 0 <= r < img.Length0 && 0 <= c < img.Length1 ==> g[r][c] == img[r, c]
  {
    seq(img.Length0, r requires 0 <= r < img.Length0 reads img =>
      seq(img.Length1, c requires 0 <= c < img.Length1 reads img => img[r, c]))
  }

  /** A pixel counts as ink when it is neither white nor the black frame of the scan. */
  predicate Ink(v: int) {
    v < 255 && v != 0
  }

  /** The four extrema the scan keeps: leftmost and rightmost column, top and bottom row. */
  datatype Box4 = Box4(left: int, top: int, right: int, bottom: int)

  /** One pixel of the scan: an ink pixel widens the box to take it in. */
  function Visit(b: Box4, r: int, c: int, v: int): Box4 {
    if Ink(v) then
      Box4(if b.left > c then c else b.left, if b.top > r then r else b.top,
           if b.right < c then c else b.right, if b.bottom < r then r else b.bottom)
    else b
  }

  /** The first n pixels of row r, visited left to right. */
  function ScanRow(g: Grid, r: nat, n: nat, b: Box4): Box4
    requires r < |g| && n <= |g[r]|
  {
    if n == 0 then b else Visit(ScanRow(g, r, n - 1, b), r, n - 1, g[r][n - 1])
  }

  /** The first n rows, visited top to bottom. */
  function ScanRows(g: Grid, n: nat, b: Box4): Box4
    requires n <= |g|
  {
    if n == 0 then b else ScanRow(g, n - 1, |g[n - 1]|, ScanRows(g, n - 1, b))
  }

  /** The extrema after the whole grid, from the sentinels `init`. */
  function Scan(g: Grid, init: Box4): Box4 {
    ScanRows(g, |g|, init)
  }

  /** Pixel (r, c) is read before position (row, col) in row-major order. */
  predicate Seen(g: Grid, row: int, col: int, r: int, c: int) {
    0 <= r < |g| && 0 <= c < |g[r]| && (r < row || (r == row && c < col))
  }

  predicate Within(b: Box4, r: int, c: int) {
    b.left <= c <= b.right && b.top <= r <= b.bottom
  }

  /**
   * What the scan up to (row, col) has computed, stated without the loop:
   * every extremum has moved away from its sentinel only to an ink pixel seen so
   * far, and every ink pixel seen so far lies inside the box.
   */
  ghost predicate Summarizes(g: Grid, row: int, col: int, init: Box4, b: Box4) {
    && b.left <= init.left && b.top <= init.top && b.right >= init.right && b.bottom >= init.bottom
    && (forall r, c :: Seen(g, row, col, r, c) && Ink(g[r][c]) ==> Within(b, r, c))
    && (b.left == init.left || exists r, c :: Seen(g, row, col, r, c) && Ink(g[r][c]) && c == b.left)
    && (b.right == init.right || exists r, c :: Seen(g, row, col, r, c) && Ink(g[r][c]) && c == b.right)
    && (b.top == init.top || exists r, c :: Seen(g, row, col, r, c) && Ink(g[r][c]) && r == b.top)
    && (b.bottom == init.bottom || exists r, c :: Seen(g, row, col, r, c) && Ink(g[r][c]) && r == b.bottom)
  }

  lemma SummarizesStart(g: Grid, init: Box4)
    ensures Summarizes(g, 0, 0, init, init)
  {
  }

  /** Visiting the next pixel of the row keeps the summary. */
  lemma SummarizesVisit(g: Grid, row: nat, col: nat, init: Box4, b: Box4)
    requires row < |g| && col < |g[row]| && Summarizes(g, row, col, init, b)
    ensures Summarizes(g, row, col + 1, init, Visit(b, row, col, g[row][col]))
  {
    var b' := Visit(b, row, col, g[row][col]);
    VisitCovers(g, row, col, b);
    ColumnWitnessKept(g, row, col, init.left, b.left, b'.left);
    ColumnWitnessKept(g, row, col, init.right, b.right, b'.right);
    RowWitnessKept(g, row, col, init.top, b.top, b'.top);
    RowWitnessKept(g, row, col, init.bottom, b.bottom, b'.bottom);
  }

  /** The box widened by the next pixel still holds every ink pixel seen. */
  lemma VisitCovers(g: Grid, row: nat, col: nat, b: Box4)
    requires row < |g| && col < |g[row]|
    requires forall r, c :: Seen(g, row, col, r, c) && Ink(g[r][c]) ==> Within(b, r, c)
    ensures forall r, c :: Seen(g, row, col + 1, r, c) && Ink(g[r][c]) ==> Within(Visit(b, row, col, g[row][col]), r, c)
  {
    var b' := Visit(b, row, col, g[row][col]);
    forall r, c | Seen(g, row, col + 1, r, c) && Ink(g[r][c]) ensures Within(b', r, c) {
      if !(r == row && c == col) {
        assert Seen(g, row, col, r, c);
      }
    }
  }

  /** A column extremum that stays or moves to the next (ink) pixel keeps a witness. */
  lemma ColumnWitnessKept(g: Grid, row: nat, col: nat, start: int, side: int, side': int)
    requires row < |g| && col < |g[row]|
    requires side == start || exists r, c :: Seen(g, row, col, r, c) && Ink(g[r][c]) && c == side
    requires side' == side || (side' == col && Ink(g[row][col]))
    ensures side' == start || exists r, c :: Seen(g, row, col + 1, r, c) && Ink(g[r][c]) && c == side'
  {
    if side' != start {
      if side' == col && Ink(g[row][col]) {
        assert Seen(g, row, col + 1, row, col);
      } else {
        var r, c :| Seen(g, row, col, r, c) && Ink(g[r][c]) && c == side;
        assert Seen(g, row, col + 1, r, c);
      }
    }
  }

  /** A row extremum that stays or moves to the current row at an ink pixel keeps a witness. */
  lemma RowWitnessKept(g: Grid, row: nat, col: nat, start: int, side: int, side': int)
    requires row < |g| && col < |g[row]|
    requires side == start || exists r, c :: Seen(g, row, col, r, c) && Ink(g[r][c]) && r == side
    requires side' == side || (side' == row && Ink(g[row][col]))
    ensures side' == start || exists r, c :: Seen(g, row, col + 1, r, c) && Ink(g[r][c]) && r == side'
  {
    if side' != start {
      if side' == row && Ink(g[row][col]) {
        assert Seen(g, row, col + 1, row, col);
      } else {
        var r, c :| Seen(g, row, col, r, c) && Ink(g[r][c]) && r == side;
        assert Seen(g, row, col + 1, r, c);
      }
    }
  }

  /** The end of a row is the start of the next one. */
  lemma SummarizesNextRow(g: Grid, row: nat, init: Box4, b: Box4)
    requires row < |g| && Summarizes(g, row, |g[row]|, init, b)
    ensures Summarizes(g, row + 1, 0, init, b)
  {
    forall r, c ensures Seen(g, row + 1, 0, r, c) == Seen(g, row, |g[row]|, r, c) {
    }
  }

  lemma {:induction false} ScanRowSummarizes(g: Grid, row: nat, n: nat, init: Box4)
    requires row < |g| && n <= |g[row]|
    ensures Summarizes(g, row, n, init, ScanRow(g, row, n, ScanRows(g, row, init)))
    decreases row, 1, n
  {
    if n == 0 {
      ScanRowsSummarizes(g, row, init);
    } else {
      ScanRowSummarizes(g, row, n - 1, init);
      SummarizesVisit(g, row, n - 1, init, ScanRow(g, row, n - 1, ScanRows(g, row, init)));
    }
  }

  lemma {:induction false} ScanRowsSummarizes(g: Grid, n: nat, init: Box4)
    requires n <= |g|
    ensures Summarizes(g, n, 0, init, ScanRows(g, n, init))
    decreases n, 0, 0
  {
    if n == 0 {
      SummarizesStart(g, init);
    } else {
      ScanRowSummarizes(g, n - 1, |g[n - 1]|, init);
      SummarizesNextRow(g, n - 1, init, ScanRows(g, n, init));
    }
  }

  predicate HasInk(g: Grid) {
    exists r, c :: 0 <= r < |g| && 0 <= c < |g[r]| && Ink(g[r][c])
  }

  /**
   * The bounding box of the ink: every ink pixel inside it, and ink in its
   * leftmost and rightmost column and in its top and bottom row.
   */
  predicate IsInkBox(g: Grid, b: Box4) {
    && (forall r, c :: 0 <= r < |g| && 0 <= c < |g[r]| && Ink(g[r][c]) ==> Within(b, r, c))
    && (exists r, c :: 0 <= r < |g| && 0 <= c < |g[r]| && Ink(g[r][c]) && c == b.left)
    && (exists r, c :: 0 <= r < |g| && 0 <= c < |g[r]| && Ink(g[r][c]) && c == b.right)
    && (exists r, c :: 0 <= r < |g| && 0 <= c < |g[r]| && Ink(g[r][c]) && r == b.top)
    && (exists r, c :: 0 <= r < |g| && 0 <= c < |g[r]| && Ink(g[r][c]) && r == b.bottom)
  }

  /** A grid has one ink bounding box at most. */
  lemma InkBoxUnique(g: Grid, a: Box4, b: Box4)
    requires IsInkBox(g, a) && IsInkBox(g, b)
    ensures a == b
  {
    SameColumn(g, a, b.left);
    SameColumn(g, b, a.left);
    SameColumn(g, a, b.right);
    SameColumn(g, b, a.right);
    SameRow(g, a, b.top);
    SameRow(g, b, a.top);
    SameRow(g, a, b.bottom);
    SameRow(g, b, a.bottom);
  }

  /** A column holding ink lies within the columns of a box that holds all the ink. */
  lemma SameColumn(g: Grid, a: Box4, col: int)
    requires forall r, c :: 0 <= r < |g| && 0 <= c < |g[r]| && Ink(g[r][c]) ==> Within(a, r, c)
    requires exists r, c :: 0 <= r < |g| && 0 <= c < |g[r]| && Ink(g[r][c]) && c == col
    ensures a.left <= col <= a.right
  {
    var r, c :| 0 <= r < |g| && 0 <= c < |g[r]| && Ink(g[r][c]) && c == col;
    assert Within(a, r, c);
  }

  /** A row holding ink lies within the rows of a box that holds all the ink. */
  lemma SameRow(g: Grid, a: Box4, row: int)
    requires forall r, c :: 0 <= r < |g| && 0 <= c < |g[r]| && Ink(g[r][c]) ==> Within(a, r, c)
    requires exists r, c :: 0 <= r < |g| && 0 <= c < |g[r]| && Ink(g[r][c]) && r == row
    ensures a.top <= row <= a.bottom
  {
    var r, c :| 0 <= r < |g| && 0 <= c < |g[r]| && Ink(g[r][c]) && r == row;
    assert Within(a, r, c);
  }

  /** The sentinels as `_img_crop` writes them: `x_left` starts at the row count, `x_top` at the column count. */
  function AsWrittenInit(rows: int, cols: int): Box4 {
    Box4(rows, cols, 0, 0)
  }

  /** The sentinels the scan needs: the leftmost column starts past the last column, the top row past the last row. */
  function FixedInit(rows: int, cols: int): Box4 {
    Box4(cols, rows, 0, 0)
  }

  /**
   * Every ink pixel lies inside the box the scan returns, whichever sentinels
   * it starts from; with no ink pixel the sentinels come back unchanged.
   */
  lemma ScanCovers(g: Grid, init: Box4)
    ensures forall r, c :: 0 <= r < |g| && 0 <= c < |g[r]| && Ink(g[r][c]) ==> Within(Scan(g, init), r, c)
    ensures !HasInk(g) ==> Scan(g, init) == init
  {
    ScanRowsSummarizes(g, |g|, init);
    forall r, c | 0 <= r < |g| && 0 <= c < |g[r]| && Ink(g[r][c]) ensures Within(Scan(g, init), r, c) {
      assert Seen(g, |g|, 0, r, c);
    }
  }

  /** From the right sentinels, the scan of a grid with ink is exactly its ink bounding box. */
  lemma FixedScanIsInkBox(g: Grid, cols: int)
    requires Rectangular(g, cols) && HasInk(g)
    ensures IsInkBox(g, Scan(g, FixedInit(|g|, cols)))
  {
    var init := FixedInit(|g|, cols);
    var b := Scan(g, init);
    ScanRowsSummarizes(g, |g|, init);
    var r0, c0 :| 0 <= r0 < |g| && 0 <= c0 < |g[r0]| && Ink(g[r0][c0]);
    assert Seen(g, |g|, 0, r0, c0);
    forall r, c | 0 <= r < |g| && 0 <= c < |g[r]| && Ink(g[r][c]) ensures Within(b, r, c) {
      assert Seen(g, |g|, 0, r, c);
    }
    if b.right == 0 {
      assert Ink(g[r0][c0]) && c0 == b.right;
    }
    if b.bottom == 0 {
      assert Ink(g[r0][c0]) && r0 == b.bottom;
    }
  }

  /**
   * The segment image rebuilt as `_img_crop` does it: a white canvas with a
   * margin of 5 pixels on every side, and the w-by-h region of `g` whose top
   * left pixel is (top, left) pasted at (5, 5).
   */
  function Framed(g: Grid, cols: int, left: int, top: int, w: int, h: int): (f: Grid)
    requires Rectangular(g, cols)
    requires 0 <= left && 0 <= w && left + w <= cols && 0 <= top && 0 <= h && top + h <= |g|
    ensures |f| == h + 10 && Rectangular(f, w + 10)
  {
    seq(h + 10, y requires 0 <= y < h + 10 =>
      seq(w + 10, x requires 0 <= x < w + 10 =>
        if 5 <= y < h + 5 && 5 <= x < w + 5 then g[top + y - 5][left + x - 5] else 255))
  }

  /** A pixel of the rebuilt image: a pixel of the region inside the margin, white in it. */
  lemma FramedAt(g: Grid, cols: int, left: int, top: int, w: int, h: int, y: int, x: int)
    requires Rectangular(g, cols)
    requires 0 <= left && 0 <= w && left + w <= cols && 0 <= top && 0 <= h && top + h <= |g|
    requires 0 <= y < h + 10 && 0 <= x < w + 10
    ensures Framed(g, cols, left, top, w, h)[y][x] ==
      if 5 <= y < h + 5 && 5 <= x < w + 5 then g[top + y - 5][left + x - 5] else 255
  {
  }

  /**
   * `_img_crop` as written: the scan from the swapped sentinels, then the crop
   * box `(x_left, x_top, x_right, x_bottom)`, whose right column and bottom row
   * PIL leaves out, on a canvas 10 pixels larger. A box whose right edge lies
   * left of its left edge (or bottom above top) makes PIL raise: None.
   */
  function CropAsWritten(g: Grid, cols: nat): (r: Option<Grid>)
    requires Rectangular(g, cols)
    ensures var b := Scan(g, AsWrittenInit(|g|, cols));
      && (r.None? <==> b.right < b.left || b.bottom < b.top)
      && (r.Some? ==> |r.value| == b.bottom - b.top + 10 && Rectangular(r.value, b.right - b.left + 10))
  {
    var b := Scan(g, AsWrittenInit(|g|, cols));
    if b.right < b.left || b.bottom < b.top then None
    else
      AsWrittenBoxFits(g, cols);
      Some(Framed(g, cols, b.left, b.top, b.right - b.left, b.bottom - b.top))
  }

  /** A box the as-written crop accepts lies on the image. */
  lemma AsWrittenBoxFits(g: Grid, cols: nat)
    requires Rectangular(g, cols)
    ensures var b := Scan(g, AsWrittenInit(|g|, cols));
      !(b.right < b.left || b.bottom < b.top) ==>
        0 <= b.left && b.right <= cols && 0 <= b.top && b.bottom <= |g|
  {
    var init := AsWrittenInit(|g|, cols);
    var b := Scan(g, init);
    ScanRowsSummarizes(g, |g|, init);
    if b.right != init.right {
      var r, c :| Seen(g, |g|, 0, r, c) && Ink(g[r][c]) && c == b.right;
    }
    if b.bottom != init.bottom {
      var r, c :| Seen(g, |g|, 0, r, c) && Ink(g[r][c]) && r == b.bottom;
    }
  }

  /**
   * `_img_crop` with both slips put right: the sentinels in their places and
   * the crop box reaching one past the last ink row and column. An image
   * without ink is left to the caller: None.
   */
  function CropFixed(g: Grid, cols: int): (r: Option<Grid>)
    requires Rectangular(g, cols)
    ensures r.None? <==> !HasInk(g)
    ensures r.Some? ==> var b := Scan(g, FixedInit(|g|, cols));
      && IsInkBox(g, b)
      && r.value == Framed(g, cols, b.left, b.top, b.right - b.left + 1, b.bottom - b.top + 1)
  {
    if !HasInk(g) then None
    else
      var b := Scan(g, FixedInit(|g|, cols));
      FixedScanIsInkBox(g, cols);
      Some(Framed(g, cols, b.left, b.top, b.right - b.left + 1, b.bottom - b.top + 1))
  }

  /** An ink pixel of the pasted region is an ink pixel of the rebuilt image, shifted by the margin. */
  lemma FramedKeepsInk(g: Grid, cols: int, left: int, top: int, w: int, h: int, r: int, c: int)
    requires Rectangular(g, cols)
    requires 0 <= left && 0 <= w && left + w <= cols && 0 <= top && 0 <= h && top + h <= |g|
    requires top <= r < top + h && left <= c < left + w && Ink(g[r][c])
    ensures var f := Framed(g, cols, left, top, w, h);
      0 <= r - top + 5 < |f| && 0 <= c - left + 5 < |f[r - top + 5]| && Ink(f[r - top + 5][c - left + 5])
  {
    FramedAt(g, cols, left, top, w, h, r - top + 5, c - left + 5);
  }

  /** The ink of the rebuilt image lies in the pasted region. */
  lemma FramedInkInside(g: Grid, cols: int, left: int, top: int, w: int, h: int)
    requires Rectangular(g, cols)
    requires 0 <= left && 0 <= w && left + w <= cols && 0 <= top && 0 <= h && top + h <= |g|
    ensures var f := Framed(g, cols, left, top, w, h);
      forall y, x :: 0 <= y < |f| && 0 <= x < |f[y]| && Ink(f[y][x]) ==> Within(Box4(5, 5, w + 4, h + 4), y, x)
  {
    var f := Framed(g, cols, left, top, w, h);
    forall y, x | 0 <= y < |f| && 0 <= x < |f[y]| && Ink(f[y][x]) ensures Within(Box4(5, 5, w + 4, h + 4), y, x) {
      FramedAt(g, cols, left, top, w, h, y, x);
    }
  }

  /** The ink of the rebuilt image is the ink of the box, shifted to the margin. */
  lemma FramedInkBox(g: Grid, cols: int, b: Box4)
    requires Rectangular(g, cols) && IsInkBox(g, b) && b.right < cols
    ensures 0 <= b.left <= b.right && 0 <= b.top <= b.bottom < |g|
    ensures IsInkBox(Framed(g, cols, b.left, b.top, b.right - b.left + 1, b.bottom - b.top + 1),
                     Box4(5, 5, b.right - b.left + 5, b.bottom - b.top + 5))
  {
    var rl := InkInColumn(g, b, b.left);
    var rr := InkInColumn(g, b, b.right);
    var ct := InkInRow(g, b, b.top);
    var cb := InkInRow(g, b, b.bottom);
    FramedEdges(g, cols, b.left, b.top, b.right - b.left + 1, b.bottom - b.top + 1, rl, rr, ct, cb);
  }

  /** The row of an ink pixel in a given column of the ink box. */
  lemma InkInColumn(g: Grid, b: Box4, col: int) returns (r: int)
    requires forall r, c :: 0 <= r < |g| && 0 <= c < |g[r]| && Ink(g[r][c]) ==> Within(b, r, c)
    requires exists r, c :: 0 <= r < |g| && 0 <= c < |g[r]| && Ink(g[r][c]) && c == col
    ensures 0 <= r < |g| && 0 <= col < |g[r]| && Ink(g[r][col]) && Within(b, r, col)
  {
    var r', c :| 0 <= r' < |g| && 0 <= c < |g[r']| && Ink(g[r'][c]) && c == col;
    r := r';
  }

  /** The column of an ink pixel in a given row of the ink box. */
  lemma InkInRow(g: Grid, b: Box4, row: int) returns (c: int)
    requires forall r, c :: 0 <= r < |g| && 0 <= c < |g[r]| && Ink(g[r][c]) ==> Within(b, r, c)
    requires exists r, c :: 0 <= r < |g| && 0 <= c < |g[r]| && Ink(g[r][c]) && r == row
    ensures 0 <= row < |g| && 0 <= c < |g[row]| && Ink(g[row][c]) && Within(b, row, c)
  {
    var r, c' :| 0 <= r < |g| && 0 <= c' < |g[r]| && Ink(g[r][c']) && r == row;
    c := c';
  }

  /**
   * A region with ink in its first and last column and row gives a rebuilt
   * image whose ink box is the pasted region.
   */
  lemma FramedEdges(g: Grid, cols: int, left: int, top: int, w: int, h: int, rl: int, rr: int, ct: int, cb: int)
    requires Rectangular(g, cols)
    requires 0 <= left && 0 < w && left + w <= cols && 0 <= top && 0 < h && top + h <= |g|
    requires top <= rl < top + h && Ink(g[rl][left]) && top <= rr < top + h && Ink(g[rr][left + w - 1])
    requires left <= ct < left + w && Ink(g[top][ct]) && left <= cb < left + w && Ink(g[top + h - 1][cb])
    ensures IsInkBox(Framed(g, cols, left, top, w, h), Box4(5, 5, w + 4, h + 4))
  {
    FramedInkInside(g, cols, left, top, w, h);
    FramedKeepsInk(g, cols, left, top, w, h, rl, left);
    FramedKeepsInk(g, cols, left, top, w, h, rr, left + w - 1);
    FramedKeepsInk(g, cols, left, top, w, h, top, ct);
    FramedKeepsInk(g, cols, left, top, w, h, top + h - 1, cb);
    InkBoxByWitnesses(Framed(g, cols, left, top, w, h), Box4(5, 5, w + 4, h + 4),
                      rl - top + 5, 5, rr - top + 5, w + 4, 5, ct - left + 5, h + 4, cb - left + 5);
  }

  /** A box holding all the ink, with an ink pixel on each of its four sides, is the ink box. */
  lemma InkBoxByWitnesses(f: Grid, b: Box4, y1: int, x1: int, y2: int, x2: int, y3: int, x3: int, y4: int, x4: int)
    requires forall y, x :: 0 <= y < |f| && 0 <= x < |f[y]| && Ink(f[y][x]) ==> Within(b, y, x)
    requires 0 <= y1 < |f| && 0 <= x1 < |f[y1]| && Ink(f[y1][x1]) && x1 == b.left
    requires 0 <= y2 < |f| && 0 <= x2 < |f[y2]| && Ink(f[y2][x2]) && x2 == b.right
    requires 0 <= y3 < |f| && 0 <= x3 < |f[y3]| && Ink(f[y3][x3]) && y3 == b.top
    requires 0 <= y4 < |f| && 0 <= x4 < |f[y4]| && Ink(f[y4][x4]) && y4 == b.bottom
    ensures IsInkBox(f, b)
  {
  }

  /** Outside the w-by-h region pasted at (5, 5), the image is white. */
  predicate WhiteMargin(f: Grid, w: int, h: int) {
    forall y, x :: 0 <= y < |f| && 0 <= x < |f[y]| && !(5 <= y < h + 5 && 5 <= x < w + 5) ==> f[y][x] == 255
  }

  /** The rebuilt image is white outside the pasted region. */
  lemma FramedMargin(g: Grid, cols: int, left: int, top: int, w: int, h: int)
    requires Rectangular(g, cols)
    requires 0 <= left && 0 <= w && left + w <= cols && 0 <= top && 0 <= h && top + h <= |g|
    ensures WhiteMargin(Framed(g, cols, left, top, w, h), w, h)
  {
    var f := Framed(g, cols, left, top, w, h);
    forall y, x | 0 <= y < |f| && 0 <= x < |f[y]| && !(5 <= y < h + 5 && 5 <= x < w + 5) ensures f[y][x] == 255 {
      FramedAt(g, cols, left, top, w, h, y, x);
    }
  }

  /** Cutting an image along its pasted region, with the same margin, gives it back. */
  lemma FramedRefits(f: Grid, w: int, h: int)
    requires 0 <= w && 0 <= h && |f| == h + 10 && Rectangular(f, w + 10) && WhiteMargin(f, w, h)
    ensures Framed(f, w + 10, 5, 5, w, h) == f
  {
    var f' := Framed(f, w + 10, 5, 5, w, h);
    forall y | 0 <= y < h + 10 ensures f'[y] == f[y] {
      forall x | 0 <= x < w + 10 ensures f'[y][x] == f[y][x] {
        FramedAt(f, w + 10, 5, 5, w, h, y, x);
      }
    }
  }

  /** What the corrected crop produces: its ink box sits at (5, 5) in a white margin. */
  lemma CropFixedShape(g: Grid, cols: int)
    requires Rectangular(g, cols) && HasInk(g)
    ensures var b := Scan(g, FixedInit(|g|, cols));
      var w, h := b.right - b.left + 1, b.bottom - b.top + 1;
      var f := CropFixed(g, cols).value;
      && 0 <= w && 0 <= h && |f| == h + 10 && Rectangular(f, w + 10)
      && IsInkBox(f, Box4(5, 5, w + 4, h + 4)) && WhiteMargin(f, w, h)
  {
    var b := Scan(g, FixedInit(|g|, cols));
    FixedScanIsInkBox(g, cols);
    var r0 := InkInColumn(g, b, b.right);
    FramedInkBox(g, cols, b);
    var w, h := b.right - b.left + 1, b.bottom - b.top + 1;
    CropFixedFrames(g, cols, b.left, b.top, w, h);
    FramedMargin(g, cols, b.left, b.top, w, h);
  }

  /** An image whose ink box is its pasted region is a fixed point of the corrected crop. */
  lemma RecropFramed(f: Grid, w: int, h: int)
    requires 0 <= w && 0 <= h && |f| == h + 10 && Rectangular(f, w + 10)
    requires IsInkBox(f, Box4(5, 5, w + 4, h + 4)) && WhiteMargin(f, w, h)
    ensures CropFixed(f, w + 10) == Some(f)
  {
    var y, x :| 0 <= y < |f| && 0 <= x < |f[y]| && Ink(f[y][x]) && x == 5;
    assert HasInk(f);
    var b := Scan(f, FixedInit(|f|, w + 10));
    FixedScanIsInkBox(f, w + 10);
    InkBoxUnique(f, b, Box4(5, 5, w + 4, h + 4));
    CropFixedFrames(f, w + 10, 5, 5, w, h);
    FramedRefits(f, w, h);
  }

  /** The corrected crop of an image with ink frames the region its scan finds. */
  lemma CropFixedFrames(g: Grid, cols: int, left: int, top: int, w: int, h: int)
    requires Rectangular(g, cols) && HasInk(g)
    requires Scan(g, FixedInit(|g|, cols)) == Box4(left, top, left + w - 1, top + h - 1)
    requires 0 <= left && 0 <= w && left + w <= cols && 0 <= top && 0 <= h && top + h <= |g|
    ensures CropFixed(g, cols) == Some(Framed(g, cols, left, top, w, h))
  {
  }

  /**
   * The corrected crop is idempotent: cropping an image it has produced gives
   * that image back, pixel for pixel.
   */
  lemma CropFixedIdempotent(g: Grid, cols: int)
    requires Rectangular(g, cols) && HasInk(g)
    ensures var b := Scan(g, FixedInit(|g|, cols));
      CropFixed(CropFixed(g, cols).value, b.right - b.left + 11) == CropFixed(g, cols)
  {
    var b := Scan(g, FixedInit(|g|, cols));
    CropFixedShape(g, cols);
    RecropFramed(CropFixed(g, cols).value, b.right - b.left + 1, b.bottom - b.top + 1);
  }

  /**
   * `_img_crop` on the pixels of the segment image, with both slips put
   * right: the nested scan over rows and columns with the four extrema, from
   * the sentinels the scan needs, then the crop of the ink box. The leftmost
   * column still at its sentinel means no ink was found.
   */
  method ImgCrop(img: array2<int>) returns (out: Option<Grid>)
    ensures out == CropFixed(Pixels(img), img.Length1)
  {
    var g := Pixels(img);
    var rows, cols := img.Length0, img.Length1;
    var left, top, right, bottom := cols, rows, 0, 0;
    var r := 0;
    while r < rows
      invariant 0 <= r <= rows
      invariant Box4(left, top, right, bottom) == ScanRows(g, r, FixedInit(rows, cols))
    {
      var c := 0;
      while c < cols
        invariant 0 <= c <= cols
        invariant Box4(left, top, right, bottom) == ScanRow(g, r, c, ScanRows(g, r, FixedInit(rows, cols)))
      {
        var v := img[r, c];
        if v < 255 && v != 0 {
          if top > r { top := r; }
          if bottom < r { bottom := r; }
          if left > c { left := c; }
          if right < c { right := c; }
        }
        c := c + 1;
      }
      r := r + 1;
    }
    NoInkAtSentinel(g, cols);
    if left == cols {
      out := None;
    } else {
      out := Some(Framed(g, cols, left, top, right - left + 1, bottom - top + 1));
    }
  }

  /**
   * From the right sentinels, the leftmost column stays at its sentinel
   * exactly when there is no ink; otherwise the box lies on the image.
   */
  lemma NoInkAtSentinel(g: Grid, cols: int)
    requires Rectangular(g, cols)
    ensures var b := Scan(g, FixedInit(|g|, cols));
      && (b.left == cols <==> !HasInk(g))
      && (HasInk(g) ==> 0 <= b.left <= b.right < cols && 0 <= b.top <= b.bottom < |g|)
  {
    ScanCovers(g, FixedInit(|g|, cols));
    if HasInk(g) {
      var b := Scan(g, FixedInit(|g|, cols));
      FixedScanIsInkBox(g, cols);
      var r := InkInColumn(g, b, b.left);
      var r' := InkInColumn(g, b, b.right);
      FramedInkBox(g, cols, b);
    }
  }

  /**
   * The swapped sentinels: in a 1-by-3 image whose only ink pixel is in column
   * 2, the scan keeps `x_left` at the row count 1, so the box starts one column
   * left of the ink, where the right sentinels find the true box.
   */
  lemma SwappedSentinels()
    ensures Scan([[255, 255, 100]], AsWrittenInit(1, 3)) == Box4(1, 0, 2, 0)
    ensures Scan([[255, 255, 100]], FixedInit(1, 3)) == Box4(2, 0, 2, 0)
    ensures !IsInkBox([[255, 255, 100]], Scan([[255, 255, 100]], AsWrittenInit(1, 3)))
  {
    var g: Grid := [[255, 255, 100]];
    assert ScanRows(g, 0, AsWrittenInit(1, 3)) == Box4(1, 3, 0, 0);
    assert ScanRow(g, 0, 1, Box4(1, 3, 0, 0)) == Box4(1, 3, 0, 0);
    assert ScanRow(g, 0, 2, Box4(1, 3, 0, 0)) == Box4(1, 3, 0, 0);
    assert ScanRow(g, 0, 3, Box4(1, 3, 0, 0)) == Box4(1, 0, 2, 0);
    assert ScanRows(g, 0, FixedInit(1, 3)) == Box4(3, 1, 0, 0);
    assert ScanRow(g, 0, 1, Box4(3, 1, 0, 0)) == Box4(3, 1, 0, 0);
    assert ScanRow(g, 0, 2, Box4(3, 1, 0, 0)) == Box4(3, 1, 0, 0);
    assert ScanRow(g, 0, 3, Box4(3, 1, 0, 0)) == Box4(2, 0, 2, 0);
    forall r, c | 0 <= r < |g| && 0 <= c < |g[r]| && Ink(g[r][c]) ensures c == 2 {
      assert r == 0 && (c == 0 || c == 1 || c == 2);
    }
  }

  /** An all-white 10-by-10 image, what the as-written crop makes of a single ink pixel. */
  function Blank(): (f: Grid)
    ensures |f| == 10 && Rectangular(f, 10) && !HasInk(f)
  {
    seq(10, y requires 0 <= y < 10 => seq(10, x requires 0 <= x < 10 => 255))
  }

  /**
   * The crop box that leaves out its right column and bottom row: a segment
   * whose ink is one pixel comes out blank, 10 by 10.
   */
  lemma LastPixelDropped()
    ensures CropAsWritten([[100]], 1) == Some(Blank())
  {
    var g: Grid := [[100]];
    assert ScanRows(g, 0, AsWrittenInit(1, 1)) == Box4(1, 1, 0, 0);
    assert ScanRow(g, 0, 1, Box4(1, 1, 0, 0)) == Box4(0, 0, 0, 0);
    assert Scan(g, AsWrittenInit(1, 1)) == Box4(0, 0, 0, 0);
    var f := Framed(g, 1, 0, 0, 0, 0);
    FramedMargin(g, 1, 0, 0, 0, 0);
    forall y | 0 <= y < 10 ensures f[y] == Blank()[y] {
      assert |f[y]| == 10;
    }
    assert f == Blank();
  }

  /** Cropping the blank result again fails: no ink leaves the sentinels, an inverted box. */
  lemma BlankRecropFails()
    ensures CropAsWritten(Blank(), 10) == None
  {
    ScanCovers(Blank(), AsWrittenInit(10, 10));
  }

  /** The corrected crop keeps the single pixel, at (5, 5) of an 11-by-11 image. */
  lemma FixedKeepsPixel()
    ensures var f := CropFixed([[100]], 1);
      f.Some? && |f.value| == 11 && |f.value[5]| == 11 && f.value[5][5] == 100
  {
    var g: Grid := [[100]];
    assert Ink(g[0][0]);
    assert ScanRows(g, 0, FixedInit(1, 1)) == Box4(1, 1, 0, 0);
    assert ScanRow(g, 0, 1, Box4(1, 1, 0, 0)) == Box4(0, 0, 0, 0);
    assert Scan(g, FixedInit(1, 1)) == Box4(0, 0, 0, 0);
    FramedAt(g, 1, 0, 0, 1, 1, 5, 5);
  }
}
