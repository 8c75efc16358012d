/**
 * `_description_remove` of backend/ocr/ocr_domain.py: the segments of the last
 * question of a section (10 and 16) run on into the next section's header; the
 * segment is re-read, and when a header line is found the image is cut off at
 * its top and the texts from that line on are dropped.
 */
module Trimming {
  import opened Wrappers
  import opened Text
  import opened Base
  import opened PixelDistribute
  import opened Segmentation
  import opened Stitching

  /**
   * The header a segment may carry, by the number `get_number` reads from its
   * path: after question 10 the fill-in one, after 16 the solve one.
   */
  function TrimMode(n: Option<int>): (m: Option<Mode>)
    ensures m == Some(FillIn) <==> n == Some(10)
    ensures m == Some(Solve) <==> n == Some(16)
    ensures m != Some(Choose)
  {
    if n == Some(10) then Some(FillIn) else if n == Some(16) then Some(Solve) else None
  }

  /** A whole-pixel coordinate survives `int()` unchanged. */
  lemma TruncWhole(n: int)
    ensures Trunc(n as real) == n
  {
    if n < 0 {
      assert (-(n as real)).Floor == -n;
    }
  }

  /**
   * A segment cut at a header line: the texts before the header's index
   * (`texts[:idx]`) and the image cut to the header's top, keeping its width.
   */
  function CutAtHeader(c: CutCell, idx: nat, top: real): (r: CutCell)
    ensures r.coordinate == c.coordinate && r.path == c.path && r.img.width == c.img.width
    ensures r.texts == c.texts[..if idx <= |c.texts| then idx else |c.texts|]
    ensures r.img.height == Trunc(top)
  {
    TruncWhole(c.img.width);
    c.(texts := c.texts[..if idx <= |c.texts| then idx else |c.texts|],
       img := CanvasSize(Point(0.0, 0.0), Point(c.img.width as real, top), 0, 0))
  }

  /**
   * One cell of `_description_remove`, given the number `get_number` reads
   * from its path and what the OCR engine reads in its image. Cells other
   * than 10 and 16 are left alone, and so are cells in which no header line is
   * found; the others are cut at the header. A path holding no number makes
   * `get_number` raise; `DescriptionRemove` requires that none occurs.
   */
  function TrimCell(c: CutCell, n: Option<int>, pieces: seq<RawPiece>): (r: CutCell)
    ensures r.coordinate == c.coordinate && r.path == c.path && r.img.width == c.img.width
    ensures |r.texts| <= |c.texts| && r.texts == c.texts[..|r.texts|]
  {
    match TrimMode(n)
    case None => c
    case Some(mode) =>
      var (idx, height) := HeightOf(NewMiniPixelCube(pieces, mode));
      if height == None then c else CutAtHeader(c, idx, height.value)
  }

  /**
   * Which cells are cut, and where: none but 10 and 16, and of those only the
   * ones in which the header line is found; such a cell keeps the texts
   * before the header's index and an image as tall as the header's top.
   */
  lemma TrimCellCuts(c: CutCell, n: Option<int>, pieces: seq<RawPiece>)
    ensures var r := TrimCell(c, n, pieces);
      && (n != Some(10) && n != Some(16) ==> r == c)
      && (n == Some(10) || n == Some(16) ==>
            var (idx, height) := HeightOf(NewMiniPixelCube(pieces, if n == Some(10) then FillIn else Solve));
            && (height == None ==> r == c)
            && (height.Some? ==>
                  r.texts == c.texts[..if idx <= |c.texts| then idx else |c.texts|] && r.img.height == Trunc(height.value)))
  {
  }

  /** The cell's path carries a number, which `get_number` needs. */
  predicate HasNumber(c: CutCell) {
    GetNumber(c).Some?
  }

  /** Every cut cell of every page has a number. */
  predicate AllNumbered(pages: seq<seq<CutCell>>) {
    forall i, j {:trigger HasNumber(pages[i][j])} :: 0 <= i < |pages| && 0 <= j < |pages[i]| ==> HasNumber(pages[i][j])
  }

  /**
   * The precondition holds where `_description_remove` is called: once the
   * heads (tagged "hb") are folded away, every cut cell left is a numbered
   * region, whose path ends in its question number.
   */
  lemma StitchedCutsNumbered(pages: seq<PageStructure>, stems: seq<string>, list: seq<seq<CutCell>>)
    requires |list| <= |pages| && |list| <= |stems|
    requires forall i :: 0 <= i < |list| ==> list[i] == PageCut(pages[i], stems[i])
    requires Stitchable(list)
    ensures AllNumbered(Stitched(list))
  {
    var s := Stitched(list);
    forall i, j | 0 <= i < |s| && 0 <= j < |s[i]| ensures HasNumber(s[i][j]) {
      StitchedCellNumbered(pages, stems, list, i, j);
    }
  }

  lemma StitchedCellNumbered(pages: seq<PageStructure>, stems: seq<string>, list: seq<seq<CutCell>>, i: nat, j: nat)
    requires i < |list| <= |pages| && |list| <= |stems|
    requires list[i] == PageCut(pages[i], stems[i])
    requires Stitchable(list) && j < |list[i]| - 1
    ensures HasNumber(Stitched(list)[i][j])
  {
    StitchedCells(list, i, j);
    CutPath(pages[i], stems[i], j + 1);
    TagNumber(stems[i], pages[i].numbers, j + 1, list[i][j + 1]);
  }

  /** Each page's cut cells trimmed, each with what the OCR engine reads at its path. */
  function TrimPage(cells: seq<CutCell>, ocr: string -> seq<RawPiece>): (r: seq<CutCell>)
    ensures |r| == |cells|
  {
    seq(|cells|, j requires 0 <= j < |cells| => TrimCell(cells[j], GetNumber(cells[j]), ocr(cells[j].path)))
  }

  /** The body of the inner loop of `_description_remove`, for one cell. */
  method TrimOne(c: CutCell, ocr: string -> seq<RawPiece>) returns (r: CutCell)
    ensures r == TrimCell(c, GetNumber(c), ocr(c.path))
  {
    r := c;
    var mode := TrimMode(GetNumber(c));
    if mode.Some? {
      var cube := NewMiniPixelCube(ocr(c.path), mode.value);
      var idx, height := GetHeight(cube);
      if height.Some? {
        r := CutAtHeader(c, idx, height.value);
      }
    }
  }

  /** The inner loop of `_description_remove`: every cell of one page, in order. */
  method TrimCells(cells: seq<CutCell>, ocr: string -> seq<RawPiece>) returns (r: seq<CutCell>)
    ensures r == TrimPage(cells, ocr)
  {
    r := cells;
    var j := 0;
    while j < |r|
      invariant 0 <= j <= |r| == |cells|
      invariant forall q :: 0 <= q < j ==> r[q] == TrimCell(cells[q], GetNumber(cells[q]), ocr(cells[q].path))
      invariant forall q :: j <= q < |r| ==> r[q] == cells[q]
    {
      var c := TrimOne(r[j], ocr);
      r := r[j := c];
      j := j + 1;
    }
  }

  /**
   * `_description_remove`: a pass over every cell of every page; cells 10 and
   * 16 are re-read, searched for their header line and cut there.
   */
  method DescriptionRemove(list: array<seq<CutCell>>, ocr: string -> seq<RawPiece>)
    requires AllNumbered(list[..])
    modifies list
    ensures forall i :: 0 <= i < list.Length ==> list[i] == TrimPage(old(list[i]), ocr)
  {
    var i := 0;
    while i < list.Length
      invariant 0 <= i <= list.Length
      invariant forall k :: 0 <= k < i ==> list[k] == TrimPage(old(list[k]), ocr)
      invariant forall k :: i <= k < list.Length ==> list[k] == old(list[k])
    {
      list[i] := TrimCells(list[i], ocr);
      i := i + 1;
    }
  }

  /**
   * Trimming a page keeps its cells, their boxes and their paths; it only
   * ever shortens a transcript, and it touches no cell but 10 and 16.
   */
  lemma TrimPageShortens(cells: seq<CutCell>, ocr: string -> seq<RawPiece>, j: nat)
    requires j < |cells|
    ensures var t := TrimPage(cells, ocr)[j];
      && t.coordinate == cells[j].coordinate && t.path == cells[j].path
      && t.texts == cells[j].texts[..|t.texts|]
      && (GetNumber(cells[j]) != Some(10) && GetNumber(cells[j]) != Some(16) ==> t == cells[j])
  {
    var n := GetNumber(cells[j]);
    TrimCellCuts(cells[j], n, ocr(cells[j].path));
  }
}
