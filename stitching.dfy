/**
 * The cross-page stitching of backend/ocr/ocr_domain.py (`_global_cell_concat`,
 * `_cell_concat` and the canvas of `_img_concat`). A question that runs over a
 * page break ends in the last cut cell of one page and continues in the head
 * cell of the next; the head is merged into that last cell and then dropped.
 */
module Stitching {
  import opened Wrappers
  import opened Text
  import opened Base
  import opened Segmentation

  /** Margins of `_img_concat`. */
  const ConcatTab: int := 50
  const ConcatLine: int := 26

  /**
   * The canvas `_img_concat` stacks two images on: as wide as the wider one
   * plus the margin, as tall as both plus the line margin.
   */
  function ConcatSize(a: Size, b: Size): (r: Size)
    ensures r.width - ConcatTab >= a.width && r.width - ConcatTab >= b.width
    ensures r.width - ConcatTab == a.width || r.width - ConcatTab == b.width
    ensures r.height == a.height + b.height + ConcatLine
  {
    Size((if a.width >= b.width then a.width else b.width) + ConcatTab, a.height + b.height + ConcatLine)
  }

  /** What a pixel of the stacked canvas shows. */
  datatype Paint = FirstImage | SecondImage | Blank

  /** Whether `(x, y)` lies in the `s`-sized rectangle pasted at `(ox, oy)`. */
  predicate Covers(ox: int, oy: int, s: Size, x: int, y: int) {
    ox <= x < ox + s.width && oy <= y < oy + s.height
  }

  /**
   * The canvas of `_img_concat` pixel by pixel: white, then the first image
   * pasted at (0, 0), then the second at (0, h1), which covers whatever lies
   * under it. None outside the canvas.
   */
  function ConcatPixel(a: Size, b: Size, x: int, y: int): Option<Paint> {
    var canvas := ConcatSize(a, b);
    if !Covers(0, 0, canvas, x, y) then None
    else if Covers(0, a.height, b, x, y) then Some(SecondImage)
    else if Covers(0, 0, a, x, y) then Some(FirstImage)
    else Some(Blank)
  }

  /**
   * Both images survive on the canvas: every pixel of the first shows at its
   * own place, every pixel of the second shows h1 rows lower, and the line
   * margin below them stays blank.
   */
  lemma ConcatHoldsBoth(a: Size, b: Size, x: int, y: int)
    requires a.height >= 0 && b.height >= 0
    ensures Covers(0, 0, a, x, y) ==> ConcatPixel(a, b, x, y) == Some(FirstImage)
    ensures Covers(0, 0, b, x, y) ==> ConcatPixel(a, b, x, y + a.height) == Some(SecondImage)
    ensures 0 <= x < ConcatSize(a, b).width && a.height + b.height <= y < ConcatSize(a, b).height ==>
      ConcatPixel(a, b, x, y) == Some(Blank)
  {
  }

  /**
   * `_cell_concat(cell1, cell2)`: cell1 keeps its box and its path, its texts
   * are extended by cell2's, and its image becomes the two images stacked.
   */
  function CellConcat(c1: CutCell, c2: CutCell): (r: CutCell)
    ensures r.coordinate == c1.coordinate && r.path == c1.path
    ensures r.texts == c1.texts + c2.texts
    ensures r.img == ConcatSize(c1.img, c2.img)
  {
    c1.(texts := c1.texts + c2.texts, img := ConcatSize(c1.img, c2.img))
  }

  /** Every page list has a head and at least one cell after it. */
  predicate Stitchable(pages: seq<seq<CutCell>>) {
    forall i :: 0 <= i < |pages| ==> |pages[i]| >= 2
  }

  /** Page i after the fold: its head dropped, its last cell merged with the next page's head. */
  function StitchPage(pages: seq<seq<CutCell>>, i: nat): (r: seq<CutCell>)
    requires Stitchable(pages) && i < |pages|
    ensures |r| == |pages[i]| - 1
  {
    var rest := pages[i][1..];
    if i + 1 < |pages| then rest[..|rest| - 1] + [CellConcat(rest[|rest| - 1], pages[i + 1][0])]
    else rest
  }

  /** The pages as `_global_cell_concat` leaves them. */
  function Stitched(pages: seq<seq<CutCell>>): (r: seq<seq<CutCell>>)
    requires Stitchable(pages)
    ensures |r| == |pages| && forall i :: 0 <= i < |pages| ==> |r[i]| == |pages[i]| - 1
  {
    seq(|pages|, i requires 0 <= i < |pages| => StitchPage(pages, i))
  }

  /**
   * `_global_cell_concat`: one pass over the pages, carrying the last cell of
   * the previous page (`buffer_cell`, here the last slot of the previous list),
   * merging the page's head into it, then popping the head.
   */
  method GlobalCellConcat(list: array<seq<CutCell>>)
    requires Stitchable(list[..])
    modifies list
    ensures list[..] == Stitched(old(list[..]))
  {
    ghost var pages := list[..];
    var i := 0;
    while i < list.Length
      invariant 0 <= i <= list.Length == |pages|
      invariant forall k :: i <= k < list.Length ==> list[k] == pages[k]
      invariant forall k :: 0 <= k < i - 1 ==> list[k] == StitchPage(pages, k)
      invariant i > 0 ==> list[i - 1] == pages[i - 1][1..]
    {
      if i > 0 {
        var buffer := list[i - 1];
        list[i - 1] := buffer[..|buffer| - 1] + [CellConcat(buffer[|buffer| - 1], list[i][0])];
      }
      list[i] := list[i][1..];
      i := i + 1;
    }
    assert forall k :: 0 <= k < list.Length ==> list[k] == StitchPage(pages, k);
  }

  function TotalCells(pages: seq<seq<CutCell>>): nat
    decreases |pages|
  {
    if pages == [] then 0 else TotalCells(pages[..|pages| - 1]) + |pages[|pages| - 1]|
  }

  /** Stitching removes exactly one cell per page: the total becomes the sum of (length - 1). */
  lemma StitchedTotal(pages: seq<seq<CutCell>>)
    requires Stitchable(pages)
    ensures TotalCells(Stitched(pages)) == TotalCells(pages) - |pages|
  {
    OneFewerEach(Stitched(pages), pages);
  }

  lemma {:induction false} OneFewerEach(a: seq<seq<CutCell>>, b: seq<seq<CutCell>>)
    requires |a| == |b| && forall i :: 0 <= i < |a| ==> |a[i]| + 1 == |b[i]|
    ensures TotalCells(a) == TotalCells(b) - |b|
    decreases |a|
  {
    if a != [] {
      OneFewerEach(a[..|a| - 1], b[..|b| - 1]);
    }
  }

  /**
   * Only one cell of each page but the last changes: its last one, whose texts
   * gain the next page's head texts. Every other cell is the cell one place
   * further in the original list, and the last page's last cell is untouched.
   */
  lemma StitchedCells(pages: seq<seq<CutCell>>, i: nat, j: nat)
    requires Stitchable(pages) && i < |pages| && j < |pages[i]| - 1
    ensures var c := Stitched(pages)[i][j];
      if i + 1 < |pages| && j == |pages[i]| - 2 then
        c.texts == pages[i][j + 1].texts + pages[i + 1][0].texts &&
        c.path == pages[i][j + 1].path && c.coordinate == pages[i][j + 1].coordinate
      else c == pages[i][j + 1]
  {
  }

  /** The texts of a page's cut cells, in order. */
  function PageTexts(cells: seq<CutCell>): seq<string> {
    Flatten(CutTexts(cells))
  }

  /** The texts of all pages, in page order. */
  function DocTexts(pages: seq<seq<CutCell>>): seq<string>
    decreases |pages|
  {
    if pages == [] then [] else DocTexts(pages[..|pages| - 1]) + PageTexts(pages[|pages| - 1])
  }

  lemma PageTextsAppend(xs: seq<CutCell>, ys: seq<CutCell>)
    ensures PageTexts(xs + ys) == PageTexts(xs) + PageTexts(ys)
  {
    assert CutTexts(xs + ys) == CutTexts(xs) + CutTexts(ys);
    FlattenAppend(CutTexts(xs), CutTexts(ys));
  }

  lemma PageTextsOne(c: CutCell)
    ensures PageTexts([c]) == c.texts
  {
    var ss := CutTexts([c]);
    assert ss == [c.texts];
    assert ss[..0] == [];
    assert Flatten(ss) == Flatten(ss[..0]) + ss[0];
  }

  /** A stitched page holds its cells' texts after the head, then the next head's texts. */
  lemma StitchPageTexts(pages: seq<seq<CutCell>>, i: nat)
    requires Stitchable(pages) && i < |pages|
    ensures PageTexts(pages[i]) == pages[i][0].texts + PageTexts(pages[i][1..])
    ensures PageTexts(StitchPage(pages, i)) ==
      PageTexts(pages[i][1..]) + (if i + 1 < |pages| then pages[i + 1][0].texts else [])
  {
    HeadThenRest(pages[i]);
    if i + 1 < |pages| {
      LastMerged(pages[i][1..], pages[i + 1][0]);
    }
  }

  /** A list's texts are its first cell's, then the rest's. */
  lemma HeadThenRest(cells: seq<CutCell>)
    requires cells != []
    ensures PageTexts(cells) == cells[0].texts + PageTexts(cells[1..])
  {
    assert cells == [cells[0]] + cells[1..];
    PageTextsAppend([cells[0]], cells[1..]);
    PageTextsOne(cells[0]);
  }

  /** Merging a head into the last cell appends the head's texts to the list's. */
  lemma LastMerged(rest: seq<CutCell>, head: CutCell)
    requires rest != []
    ensures PageTexts(rest[..|rest| - 1] + [CellConcat(rest[|rest| - 1], head)]) == PageTexts(rest) + head.texts
  {
    var last := rest[|rest| - 1];
    assert rest == rest[..|rest| - 1] + [last];
    PageTextsAppend(rest[..|rest| - 1], [last]);
    PageTextsAppend(rest[..|rest| - 1], [CellConcat(last, head)]);
    PageTextsOne(last);
    PageTextsOne(CellConcat(last, head));
  }

  /**
   * Up to page k, the stitched texts together with the first head are the
   * original texts, the next page's head having moved onto page k - 1.
   */
  lemma {:induction false} StitchedTextsUpTo(pages: seq<seq<CutCell>>, k: nat)
    requires Stitchable(pages) && 1 <= k <= |pages|
    ensures pages[0][0].texts + DocTexts(Stitched(pages)[..k]) ==
      DocTexts(pages[..k]) + (if k < |pages| then pages[k][0].texts else [])
  {
    if k == 1 {
      NothingBefore(Stitched(pages), pages, pages[0][0].texts);
    } else {
      StitchedTextsUpTo(pages, k - 1);
    }
    StitchedTextsStep(pages, k, Stitched(pages), pages[0][0].texts);
  }

  /** One page more: what holds up to page k - 1 holds up to page k. */
  lemma StitchedTextsStep(pages: seq<seq<CutCell>>, k: nat, s: seq<seq<CutCell>>, h: seq<string>)
    requires Stitchable(pages) && 1 <= k <= |pages| && s == Stitched(pages) && h == pages[0][0].texts
    requires h + DocTexts(s[..k - 1]) == DocTexts(pages[..k - 1]) + pages[k - 1][0].texts
    ensures h + DocTexts(s[..k]) == DocTexts(pages[..k]) + (if k < |pages| then pages[k][0].texts else [])
  {
    StitchedStep(pages, k);
    OriginalStep(pages, k);
    Regroup(h, DocTexts(s[..k - 1]), DocTexts(pages[..k - 1]), pages[k - 1][0].texts,
            PageTexts(pages[k - 1][1..]), if k < |pages| then pages[k][0].texts else [], DocTexts(s[..k]), DocTexts(pages[..k]));
  }

  lemma NothingBefore(s: seq<seq<CutCell>>, pages: seq<seq<CutCell>>, h: seq<string>)
    ensures h + DocTexts(s[..0]) == DocTexts(pages[..0]) + h
  {
    assert s[..0] == [] && pages[..0] == [];
    assert h + [] == h && [] + h == h;
  }

  lemma StitchedStep(pages: seq<seq<CutCell>>, k: nat)
    requires Stitchable(pages) && 1 <= k <= |pages|
    ensures DocTexts(Stitched(pages)[..k]) == DocTexts(Stitched(pages)[..k - 1]) +
      (PageTexts(pages[k - 1][1..]) + (if k < |pages| then pages[k][0].texts else []))
  {
    var s := Stitched(pages);
    assert s[..k][..k - 1] == s[..k - 1];
    StitchPageTexts(pages, k - 1);
  }

  lemma OriginalStep(pages: seq<seq<CutCell>>, k: nat)
    requires Stitchable(pages) && 1 <= k <= |pages|
    ensures DocTexts(pages[..k]) == DocTexts(pages[..k - 1]) + (pages[k - 1][0].texts + PageTexts(pages[k - 1][1..]))
  {
    assert pages[..k][..k - 1] == pages[..k - 1];
    StitchPageTexts(pages, k - 1);
  }

  /** The head that moves between pages changes the grouping only. */
  lemma Regroup(h: seq<string>, b: seq<string>, a: seq<string>, head: seq<string>, rest: seq<string>, next: seq<string>,
                 stitched: seq<string>, original: seq<string>)
    requires h + b == a + head
    requires stitched == b + (rest + next) && original == a + (head + rest)
    ensures h + stitched == original + next
  {
    calc {
      h + (b + (rest + next));
      (h + b) + (rest + next);
      (a + head) + (rest + next);
      (a + (head + rest)) + next;
      original + next;
    }
  }

  /**
   * Stitching loses no text and reorders none: the document's texts after the
   * fold are its texts before, less the first page's head (which nothing
   * precedes and which is deleted).
   */
  lemma StitchedTexts(pages: seq<seq<CutCell>>)
    requires Stitchable(pages) && |pages| > 0
    ensures DocTexts(pages) == pages[0][0].texts + DocTexts(Stitched(pages))
  {
    StitchedTextsUpTo(pages, |pages|);
    assert Stitched(pages)[..|pages|] == Stitched(pages);
    assert pages[..|pages|] == pages;
  }
}
