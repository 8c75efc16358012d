/**
 * The page segmentation of backend/ocr/ocr_domain.py (`_global_cell_cut` and the
 * size arithmetic of `_img_cut`): each analysed page is cut into a head region
 * and one region per numbered question, every region is saved under a tag, and
 * the page's texts inside the layout are shared out among the regions.
 */
module Segmentation {
  import opened Wrappers
  import opened Text
  import opened Base
  import opened Labelling
  import opened PixelDistribute

  /** Python's `int(v)` of a float: truncation toward zero. */
  function Trunc(v: real): (r: int)
    ensures v >= 0.0 ==> 0 <= r && r as real <= v < r as real + 1.0
    ensures v < 0.0 ==> r <= 0 && r as real - 1.0 < v <= r as real
  {
    if v >= 0.0 then v.Floor else -((-v).Floor)
  }

  /**
   * The blank canvas of `_img_cut`: the region's extent truncated to whole
   * pixels, widened by the left/right and top/bottom margins.
   */
  function CanvasSize(c1: Point, c2: Point, tab: int, line: int): (r: Size)
    ensures c1.x <= c2.x ==> (c2.x - c1.x) + (tab - 1) as real < r.width as real <= (c2.x - c1.x) + tab as real
    ensures c1.y <= c2.y ==> (c2.y - c1.y) + (line - 1) as real < r.height as real <= (c2.y - c1.y) + line as real
  {
    Size(Trunc(c2.x - c1.x) + tab, Trunc(c2.y - c1.y) + line)
  }

  /** A crop box `(left, top, right, bottom)` in page pixels. */
  datatype Box = Box(left: real, top: real, right: real, bottom: real)

  /**
   * The part of the page `_img_cut` crops: the region grown by half a margin on
   * every side, clamped at the page's top and left border.
   */
  function CropBox(c1: Point, c2: Point, tab: int, line: int): (r: Box)
    ensures r.left >= 0.0 && r.left >= c1.x - tab as real / 2.0 && (r.left == 0.0 || r.left == c1.x - tab as real / 2.0)
    ensures r.top >= 0.0 && r.top >= c1.y - line as real / 2.0 && (r.top == 0.0 || r.top == c1.y - line as real / 2.0)
    ensures r.right == c2.x + tab as real / 2.0 && r.bottom == c2.y + line as real / 2.0
  {
    Box(Max(c1.x - tab as real / 2.0, 0.0), Max(c1.y - line as real / 2.0, 0.0),
        c2.x + tab as real / 2.0, c2.y + line as real / 2.0)
  }

  /** With non-negative margins the crop box contains the region on the page. */
  lemma CropCoversRegion(c1: Point, c2: Point, tab: int, line: int)
    requires tab >= 0 && line >= 0 && c1.x >= 0.0 && c1.y >= 0.0
    ensures var b := CropBox(c1, c2, tab, line);
      b.left <= c1.x && b.top <= c1.y && c2.x <= b.right && c2.y <= b.bottom
  {
  }

  /**
   * Away from the page border the crop is exactly as large as the region plus
   * the margins, so the canvas it is pasted on holds it up to a fraction of a
   * pixel.
   */
  lemma CropFillsCanvas(c1: Point, c2: Point, tab: int, line: int)
    requires c1.x <= c2.x && c1.y <= c2.y
    requires c1.x >= tab as real / 2.0 && c1.y >= line as real / 2.0
    ensures var b := CropBox(c1, c2, tab, line);
      var s := CanvasSize(c1, c2, tab, line);
      b.right - b.left - 1.0 < s.width as real <= b.right - b.left &&
      b.bottom - b.top - 1.0 < s.height as real <= b.bottom - b.top
  {
  }

  /** Margins `_global_cell_cut` hands to `_img_cut`. */
  const TabSpace: int := 50
  const LineSpace: int := 26

  /** The file a region is saved to: the page's output stem, '_', the tag, ".jpg". */
  function SavePath(stem: string, tag: string): string {
    stem + "_" + tag + ".jpg"
  }

  /** The head region is tagged "hb"; region j after it carries the j-th number. */
  function Tag(numbers: seq<nat>, j: nat): string
    requires j <= |numbers|
  {
    if j == 0 then "hb" else DecimalString(numbers[j - 1])
  }

  /** `get_number` reads back the tag of a saved region, whatever the stem. */
  lemma {:induction false} SavePathNumber(stem: string, tag: string)
    requires '_' !in tag && '.' !in tag
    ensures ParseInt(BeforeFirst(AfterLast(SavePath(stem, tag), '_'), '.')) == ParseInt(tag)
  {
    var path := SavePath(stem, tag);
    assert path == stem + ['_'] + (tag + ".jpg");
    AfterLastOfTail(stem, tag + ".jpg", '_');
    assert tag + ".jpg" == tag + ['.'] + "jpg";
    BeforeFirstOfHead(tag, "jpg", '.');
  }

  /** The head region's path does not parse: `int('hb')` raises. */
  lemma HeadTagRejected(stem: string, c: CutCell)
    requires c.path == SavePath(stem, "hb")
    ensures GetNumber(c) == None
  {
    SavePathNumber(stem, "hb");
    HeadTagValue();
  }

  lemma HeadTagValue()
    ensures ParseInt("hb") == None
  {
    StripUnchanged("hb");
    assert !IsDigit("hb"[0]);
  }

  /** A region saved under number n reads back as n. */
  lemma NumberTagParses(stem: string, n: nat, c: CutCell)
    requires c.path == SavePath(stem, DecimalString(n))
    ensures GetNumber(c) == Some(n as int)
  {
    var d := DecimalString(n);
    DigitsHaveNoSeparator(d, '_');
    DigitsHaveNoSeparator(d, '.');
    SavePathNumber(stem, d);
    ParseDecimal(n);
  }

  lemma DigitsHaveNoSeparator(d: string, sep: char)
    requires IsDigits(d) && !IsDigit(sep)
    ensures sep !in d
  {
    forall i | 0 <= i < |d| ensures d[i] != sep {
      assert IsDigit(d[i]);
    }
  }

  /** Any region's tag reads back: None for the head, the j-th number for region j. */
  lemma TagNumber(stem: string, numbers: seq<nat>, j: nat, c: CutCell)
    requires j <= |numbers| && c.path == SavePath(stem, Tag(numbers, j))
    ensures j == 0 ==> GetNumber(c) == None
    ensures j > 0 ==> GetNumber(c) == Some(numbers[j - 1] as int)
  {
    if j == 0 {
      HeadTagRejected(stem, c);
    } else {
      NumberTagParses(stem, numbers[j - 1], c);
    }
  }

  /** The numbered cells, in list order. */
  function Numbered(cells: seq<OcrCell>): (r: seq<OcrCell>)
    ensures |r| <= |cells|
    ensures forall i :: 0 <= i < |r| ==> r[i].number.Some?
    decreases |cells|
  {
    if cells == [] then []
    else Numbered(cells[..|cells| - 1]) + (if cells[|cells| - 1].number.Some? then [cells[|cells| - 1]] else [])
  }

  /** The numbered cells carry, in order, the numbers `NumbersOf` lists. */
  lemma {:induction false} NumberedNumbers(cells: seq<OcrCell>)
    ensures |Numbered(cells)| == |NumbersOf(cells)|
    ensures forall i :: 0 <= i < |Numbered(cells)| ==> Numbered(cells)[i].number == Some(NumbersOf(cells)[i])
  {
    if cells != [] {
      NumberedNumbers(cells[..|cells| - 1]);
    }
  }

  /**
   * Region j of the page: the head (j == 0) starts at the top of the page,
   * region j > 0 at the top of the j-th numbered cell; a region ends a character
   * height above the next numbered cell (never above the page), the last one at
   * the bottom edge. All regions span from the number edge to the right edge.
   */
  function Region(p: PageStructure, j: nat): Rect
    requires j <= |Numbered(p.cells)|
  {
    var ns := Numbered(p.cells);
    var top := if j == 0 then 0.0 else ns[j - 1].coordinate.tl.y;
    var bottom := if j < |ns| then Max(ns[j].coordinate.tl.y - p.charHeight, 0.0) else p.bottomEdge;
    Rect(Point(p.numberLeftEdge, top), Point(p.rightEdge, bottom))
  }

  /** The cells inside the layout and neither header nor footer (`o_cs`). */
  predicate InLayout(p: PageStructure, c: OcrCell) {
    c.coordinate.tl.x >= p.numberLeftEdge && c.coordinate.tr.x <= p.rightEdge && !c.isHeader && !c.isFooter
  }

  function Kept(p: PageStructure, cells: seq<OcrCell>): (r: seq<OcrCell>)
    ensures |r| <= |cells|
    ensures forall i :: 0 <= i < |r| ==> InLayout(p, r[i]) && r[i] in cells
    decreases |cells|
  {
    if cells == [] then []
    else Kept(p, cells[..|cells| - 1]) + (if InLayout(p, cells[|cells| - 1]) then [cells[|cells| - 1]] else [])
  }

  /** The numbered cells are exactly the cells at the numbered positions, once each and in order. */
  lemma {:induction false} NumberedComplete(cs: seq<OcrCell>)
    ensures var pos := Positions(cs, IsNumbered);
      && |Numbered(cs)| == |pos|
      && forall k :: 0 <= k < |pos| ==> Numbered(cs)[k] == cs[pos[k]]
    decreases |cs|
  {
    if cs != [] {
      var n := |cs| - 1;
      var pre := cs[..n];
      NumberedComplete(pre);
      var pos, pos' := Positions(cs, IsNumbered), Positions(pre, IsNumbered);
      var r, r' := Numbered(cs), Numbered(pre);
      assert pos == pos' + (if IsNumbered(cs[n]) then [n] else []);
      assert r == r' + (if cs[n].number.Some? then [cs[n]] else []);
      forall k | 0 <= k < |pos| ensures r[k] == cs[pos[k]] {
        if k < |pos'| {
          assert r[k] == r'[k] && cs[pos[k]] == pre[pos'[k]];
        }
      }
    }
  }

  /** The cells of the layout. */
  function InLayoutOf(p: PageStructure): OcrCell -> bool {
    (c: OcrCell) => InLayout(p, c)
  }

  /** `Kept` holds exactly the cells of the layout, once each and in order. */
  lemma {:induction false} KeptComplete(p: PageStructure, cells: seq<OcrCell>)
    ensures var pos := Positions(cells, InLayoutOf(p));
      && |Kept(p, cells)| == |pos|
      && forall k :: 0 <= k < |pos| ==> Kept(p, cells)[k] == cells[pos[k]]
    decreases |cells|
  {
    if cells != [] {
      var n := |cells| - 1;
      var pre := cells[..n];
      KeptComplete(p, pre);
      var keep := InLayoutOf(p);
      var pos, pos' := Positions(cells, keep), Positions(pre, keep);
      var r, r' := Kept(p, cells), Kept(p, pre);
      assert pos == pos' + (if keep(cells[n]) then [n] else []);
      assert r == r' + (if InLayout(p, cells[n]) then [cells[n]] else []);
      forall k | 0 <= k < |pos| ensures r[k] == cells[pos[k]] {
        if k < |pos'| {
          assert r[k] == r'[k] && cells[pos[k]] == pre[pos'[k]];
        }
      }
    }
  }

  /** The cut points `idx`: 0, every numbered position, and the end. */
  function Bounds(cs: seq<OcrCell>): (b: seq<nat>)
    ensures |b| == |Numbered(cs)| + 2
    ensures b[0] == 0 && b[|b| - 1] == |cs|
    ensures forall i, j :: 0 <= i <= j < |b| ==> b[i] <= b[j]
  {
    NumberedComplete(cs);
    [0] + Positions(cs, IsNumbered) + [|cs|]
  }

  /** The cut points between the ends are the numbered cells' positions. */
  lemma BoundsNumbered(cs: seq<OcrCell>, i: nat)
    requires 1 <= i < |Bounds(cs)| - 1
    ensures Bounds(cs)[i] < |cs| && cs[Bounds(cs)[i]].number.Some?
  {
  }

  function Texts(cs: seq<OcrCell>): (r: seq<string>)
    ensures |r| == |cs| && forall i :: 0 <= i < |cs| ==> r[i] == cs[i].text
  {
    seq(|cs|, i requires 0 <= i < |cs| => cs[i].text)
  }

  /** The texts of the j-th slice of `cs`, or none where there are fewer slices. */
  function Segment(cs: seq<OcrCell>, j: nat): seq<string> {
    var b := Bounds(cs);
    if j + 1 < |b| then Texts(cs[b[j]..b[j + 1]]) else []
  }

  lemma SegmentIs(cs: seq<OcrCell>, j: nat)
    requires j + 1 < |Bounds(cs)|
    ensures Segment(cs, j) == Texts(cs[Bounds(cs)[j]..Bounds(cs)[j + 1]])
  {
  }

  /** How many regions `zip` lets through: one per number and numbered cell, plus the head. */
  function CutCount(p: PageStructure): nat {
    var n := |Numbered(p.cells)|;
    (if n <= |p.numbers| then n else |p.numbers|) + 1
  }

  /** Region j cut out, before any text is shared out to it. */
  function CutFrame(p: PageStructure, stem: string, j: nat): CutCell
    requires j < CutCount(p)
  {
    var rect := Region(p, j);
    NewCutCell(rect, SavePath(stem, Tag(p.numbers, j)), CanvasSize(rect.topLeft, rect.bottomRight, TabSpace, LineSpace))
  }

  /** Region j cut out, with the texts of its slice of the kept cells. */
  function CutAt(p: PageStructure, stem: string, j: nat): CutCell
    requires j < CutCount(p)
  {
    CutFrame(p, stem, j).(texts := Segment(Kept(p, p.cells), j))
  }

  /** The cut cells of one page, as `_global_cell_cut` leaves them. */
  function PageCut(p: PageStructure, stem: string): (r: seq<CutCell>)
    ensures |r| == CutCount(p)
  {
    seq(CutCount(p), j requires 0 <= j < CutCount(p) => CutAt(p, stem, j))
  }

  /** The body of `_global_cell_cut` for one page: cut the regions, then share out the texts. */
  method CutPage(p: PageStructure, stem: string) returns (cuts: seq<CutCell>)
    ensures cuts == PageCut(p, stem)
  {
    var frames := CutFrames(p, stem);
    cuts := ShareTexts(frames, Kept(p, p.cells));
    forall q | 0 <= q < |cuts| ensures cuts[q] == CutAt(p, stem, q) {
      assert frames[q].texts == [];
    }
  }

  /** The first loop of the page's body: one empty cut cell per region, saved under its tag. */
  method CutFrames(p: PageStructure, stem: string) returns (cuts: seq<CutCell>)
    ensures |cuts| == CutCount(p) && forall q :: 0 <= q < |cuts| ==> cuts[q] == CutFrame(p, stem, q)
  {
    var count := CutCount(p);
    cuts := [];
    var j := 0;
    while j < count
      invariant 0 <= j <= count && |cuts| == j
      invariant forall q :: 0 <= q < j ==> cuts[q] == CutFrame(p, stem, q)
    {
      var rect := Region(p, j);
      var size := CanvasSize(rect.topLeft, rect.bottomRight, TabSpace, LineSpace);
      cuts := cuts + [NewCutCell(rect, SavePath(stem, Tag(p.numbers, j)), size)];
      j := j + 1;
    }
  }

  /**
   * The second loop: `zip(cut_cells, idx[:-1], idx[1:])` extends cut cell q by
   * the texts of slice q of the kept cells; cells beyond the last slice keep
   * their texts.
   */
  method ShareTexts(cuts: seq<CutCell>, kept: seq<OcrCell>) returns (r: seq<CutCell>)
    ensures |r| == |cuts|
    ensures forall q :: 0 <= q < |cuts| ==> r[q] == cuts[q].(texts := cuts[q].texts + Segment(kept, q))
  {
    var idx := Bounds(kept);
    r := cuts;
    var k := 0;
    while k < |cuts| && k + 1 < |idx|
      invariant 0 <= k <= |cuts| == |r|
      invariant forall q :: 0 <= q < k ==> r[q] == cuts[q].(texts := cuts[q].texts + Segment(kept, q))
      invariant forall q :: k <= q < |cuts| ==> r[q] == cuts[q]
    {
      SegmentIs(kept, k);
      r := r[k := r[k].(texts := r[k].texts + Texts(kept[idx[k]..idx[k + 1]]))];
      k := k + 1;
    }
    forall q | k <= q < |cuts| ensures r[q] == cuts[q].(texts := cuts[q].texts + Segment(kept, q)) {
      assert Segment(kept, q) == [];
      assert cuts[q].texts + [] == cuts[q].texts;
    }
  }

  /** `_global_cell_cut`: the pages and their image stems, paired as `zip` pairs them. */
  method GlobalCellCut(pages: seq<PageStructure>, stems: seq<string>) returns (list: seq<seq<CutCell>>)
    ensures |list| == (if |pages| <= |stems| then |pages| else |stems|)
    ensures forall i :: 0 <= i < |list| ==> list[i] == PageCut(pages[i], stems[i])
  {
    list := [];
    var i := 0;
    while i < |pages| && i < |stems|
      invariant 0 <= i <= |pages| && i <= |stems| && |list| == i
      invariant forall q :: 0 <= q < i ==> list[q] == PageCut(pages[q], stems[q])
    {
      var cuts := CutPage(pages[i], stems[i]);
      list := list + [cuts];
      i := i + 1;
    }
  }

  /** A page whose numbers are as many as its numbered cells, as `distribute` delivers. */
  predicate Consistent(p: PageStructure) {
    |p.numbers| == |Numbered(p.cells)|
  }

  /**
   * A page with k numbers and k numbered cells gives k + 1 cut cells: the head
   * tagged "hb", which `get_number` rejects, and then one per number, in order,
   * each reading back as its number.
   */
  lemma PageCutTags(p: PageStructure, stem: string)
    requires Consistent(p)
    ensures |PageCut(p, stem)| == |p.numbers| + 1
    ensures GetNumber(PageCut(p, stem)[0]) == None
    ensures forall j :: 1 <= j < |PageCut(p, stem)| ==> GetNumber(PageCut(p, stem)[j]) == Some(p.numbers[j - 1] as int)
  {
    var r := PageCut(p, stem);
    TagNumber(stem, p.numbers, 0, r[0]);
    forall j | 1 <= j < |r| ensures GetNumber(r[j]) == Some(p.numbers[j - 1] as int) {
      TagNumber(stem, p.numbers, j, r[j]);
    }
  }

  /**
   * The regions tile the page: the head starts at the top, region j > 0 at the
   * j-th numbered cell, each ends a character height above where the next one
   * starts (clamped at 0), and on a consistent page the last ends at the
   * bottom edge. All span from the number edge to the right edge.
   */
  lemma PageCutRegions(p: PageStructure, stem: string)
    ensures var r := PageCut(p, stem);
      && r[0].coordinate.topLeft == Point(p.numberLeftEdge, 0.0)
      && (forall j :: 1 <= j < |r| ==> r[j].coordinate.topLeft == Point(p.numberLeftEdge, Numbered(p.cells)[j - 1].coordinate.tl.y))
      && (forall j :: 0 <= j < |r| - 1 ==>
            r[j].coordinate.bottomRight == Point(p.rightEdge, Max(r[j + 1].coordinate.topLeft.y - p.charHeight, 0.0)))
      && (Consistent(p) ==> r[|r| - 1].coordinate.bottomRight == Point(p.rightEdge, p.bottomEdge))
  {
    var r := PageCut(p, stem);
    forall j | 0 <= j < |r| ensures r[j].coordinate == Region(p, j) {
      CutRegion(p, stem, j);
    }
  }

  lemma CutRegion(p: PageStructure, stem: string, j: nat)
    requires j < CutCount(p)
    ensures PageCut(p, stem)[j].coordinate == Region(p, j)
  {
    assert PageCut(p, stem)[j] == CutAt(p, stem, j);
  }

  lemma CutPath(p: PageStructure, stem: string, j: nat)
    requires j < CutCount(p)
    ensures j <= |p.numbers| && PageCut(p, stem)[j].path == SavePath(stem, Tag(p.numbers, j))
  {
    assert PageCut(p, stem)[j] == CutAt(p, stem, j);
  }

  lemma TextsSplit(cs: seq<OcrCell>, x: nat, y: nat)
    requires x <= y <= |cs|
    ensures Texts(cs[..y]) == Texts(cs[..x]) + Texts(cs[x..y])
  {
    assert cs[..y] == cs[..x] + cs[x..y];
  }

  /** The texts of consecutive slices from 0 concatenate to the prefix up to the k-th cut. */
  lemma {:induction false} SlicesConcat(cs: seq<OcrCell>, b: seq<nat>, k: nat)
    requires k < |b| && b[0] == 0
    requires forall i, j :: 0 <= i <= j < |b| ==> b[i] <= b[j]
    requires forall i :: 0 <= i < |b| ==> b[i] <= |cs|
    ensures Flatten(seq(k, j requires 0 <= j < k => Texts(cs[b[j]..b[j + 1]]))) == Texts(cs[..b[k]])
  {
    var ss := seq(k, j requires 0 <= j < k => Texts(cs[b[j]..b[j + 1]]));
    if k == 0 {
      assert ss == [];
    } else {
      SlicesConcat(cs, b, k - 1);
      assert ss[..k - 1] == seq(k - 1, j requires 0 <= j < k - 1 => Texts(cs[b[j]..b[j + 1]]));
      TextsSplit(cs, b[k - 1], b[k]);
    }
  }

  /** The slices of `idx` concatenate to the texts up to the k-th cut point. */
  lemma SegmentsConcat(cs: seq<OcrCell>, k: nat)
    requires k < |Bounds(cs)|
    ensures Flatten(seq(k, j requires 0 <= j < k => Segment(cs, j))) == Texts(cs[..Bounds(cs)[k]])
  {
    var b := Bounds(cs);
    SlicesConcat(cs, b, k);
    SegmentsAreSlices(cs, b, k);
  }

  lemma SegmentsAreSlices(cs: seq<OcrCell>, b: seq<nat>, k: nat)
    requires b == Bounds(cs) && k < |b|
    ensures seq(k, j requires 0 <= j < k => Segment(cs, j)) == seq(k, j requires 0 <= j < k => Texts(cs[b[j]..b[j + 1]]))
  {
    var s1 := seq(k, j requires 0 <= j < k => Segment(cs, j));
    var s2 := seq(k, j requires 0 <= j < k => Texts(cs[b[j]..b[j + 1]]));
    forall j | 0 <= j < k ensures s1[j] == s2[j] {
      SegmentIs(cs, j);
    }
  }

  /** Numbered cells that survive the layout filter are never more than the numbered cells. */
  lemma {:induction false} KeptNumbered(p: PageStructure, cells: seq<OcrCell>)
    ensures |Numbered(Kept(p, cells))| <= |Numbered(cells)|
  {
    if cells != [] {
      var pre := cells[..|cells| - 1];
      KeptNumbered(p, pre);
      var k := Kept(p, cells);
      var last := cells[|cells| - 1];
      assert Numbered(cells) == Numbered(pre) + (if last.number.Some? then [last] else []);
      if InLayout(p, last) {
        assert k == Kept(p, pre) + [last];
        assert k[..|k| - 1] == Kept(p, pre) && k[|k| - 1] == last;
        assert Numbered(k) == Numbered(Kept(p, pre)) + (if last.number.Some? then [last] else []);
      } else {
        assert k == Kept(p, pre);
      }
    }
  }

  function CutTexts(cuts: seq<CutCell>): (r: seq<seq<string>>)
    ensures |r| == |cuts| && forall j :: 0 <= j < |cuts| ==> r[j] == cuts[j].texts
  {
    seq(|cuts|, j requires 0 <= j < |cuts| => cuts[j].texts)
  }

  /**
   * On a page with at least as many numbers as numbered cells, the texts of
   * the cut cells, read in order, are exactly the texts of the cells inside the
   * layout, in order; the head gets those before the first numbered one.
   */
  lemma PageCutPartition(p: PageStructure, stem: string)
    requires |p.numbers| >= |Numbered(p.cells)|
    ensures var kept := Kept(p, p.cells);
      var r := PageCut(p, stem);
      && Flatten(CutTexts(r)) == Texts(kept)
      && (exists f :: 0 <= f <= |kept| && r[0].texts == Texts(kept[..f]) &&
                      (forall i :: 0 <= i < f ==> kept[i].number == None) &&
                      (f == |kept| || kept[f].number.Some?))
  {
    var kept := Kept(p, p.cells);
    var r := PageCut(p, stem);
    KeptNumbered(p, p.cells);
    var ts := CutTexts(r);
    forall j | 0 <= j < |r| ensures ts[j] == Segment(kept, j) {
      assert r[j] == CutAt(p, stem, j);
    }
    AllSegments(kept, ts);
    assert r[0] == CutAt(p, stem, 0);
    HeadSegment(kept);
    var b := Bounds(kept);
    if |b| > 2 {
      BoundsNumbered(kept, 1);
    }
    var f := b[1];
    assert r[0].texts == Texts(kept[..f]);
    assert f == |kept| || kept[f].number.Some?;
  }

  /** Every cut cell after the head that holds any text starts with a numbered cell's text. */
  lemma PageCutLaterShares(p: PageStructure, stem: string)
    requires |p.numbers| >= |Numbered(p.cells)|
    ensures var kept := Kept(p, p.cells);
      var r := PageCut(p, stem);
      forall j :: 1 <= j < |r| && r[j].texts != [] ==>
        exists i :: 0 <= i < |kept| && kept[i].number.Some? && r[j].texts[0] == kept[i].text
  {
    var kept := Kept(p, p.cells);
    var r := PageCut(p, stem);
    KeptNumbered(p, p.cells);
    var ts := CutTexts(r);
    forall j | 0 <= j < |r| ensures ts[j] == Segment(kept, j) {
      assert r[j] == CutAt(p, stem, j);
    }
    LaterSharesNumbered(kept, ts);
  }

  /** The shares after the head that hold any text start with a numbered cell's text. */
  lemma LaterSharesNumbered(cs: seq<OcrCell>, ts: seq<seq<string>>)
    requires forall j :: 0 <= j < |ts| ==> ts[j] == Segment(cs, j)
    ensures forall j :: 1 <= j < |ts| && ts[j] != [] ==>
      exists i :: 0 <= i < |cs| && cs[i].number.Some? && ts[j][0] == cs[i].text
  {
    forall j | 1 <= j < |ts| && ts[j] != []
      ensures exists i :: 0 <= i < |cs| && cs[i].number.Some? && ts[j][0] == cs[i].text
    {
      SegmentStartsNumbered(cs, j);
      var i := Bounds(cs)[j];
      assert cs[i].number.Some? && ts[j][0] == cs[i].text;
    }
  }

  /** A non-empty share after the head starts with the text of the numbered cell it is cut at. */
  lemma SegmentStartsNumbered(cs: seq<OcrCell>, j: nat)
    requires 1 <= j && Segment(cs, j) != []
    ensures var b := Bounds(cs);
      && j + 1 < |b| && b[j] < |cs| && cs[b[j]].number.Some?
      && Segment(cs, j)[0] == cs[b[j]].text
  {
    var b := Bounds(cs);
    assert j + 1 < |b|;
    assert b[j] < b[j + 1];
    BoundsNumbered(cs, j);
  }

  /** Enough shares, each the matching slice, concatenate to all of `cs`'s texts. */
  lemma AllSegments(cs: seq<OcrCell>, ts: seq<seq<string>>)
    requires |ts| >= |Bounds(cs)| - 1
    requires forall j :: 0 <= j < |ts| ==> ts[j] == Segment(cs, j)
    ensures Flatten(ts) == Texts(cs)
  {
    var n := |Bounds(cs)| - 1;
    SegmentsConcat(cs, n);
    SharesUpTo(cs, ts, n);
    SharesAfter(cs, ts, n);
    assert cs[..Bounds(cs)[n]] == cs;
    SplitFlatten(ts, n);
  }

  lemma SplitFlatten<T>(ss: seq<seq<T>>, n: nat)
    requires n <= |ss| && Flatten(ss[n..]) == []
    ensures Flatten(ss) == Flatten(ss[..n])
  {
    assert ss == ss[..n] + ss[n..];
    FlattenAppend(ss[..n], ss[n..]);
  }

  lemma SharesUpTo(cs: seq<OcrCell>, ts: seq<seq<string>>, n: nat)
    requires n <= |ts|
    requires forall j :: 0 <= j < |ts| ==> ts[j] == Segment(cs, j)
    ensures ts[..n] == seq(n, j requires 0 <= j < n => Segment(cs, j))
  {
  }

  lemma SharesAfter(cs: seq<OcrCell>, ts: seq<seq<string>>, n: nat)
    requires n == |Bounds(cs)| - 1 && n <= |ts|
    requires forall j :: 0 <= j < |ts| ==> ts[j] == Segment(cs, j)
    ensures Flatten(ts[n..]) == []
  {
    var rest := ts[n..];
    forall j | 0 <= j < |rest| ensures rest[j] == [] {
      assert rest[j] == Segment(cs, n + j);
    }
    EmptyFlatten(rest);
  }

  /** The head's share is the run of cells before the first numbered one. */
  lemma HeadSegment(cs: seq<OcrCell>)
    ensures var b := Bounds(cs);
      Segment(cs, 0) == Texts(cs[..b[1]]) && forall i :: 0 <= i < b[1] ==> cs[i].number == None
  {
    var b := Bounds(cs);
    assert cs[b[0]..b[1]] == cs[..b[1]];
    var pos := Positions(cs, IsNumbered);
    forall k | 0 <= k < |cs| && cs[k].number.Some? ensures b[1] <= k {
      assert IsNumbered(cs[k]);
      var q :| 0 <= q < |pos| && pos[q] == k;
      assert pos[0] <= pos[q];
    }
  }

  lemma {:induction false} EmptyFlatten(ss: seq<seq<string>>)
    requires forall j :: 0 <= j < |ss| ==> ss[j] == []
    ensures Flatten(ss) == []
    decreases |ss|
  {
    if ss != [] {
      EmptyFlatten(ss[..|ss| - 1]);
    }
  }
}
