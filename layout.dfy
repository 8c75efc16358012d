/**
 * Page analysis of backend/nlp/pixel_distribute.py: PixelCube numbers a page's
 * cells and estimates the page geometry (character metrics, the left, number
 * and right edges as most frequent snapped coordinates, and the bottom edge
 * from the footer); MiniPixelCube finds the first line of a section header
 * inside a finished segment.
 */
module PixelDistribute {
  import opened Wrappers
  import opened Text
  import opened Base
  import opened Trigger
  import opened Labelling

  function Sum(s: seq<real>): real
    decreases |s|
  {
    if s == [] then 0.0 else Sum(s[..|s| - 1]) + s[|s| - 1]
  }

  /** `statistics.mean`, exactly (floating-point rounding is not modelled). */
  function Mean(s: seq<real>): real
    requires |s| > 0
  {
    Sum(s) / |s| as real
  }

  lemma {:induction false} SumBounds(s: seq<real>, lo: real, hi: real)
    requires forall i :: 0 <= i < |s| ==> lo <= s[i] <= hi
    ensures |s| as real * lo <= Sum(s) <= |s| as real * hi
  {
    if s != [] {
      SumBounds(s[..|s| - 1], lo, hi);
    }
  }

  /** A mean lies between the least and the greatest value averaged. */
  lemma MeanBounds(s: seq<real>, lo: real, hi: real)
    requires |s| > 0
    requires forall i :: 0 <= i < |s| ==> lo <= s[i] <= hi
    ensures lo <= Mean(s) <= hi
  {
    SumBounds(s, lo, hi);
    var n := |s| as real;
    assert Sum(s) / n >= (n * lo) / n;
    assert Sum(s) / n <= (n * hi) / n;
  }

  /** `v` is a most frequent value of `s` (ties between such values are not resolved). */
  predicate IsModeOf(v: real, s: seq<real>) {
    v in s && forall w :: w in s ==> multiset(s)[w] <= multiset(s)[v]
  }

  /** A value of `s[..j]` whose count in `s` no other value of `s[..j]` exceeds. */
  function MostFrequent(s: seq<real>, j: nat): (r: real)
    requires 0 < j <= |s|
    ensures r in s[..j]
    ensures forall i :: 0 <= i < j ==> multiset(s)[s[i]] <= multiset(s)[r]
  {
    if j == 1 then s[0]
    else
      var best := MostFrequent(s, j - 1);
      if multiset(s)[s[j - 1]] > multiset(s)[best] then s[j - 1] else best
  }

  /** `pd.value_counts(s).sort_values(ascending=False).index[0]`. */
  function ModeOf(s: seq<real>): (r: real)
    requires |s| > 0
    ensures IsModeOf(r, s)
  {
    assert s[..|s|] == s;
    MostFrequent(s, |s|)
  }

  /** `x // cw * cw`: `x` snapped down to a multiple of the character width. */
  function Snap(x: real, cw: real): real
    requires cw != 0.0
  {
    ((x / cw).Floor as real) * cw
  }

  /** `(x // cw + 1) * cw`: the next multiple of the character width above `x`. */
  function SnapUp(x: real, cw: real): real
    requires cw != 0.0
  {
    (((x / cw).Floor + 1) as real) * cw
  }

  /** With a positive width, snapping down never passes `x` and snapping up always does. */
  lemma SnapBrackets(x: real, cw: real)
    requires cw > 0.0
    ensures Snap(x, cw) <= x < SnapUp(x, cw)
  {
    var q := x / cw;
    var f := q.Floor as real;
    assert f <= q < f + 1.0;
    assert q * cw == x;
    ScaleMonotone(f, q, cw);
    ScaleStrict(q, f + 1.0, cw);
    var g := (q.Floor + 1) as real;
    assert g == f + 1.0;
    assert x < g * cw;
    assert SnapUp(x, cw) == g * cw;
  }

  lemma ScaleMonotone(a: real, b: real, c: real)
    requires a <= b && c > 0.0
    ensures a * c <= b * c
  {
    assert b * c - a * c == (b - a) * c;
  }

  lemma ScaleStrict(a: real, b: real, c: real)
    requires a < b && c > 0.0
    ensures a * c < b * c
  {
    assert b * c - a * c == (b - a) * c;
  }

  function SnapAll(xs: seq<real>, cw: real): (r: seq<real>)
    requires cw != 0.0
    ensures |r| == |xs| && forall i :: 0 <= i < |xs| ==> r[i] == Snap(xs[i], cw)
  {
    seq(|xs|, i requires 0 <= i < |xs| => Snap(xs[i], cw))
  }

  function Starts(cells: seq<OcrCell>): (r: seq<real>)
    ensures |r| == |cells| && forall i :: 0 <= i < |cells| ==> r[i] == cells[i].coordinate.tl.x
  {
    seq(|cells|, i requires 0 <= i < |cells| => cells[i].coordinate.tl.x)
  }

  function Heights(cells: seq<OcrCell>): (r: seq<real>)
    ensures |r| == |cells|
  {
    seq(|cells|, i requires 0 <= i < |cells| => cells[i].coordinate.br.y - cells[i].coordinate.tl.y)
  }

  /** Box width per character of each cell. */
  function CharRatios(cells: seq<OcrCell>): (r: seq<real>)
    requires forall i :: 0 <= i < |cells| ==> |cells[i].text| > 0
    ensures |r| == |cells|
    ensures forall i :: 0 <= i < |cells| ==> r[i] == (cells[i].coordinate.tr.x - cells[i].coordinate.tl.x) / |cells[i].text| as real
  {
    seq(|cells|, i requires 0 <= i < |cells| =>
      (cells[i].coordinate.tr.x - cells[i].coordinate.tl.x) / |cells[i].text| as real)
  }

  /** Left x of the numbered cells, in order. */
  function NumberedStarts(cells: seq<OcrCell>): (r: seq<real>)
    ensures (r == []) <==> forall i :: 0 <= i < |cells| ==> cells[i].number == None
    ensures forall x :: x in r ==> exists i :: 0 <= i < |cells| && cells[i].number.Some? && cells[i].coordinate.tl.x == x
    decreases |cells|
  {
    if cells == [] then []
    else
      var c := cells[|cells| - 1];
      NumberedStarts(cells[..|cells| - 1]) + (if c.number.Some? then [c.coordinate.tl.x] else [])
  }

  /** Box midpoints of the cells starting at or right of the left edge. */
  function MiddleCandidates(cells: seq<OcrCell>, leftEdge: real): (r: seq<real>)
    ensures (r == []) <==> forall i :: 0 <= i < |cells| ==> cells[i].coordinate.tl.x < leftEdge
    ensures forall x :: x in r ==>
      exists i :: (0 <= i < |cells| && cells[i].coordinate.tl.x >= leftEdge &&
                   x == (cells[i].coordinate.tr.x + cells[i].coordinate.tl.x) / 2.0)
    decreases |cells|
  {
    if cells == [] then []
    else
      var c := cells[|cells| - 1];
      MiddleCandidates(cells[..|cells| - 1], leftEdge) +
        (if c.coordinate.tl.x >= leftEdge then [(c.coordinate.tr.x + c.coordinate.tl.x) / 2.0] else [])
  }

  /** Right x of every cell snapped up, keeping the values right of the middle. */
  function RightCandidates(cells: seq<OcrCell>, cw: real, middle: real): (r: seq<real>)
    requires cw != 0.0
    ensures (r == []) <==> forall i :: 0 <= i < |cells| ==> SnapUp(cells[i].coordinate.tr.x, cw) <= middle
    ensures forall x :: x in r ==> x > middle && exists i :: 0 <= i < |cells| && x == SnapUp(cells[i].coordinate.tr.x, cw)
    decreases |cells|
  {
    if cells == [] then []
    else
      var u := SnapUp(cells[|cells| - 1].coordinate.tr.x, cw);
      RightCandidates(cells[..|cells| - 1], cw, middle) + (if u > middle then [u] else [])
  }

  /** The cells that start at or right of `leftEdge`. */
  function StartsFrom(leftEdge: real): OcrCell -> bool {
    (c: OcrCell) => c.coordinate.tl.x >= leftEdge
  }

  /** The cells whose right x, snapped up to the character grid, lies right of `middle`. */
  function EndsPast(cw: real, middle: real): OcrCell -> bool {
    (c: OcrCell) => cw != 0.0 && SnapUp(c.coordinate.tr.x, cw) > middle
  }

  /** Every numbered cell contributes its left x once, in list order. */
  lemma {:induction false} NumberedStartsComplete(cells: seq<OcrCell>)
    ensures var pos := Positions(cells, IsNumbered);
      && |NumberedStarts(cells)| == |pos|
      && forall k :: 0 <= k < |pos| ==> NumberedStarts(cells)[k] == cells[pos[k]].coordinate.tl.x
    decreases |cells|
  {
    if cells != [] {
      var n := |cells| - 1;
      var pre := cells[..n];
      NumberedStartsComplete(pre);
      var pos, pos' := Positions(cells, IsNumbered), Positions(pre, IsNumbered);
      var r, r' := NumberedStarts(cells), NumberedStarts(pre);
      assert pos == pos' + (if IsNumbered(cells[n]) then [n] else []);
      assert |r| == |pos|;
      forall k | 0 <= k < |pos| ensures r[k] == cells[pos[k]].coordinate.tl.x {
        if k < |pos'| {
          assert r[k] == r'[k] && cells[pos[k]] == pre[pos'[k]];
        }
      }
    }
  }

  /** Every cell starting at or right of the left edge contributes its midpoint once, in list order. */
  lemma {:induction false} MiddleCandidatesComplete(cells: seq<OcrCell>, leftEdge: real)
    ensures var pos := Positions(cells, StartsFrom(leftEdge));
      && |MiddleCandidates(cells, leftEdge)| == |pos|
      && forall k :: 0 <= k < |pos| ==>
           MiddleCandidates(cells, leftEdge)[k] == (cells[pos[k]].coordinate.tr.x + cells[pos[k]].coordinate.tl.x) / 2.0
    decreases |cells|
  {
    if cells != [] {
      var n := |cells| - 1;
      var pre := cells[..n];
      MiddleCandidatesComplete(pre, leftEdge);
      var keep := StartsFrom(leftEdge);
      var pos, pos' := Positions(cells, keep), Positions(pre, keep);
      var m, m' := MiddleCandidates(cells, leftEdge), MiddleCandidates(pre, leftEdge);
      assert pos == pos' + (if keep(cells[n]) then [n] else []);
      assert |m| == |pos|;
      forall k | 0 <= k < |pos|
        ensures m[k] == (cells[pos[k]].coordinate.tr.x + cells[pos[k]].coordinate.tl.x) / 2.0
      {
        if k < |pos'| {
          assert m[k] == m'[k] && cells[pos[k]] == pre[pos'[k]];
        }
      }
    }
  }

  /** Every cell ending right of the middle contributes its snapped right x once, in list order. */
  lemma {:induction false} RightCandidatesComplete(cells: seq<OcrCell>, cw: real, middle: real)
    requires cw != 0.0
    ensures var pos := Positions(cells, EndsPast(cw, middle));
      && |RightCandidates(cells, cw, middle)| == |pos|
      && forall k :: 0 <= k < |pos| ==> RightCandidates(cells, cw, middle)[k] == SnapUp(cells[pos[k]].coordinate.tr.x, cw)
    decreases |cells|
  {
    if cells != [] {
      var n := |cells| - 1;
      var pre := cells[..n];
      RightCandidatesComplete(pre, cw, middle);
      var keep := EndsPast(cw, middle);
      var pos, pos' := Positions(cells, keep), Positions(pre, keep);
      var r, r' := RightCandidates(cells, cw, middle), RightCandidates(pre, cw, middle);
      assert pos == pos' + (if keep(cells[n]) then [n] else []);
      assert |r| == |pos|;
      forall k | 0 <= k < |pos| ensures r[k] == SnapUp(cells[pos[k]].coordinate.tr.x, cw) {
        if k < |pos'| {
          assert r[k] == r'[k] && cells[pos[k]] == pre[pos'[k]];
        }
      }
    }
  }

  /** Why a page's geometry cannot be estimated. */
  datatype LayoutError =
    | NoCells            // `mean` of no data
    | EmptyText          // division by a zero text length
    | ZeroCharWidth      // floor division by a zero character width
    | NoNumberedCells    // no value to take the mode of for the number edge
    | NoMiddleCandidates // `mean` of no midpoints
    | NoRightCandidates  // no value to take the mode of for the right edge

  /** Everything `distribute` derives from the cells before it looks for the footer. */
  datatype Geometry = Geometry(
    charWidth: real,
    charHeight: real,
    leftEdge: real,
    numberLeftEdge: real,
    middlePixel: real,
    rightEdge: real)

  predicate AllTexts(cells: seq<OcrCell>) {
    forall i :: 0 <= i < |cells| ==> |cells[i].text| > 0
  }

  /**
   * The geometry part of `distribute`: character metrics are means, the left
   * and number edges most frequent snapped left x, the right edge a most
   * frequent snapped right x among those right of the mean midpoint.
   */
  function Measure(cells: seq<OcrCell>): (r: Result<Geometry, LayoutError>)
  {
    if cells == [] then Failure(NoCells)
    else if !AllTexts(cells) then Failure(EmptyText)
    else
      var cw := Mean(CharRatios(cells));
      if cw == 0.0 then Failure(ZeroCharWidth)
      else Edges(cells, cw, Mean(Heights(cells)))
  }

  /**
   * What the estimate promises: it fails on no cells and on an empty text,
   * fails for want of a numbered cell only when none is numbered, and on
   * success the character metrics are the means and the edges fit the cells.
   */
  lemma MeasureCases(cells: seq<OcrCell>)
    ensures var r := Measure(cells);
      && (r == Failure(NoCells) <==> cells == [])
      && (r == Failure(EmptyText) <==> cells != [] && !AllTexts(cells))
      && (r == Failure(NoNumberedCells) ==> forall i :: 0 <= i < |cells| ==> cells[i].number == None)
      && (r.Success? ==>
            && cells != [] && AllTexts(cells)
            && r.value.charWidth == Mean(CharRatios(cells)) != 0.0
            && r.value.charHeight == Mean(Heights(cells))
            && EdgesFit(cells, r.value))
  {
  }

  /**
   * The edges agree with the cells: the left and number edges are most
   * frequent snapped left x (of all cells, of the numbered ones), the middle
   * is the mean midpoint of the cells from the left edge on, and the right
   * edge a most frequent snapped-up right x among those right of the middle.
   */
  predicate EdgesFit(cells: seq<OcrCell>, g: Geometry) {
    && g.charWidth != 0.0
    && IsModeOf(g.leftEdge, SnapAll(Starts(cells), g.charWidth))
    && IsModeOf(g.numberLeftEdge, SnapAll(NumberedStarts(cells), g.charWidth))
    && |MiddleCandidates(cells, g.leftEdge)| > 0
    && g.middlePixel == Mean(MiddleCandidates(cells, g.leftEdge))
    && IsModeOf(g.rightEdge, RightCandidates(cells, g.charWidth, g.middlePixel))
    && g.rightEdge > g.middlePixel
  }

  /** The edge estimates of `distribute`, once the character width is known. */
  function Edges(cells: seq<OcrCell>, cw: real, ch: real): (r: Result<Geometry, LayoutError>)
    requires cells != [] && cw != 0.0
    ensures r.Success? ==> r.value.charWidth == cw && r.value.charHeight == ch && EdgesFit(cells, r.value)
    ensures r.Failure? ==> r.error == NoNumberedCells || r.error == NoMiddleCandidates || r.error == NoRightCandidates
    ensures r == Failure(NoNumberedCells) <==> NumberedStarts(cells) == []
  {
    var leftEdge := ModeOf(SnapAll(Starts(cells), cw));
    var numbered := NumberedStarts(cells);
    if numbered == [] then Failure(NoNumberedCells)
    else
      var numberLeftEdge := ModeOf(SnapAll(numbered, cw));
      var mids := MiddleCandidates(cells, leftEdge);
      if mids == [] then Failure(NoMiddleCandidates)
      else
        var middle := Mean(mids);
        var rights := RightCandidates(cells, cw, middle);
        if rights == [] then Failure(NoRightCandidates)
        else
          var right := ModeOf(rights);
          assert right in rights;
          Success(Geometry(cw, ch, leftEdge, numberLeftEdge, middle, right))
  }

  /** Left-to-right boxes with text: the ones the OCR engine produces. */
  predicate WellFormedCells(cells: seq<OcrCell>) {
    forall i :: 0 <= i < |cells| ==> |cells[i].text| > 0 && cells[i].coordinate.tl.x < cells[i].coordinate.tr.x
  }

  lemma SumPositive(s: seq<real>)
    requires |s| > 0 && forall i :: 0 <= i < |s| ==> s[i] > 0.0
    ensures Sum(s) > 0.0
    decreases |s|
  {
    if |s| > 1 {
      SumPositive(s[..|s| - 1]);
    } else {
      assert s[..|s| - 1] == [];
    }
  }

  /**
   * On a page of well-formed boxes with at least one numbered cell, the
   * geometry is always found: the left edge is the snapped start of some
   * cell, so a midpoint exists, and the widest of those cells ends right of
   * the mean midpoint.
   */
  lemma MeasureSucceeds(cells: seq<OcrCell>)
    requires cells != [] && WellFormedCells(cells)
    requires exists i :: 0 <= i < |cells| && cells[i].number.Some?
    ensures Measure(cells).Success?
  {
    CharWidthPositive(cells);
    var i :| 0 <= i < |cells| && cells[i].number.Some?;
    EdgesSucceed(cells, Mean(CharRatios(cells)), Mean(Heights(cells)));
  }

  /** Boxes of positive width give a positive character width. */
  lemma CharWidthPositive(cells: seq<OcrCell>)
    requires cells != [] && WellFormedCells(cells)
    ensures Mean(CharRatios(cells)) > 0.0
  {
    var ratios := CharRatios(cells);
    forall i | 0 <= i < |ratios| ensures ratios[i] > 0.0 {
      var c := cells[i];
      assert c.coordinate.tr.x - c.coordinate.tl.x > 0.0;
    }
    SumPositive(ratios);
  }

  lemma EdgesSucceed(cells: seq<OcrCell>, cw: real, ch: real)
    requires cells != [] && WellFormedCells(cells) && cw > 0.0
    requires NumberedStarts(cells) != []
    ensures Edges(cells, cw, ch).Success?
  {
    var leftEdge := ModeOf(SnapAll(Starts(cells), cw));
    var k := LeftEdgeReached(cells, cw);
    RightsExist(cells, cw, leftEdge, k);
  }

  /** Some cell starts at or right of the left edge, the mode of the snapped starts. */
  lemma LeftEdgeReached(cells: seq<OcrCell>, cw: real) returns (k: nat)
    requires cells != [] && cw > 0.0
    ensures k < |cells| && cells[k].coordinate.tl.x >= ModeOf(SnapAll(Starts(cells), cw))
  {
    var starts := SnapAll(Starts(cells), cw);
    var leftEdge := ModeOf(starts);
    k :| 0 <= k < |starts| && starts[k] == leftEdge;
    SnapBrackets(cells[k].coordinate.tl.x, cw);
  }

  /**
   * With a cell at or right of the left edge there are midpoints, and the
   * right x of the cell with the greatest one, snapped up, lies right of
   * their mean.
   */
  lemma RightsExist(cells: seq<OcrCell>, cw: real, leftEdge: real, k: nat)
    requires WellFormedCells(cells) && cw > 0.0
    requires k < |cells| && cells[k].coordinate.tl.x >= leftEdge
    ensures MiddleCandidates(cells, leftEdge) != []
    ensures RightCandidates(cells, cw, Mean(MiddleCandidates(cells, leftEdge))) != []
  {
    var mids := MiddleCandidates(cells, leftEdge);
    var middle := Mean(mids);
    var hi := MaxEnd(cells, leftEdge);
    MaxEndBounds(cells, leftEdge);
    forall i | 0 <= i < |mids| ensures mids[i] <= hi.1 {
      assert mids[i] in mids;
    }
    MeanBounds(mids, Lower(mids), hi.1);
    SnapBrackets(cells[hi.0].coordinate.tr.x, cw);
    assert SnapUp(cells[hi.0].coordinate.tr.x, cw) > middle;
  }

  /** A lower bound of a non-empty sequence (its least element). */
  function Lower(s: seq<real>): (r: real)
    requires |s| > 0
    ensures forall i :: 0 <= i < |s| ==> r <= s[i]
    decreases |s|
  {
    if |s| == 1 then s[0] else Min(s[0], Lower(s[1..]))
  }

  /** The cell with the greatest right x among those counted for the midpoint. */
  function MaxEnd(cells: seq<OcrCell>, leftEdge: real): (r: (nat, real))
    requires exists i :: 0 <= i < |cells| && cells[i].coordinate.tl.x >= leftEdge
    ensures r.0 < |cells| && r.1 == cells[r.0].coordinate.tr.x
    decreases |cells|
  {
    var n := |cells| - 1;
    var c := cells[n];
    if forall i :: 0 <= i < n ==> cells[i].coordinate.tl.x < leftEdge then
      assert c.coordinate.tl.x >= leftEdge;
      (n, c.coordinate.tr.x)
    else
      var r := MaxEnd(cells[..n], leftEdge);
      if c.coordinate.tl.x >= leftEdge && c.coordinate.tr.x > r.1 then (n, c.coordinate.tr.x) else (r.0, r.1)
  }

  /** No midpoint counted lies right of the greatest right x among the counted cells. */
  lemma {:induction false} MaxEndBounds(cells: seq<OcrCell>, leftEdge: real)
    requires WellFormedCells(cells)
    requires exists i :: 0 <= i < |cells| && cells[i].coordinate.tl.x >= leftEdge
    ensures forall x :: x in MiddleCandidates(cells, leftEdge) ==> x <= MaxEnd(cells, leftEdge).1
    decreases |cells|
  {
    var n := |cells| - 1;
    var c := cells[n];
    var hi := MaxEnd(cells, leftEdge).1;
    if forall i :: 0 <= i < n ==> cells[i].coordinate.tl.x < leftEdge {
      assert forall i :: 0 <= i < n ==> cells[..n][i].coordinate.tl.x < leftEdge;
    } else {
      MaxEndBounds(cells[..n], leftEdge);
    }
    MidsBelow(cells, cells[..n], leftEdge, hi);
  }

  /**
   * A bound on the midpoints of the cells before the last one, which also
   * bounds the last cell's right x when it is counted, bounds all midpoints.
   */
  lemma MidsBelow(cells: seq<OcrCell>, pre: seq<OcrCell>, leftEdge: real, hi: real)
    requires cells != [] && WellFormedCells(cells) && pre == cells[..|cells| - 1]
    requires forall x :: x in MiddleCandidates(pre, leftEdge) ==> x <= hi
    requires cells[|cells| - 1].coordinate.tl.x >= leftEdge ==> cells[|cells| - 1].coordinate.tr.x <= hi
    ensures forall x :: x in MiddleCandidates(cells, leftEdge) ==> x <= hi
  {
    var c := cells[|cells| - 1];
    forall x | x in MiddleCandidates(cells, leftEdge) ensures x <= hi {
      if x !in MiddleCandidates(pre, leftEdge) {
        assert x == (c.coordinate.tr.x + c.coordinate.tl.x) / 2.0;
      }
    }
  }

  /** The footer pattern `.*第[0-9]页.*共[0-9]页`, matched from the start of the text. */
  predicate IsFooterText(t: string) {
    exists i, j :: 0 <= i && i + 3 <= j && j + 3 <= |t| && PageMarkAt(t, i, '第') && PageMarkAt(t, j, '共') && '\n' !in t[..j]
  }

  /** `t[i..i + 3]` is the lead character, one ASCII digit, then '页'. */
  predicate PageMarkAt(t: string, i: int, lead: char) {
    0 <= i && i + 3 <= |t| && t[i] == lead && IsDigit(t[i + 1]) && t[i + 2] == '页'
  }

  /** The last cell, in list order, whose text matches the footer pattern. */
  function LastFooter(cells: seq<OcrCell>): (r: Option<nat>)
    ensures r.Some? ==> r.value < |cells| && IsFooterText(cells[r.value].text)
    ensures r.Some? ==> forall j :: r.value < j < |cells| ==> !IsFooterText(cells[j].text)
    ensures r.None? ==> forall j :: 0 <= j < |cells| ==> !IsFooterText(cells[j].text)
    decreases |cells|
  {
    if cells == [] then None
    else if IsFooterText(cells[|cells| - 1].text) then Some(|cells| - 1)
    else LastFooter(cells[..|cells| - 1])
  }

  /** The cells with the last footer-matching one flagged. */
  function WithFooter(cells: seq<OcrCell>): (r: seq<OcrCell>)
    ensures |r| == |cells|
  {
    match LastFooter(cells)
    case Some(j) => cells[j := cells[j].(isFooter := true)]
    case None => cells
  }

  /** 26 pixels above the footer's top, or the bottom of the last cell without one. */
  function BottomEdge(cells: seq<OcrCell>): real
    requires cells != []
  {
    match LastFooter(cells)
    case Some(j) => cells[j].coordinate.tl.y - 26.0
    case None => cells[|cells| - 1].coordinate.br.y
  }

  /** `Page_Structure`: the analysed page. */
  datatype PageStructure = PageStructure(
    leftEdge: real,
    rightEdge: real,
    middlePixel: real,
    charWidth: real,
    charHeight: real,
    numbers: seq<nat>,
    numberLeftEdge: real,
    bottomEdge: real,
    cells: seq<OcrCell>)

  /**
   * What `distribute` makes of numbered cells: the error the estimates raise,
   * or the page structure with the estimated edges, the numbers, the bottom
   * edge and the cells with their footer flagged.
   */
  function Analyse(cells: seq<OcrCell>, numbers: seq<nat>): Result<PageStructure, LayoutError> {
    match Measure(cells)
    case Failure(e) => Failure(e)
    case Success(g) =>
      MeasureCases(cells);
      Success(PageStructure(g.leftEdge, g.rightEdge, g.middlePixel, g.charWidth, g.charHeight,
                            numbers, g.numberLeftEdge, BottomEdge(cells), WithFooter(cells)))
  }

  function OcrCells(pieces: seq<RawPiece>): (r: seq<OcrCell>)
    ensures |r| == |pieces| && forall i :: 0 <= i < |pieces| ==> r[i] == NewOcrCell(pieces[i])
  {
    seq(|pieces|, i requires 0 <= i < |pieces| => NewOcrCell(pieces[i]))
  }

  class PixelCube {
    var cells: seq<OcrCell>
    var numbers: seq<nat>

    /** Builds the page's cells and numbers them, consuming the triggers' keys. */
    constructor (pieces: seq<RawPiece>, trigger: CommonTrigger, offset: nat)
      requires trigger.Valid()
      modifies trigger.choose, trigger.fillIn, trigger.solve
      ensures cells == Labelled(offset, old(trigger.Keys()), OcrCells(pieces))
      ensures numbers == Run(offset, old(trigger.Keys()), OcrCells(pieces)).found
      ensures trigger.Keys() == Run(offset, old(trigger.Keys()), OcrCells(pieces)).keys
    {
      cells := OcrCells(pieces);
      numbers := [];
      new;
      numbers := Decorate(trigger, offset);
    }

    /**
     * `decorate`: reads the cells in order; each is shown to the trigger of
     * the next expected number's section and, when that trigger is satisfied
     * and the text begins with "n.", is numbered n.
     */
    method Decorate(trigger: CommonTrigger, offset: nat) returns (found: seq<nat>)
      requires trigger.Valid()
      modifies this`cells, trigger.choose, trigger.fillIn, trigger.solve
      ensures cells == Labelled(offset, old(trigger.Keys()), old(cells))
      ensures found == Run(offset, old(trigger.Keys()), old(cells)).found
      ensures trigger.Keys() == Run(offset, old(trigger.Keys()), old(cells)).keys
    {
      ghost var cells0 := cells;
      ghost var keys0 := trigger.Keys();
      found := [];
      var i := 0;
      while i < |cells|
        invariant 0 <= i <= |cells| == |cells0|
        invariant cells[..i] == Labelled(offset, keys0, cells0[..i])
        invariant cells[i..] == cells0[i..]
        invariant Run(offset, keys0, cells0[..i]) == LabelState(trigger.Keys(), found)
      {
        ghost var s := LabelState(trigger.Keys(), found);
        var n := offset + |found| + 1;
        var text := cells[i].text;
        var start := trigger.ShallWeStartAt(n, text);
        HitBy(offset, s, text, trigger.Keys(), start);
        var c := cells[i];
        if start && StartsWith(text, DecimalString(n) + ".") {
          c := c.(number := Some(n));
          found := found + [n];
        }
        LabelStep(offset, keys0, cells0, i, s, cells, c);
        cells := cells[i := c];
        i := i + 1;
      }
      assert cells0[..i] == cells0;
      assert cells[..i] == cells;
    }

    /**
     * The footer scan: from the last cell backwards, the first cell matching
     * the footer pattern is flagged and the bottom edge put 26 pixels above
     * it; with no match the bottom of the last cell is the bottom edge.
     */
    method MarkFooter() returns (bottom: real)
      requires cells != []
      modifies this`cells
      ensures cells == WithFooter(old(cells))
      ensures bottom == BottomEdge(old(cells))
    {
      var cells0 := cells;
      bottom := cells[|cells| - 1].coordinate.br.y;
      var i := |cells|;
      while i > 0
        invariant 0 <= i <= |cells|
        invariant cells == cells0 == old(cells)
        invariant forall j :: i <= j < |cells| ==> !IsFooterText(cells[j].text)
        invariant bottom == cells[|cells| - 1].coordinate.br.y
      {
        i := i - 1;
        if IsFooterText(cells[i].text) {
          cells := cells[i := cells[i].(isFooter := true)];
          bottom := cells0[i].coordinate.tl.y - 26.0;
          LastFooterIs(cells0, i);
          return;
        }
      }
      assert LastFooter(cells) == None;
    }

    /**
     * `distribute`: on success the page structure carries the estimated
     * geometry, this cube's numbers and the cells with the footer flagged;
     * a failed estimate raises before any cell is touched.
     */
    method Distribute() returns (r: Result<PageStructure, LayoutError>)
      modifies this`cells
      ensures r == Analyse(old(cells), numbers)
      ensures cells == if r.Success? then WithFooter(old(cells)) else old(cells)
    {
      var m := Measure(cells);
      if m.Failure? {
        return Failure(m.error);
      }
      var g := m.value;
      var bottom := MarkFooter();
      r := Success(PageStructure(g.leftEdge, g.rightEdge, g.middlePixel, g.charWidth, g.charHeight,
                                 numbers, g.numberLeftEdge, bottom, cells));
    }
  }

  /** The footer found scanning backwards is the last matching cell. */
  lemma {:induction false} LastFooterIs(cells: seq<OcrCell>, i: nat)
    requires i < |cells| && IsFooterText(cells[i].text)
    requires forall j :: i < j < |cells| ==> !IsFooterText(cells[j].text)
    ensures LastFooter(cells) == Some(i)
  {
    if i < |cells| - 1 {
      LastFooterIs(cells[..|cells| - 1], i);
    }
  }

  /** Flagging the footer changes nothing but that one flag. */
  lemma WithFooterKeeps(cells: seq<OcrCell>, i: nat)
    requires i < |cells|
    ensures WithFooter(cells)[i].(isFooter := cells[i].isFooter) == cells[i]
    ensures WithFooter(cells)[i].isFooter == (cells[i].isFooter || LastFooter(cells) == Some(i))
  {
  }

  /** The header search of `_description_remove`, over a re-OCRed segment. */
  datatype MiniPixelCube = MiniPixelCube(cells: seq<OcrCell>, keys: seq<string>)

  /**
   * The header phrases `MiniPixelCube.__init__` looks for, by the mode string
   * it is given: "fill_in" (here `FillIn`), "solve" (`Solve`), and any other
   * string (`Choose`).
   */
  function SectionHeaders(mode: Mode): seq<string> {
    match mode
    case FillIn => ["二、填空题", "非选择题"]
    case Solve => ["三、解答题"]
    case Choose => ["一、选择题"]
  }

  /** `MiniPixelCube.__init__`: the re-read cells and the headers of the section that follows. */
  function NewMiniPixelCube(pieces: seq<RawPiece>, mode: Mode): (m: MiniPixelCube)
    ensures |m.cells| == |pieces| && forall i :: 0 <= i < |pieces| ==> m.cells[i] == NewOcrCell(pieces[i])
    ensures mode == FillIn ==> m.keys == ["二、填空题", "非选择题"]
    ensures mode == Solve ==> m.keys == ["三、解答题"]
    ensures mode == Choose ==> m.keys == ["一、选择题"]
  {
    MiniPixelCube(OcrCells(pieces), SectionHeaders(mode))
  }

  predicate HasKey(text: string, keys: seq<string>) {
    exists k :: k in keys && IsSubstring(k, text)
  }

  /** The first cell at or after `from` whose text contains one of the keys. */
  function FirstKeyCell(cells: seq<OcrCell>, keys: seq<string>, from: nat): (r: Option<nat>)
    requires from <= |cells|
    ensures r.Some? ==> from <= r.value < |cells| && HasKey(cells[r.value].text, keys)
    ensures r.Some? ==> forall j :: from <= j < r.value ==> !HasKey(cells[j].text, keys)
    ensures r.None? ==> forall j :: from <= j < |cells| ==> !HasKey(cells[j].text, keys)
    decreases |cells| - from
  {
    if from == |cells| then None
    else if HasKey(cells[from].text, keys) then Some(from)
    else FirstKeyCell(cells, keys, from + 1)
  }

  /** What `get_height` returns: the index and top y of the first header line, or `(0, None)`. */
  function HeightOf(cube: MiniPixelCube): (nat, Option<real>) {
    match FirstKeyCell(cube.cells, cube.keys, 0)
    case Some(i) => (i, Some(cube.cells[i].coordinate.tl.y))
    case None => (0, None)
  }

  /** `get_height`: a first-match search with an early return. */
  method GetHeight(cube: MiniPixelCube) returns (idx: nat, height: Option<real>)
    ensures height.Some? ==>
      (&& idx < |cube.cells| && HasKey(cube.cells[idx].text, cube.keys)
       && height.value == cube.cells[idx].coordinate.tl.y
       && forall j :: 0 <= j < idx ==> !HasKey(cube.cells[j].text, cube.keys))
    ensures height.None? ==> idx == 0 && forall j :: 0 <= j < |cube.cells| ==> !HasKey(cube.cells[j].text, cube.keys)
    ensures (idx, height) == HeightOf(cube)
  {
    var i := 0;
    while i < |cube.cells|
      invariant 0 <= i <= |cube.cells|
      invariant forall j :: 0 <= j < i ==> !HasKey(cube.cells[j].text, cube.keys)
      invariant FirstKeyCell(cube.cells, cube.keys, 0) == FirstKeyCell(cube.cells, cube.keys, i)
    {
      var text := cube.cells[i].text;
      var k := 0;
      while k < |cube.keys|
        invariant 0 <= k <= |cube.keys|
        invariant forall q :: 0 <= q < k ==> !IsSubstring(cube.keys[q], text)
      {
        if IsSubstring(cube.keys[k], text) {
          return i, Some(cube.cells[i].coordinate.tl.y);
        }
        k := k + 1;
      }
      i := i + 1;
    }
    return 0, None;
  }
}
