/**
 * The cell records of backend/base/base.py: an OCR cell as the numbering pass
 * sees it, the corner-merge table of MetaCell, and the cut cell that owns one
 * question's image and transcript.
 */
module Base {
  import opened Wrappers
  import opened Text

  datatype Point = Point(x: real, y: real)

  /** The four corners of an OCR box, in the order the engine gives them. */
  datatype Quad = Quad(tl: Point, tr: Point, br: Point, bl: Point)

  /** One entry of the OCR engine's result, `[coordinate, (text, confidence)]`. */
  datatype RawPiece = RawPiece(coordinate: Quad, text: string, confidence: real)

  /** The three question sections of the exam, in page order. */
  datatype Mode = Choose | FillIn | Solve

  /** One detected text span, with the marks the page analysis puts on it. */
  datatype OcrCell = OcrCell(
    coordinate: Quad,
    text: string,
    confidence: real,
    number: Option<nat>,
    isHeader: bool,
    isFooter: bool)

  /**
   * `OcrCell.__init__`: keeps the box and the confidence, strips the text, and
   * starts with no question number and neither header nor footer mark.
   */
  function NewOcrCell(piece: RawPiece): (c: OcrCell)
    ensures c.coordinate == piece.coordinate && c.confidence == piece.confidence
    ensures c.text == Strip(piece.text)
    ensures c.text == [] || (!IsSpace(c.text[0]) && !IsSpace(c.text[|c.text| - 1]))
    ensures c.number == None && !c.isHeader && !c.isFooter
  {
    OcrCell(piece.coordinate, Strip(piece.text), piece.confidence, None, false, false)
  }

  /**
   * `OcrCell.type()`: the section a numbered cell belongs to; questions 1 to
   * 10 are multiple choice, 11 to 16 fill-in, the rest worked solutions.
   */
  function CellType(c: OcrCell): (m: Option<Mode>)
    ensures m == None <==> c.number == None
    ensures m == Some(Choose) <==> c.number.Some? && c.number.value <= 10
    ensures m == Some(FillIn) <==> c.number.Some? && 10 < c.number.value <= 16
    ensures m == Some(Solve) <==> c.number.Some? && 16 < c.number.value
  {
    match c.number
    case None => None
    case Some(n) => if n <= 10 then Some(Choose) else if n <= 16 then Some(FillIn) else Some(Solve)
  }

  function Min(a: real, b: real): real { if a <= b then a else b }
  function Max(a: real, b: real): real { if a >= b then a else b }

  /**
   * `MetaCell._merge`: the corner, in the given quadrant, of the box spanned by
   * two corner points; quadrant 1 is top-right, 2 top-left, 3 bottom-left and
   * 4 bottom-right (y grows downwards). Any other quadrant leaves the chosen
   * min/max functions unbound, which Python reports as an error.
   */
  function Merge(p1: Point, p2: Point, quadrant: int): (r: Option<Point>)
    ensures r.Some? <==> 1 <= quadrant <= 4
    ensures r.Some? ==> (r.value.x == p1.x || r.value.x == p2.x) && (r.value.y == p1.y || r.value.y == p2.y)
    ensures quadrant == 1 ==> r.Some? && r.value.x >= p1.x && r.value.x >= p2.x && r.value.y <= p1.y && r.value.y <= p2.y
    ensures quadrant == 2 ==> r.Some? && r.value.x <= p1.x && r.value.x <= p2.x && r.value.y <= p1.y && r.value.y <= p2.y
    ensures quadrant == 3 ==> r.Some? && r.value.x <= p1.x && r.value.x <= p2.x && r.value.y >= p1.y && r.value.y >= p2.y
    ensures quadrant == 4 ==> r.Some? && r.value.x >= p1.x && r.value.x >= p2.x && r.value.y >= p1.y && r.value.y >= p2.y
  {
    if quadrant == 1 then Some(Point(Max(p1.x, p2.x), Min(p1.y, p2.y)))
    else if quadrant == 2 then Some(Point(Min(p1.x, p2.x), Min(p1.y, p2.y)))
    else if quadrant == 3 then Some(Point(Min(p1.x, p2.x), Max(p1.y, p2.y)))
    else if quadrant == 4 then Some(Point(Max(p1.x, p2.x), Max(p1.y, p2.y)))
    else None
  }

  /** A rectangle given by its top-left and bottom-right corners. */
  datatype Rect = Rect(topLeft: Point, bottomRight: Point)

  /** Width and height in pixels of an image file. */
  datatype Size = Size(width: int, height: int)

  /**
   * A cut-out question region. Besides the source's fields it records `img`,
   * the size of the image file the cell owns at `path`.
   */
  datatype CutCell = CutCell(coordinate: Rect, path: string, texts: seq<string>, img: Size)

  /**
   * `CutCell.__init__`: keeps the rectangle and the path of the image just
   * saved for it, and starts with an empty transcript.
   */
  function NewCutCell(coordinate: Rect, path: string, img: Size): (c: CutCell)
    ensures c.coordinate == coordinate && c.path == path && c.img == img
    ensures c.texts == []
  {
    CutCell(coordinate, path, [], img)
  }

  /**
   * `p[i..j]` is the number field of a path: it starts just after the last '_'
   * (or at the start when there is none) and ends at the first '.' after that
   * (or at the end).
   */
  predicate NumberField(p: string, i: int, j: int) {
    && 0 <= i <= j <= |p|
    && (i == 0 || p[i - 1] == '_')
    && '_' !in p[i..]
    && '.' !in p[i..j]
    && (j == |p| || p[j] == '.')
  }

  /** Every path has exactly one number field. */
  lemma NumberFieldUnique(p: string, i: int, j: int, i': int, j': int)
    requires NumberField(p, i, j) && NumberField(p, i', j')
    ensures i == i' && j == j'
  {
    forall k | i <= k < |p| ensures p[k] != '_' { assert p[k] == p[i..][k - i]; }
    forall k | i' <= k < |p| ensures p[k] != '_' { assert p[k] == p[i'..][k - i']; }
    forall k | i <= k < j ensures p[k] != '.' { assert p[k] == p[i..j][k - i]; }
    forall k | i' <= k < j' ensures p[k] != '.' { assert p[k] == p[i'..j'][k - i']; }
  }

  /**
   * `CutCell.get_number`: the integer written in the number field of the path;
   * None where Python's `int` raises ValueError.
   */
  function GetNumber(c: CutCell): (r: Option<int>)
    ensures exists i, j :: NumberField(c.path, i, j) && r == ParseInt(c.path[i..j])
  {
    var tail := AfterLast(c.path, '_');
    var tag := BeforeFirst(tail, '.');
    var i := |c.path| - |tail|;
    assert c.path[i..i + |tag|] == tag;
    assert |tag| == |tail| || c.path[i + |tag|] == '.';
    assert NumberField(c.path, i, i + |tag|);
    ParseInt(tag)
  }

  /** The cells `keep` accepts are numbered ones. */
  predicate IsNumbered(c: OcrCell) { c.number.Some? }

  /**
   * The positions, in increasing order, of exactly the cells `keep` accepts:
   * the reference description of a filter over a cell list.
   */
  function Positions(cells: seq<OcrCell>, keep: OcrCell -> bool): (r: seq<nat>)
    ensures forall k :: 0 <= k < |r| ==> r[k] < |cells| && keep(cells[r[k]])
    ensures forall k, l :: 0 <= k < l < |r| ==> r[k] < r[l]
    ensures forall i :: 0 <= i < |cells| && keep(cells[i]) ==> i in r
    decreases |cells|
  {
    if cells == [] then []
    else
      var n := |cells| - 1;
      Positions(cells[..n], keep) + (if keep(cells[n]) then [n] else [])
  }

  /** Whatever follows the last separator, when it holds no separator itself. */
  lemma {:induction false} AfterLastOfTail(p: string, t: string, sep: char)
    requires sep !in t
    ensures AfterLast(p + [sep] + t, sep) == t
  {
    var s := p + [sep] + t;
    if t != [] {
      var t' := t[..|t| - 1];
      AfterLastOfTail(p, t', sep);
      assert s[..|s| - 1] == p + [sep] + t';
      assert t == t' + [t[|t| - 1]];
    }
  }

  /** Whatever precedes the first separator, when it holds no separator itself. */
  lemma {:induction false} BeforeFirstOfHead(h: string, t: string, sep: char)
    requires sep !in h
    ensures BeforeFirst(h + [sep] + t, sep) == h
  {
    var s := h + [sep] + t;
    if h != [] {
      BeforeFirstOfHead(h[1..], t, sep);
      assert s[1..] == h[1..] + [sep] + t;
      assert h == [h[0]] + h[1..];
    }
  }
}
