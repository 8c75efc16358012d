/**
 * `OcrDomain` of backend/ocr/ocr_domain.py: the object that carries the
 * question count (`number_operator`) and the shared triggers from one page to
 * the next while the pages are read and analysed.
 */
module Domain {
  import opened Wrappers
  import opened Base
  import opened Trigger
  import opened Labelling
  import opened PixelDistribute
  import opened Segmentation

  /** A change to the cells that keeps every number leaves the numbers as they were. */
  lemma {:induction false} SameNumbers(a: seq<OcrCell>, b: seq<OcrCell>)
    requires |a| == |b| && forall i :: 0 <= i < |a| ==> a[i].number == b[i].number
    ensures NumbersOf(a) == NumbersOf(b)
  {
    if a != [] {
      SameNumbers(a[..|a| - 1], b[..|b| - 1]);
    }
  }

  /** Freshly built cells carry no number. */
  lemma FreshCellsUnnumbered(pieces: seq<RawPiece>)
    ensures Unnumbered(OcrCells(pieces))
  {
  }

  /**
   * The page structure of a page read from `offset` on with `keys`: its
   * numbers are the ones the numbering pass finds, they are the numbers of its
   * numbered cells in order, and so there are as many as numbered cells.
   */
  lemma PageNumbersConsistent(offset: nat, keys: TriggerKeys, pieces: seq<RawPiece>)
    ensures var cells := Labelled(offset, keys, OcrCells(pieces));
      && NumbersOf(WithFooter(cells)) == Run(offset, keys, OcrCells(pieces)).found
      && |Numbered(WithFooter(cells))| == |Run(offset, keys, OcrCells(pieces)).found|
  {
    var cells := Labelled(offset, keys, OcrCells(pieces));
    FreshCellsUnnumbered(pieces);
    NumbersMatchCells(offset, keys, OcrCells(pieces));
    forall i | 0 <= i < |cells| ensures WithFooter(cells)[i].number == cells[i].number {
      WithFooterKeeps(cells, i);
    }
    SameNumbers(WithFooter(cells), cells);
    NumberedNumbers(WithFooter(cells));
  }

  /** Every page's OCR cells, in page order. */
  function OcrPages(pages: seq<seq<RawPiece>>): (r: seq<seq<OcrCell>>)
    ensures |r| == |pages| && forall i :: 0 <= i < |pages| ==> r[i] == OcrCells(pages[i])
  {
    seq(|pages|, i requires 0 <= i < |pages| => OcrCells(pages[i]))
  }

  /** The numbers of the page structures, page after page. */
  function AllNumbers(ps: seq<PageStructure>): seq<nat>
    decreases |ps|
  {
    if ps == [] then [] else AllNumbers(ps[..|ps| - 1]) + ps[|ps| - 1].numbers
  }

  /**
   * The loop invariant of `PagesOcr` survives one more page: the page read
   * from the count and keys the pages before it left moves its numbers from
   * the part of the document still to be read to the part already read.
   */
  lemma PagesOcrStep(full: (seq<nat>, TriggerKeys), docs: seq<seq<OcrCell>>, i: nat, ps: seq<PageStructure>,
                     count: nat, left: TriggerKeys, page: PageStructure, next: nat, after: TriggerKeys)
    requires i < |docs|
    requires var d := LabelDocument(count, left, docs[i..]);
      full.0 == AllNumbers(ps) + d.0 && full.1 == d.1
    requires var s := Run(count, left, docs[i]);
      page.numbers == s.found && after == s.keys && next == count + |s.found|
    ensures var d := LabelDocument(next, after, docs[i + 1..]);
      full.0 == AllNumbers(ps + [page]) + d.0 && full.1 == d.1
  {
    var d := LabelDocument(count, left, docs[i..]);
    var rest := LabelDocument(next, after, docs[i + 1..]);
    LabelDocumentAt(count, left, docs, i);
    AllNumbersStep(ps, page);
    MoveFront(full.0, AllNumbers(ps), page.numbers, d.0, rest.0, AllNumbers(ps + [page]));
  }

  /** Numbers moved from the front of the unread part to the end of the read part. */
  lemma MoveFront(full: seq<nat>, done: seq<nat>, page: seq<nat>, todo: seq<nat>, rest: seq<nat>, done': seq<nat>)
    requires full == done + todo && todo == page + rest && done' == done + page
    ensures full == done' + rest
  {
  }

  /** Every page holds as many numbers as numbered cells. */
  predicate AllConsistent(ps: seq<PageStructure>) {
    forall k :: 0 <= k < |ps| ==> Consistent(ps[k])
  }

  lemma AllNumbersStep(ps: seq<PageStructure>, p: PageStructure)
    ensures AllNumbers(ps + [p]) == AllNumbers(ps) + p.numbers
  {
    assert (ps + [p])[..|ps|] == ps;
  }

  lemma AllConsistentStep(ps: seq<PageStructure>, p: PageStructure)
    requires AllConsistent(ps) && Consistent(p)
    ensures AllConsistent(ps + [p])
  {
  }

  class OcrDomain {
    var numberOperator: nat
    const trigger: CommonTrigger

    /** `__init__`: no question counted yet, and fresh triggers holding all their keys. */
    constructor ()
      ensures numberOperator == 0 && fresh(trigger) && trigger.Valid()
      ensures fresh(trigger.choose) && fresh(trigger.fillIn) && fresh(trigger.solve)
      ensures trigger.Keys() == TriggerKeys(ChooseKeys, FillInKeys, SolveKeys)
    {
      numberOperator := 0;
      trigger := new CommonTrigger();
    }

    /**
     * `_in_page_ocr`, given what the OCR engine reads on the page: the page is
     * numbered from the current count, using up the shared triggers' keys, and
     * analysed. On success the count grows by the page's numbers, which match
     * its numbered cells; when the analysis raises, the count stays.
     */
    method InPageOcr(pieces: seq<RawPiece>) returns (r: Result<PageStructure, LayoutError>)
      requires trigger.Valid()
      modifies this`numberOperator, trigger.choose, trigger.fillIn, trigger.solve
      ensures var s := Run(old(numberOperator), old(trigger.Keys()), OcrCells(pieces));
        var cells := Labelled(old(numberOperator), old(trigger.Keys()), OcrCells(pieces));
        && trigger.Keys() == s.keys
        && r == Analyse(cells, s.found)
        && (r.Failure? ==> numberOperator == old(numberOperator))
        && (r.Success? ==>
              && Consistent(r.value) && NumbersOf(r.value.cells) == r.value.numbers
              && numberOperator == old(numberOperator) + |s.found|)
    {
      ghost var keys0 := trigger.Keys();
      var cube := new PixelCube(pieces, trigger, numberOperator);
      r := cube.Distribute();
      if r.Success? {
        PageNumbersConsistent(numberOperator, keys0, pieces);
        numberOperator := numberOperator + |r.value.numbers|;
      }
    }

    /**
     * The page loop of `process` (`[self._in_page_ocr(path) for path in paths]`):
     * the pages are read in order, each from the count the pages before it
     * left, and the first page whose analysis raises ends the loop. When every
     * page succeeds, the document's numbers are those of the numbering pass
     * run over the whole document, and the count has grown by their number.
     */
    method PagesOcr(pages: seq<seq<RawPiece>>) returns (r: Result<seq<PageStructure>, LayoutError>)
      requires trigger.Valid()
      modifies this`numberOperator, trigger.choose, trigger.fillIn, trigger.solve
      ensures r.Success? ==>
        var d := LabelDocument(old(numberOperator), old(trigger.Keys()), OcrPages(pages));
        && |r.value| == |pages|
        && AllNumbers(r.value) == d.0 && trigger.Keys() == d.1
        && numberOperator == old(numberOperator) + |d.0|
        && AllConsistent(r.value)
    {
      ghost var full := LabelDocument(numberOperator, trigger.Keys(), OcrPages(pages));
      ghost var start := numberOperator;
      ghost var docs := OcrPages(pages);
      assert docs[0..] == docs;
      var ps: seq<PageStructure> := [];
      var i := 0;
      assert AllNumbers(ps) + full.0 == full.0;
      while i < |pages|
        invariant 0 <= i <= |pages| && |ps| == i
        invariant var d := LabelDocument(numberOperator, trigger.Keys(), docs[i..]);
          full.0 == AllNumbers(ps) + d.0 && full.1 == d.1
        invariant numberOperator == start + |AllNumbers(ps)|
        invariant AllConsistent(ps)
      {
        ghost var count, left := numberOperator, trigger.Keys();
        assert docs[i] == OcrCells(pages[i]);
        ghost var s := Run(count, left, docs[i]);
        var page := InPageOcr(pages[i]);
        if page.Failure? {
          return Failure(page.error);
        }
        PagesOcrStep(full, docs, i, ps, count, left, page.value, numberOperator, trigger.Keys());
        AllConsistentStep(ps, page.value);
        ps := ps + [page.value];
        i := i + 1;
      }
      assert docs[i..] == [];
      r := Success(ps);
    }
  }

  /**
   * Read from a count of 0, a document whose pages all succeed is numbered
   * 1, 2, 3, ... across its pages, each number once and in order.
   */
  lemma DocumentNumbered(keys: TriggerKeys, pages: seq<seq<RawPiece>>, ps: seq<PageStructure>)
    requires AllNumbers(ps) == LabelDocument(0, keys, OcrPages(pages)).0
    ensures forall j :: 0 <= j < |AllNumbers(ps)| ==> AllNumbers(ps)[j] == j + 1
  {
    DocumentContiguous(0, keys, OcrPages(pages));
  }
}
