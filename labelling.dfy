/**
 * The numbering pass of `PixelCube.decorate` (backend/nlp/pixel_distribute.py)
 * as a left fold over a page's cells, and its extension over the pages of a
 * document, where each page starts from the count of the pages before it.
 */
module Labelling {
  import opened Wrappers
  import opened Text
  import opened Base
  import opened Trigger

  /** What the pass has accumulated: the triggers' keys and the numbers found on the page. */
  datatype LabelState = LabelState(keys: TriggerKeys, found: seq<nat>)

  /** The number the next question must carry. */
  function Candidate(offset: nat, s: LabelState): nat {
    offset + |s.found| + 1
  }

  /** The keys after the trigger of the candidate's section has read `text`. */
  function Consult(offset: nat, s: LabelState, text: string): TriggerKeys {
    var m := NumberToMode(Candidate(offset, s));
    s.keys.With(m, Remaining(s.keys.Of(m), text))
  }

  /** The cell is numbered: its section's trigger says yes and the text begins with "n.". */
  predicate Hit(offset: nat, s: LabelState, text: string) {
    var n := Candidate(offset, s);
    Consult(offset, s, text).Of(NumberToMode(n)) == {} && StartsWith(text, DecimalString(n) + ".")
  }

  function Step(offset: nat, s: LabelState, text: string): LabelState {
    LabelState(Consult(offset, s, text), if Hit(offset, s, text) then s.found + [Candidate(offset, s)] else s.found)
  }

  function Mark(offset: nat, s: LabelState, c: OcrCell): OcrCell {
    if Hit(offset, s, c.text) then c.(number := Some(Candidate(offset, s))) else c
  }

  /** The state after the pass has read `cells` in order, starting from `keys`. */
  function Run(offset: nat, keys: TriggerKeys, cells: seq<OcrCell>): LabelState
    decreases |cells|
  {
    if cells == [] then LabelState(keys, [])
    else Step(offset, Run(offset, keys, cells[..|cells| - 1]), cells[|cells| - 1].text)
  }

  /** The cells as the pass leaves them. */
  function Labelled(offset: nat, keys: TriggerKeys, cells: seq<OcrCell>): (r: seq<OcrCell>)
    ensures |r| == |cells|
    decreases |cells|
  {
    if cells == [] then []
    else Labelled(offset, keys, cells[..|cells| - 1]) + [Mark(offset, Run(offset, keys, cells[..|cells| - 1]), cells[|cells| - 1])]
  }

  /**
   * One more cell, in a list whose first i cells have been labelled and whose
   * others are as they were: marking cell i extends the labelled prefix by one,
   * and the pass reads it in the state the cells before it left.
   */
  lemma LabelStep(offset: nat, keys: TriggerKeys, cells: seq<OcrCell>, i: nat, s: LabelState, cs: seq<OcrCell>, c: OcrCell)
    requires i < |cells| == |cs| && s == Run(offset, keys, cells[..i])
    requires cs[..i] == Labelled(offset, keys, cells[..i]) && cs[i..] == cells[i..]
    requires c == Mark(offset, s, cells[i])
    ensures Run(offset, keys, cells[..i + 1]) == Step(offset, s, cells[i].text)
    ensures cs[i := c][..i + 1] == Labelled(offset, keys, cells[..i + 1]) && cs[i := c][i + 1..] == cells[i + 1..]
  {
    assert cells[..i + 1][..i] == cells[..i];
    assert cs[i := c][..i + 1] == cs[..i] + [c];
    assert cs[i := c][i + 1..] == cs[i + 1..];
    assert cs[i + 1..] == cs[i..][1..];
  }

  /** The pass's test on a cell, given what the candidate's trigger answered. */
  lemma HitBy(offset: nat, s: LabelState, text: string, keys: TriggerKeys, start: bool)
    requires keys == Consult(offset, s, text)
    requires start <==> keys.Of(NumberToMode(Candidate(offset, s))) == {}
    ensures Hit(offset, s, text) <==> start && StartsWith(text, DecimalString(Candidate(offset, s)) + ".")
  {
  }

  /** The numbers carried by the numbered cells, in list order. */
  function NumbersOf(cells: seq<OcrCell>): seq<nat>
    decreases |cells|
  {
    if cells == [] then []
    else NumbersOf(cells[..|cells| - 1]) + (match cells[|cells| - 1].number case Some(n) => [n] case None => [])
  }

  predicate Unnumbered(cells: seq<OcrCell>) {
    forall i :: 0 <= i < |cells| ==> cells[i].number == None
  }

  /** The numbers found on a page are `offset + 1, offset + 2, ...` with no gap. */
  lemma {:induction false} RunContiguous(offset: nat, keys: TriggerKeys, cells: seq<OcrCell>)
    ensures forall j :: 0 <= j < |Run(offset, keys, cells).found| ==> Run(offset, keys, cells).found[j] == offset + j + 1
  {
    if cells != [] {
      var pre := cells[..|cells| - 1];
      RunContiguous(offset, keys, pre);
      var s := Run(offset, keys, pre);
      var f := Run(offset, keys, cells).found;
      assert f == Step(offset, s, cells[|cells| - 1].text).found;
      forall j | 0 <= j < |f| ensures f[j] == offset + j + 1 {
        if j < |s.found| {
          assert f[j] == s.found[j];
        }
      }
    }
  }

  /** Cell i is marked by the state the pass is in when it reaches cell i. */
  lemma {:induction false} LabelledAt(offset: nat, keys: TriggerKeys, cells: seq<OcrCell>, i: nat)
    requires i < |cells|
    ensures Labelled(offset, keys, cells)[i] == Mark(offset, Run(offset, keys, cells[..i]), cells[i])
  {
    var pre := cells[..|cells| - 1];
    if i < |cells| - 1 {
      LabelledAt(offset, keys, pre, i);
      assert pre[..i] == cells[..i];
    } else {
      assert pre == cells[..i];
    }
  }

  /**
   * A cell the pass numbers n is one whose text begins with "n." and on which
   * the trigger of n's section, consulted with that text, ran out of keys;
   * all its other fields are as they were.
   */
  lemma NumberedOnlyIfTriggered(offset: nat, keys: TriggerKeys, cells: seq<OcrCell>, i: nat)
    requires i < |cells| && cells[i].number == None
    ensures var c := Labelled(offset, keys, cells)[i];
      c.(number := None) == cells[i] &&
      (c.number.Some? ==>
        var s := Run(offset, keys, cells[..i]);
        var n := c.number.value;
        n == Candidate(offset, s) &&
        StartsWith(cells[i].text, DecimalString(n) + ".") &&
        Consult(offset, s, cells[i].text).Of(NumberToMode(n)) == {})
  {
    LabelledAt(offset, keys, cells, i);
  }

  /** Every cell is read by the trigger of the current candidate, numbered or not. */
  lemma ConsultedOnEveryCell(offset: nat, keys: TriggerKeys, cells: seq<OcrCell>, i: nat)
    requires i < |cells|
    ensures Run(offset, keys, cells[..i + 1]).keys == Consult(offset, Run(offset, keys, cells[..i]), cells[i].text)
  {
    assert cells[..i + 1][..i] == cells[..i];
  }

  /** No section's key set ever grows during the pass. */
  lemma {:induction false} RunKeysOnlyShrink(offset: nat, keys: TriggerKeys, cells: seq<OcrCell>, m: Mode)
    ensures Run(offset, keys, cells).keys.Of(m) <= keys.Of(m)
  {
    if cells != [] {
      RunKeysOnlyShrink(offset, keys, cells[..|cells| - 1], m);
    }
  }

  /**
   * On a page whose cells carry no number yet, the numbered cells, read in
   * order, carry exactly the numbers the pass returns.
   */
  lemma {:induction false} NumbersMatchCells(offset: nat, keys: TriggerKeys, cells: seq<OcrCell>)
    requires Unnumbered(cells)
    ensures NumbersOf(Labelled(offset, keys, cells)) == Run(offset, keys, cells).found
  {
    if cells != [] {
      var pre := cells[..|cells| - 1];
      NumbersMatchCells(offset, keys, pre);
      var l := Labelled(offset, keys, cells);
      assert l[..|l| - 1] == Labelled(offset, keys, pre);
    }
  }

  /**
   * The numbers and the keys after the pass has run over each page in turn,
   * the count before the first page being `start`.
   */
  function LabelDocument(start: nat, keys: TriggerKeys, pages: seq<seq<OcrCell>>): (seq<nat>, TriggerKeys)
    decreases |pages|
  {
    if pages == [] then ([], keys)
    else
      var s := Run(start, keys, pages[0]);
      var rest := LabelDocument(start + |s.found|, s.keys, pages[1..]);
      (s.found + rest.0, rest.1)
  }

  lemma LabelDocumentFront(start: nat, keys: TriggerKeys, pages: seq<seq<OcrCell>>, first: seq<OcrCell>, rest: seq<seq<OcrCell>>)
    requires pages != [] && pages[0] == first && pages[1..] == rest
    ensures var s := Run(start, keys, first);
      LabelDocument(start, keys, pages) ==
        (s.found + LabelDocument(start + |s.found|, s.keys, rest).0, LabelDocument(start + |s.found|, s.keys, rest).1)
  {
  }

  lemma SuffixSplit<T>(xs: seq<T>, i: nat)
    requires i < |xs|
    ensures xs[i..] != [] && xs[i..][0] == xs[i] && xs[i..][1..] == xs[i + 1..]
  {
  }

  /**
   * The pass over the pages from page i on reads page i from the count and
   * the keys it is given, then the remaining pages from where page i left.
   */
  lemma LabelDocumentAt(start: nat, keys: TriggerKeys, pages: seq<seq<OcrCell>>, i: nat)
    requires i < |pages|
    ensures var s := Run(start, keys, pages[i]);
      var rest := LabelDocument(start + |s.found|, s.keys, pages[i + 1..]);
      LabelDocument(start, keys, pages[i..]) == (s.found + rest.0, rest.1)
  {
    SuffixSplit(pages, i);
    LabelDocumentFront(start, keys, pages[i..], pages[i], pages[i + 1..]);
  }

  /**
   * With each page's offset the count of the numbers before it, the numbers
   * of the whole document are start + 1, start + 2, ..., each exactly once and
   * in order.
   */
  lemma {:induction false} DocumentContiguous(start: nat, keys: TriggerKeys, pages: seq<seq<OcrCell>>)
    ensures forall j :: 0 <= j < |LabelDocument(start, keys, pages).0| ==> LabelDocument(start, keys, pages).0[j] == start + j + 1
    decreases |pages|
  {
    if pages != [] {
      var s := Run(start, keys, pages[0]);
      RunContiguous(start, keys, pages[0]);
      var rest := LabelDocument(start + |s.found|, s.keys, pages[1..]);
      DocumentContiguous(start + |s.found|, s.keys, pages[1..]);
      LabelDocumentFront(start, keys, pages, pages[0], pages[1..]);
      var ns := s.found + rest.0;
      forall j | 0 <= j < |ns| ensures ns[j] == start + j + 1 {
        if j >= |s.found| {
          assert ns[j] == rest.0[j - |s.found|];
        } else {
          assert ns[j] == s.found[j];
        }
      }
    }
  }
}
