/** Concrete documents on which the editor does not keep what it keeps otherwise. */
module ReflowLimits {
  import opened Document
  import opened Reflow
  import opened Cursor
  import opened Widths
  import opened Rewrapping

  function Plainly(text: string): seq<Glyph> {
    seq(|text|, i requires 0 <= i < |text| => Glyph(text[i], 7))
  }

  /** Eight columns, a full hard row at the end of the document: the break ends up in the
      middle of the word. */
  lemma WrapMovesBreak()
    ensures var rows := [Row(Plainly("abcdefgh"), true, false)];
      CutsHardLast(rows, 8) && Stream(Wrap(rows, 8).rows) != Stream(rows)
  {
    var r := Row(Plainly("abcdefgh"), true, false);
    assert TrimmedLen(r.cells) == 8;
    WrapKeepsStream([r], 8);
  }

  /** A blank soft row above another row: the editor exits. */
  lemma WrapGivesUp()
    ensures var rows := [BLANK_ROW, Row(Plainly("abc"), true, false)];
      ReachesBlank(rows, 8) && !Wrap(rows, 8).ok
  {
  }

  /** A cut word completed from the last row of the document: the next read fails. */
  lemma UnwrapFails()
    ensures var rows := [Row(Plainly("abcde"), false, true), Row(Plainly("f"), true, false)];
      RunsOut(rows, 8) && !HarmsBreak(rows, 8) && !Unwrap(rows, 8).ok
  {
    var rows := [Row(Plainly("abcde"), false, true), Row(Plainly("f"), true, false)];
    WordOfOne(rows[1].cells, 2);
    assert |Unkludge(rows, 8).0| == 1;
  }

  /** A cut word completed from a hard row: the next paragraph is joined on. */
  lemma UnwrapJoinsParagraphs()
    ensures var f, g := Row(Plainly("f"), true, false), Row(Plainly("g"), false, false);
      var rows := [Row(Plainly("abcde"), false, true), f, g];
      HarmsBreak(rows, 8) && Stream(Unwrap(rows, 8).rows) != Stream(rows)
  {
    var f, g := Row(Plainly("f"), true, false), Row(Plainly("g"), false, false);
    var rows := [Row(Plainly("abcde"), false, true), f, g];
    WordOfOne(f.cells, 2);
    var a := Unkludge(rows, 8).0;
    assert |a| == 2 && a[0].hard && a[1] == g && |a[0].cells| == 6;
    WordOfOne(g.cells, 1);
    assert Refill(a, 8).1 == 1;
    UnwrapKeepsStream(rows, 8);
  }

  lemma WordOfOne(cells: seq<Glyph>, room: nat)
    requires |cells| == 1 && !IsSpace(cells[0].c) && room > 0
    ensures WordRest(cells, room) == 1 && WordsFitting(cells, room) == 1
  {
    assert WordStop(cells, 1);
    assert LastStop(cells, 1) == 1;
    assert WordEnd(cells, room) > 0;
  }

  /** The word "bc" fits on the row above but the cursor is behind it: the cursor slips. */
  lemma CursorSlips()
    ensures var doc := [Row(Plainly("a "), false, false), Row(Plainly("bc defgh"), true, false)];
      UnwrapReturn(doc, 8) == 3 && Offset(FinishUp(doc, 0, 8), 1, 4) == Offset(doc, 1, 4) + 3
  {
    var r, q := Row(Plainly("a "), false, false), Row(Plainly("bc defgh"), true, false);
    var doc := [r, q];
    assert doc[0..] == doc;
    assert WordStop(q.cells, 2);
    assert LastStop(q.cells, 5) == 2;
    assert RunEnd(q.cells, 2) == 3;
    assert Refill(doc, 8).1 == 3;
    UnwrapPrevCursor(doc, 1, 4, 8);
  }

  /** A cursor on an empty last row: `rewrap` removes the row and returns with the cursor on no row. */
  lemma CursorLeft()
    ensures var doc := [Row(Plainly("ab"), false, false), BLANK_ROW];
      var e := Rewrapped(Place(doc, 1, 0), -1, false, false, false, 8);
      Sane(doc) && Plain(doc) && CursorSafe(doc, 1, 0, 8) && e.outcome == Returned && !OnRow(e.place)
  {
    var doc := [Row(Plainly("ab"), false, false), BLANK_ROW];
    assert doc[0..] == doc;
    hide Unwrap, UnwrapReturn, Rewrapped;
    UnwrapLength(doc, 8);
    RewrapReturns(Place(doc, 1, 0), -1, false, false, false, 8);
    RewrapKeepsCursor(Place(doc, 1, 0), false, false, false, 8);
  }

  /** A word of more than two rows is cut twice in front of the cursor at its end. */
  lemma CursorTwoBehind()
    ensures var p := Place([Row(Plainly("aaaaaaa"), false, false)], 0, 7);
      CutTwice(p.doc, 7, 4) && WrapAt(p, -1, 4).ok && !SamePlace(p, WrapAt(p, -1, 4).place)
  {
    var r := Row(Plainly("aaaaaaa"), false, false);
    var p := Place([r], 0, 7);
    assert p.doc[0..] == p.doc;
    NoGap(r.cells, 3);
    var rest := CutRest(p.doc, 4);
    assert r.cells[3..] == Plainly("aaaa");
    assert rest == [Row(Plainly("aaaa"), false, false)];
    NoGap(rest[0].cells, 3);
    assert TrimmedLen(r.cells) == 7 && TrimmedLen(rest[0].cells) == 4;
    WrapSucceeds(p.doc, 4);
    WrapAtExact(p, 4);
  }

  lemma NoGap(cells: seq<Glyph>, k: nat)
    requires forall g :: g in cells ==> !IsSpace(g.c)
    ensures LastGap(cells, k) == 0
  {
  }

  /** A word longer than a row behind one that fits on the row above: the long one is left as it is. */
  lemma RowLeftWide()
    ensures var doc := [Row(Plainly("ab "), false, false), Row(Plainly("c ddddddddd"), false, false)];
      var e := Rewrapped(Place(doc, 1, 0), -1, false, false, false, 8);
      && Sane(doc) && NarrowBut(doc, 1, 8) && LeavesWide(Place(doc, 1, 0), false, 8)
      && e.outcome == Returned && !AllNarrow(e.place.doc, 8)
  {
    var r, q := Row(Plainly("ab "), false, false), Row(Plainly("c ddddddddd"), false, false);
    var doc := [r, q];
    assert doc[0..] == doc;
    assert TrimmedLen(r.cells) <= 3;
    assert WordStop(q.cells, 1);
    assert LastStop(q.cells, 4) == 1;
    assert RunEnd(q.cells, 1) == 2;
    assert Refill(doc, 8).1 == 2;
    assert UnwrapReturn(doc, 8) == 2;
    assert q.cells[2..] == Plainly("ddddddddd");
    assert TrimmedLen(q.cells[2..]) == 9;
    hide Unwrap, UnwrapReturn, Rewrapped, WideRest;
    assert WideRest(q.cells, 2, 8) by {
      WideByNine(q.cells);
    }
    RewrapReturns(Place(doc, 1, 0), -1, false, false, false, 8);
    RewrapNarrow(Place(doc, 1, 0), -1, false, false, 8);
  }

  lemma WideByNine(cells: seq<Glyph>)
    requires |cells| == 11 && TrimmedLen(cells[2..]) == 9
    ensures WideRest(cells, 2, 8)
  {
  }
}
