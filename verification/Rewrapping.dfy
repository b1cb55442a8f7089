/** `rewrap` on values: the document, and the cursor as row and column. `last` is the column the
    editor remembers for moves up and down, -1 if none; `w` is the number of screen columns. */
module Rewrapping {
  import opened Document
  import opened Reflow
  import opened Cursor
  import opened Widths

  datatype Place = Place(doc: seq<Row>, y: int, x: int)

  /** `ok` is false where the source fails. */
  datatype Step = Step(place: Place, moved: bool, ok: bool)

  /** Where a move to row `r` puts the cursor. */
  function Landing(x: int, last: int, r: Row): int {
    Clamp(if last >= 0 then last else x, r)
  }

  /** Unwrap from the previous row. The cursor follows if it was among the characters moved up. */
  function UnwrapAbove(p: Place, last: int, w: int): Step
    requires 0 < p.y < |p.doc|
  {
    var rows := p.doc[p.y - 1..];
    UnwrapMoved(rows, w);
    var i, after := UnwrapReturn(rows, w), FinishUp(p.doc, p.y - 1, w);
    if Unwrap(rows, w).ok && i != -1 && p.x <= i then
      Step(Place(after, p.y - 1, Landing(|after[p.y - 1].cells| - (i - p.x), last, after[p.y - 1])), true, true)
    else
      Step(Place(after, p.y, p.x), false, Unwrap(rows, w).ok)
  }

  /** Unwrap from the current row. */
  function UnwrapAt(p: Place, w: int): Step
    requires 0 <= p.y < |p.doc|
  {
    Step(Place(FinishUp(p.doc, p.y, w), p.y, p.x), UnwrapReturn(p.doc[p.y..], w) != -1, Unwrap(p.doc[p.y..], w).ok)
  }

  /** Wrap from the current row. The cursor follows if it no longer is on the row. */
  function WrapAt(p: Place, last: int, w: int): Step
    requires w >= 2 && 0 <= p.y < |p.doc|
  {
    WrapGrows(p.doc, p.y, w);
    var rows := p.doc[p.y..];
    var i, after := WrapReturn(rows, w), Finish(p.doc, p.y, w);
    if Wrap(rows, w).ok && i != -1 && p.x > |after[p.y].cells| then
      Step(Place(after, p.y + 1, Landing(p.x - |p.doc[p.y].cells| + i, last, after[p.y + 1])), true, true)
    else
      Step(Place(after, p.y, p.x), false, Wrap(rows, w).ok)
  }

  /** What `rewrap` leaves behind. `redrawn` is its result, undefined counting as false. */
  datatype End = End(place: Place, outcome: Outcome, redrawn: bool)

  predicate TriesAbove(p: Place, cantUnwrapPrev: bool)
    requires 0 <= p.y < |p.doc|
  {
    !cantUnwrapPrev && p.y > 0 && !p.doc[p.y - 1].hard
  }

  function First(p: Place, last: int, cantUnwrapPrev: bool, w: int): Step
    requires 0 <= p.y < |p.doc|
  {
    if TriesAbove(p, cantUnwrapPrev) then UnwrapAbove(p, last, w) else Step(p, false, true)
  }

  function Second(a: Step, cantUnwrap: bool, w: int): Step
    requires 0 <= a.place.y < |a.place.doc|
  {
    if !cantUnwrap && !a.moved then UnwrapAt(a.place, w) else a
  }

  function Rewrapped(p: Place, last: int, cantUnwrapPrev: bool, cantUnwrap: bool, cantWrap: bool, w: int): End
    requires w >= 2 && 0 <= p.y
  {
    if p.y >= |p.doc| then End(p, Returned, false) else
    var a := First(p, last, cantUnwrapPrev, w);
    if !a.ok then End(a.place, TypeError, false)
    else if a.place.y >= |a.place.doc| then End(a.place, Returned, false)
    else
      var redrawn := TriesAbove(p, cantUnwrapPrev) && UnwrapReturn(p.doc[p.y - 1..], w) != -1;
      Remaining(a, redrawn, last, cantUnwrap, cantWrap, w)
  }

  function Remaining(a: Step, redrawn: bool, last: int, cantUnwrap: bool, cantWrap: bool, w: int): End
    requires w >= 2 && 0 <= a.place.y < |a.place.doc|
  {
    var b := Second(a, cantUnwrap, w);
    if !b.ok then End(b.place, TypeError, false)
    else if cantWrap || b.moved || b.place.y >= |b.place.doc| then End(b.place, Returned, redrawn || b.moved)
    else
      var c := WrapAt(b.place, last, w);
      if !c.ok then End(c.place, GaveUp, false) else End(c.place, Returned, redrawn || c.moved)
  }

  // ---------------------------------------------------------------- the text

  /** The text is kept, and on a plain document so are the breaks. */
  predicate KeepsText(p: Place, q: Place) {
    Chars(q.doc) == Chars(p.doc) && (Plain(p.doc) ==> Stream(q.doc) == Stream(p.doc))
  }

  lemma UnwrapAboveText(p: Place, last: int, w: int)
    requires 0 < p.y < |p.doc|
    ensures var s := UnwrapAbove(p, last, w); KeepsText(p, s.place) && (Plain(p.doc) ==> s.ok && Plain(s.place.doc))
  {
    hide Chars, Stream, Plain, Unwrap, UnwrapReturn;
    FinishUpChars(p.doc, p.y - 1, w);
    if Plain(p.doc) {
      UnwrapPlain(p.doc, p.y - 1, w);
    }
  }

  lemma UnwrapAtText(p: Place, w: int)
    requires 0 <= p.y < |p.doc|
    ensures var s := UnwrapAt(p, w); KeepsText(p, s.place) && (Plain(p.doc) ==> s.ok && Plain(s.place.doc))
  {
    hide Chars, Stream, Plain, Unwrap, UnwrapReturn;
    FinishUpChars(p.doc, p.y, w);
    if Plain(p.doc) {
      UnwrapPlain(p.doc, p.y, w);
    }
  }

  lemma WrapAtText(p: Place, last: int, w: int)
    requires w >= 2 && 0 <= p.y < |p.doc|
    ensures KeepsText(p, WrapAt(p, last, w).place)
  {
    hide Chars, Stream, Plain, Wrap, WrapReturn;
    FinishChars(p.doc, p.y, w);
    if Plain(p.doc) {
      WrapPlain(p.doc, p.y, w);
    }
  }

  /** Whatever `rewrap` does, every character keeps its attribute and its place in the text; a plain
      document also keeps its breaks, and on one `rewrap` never fails in an unwrap. */
  lemma RewrapKeepsText(p: Place, last: int, cantUnwrapPrev: bool, cantUnwrap: bool, cantWrap: bool, w: int)
    requires w >= 2 && 0 <= p.y
    ensures var e := Rewrapped(p, last, cantUnwrapPrev, cantUnwrap, cantWrap, w);
      KeepsText(p, e.place) && (Plain(p.doc) ==> e.outcome != TypeError)
  {
    hide Chars, Stream, Plain, UnwrapAbove, UnwrapAt, WrapAt, UnwrapReturn;
    if p.y < |p.doc| {
      var a := First(p, last, cantUnwrapPrev, w);
      if TriesAbove(p, cantUnwrapPrev) {
        UnwrapAboveText(p, last, w);
      }
      AbovePlace(p, last, w);
      if a.ok && a.place.y < |a.place.doc| {
        var b := Second(a, cantUnwrap, w);
        UnwrapAtText(a.place, w);
        AtPlace(a.place, w);
        if b.place.y < |b.place.doc| {
          WrapAtText(b.place, last, w);
        }
      }
    }
  }

  lemma AbovePlace(p: Place, last: int, w: int)
    ensures 0 < p.y < |p.doc| ==> 0 <= UnwrapAbove(p, last, w).place.y
  {
  }

  lemma AtPlace(p: Place, w: int)
    requires 0 <= p.y < |p.doc|
    ensures UnwrapAt(p, w).place.y == p.y && UnwrapAt(p, w).place.x == p.x
    ensures p.y < |UnwrapAt(p, w).place.doc|
    ensures !UnwrapAt(p, w).moved ==> |UnwrapAt(p, w).place.doc[p.y].cells| == |p.doc[p.y].cells|
    ensures |UnwrapAt(p, w).place.doc[p.y].cells| >= |p.doc[p.y].cells|
    ensures Offset(UnwrapAt(p, w).place.doc, p.y, p.x) == Offset(p.doc, p.y, p.x)
  {
    UnwrapMoved(p.doc[p.y..], w);
    assert FinishUp(p.doc, p.y, w)[..p.y] == p.doc[..p.y];
  }

  // ---------------------------------------------------------------- the cursor

  /** The cursor is in front of the same character. */
  predicate SamePlace(p: Place, q: Place) {
    && 0 <= p.y <= |p.doc| && 0 <= q.y <= |q.doc|
    && Offset(q.doc, q.y, q.x) == Offset(p.doc, p.y, p.x)
  }

  /** The cursor is on a row of the document. */
  predicate OnRow(q: Place) {
    0 <= q.y < |q.doc| && 0 <= q.x <= |q.doc[q.y].cells|
  }

  /** The cursor is on an empty last row that unwrapping from the previous row removes. */
  predicate RowGoes(p: Place, cantUnwrapPrev: bool, w: int)
    requires 0 <= p.y < |p.doc|
  {
    && TriesAbove(p, cantUnwrapPrev)
    && p.y == |p.doc| - 1 && p.doc[p.y].cells == [] && Room(p.doc[p.y - 1], w) >= 1
  }

  lemma UnwrapAboveCursor(p: Place, w: int)
    requires 0 < p.y < |p.doc| && !p.doc[p.y - 1].hard && CursorSafe(p.doc, p.y, p.x, w)
    ensures var s := UnwrapAbove(p, -1, w);
      s.ok ==>
        && SamePlace(p, s.place)
        && (OnRow(s.place) <==> s.place.y < |s.place.doc|)
        && (s.place.y < |s.place.doc| <==> !RowGoes(p, false, w))
        && (!s.moved && s.place.y < |s.place.doc| ==> InRow(s.place.doc[s.place.y], s.place.x, w))
  {
    hide Unwrap, UnwrapReturn, FinishUp, Offset, InRow, RowGoes;
    UnwrapIdle(p.doc, p.y, p.x, w);
    RowStays(p, w);
    UnwrapPrevCursor(p.doc, p.y, p.x, w);
    InRowMeans(p.x, w);
  }

  lemma InRowMeans(x: int, w: int)
    ensures forall r: Row :: InRow(r, x, w) ==> 0 <= x <= |r.cells|
  {
  }

  /** When the cursor's row is still there. */
  lemma RowStays(p: Place, w: int)
    requires 0 < p.y < |p.doc| && !p.doc[p.y - 1].hard
    ensures UnwrapReturn(p.doc[p.y - 1..], w) == -1 ==>
      (p.y < |FinishUp(p.doc, p.y - 1, w)| <==> !RowGoes(p, false, w))
    ensures UnwrapReturn(p.doc[p.y - 1..], w) != -1 ==> !RowGoes(p, false, w)
  {
    var rows := p.doc[p.y - 1..];
    assert rows[0] == p.doc[p.y - 1] && rows[1] == p.doc[p.y];
    hide Unwrap, UnwrapReturn;
    UnwrapLength(rows, w);
  }

  /** After unwrapping from the previous row the cursor is right exactly when it was among the characters
      moved up, or none moved. */
  lemma UnwrapAboveExact(p: Place, w: int)
    requires 0 < p.y < |p.doc| && UnwrapAbove(p, -1, w).ok
    ensures var i := UnwrapReturn(p.doc[p.y - 1..], w);
      SamePlace(p, UnwrapAbove(p, -1, w).place) <==> i == -1 || p.x <= i
  {
    hide Unwrap, UnwrapReturn, FinishUp, Offset;
    UnwrapPrevCursor(p.doc, p.y, p.x, w);
  }

  lemma WrapAtCursor(p: Place, w: int)
    requires w >= 2 && 0 <= p.y < |p.doc| && InRow(p.doc[p.y], p.x, w)
    ensures var s := WrapAt(p, -1, w); s.ok ==> SamePlace(p, s.place) && OnRow(s.place)
  {
    hide Wrap, WrapReturn, Finish, Offset;
    WrapGrows(p.doc, p.y, w);
    if Wrap(p.doc[p.y..], w).ok {
      if WrapReturn(p.doc[p.y..], w) != -1 {
        WrapBranch(p.doc, p.y, p.x, w);
        WrapCursor(p.doc, p.y, p.x, w);
      } else {
        WrapIdle(p.doc, p.y, w);
      }
    }
  }

  /** The cursor's row is cut twice in front of the cursor: two rows down it would have to follow. */
  predicate CutTwice(rows: seq<Row>, x: int, w: int)
    requires w >= 2 && rows != []
  {
    var e, rest := CutAt(rows[0].cells, w), CutRest(rows, w);
    && !Fits(rows[0], |rows| == 1, w) && !Fits(rest[0], |rest| == 1, w)
    && x > e + CutAt(rest[0].cells, w)
  }

  /** After a wrap the cursor is right exactly when its row is not cut twice in front of it. */
  lemma WrapAtExact(p: Place, w: int)
    requires w >= 2 && 0 <= p.y < |p.doc| && 0 <= p.x <= |p.doc[p.y].cells| && WrapAt(p, -1, w).ok
    ensures SamePlace(p, WrapAt(p, -1, w).place) <==> !CutTwice(p.doc[p.y..], p.x, w)
  {
    hide Offset, CutAt, Fits;
    WrapGrows(p.doc, p.y, w);
    var rows := p.doc[p.y..];
    if WrapReturn(rows, w) == -1 {
      WrapIdle(p.doc, p.y, w);
    } else {
      WrapCursor(p.doc, p.y, p.x, w);
      SecondRow(p.doc, p.y, w);
      var after, e := Finish(p.doc, p.y, w), CutAt(rows[0].cells, w);
      if p.x > e {
        AnyPlace(after, p.y + 1, p.x - e, Clamp(p.x - e, after[p.y + 1]));
      }
    }
  }

  /** The row behind the first cut: the pushed-down text, or what a second cut leaves of it. */
  lemma SecondRow(doc: seq<Row>, y: nat, w: int)
    requires w >= 2 && y < |doc| && Wrap(doc[y..], w).ok && WrapReturn(doc[y..], w) != -1
    ensures var rows, after := doc[y..], Finish(doc, y, w);
      var tail, rest := rows[0].cells[CutAt(rows[0].cells, w)..], CutRest(rows, w);
      && |after| > y + 1 && |rest[0].cells| >= |tail|
      && |after[y + 1].cells| == if Fits(rest[0], |rest| == 1, w) then |rest[0].cells| else CutAt(rest[0].cells, w)
  {
    hide CutAt, Fits;
    CutConserves(doc[y..], w);
    assert Finish(doc, y, w)[y + 1] == Wrap(CutRest(doc[y..], w), w).rows[0];
  }

  lemma AnyPlace(doc: seq<Row>, y: nat, x: int, z: int)
    requires y <= |doc|
    ensures Offset(doc, y, x) == Offset(doc, y, z) <==> x == z
  {
    hide Chars;
  }

  /** Whenever `rewrap` returns, which it does on a sane document, and no column is remembered, it leaves
      a safe cursor in front of the same character, and on a row of the document exactly unless the
      cursor's row goes. */
  lemma RewrapKeepsCursor(p: Place, cantUnwrapPrev: bool, cantUnwrap: bool, cantWrap: bool, w: int)
    requires w >= 2 && CursorSafe(p.doc, p.y, p.x, w)
    ensures var e := Rewrapped(p, -1, cantUnwrapPrev, cantUnwrap, cantWrap, w);
      e.outcome == Returned || Sane(p.doc) ==>
        SamePlace(p, e.place) && (OnRow(e.place) <==> !RowGoes(p, cantUnwrapPrev, w))
  {
    hide UnwrapAbove, UnwrapAt, WrapAt, UnwrapReturn, Offset, Sane, Room;
    if Sane(p.doc) {
      RewrapReturns(p, -1, cantUnwrapPrev, cantUnwrap, cantWrap, w);
    }
    var a := First(p, -1, cantUnwrapPrev, w);
    if TriesAbove(p, cantUnwrapPrev) {
      UnwrapAboveCursor(p, w);
      AbovePlace(p, -1, w);
    }
    if a.ok && a.place.y < |a.place.doc| {
      var b := Second(a, cantUnwrap, w);
      AtPlace(a.place, w);
      if !b.moved && b.place.y < |b.place.doc| {
        WrapAtCursor(b.place, w);
      }
    }
  }

  // ---------------------------------------------------------------- the width

  /** The first branch moves characters off a row so wide that the rest still is too wide. `rewrap` then
      does not wrap it. */
  predicate LeavesWide(p: Place, cantUnwrapPrev: bool, w: int)
    requires 0 <= p.y < |p.doc|
  {
    && TriesAbove(p, cantUnwrapPrev)
    && var i := UnwrapReturn(p.doc[p.y - 1..], w);
       i != -1 && p.x <= i && WideRest(p.doc[p.y].cells, i, w)
  }

  /** Rows behind narrow ones. */
  lemma SpliceNarrow(doc: seq<Row>, l: nat, rows: seq<Row>, k: nat, w: int)
    requires l <= |doc| && forall i :: 0 <= i < l ==> TrimmedLen(doc[i].cells) < w
    ensures AllNarrow(doc[..l] + rows, w) <==> AllNarrow(rows, w)
    ensures NarrowBut(doc[..l] + rows, l + k, w) <==> NarrowBut(rows, k, w)
  {
    hide TrimmedLen;
    var all := doc[..l] + rows;
    forall i | 0 <= i < |rows| ensures rows[i] == all[l + i] {
    }
    forall i | 0 <= i < l ensures TrimmedLen(all[i].cells) < w {
      assert all[i] == doc[i];
    }
    forall i | l <= i < |all| ensures all[i] == rows[i - l] {
    }
  }

  lemma UnwrapAboveNarrow(p: Place, last: int, w: int)
    requires 0 < p.y < |p.doc| && NarrowBut(p.doc, p.y, w) && UnwrapAbove(p, last, w).ok
    ensures var s := UnwrapAbove(p, last, w);
      var i := UnwrapReturn(p.doc[p.y - 1..], w);
      && NarrowBut(s.place.doc, p.y, w)
      && (s.moved <==> i != -1 && p.x <= i) && (!s.moved ==> s.place.y == p.y)
      && (i != -1 ==> (AllNarrow(s.place.doc, w) <==> !WideRest(p.doc[p.y].cells, i, w)))
  {
    hide Unwrap, UnwrapReturn, WideRest;
    var rows := p.doc[p.y - 1..];
    assert rows[1] == p.doc[p.y] && forall i :: 0 <= i < |rows| ==> rows[i] == p.doc[p.y - 1 + i];
    UnwrapSecond(rows, w);
    SpliceNarrow(p.doc, p.y - 1, Unwrap(rows, w).rows, 1, w);
  }

  lemma UnwrapAtNarrow(p: Place, w: int)
    requires 0 <= p.y < |p.doc| && NarrowBut(p.doc, p.y, w)
    ensures var s := UnwrapAt(p, w);
      NarrowBut(s.place.doc, p.y, w) && (s.moved ==> AllNarrow(s.place.doc, w))
  {
    hide Unwrap;
    var rows := p.doc[p.y..];
    assert forall i :: 0 <= i < |rows| ==> rows[i] == p.doc[p.y + i];
    UnwrapNarrow(rows, w);
    SpliceNarrow(p.doc, p.y, Unwrap(rows, w).rows, 0, w);
  }

  lemma WrapAtNarrow(p: Place, last: int, w: int)
    requires w >= 2 && 0 <= p.y < |p.doc| && NarrowBut(p.doc, p.y, w)
    ensures AllNarrow(WrapAt(p, last, w).place.doc, w)
  {
    hide Wrap, WrapReturn;
    var rows := p.doc[p.y..];
    assert forall i :: 0 <= i < |rows| ==> rows[i] == p.doc[p.y + i];
    WrapNarrow(rows, w);
    SpliceNarrow(p.doc, p.y, Wrap(rows, w).rows, 0, w);
  }

  /** When only the edited row may be too wide and `rewrap` may wrap, then whenever it returns, which it
      does on a sane document, all rows are left of the margin, exactly unless the rest of the edited row
      is left wide. A row of at most as many characters as the screen is wide is never left so. */
  lemma RewrapNarrow(p: Place, last: int, cantUnwrapPrev: bool, cantUnwrap: bool, w: int)
    requires w >= 2 && 0 <= p.y < |p.doc| && NarrowBut(p.doc, p.y, w)
    ensures var e := Rewrapped(p, last, cantUnwrapPrev, cantUnwrap, false, w);
      e.outcome == Returned || Sane(p.doc) ==>
        && (AllNarrow(e.place.doc, w) <==> !LeavesWide(p, cantUnwrapPrev, w))
        && (|p.doc[p.y].cells| <= w ==> AllNarrow(e.place.doc, w))
  {
    if |p.doc[p.y].cells| <= w {
      NarrowLeaves(p, cantUnwrapPrev, w);
    }
    hide UnwrapAbove, Remaining, UnwrapReturn, WideRest, Sane, AllNarrow, NarrowBut;
    if Sane(p.doc) {
      RewrapReturns(p, last, cantUnwrapPrev, cantUnwrap, false, w);
    }
    var a := First(p, last, cantUnwrapPrev, w);
    AbovePlace(p, last, w);
    if a.ok {
      if TriesAbove(p, cantUnwrapPrev) {
        UnwrapAboveNarrow(p, last, w);
      }
      if a.place.y < |a.place.doc| {
        var redrawn := TriesAbove(p, cantUnwrapPrev) && UnwrapReturn(p.doc[p.y - 1..], w) != -1;
        RemainingNarrow(a, redrawn, last, cantUnwrap, w);
      } else {
        NoRowLeft(a.place, w);
      }
    }
  }

  lemma NoRowLeft(q: Place, w: int)
    ensures q.y >= |q.doc| && NarrowBut(q.doc, q.y, w) ==> AllNarrow(q.doc, w)
  {
  }

  /** The last two branches make the edited row narrow, if the first has not moved the cursor. */
  lemma RemainingNarrow(a: Step, redrawn: bool, last: int, cantUnwrap: bool, w: int)
    requires w >= 2 && a.ok && 0 <= a.place.y < |a.place.doc|
    ensures var e := Remaining(a, redrawn, last, cantUnwrap, false, w);
      && (a.moved ==> e.place == a.place)
      && (!a.moved && NarrowBut(a.place.doc, a.place.y, w) && e.outcome == Returned ==> AllNarrow(e.place.doc, w))
  {
    hide UnwrapAt, WrapAt, AllNarrow, NarrowBut;
    AtPlace(a.place, w);
    if !a.moved && NarrowBut(a.place.doc, a.place.y, w) {
      UnwrapAtNarrow(a.place, w);
      var b := Second(a, cantUnwrap, w);
      if !b.moved {
        WrapAtNarrow(b.place, last, w);
      }
    }
  }

  lemma NarrowLeaves(p: Place, cantUnwrapPrev: bool, w: int)
    requires w >= 2 && 0 <= p.y < |p.doc| && |p.doc[p.y].cells| <= w
    ensures !LeavesWide(p, cantUnwrapPrev, w)
  {
    if p.y > 0 {
      hide UnwrapReturn;
      UnwrapPrevCursor(p.doc, p.y, p.x, w);
    }
  }

  /** When `rewrap` may wrap and reports no change, the row of the cursor fits the screen and wrapping
      again would change nothing. */
  lemma RewrapFits(p: Place, last: int, cantUnwrapPrev: bool, cantUnwrap: bool, w: int)
    requires w >= 2 && 0 <= p.y
    ensures var e := Rewrapped(p, last, cantUnwrapPrev, cantUnwrap, false, w);
      (e.outcome == Returned || Sane(p.doc)) && !e.redrawn && 0 <= e.place.y < |e.place.doc| ==>
        && TrimmedLen(e.place.doc[e.place.y].cells) < w
        && Finish(e.place.doc, e.place.y, w) == e.place.doc
  {
    hide UnwrapAbove, UnwrapAt, WrapAt, UnwrapReturn, Finish, Sane;
    if Sane(p.doc) {
      RewrapReturns(p, last, cantUnwrapPrev, cantUnwrap, false, w);
    }
    if p.y < |p.doc| {
      var a := First(p, last, cantUnwrapPrev, w);
      AbovePlace(p, last, w);
      AboveMoved(p, last, w);
      if a.ok && a.place.y < |a.place.doc| {
        var b := Second(a, cantUnwrap, w);
        AtPlace(a.place, w);
        if !b.moved && b.place.y < |b.place.doc| {
          WrapAtFits(b.place, last, w);
        }
      }
    }
  }

  lemma AboveMoved(p: Place, last: int, w: int)
    ensures 0 < p.y < |p.doc| && UnwrapAbove(p, last, w).moved ==> UnwrapReturn(p.doc[p.y - 1..], w) != -1
  {
    hide UnwrapReturn;
  }

  lemma WrapAtFits(p: Place, last: int, w: int)
    requires w >= 2 && 0 <= p.y < |p.doc|
    ensures var s := WrapAt(p, last, w);
      s.ok && !s.moved ==>
        && 0 <= s.place.y < |s.place.doc|
        && TrimmedLen(s.place.doc[s.place.y].cells) < w
        && Finish(s.place.doc, s.place.y, w) == s.place.doc
  {
    hide Wrap, WrapReturn;
    var rows := p.doc[p.y..];
    WrapNonEmpty(rows, w);
    WrapWidths(rows, w);
    WrapGrows(p.doc, p.y, w);
    var after := Finish(p.doc, p.y, w);
    assert after[p.y..] == Wrap(rows, w).rows && after[..p.y] == p.doc[..p.y];
    if Wrap(rows, w).ok {
      WrapSettles(rows, w);
      assert after[p.y] == Wrap(rows, w).rows[0];
      assert after == after[..p.y] + after[p.y..];
    }
  }

  // ---------------------------------------------------------------- the outcome

  predicate AboveRunsOut(p: Place, cantUnwrapPrev: bool, w: int)
    requires 0 <= p.y < |p.doc|
  {
    TriesAbove(p, cantUnwrapPrev) && RunsOut(p.doc[p.y - 1..], w)
  }

  predicate HereRunsOut(a: Step, cantUnwrap: bool, w: int)
    requires 0 <= a.place.y < |a.place.doc|
  {
    !cantUnwrap && !a.moved && RunsOut(a.place.doc[a.place.y..], w)
  }

  predicate HereReachesBlank(b: Step, cantWrap: bool, w: int)
    requires w >= 2 && 0 <= b.place.y < |b.place.doc|
  {
    !cantWrap && !b.moved && ReachesBlank(b.place.doc[b.place.y..], w)
  }

  /** `rewrap` fails exactly where one of the unwraps it makes completes a word with all of the last row,
      and exits exactly where the wrap it makes reaches an empty soft row. */
  lemma RewrapOutcome(p: Place, last: int, cantUnwrapPrev: bool, cantUnwrap: bool, cantWrap: bool, w: int)
    requires w >= 2 && 0 <= p.y < |p.doc|
    ensures 0 <= First(p, last, cantUnwrapPrev, w).place.y
    ensures var a := First(p, last, cantUnwrapPrev, w);
      var e := Rewrapped(p, last, cantUnwrapPrev, cantUnwrap, cantWrap, w);
      if AboveRunsOut(p, cantUnwrapPrev, w) then e.outcome == TypeError
      else if a.place.y >= |a.place.doc| then e.outcome == Returned
      else if HereRunsOut(a, cantUnwrap, w) then e.outcome == TypeError
      else
        var b := Second(a, cantUnwrap, w);
        && 0 <= b.place.y < |b.place.doc|
        && e.outcome == if HereReachesBlank(b, cantWrap, w) then GaveUp else Returned
  {
    hide Unwrap, UnwrapReturn, FinishUp, Wrap, WrapReturn, Finish, RunsOut, ReachesBlank;
    if TriesAbove(p, cantUnwrapPrev) {
      UnwrapOkExact(p.doc[p.y - 1..], w);
    }
    AbovePlace(p, last, w);
    var a := First(p, last, cantUnwrapPrev, w);
    if a.place.y < |a.place.doc| {
      UnwrapOkExact(a.place.doc[a.place.y..], w);
      AtPlace(a.place, w);
      var b := Second(a, cantUnwrap, w);
      WrapOkExact(b.place.doc[b.place.y..], w);
    }
  }

  /** No row is cut inside a word, and none but the last is both empty and soft. */
  predicate Sane(doc: seq<Row>) {
    NoneKludged(doc) && NoBlank(doc)
  }

  lemma UnwrapSane(doc: seq<Row>, l: nat, w: int)
    requires Sane(doc) && l < |doc|
    ensures !RunsOut(doc[l..], w) && Sane(FinishUp(doc, l, w))
  {
    hide Unwrap, RunsOut;
    var rows := doc[l..];
    assert NoBlank(rows);
    UnwrapSafe(rows, w);
    UnwrapOkExact(rows, w);
    UnwrapNoBlank(rows, w);
    UnwrapMoved(rows, w);
    UnwrapStaysUnkludged(rows, w);
    var after := FinishUp(doc, l, w);
    forall i | 0 <= i < |after| - 1 ensures after[i].cells != [] || after[i].hard {
      assert i < l ==> after[i] == doc[i];
      assert i >= l ==> after[i] == Unwrap(rows, w).rows[i - l];
    }
  }

  /** On a sane document `rewrap` returns, whatever the cursor and the flags. */
  lemma RewrapReturns(p: Place, last: int, cantUnwrapPrev: bool, cantUnwrap: bool, cantWrap: bool, w: int)
    requires w >= 2 && 0 <= p.y && Sane(p.doc)
    ensures Rewrapped(p, last, cantUnwrapPrev, cantUnwrap, cantWrap, w).outcome == Returned
  {
    hide RunsOut, ReachesBlank, Sane, Unwrap, UnwrapReturn, FinishUp, WrapAt, Wrap;
    if p.y < |p.doc| {
      RewrapOutcome(p, last, cantUnwrapPrev, cantUnwrap, cantWrap, w);
      if TriesAbove(p, cantUnwrapPrev) {
        UnwrapSane(p.doc, p.y - 1, w);
      }
      var a := First(p, last, cantUnwrapPrev, w);
      if a.place.y < |a.place.doc| {
        UnwrapSane(a.place.doc, a.place.y, w);
        AtPlace(a.place, w);
        var b := Second(a, cantUnwrap, w);
        SaneWraps(b.place.doc, b.place.y, w);
      }
    }
  }

  lemma SaneWraps(doc: seq<Row>, l: nat, w: int)
    requires w >= 2 && Sane(doc) && l < |doc|
    ensures !ReachesBlank(doc[l..], w)
  {
    hide Wrap, ReachesBlank;
    WrapSucceeds(doc[l..], w);
    WrapOkExact(doc[l..], w);
  }
}
