/** Wrapping and unwrapping from some row of the document on, one round at a time, and
    what they do to the cursor. */
module Cursor {
  import opened Document
  import opened Reflow

  /** The document with room made below row `l` for what is going to be cut off it. */
  function Opened(doc: seq<Row>, l: nat): (mid: seq<Row>)
    requires l < |doc|
    ensures |mid| > l + 1 && mid[l] == doc[l]
  {
    if l + 1 == |doc| then doc + [BLANK_ROW]
    else if doc[l].hard then doc[..l + 1] + [Row([], true, false)] + doc[l + 1..]
    else doc
  }

  lemma CutOpened(doc: seq<Row>, l: nat, w: int)
    requires w >= 2 && l < |doc|
    ensures var mid, tail := Opened(doc, l), doc[l].cells[CutAt(doc[l].cells, w)..];
      mid[l := CutHead(doc[l..], w)][l + 1 := mid[l + 1].(cells := tail + mid[l + 1].cells)]
      == doc[..l] + [CutHead(doc[l..], w)] + CutRest(doc[l..], w)
  {
    var rows, tail := doc[l..], doc[l].cells[CutAt(doc[l].cells, w)..];
    var mid, head := Opened(doc, l), CutHead(rows, w);
    var next := mid[l + 1].(cells := tail + mid[l + 1].cells);
    assert mid[l := head][l + 1 := next] == doc[..l] + [head] + ([next] + mid[l + 2..]);
    assert tail + [] == tail;
    if l + 1 == |doc| {
      assert mid[l + 2..] == [];
    } else if doc[l].hard {
      assert mid[l + 2..] == rows[1..];
    } else {
      assert mid[l + 2..] == rows[2..];
    }
  }

  lemma SpliceAbsorb(doc: seq<Row>, l: nat, mid: seq<Row>)
    requires l + 1 < |doc| && doc[l + 1].cells == []
    requires mid == doc[l := doc[l].(hard := doc[l + 1].hard)]
    ensures mid[..l + 1] + mid[l + 2..] == doc[..l] + Absorb(doc[l..])
  {
    assert doc[l..][2..] == doc[l + 2..];
  }

  /** The document once the wrapping that has reached row `l` is over. */
  function Finish(doc: seq<Row>, l: nat, w: int): seq<Row>
    requires w >= 2 && l <= |doc|
  {
    doc[..l] + Wrap(doc[l..], w).rows
  }

  /** Wrapping `doc` from row `l` on ends as wrapping `doc0` from row `start` on does. */
  predicate SameFuture(doc0: seq<Row>, start: nat, doc: seq<Row>, l: nat, w: int)
    requires w >= 2 && start <= |doc0| && l <= |doc|
  {
    Finish(doc, l, w) == Finish(doc0, start, w) && Wrap(doc[l..], w).ok == Wrap(doc0[start..], w).ok
  }

  lemma NothingLeft(doc: seq<Row>, w: int)
    requires w >= 2
    ensures Finish(doc, |doc|, w) == doc && Wrap(doc[|doc|..], w).ok && WrapReturn(doc[|doc|..], w) == -1
  {
  }

  lemma RoundDone(doc: seq<Row>, l: nat, w: int)
    requires w >= 2 && l < |doc| && Fits(doc[l], l + 1 == |doc|, w)
    ensures Finish(doc, l, w) == doc && Wrap(doc[l..], w).ok
    ensures WrapReturn(doc[l..], w) == -1
  {
  }

  lemma RoundAborts(doc: seq<Row>, l: nat, w: int)
    requires w >= 2 && l < |doc| && !Fits(doc[l], l + 1 == |doc|, w) && doc[l].cells == []
    ensures Finish(doc, l, w) == doc[l := doc[l].(kludged := true)] && !Wrap(doc[l..], w).ok
  {
  }

  lemma RoundCuts(doc: seq<Row>, l: nat, w: int, after: seq<Row>)
    requires w >= 2 && l < |doc| && !Fits(doc[l], l + 1 == |doc|, w) && doc[l].cells != []
    requires after == doc[..l] + [CutHead(doc[l..], w)] + CutRest(doc[l..], w)
    ensures l + 1 <= |after| && Finish(after, l + 1, w) == Finish(doc, l, w)
    ensures Wrap(after[l + 1..], w).ok == Wrap(doc[l..], w).ok
    ensures |Chars(after[l + 1..])| < |Chars(doc[l..])|
    ensures WrapReturn(doc[l..], w) == |doc[l].cells| - CutAt(doc[l].cells, w)
  {
    var rows := doc[l..];
    CutConserves(rows, w);
    assert after[l + 1..] == CutRest(rows, w);
    assert after[..l + 1] == doc[..l] + [CutHead(rows, w)];
    Assoc(doc[..l], [CutHead(rows, w)], Wrap(CutRest(rows, w), w).rows);
  }

  lemma SplicePullUp(doc: seq<Row>, l: nat, n: nat)
    requires l + 1 < |doc| && n <= |doc[l + 1].cells|
    ensures var up := doc[l].(cells := doc[l].cells + doc[l + 1].cells[..n]);
      doc[l := up][l + 1 := doc[l + 1].(cells := doc[l + 1].cells[n..])] == doc[..l] + PullUp(doc[l..], n)
  {
    assert doc[l..][2..] == doc[l + 2..];
  }

  lemma MarkedAt(above: seq<Row>, below: seq<Row>, kludged: bool)
    requires below != []
    ensures (above + below)[|above| := below[0].(kludged := kludged)] == above + SetKludged(below, kludged)
  {
  }

  lemma Respliced(above: seq<Row>, below: seq<Row>)
    ensures (above + below)[..|above|] == above && (above + below)[|above|..] == below
  {
  }

  /** The document once the unwrapping that has reached row `l` is over. */
  function FinishUp(doc: seq<Row>, l: nat, w: int): seq<Row>
    requires l <= |doc|
  {
    doc[..l] + Unwrap(doc[l..], w).rows
  }

  predicate SameUnwrap(doc0: seq<Row>, start: nat, doc: seq<Row>, l: nat, w: int)
    requires start <= |doc0| && l <= |doc|
  {
    FinishUp(doc, l, w) == FinishUp(doc0, start, w) && Unwrap(doc[l..], w).ok == Unwrap(doc0[start..], w).ok
  }

  lemma UnwrapStops(doc: seq<Row>, l: nat, w: int)
    requires l <= |doc| && (l + 1 >= |doc| || doc[l].hard || Room(doc[l], w) < 1)
    ensures FinishUp(doc, l, w) == doc && Unwrap(doc[l..], w).ok && UnwrapReturn(doc[l..], w) == -1
  {
  }

  lemma UnwrapRounds(doc: seq<Row>, l: nat, mid: seq<Row>, after: seq<Row>, w: int)
    requires l < |doc| && MayPull(doc[l..], w)
    requires mid == doc[..l] + Unkludge(doc[l..], w).0 && l + 1 < |mid|
    requires after == mid[..l] + Refill(mid[l..], w).0
    ensures UnwrapReturn(doc[l..], w)
         == (var n := Unkludge(doc[l..], w).1 + Refill(mid[l..], w).1; if n == 0 then -1 else n)
    ensures Refill(mid[l..], w).1 > 0 ==> l + 1 <= |after| && SameUnwrap(doc, l, after, l + 1, w)
    ensures Refill(mid[l..], w).1 == 0 ==> after == FinishUp(doc, l, w) && Unwrap(doc[l..], w).ok
  {
    var a := Unkludge(doc[l..], w).0;
    assert mid[l..] == a && mid[..l] == doc[..l];
    var (b, n) := Refill(a, w);
    if n > 0 {
      assert after[l + 1..] == b[1..] && after[..l + 1] == doc[..l] + [b[0]];
      Assoc(doc[..l], [b[0]], Unwrap(b[1..], w).rows);
    }
  }

  // -------------------------------------------------------------- the cursor

  function Clamp(x: int, r: Row): int {
    if x > |r.cells| then |r.cells| else x
  }

  /** The cursor's distance from the start of the document, in characters. */
  function Offset(doc: seq<Row>, y: nat, x: int): int
    requires y <= |doc|
  {
    |Chars(doc[..y])| + x
  }

  lemma OffsetNext(doc: seq<Row>, y: nat, x: int)
    requires y < |doc|
    ensures Offset(doc, y + 1, x) == Offset(doc, y, x) + |doc[y].cells|
  {
    assert doc[..y + 1] == doc[..y] + [doc[y]];
    CharsSplit(doc[..y], [doc[y]]);
    CharsCons(doc[y], []);
  }

  /** Where the first row ends up is at least as long as the word cut off above it. */
  lemma CutKeepsWord(tail: seq<Glyph>, more: seq<Glyph>, p: nat, w: int)
    requires w >= 2 && p <= |tail| < w
    requires forall i :: 0 <= i < p ==> !IsSpace(tail[i].c)
    requires forall i :: p <= i < |tail| ==> IsSpace(tail[i].c)
    ensures CutAt(tail + more, w) >= |tail|
  {
    var all := tail + more;
    var g := LastGap(all, w - 1);
    assert forall i :: 0 <= i < |tail| ==> all[i] == tail[i];
    assert 0 < g < |tail| ==> p <= g;
  }

  /** What is cut off a row that is at most one column too wide is one word and whitespace. */
  lemma TailIsWord(cells: seq<Glyph>, w: int)
    requires w >= 2 && |cells| <= w
    ensures var tail := cells[CutAt(cells, w)..];
      forall i :: WordEnd(tail, |tail|) <= i < |tail| ==> IsSpace(tail[i].c)
  {
    var e := CutAt(cells, w);
    var tail := cells[e..];
    var p := WordEnd(tail, |tail|);
    if p < |tail| {
      assert IsSpace(tail[p].c) && cells[e + p] == tail[p];
      if LastGap(cells, w - 1) > 0 {
        assert !GapAt(cells, e + p);
      }
      assert forall i :: p <= i < |tail| ==> tail[i] == cells[e + i];
    }
  }

  /** The wrap branch of `rewrap`: the new cursor is at the old offset, and when the row
      was at most as long as the screen is wide, it is inside the next row. */
  lemma WrapCursor(doc: seq<Row>, y: nat, x: int, w: int)
    requires w >= 2 && y < |doc| && WrapReturn(doc[y..], w) != -1 && Wrap(doc[y..], w).ok
    requires 0 <= x <= |doc[y].cells|
    ensures var i, after := WrapReturn(doc[y..], w), Finish(doc, y, w);
      && |after| > y + 1
      && |after[y].cells| == |doc[y].cells| - i
      && Offset(after, y, x) == Offset(doc, y, x)
      && Offset(after, y + 1, x - |doc[y].cells| + i) == Offset(doc, y, x)
      && (|doc[y].cells| <= w ==> i <= |after[y + 1].cells|)
  {
    var rows, after := doc[y..], Finish(doc, y, w);
    var rest := CutRest(rows, w);
    CutConserves(rows, w);
    WrapNonEmpty(rest, w);
    assert after[..y] == doc[..y];
    assert after[y] == CutHead(rows, w) && after[y + 1] == Wrap(rest, w).rows[0];
    OffsetNext(after, y, x - |after[y].cells|);
    if |doc[y].cells| <= w {
      var tail := doc[y].cells[CutAt(doc[y].cells, w)..];
      TailIsWord(doc[y].cells, w);
      var more := rest[0].cells[|tail|..];
      assert rest[0].cells == tail + more;
      CutKeepsWord(tail, more, WordEnd(tail, |tail|), w);
    }
  }

  lemma FinishChars(doc: seq<Row>, l: nat, w: int)
    requires w >= 2 && l <= |doc|
    ensures Chars(Finish(doc, l, w)) == Chars(doc)
  {
    hide Wrap, Chars;
    WrapKeepsChars(doc[l..], w);
    assert doc[..l] + doc[l..] == doc;
    CharsSplit(doc[..l], doc[l..]);
    CharsSplit(doc[..l], Wrap(doc[l..], w).rows);
  }

  lemma FinishUpChars(doc: seq<Row>, l: nat, w: int)
    requires l <= |doc|
    ensures Chars(FinishUp(doc, l, w)) == Chars(doc)
  {
    hide Unwrap, Chars;
    UnwrapKeepsChars(doc[l..], w);
    assert doc[..l] + doc[l..] == doc;
    CharsSplit(doc[..l], doc[l..]);
    CharsSplit(doc[..l], Unwrap(doc[l..], w).rows);
  }

  /** No row is kludged and the last row is soft, as in a text typed within the margins. */
  predicate Plain(rows: seq<Row>) {
    NoneKludged(rows) && rows != [] && !rows[|rows| - 1].hard
  }

  lemma {:induction false} UnwrapStaysPlain(rows: seq<Row>, w: int)
    requires Plain(rows)
    ensures Plain(Unwrap(rows, w).rows)
    decreases |rows|
  {
    UnwrapStaysUnkludged(rows, w);
    if MayPull(rows, w) {
      hide Absorb, PullUp, WordsFitting;
      var (b, n) := Refill(rows, w);
      RefillUnkludged(rows, w);
      RefillLast(rows, w);
      if n > 0 && |b| > 1 {
        assert b[1..][|b| - 2] == b[|b| - 1];
        UnwrapStaysPlain(b[1..], w);
      }
    }
  }

  lemma AbsorbLast(rows: seq<Row>)
    requires |rows| >= 2
    ensures Absorb(rows)[|Absorb(rows)| - 1].hard == rows[|rows| - 1].hard
  {
    if |rows| > 2 {
      assert rows[2..][|rows| - 3] == rows[|rows| - 1];
    }
  }

  lemma PullUpLast(rows: seq<Row>, n: nat)
    requires |rows| >= 2 && n <= |rows[1].cells|
    ensures |PullUp(rows, n)| == |rows| && PullUp(rows, n)[|rows| - 1].hard == rows[|rows| - 1].hard
  {
    if |rows| > 2 {
      assert PullUp(rows, n)[|rows| - 1] == rows[2..][|rows| - 3];
    }
  }

  lemma RefillLast(rows: seq<Row>, w: int)
    requires |rows| >= 2
    ensures var b := Refill(rows, w).0; b[|b| - 1].hard == rows[|rows| - 1].hard
  {
    hide Absorb, PullUp, WordsFitting;
    var n := WordsFitting(rows[1].cells, Room(rows[0], w));
    if n > 0 {
      PullUpLast(rows, n);
      AbsorbLast(PullUp(rows, n));
    } else {
      AbsorbLast(rows);
    }
  }

  lemma PlainParts(doc: seq<Row>, l: nat)
    requires l < |doc|
    ensures Plain(doc) <==> NoneKludged(doc[..l]) && Plain(doc[l..])
  {
    assert doc == doc[..l] + doc[l..];
  }

  lemma UnwrapPlain(doc: seq<Row>, l: nat, w: int)
    requires Plain(doc) && l < |doc|
    ensures Unwrap(doc[l..], w).ok
    ensures Plain(FinishUp(doc, l, w)) && Stream(FinishUp(doc, l, w)) == Stream(doc)
  {
    hide Unwrap, Stream;
    var after := FinishUp(doc, l, w);
    PlainParts(doc, l);
    UnwrapStaysPlain(doc[l..], w);
    UnwrapSafe(doc[l..], w);
    UnwrapKeepsStream(doc[l..], w);
    assert after[..l] == doc[..l] && after[l..] == Unwrap(doc[l..], w).rows;
    PlainParts(after, l);
    assert doc == doc[..l] + doc[l..];
    StreamSplit(doc[..l], doc[l..]);
    StreamSplit(doc[..l], Unwrap(doc[l..], w).rows);
  }

  lemma WrapPlain(doc: seq<Row>, l: nat, w: int)
    requires w >= 2 && Plain(doc) && l < |doc|
    ensures Stream(Finish(doc, l, w)) == Stream(doc)
  {
    hide Wrap, Stream;
    var rows := doc[l..];
    BreaksProtected(rows, w, |rows| - 1);
    WrapKeepsStream(rows, w);
    assert doc == doc[..l] + rows;
    StreamSplit(doc[..l], rows);
    StreamSplit(doc[..l], Wrap(rows, w).rows);
  }

  /** How a call of `rewrap` can end: normally, with a property read on a line that does
      not exist, or in the branch that reports the impossible and exits. */
  datatype Outcome = Returned | TypeError | GaveUp

  /** The cursor is inside its row, the row is at most as long as the screen is wide, and
      if characters move up from it then the cursor is among them. */
  predicate CursorSafe(doc: seq<Row>, y: int, x: int, w: int) {
    && 0 <= y < |doc| && 0 <= x <= |doc[y].cells| <= w
    && (y > 0 && !doc[y - 1].hard ==> var i := UnwrapReturn(doc[y - 1..], w); i == -1 || x <= i)
  }

  /** The column is inside the row, and to the right of its start only if the row is at
      most as long as the screen is wide. */
  predicate InRow(r: Row, x: int, w: int) {
    0 <= x <= |r.cells| && (x > 0 ==> |r.cells| <= w)
  }

  lemma WrapBranch(doc: seq<Row>, y: nat, x: int, w: int)
    requires w >= 2 && y < |doc| && WrapReturn(doc[y..], w) != -1 && Wrap(doc[y..], w).ok
    requires InRow(doc[y], x, w)
    ensures var i, after := WrapReturn(doc[y..], w), Finish(doc, y, w);
      && |after| > y + 1
      && if x > |after[y].cells|
         then Offset(after, y + 1, Clamp(x - |doc[y].cells| + i, after[y + 1])) == Offset(doc, y, x)
         else Offset(after, y, x) == Offset(doc, y, x)
  {
    hide Wrap, WrapReturn, Chars;
    WrapCursor(doc, y, x, w);
  }

  lemma WrapIdle(doc: seq<Row>, l: nat, w: int)
    requires w >= 2 && l < |doc| && WrapReturn(doc[l..], w) == -1 && Wrap(doc[l..], w).ok
    ensures Finish(doc, l, w) == doc
  {
  }

  lemma WrapGrows(doc: seq<Row>, l: nat, w: int)
    requires w >= 2 && l < |doc|
    ensures |Finish(doc, l, w)| >= |doc|
    ensures Wrap(doc[l..], w).ok && WrapReturn(doc[l..], w) != -1 ==> |Finish(doc, l, w)| > l + 1
  {
    WrapNonEmpty(doc[l..], w);
    WrapNonEmpty(CutRest(doc[l..], w), w);
  }

  /** Unwrapping from the previous row moves `i` characters off the front of row `y`. The
      new cursor that `rewrap` computes is right, and it computes one only when the cursor
      was among those characters; otherwise the cursor slips by `i`. */
  lemma UnwrapPrevCursor(doc: seq<Row>, y: nat, x: int, w: int)
    requires 0 < y < |doc|
    ensures var i, after := UnwrapReturn(doc[y - 1..], w), FinishUp(doc, y - 1, w);
      && |after| >= y && (i == -1 || i > 0)
      && |after[y - 1].cells| == |doc[y - 1].cells| + (if i == -1 then 0 else i)
      && (i != -1 ==> Offset(after, y - 1, |after[y - 1].cells| - (i - x)) == Offset(doc, y, x))
      && Offset(after, y, x) == Offset(doc, y, x) + (if i == -1 then 0 else i)
  {
    var after := FinishUp(doc, y - 1, w);
    UnwrapMoved(doc[y - 1..], w);
    assert after[y - 1] == Unwrap(doc[y - 1..], w).rows[0];
    assert after[..y - 1] == doc[..y - 1];
    OffsetNext(after, y - 1, x);
    OffsetNext(doc, y - 1, x);
  }

  /** An `unwrap_line` that returns -1 leaves the next row alone, or removes it if empty;
      a cursor on that row stays inside a row. */
  lemma UnwrapIdle(doc: seq<Row>, y: nat, x: int, w: int)
    requires 0 < y < |doc| && !doc[y - 1].hard && CursorSafe(doc, y, x, w)
    ensures var i, after := UnwrapReturn(doc[y - 1..], w), FinishUp(doc, y - 1, w);
      i == -1 && y < |after| ==> InRow(after[y], x, w)
  {
    var rows := doc[y - 1..];
    if UnwrapReturn(rows, w) == -1 && doc[y].cells != [] {
      UnwrapNothing(rows, w);
      hide Unwrap, UnwrapReturn;
      assert FinishUp(doc, y - 1, w)[y] == Unwrap(rows, w).rows[1];
    }
  }
}
