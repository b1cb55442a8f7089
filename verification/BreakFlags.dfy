/** Documents whose flags protect their paragraph breaks from `rewrap`. */
module BreakFlags {
  import opened Document
  import opened Reflow
  import opened Cursor
  import opened Rewrapping
  import opened BreakWeights
  import opened BreakEnds
  import opened Breaks

  /** A hard row at `from` or below that is not the last. */
  predicate HardInside(rows: seq<Row>, from: nat) {
    exists j :: from <= j < |rows| - 1 && rows[j].hard
  }

  lemma InsideBehind(r: Row, rest: seq<Row>)
    ensures HardInside([r] + rest, 1) <==> HardInside(rest, 0)
    ensures r.hard && rest != [] ==> HardInside([r] + rest, 0)
  {
    var all := [r] + rest;
    if HardInside(rest, 0) {
      var j :| 0 <= j < |rest| - 1 && rest[j].hard;
      assert all[j + 1].hard;
    }
    if HardInside(all, 1) {
      var j :| 1 <= j < |all| - 1 && all[j].hard;
      assert rest[j - 1].hard;
    }
    if r.hard && rest != [] {
      assert all[0].hard;
    }
  }

  /** The hard returns stay, or the first row has taken over that of the second, which is gone. */
  predicate FlagsFollow(rows: seq<Row>, b: seq<Row>)
    requires |rows| >= 2
  {
    if |b| == |rows| then forall i :: 0 <= i < |b| ==> b[i].hard == rows[i].hard
    else
      && |b| == |rows| - 1 && b[0].hard == rows[1].hard
      && forall i :: 1 <= i < |b| ==> b[i].hard == rows[i + 1].hard
  }

  lemma AbsorbFlags(rows: seq<Row>)
    requires |rows| >= 2
    ensures FlagsFollow(rows, Absorb(rows))
  {
    var b := Absorb(rows);
    if rows[1].cells == [] {
      forall i | 1 <= i < |b| ensures b[i].hard == rows[i + 1].hard {
        assert b[i] == rows[2..][i - 1] == rows[i + 1];
      }
    }
  }

  lemma PullUpFlags(rows: seq<Row>, n: nat)
    requires |rows| >= 2 && n <= |rows[1].cells|
    ensures |PullUp(rows, n)| == |rows| && forall i :: 0 <= i < |rows| ==> PullUp(rows, n)[i].hard == rows[i].hard
  {
    assert forall i :: 2 <= i < |rows| ==> rows[2..][i - 2] == rows[i];
  }

  lemma SetKludgedFlags(rows: seq<Row>, k: bool)
    requires rows != []
    ensures |SetKludged(rows, k)| == |rows|
    ensures forall i :: 0 <= i < |rows| ==> SetKludged(rows, k)[i].hard == rows[i].hard
  {
    assert forall i :: 1 <= i < |rows| ==> rows[1..][i - 1] == rows[i];
  }

  /** The flags behind the second half of a step. */
  lemma RefillFlags(rows: seq<Row>, w: int)
    requires |rows| >= 2
    ensures FlagsFollow(rows, Refill(rows, w).0)
  {
    hide Absorb, PullUp, SetKludged, WordsFitting;
    var n := WordsFitting(rows[1].cells, Room(rows[0], w));
    PullUpFlags(rows, n);
    if n > 0 {
      AbsorbFlags(PullUp(rows, n));
    } else {
      AbsorbFlags(rows);
      SetKludgedFlags(Absorb(rows), false);
    }
  }

  lemma RefillInside(rows: seq<Row>, w: int)
    requires |rows| >= 2 && !rows[0].hard
    ensures HardInside(rows, 0) ==> HardInside(Refill(rows, w).0, 0)
    ensures HardInside(rows, 2) ==> HardInside(Refill(rows, w).0, 1)
  {
    RefillFlags(rows, w);
    hide Refill;
    FlagsInside(rows, Refill(rows, w).0);
  }

  lemma FlagsInside(rows: seq<Row>, b: seq<Row>)
    requires |rows| >= 2 && !rows[0].hard
    requires FlagsFollow(rows, b)
    ensures HardInside(rows, 0) ==> HardInside(b, 0)
    ensures HardInside(rows, 2) ==> HardInside(b, 1)
  {
    if HardInside(rows, 0) {
      var j :| 0 <= j < |rows| - 1 && rows[j].hard;
      if |b| == |rows| {
        assert b[j].hard;
      } else {
        assert b[j - 1].hard;
      }
    }
    if HardInside(rows, 2) {
      var j :| 2 <= j < |rows| - 1 && rows[j].hard;
      if |b| == |rows| {
        assert b[j].hard;
      } else {
        assert b[j - 1].hard;
      }
    }
  }

  /** Without cut words a hard row with another below it stays one; two rows down it stays below the first. */
  lemma {:induction false} HardInsideStays(rows: seq<Row>, w: int)
    requires NoneKludged(rows)
    ensures HardInside(rows, 0) ==> HardInside(Unwrap(rows, w).rows, 0)
    ensures HardInside(rows, 2) ==> HardInside(Unwrap(rows, w).rows, 1)
    decreases |rows|
  {
    InsideAbove(rows, 2, 1);
    if MayPull(rows, w) {
      RefillUnkludged(rows, w);
      RefillInside(rows, w);
      hide Refill, UnwrapReturn, HardInside;
      var (b, n) := Refill(rows, w);
      InsideAbove(b, 1, 0);
      if n > 0 {
        var rest := Unwrap(b[1..], w).rows;
        HardInsideStays(b[1..], w);
        if |b| > 1 {
          UnwrapMoved(b[1..], w);
        }
        assert b == [b[0]] + b[1..];
        InsideCases(b);
        InsideBehind(b[0], b[1..]);
        InsideBehind(b[0], rest);
        InsideAbove([b[0]] + rest, 1, 0);
      }
    }
  }

  lemma InsideAbove(rows: seq<Row>, from: nat, up: nat)
    requires up <= from
    ensures HardInside(rows, from) ==> HardInside(rows, up)
  {
  }

  lemma InsideCases(b: seq<Row>)
    ensures HardInside(b, 0) ==> |b| > 1 && (b[0].hard || HardInside(b, 1))
  {
  }

  lemma InsideParts(doc: seq<Row>, l: nat, rows: seq<Row>, k: nat)
    requires l <= |doc|
    ensures rows != [] ==> (HardInside(doc[..l] + rows, l + k) <==> HardInside(rows, k))
  {
    var all := doc[..l] + rows;
    if rows != [] && HardInside(rows, k) {
      var j :| k <= j < |rows| - 1 && rows[j].hard;
      assert all[l + j].hard;
    }
    if rows != [] && HardInside(all, l + k) {
      var j :| l + k <= j < |all| - 1 && all[j].hard;
      assert rows[j - l].hard;
    }
  }

  lemma FinishUpInside(doc: seq<Row>, l: nat, w: int)
    requires l < |doc| && NoneKludged(doc)
    ensures NoneKludged(FinishUp(doc, l, w)) && !HarmsBreak(doc[l..], w)
    ensures HardInside(doc, l) ==> HardInside(FinishUp(doc, l, w), l)
    ensures HardInside(doc, l + 2) ==> HardInside(FinishUp(doc, l, w), l + 1)
  {
    hide Unwrap, UnwrapReturn, HardInside, HarmsBreak;
    var rows := doc[l..];
    assert doc == doc[..l] + rows;
    UnwrapSafe(rows, w);
    UnwrapStaysUnkludged(rows, w);
    UnwrapMoved(rows, w);
    HardInsideStays(rows, w);
    InsideParts(doc, l, rows, 0);
    InsideParts(doc, l, rows, 2);
    InsideParts(doc, l, Unwrap(rows, w).rows, 0);
    InsideParts(doc, l, Unwrap(rows, w).rows, 1);
  }

  /** Such a document protects its breaks from a wrap at row `y`. */
  predicate Protects(doc: seq<Row>, y: nat) {
    !LastHard(doc) || HardInside(doc, y)
  }

  lemma ProtectsBreaks(doc: seq<Row>, y: nat, w: int)
    requires w >= 2 && y < |doc| && Protects(doc, y)
    ensures !CutsHardLast(doc[y..], w)
  {
    hide CutsHardLast;
    var rows := doc[y..];
    if HardInside(doc, y) {
      var j :| y <= j < |doc| - 1 && doc[j].hard;
      BreaksProtected(rows, w, j - y);
    } else {
      BreaksProtected(rows, w, |rows| - 1);
    }
  }

  /** Readable from the flags: without cut words, all breaks are kept if the last row is soft, or a hard
      row that is not the last stands below the cursor's, or is the cursor's and the row above is not
      unwrapped. */
  lemma RewrapKeepsBreaks(p: Place, last: int, cantUnwrapPrev: bool, cantUnwrap: bool, cantWrap: bool, w: int)
    requires w >= 2 && 0 <= p.y < |p.doc| && NoneKludged(p.doc)
    requires Protects(p.doc, if TriesAbove(p, cantUnwrapPrev) then p.y + 1 else p.y)
    ensures Stream(Rewrapped(p, last, cantUnwrapPrev, cantUnwrap, cantWrap, w).place.doc) == Stream(p.doc)
  {
    FirstProtects(p, last, cantUnwrapPrev, w);
    hide Stream, Loses, Protects, NoneKludged, UnwrapReturn, CutsHardLast, HarmsBreak, First, Second, Rewrapped;
    RewrapKeepsStream(p, last, cantUnwrapPrev, cantUnwrap, cantWrap, w);
    AbovePlace(p, last, w);
    var a := First(p, last, cantUnwrapPrev, w);
    if a.ok && a.place.y < |a.place.doc| {
      SecondProtects(a, cantUnwrap, w);
      var b := Second(a, cantUnwrap, w);
      if !b.moved {
        ProtectsBreaks(b.place.doc, b.place.y, w);
      }
    }
  }

  lemma FirstProtects(p: Place, last: int, cantUnwrapPrev: bool, w: int)
    requires 0 <= p.y < |p.doc| && NoneKludged(p.doc)
    requires Protects(p.doc, if TriesAbove(p, cantUnwrapPrev) then p.y + 1 else p.y)
    ensures var a := First(p, last, cantUnwrapPrev, w);
      && 0 <= a.place.y && (!a.moved ==> a.place.y == p.y)
      && NoneKludged(a.place.doc) && Protects(a.place.doc, p.y) && !AboveHarms(p, cantUnwrapPrev, w)
  {
    FirstLoses(p, last, cantUnwrapPrev, w);
    if TriesAbove(p, cantUnwrapPrev) {
      hide Unwrap, UnwrapReturn, HardInside, HarmsBreak, NoneKludged, LastHard, Weight, Stream;
      FinishUpInside(p.doc, p.y - 1, w);
      AbovePlace(p, last, w);
    }
  }

  lemma SecondProtects(a: Step, cantUnwrap: bool, w: int)
    requires 0 <= a.place.y < |a.place.doc| && NoneKludged(a.place.doc)
    requires !a.moved ==> Protects(a.place.doc, a.place.y)
    ensures var b := Second(a, cantUnwrap, w);
      && 0 <= b.place.y < |b.place.doc|
      && (!b.moved ==> Protects(b.place.doc, b.place.y)) && !HereHarms(a, cantUnwrap, w)
  {
    SecondLoses(a, cantUnwrap, w);
    AtPlace(a.place, w);
    if !cantUnwrap && !a.moved {
      hide Unwrap, UnwrapReturn, HardInside, HarmsBreak, NoneKludged, LastHard, Weight, Stream;
      FinishUpInside(a.place.doc, a.place.y, w);
    }
  }
}
