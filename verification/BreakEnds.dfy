/** The break at the very end of the text: unwraps leave it there, and a wrap that cuts a hard last row
    moves it. */
module BreakEnds {
  import opened Document
  import opened Reflow
  import opened Cursor
  import opened BreakWeights

  /** The text ends in a break. */
  predicate EndsInBreak(s: seq<Item>) {
    s != [] && s[|s| - 1].Break?
  }

  predicate LastHard(rows: seq<Row>) {
    rows != [] && rows[|rows| - 1].hard
  }

  lemma LastHardEnds(rows: seq<Row>)
    requires LastHard(rows)
    ensures EndsInBreak(Stream(rows))
  {
    var n := |rows| - 1;
    assert rows == rows[..n] + [rows[n]];
    StreamSplit(rows[..n], [rows[n]]);
    StreamCons(rows[n], []);
  }

  lemma AbsorbLastHard(rows: seq<Row>, n: nat)
    requires |rows| >= 2 && n <= |rows[1].cells|
    ensures LastHard(Absorb(PullUp(rows, n))) == LastHard(rows)
  {
    hide Absorb, PullUp;
    PullUpLast(rows, n);
    AbsorbLast(PullUp(rows, n));
  }

  lemma SetKludgedLast(rows: seq<Row>, k: bool)
    requires rows != []
    ensures LastHard(SetKludged(rows, k)) == LastHard(rows)
  {
    if |rows| > 1 {
      assert SetKludged(rows, k)[|rows| - 1] == rows[1..][|rows| - 2];
    }
  }

  lemma UnkludgeLast(rows: seq<Row>, w: int)
    requires |rows| >= 2
    ensures LastHard(Unkludge(rows, w).0) == LastHard(rows)
  {
    hide PullUp, WordRest, SetKludged, LastHard;
    var n := WordRest(rows[1].cells, Room(rows[0], w));
    AbsorbLastHard(rows, n);
    PulledUp(rows, n);
    SetKludgedLast(rows, false);
    if n > 0 {
      SetKludgedLast(Absorb(PullUp(rows, n)), n < |rows[1].cells| && !IsSpace(rows[1].cells[n - 1].c));
    }
  }

  lemma RefillKeepsLast(a: seq<Row>, w: int)
    requires |a| >= 2
    ensures LastHard(Refill(a, w).0) == LastHard(a)
  {
    hide Refill;
    RefillLast(a, w);
  }

  lemma LastBehind(b: seq<Row>, rest: seq<Row>)
    requires b != [] && LastHard(rest) == LastHard(b[1..]) && (rest == [] <==> b[1..] == [])
    ensures LastHard([b[0]] + rest) == LastHard(b)
  {
    if |b| > 1 {
      assert b[1..][|b| - 2] == b[|b| - 1];
      assert ([b[0]] + rest)[|rest|] == rest[|rest| - 1];
    }
  }

  /** An unwrap does not change whether the last row is hard. */
  lemma {:induction false} UnwrapLast(rows: seq<Row>, w: int)
    ensures LastHard(Unwrap(rows, w).rows) == LastHard(rows)
    decreases |rows|
  {
    if MayPull(rows, w) {
      hide Unkludge, Refill, UnwrapReturn, LastHard;
      var a := Unkludge(rows, w).0;
      UnkludgeLast(rows, w);
      if |a| >= 2 {
        var b := Refill(a, w).0;
        RefillKeepsLast(a, w);
        if |b| > 1 {
          UnwrapMoved(b[1..], w);
        }
        UnwrapLast(b[1..], w);
        LastBehind(b, Unwrap(b[1..], w).rows);
      }
    }
  }

  lemma FinishUpLast(doc: seq<Row>, l: nat, w: int)
    requires l < |doc|
    ensures LastHard(FinishUp(doc, l, w)) == LastHard(doc)
  {
    hide Unwrap, UnwrapReturn;
    UnwrapLast(doc[l..], w);
    UnwrapMoved(doc[l..], w);
    var after := Unwrap(doc[l..], w).rows;
    assert (doc[..l] + after)[l + |after| - 1] == after[|after| - 1];
    assert doc[l..][|doc| - l - 1] == doc[|doc| - 1];
  }

  lemma CutNeedsHardLast(rows: seq<Row>, w: int)
    requires w >= 2 && CutsHardLast(rows, w)
    ensures LastHard(rows)
  {
    if rows != [] && !rows[|rows| - 1].hard {
      BreaksProtected(rows, w, |rows| - 1);
    }
  }

  /** When the hard last row is cut the text no longer ends in a break. */
  lemma {:induction false} CutEndsInInk(rows: seq<Row>, w: int)
    requires w >= 2 && CutsHardLast(rows, w)
    ensures Stream(Wrap(rows, w).rows) != [] && !EndsInBreak(Stream(Wrap(rows, w).rows))
    decreases |Chars(rows)|
  {
    CutConserves(rows, w);
    var head, rest := CutHead(rows, w), CutRest(rows, w);
    StreamCons(head, Wrap(rest, w).rows);
    if |rows| == 1 {
      HardLastOverflows(rows[0], w);
      BreaksProtected(rest, w, 0);
      WrapKeepsStream(rest, w);
      StreamCons(rest[0], []);
      assert rest == [rest[0]] + [];
    } else {
      CutEndsInInk(rest, w);
    }
  }

  lemma FinishStream(doc: seq<Row>, l: nat, w: int)
    requires w >= 2 && l <= |doc|
    ensures Stream(Finish(doc, l, w)) == Stream(doc) <==> !CutsHardLast(doc[l..], w)
    ensures CutsHardLast(doc[l..], w) ==> LastHard(doc) && !EndsInBreak(Stream(Finish(doc, l, w)))
  {
    hide Wrap, CutsHardLast, Stream;
    var rows := doc[l..];
    WrapKeepsStream(rows, w);
    assert doc == doc[..l] + rows;
    StreamSplit(doc[..l], rows);
    StreamSplit(doc[..l], Wrap(rows, w).rows);
    SamePrefix(Stream(doc[..l]), Stream(Wrap(rows, w).rows), Stream(rows));
    if CutsHardLast(rows, w) {
      CutNeedsHardLast(rows, w);
      CutEndsInInk(rows, w);
    }
  }
}
