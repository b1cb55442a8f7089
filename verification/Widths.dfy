/** Which rows are left of the right margin after wrapping and unwrapping. `w` is the number of
    screen columns throughout. */
module Widths {
  import opened Document
  import opened Reflow

  predicate AllNarrow(rows: seq<Row>, w: int) {
    forall i :: 0 <= i < |rows| ==> TrimmedLen(rows[i].cells) < w
  }

  /** All rows but row `k` are narrow. */
  predicate NarrowBut(rows: seq<Row>, k: int, w: int) {
    forall i :: 0 <= i < |rows| && i != k ==> TrimmedLen(rows[i].cells) < w
  }

  /** What is left of a narrow row when its first characters are taken is narrow. */
  lemma SuffixNarrow(cells: seq<Glyph>, n: nat, w: int)
    requires n <= |cells| && TrimmedLen(cells) < w
    ensures TrimmedLen(cells[n..]) < w
  {
    var t := TrimmedLen(cells);
    var rest := cells[n..];
    assert forall i :: 0 <= i < |rest| ==> rest[i] == cells[n + i];
    TrimmedAtMost(rest, if t <= n then 0 else t - n);
  }

  /** The first half of a step takes `n` characters off the second row, which goes if none is left. */
  lemma UnkludgeRows(rows: seq<Row>, w: int)
    requires |rows| >= 2
    ensures var (a, n) := Unkludge(rows, w);
      && n <= |rows[1].cells|
      && if 0 < n == |rows[1].cells| then a[1..] == rows[2..]
         else |a| == |rows| && a[1].cells == rows[1].cells[n..] && a[2..] == rows[2..]
  {
  }

  /** The second half does so, too, and removes a second row that is empty to begin with. */
  lemma RefillRows(rows: seq<Row>, w: int)
    requires |rows| >= 2
    ensures var (b, n) := Refill(rows, w);
      && n <= |rows[1].cells|
      && if n == |rows[1].cells| then b[1..] == rows[2..]
         else |b| == |rows| && b[1].cells == rows[1].cells[n..] && b[2..] == rows[2..]
  {
  }

  lemma UnkludgeNarrow(rows: seq<Row>, w: int)
    requires |rows| >= 2 && NarrowBut(rows, 0, w)
    ensures NarrowBut(Unkludge(rows, w).0, 0, w)
  {
    var (a, n) := Unkludge(rows, w);
    UnkludgeRows(rows, w);
    SuffixNarrow(rows[1].cells, n, w);
    TailNarrow(rows, a);
  }

  lemma RefillNarrow(rows: seq<Row>, w: int)
    requires |rows| >= 2 && NarrowBut(rows, 0, w)
    ensures NarrowBut(Refill(rows, w).0, 0, w)
  {
    var (b, n) := Refill(rows, w);
    RefillRows(rows, w);
    SuffixNarrow(rows[1].cells, n, w);
    TailNarrow(rows, b);
  }

  /** The rows below the second are the old ones, moved up by one if the second is gone. */
  lemma TailNarrow(rows: seq<Row>, a: seq<Row>)
    requires |rows| >= 2 && |a| >= 1
    ensures a[1..] == rows[2..] ==> forall i :: 1 <= i < |a| ==> i + 1 < |rows| && a[i] == rows[i + 1]
    ensures |a| == |rows| && a[2..] == rows[2..] ==> forall i :: 2 <= i < |a| ==> a[i] == rows[i]
  {
    if a[1..] == rows[2..] {
      assert forall i :: 1 <= i < |a| ==> a[i] == a[1..][i - 1] && rows[i + 1] == rows[2..][i - 1];
    }
    if |a| == |rows| && a[2..] == rows[2..] {
      assert forall i :: 2 <= i < |a| ==> a[i] == a[2..][i - 2] && rows[i] == rows[2..][i - 2];
    }
  }

  /** Unwrapping keeps narrow rows narrow; a first row that is too wide is not touched. */
  lemma {:induction false} UnwrapNarrow(rows: seq<Row>, w: int)
    requires NarrowBut(rows, 0, w)
    ensures NarrowBut(Unwrap(rows, w).rows, 0, w)
    ensures MayPull(rows, w) || AllNarrow(rows, w) ==> AllNarrow(Unwrap(rows, w).rows, w)
    ensures !MayPull(rows, w) ==> Unwrap(rows, w).rows == rows
    decreases |rows|
  {
    if MayPull(rows, w) {
      hide Unkludge, Refill;
      var a := Unkludge(rows, w).0;
      UnkludgeWidth(rows, w);
      UnkludgeNarrow(rows, w);
      if |a| >= 2 {
        var (b, n) := Refill(a, w);
        RefillWidth(a, w);
        RefillNarrow(a, w);
        assert forall i :: 0 <= i < |b| - 1 ==> b[1..][i] == b[i + 1];
        UnwrapNarrow(b[1..], w);
      }
    }
  }

  /** The second row is too wide for the screen even without its first `i` characters. */
  predicate WideRest(cells: seq<Glyph>, i: int, w: int) {
    0 <= i < |cells| && TrimmedLen(cells[i..]) >= w
  }

  /** What a step leaves: nothing of the second row, or its remainder, in front of the old rows. */
  lemma StepRows(rows: seq<Row>, w: int)
    requires MayPull(rows, w) && NarrowBut(rows, 1, w) && |Unkludge(rows, w).0| >= 2
    ensures var (a, n) := Unkludge(rows, w);
      var (b, m) := Refill(a, w);
      && NarrowBut(b, 1, w)
      && (n + m >= |rows[1].cells| ==> AllNarrow(b, w))
      && (n + m < |rows[1].cells| ==> |b| >= 2 && b[1].cells == rows[1].cells[n + m..])
  {
    hide Unkludge, Refill;
    var (a, n) := Unkludge(rows, w);
    UnkludgeWidth(rows, w);
    UnkludgeRows(rows, w);
    TailNarrow(rows, a);
    var (b, m) := Refill(a, w);
    RefillWidth(a, w);
    if 0 < n == |rows[1].cells| {
      RefillNarrow(a, w);
    } else {
      RefillRows(a, w);
      TailNarrow(a, b);
      if m < |a[1].cells| {
        assert rows[1].cells[n..][m..] == rows[1].cells[n + m..];
      }
    }
  }

  /** The rest of the cascade behind such a step. */
  lemma StepEnds(b: seq<Row>, w: int)
    requires |b| >= 1 && NarrowBut(b, 1, w)
    ensures var all := [b[0]] + Unwrap(b[1..], w).rows;
      NarrowBut(all, 1, w) && (AllNarrow(all, w) <==> AllNarrow(b, w))
  {
    var rest := b[1..];
    assert forall i :: 0 <= i < |rest| ==> rest[i] == b[i + 1];
    UnwrapNarrow(rest, w);
    var all := [b[0]] + Unwrap(rest, w).rows;
    if AllNarrow(b, w) {
      assert AllNarrow(rest, w);
    } else {
      assert TrimmedLen(b[1].cells) >= w && b[1] == rest[0];
      assert all == b;
    }
  }

  /** Unwrapping from a narrow row in front of one of any width. When characters move, all rows are narrow
      exactly unless the remainder of the second is still too wide. */
  lemma UnwrapSecond(rows: seq<Row>, w: int)
    requires |rows| >= 2 && NarrowBut(rows, 1, w) && Unwrap(rows, w).ok
    ensures NarrowBut(Unwrap(rows, w).rows, 1, w)
    ensures var i := UnwrapReturn(rows, w);
      i != -1 ==> (AllNarrow(Unwrap(rows, w).rows, w) <==> !WideRest(rows[1].cells, i, w))
  {
    if MayPull(rows, w) {
      hide Unkludge, Refill;
      var (a, n) := Unkludge(rows, w);
      StepRows(rows, w);
      var (b, m) := Refill(a, w);
      if n + m < |rows[1].cells| {
        assert AllNarrow(b, w) <==> TrimmedLen(b[1].cells) < w;
      }
      StepEnds(b, w);
    }
  }

  /** Wrapping makes the first row narrow and keeps the others so. */
  lemma WrapNarrow(rows: seq<Row>, w: int)
    requires w >= 2 && rows != [] && NarrowBut(rows, 0, w)
    ensures AllNarrow(Wrap(rows, w).rows, w)
  {
    hide Wrap;
    WrapWidths(rows, w);
    WrapLeavesRest(rows, w);
    WrapNonEmpty(rows, w);
    var r := Wrap(rows, w);
    var from := |rows| - (|r.rows| - r.visited);
    forall i | r.visited <= i < |r.rows| ensures TrimmedLen(r.rows[i].cells) < w {
      assert r.rows[i] == r.rows[r.visited..][i - r.visited] == rows[from..][i - r.visited];
      assert rows[from..][i - r.visited] == rows[from + (i - r.visited)];
    }
  }
}
