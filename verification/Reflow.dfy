/** Wrapping and unwrapping of the rows from the edited one to the end of the document.
    `w` is the number of screen columns throughout. */
module Reflow {
  import opened Document

  // ---------------------------------------------------------------- wrapping

  /** How many characters stay when a row is cut: up to the end of the last gap that
      starts before the right margin, or as many as fit when there is no gap. */
  function CutAt(cells: seq<Glyph>, w: int): (e: nat)
    requires w >= 2
    ensures e <= |cells|
    ensures cells != [] ==> e > 0
  {
    var g := LastGap(cells, w - 1);
    if g > 0 then RunEnd(cells, g) else if |cells| < w - 1 then |cells| else w - 1
  }

  /** The row is left alone: it fits, and no word of it may continue on the next row. */
  predicate Fits(r: Row, last: bool, w: int) {
    TrimmedLen(r.cells) < w && (TrimmedLen(r.cells) != |r.cells| || last || r.hard)
  }

  function CutHead(rows: seq<Row>, w: int): Row
    requires w >= 2 && rows != []
  {
    Row(rows[0].cells[..CutAt(rows[0].cells, w)],
        rows[0].hard && |rows| == 1,
        rows[0].kludged || LastGap(rows[0].cells, w - 1) == 0)
  }

  function CutRest(rows: seq<Row>, w: int): (rest: seq<Row>)
    requires w >= 2 && rows != []
    ensures rest != []
  {
    PushDown(rows, rows[0].cells[CutAt(rows[0].cells, w)..])
  }

  /** The rows below the first once `tail` has been cut off its end. */
  function PushDown(rows: seq<Row>, tail: seq<Glyph>): (rest: seq<Row>)
    requires rows != []
    ensures rest != []
  {
    if |rows| == 1 then [Row(tail, false, false)]
    else if rows[0].hard then [Row(tail, true, false)] + rows[1..]
    else [rows[1].(cells := tail + rows[1].cells)] + rows[2..]
  }

  /** `ok` is false when the editor gives up with "The impossible happened";
      the first `visited` rows of the result have been looked at. */
  datatype Wrapped = Wrapped(rows: seq<Row>, ok: bool, visited: nat)

  function Wrap(rows: seq<Row>, w: int): Wrapped
    requires w >= 2
    decreases |Chars(rows)|
  {
    if rows == [] then Wrapped([], true, 0)
    else if Fits(rows[0], |rows| == 1, w) then Wrapped(rows, true, 1)
    else if rows[0].cells == [] then Wrapped([rows[0].(kludged := true)] + rows[1..], false, 1)
    else
      CutConserves(rows, w);
      var rec := Wrap(CutRest(rows, w), w);
      Wrapped([CutHead(rows, w)] + rec.rows, rec.ok, rec.visited + 1)
  }

  /** The offset at which the first cut was made, as `wrap_line` reports it. */
  function WrapReturn(rows: seq<Row>, w: int): int
    requires w >= 2
  {
    if rows == [] || Fits(rows[0], |rows| == 1, w) then -1
    else |rows[0].cells| - CutAt(rows[0].cells, w)
  }

  lemma CutConserves(rows: seq<Row>, w: int)
    requires w >= 2 && rows != []
    ensures CutHead(rows, w).cells + Chars(CutRest(rows, w)) == Chars(rows)
  {
    var e := CutAt(rows[0].cells, w);
    var kept, tail := rows[0].cells[..e], rows[0].cells[e..];
    PushDownChars(rows, tail);
    Assoc(kept, tail, Chars(rows[1..]));
    assert kept + tail == rows[0].cells;
  }

  lemma PushDownChars(rows: seq<Row>, tail: seq<Glyph>)
    requires rows != []
    ensures Chars(PushDown(rows, tail)) == tail + Chars(rows[1..])
  {
    var rest := PushDown(rows, tail);
    if |rows| == 1 {
      CharsCons(rest[0], []);
    } else if rows[0].hard {
      CharsCons(rest[0], rows[1..]);
    } else {
      assert rows[1..] == [rows[1]] + rows[2..];
      CharsCons(rows[1], rows[2..]);
      CharsCons(rest[0], rows[2..]);
      Assoc(tail, rows[1].cells, Chars(rows[2..]));
    }
  }

  lemma {:induction false} WrapKeepsChars(rows: seq<Row>, w: int)
    requires w >= 2
    ensures Chars(Wrap(rows, w).rows) == Chars(rows)
    decreases |Chars(rows)|
  {
    if rows == [] || Fits(rows[0], |rows| == 1, w) || rows[0].cells == [] {
    } else {
      CutConserves(rows, w);
      WrapKeepsChars(CutRest(rows, w), w);
    }
  }

  /** The cascade of cuts reaches the last row while that row carries a hard return.
      `wrap_line` then appends a row without moving the flag there. */
  predicate CutsHardLast(rows: seq<Row>, w: int)
    requires w >= 2
    decreases |Chars(rows)|
  {
    if rows == [] || Fits(rows[0], |rows| == 1, w) || rows[0].cells == [] then false
    else if |rows| == 1 then rows[0].hard
    else CutConserves(rows, w); CutsHardLast(CutRest(rows, w), w)
  }

  lemma CutKeepsStream(rows: seq<Row>, w: int)
    requires w >= 2 && rows != []
    requires |rows| == 1 ==> !rows[0].hard
    ensures Items(CutHead(rows, w)) + Stream(CutRest(rows, w)) == Stream(rows)
  {
    var e := CutAt(rows[0].cells, w);
    CutItems(rows[0], e);
    PushDownStream(rows, rows[0].cells[e..]);
    var kept, tail := Inks(rows[0].cells[..e]), Inks(rows[0].cells[e..]);
    var brk: seq<Item> := if rows[0].hard then [Break] else [];
    var below := Stream(rows[1..]);
    assert Items(CutHead(rows, w)) == kept;
    Assoc(kept, tail + brk, below);
    Assoc(kept, tail, brk);
  }

  lemma CutItems(r: Row, e: nat)
    requires e <= |r.cells|
    ensures Items(r) == Inks(r.cells[..e]) + Inks(r.cells[e..]) + (if r.hard then [Break] else [])
  {
    assert r.cells[..e] + r.cells[e..] == r.cells;
    InksJoin(r.cells[..e], r.cells[e..]);
  }

  lemma PushedItems(r: Row, tail: seq<Glyph>)
    ensures Items(r.(cells := tail + r.cells)) == Inks(tail) + Items(r)
  {
    InksJoin(tail, r.cells);
    Assoc(Inks(tail), Inks(r.cells), if r.hard then [Break] else []);
  }

  lemma PushDownStream(rows: seq<Row>, tail: seq<Glyph>)
    requires rows != []
    ensures Stream(PushDown(rows, tail))
      == Inks(tail) + (if rows[0].hard && |rows| > 1 then [Break] else []) + Stream(rows[1..])
  {
    var rest := PushDown(rows, tail);
    if |rows| == 1 {
      StreamCons(rest[0], []);
    } else if rows[0].hard {
      hide Stream;
      StreamCons(rest[0], rows[1..]);
    } else {
      hide Stream, Inks, Items;
      PushedItems(rows[1], tail);
      assert rows[1..] == [rows[1]] + rows[2..];
      StreamCons(rows[1], rows[2..]);
      StreamCons(rest[0], rows[2..]);
      Assoc(Inks(tail), Items(rows[1]), Stream(rows[2..]));
    }
  }

  /** Every paragraph break stays at its place in the stream, unless the last row is
      hard and itself gets cut; then the break moves. */
  lemma {:induction false} WrapKeepsStream(rows: seq<Row>, w: int)
    requires w >= 2
    ensures Stream(Wrap(rows, w).rows) == Stream(rows) <==> !CutsHardLast(rows, w)
    decreases |Chars(rows)|
  {
    if rows == [] || Fits(rows[0], |rows| == 1, w) {
    } else if rows[0].cells == [] {
    } else {
      CutConserves(rows, w);
      var head, rest := CutHead(rows, w), CutRest(rows, w);
      var rec := Wrap(rest, w).rows;
      assert Wrap(rows, w).rows == [head] + rec && ([head] + rec)[1..] == rec;
      assert Stream(Wrap(rows, w).rows) == Items(head) + Stream(rec);
      if |rows| == 1 && rows[0].hard {
        HardLastOverflows(rows[0], w);
        var e := |head.cells|;
        assert Stream(rows)[e] == Ink(rows[0].cells[e]);
        assert (Items(head) + Stream(rec))[e] == Break;
      } else {
        CutKeepsStream(rows, w);
        WrapKeepsStream(rest, w);
        SamePrefix(Items(head), Stream(rec), Stream(rest));
      }
    }
  }

  lemma HardLastOverflows(r: Row, w: int)
    requires w >= 2 && r.hard && !Fits(r, true, w)
    ensures CutAt(r.cells, w) < |r.cells|
  {
  }

  lemma SamePrefix<T>(p: seq<T>, a: seq<T>, b: seq<T>)
    ensures p + a == p + b <==> a == b
  {
    assert a == (p + a)[|p|..] && b == (p + b)[|p|..];
  }

  /** A soft last row, or a hard return somewhere above the last row, protects all breaks. */
  lemma {:induction false} BreaksProtected(rows: seq<Row>, w: int, i: nat)
    requires w >= 2 && i < |rows|
    requires rows[i].hard <==> i < |rows| - 1
    ensures !CutsHardLast(rows, w)
    decreases |Chars(rows)|
  {
    if Fits(rows[0], |rows| == 1, w) || rows[0].cells == [] || |rows| == 1 {
    } else {
      CutConserves(rows, w);
      var rest := CutRest(rows, w);
      BreaksProtected(rest, w, if rows[0].hard then (if i == |rows| - 1 then |rest| - 1 else 0) else i - 1);
    }
  }

  /** The cascade of cuts reaches an empty soft row with another row below it. A hard row, a row that
      fits and the last row stop it. */
  predicate ReachesBlank(rows: seq<Row>, w: int)
    requires w >= 2
    decreases |Chars(rows)|
  {
    && |rows| > 1 && !rows[0].hard
    && (rows[0].cells == []
        || (!Fits(rows[0], false, w) && (CutConserves(rows, w); ReachesBlank(CutRest(rows, w), w))))
  }

  /** `wrap_line` takes the branch that reports the impossible exactly when its cascade reaches an empty
      soft row. */
  lemma {:induction false} WrapOkExact(rows: seq<Row>, w: int)
    requires w >= 2
    ensures Wrap(rows, w).ok <==> !ReachesBlank(rows, w)
    decreases |Chars(rows)|
  {
    if rows == [] || Fits(rows[0], |rows| == 1, w) || rows[0].cells == [] {
    } else {
      CutConserves(rows, w);
      WrapOkExact(CutRest(rows, w), w);
    }
  }

  /** No row but the last is both empty and soft. */
  predicate NoBlank(rows: seq<Row>) {
    forall i :: 0 <= i < |rows| - 1 ==> rows[i].cells != [] || rows[i].hard
  }

  /** Without such a row the editor never gives up. */
  lemma {:induction false} WrapSucceeds(rows: seq<Row>, w: int)
    requires w >= 2 && NoBlank(rows)
    ensures Wrap(rows, w).ok && NoBlank(Wrap(rows, w).rows)
    decreases |Chars(rows)|
  {
    if rows == [] || Fits(rows[0], |rows| == 1, w) || rows[0].cells == [] {
    } else {
      CutConserves(rows, w);
      var rest := CutRest(rows, w);
      forall i | 0 <= i < |rest| - 1
        ensures rest[i].cells != [] || rest[i].hard
      {
        if |rows| > 1 {
          assert rows[i + 1].cells != [] || rows[i + 1].hard || i + 1 == |rows| - 1;
          assert i > 0 && rows[0].hard ==> rest[i] == rows[i];
        }
      }
      WrapSucceeds(rest, w);
    }
  }

  lemma CutWidth(cells: seq<Glyph>, w: int)
    requires w >= 2
    ensures TrimmedLen(cells[..CutAt(cells, w)]) < w
  {
    var g := LastGap(cells, w - 1);
    if g > 0 {
      TrimmedAtMost(cells[..RunEnd(cells, g)], g);
    }
  }

  /** The first `n` rows end left of the right margin. */
  predicate Narrow(rows: seq<Row>, n: nat, w: int) {
    n <= |rows| && forall i :: 0 <= i < n ==> TrimmedLen(rows[i].cells) < w
  }

  lemma NarrowCons(r: Row, rows: seq<Row>, n: nat, w: int)
    requires TrimmedLen(r.cells) < w && Narrow(rows, n, w)
    ensures Narrow([r] + rows, n + 1, w)
  {
    var all := [r] + rows;
    forall i | 0 <= i < n + 1
      ensures TrimmedLen(all[i].cells) < w
    {
      assert all[i] == if i == 0 then r else rows[i - 1];
    }
  }

  lemma CutRestTail(rows: seq<Row>, w: int, n: nat)
    requires w >= 2 && rows != [] && n < |CutRest(rows, w)|
    ensures n <= |rows|
    ensures CutRest(rows, w)[|CutRest(rows, w)| - n..] == rows[|rows| - n..]
  {
  }

  /** Every row `wrap_line` looked at now ends left of the right margin. */
  lemma {:induction false} WrapWidths(rows: seq<Row>, w: int)
    requires w >= 2
    ensures Narrow(Wrap(rows, w).rows, Wrap(rows, w).visited, w)
    decreases |Chars(rows)|
  {
    if rows == [] || Fits(rows[0], |rows| == 1, w) || rows[0].cells == [] {
    } else {
      CutConserves(rows, w);
      var rest := CutRest(rows, w);
      WrapWidths(rest, w);
      CutWidth(rows[0].cells, w);
      NarrowCons(CutHead(rows, w), Wrap(rest, w).rows, Wrap(rest, w).visited, w);
    }
  }

  /** The rows `wrap_line` did not look at are the old ones. */
  lemma {:induction false} WrapLeavesRest(rows: seq<Row>, w: int)
    requires w >= 2
    ensures var r := Wrap(rows, w);
      && r.visited <= |r.rows| <= |rows| + r.visited
      && r.rows[r.visited..] == rows[|rows| - (|r.rows| - r.visited)..]
    decreases |Chars(rows)|
  {
    if rows == [] || Fits(rows[0], |rows| == 1, w) || rows[0].cells == [] {
    } else {
      CutConserves(rows, w);
      var rest := CutRest(rows, w);
      WrapLeavesRest(rest, w);
      WrapNonEmpty(rest, w);
      var r, rec := Wrap(rows, w), Wrap(rest, w);
      CutRestTail(rows, w, |rec.rows| - rec.visited);
      assert r.rows[1..] == rec.rows;
      assert r.rows[r.visited..] == r.rows[1..][rec.visited..];
    }
  }

  lemma {:induction false} WrapNonEmpty(rows: seq<Row>, w: int)
    requires w >= 2 && rows != []
    ensures Wrap(rows, w).visited > 0 && |Wrap(rows, w).rows| >= |rows|
    ensures |Wrap(rows, w).rows| - Wrap(rows, w).visited < |rows|
    decreases |Chars(rows)|
  {
    if Fits(rows[0], |rows| == 1, w) || rows[0].cells == [] {
    } else {
      CutConserves(rows, w);
      WrapNonEmpty(CutRest(rows, w), w);
    }
  }

  /** A cut between two rows: after whitespace and before a word, or, in a row marked as
      kludged, wherever the margin is. */
  predicate CleanCut(above: Row, below: Row, w: int) {
    || (above.cells != [] && IsSpace(above.cells[|above.cells| - 1].c)
        && below.cells != [] && !IsSpace(below.cells[0].c))
    || (above.kludged && 0 < |above.cells| < w)
  }

  /** `wrap_line` never cuts inside a word without marking the row. */
  lemma {:induction false} WrapCutsCleanly(rows: seq<Row>, w: int)
    requires w >= 2
    ensures var r := Wrap(rows, w);
      && r.visited <= |r.rows|
      && (forall i :: 0 <= i < r.visited - 1 ==> CleanCut(r.rows[i], r.rows[i + 1], w))
      && (rows != [] ==> r.visited > 0)
      && (rows != [] && rows[0].cells != [] ==> r.rows[0].cells != [] && r.rows[0].cells[0] == rows[0].cells[0])
    decreases |Chars(rows)|
  {
    if rows == [] || Fits(rows[0], |rows| == 1, w) || rows[0].cells == [] {
    } else {
      CutConserves(rows, w);
      var head, rest := CutHead(rows, w), CutRest(rows, w);
      WrapCutsCleanly(rest, w);
      var r, rec := Wrap(rows, w), Wrap(rest, w);
      var g := LastGap(rows[0].cells, w - 1);
      assert CleanCut(head, rec.rows[0], w) by {
        if g > 0 {
          assert IsSpace(rows[0].cells[|head.cells| - 1].c);
          assert rest[0].cells[0] == rows[0].cells[|head.cells|];
        }
      }
      forall i | 0 <= i < r.visited - 1
        ensures CleanCut(r.rows[i], r.rows[i + 1], w)
      {
        if i > 0 {
          assert CleanCut(rec.rows[i - 1], rec.rows[i], w);
        }
      }
    }
  }

  lemma GapInPrefix(cells: seq<Glyph>, e: nat, k: nat)
    requires e <= |cells| && GapAt(cells[..e], k)
    ensures GapAt(cells, k)
  {
    var n := RunEnd(cells[..e], k);
    assert IsSpace(cells[..e][k].c) && !IsSpace(cells[..e][n].c);
    assert !IsSpace(cells[n].c);
  }

  lemma NoGapInPrefix(cells: seq<Glyph>, e: nat, w: int)
    requires w >= 2 && e <= |cells| && LastGap(cells, w - 1) == 0
    ensures LastGap(cells[..e], w - 1) == 0
  {
    forall k | GapAt(cells[..e], k)
      ensures GapAt(cells, k)
    {
      GapInPrefix(cells, e, k);
    }
  }

  /** A kludged row is cut again at its very end, and that changes nothing. */
  lemma Recut(head: Row, below: seq<Row>, w: int)
    requires w >= 2 && below != [] && head.kludged && 0 < |head.cells| < w
    requires LastGap(head.cells, w - 1) == 0
    requires Wrap(below, w).rows == below
    ensures Wrap([head] + below, w).rows == [head] + below
  {
    var rows := [head] + below;
    assert rows[1..] == below;
    if !Fits(head, false, w) {
      assert CutAt(head.cells, w) == |head.cells|;
      assert CutHead(rows, w) == head;
      assert head.cells[CutAt(head.cells, w)..] == [];
      assert rows[2..] == below[1..] && [] + below[0].cells == below[0].cells;
      assert CutRest(rows, w) == below;
    }
  }

  /** Wrapping settles: a second `wrap_line` at the same row changes nothing. */
  lemma {:induction false} WrapSettles(rows: seq<Row>, w: int)
    requires w >= 2 && Wrap(rows, w).ok
    ensures Wrap(Wrap(rows, w).rows, w).rows == Wrap(rows, w).rows
    decreases |Chars(rows)|
  {
    if rows == [] || Fits(rows[0], |rows| == 1, w) || rows[0].cells == [] {
    } else {
      CutConserves(rows, w);
      var head, rest := CutHead(rows, w), CutRest(rows, w);
      WrapNonEmpty(rest, w);
      WrapSettles(rest, w);
      CutWidth(rows[0].cells, w);
      if LastGap(rows[0].cells, w - 1) > 0 {
        assert Fits(head, false, w);
      } else {
        NoGapInPrefix(rows[0].cells, |head.cells|, w);
        Recut(head, Wrap(rest, w).rows, w);
      }
    }
  }

  // -------------------------------------------------------------- unwrapping

  /** How much of the next row completes a word that was cut: at least one character,
      at most `room` of the word, and the whitespace behind what was taken. */
  function WordRest(cells: seq<Glyph>, room: int): (n: nat)
    ensures n <= |cells|
  {
    if room < 1 || WordEnd(cells, room) == 0 then 0 else RunEnd(cells, WordEnd(cells, room))
  }

  /** How much of the next row can be taken without cutting a word: as many words as end
      within `room`, and the whitespace behind them. */
  function WordsFitting(cells: seq<Glyph>, room: int): (n: nat)
    ensures n <= |cells|
  {
    var limit := if room < |cells| then room else |cells|;
    if limit < 1 || LastStop(cells, limit) == 0 then 0 else RunEnd(cells, LastStop(cells, limit))
  }

  function Room(r: Row, w: int): int { w - 1 - |r.cells| }

  /** Move the first `n` characters of the second row to the end of the first. */
  function PullUp(rows: seq<Row>, n: nat): seq<Row>
    requires |rows| >= 2 && n <= |rows[1].cells|
  {
    [rows[0].(cells := rows[0].cells + rows[1].cells[..n]), rows[1].(cells := rows[1].cells[n..])] + rows[2..]
  }

  /** Remove the second row if it is empty; the first takes over its hard return. */
  function Absorb(rows: seq<Row>): (r: seq<Row>)
    requires |rows| >= 2
    ensures |rows| - 1 <= |r| <= |rows| && r[0].cells == rows[0].cells
  {
    if rows[1].cells == [] then [rows[0].(hard := rows[1].hard)] + rows[2..] else rows
  }

  function SetKludged(rows: seq<Row>, k: bool): seq<Row>
    requires rows != []
  {
    [rows[0].(kludged := k)] + rows[1..]
  }

  /** First half of a step: put a cut word back together. */
  function Unkludge(rows: seq<Row>, w: int): (r: (seq<Row>, nat))
    requires |rows| >= 2
    ensures |rows| - 1 <= |r.0| <= |rows|
    ensures |r.0[0].cells| == |rows[0].cells| + r.1
  {
    var n := WordRest(rows[1].cells, Room(rows[0], w));
    if !rows[0].kludged then (rows, 0)
    else if n == 0 then (SetKludged(rows, false), 0)
    else
      var m := Absorb(PullUp(rows, n));
      (SetKludged(m, n < |rows[1].cells| && !IsSpace(rows[1].cells[n - 1].c)), n)
  }

  /** Second half of a step: take whole words from the next row. */
  function Refill(rows: seq<Row>, w: int): (r: (seq<Row>, nat))
    requires |rows| >= 2
    ensures |rows| - 1 <= |r.0| <= |rows|
    ensures |r.0[0].cells| == |rows[0].cells| + r.1
  {
    var n := WordsFitting(rows[1].cells, Room(rows[0], w));
    if n > 0 then (Absorb(PullUp(rows, n)), n) else (SetKludged(Absorb(rows), false), 0)
  }

  /** `unwrap_line` enters its loop body for this row. */
  predicate MayPull(rows: seq<Row>, w: int) {
    |rows| >= 2 && !rows[0].hard && Room(rows[0], w) >= 1
  }

  /** `ok` is false when the source dereferences a row that is not there. */
  datatype Unwrapped = Unwrapped(rows: seq<Row>, ok: bool, visited: nat)

  function Unwrap(rows: seq<Row>, w: int): Unwrapped
    decreases |rows|
  {
    if !MayPull(rows, w) then Unwrapped(rows, true, 0) else
    var a := Unkludge(rows, w).0;
    if |a| < 2 then Unwrapped(a, false, 1) else
    var (b, n) := Refill(a, w);
    if n == 0 then Unwrapped(b, true, 1) else
    var rec := Unwrap(b[1..], w);
    Unwrapped([b[0]] + rec.rows, rec.ok, rec.visited + 1)
  }

  /** The number of characters moved into the first row, or -1, as `unwrap_line` reports it. */
  function UnwrapReturn(rows: seq<Row>, w: int): int {
    if !MayPull(rows, w) then -1 else
    var (a, n) := Unkludge(rows, w);
    var moved := if |a| < 2 then n else n + Refill(a, w).1;
    if moved == 0 then -1 else moved
  }

  lemma UnwrapMoved(rows: seq<Row>, w: int)
    requires rows != []
    ensures Unwrap(rows, w).rows != []
    ensures var i := UnwrapReturn(rows, w);
      |Unwrap(rows, w).rows[0].cells| == |rows[0].cells| + (if i == -1 then 0 else i)
  {
  }

  lemma UnwrapNothing(rows: seq<Row>, w: int)
    requires |rows| >= 2 && rows[1].cells != [] && UnwrapReturn(rows, w) == -1
    ensures |Unwrap(rows, w).rows| == |rows| && Unwrap(rows, w).rows[1] == rows[1]
  {
  }

  /** When no characters move, the second row goes exactly if it is empty and the loop is entered; an empty
      second row never lets characters move. */
  lemma UnwrapLength(rows: seq<Row>, w: int)
    requires |rows| >= 2
    ensures UnwrapReturn(rows, w) == -1 ==>
      |Unwrap(rows, w).rows| == |rows| - (if MayPull(rows, w) && rows[1].cells == [] then 1 else 0)
    ensures rows[1].cells == [] ==> UnwrapReturn(rows, w) == -1
  {
  }

  lemma TopTwoChars(r: Row, q: Row, rows: seq<Row>)
    ensures Chars([r, q] + rows) == r.cells + (q.cells + Chars(rows))
  {
    assert [r, q] + rows == [r] + ([q] + rows);
    CharsCons(r, [q] + rows);
    CharsCons(q, rows);
  }

  lemma PullUpChars(rows: seq<Row>, n: nat)
    requires |rows| >= 2 && n <= |rows[1].cells|
    ensures Chars(PullUp(rows, n)) == Chars(rows)
  {
    var a, c, below := rows[0].cells, rows[1].cells, Chars(rows[2..]);
    assert rows == [rows[0], rows[1]] + rows[2..];
    TopTwoChars(rows[0], rows[1], rows[2..]);
    TopTwoChars(PullUp(rows, n)[0], PullUp(rows, n)[1], rows[2..]);
    Assoc(a, c[..n], c[n..] + below);
    Assoc(c[..n], c[n..], below);
    assert c[..n] + c[n..] == c;
  }

  lemma AbsorbChars(rows: seq<Row>)
    requires |rows| >= 2
    ensures Chars(Absorb(rows)) == Chars(rows)
  {
    if rows[1].cells == [] {
      assert rows == [rows[0], rows[1]] + rows[2..];
      TopTwoChars(rows[0], rows[1], rows[2..]);
      CharsCons(Absorb(rows)[0], rows[2..]);
      assert rows[1].cells + Chars(rows[2..]) == Chars(rows[2..]);
    }
  }

  lemma SetKludgedChars(rows: seq<Row>, k: bool)
    requires rows != []
    ensures Chars(SetKludged(rows, k)) == Chars(rows)
  {
    assert SetKludged(rows, k)[1..] == rows[1..];
  }

  lemma UnwrapStepChars(rows: seq<Row>, w: int)
    requires |rows| >= 2
    ensures Chars(Unkludge(rows, w).0) == Chars(rows)
    ensures Chars(Refill(rows, w).0) == Chars(rows)
  {
    var k := WordRest(rows[1].cells, Room(rows[0], w));
    PullUpChars(rows, k);
    AbsorbChars(PullUp(rows, k));
    SetKludgedChars(rows, false);
    SetKludgedChars(Absorb(PullUp(rows, k)), false);
    SetKludgedChars(Absorb(PullUp(rows, k)), true);
    var n := WordsFitting(rows[1].cells, Room(rows[0], w));
    PullUpChars(rows, n);
    AbsorbChars(PullUp(rows, n));
    AbsorbChars(rows);
    SetKludgedChars(Absorb(rows), false);
  }

  lemma {:induction false} UnwrapKeepsChars(rows: seq<Row>, w: int)
    ensures Chars(Unwrap(rows, w).rows) == Chars(rows)
    decreases |rows|
  {
    if MayPull(rows, w) {
      UnwrapStepChars(rows, w);
      var a := Unkludge(rows, w).0;
      if |a| >= 2 {
        UnwrapStepChars(a, w);
        var b := Refill(a, w).0;
        UnwrapKeepsChars(b[1..], w);
      }
    }
  }

  lemma TopTwo(r: Row, q: Row, rows: seq<Row>)
    ensures Stream([r, q] + rows) == Items(r) + (Items(q) + Stream(rows))
  {
    assert [r, q] + rows == [r] + ([q] + rows);
    StreamCons(r, [q] + rows);
    StreamCons(q, rows);
  }

  lemma PullUpStream(rows: seq<Row>, n: nat)
    requires |rows| >= 2 && n <= |rows[1].cells| && !rows[0].hard
    ensures Stream(PullUp(rows, n)) == Stream(rows)
  {
    var r, q := PullUp(rows, n)[0], PullUp(rows, n)[1];
    var c := rows[1].cells;
    assert rows == [rows[0], rows[1]] + rows[2..];
    TopTwo(rows[0], rows[1], rows[2..]);
    TopTwo(r, q, rows[2..]);
    PullItems(rows[0], rows[1], n);
    Assoc(Items(r), Items(q), Stream(rows[2..]));
    Assoc(Items(rows[0]), Items(rows[1]), Stream(rows[2..]));
  }

  lemma PullItems(r: Row, q: Row, n: nat)
    requires n <= |q.cells| && !r.hard
    ensures Items(r.(cells := r.cells + q.cells[..n])) + Items(q.(cells := q.cells[n..])) == Items(r) + Items(q)
  {
    CutItems(q, n);
    InksJoin(r.cells, q.cells[..n]);
    var brk: seq<Item> := if q.hard then [Break] else [];
    Assoc(Inks(r.cells), Inks(q.cells[..n]), Inks(q.cells[n..]) + brk);
    Assoc(Inks(q.cells[..n]), Inks(q.cells[n..]), brk);
  }

  lemma AbsorbItems(rows: seq<Row>)
    requires |rows| >= 2 && rows[1].cells == []
    ensures Stream(Absorb(rows)) == (Inks(rows[0].cells) + Items(rows[1])) + Stream(rows[2..])
  {
    StreamCons(Absorb(rows)[0], rows[2..]);
    assert Items(Absorb(rows)[0]) == Inks(rows[0].cells) + Items(rows[1]);
  }

  lemma AbsorbStream(rows: seq<Row>)
    requires |rows| >= 2
    ensures !rows[0].hard ==> Stream(Absorb(rows)) == Stream(rows)
    ensures rows[0].hard && rows[1].cells == [] ==> |Stream(Absorb(rows))| < |Stream(rows)|
  {
    if rows[1].cells == [] {
      assert rows == [rows[0], rows[1]] + rows[2..];
      TopTwo(rows[0], rows[1], rows[2..]);
      AbsorbItems(rows);
      Assoc(Inks(rows[0].cells), Items(rows[1]), Stream(rows[2..]));
      if !rows[0].hard {
        SoftItems(rows[0]);
      }
    }
  }

  lemma SetKludgedStream(rows: seq<Row>, k: bool)
    requires rows != []
    ensures Stream(SetKludged(rows, k)) == Stream(rows)
  {
    assert SetKludged(rows, k)[1..] == rows[1..];
  }

  lemma UnkludgeStream(rows: seq<Row>, w: int)
    requires |rows| >= 2 && !rows[0].hard
    ensures Stream(Unkludge(rows, w).0) == Stream(rows)
  {
    var n := WordRest(rows[1].cells, Room(rows[0], w));
    PullUpStream(rows, n);
    AbsorbStream(PullUp(rows, n));
    SetKludgedStream(rows, false);
    SetKludgedStream(Absorb(PullUp(rows, n)), true);
    SetKludgedStream(Absorb(PullUp(rows, n)), false);
  }

  /** A step of `unwrap_line` harms a paragraph break when completing the cut word used up
      a hard row, so that the row is now hard itself, and yet more is taken from the next
      paragraph, or an empty row there is removed together with its own flag. */
  predicate HarmsBreak(rows: seq<Row>, w: int)
    decreases |rows|
  {
    if !MayPull(rows, w) then false else
    var a := Unkludge(rows, w).0;
    if |a| < 2 then false else
    var (b, n) := Refill(a, w);
    || (a[0].hard && (n > 0 || a[1].cells == []))
    || (n > 0 && HarmsBreak(b[1..], w))
  }

  lemma RefillStream(rows: seq<Row>, w: int)
    requires |rows| >= 2 && !(rows[0].hard && (Refill(rows, w).1 > 0 || rows[1].cells == []))
    ensures Stream(Refill(rows, w).0) == Stream(rows)
  {
    var n := WordsFitting(rows[1].cells, Room(rows[0], w));
    if n > 0 {
      PullUpStream(rows, n);
      AbsorbStream(PullUp(rows, n));
    } else {
      AbsorbStream(rows);
      SetKludgedStream(Absorb(rows), false);
    }
  }

  /** The break that followed `a[0]` is now behind characters that used to follow it. */
  lemma RefillHarms(a: seq<Row>, w: int, below: seq<Row>)
    requires |a| >= 2 && a[0].hard && Refill(a, w).1 > 0
    ensures Stream([Refill(a, w).0[0]] + below) != Stream(a)
  {
    var e := |a[0].cells|;
    var head := Refill(a, w).0[0];
    StreamCons(head, below);
    assert a == [a[0], a[1]] + a[2..];
    TopTwo(a[0], a[1], a[2..]);
    assert Stream(a)[e] == Break;
    assert Inks(head.cells)[e] == Ink(head.cells[e]);
    assert Stream([head] + below)[e] == Ink(head.cells[e]);
  }

  lemma BehindFirst(b: seq<Row>, rec: seq<Row>)
    requires b != []
    ensures Stream([b[0]] + rec) == Stream(b) <==> Stream(rec) == Stream(b[1..])
  {
    assert b == [b[0]] + b[1..];
    StreamCons(b[0], b[1..]);
    StreamCons(b[0], rec);
    SamePrefix(Items(b[0]), Stream(rec), Stream(b[1..]));
  }

  /** `unwrap_line` keeps every paragraph break at its place exactly when no step of it
      harms one. */
  lemma {:induction false} UnwrapKeepsStream(rows: seq<Row>, w: int)
    ensures Stream(Unwrap(rows, w).rows) == Stream(rows) <==> !HarmsBreak(rows, w)
    decreases |rows|
  {
    if MayPull(rows, w) {
      UnkludgeStream(rows, w);
      var a := Unkludge(rows, w).0;
      if |a| >= 2 {
        var (b, n) := Refill(a, w);
        var rec := Unwrap(b[1..], w).rows;
        if a[0].hard && n > 0 {
          RefillHarms(a, w, rec);
        } else if a[0].hard && a[1].cells == [] {
          AbsorbStream(a);
          SetKludgedStream(Absorb(a), false);
        } else {
          RefillStream(a, w);
          if n > 0 {
            UnwrapKeepsStream(b[1..], w);
            BehindFirst(b, rec);
          }
        }
      }
    }
  }

  predicate NoneKludged(rows: seq<Row>) {
    forall r :: r in rows ==> !r.kludged
  }

  lemma AbsorbUnkludged(rows: seq<Row>)
    requires |rows| >= 2 && NoneKludged(rows)
    ensures NoneKludged(Absorb(rows))
  {
  }

  lemma RefillUnkludged(rows: seq<Row>, w: int)
    requires |rows| >= 2 && NoneKludged(rows)
    ensures NoneKludged(Refill(rows, w).0)
  {
    AbsorbUnkludged(rows);
    AbsorbUnkludged(PullUp(rows, WordsFitting(rows[1].cells, Room(rows[0], w))));
  }

  /** Without kludged rows nothing can go wrong. */
  lemma {:induction false} UnwrapSafe(rows: seq<Row>, w: int)
    requires NoneKludged(rows)
    ensures Unwrap(rows, w).ok && !HarmsBreak(rows, w)
    decreases |rows|
  {
    if MayPull(rows, w) {
      var b := Refill(rows, w).0;
      RefillUnkludged(rows, w);
      UnwrapSafe(b[1..], w);
    }
  }

  /** A step is on the last two rows and the whole text of the lower one completes the word cut at the
      end of the upper. The lower row is removed, and the source goes on to read it. */
  predicate RunsOut(rows: seq<Row>, w: int)
    decreases |rows|
  {
    && MayPull(rows, w)
    && if |rows| == 2 && rows[0].kludged && 0 < |rows[1].cells| == WordRest(rows[1].cells, Room(rows[0], w)) then true
       else
         var (b, n) := Refill(Unkludge(rows, w).0, w);
         n > 0 && RunsOut(b[1..], w)
  }

  /** `unwrap_line` reads a row that is gone exactly when it completes a word with all of the last row. */
  lemma {:induction false} UnwrapOkExact(rows: seq<Row>, w: int)
    ensures Unwrap(rows, w).ok <==> !RunsOut(rows, w)
    decreases |rows|
  {
    if MayPull(rows, w) {
      var a := Unkludge(rows, w).0;
      if |a| >= 2 {
        UnwrapOkExact(Refill(a, w).0[1..], w);
      }
    }
  }

  lemma StepNoBlank(rows: seq<Row>, w: int)
    requires MayPull(rows, w) && NoBlank(rows)
    ensures var a := Unkludge(rows, w).0; NoBlank(a) && a[0].cells != []
    ensures var a := Unkludge(rows, w).0; |a| >= 2 ==> NoBlank(Refill(a, w).0) && Refill(a, w).0[0].cells != []
  {
    assert rows[0].cells != [];
    PullNoBlank(rows, WordRest(rows[1].cells, Room(rows[0], w)));
    var a := Unkludge(rows, w).0;
    if |a| >= 2 {
      PullNoBlank(a, WordsFitting(a[1].cells, Room(a[0], w)));
    }
  }

  lemma PullNoBlank(rows: seq<Row>, n: nat)
    requires |rows| >= 2 && n <= |rows[1].cells| && rows[0].cells != [] && NoBlank(rows)
    ensures NoBlank(Absorb(PullUp(rows, n))) && NoBlank(Absorb(rows))
  {
    forall i | 0 < i < |rows| - 1 ensures rows[i].cells != [] || rows[i].hard {
    }
  }

  lemma {:induction false} UnwrapNoBlank(rows: seq<Row>, w: int)
    requires NoBlank(rows)
    ensures NoBlank(Unwrap(rows, w).rows)
    ensures |rows| >= 2 && rows[0].cells != [] ==> Unwrap(rows, w).rows != [] && Unwrap(rows, w).rows[0].cells != []
    decreases |rows|
  {
    if MayPull(rows, w) {
      StepNoBlank(rows, w);
      var a := Unkludge(rows, w).0;
      if |a| >= 2 {
        var b := Refill(a, w).0;
        UnwrapNoBlank(b[1..], w);
      }
    }
  }

  lemma {:induction false} UnwrapStaysUnkludged(rows: seq<Row>, w: int)
    requires NoneKludged(rows)
    ensures NoneKludged(Unwrap(rows, w).rows)
    decreases |rows|
  {
    if MayPull(rows, w) {
      var b := Refill(rows, w).0;
      RefillUnkludged(rows, w);
      UnwrapStaysUnkludged(b[1..], w);
    }
  }

  /** Every row `unwrap_line` worked on ends left of the right margin. */
  lemma {:induction false} UnwrapWidths(rows: seq<Row>, w: int)
    ensures Narrow(Unwrap(rows, w).rows, Unwrap(rows, w).visited, w)
    decreases |rows|
  {
    if MayPull(rows, w) {
      UnkludgeWidth(rows, w);
      var a := Unkludge(rows, w).0;
      if |a| >= 2 {
        RefillWidth(a, w);
        var b := Refill(a, w).0;
        UnwrapWidths(b[1..], w);
        NarrowCons(b[0], Unwrap(b[1..], w).rows, Unwrap(b[1..], w).visited, w);
      }
    }
  }

  /** Text of at most `room` characters and whitespace behind it. */
  lemma ExtendedWidth(cells: seq<Glyph>, more: seq<Glyph>, k: nat, w: int)
    requires k <= |more| && |cells| + k < w
    requires forall i :: k <= i < |more| ==> IsSpace(more[i].c)
    ensures TrimmedLen(cells + more) < w
  {
    TrimmedAtMost(cells + more, |cells| + k);
  }

  lemma UnkludgeWidth(rows: seq<Row>, w: int)
    requires MayPull(rows, w)
    ensures TrimmedLen(Unkludge(rows, w).0[0].cells) < w
  {
    var c := rows[1].cells;
    var k := WordEnd(c, Room(rows[0], w));
    ExtendedWidth(rows[0].cells, [], 0, w);
    assert rows[0].cells + [] == rows[0].cells;
    ExtendedWidth(rows[0].cells, c[..RunEnd(c, k)], k, w);
  }

  lemma RefillWidth(rows: seq<Row>, w: int)
    requires |rows| >= 2 && TrimmedLen(rows[0].cells) < w
    ensures TrimmedLen(Refill(rows, w).0[0].cells) < w
  {
    var c, room := rows[1].cells, Room(rows[0], w);
    var n := WordsFitting(c, room);
    if n > 0 {
      ExtendedWidth(rows[0].cells, c[..n], LastStop(c, if room < |c| then room else |c|), w);
    }
  }
}
