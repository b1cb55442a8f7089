/** Where `wrap_line` cuts and how much `unwrap_line` takes, told from the characters of the rows
    alone. `w` is the number of screen columns throughout. */
module WrapRules {
  import opened Document
  import opened Reflow

  lemma SpaceMeans(c: char)
    ensures IsSpace(c) <==> c in [' ', '\t', '\n', '\r', '\U{0B}', '\U{0C}', '\U{A0}']
  {
  }

  // ---------------------------------------------------------------- wrapping

  /** Something other than whitespace stands at the right margin or behind it. */
  ghost predicate TooWide(cells: seq<Glyph>, w: int) {
    exists i :: 0 <= i < |cells| && w - 1 <= i && !IsSpace(cells[i].c)
  }

  ghost predicate EndsInSpace(cells: seq<Glyph>) {
    cells != [] && IsSpace(cells[|cells| - 1].c)
  }

  lemma TrimmedMeans(cells: seq<Glyph>, w: int)
    requires w >= 1
    ensures TrimmedLen(cells) >= w <==> TooWide(cells, w)
    ensures TrimmedLen(cells) == |cells| <==> !EndsInSpace(cells)
  {
    var n := TrimmedLen(cells);
    if n >= w {
      assert !IsSpace(cells[n - 1].c);
    }
  }

  /** A row is cut exactly when it is too wide, or it is soft, has a row below it and does not end in
      whitespace. Otherwise nothing changes. */
  lemma WrapCutsWhen(rows: seq<Row>, w: int)
    requires w >= 2 && rows != []
    ensures var cuts := TooWide(rows[0].cells, w) || (!rows[0].hard && |rows| > 1 && !EndsInSpace(rows[0].cells));
      && (WrapReturn(rows, w) != -1 <==> cuts)
      && (!cuts ==> Wrap(rows, w).rows == rows && Wrap(rows, w).ok)
  {
    TrimmedMeans(rows[0].cells, w);
  }

  /** A cut at `e` is between words: in front of a character that ends a run of whitespace, and some
      whitespace of the run has from 1 to w - 1 characters in front of it. */
  ghost predicate BetweenWords(cells: seq<Glyph>, w: int, e: int) {
    && 0 < e < |cells| && !IsSpace(cells[e].c)
    && exists k :: 1 <= k <= w - 1 && k < e && AllSpace(cells, k, e)
  }

  ghost predicate AllSpace(cells: seq<Glyph>, k: int, e: int)
    requires 0 <= k <= e <= |cells|
  {
    forall i :: k <= i < e ==> IsSpace(cells[i].c)
  }

  ghost predicate HasGap(cells: seq<Glyph>, w: int) {
    exists e :: BetweenWords(cells, w, e)
  }

  /** The cut is the last one between words, or at the margin if there is none. */
  ghost predicate CutRule(cells: seq<Glyph>, w: int, e: int) {
    if HasGap(cells, w) then BetweenWords(cells, w, e) && forall f :: BetweenWords(cells, w, f) ==> f <= e
    else e == if |cells| < w - 1 then |cells| else w - 1
  }

  lemma GapMeans(cells: seq<Glyph>, w: int, e: int)
    requires w >= 2 && BetweenWords(cells, w, e)
    ensures LastGap(cells, w - 1) > 0 && e <= RunEnd(cells, LastGap(cells, w - 1))
  {
    var k :| 1 <= k <= w - 1 && k < e && AllSpace(cells, k, e);
    assert RunEnd(cells, k) == e by {
      RunsTo(cells, k, e);
    }
    assert GapAt(cells, k);
    var g := LastGap(cells, w - 1);
    if g < e {
      RunsTo(cells, g, e);
    }
  }

  lemma {:induction false} RunsTo(cells: seq<Glyph>, k: nat, e: nat)
    requires k <= e < |cells| && AllSpace(cells, k, e) && !IsSpace(cells[e].c)
    ensures RunEnd(cells, k) == e
    decreases e - k
  {
    if k < e {
      RunsTo(cells, k + 1, e);
    }
  }

  lemma CutObeys(cells: seq<Glyph>, w: int)
    requires w >= 2
    ensures CutRule(cells, w, CutAt(cells, w))
    ensures LastGap(cells, w - 1) != 0 <==> HasGap(cells, w)
  {
    var g := LastGap(cells, w - 1);
    if g > 0 {
      assert AllSpace(cells, g, RunEnd(cells, g));
      assert BetweenWords(cells, w, RunEnd(cells, g));
    }
    forall f | BetweenWords(cells, w, f) ensures g > 0 && f <= RunEnd(cells, g) {
      GapMeans(cells, w, f);
    }
  }

  /** What is below a row cut at `e`: the text moves to the front of the next row, or to a row of its own
      if the cut row is hard or the last. */
  function Below(rows: seq<Row>, e: nat): seq<Row>
    requires rows != [] && e <= |rows[0].cells|
  {
    var tail := rows[0].cells[e..];
    if |rows| == 1 then [Row(tail, false, false)]
    else if rows[0].hard then [Row(tail, true, false)] + rows[1..]
    else [Row(tail + rows[1].cells, rows[1].hard, rows[1].kludged)] + rows[2..]
  }

  /** One round: where the first row is cut, what it becomes, and what is wrapped next. */
  lemma WrapRound(rows: seq<Row>, w: int) returns (e: nat)
    requires w >= 2 && rows != [] && WrapReturn(rows, w) != -1 && rows[0].cells != []
    ensures e <= |rows[0].cells| && CutRule(rows[0].cells, w, e) && WrapReturn(rows, w) == |rows[0].cells| - e
    ensures var r, rest := Wrap(rows, w), Wrap(Below(rows, e), w);
      && r.ok == rest.ok && r.visited == rest.visited + 1
      && r.rows == [Row(rows[0].cells[..e], rows[0].hard && |rows| == 1,
                        rows[0].kludged || !HasGap(rows[0].cells, w))] + rest.rows
  {
    e := CutAt(rows[0].cells, w);
    CutObeys(rows[0].cells, w);
    hide CutAt;
    assert CutRest(rows, w) == Below(rows, e);
  }

  // ---------------------------------------------------------------- unwrapping

  /** `n` characters complete a cut word: as many of its characters as there is room for, and the
      whitespace behind them. */
  ghost predicate RestRule(cells: seq<Glyph>, room: int, n: int) {
    if room < 1 || cells == [] || IsSpace(cells[0].c) then n == 0
    else exists m :: 1 <= m <= room && m <= n <= |cells| && WordTo(cells, room, m) && SpaceTo(cells, m, n)
  }

  /** The first `m` characters are no whitespace, and a longer such piece does not exist or has no room. */
  ghost predicate WordTo(cells: seq<Glyph>, room: int, m: int)
    requires 0 <= m <= |cells|
  {
    (forall i :: 0 <= i < m ==> !IsSpace(cells[i].c)) && (m == room || m == |cells| || IsSpace(cells[m].c))
  }

  /** The whitespace from `m` on ends at `n`. */
  ghost predicate SpaceTo(cells: seq<Glyph>, m: int, n: int)
    requires 0 <= m <= n <= |cells|
  {
    (forall i :: m <= i < n ==> IsSpace(cells[i].c)) && (n == |cells| || !IsSpace(cells[n].c))
  }

  /** `k` characters are whole words: the text ends or whitespace follows. */
  ghost predicate Whole(cells: seq<Glyph>, k: int) {
    1 <= k <= |cells| && (k == |cells| || IsSpace(cells[k].c))
  }

  /** `n` characters are all words that fit the room, and the whitespace behind them. */
  ghost predicate FitRule(cells: seq<Glyph>, room: int, n: int) {
    if forall k :: 1 <= k <= room ==> !Whole(cells, k) then n == 0
    else exists k :: 1 <= k <= room && Whole(cells, k) && (forall j :: k < j <= room ==> !Whole(cells, j))
                     && k <= n <= |cells| && SpaceTo(cells, k, n)
  }

  lemma RestObeys(cells: seq<Glyph>, room: int)
    ensures RestRule(cells, room, WordRest(cells, room))
  {
    if !(room < 1 || cells == [] || IsSpace(cells[0].c)) {
      var m := WordEnd(cells, room);
      assert m > 0;
      assert WordTo(cells, room, m) && SpaceTo(cells, m, RunEnd(cells, m));
    }
  }

  lemma FitObeys(cells: seq<Glyph>, room: int)
    ensures FitRule(cells, room, WordsFitting(cells, room))
  {
    var limit := if room < |cells| then room else |cells|;
    if limit >= 1 {
      var k := LastStop(cells, limit);
      forall j | 1 <= j <= room && Whole(cells, j) ensures 0 < j <= k {
        assert WordStop(cells, j);
      }
      if k > 0 {
        assert Whole(cells, k) && SpaceTo(cells, k, RunEnd(cells, k));
      }
    }
  }

  /** The first `n` characters of the second row go to the first; an emptied row goes and leaves its hard
      return. */
  function Taken(rows: seq<Row>, n: nat, kludged: bool): (r: seq<Row>)
    requires |rows| >= 2 && n <= |rows[1].cells|
    ensures r != []
  {
    var r, q := rows[0], rows[1];
    if n == |q.cells| then [Row(r.cells + q.cells, q.hard, kludged)] + rows[2..]
    else [Row(r.cells + q.cells[..n], r.hard, kludged), Row(q.cells[n..], q.hard, q.kludged)] + rows[2..]
  }

  /** A row is filled exactly if a row follows, it is soft and there is room. */
  ghost predicate MayFill(rows: seq<Row>, w: int) {
    |rows| >= 2 && !rows[0].hard && |rows[0].cells| < w - 1
  }

  lemma UnwrapStays(rows: seq<Row>, w: int)
    requires !MayFill(rows, w)
    ensures Unwrap(rows, w).rows == rows && Unwrap(rows, w).ok && UnwrapReturn(rows, w) == -1
  {
  }

  /** What is there once a cut word has been completed with `n` characters. */
  function Completed(rows: seq<Row>, n: nat): seq<Row>
    requires |rows| >= 2 && n <= |rows[1].cells|
  {
    var c := rows[1].cells;
    if n == 0 then [Row(rows[0].cells, rows[0].hard, false)] + rows[1..]
    else Taken(rows, n, n < |c| && !IsSpace(c[n - 1].c))
  }

  /** Moving characters up, and removing a row left empty. */
  lemma MovedUp(rows: seq<Row>, n: nat, k: bool)
    requires |rows| >= 2 && n <= |rows[1].cells|
    ensures SetKludged(Absorb(PullUp(rows, n)), k) == Taken(rows, n, k)
  {
    var c, p := rows[1].cells, PullUp(rows, n);
    assert p[2..] == rows[2..];
    if n == |c| {
      assert c[..n] == c && c[n..] == [];
      assert Absorb(p) == [Row(rows[0].cells + c, rows[1].hard, rows[0].kludged)] + rows[2..];
    } else {
      assert Absorb(p) == p && p[1..] == [p[1]] + rows[2..];
    }
  }

  lemma KludgedOf(rows: seq<Row>, n: nat)
    requires |rows| >= 2 && n <= |rows[1].cells|
    ensures var b := Absorb(PullUp(rows, n)); SetKludged(b, rows[0].kludged) == b
  {
    var b := Absorb(PullUp(rows, n));
    assert b == [b[0]] + b[1..];
  }

  lemma NothingUp(rows: seq<Row>)
    requires |rows| >= 2
    ensures Absorb(PullUp(rows, 0)) == Absorb(rows)
  {
    var p := PullUp(rows, 0);
    assert p[0] == rows[0] && p[1] == rows[1] && p == rows by {
      assert rows[0].cells + [] == rows[0].cells;
      assert rows == [rows[0], rows[1]] + rows[2..];
    }
  }

  lemma CompletedIs(rows: seq<Row>, w: int)
    requires |rows| >= 2 && rows[0].kludged
    ensures var n := WordRest(rows[1].cells, Room(rows[0], w));
      Unkludge(rows, w) == (Completed(rows, n), n)
  {
    hide WordRest, Taken;
    var c, n := rows[1].cells, WordRest(rows[1].cells, Room(rows[0], w));
    MovedUp(rows, n, n > 0 && n < |c| && !IsSpace(c[n - 1].c));
  }

  lemma TakenIs(rows: seq<Row>, w: int)
    requires |rows| >= 2
    ensures var n := WordsFitting(rows[1].cells, Room(rows[0], w));
      Refill(rows, w) == (Taken(rows, n, n > 0 && rows[0].kludged), n)
  {
    hide WordsFitting, Taken, PullUp, Absorb, SetKludged;
    var n := WordsFitting(rows[1].cells, Room(rows[0], w));
    MovedUp(rows, n, n > 0 && rows[0].kludged);
    KludgedOf(rows, n);
    NothingUp(rows);
  }

  /** One round: `n` characters complete a cut word, `m` more are the whole words that fit. */
  lemma UnwrapRound(rows: seq<Row>, w: int) returns (n: nat, m: nat)
    requires MayFill(rows, w)
    ensures n <= |rows[1].cells|
    ensures if rows[0].kludged then RestRule(rows[1].cells, w - 1 - |rows[0].cells|, n) else n == 0
    ensures var a := if rows[0].kludged then Completed(rows, n) else rows;
      if |a| < 2 then !Unwrap(rows, w).ok && UnwrapReturn(rows, w) == n
      else
        && m <= |a[1].cells| && FitRule(a[1].cells, w - 1 - |a[0].cells|, m)
        && UnwrapReturn(rows, w) == (if n + m == 0 then -1 else n + m)
        && var b, r := Taken(a, m, m > 0 && a[0].kludged), Unwrap(rows, w);
           if m == 0 then r.ok && r.rows == b
           else r.ok == Unwrap(b[1..], w).ok && r.rows == [b[0]] + Unwrap(b[1..], w).rows
  {
    hide WordRest, WordsFitting, RestRule, Completed, Taken, FitRule, Refill;
    n, m := 0, 0;
    var a := Unkludge(rows, w).0;
    if rows[0].kludged {
      n := WordRest(rows[1].cells, Room(rows[0], w));
      RestObeys(rows[1].cells, Room(rows[0], w));
      CompletedIs(rows, w);
    } else {
      assert Unkludge(rows, w) == (rows, 0);
    }
    hide Unkludge;
    if |a| >= 2 {
      m := WordsFitting(a[1].cells, Room(a[0], w));
      FitObeys(a[1].cells, Room(a[0], w));
      TakenIs(a, w);
    }
  }

  /** Without a cut word nothing moves exactly if no whole word fits, and otherwise all that fit do. */
  lemma UnwrapTakes(rows: seq<Row>, w: int)
    requires MayFill(rows, w) && !rows[0].kludged
    ensures var c, room, i := rows[1].cells, w - 1 - |rows[0].cells|, UnwrapReturn(rows, w);
      && (i == -1 <==> forall k :: 1 <= k <= room ==> !Whole(c, k))
      && (i != -1 ==> i > 0 && FitRule(c, room, i))
  {
    var n, m := UnwrapRound(rows, w);
  }
}
