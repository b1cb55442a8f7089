/** What one call of `rewrap` does and answers, told from the unwraps and the wrap it makes. */
module RewrapRules {
  import opened Document
  import opened Reflow
  import opened Cursor
  import opened Rewrapping

  /** Columns are cut off at the end of the row; a remembered column comes first. */
  function Column(x: int, last: int, r: Row): int {
    var wanted := if last >= 0 then last else x;
    if wanted > |r.cells| then |r.cells| else wanted
  }

  lemma LandingIs(x: int, last: int, r: Row)
    ensures Landing(x, last, r) == Column(x, last, r)
  {
  }

  /** The row above is unwrapped unless that is forbidden, there is none, or it is hard. */
  predicate TriesPrevious(p: Place, cantUnwrapPrev: bool)
    requires 0 <= p.y < |p.doc|
  {
    !(cantUnwrapPrev || p.y == 0 || p.doc[p.y - 1].hard)
  }

  /** The first step: characters that move up take the cursor along if it is among them, and then nothing
      else is done; nor is anything if the cursor's row is gone. */
  lemma RewrapAbove(p: Place, last: int, cantUnwrapPrev: bool, cantUnwrap: bool, cantWrap: bool, w: int)
    requires w >= 2 && 0 <= p.y < |p.doc| && TriesPrevious(p, cantUnwrapPrev)
    requires Unwrap(p.doc[p.y - 1..], w).ok
    ensures var e := Rewrapped(p, last, cantUnwrapPrev, cantUnwrap, cantWrap, w);
      var i, doc := UnwrapReturn(p.doc[p.y - 1..], w), FinishUp(p.doc, p.y - 1, w);
      && |doc| >= p.y
      && (i != -1 && p.x <= i ==>
            e == End(Place(doc, p.y - 1, Column(|doc[p.y - 1].cells| - (i - p.x), last, doc[p.y - 1])), Returned, true))
      && (!(i != -1 && p.x <= i) && p.y == |doc| ==> e == End(Place(doc, p.y, p.x), Returned, false))
      && (!(i != -1 && p.x <= i) && p.y < |doc| ==>
            var f := Rewrapped(Place(doc, p.y, p.x), last, true, cantUnwrap, cantWrap, w);
            e == if f.outcome == Returned then End(f.place, Returned, f.redrawn || i != -1) else f)
  {
    hide Unwrap, UnwrapReturn, FinishUp, UnwrapAt, WrapAt;
    UnwrapPrevCursor(p.doc, p.y, p.x, w);
    var a := First(p, last, cantUnwrapPrev, w);
    assert a == UnwrapAbove(p, last, w);
    if !a.moved && a.place.y < |a.place.doc| {
      AtPlace(a.place, w);
    }
  }

  /** Without it: the current row is unwrapped, unless that is forbidden, and wrapped, unless that is
      forbidden or characters have moved. The cursor follows what is wrapped away under it. */
  lemma RewrapHere(p: Place, last: int, cantUnwrapPrev: bool, cantUnwrap: bool, cantWrap: bool, w: int)
    requires w >= 2 && 0 <= p.y < |p.doc| && !TriesPrevious(p, cantUnwrapPrev)
    requires !cantUnwrap ==> Unwrap(p.doc[p.y..], w).ok
    ensures var e := Rewrapped(p, last, cantUnwrapPrev, cantUnwrap, cantWrap, w);
      var doc := if cantUnwrap then p.doc else FinishUp(p.doc, p.y, w);
      && p.y < |doc|
      && if !cantUnwrap && UnwrapReturn(p.doc[p.y..], w) != -1 then e == End(Place(doc, p.y, p.x), Returned, true)
         else if cantWrap then e == End(Place(doc, p.y, p.x), Returned, false)
         else
           var i, after := WrapReturn(doc[p.y..], w), Finish(doc, p.y, w);
           && |after| > p.y
           && (!Wrap(doc[p.y..], w).ok ==> e == End(Place(after, p.y, p.x), GaveUp, false))
           && (Wrap(doc[p.y..], w).ok && i != -1 && p.x > |after[p.y].cells| ==>
                 |after| > p.y + 1
                 && e == End(Place(after, p.y + 1, Column(p.x - |doc[p.y].cells| + i, last, after[p.y + 1])), Returned,
                             true))
           && (Wrap(doc[p.y..], w).ok && !(i != -1 && p.x > |after[p.y].cells|) ==>
                 e == End(Place(after, p.y, p.x), Returned, false))
  {
    AtPlace(p, w);
    NotAbove(p, last, cantUnwrapPrev, cantUnwrap, cantWrap, w);
    hide Unwrap, UnwrapReturn, FinishUp, Wrap, WrapReturn, Finish, WrapAt, Column, Rewrapped, First;
    var doc := if cantUnwrap then p.doc else FinishUp(p.doc, p.y, w);
    WrapAtIs(Place(doc, p.y, p.x), last, w);
  }

  lemma NotAbove(p: Place, last: int, cantUnwrapPrev: bool, cantUnwrap: bool, cantWrap: bool, w: int)
    requires w >= 2 && 0 <= p.y < |p.doc| && !TriesPrevious(p, cantUnwrapPrev)
    ensures Rewrapped(p, last, cantUnwrapPrev, cantUnwrap, cantWrap, w)
         == Remaining(Step(p, false, true), false, last, cantUnwrap, cantWrap, w)
  {
    hide Remaining, UnwrapReturn, UnwrapAbove;
  }

  lemma WrapAtIs(p: Place, last: int, w: int)
    requires w >= 2 && 0 <= p.y < |p.doc|
    ensures var s, i, after := WrapAt(p, last, w), WrapReturn(p.doc[p.y..], w), Finish(p.doc, p.y, w);
      var ok := Wrap(p.doc[p.y..], w).ok;
      && |after| > p.y
      && (ok && i != -1 && p.x > |after[p.y].cells| ==>
            |after| > p.y + 1
            && s == Step(Place(after, p.y + 1, Column(p.x - |p.doc[p.y].cells| + i, last, after[p.y + 1])), true, true))
      && (!(ok && i != -1 && p.x > |after[p.y].cells|) ==> s == Step(Place(after, p.y, p.x), false, ok))
  {
    hide Wrap, WrapReturn, Finish;
    WrapGrows(p.doc, p.y, w);
  }

  /** `rewrap` returns only if the unwrap from the row above does. */
  lemma AboveReturns(p: Place, last: int, cantUnwrapPrev: bool, cantUnwrap: bool, cantWrap: bool, w: int)
    requires w >= 2 && 0 <= p.y < |p.doc| && TriesPrevious(p, cantUnwrapPrev)
    ensures Rewrapped(p, last, cantUnwrapPrev, cantUnwrap, cantWrap, w).outcome == Returned ==>
      Unwrap(p.doc[p.y - 1..], w).ok
  {
    hide Unwrap, UnwrapReturn, FinishUp, UnwrapAt, WrapAt;
  }

  lemma HereReturns(p: Place, last: int, cantUnwrapPrev: bool, cantUnwrap: bool, cantWrap: bool, w: int)
    requires w >= 2 && 0 <= p.y < |p.doc| && !TriesPrevious(p, cantUnwrapPrev)
    ensures Rewrapped(p, last, cantUnwrapPrev, cantUnwrap, cantWrap, w).outcome == Returned && !cantUnwrap ==>
      Unwrap(p.doc[p.y..], w).ok
  {
    hide Unwrap, UnwrapReturn, FinishUp, WrapAt;
  }

  /** An answer of true means that something changed. */
  lemma RedrawnChanges(p: Place, last: int, cantUnwrapPrev: bool, cantUnwrap: bool, cantWrap: bool, w: int)
    requires w >= 2 && 0 <= p.y
    ensures var e := Rewrapped(p, last, cantUnwrapPrev, cantUnwrap, cantWrap, w);
      e.outcome == Returned && e.redrawn ==> e.place != p
  {
    if p.y < |p.doc| {
      if TriesPrevious(p, cantUnwrapPrev) {
        AboveChanges(p, last, cantUnwrapPrev, cantUnwrap, cantWrap, w);
      } else {
        HereChanges(p, last, cantUnwrapPrev, cantUnwrap, cantWrap, w);
      }
    }
  }

  /** The cursor is on the next row, or its row has grown. */
  predicate Changed(p: Place, q: Place) {
    q.y == p.y + 1 || (0 <= p.y < |p.doc| && p.y < |q.doc| && |q.doc[p.y].cells| > |p.doc[p.y].cells|)
  }

  lemma HereChanges(p: Place, last: int, cantUnwrapPrev: bool, cantUnwrap: bool, cantWrap: bool, w: int)
    requires w >= 2 && 0 <= p.y < |p.doc| && !TriesPrevious(p, cantUnwrapPrev)
    ensures var e := Rewrapped(p, last, cantUnwrapPrev, cantUnwrap, cantWrap, w);
      e.outcome == Returned ==>
        && (e.redrawn ==> Changed(p, e.place))
        && |e.place.doc| >= p.y && e.place.doc[..p.y] == p.doc[..p.y]
  {
    HereReturns(p, last, cantUnwrapPrev, cantUnwrap, cantWrap, w);
    GrowsAt(p, w);
    KeepsAbove(p.doc, p.y, w);
    KeepsAbove(FinishUp(p.doc, p.y, w), p.y, w);
    hide Unwrap, UnwrapReturn, Wrap, WrapReturn, Rewrapped, FinishUp, Finish, Column;
    if !cantUnwrap ==> Unwrap(p.doc[p.y..], w).ok {
      RewrapHere(p, last, cantUnwrapPrev, cantUnwrap, cantWrap, w);
    }
  }

  lemma KeepsAbove(doc: seq<Row>, l: nat, w: int)
    ensures l <= |doc| ==> |FinishUp(doc, l, w)| >= l && FinishUp(doc, l, w)[..l] == doc[..l]
    ensures w >= 2 && l <= |doc| ==> |Finish(doc, l, w)| >= l && Finish(doc, l, w)[..l] == doc[..l]
  {
  }

  /** Characters that move make the first row longer. */
  lemma GrowsAt(p: Place, w: int)
    requires 0 <= p.y < |p.doc|
    ensures UnwrapReturn(p.doc[p.y..], w) != -1 ==>
      p.y < |FinishUp(p.doc, p.y, w)| && |FinishUp(p.doc, p.y, w)[p.y].cells| > |p.doc[p.y].cells|
  {
    UnwrapMoved(p.doc[p.y..], w);
  }

  /** Without characters moving up, the row below is as it was, or was empty. */
  lemma IdleKeeps(p: Place, w: int)
    requires 0 < p.y < |p.doc| && UnwrapReturn(p.doc[p.y - 1..], w) == -1
    ensures var doc := FinishUp(p.doc, p.y - 1, w);
      p.y < |doc| ==> |doc[p.y].cells| >= |p.doc[p.y].cells|
  {
    var rows := p.doc[p.y - 1..];
    assert rows[1] == p.doc[p.y];
    hide Unwrap, UnwrapReturn;
    if rows[1].cells != [] {
      UnwrapNothing(rows, w);
      assert FinishUp(p.doc, p.y - 1, w)[p.y] == Unwrap(rows, w).rows[1];
    }
  }

  lemma Differs(p: Place, doc: seq<Row>, q: Place)
    requires 0 < p.y < |p.doc| && p.y < |doc| && p.y <= |q.doc| && q.doc[..p.y] == doc[..p.y]
    requires |doc[p.y - 1].cells| > |p.doc[p.y - 1].cells|
             || (|doc[p.y].cells| >= |p.doc[p.y].cells| && Changed(Place(doc, p.y, p.x), q))
    ensures q != p
  {
    assert q.doc[..p.y][p.y - 1] == q.doc[p.y - 1] && doc[..p.y][p.y - 1] == doc[p.y - 1];
  }

  lemma AboveChanges(p: Place, last: int, cantUnwrapPrev: bool, cantUnwrap: bool, cantWrap: bool, w: int)
    requires w >= 2 && 0 <= p.y < |p.doc| && TriesPrevious(p, cantUnwrapPrev)
    ensures var e := Rewrapped(p, last, cantUnwrapPrev, cantUnwrap, cantWrap, w);
      e.outcome == Returned && e.redrawn ==> e.place != p
  {
    AboveReturns(p, last, cantUnwrapPrev, cantUnwrap, cantWrap, w);
    GrowsAt(Place(p.doc, p.y - 1, p.x), w);
    hide Unwrap, UnwrapReturn, Rewrapped, FinishUp, Column, Changed;
    var e := Rewrapped(p, last, cantUnwrapPrev, cantUnwrap, cantWrap, w);
    if e.outcome == Returned {
      RewrapAbove(p, last, cantUnwrapPrev, cantUnwrap, cantWrap, w);
      var i, doc := UnwrapReturn(p.doc[p.y - 1..], w), FinishUp(p.doc, p.y - 1, w);
      if i != -1 && p.x <= i {
        assert e.place.y == p.y - 1;
      } else if p.y < |doc| {
        HereChanges(Place(doc, p.y, p.x), last, true, cantUnwrap, cantWrap, w);
        if i == -1 {
          IdleKeeps(p, w);
        }
        if e.redrawn {
          Differs(p, doc, e.place);
        }
      }
    }
  }

  /** An answer of false with the cursor on a row means that the cursor is where it was and that no unwrap
      that was made moved a character. */
  lemma NotRedrawnStays(p: Place, last: int, cantUnwrapPrev: bool, cantUnwrap: bool, cantWrap: bool, w: int)
    requires w >= 2 && 0 <= p.y < |p.doc|
    ensures var e := Rewrapped(p, last, cantUnwrapPrev, cantUnwrap, cantWrap, w);
      e.outcome == Returned && !e.redrawn ==>
        && e.place.y == p.y && e.place.x == p.x
        && (e.place.y < |e.place.doc| && TriesPrevious(p, cantUnwrapPrev) ==> UnwrapReturn(p.doc[p.y - 1..], w) == -1)
        && (e.place.y < |e.place.doc| && !cantUnwrap ==>
              var doc := if TriesPrevious(p, cantUnwrapPrev) then FinishUp(p.doc, p.y - 1, w) else p.doc;
              p.y < |doc| && UnwrapReturn(doc[p.y..], w) == -1)
  {
    hide Unwrap, UnwrapReturn, Rewrapped, FinishUp, Column;
    if TriesPrevious(p, cantUnwrapPrev) {
      AboveReturns(p, last, cantUnwrapPrev, cantUnwrap, cantWrap, w);
      if Unwrap(p.doc[p.y - 1..], w).ok {
        RewrapAbove(p, last, cantUnwrapPrev, cantUnwrap, cantWrap, w);
        var i, doc := UnwrapReturn(p.doc[p.y - 1..], w), FinishUp(p.doc, p.y - 1, w);
        if !(i != -1 && p.x <= i) && p.y < |doc| {
          HereStays(Place(doc, p.y, p.x), last, true, cantUnwrap, cantWrap, w);
        }
      }
    } else {
      HereStays(p, last, cantUnwrapPrev, cantUnwrap, cantWrap, w);
    }
  }

  lemma HereStays(p: Place, last: int, cantUnwrapPrev: bool, cantUnwrap: bool, cantWrap: bool, w: int)
    requires w >= 2 && 0 <= p.y < |p.doc| && !TriesPrevious(p, cantUnwrapPrev)
    ensures var e := Rewrapped(p, last, cantUnwrapPrev, cantUnwrap, cantWrap, w);
      e.outcome == Returned && !e.redrawn ==>
        && e.place.y == p.y && e.place.x == p.x && p.y < |e.place.doc|
        && (!cantUnwrap ==> UnwrapReturn(p.doc[p.y..], w) == -1)
  {
    HereReturns(p, last, cantUnwrapPrev, cantUnwrap, cantWrap, w);
    hide Unwrap, UnwrapReturn, Wrap, WrapReturn, Rewrapped, FinishUp, Finish, Column;
    if !cantUnwrap ==> Unwrap(p.doc[p.y..], w).ok {
      RewrapHere(p, last, cantUnwrapPrev, cantUnwrap, cantWrap, w);
    }
  }

  /** A place without a row is left alone. */
  lemma RewrapNowhere(p: Place, last: int, cantUnwrapPrev: bool, cantUnwrap: bool, cantWrap: bool, w: int)
    requires w >= 2 && |p.doc| <= p.y
    ensures Rewrapped(p, last, cantUnwrapPrev, cantUnwrap, cantWrap, w) == End(p, Returned, false)
  {
  }
}
