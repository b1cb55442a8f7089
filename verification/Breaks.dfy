/** What `rewrap` does to the paragraph breaks: exactly when every one of them stays at its place in the
    text. */
module Breaks {
  import opened Document
  import opened Reflow
  import opened Cursor
  import opened Rewrapping
  import opened BreakWeights
  import opened BreakEnds

  predicate AboveHarms(p: Place, cantUnwrapPrev: bool, w: int)
    requires 0 <= p.y < |p.doc|
  {
    TriesAbove(p, cantUnwrapPrev) && HarmsBreak(p.doc[p.y - 1..], w)
  }

  predicate HereHarms(a: Step, cantUnwrap: bool, w: int)
    requires 0 <= a.place.y < |a.place.doc|
  {
    !cantUnwrap && !a.moved && HarmsBreak(a.place.doc[a.place.y..], w)
  }

  predicate HereCuts(b: Step, cantWrap: bool, w: int)
    requires w >= 2 && 0 <= b.place.y < |b.place.doc|
  {
    b.ok && !cantWrap && !b.moved && CutsHardLast(b.place.doc[b.place.y..], w)
  }

  predicate LaterCuts(a: Step, cantUnwrap: bool, cantWrap: bool, w: int)
    requires w >= 2 && 0 <= a.place.y < |a.place.doc|
  {
    AtPlace(a.place, w);
    HereCuts(Second(a, cantUnwrap, w), cantWrap, w)
  }

  /** Some step that is made harms a break: an unwrap fills a line behind a break, or the wrap cuts a hard
      last line. */
  predicate MovesBreak(p: Place, last: int, cantUnwrapPrev: bool, cantUnwrap: bool, cantWrap: bool, w: int)
    requires w >= 2 && 0 <= p.y < |p.doc|
  {
    AbovePlace(p, last, w);
    var a := First(p, last, cantUnwrapPrev, w);
    || AboveHarms(p, cantUnwrapPrev, w)
    || (a.ok && a.place.y < |a.place.doc|
        && (|| HereHarms(a, cantUnwrap, w)
            || LaterCuts(a, cantUnwrap, cantWrap, w)))
  }

  /** What unwraps do to the breaks: keep them all, or lose weight; the end stays as it is. */
  predicate Loses(doc: seq<Row>, after: seq<Row>, harms: bool) {
    && (if harms then Weight(after) < Weight(doc) else Stream(after) == Stream(doc))
    && LastHard(after) == LastHard(doc)
  }

  lemma FinishUpLoses(doc: seq<Row>, l: nat, w: int)
    requires l < |doc|
    ensures Loses(doc, FinishUp(doc, l, w), HarmsBreak(doc[l..], w))
  {
    hide FinishUp, HarmsBreak, Weight, Stream, LastHard;
    FinishUpWeight(doc, l, w);
    FinishUpStream(doc, l, w);
    FinishUpLast(doc, l, w);
  }

  lemma LosesOn(doc: seq<Row>, mid: seq<Row>, after: seq<Row>, first: bool, second: bool)
    requires Loses(doc, mid, first) && Loses(mid, after, second)
    ensures Loses(doc, after, first || second)
  {
    hide Weight, Stream, LastHard;
    if !first {
      SameStream(doc, mid);
    }
    if !second {
      SameStream(mid, after);
    }
  }

  lemma LosesExact(doc: seq<Row>, after: seq<Row>, harms: bool)
    requires Loses(doc, after, harms)
    ensures Stream(after) == Stream(doc) <==> !harms
  {
    hide Weight, Stream, LastHard;
    if Stream(after) == Stream(doc) {
      SameStream(doc, after);
    }
  }

  lemma FirstLoses(p: Place, last: int, cantUnwrapPrev: bool, w: int)
    requires 0 <= p.y < |p.doc|
    ensures Loses(p.doc, First(p, last, cantUnwrapPrev, w).place.doc, AboveHarms(p, cantUnwrapPrev, w))
  {
    hide Unwrap, UnwrapReturn, HarmsBreak, Weight, Stream, LastHard;
    if TriesAbove(p, cantUnwrapPrev) {
      FinishUpLoses(p.doc, p.y - 1, w);
    }
  }

  lemma SecondLoses(a: Step, cantUnwrap: bool, w: int)
    requires 0 <= a.place.y < |a.place.doc|
    ensures Loses(a.place.doc, Second(a, cantUnwrap, w).place.doc, HereHarms(a, cantUnwrap, w))
  {
    hide Unwrap, UnwrapReturn, HarmsBreak, Weight, Stream, LastHard;
    if !cantUnwrap && !a.moved {
      FinishUpLoses(a.place.doc, a.place.y, w);
    }
  }

  /** The wrap that may follow. */
  lemma WrapBreaks(doc: seq<Row>, b: Place, harms: bool, last: int, w: int)
    requires w >= 2 && 0 <= b.y < |b.doc| && Loses(doc, b.doc, harms)
    ensures Stream(WrapAt(b, last, w).place.doc) == Stream(doc) <==> !harms && !CutsHardLast(b.doc[b.y..], w)
  {
    hide Wrap, WrapReturn, CutsHardLast, Weight, Stream, LastHard, Finish;
    LosesExact(doc, b.doc, harms);
    FinishStream(b.doc, b.y, w);
    AfterWrap(b, last, w);
    if CutsHardLast(b.doc[b.y..], w) {
      LastHardEnds(doc);
    }
  }

  lemma AfterWrap(b: Place, last: int, w: int)
    requires w >= 2 && 0 <= b.y < |b.doc|
    ensures WrapAt(b, last, w).place.doc == Finish(b.doc, b.y, w)
  {
  }

  /** On every document, with every cursor and all flags, whatever the outcome: `rewrap` keeps every break
      at its place exactly when no step that it makes harms one. Later steps never make up for it. */
  lemma RewrapKeepsStream(p: Place, last: int, cantUnwrapPrev: bool, cantUnwrap: bool, cantWrap: bool, w: int)
    requires w >= 2 && 0 <= p.y < |p.doc|
    ensures Stream(Rewrapped(p, last, cantUnwrapPrev, cantUnwrap, cantWrap, w).place.doc) == Stream(p.doc)
       <==> !MovesBreak(p, last, cantUnwrapPrev, cantUnwrap, cantWrap, w)
  {
    hide Stream, Loses, UnwrapAbove, UnwrapAt, WrapAt, UnwrapReturn, CutsHardLast, AboveHarms, HereHarms;
    var a := First(p, last, cantUnwrapPrev, w);
    AbovePlace(p, last, w);
    FirstLoses(p, last, cantUnwrapPrev, w);
    LosesExact(p.doc, a.place.doc, AboveHarms(p, cantUnwrapPrev, w));
    if a.ok && a.place.y < |a.place.doc| {
      AtPlace(a.place, w);
      SecondLoses(a, cantUnwrap, w);
      var b := Second(a, cantUnwrap, w);
      var harms := AboveHarms(p, cantUnwrapPrev, w) || HereHarms(a, cantUnwrap, w);
      LosesOn(p.doc, a.place.doc, b.place.doc, AboveHarms(p, cantUnwrapPrev, w), HereHarms(a, cantUnwrap, w));
      LosesExact(p.doc, b.place.doc, harms);
      WrapBreaks(p.doc, b.place, harms, last, w);
    }
  }

  /** Without cut words only the wrap can move a break. */
  lemma UnkludgedMovesBreak(p: Place, last: int, cantUnwrapPrev: bool, cantUnwrap: bool, cantWrap: bool, w: int)
    requires w >= 2 && 0 <= p.y < |p.doc| && NoneKludged(p.doc)
    ensures 0 <= First(p, last, cantUnwrapPrev, w).place.y
    ensures var a := First(p, last, cantUnwrapPrev, w);
      MovesBreak(p, last, cantUnwrapPrev, cantUnwrap, cantWrap, w)
      <==> a.place.y < |a.place.doc| && LaterCuts(a, cantUnwrap, cantWrap, w)
  {
    FirstUnkludged(p, last, cantUnwrapPrev, w);
    hide UnwrapReturn, CutsHardLast, HarmsBreak, First, Second, NoneKludged;
    AbovePlace(p, last, w);
    var a := First(p, last, cantUnwrapPrev, w);
    if a.place.y < |a.place.doc| && !cantUnwrap && !a.moved {
      UnkludgedSafe(a.place.doc, a.place.y, w);
    }
  }

  lemma UnkludgedSafe(doc: seq<Row>, l: nat, w: int)
    requires l < |doc| && NoneKludged(doc)
    ensures !HarmsBreak(doc[l..], w) && Unwrap(doc[l..], w).ok && NoneKludged(FinishUp(doc, l, w))
  {
    hide Unwrap, HarmsBreak;
    UnwrapSafe(doc[l..], w);
    UnwrapStaysUnkludged(doc[l..], w);
  }

  lemma FirstUnkludged(p: Place, last: int, cantUnwrapPrev: bool, w: int)
    requires 0 <= p.y < |p.doc| && NoneKludged(p.doc)
    ensures var a := First(p, last, cantUnwrapPrev, w);
      0 <= a.place.y && a.ok && NoneKludged(a.place.doc) && !AboveHarms(p, cantUnwrapPrev, w)
  {
    if TriesAbove(p, cantUnwrapPrev) {
      hide Unwrap, UnwrapReturn, HarmsBreak, NoneKludged, FinishUp;
      UnkludgedSafe(p.doc, p.y - 1, w);
      AbovePlace(p, last, w);
    }
  }
}
