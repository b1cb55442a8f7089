/** The editor's mutable document: an array of `Line` objects that is spliced in place,
    and a cursor into it. `Doc()` is the value that module Reflow reasons about. */
module Editor {
  import opened Document
  import opened Reflow
  import opened Cursor
  import opened Rewrapping

  function Zip(text: string, attr: seq<Attr>): seq<Glyph>
    requires |text| == |attr|
  {
    seq(|text|, i requires 0 <= i < |text| => Glyph(text[i], attr[i]))
  }

  lemma ZipSlice(text: string, attr: seq<Attr>, e: nat)
    requires |text| == |attr| && e <= |text|
    ensures Zip(text[..e], attr[..e]) == Zip(text, attr)[..e]
    ensures Zip(text[e..], attr[e..]) == Zip(text, attr)[e..]
  {
  }

  lemma ZipJoin(text: string, attr: seq<Attr>, text2: string, attr2: seq<Attr>)
    requires |text| == |attr| && |text2| == |attr2|
    ensures Zip(text + text2, attr + attr2) == Zip(text, attr) + Zip(text2, attr2)
  {
  }

  class Line {
    var text: string
    var attr: seq<Attr>
    var hardcr: bool
    var kludged: bool

    constructor ()
      ensures Valid() && Value() == BLANK_ROW
    {
      text, attr, hardcr, kludged := "", [], false, false;
    }

    ghost predicate Valid()
      reads this
    {
      |text| == |attr|
    }

    ghost function Value(): Row
      requires Valid()
      reads this
    {
      Row(Zip(text, attr), hardcr, kludged)
    }
  }

  lemma TextLength(l: Line)
    requires l.Valid()
    ensures |l.text| == |l.Value().cells|
  {
  }

  class Editor {
    const columns: int
    var line: seq<Line>
    var xpos: int
    var ypos: int
    var lastXpos: int
    /** All the line objects that are or have been part of the document. */
    ghost var repr: set<Line>

    ghost predicate Valid()
      reads this`line, this`repr, line
    {
      && columns >= 2
      && (forall i, j :: 0 <= i < j < |line| ==> line[i] != line[j])
      && (forall i :: 0 <= i < |line| ==> line[i] in repr && line[i].Valid())
    }

    ghost function Doc(): (d: seq<Row>)
      requires Valid()
      reads this`line, this`repr, line
      ensures |d| == |line| && forall i :: 0 <= i < |line| ==> d[i] == line[i].Value()
    {
      var ls := line;
      seq(|ls|, i requires 0 <= i < |ls| && ls[i].Valid() reads ls => ls[i].Value())
    }

    /** `line.push(new Line)`. */
    method PushBlank()
      requires Valid()
      modifies this`line, this`repr
      ensures Valid() && fresh(repr - old(repr))
      ensures |line| == |old(line)| + 1 && line == old(line) + [line[|old(line)|]]
      ensures Doc() == old(Doc()) + [BLANK_ROW]
    {
      var blank := new Line();
      line, repr := line + [blank], repr + {blank};
    }

    /** `line.splice(l, 0, new Line)`. */
    method InsertBlank(l: nat)
      requires Valid() && l <= |line|
      modifies this`line, this`repr
      ensures Valid() && Doc() == old(Doc())[..l] + [BLANK_ROW] + old(Doc())[l..]
      ensures line == old(line)[..l] + [line[l]] + old(line)[l..] && fresh(line[l]) && fresh(repr - old(repr))
    {
      var blank := new Line();
      line, repr := line[..l] + [blank] + line[l..], repr + {blank};
    }

    /** `line.splice(l, 1)`. */
    method Remove(l: nat)
      requires Valid() && l < |line|
      modifies this`line
      ensures Valid() && Doc() == old(Doc())[..l] + old(Doc())[l + 1..]
      ensures line == old(line)[..l] + old(line)[l + 1..]
    {
      line := line[..l] + line[l + 1..];
    }

    /** Assign the fields of one line. */
    method Assign(l: nat, text: string, attr: seq<Attr>, hardcr: bool, kludged: bool)
      requires Valid() && l < |line| && |text| == |attr|
      modifies line[l]
      ensures Valid() && Doc() == old(Doc())[l := Row(Zip(text, attr), hardcr, kludged)]
    {
      line[l].text, line[l].attr := text, attr;
      line[l].hardcr, line[l].kludged := hardcr, kludged;
    }

    /** Make room below line `l`; the new line takes over its hard return, unless `l` is
        the last line. */
    method Open(l: nat)
      requires Valid() && l < |line|
      modifies this`line, this`repr
      ensures Valid() && Doc() == Opened(old(Doc()), l)
      ensures line[l] == old(line[l]) && fresh(repr - old(repr))
    {
      if l + 1 == |line| {
        PushBlank();
      } else if line[l].hardcr {
        InsertBlank(l + 1);
        Assign(l + 1, "", [], true, false);
      }
    }

    /** Move what follows the first `e` characters of line `l` to the front of the next line. */
    method MoveDown(l: nat, e: nat, hardcr: bool, kludged: bool)
      requires Valid() && l + 1 < |line| && e <= |line[l].text|
      modifies line[l], line[l + 1]
      ensures Valid()
      ensures var d, cells := old(Doc()), old(Doc())[l].cells;
        Doc() == d[l := Row(cells[..e], hardcr, kludged)][l + 1 := d[l + 1].(cells := cells[e..] + d[l + 1].cells)]
    {
      var text, attr := line[l].text, line[l].attr;
      var nextText, nextAttr := line[l + 1].text, line[l + 1].attr;
      Assign(l + 1, text[e..] + nextText, attr[e..] + nextAttr, line[l + 1].hardcr, line[l + 1].kludged);
      Assign(l, text[..e], attr[..e], hardcr, kludged);
      ZipSlice(text, attr, e);
      ZipJoin(text[e..], attr[e..], nextText, nextAttr);
    }

    /** One round of the loop in `wrap_line`: cut line `l` and push the rest down. */
    method CutLine(l: nat)
      requires Valid() && l < |line| && line[l].text != ""
      modifies this`line, this`repr, repr
      ensures Valid() && fresh(repr - old(repr))
      ensures Doc() == old(Doc())[..l] + [CutHead(old(Doc())[l..], columns)] + CutRest(old(Doc())[l..], columns)
    {
      var cells := Zip(line[l].text, line[l].attr);
      var kludged := line[l].kludged || LastGap(cells, columns - 1) == 0;
      var hardcr := line[l].hardcr && l + 1 == |line|;
      CutOpened(Doc(), l, columns);
      Open(l);
      MoveDown(l, CutAt(cells, columns), hardcr, kludged);
    }

    /** One round of the loop in `wrap_line`: `moved` is -1 when line `l` is left alone. */
    method WrapRound(l: nat) returns (moved: int, ok: bool)
      requires Valid() && l < |line|
      modifies this`line, this`repr, repr
      ensures Valid() && fresh(repr - old(repr))
      ensures ok ==> moved == WrapReturn(old(Doc())[l..], columns)
      ensures ok && moved != -1 ==>
        && moved >= 0 && l + 1 <= |Doc()|
        && SameFuture(old(Doc()), l, Doc(), l + 1, columns)
        && |Chars(Doc()[l + 1..])| < |Chars(old(Doc())[l..])|
      ensures !ok || moved == -1 ==> Doc() == Finish(old(Doc()), l, columns) && ok == Wrap(old(Doc())[l..], columns).ok
    {
      ghost var doc := Doc();
      var cells := Zip(line[l].text, line[l].attr);
      var trimmed := TrimmedLen(cells);
      if trimmed < columns && (trimmed != |cells| || l + 1 == |line| || line[l].hardcr) {
        RoundDone(doc, l, columns);
        return -1, true;
      }
      if |cells| == 0 {
        RoundAborts(doc, l, columns);
        Assign(l, "", [], line[l].hardcr, true);
        return -1, false;
      }
      moved, ok := |cells| - CutAt(cells, columns), true;
      CutLine(l);
      RoundCuts(doc, l, columns, Doc());
    }

    /** `wrap_line`. `ok` is false where the source reports that the impossible happened
        and exits. */
    method WrapLine(start: nat) returns (ret: int, ok: bool)
      requires Valid() && start <= |line|
      modifies this`line, this`repr, repr
      ensures Valid() && fresh(repr - old(repr))
      ensures Doc() == Finish(old(Doc()), start, columns)
      ensures ok == Wrap(old(Doc())[start..], columns).ok
      ensures ok ==> ret == WrapReturn(old(Doc())[start..], columns)
    {
      hide Wrap, WrapReturn, Chars, Finish;
      ret, ok := -1, true;
      var l := start;
      ghost var doc0, doc := Doc(), Doc();
      while l < |line|
        invariant Valid() && fresh(repr - old(repr))
        invariant doc == Doc() && start <= l <= |doc|
        invariant ok && SameFuture(doc0, start, doc, l, columns)
        invariant if l == start then doc == doc0 && ret == -1 else ret == WrapReturn(doc0[start..], columns) >= 0
        decreases |Chars(doc[l..])|
      {
        ghost var was := doc;
        var moved;
        moved, ok := WrapRound(l);
        doc := Doc();
        if ret == -1 {
          ret := moved;
        }
        if !ok || moved == -1 {
          return;
        }
        l := l + 1;
      }
      NothingLeft(doc, columns);
    }

    /** Move the first `n` characters of line `l + 1` to the end of line `l`. */
    method MoveUp(l: nat, n: nat)
      requires Valid() && l + 1 < |line| && n <= |line[l + 1].text|
      modifies line[l], line[l + 1]
      ensures Valid() && Doc() == old(Doc())[..l] + PullUp(old(Doc())[l..], n)
    {
      ghost var doc := Doc();
      var text, attr := line[l + 1].text, line[l + 1].attr;
      var upText, upAttr := line[l].text, line[l].attr;
      Assign(l, upText + text[..n], upAttr + attr[..n], line[l].hardcr, line[l].kludged);
      Assign(l + 1, text[n..], attr[n..], line[l + 1].hardcr, line[l + 1].kludged);
      ZipSlice(text, attr, n);
      ZipJoin(upText, upAttr, text[..n], attr[..n]);
      SplicePullUp(doc, l, n);
    }

    /** Remove line `l + 1` if it is empty, keeping its hard return. */
    method AbsorbNext(l: nat)
      requires Valid() && l + 1 < |line|
      modifies this`line, line[l]
      ensures Valid() && Doc() == old(Doc())[..l] + Absorb(old(Doc())[l..])
      ensures l < |line|
    {
      ghost var doc := Doc();
      if |line[l + 1].text| == 0 {
        Assign(l, line[l].text, line[l].attr, line[l + 1].hardcr, line[l].kludged);
        SpliceAbsorb(doc, l, Doc());
        Remove(l + 1);
      }
    }

    /** Assign the kludge flag of line `l`. */
    method Mark(l: nat, kludged: bool)
      requires Valid() && l < |line|
      modifies line[l]
      ensures Valid() && Doc() == old(Doc())[l := old(Doc())[l].(kludged := kludged)]
    {
      line[l].kludged := kludged;
    }

    method UnkludgeLine(l: nat) returns (n: nat)
      requires Valid() && l + 1 < |line|
      modifies this`line, repr
      ensures Valid() && |Doc()| >= l + 1
      ensures Doc() == old(Doc())[..l] + Unkludge(old(Doc())[l..], columns).0
      ensures n == Unkludge(old(Doc())[l..], columns).1
    {
      hide WordRest, Absorb, PullUp;
      ghost var doc := Doc();
      assert doc == doc[..l] + doc[l..];
      assert doc[l..][0] == doc[l] && doc[l..][1] == doc[l + 1];
      if !line[l].kludged {
        return 0;
      }
      n := WordRest(Zip(line[l + 1].text, line[l + 1].attr), columns - 1 - |line[l].text|);
      if n == 0 {
        MarkedAt(doc[..l], doc[l..], false);
        Mark(l, false);
      } else {
        JoinWord(l, n, n < |line[l + 1].text| && !IsSpace(line[l + 1].text[n - 1]));
      }
    }

    /** Complete the cut word with `n` characters from the next line; `still` says that
        more of it follows there. */
    method JoinWord(l: nat, n: nat, still: bool)
      requires Valid() && l + 1 < |line| && n <= |line[l + 1].text|
      modifies this`line, repr
      ensures Valid() && l < |line|
      ensures Doc() == old(Doc())[..l] + SetKludged(Absorb(PullUp(old(Doc())[l..], n)), still)
    {
      ghost var doc := Doc();
      PullAndAbsorb(l, n);
      MarkedAt(doc[..l], Absorb(PullUp(doc[l..], n)), still);
      Mark(l, still);
    }

    method PullAndAbsorb(l: nat, n: nat)
      requires Valid() && l + 1 < |line| && n <= |line[l + 1].text|
      modifies this`line, repr
      ensures Valid() && l < |line|
      ensures Doc() == old(Doc())[..l] + Absorb(PullUp(old(Doc())[l..], n))
    {
      ghost var doc := Doc();
      MoveUp(l, n);
      Respliced(doc[..l], PullUp(doc[l..], n));
      AbsorbNext(l);
    }

    method AbsorbAndUnmark(l: nat)
      requires Valid() && l + 1 < |line|
      modifies this`line, repr
      ensures Valid() && l < |line|
      ensures Doc() == old(Doc())[..l] + SetKludged(Absorb(old(Doc())[l..]), false)
    {
      ghost var doc := Doc();
      AbsorbNext(l);
      MarkedAt(doc[..l], Absorb(doc[l..]), false);
      Mark(l, false);
    }

    method RefillLine(l: nat) returns (n: nat)
      requires Valid() && l + 1 < |line|
      modifies this`line, repr
      ensures Valid() && |Doc()| >= l + 1
      ensures Doc() == old(Doc())[..l] + Refill(old(Doc())[l..], columns).0
      ensures n == Refill(old(Doc())[l..], columns).1
    {
      hide WordsFitting, Absorb, PullUp, SetKludged;
      assert Doc()[l..][0] == Doc()[l] && Doc()[l..][1] == Doc()[l + 1];
      n := WordsFitting(Zip(line[l + 1].text, line[l + 1].attr), columns - 1 - |line[l].text|);
      if n > 0 {
        PullAndAbsorb(l, n);
      } else {
        AbsorbAndUnmark(l);
      }
    }

    /** One round of the loop in `unwrap_line`. */
    method UnwrapRound(l: nat) returns (moved: int, more: bool, ok: bool)
      requires Valid() && l + 1 < |line| && !line[l].hardcr && columns - 1 - |line[l].text| >= 1
      modifies this`line, repr
      ensures Valid()
      ensures moved == UnwrapReturn(old(Doc())[l..], columns)
      ensures ok ==> l + 1 <= |Doc()| <= |old(Doc())|
      ensures ok && more ==> SameUnwrap(old(Doc()), l, Doc(), l + 1, columns)
      ensures !ok || !more ==> Doc() == FinishUp(old(Doc()), l, columns) && ok == Unwrap(old(Doc())[l..], columns).ok
    {
      ghost var doc := Doc();
      assert MayPull(doc[l..], columns);
      moved := UnkludgeLine(l);
      if l + 1 >= |line| {
        return if moved == 0 then -1 else moved, false, false;
      }
      ghost var mid := Doc();
      var n := RefillLine(l);
      moved, more, ok := if moved + n == 0 then -1 else moved + n, n > 0, true;
      UnwrapRounds(doc, l, mid, Doc(), columns);
    }

    /** `unwrap_line`. `ok` is false where the source reads a line that is not there. */
    method UnwrapLine(start: nat) returns (ret: int, ok: bool)
      requires Valid() && start < |line|
      modifies this`line, repr
      ensures Valid()
      ensures Doc() == FinishUp(old(Doc()), start, columns)
      ensures ok == Unwrap(old(Doc())[start..], columns).ok
      ensures ret == UnwrapReturn(old(Doc())[start..], columns)
    {
      hide Unwrap, UnwrapReturn, FinishUp, MayPull;
      ret, ok := -1, true;
      var l := start;
      ghost var doc0, doc := Doc(), Doc();
      while l + 1 < |line| && !line[l].hardcr && columns - 1 - |line[l].text| >= 1
        invariant Valid()
        invariant doc == Doc() && start <= l <= |doc|
        invariant ok && SameUnwrap(doc0, start, doc, l, columns)
        invariant if l == start then doc == doc0 && ret == -1 else ret == UnwrapReturn(doc0[start..], columns)
        decreases |doc| - l
      {
        var moved, more;
        moved, more, ok := UnwrapRound(l);
        doc := Doc();
        if l == start {
          ret := moved;
        }
        if !ok || !more {
          return;
        }
        l := l + 1;
      }
      UnwrapStops(doc, l, columns);
    }

    /** `next_line`. */
    method NextLine()
      requires Valid() && 0 <= ypos < |line|
      modifies this`line, this`repr, this`xpos, this`ypos
      ensures Valid() && fresh(repr - old(repr))
      ensures old(ypos) + 1 < |old(Doc())| ==> Doc() == old(Doc())
      ensures old(ypos) + 1 == |old(Doc())| ==> Doc() == old(Doc()) + [BLANK_ROW]
      ensures ypos == old(ypos) + 1 < |Doc()|
      ensures xpos == Clamp(if lastXpos >= 0 then lastXpos else old(xpos), Doc()[ypos])
    {
      hide Zip;
      ypos := ypos + 1;
      if ypos >= |line| {
        PushBlank();
      }
      assert |line[ypos].text| == |Doc()[ypos].cells| by {
        TextLength(line[ypos]);
      }
      if lastXpos >= 0 {
        xpos := lastXpos;
      }
      if xpos > |line[ypos].text| {
        xpos := |line[ypos].text|;
      }
    }

    /** `try_prev_line`. */
    method TryPrevLine() returns (possible: bool)
      requires Valid() && 0 <= ypos <= |line|
      modifies this`xpos, this`ypos
      ensures possible == (old(ypos) > 0) && ypos == old(ypos) - (if possible then 1 else 0)
      ensures possible ==> xpos == Clamp(if lastXpos >= 0 then lastXpos else old(xpos), Doc()[ypos])
      ensures !possible ==> xpos == old(xpos)
    {
      if ypos == 0 {
        return false;
      }
      ypos := ypos - 1;
      if lastXpos >= 0 {
        xpos := lastXpos;
      }
      if xpos > |line[ypos].text| {
        xpos := |line[ypos].text|;
      }
      return true;
    }

    /** The document and the cursor. */
    ghost function Now(): Place
      requires Valid()
      reads this`line, this`repr, this`xpos, this`ypos, line
    {
      Place(Doc(), ypos, xpos)
    }

    /** The first branch of `rewrap`: unwrap from the previous line. */
    method UnwrapPrev() returns (redrawn: bool, moved: bool, ok: bool)
      requires Valid() && 0 < ypos < |line| && !line[ypos - 1].hardcr
      modifies this`line, this`xpos, this`ypos, repr
      ensures Valid() && Step(Now(), moved, ok) == UnwrapAbove(old(Now()), lastXpos, columns)
      ensures redrawn <==> UnwrapReturn(old(Doc())[old(ypos) - 1..], columns) != -1
    {
      hide Unwrap, UnwrapReturn, FinishUp, Offset;
      ghost var doc := Doc();
      UnwrapPrevCursor(doc, ypos, xpos, columns);
      var i;
      i, ok := UnwrapLine(ypos - 1);
      redrawn, moved := i != -1, false;
      if ok && i != -1 && xpos <= i {
        xpos := |line[ypos - 1].text| - (i - xpos);
        moved := TryPrevLine();
      }
    }

    /** The second branch of `rewrap`: unwrap from the current line. */
    method UnwrapHere() returns (moved: bool, ok: bool)
      requires Valid() && 0 <= ypos < |line|
      modifies this`line, repr
      ensures Valid() && Step(Now(), moved, ok) == UnwrapAt(old(Now()), columns)
    {
      hide Unwrap, UnwrapReturn, FinishUp;
      var i;
      i, ok := UnwrapLine(ypos);
      moved := i != -1;
    }

    /** The last branch of `rewrap`: wrap from the current line. */
    method WrapHere() returns (moved: bool, ok: bool)
      requires Valid() && 0 <= ypos < |line|
      modifies this`line, this`repr, this`xpos, this`ypos, repr
      ensures Valid() && Step(Now(), moved, ok) == WrapAt(old(Now()), lastXpos, columns)
    {
      hide Wrap, WrapReturn, Finish;
      WrapGrows(Doc(), ypos, columns);
      var oldlen := |line[ypos].text|;
      var i;
      i, ok := WrapLine(ypos);
      moved := false;
      if ok && i != -1 && xpos > |line[ypos].text| {
        xpos := xpos - oldlen + i;
        NextLine();
        moved := true;
      }
    }

    /** `rewrap`. Where the source returns undefined `redrawn` is false. */
    method Rewrap(cantUnwrapPrev: bool, cantUnwrap: bool, cantWrap: bool) returns (outcome: Outcome, redrawn: bool)
      requires Valid() && 0 <= ypos
      modifies this`line, this`repr, this`xpos, this`ypos, repr
      ensures Valid()
      ensures End(Now(), outcome, redrawn)
           == Rewrapped(old(Now()), lastXpos, cantUnwrapPrev, cantUnwrap, cantWrap, columns)
    {
      hide UnwrapAbove, Remaining, UnwrapReturn;
      if ypos >= |line| {
        return Returned, false;
      }
      AbovePlace(Now(), lastXpos, columns);
      var moved, ok := false, true;
      redrawn := false;
      if !cantUnwrapPrev && ypos > 0 {
        if !line[ypos - 1].hardcr {
          redrawn, moved, ok := UnwrapPrev();
          if !ok {
            return TypeError, false;
          }
        }
        if ypos >= |line| {
          return Returned, false;
        }
      }
      outcome, redrawn := RewrapHere(moved, redrawn, cantUnwrap, cantWrap);
    }

    /** `rewrap` behind its first branch. */
    method RewrapHere(moved: bool, drawn: bool, cantUnwrap: bool, cantWrap: bool)
      returns (outcome: Outcome, redrawn: bool)
      requires Valid() && 0 <= ypos < |line|
      modifies this`line, this`repr, this`xpos, this`ypos, repr
      ensures Valid()
      ensures End(Now(), outcome, redrawn)
           == Remaining(Step(old(Now()), moved, true), drawn, lastXpos, cantUnwrap, cantWrap, columns)
    {
      hide UnwrapAt, WrapAt;
      AtPlace(Now(), columns);
      var changed, ok := moved, true;
      redrawn := drawn || moved;
      if !cantUnwrap && !changed {
        changed, ok := UnwrapHere();
        if !ok {
          return TypeError, false;
        }
        redrawn := redrawn || changed;
      }
      if !cantWrap && !changed && ypos < |line| {
        changed, ok := WrapHere();
        if !ok {
          return GaveUp, false;
        }
        redrawn := redrawn || changed;
      }
      return Returned, redrawn;
    }
  }
}
