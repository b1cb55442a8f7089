/** A weight of the paragraph breaks that no unwrap raises: an unwrap only moves breaks later in the
    text or drops them. */
module BreakWeights {
  import opened Document
  import opened Reflow
  import opened Cursor

  /** Each hard row counts for itself and for all characters below it. */
  function Weight(rows: seq<Row>): nat {
    if rows == [] then 0
    else (if rows[0].hard then 1 + |Chars(rows[1..])| else 0) + Weight(rows[1..])
  }

  function InkCount(s: seq<Item>): nat {
    if s == [] then 0 else (if s[0].Ink? then 1 else 0) + InkCount(s[1..])
  }

  function StreamWeight(s: seq<Item>): nat {
    if s == [] then 0 else (if s[0].Break? then 1 + InkCount(s[1..]) else 0) + StreamWeight(s[1..])
  }

  lemma {:induction false} InksInFront(cells: seq<Glyph>, t: seq<Item>)
    ensures InkCount(Inks(cells) + t) == |cells| + InkCount(t)
    ensures StreamWeight(Inks(cells) + t) == StreamWeight(t)
    decreases |cells|
  {
    if cells == [] {
      assert Inks(cells) + t == t;
    } else {
      var s := Inks(cells) + t;
      assert s[0] == Ink(cells[0]) && s[1..] == Inks(cells[1..]) + t;
      InksInFront(cells[1..], t);
    }
  }

  /** The weight can be read off the stream. */
  lemma {:induction false} WeightOfStream(rows: seq<Row>)
    ensures StreamWeight(Stream(rows)) == Weight(rows) && InkCount(Stream(rows)) == |Chars(rows)|
    decreases |rows|
  {
    if rows != [] {
      var r, below := rows[0], Stream(rows[1..]);
      WeightOfStream(rows[1..]);
      var behind := if r.hard then [Break] + below else below;
      assert Stream(rows) == Inks(r.cells) + behind by {
        Assoc(Inks(r.cells), [Break], below);
      }
      InksInFront(r.cells, behind);
      assert r.hard ==> behind[1..] == below;
    }
  }

  lemma SameStream(a: seq<Row>, b: seq<Row>)
    requires Stream(a) == Stream(b)
    ensures Weight(a) == Weight(b)
  {
    WeightOfStream(a);
    WeightOfStream(b);
  }

  lemma WeightTwo(rows: seq<Row>)
    requires |rows| >= 2
    ensures Weight(rows)
         == (if rows[0].hard then 1 + |rows[1].cells| + |Chars(rows[2..])| else 0)
            + (if rows[1].hard then 1 + |Chars(rows[2..])| else 0) + Weight(rows[2..])
  {
    assert rows[1..][0] == rows[1] && rows[1..][1..] == rows[2..];
    assert Chars(rows[1..]) == rows[1].cells + Chars(rows[2..]);
  }

  lemma PullUpWeight(rows: seq<Row>, n: nat)
    requires |rows| >= 2 && n <= |rows[1].cells|
    ensures Weight(PullUp(rows, n)) == Weight(rows) - (if rows[0].hard then n else 0)
  {
    WeightTwo(rows);
    WeightTwo(PullUp(rows, n));
    assert PullUp(rows, n)[2..] == rows[2..];
  }

  lemma AbsorbWeight(rows: seq<Row>)
    requires |rows| >= 2
    ensures Weight(Absorb(rows)) <= Weight(rows)
    ensures Weight(Absorb(rows)) < Weight(rows) <==> rows[0].hard && rows[1].cells == []
  {
    if rows[1].cells == [] {
      WeightTwo(rows);
      assert Absorb(rows)[1..] == rows[2..];
    }
  }

  lemma RefillWeight(a: seq<Row>, w: int)
    requires |a| >= 2
    ensures var (b, n) := Refill(a, w);
      && Weight(b) <= Weight(a)
      && (Weight(b) < Weight(a) <==> a[0].hard && (n > 0 || a[1].cells == []))
  {
    hide Absorb, PullUp, WordsFitting, Weight;
    var n := WordsFitting(a[1].cells, Room(a[0], w));
    if n > 0 {
      PulledUp(a, n);
      PullUpWeight(a, n);
      AbsorbWeight(PullUp(a, n));
    } else {
      AbsorbWeight(a);
      UnmarkedWeight(Absorb(a));
    }
  }

  lemma PulledUp(a: seq<Row>, n: nat)
    requires |a| >= 2 && n <= |a[1].cells|
    ensures |PullUp(a, n)| == |a| && PullUp(a, n)[0].hard == a[0].hard
  {
  }

  lemma UnmarkedWeight(rows: seq<Row>)
    requires rows != []
    ensures Weight(SetKludged(rows, false)) == Weight(rows)
  {
    assert SetKludged(rows, false)[1..] == rows[1..];
  }

  /** An unwrap never adds weight, and takes some exactly when it harms a break. */
  lemma {:induction false} UnwrapWeight(rows: seq<Row>, w: int)
    ensures Weight(Unwrap(rows, w).rows) <= Weight(rows)
    ensures Weight(Unwrap(rows, w).rows) < Weight(rows) <==> HarmsBreak(rows, w)
    decreases |rows|
  {
    if MayPull(rows, w) {
      hide Unkludge, Refill;
      var a := Unkludge(rows, w).0;
      UnkludgeStream(rows, w);
      SameStream(a, rows);
      if |a| >= 2 {
        var (b, n) := Refill(a, w);
        RefillWeight(a, w);
        if n > 0 {
          UnwrapWeight(b[1..], w);
          UnwrapKeepsChars(b[1..], w);
          var rec := Unwrap(b[1..], w).rows;
          assert ([b[0]] + rec)[1..] == rec;
        }
      }
    }
  }

  /** Rows above do not matter when the text below them stays the same. */
  lemma {:induction false} WeightBehind(above: seq<Row>, a: seq<Row>, b: seq<Row>)
    requires |Chars(a)| == |Chars(b)|
    ensures Weight(above + a) - Weight(above + b) == Weight(a) - Weight(b)
    decreases |above|
  {
    if above == [] {
      assert above + a == a && above + b == b;
    } else {
      var rest := above[1..];
      assert (above + a)[1..] == rest + a && (above + b)[1..] == rest + b;
      WeightBehind(rest, a, b);
      CharsSplit(rest, a);
      CharsSplit(rest, b);
    }
  }

  lemma FinishUpWeight(doc: seq<Row>, l: nat, w: int)
    requires l <= |doc|
    ensures Weight(FinishUp(doc, l, w)) <= Weight(doc)
    ensures Weight(FinishUp(doc, l, w)) < Weight(doc) <==> HarmsBreak(doc[l..], w)
  {
    hide Weight, Unwrap, HarmsBreak;
    UnwrapWeight(doc[l..], w);
    UnwrapKeepsChars(doc[l..], w);
    WeightBehind(doc[..l], Unwrap(doc[l..], w).rows, doc[l..]);
    assert doc == doc[..l] + doc[l..];
  }

  lemma FinishUpStream(doc: seq<Row>, l: nat, w: int)
    requires l <= |doc|
    ensures Stream(FinishUp(doc, l, w)) == Stream(doc) <==> !HarmsBreak(doc[l..], w)
  {
    hide Unwrap, HarmsBreak, Stream;
    UnwrapKeepsStream(doc[l..], w);
    assert doc == doc[..l] + doc[l..];
    StreamSplit(doc[..l], doc[l..]);
    StreamSplit(doc[..l], Unwrap(doc[l..], w).rows);
    SamePrefix(Stream(doc[..l]), Stream(Unwrap(doc[l..], w).rows), Stream(doc[l..]));
  }
}
