/** The IRC client's word wrap of a line with colour codes. */
module ScreenWrap {
  const CODE: char := '\U{01}'

  // A colour code is CODE and the character behind it; neither takes a place on the screen.

  /** How many characters of `s[a..b]` show, reading from `a`. */
  function Shown(s: string, a: nat, b: nat): nat
    decreases b - a
  {
    if a >= b || a >= |s| then 0
    else if s[a] == CODE then Shown(s, a + 2, b)
    else 1 + Shown(s, a + 1, b)
  }

  /** Reading from `a` comes past `b` without being inside a code there. */
  predicate Boundary(s: string, a: nat, b: nat)
    decreases b - a
  {
    a == b || (a < b && a < |s| && Boundary(s, if s[a] == CODE then a + 2 else a + 1, b))
  }

  lemma {:induction false} ShownGrows(s: string, a: nat, b: nat, c: nat)
    requires b <= c
    ensures Shown(s, a, b) <= Shown(s, a, c)
    decreases c - a
  {
    if a < b && a < |s| {
      ShownGrows(s, if s[a] == CODE then a + 2 else a + 1, b, c);
    }
  }

  lemma {:induction false} ShownSplit(s: string, a: nat, b: nat, c: nat)
    requires Boundary(s, a, b) && b <= c
    ensures Shown(s, a, c) == Shown(s, a, b) + Shown(s, b, c)
    ensures Boundary(s, b, c) ==> Boundary(s, a, c)
    decreases b - a
  {
    if a < b {
      ShownSplit(s, if s[a] == CODE then a + 2 else a + 1, b, c);
    }
  }

  /** Reading from `a` up to `b`, no space shows at `e` or behind. */
  predicate NoSpaceFrom(s: string, a: nat, b: nat, e: nat)
    decreases b - a
  {
    a >= b || a >= |s|
    || (if s[a] == CODE then NoSpaceFrom(s, a + 2, b, e) else (s[a] == ' ' ==> a < e) && NoSpaceFrom(s, a + 1, b, e))
  }

  lemma {:induction false} NoSpaceSplit(s: string, a: nat, b: nat, c: nat, e: nat)
    requires Boundary(s, a, b) && b <= c && NoSpaceFrom(s, a, b, e)
    ensures NoSpaceFrom(s, a, c, e) <==> NoSpaceFrom(s, b, c, e)
    decreases b - a
  {
    if a < b {
      NoSpaceSplit(s, if s[a] == CODE then a + 2 else a + 1, b, c, e);
    }
  }

  lemma {:induction false} NoSpaceLater(s: string, a: nat, b: nat, e: nat, f: nat)
    requires e <= f && NoSpaceFrom(s, a, b, e)
    ensures NoSpaceFrom(s, a, b, f)
    decreases b - a
  {
    if a < b && a < |s| {
      NoSpaceLater(s, if s[a] == CODE then a + 2 else a + 1, b, e, f);
    }
  }

  lemma {:induction false} NoSpaceBehind(s: string, a: nat, b: nat, c: nat, e: nat)
    requires Boundary(s, a, b) && b <= c && NoSpaceFrom(s, a, c, e)
    ensures NoSpaceFrom(s, b, c, e)
    decreases b - a
  {
    if a < b {
      NoSpaceBehind(s, if s[a] == CODE then a + 2 else a + 1, b, c, e);
    }
  }

  /** Where `n` characters have been shown and another one follows, or the text ends. */
  predicate FullAt(s: string, a: nat, j: nat, n: int) {
    a <= j <= |s| && Boundary(s, a, j) && Shown(s, a, j) == n && (j < |s| ==> s[j] != CODE)
  }

  lemma {:induction false} FullOnce(s: string, a: nat, j: nat, k: nat, n: int)
    requires FullAt(s, a, j, n) && FullAt(s, a, k, n)
    ensures j == k
    decreases |s| - a
  {
    if a < |s| && a < j && a < k {
      if s[a] == CODE {
        assert Boundary(s, a + 2, j) && Boundary(s, a + 2, k);
        FullOnce(s, a + 2, j, k, n);
      } else {
        FullOnce(s, a + 1, j, k, n - 1);
      }
    }
  }

  /** Reading comes past position `b` on the way to `c`. */
  lemma {:induction false} BoundaryBehind(s: string, a: nat, b: nat, c: nat)
    requires Boundary(s, a, b) && b <= c && Boundary(s, a, c)
    ensures Boundary(s, b, c)
    decreases b - a
  {
    if a < b {
      BoundaryBehind(s, if s[a] == CODE then a + 2 else a + 1, b, c);
    }
  }

  /** A row is full somewhere in front of `j`. */
  ghost predicate FullBefore(s: string, j: nat) {
    exists k: nat :: k < j && FullAt(s, 0, k, 78)
  }

  /** The first word is so long that the first row is full before a space shows behind its first letter. */
  ghost predicate FirstAlone(s: string) {
    exists j: nat :: FullAt(s, 0, j, 78) && (j < |s| ==> s[j] != ' ') && NoSpaceFrom(s, 0, j, 1)
  }

  /** A piece reaches as far as it can: the row was full before another space came. */
  ghost predicate Greedy(s: string, start: nat, end: nat) {
    exists j :: start <= j <= |s| && Shown(s, start, j) >= 77 && NoSpaceFrom(s, start, j, end)
  }

  /** What shows of a piece of `s` depends on the piece only. */
  lemma {:induction false} ShownPiece(s: string, a: nat, b: nat, k: nat)
    requires a + k <= b <= |s|
    ensures Shown(s, a + k, b) == Shown(s[a..b], k, b - a)
    decreases b - a - k
  {
    if a + k < b {
      assert s[a..b][k] == s[a + k];
      if s[a + k] == CODE {
        if a + k + 2 <= b {
          ShownPiece(s, a, b, k + 2);
        }
      } else {
        ShownPiece(s, a, b, k + 1);
      }
    }
  }

  /** Nothing but complete codes. */
  predicate Codes(p: string) {
    p == "" || (|p| >= 2 && p[0] == CODE && Codes(p[2..]))
  }

  lemma {:induction false} CodesJoin(p: string, q: string)
    requires Codes(p) && Codes(q)
    ensures Codes(p + q)
    decreases |p|
  {
    if p == "" {
      assert p + q == q;
    } else {
      CodesJoin(p[2..], q);
      assert (p + q)[2..] == p[2..] + q;
    }
  }

  /** Codes in front of a text do not show. */
  lemma {:induction false} CodesHidden(p: string, s: string)
    requires Codes(p)
    ensures Shown(p + s, 0, |p + s|) == Shown(s, 0, |s|)
    decreases |p|
  {
    var t := p + s;
    if p == "" {
      assert t == s;
    } else {
      CodesHidden(p[2..], s);
      assert t[2..] == p[2..] + s;
      ShownPiece(t, 2, |t|, 0);
      assert t[2..|t|] == t[2..];
    }
  }

  function Joined(segs: seq<string>): string {
    if segs == [] then "" else Joined(segs[..|segs| - 1]) + segs[|segs| - 1]
  }

  lemma JoinedSnoc(segs: seq<string>, s: string)
    ensures Joined(segs + [s]) == Joined(segs) + s
  {
    assert (segs + [s])[..|segs|] == segs;
  }

  /** What the screen keeps after `out` has been shifted in at the end. */
  function Scrolled(window: seq<string>, out: seq<string>): seq<string> {
    (window + out)[|out|..]
  }

  lemma ScrolledOne(window: seq<string>, out: seq<string>, s: string)
    requires window != []
    ensures Scrolled(window, out) != []
    ensures Scrolled(window, out)[1..] + [s] == Scrolled(window, out + [s])
  {
    assert window + (out + [s]) == (window + out) + [s];
  }

  /** The line written is the segment behind some codes. */
  ghost predicate Ends(out: string, seg: string) {
    |seg| <= |out| && out[|out| - |seg|..] == seg && Codes(out[..|out| - |seg|])
  }

  /** A line fits the screen and shows the segment. */
  ghost predicate Shows(out: string, seg: string) {
    Ends(out, seg) && Shown(out, 0, |out|) <= 79
  }

  /** A cut-off segment ends in a space or is full; only the first may be a lone character. */
  ghost predicate CutWell(segs: seq<string>, k: nat)
    requires k < |segs|
  {
    var s := segs[k];
    s != "" && (s[|s| - 1] == ' ' || Shown(s, 0, |s|) >= 77 || (k == 0 && |s| == 1))
  }

  ghost predicate CutsWell(segs: seq<string>, n: nat)
    requires n <= |segs|
  {
    forall k :: 0 <= k < n ==> CutWell(segs, k)
  }

  ghost predicate AllShow(outs: seq<string>, segs: seq<string>) {
    |outs| == |segs| && forall k :: 0 <= k < |segs| ==> Shows(outs[k], segs[k])
  }

  /** The text from `a` up to `b` or its end. */
  function Slice(text: string, a: nat, b: nat): string {
    if a >= |text| then "" else if b < a then "" else if b <= |text| then text[a..b] else text[a..]
  }

  function Rest(text: string, start: nat): string {
    if start <= |text| then text[start..] else ""
  }

  /** Where the loop stands. */
  ghost predicate At(text: string, start: nat, lastspace: int, j: nat, i: int, prev: string, last: string) {
    && start <= j <= |text| + 1
    && start - 1 <= lastspace <= |text| && lastspace <= j
    && (start == 0 ==> lastspace >= 0)
    && (start <= lastspace ==>
          || (start == 0 && lastspace == 0)
          || (lastspace < |text| && text[lastspace] == ' ' && Boundary(text, start, lastspace)))
    && (j <= |text| ==>
          Boundary(text, start, j) && i == Shown(text, start, j) + (if start == 0 then 0 else 1) && Codes(last)
          && NoSpaceFrom(text, start, j, lastspace + 1))
    && (start <= |text| < j ==> Shown(text, start, |text|) <= 78)
    && 0 <= i <= 78
    && Codes(prev)
  }

  lemma CodeStep(text: string, start: nat, lastspace: int, j: nat, i: int, prev: string,
                                    last: string)
    requires At(text, start, lastspace, j, i, prev, last)
    requires j < |text| && text[j] == CODE
    ensures At(text, start, lastspace, j + 2, i, prev,
               last + Slice(text, j, j + 2))
  {
    if j + 2 > |text| {
      ShownSplit(text, start, j, |text|);
      assert Shown(text, j, |text|) == Shown(text, j + 2, |text|) == 0;
    } else {
      assert Boundary(text, j + 2, j + 2);
      assert Boundary(text, j, j + 2);
      assert Shown(text, j, j + 2) == Shown(text, j + 2, j + 2) == 0;
      ShownSplit(text, start, j, j + 2);
      NoSpaceSplit(text, start, j, j + 2, lastspace + 1);
      assert NoSpaceFrom(text, j + 2, j + 2, lastspace + 1);
      assert text[j..j + 2][2..] == "";
      CodesJoin(last, text[j..j + 2]);
    }
  }

  lemma CharStep(text: string, start: nat, lastspace: int, j: nat, i: int, prev: string,
                                    last: string)
    requires At(text, start, lastspace, j, i, prev, last)
    requires j <= |text| && i < 78
    requires j < |text| ==> text[j] != CODE
    ensures At(text, start, if j < |text| && text[j] == ' ' then j else lastspace, j + 1, i + 1, prev, last)
  {
    if j < |text| {
      assert Boundary(text, j + 1, j + 1);
      assert Boundary(text, j, j + 1);
      assert Shown(text, j, j + 1) == 1 + Shown(text, j + 1, j + 1) == 1;
      ShownSplit(text, start, j, j + 1);
      var e := if text[j] == ' ' then j + 1 else lastspace + 1;
      NoSpaceLater(text, start, j, lastspace + 1, e);
      NoSpaceSplit(text, start, j, j + 1, e);
      assert NoSpaceFrom(text, j + 1, j + 1, e);
    }
  }

  /** The segment cut off when the row is full. */
  lemma FullRow(text: string, start: nat, lastspace: int, j: nat, i: int, prev: string,
                                   last: string, end: nat)
    requires At(text, start, lastspace, j, i, prev, last)
    requires start <= j <= |text| && i == 78
    requires j < |text| ==> text[j] != CODE
    requires start < end <= |text| && end <= j + 1
    ensures Shown(text[start..end], 0, end - start) <= 79
    ensures j <= end ==> Shown(text[start..end], 0, end - start) >= 77
  {
    ShownSplit(text, start, j, j + 1);
    ShownGrows(text, start, end, j + 1);
    if j <= end {
      ShownGrows(text, start, j, end);
    }
    ShownPiece(text, start, end, 0);
  }

  /** A segment behind codes is written as a line that shows it. */
  lemma Written(colour: string, seg: string)
    requires Codes(colour) && Shown(seg, 0, |seg|) <= 79
    ensures Shows(colour + seg, seg)
  {
    CodesHidden(colour, seg);
    var out := colour + seg;
    assert out[..|colour|] == colour && out[|colour|..] == seg;
  }

  lemma {:induction false} ShownAtMost(s: string, a: nat, b: nat)
    requires a <= b
    ensures Shown(s, a, b) <= b - a
    decreases b - a
  {
    if a < b && a < |s| {
      if s[a] == CODE && a + 1 < b {
        ShownAtMost(s, a + 2, b);
      } else if s[a] != CODE {
        ShownAtMost(s, a + 1, b);
      }
    }
  }

  /** What is left at the end fits a line. */
  lemma LastRow(text: string, start: nat, lastspace: int, j: nat, i: int, prev: string,
                                   last: string)
    requires At(text, start, lastspace, j, i, prev, last)
    requires j == |text| + 1 || (start == 0 && |text| <= 78)
    ensures Shown(Rest(text, start), 0, |Rest(text, start)|) <= 79
  {
    if start <= |text| {
      ShownPiece(text, start, |text|, 0);
      ShownAtMost(text, start, |text|);
      assert text[start..|text|] == text[start..];
    }
  }

  lemma Start(text: string, window: seq<string>)
    requires window != []
    ensures Done(text, 0, [], [], [], window, window)
    ensures At(text, 0, 0, 0, 0, "", "")
  {
  }

  lemma AtBounds(text: string, start: nat, lastspace: int, j: nat, i: int, prev: string, last: string)
    requires At(text, start, lastspace, j, i, prev, last)
    ensures start <= j <= |text| + 1 && start - 1 <= lastspace <= j && 0 <= i <= 78 && Codes(prev)
  {
  }

  lemma Fresh(text: string, start: nat, last: string)
    requires 0 < start <= |text| + 1 && Codes(last)
    ensures At(text, start, start - 1, start, 1, last, last)
  {
  }

  /** The cut made when the row is full: `space` is the last space up to and with the character at `j`. */
  lemma CutStep(text: string, start: nat, lastspace: int, j: nat, i: int, prev: string,
                                   last: string, space: int, cut: int)
    requires At(text, start, lastspace, j, i, prev, last)
    requires j <= |text| && i == 78
    requires j < |text| ==> text[j] != CODE
    requires space == if j < |text| && text[j] == ' ' then j else lastspace
    requires cut == if space == start - 1 then j else space
    ensures start <= cut <= j && start < |text|
    ensures var seg := Slice(text, start, cut + 1);
            Shows(prev + seg, seg) && Shows(last + seg, seg) && seg != ""
            && (seg[|seg| - 1] == ' ' || Shown(seg, 0, |seg|) >= 77 || (start == 0 && |seg| == 1))
    ensures Greedy(text, start, cut + 1)
    ensures At(text, cut + 1, cut, cut + 1, 1, last, last)
  {
    hide Codes, Shows;
    NoSpaceLater(text, start, j, lastspace + 1, cut + 1);
    ShownAtMost(text, start, j);
    var end := if cut + 1 <= |text| then cut + 1 else |text|;
    FullRow(text, start, lastspace, j, i, prev, last, end);
    var seg := text[start..end];
    assert seg == Slice(text, start, cut + 1);
    Written(prev, seg);
    Written(last, seg);
    Fresh(text, cut + 1, last);
  }

  /** The first cut is behind the first character exactly if the first word fills the row. */
  lemma FirstCut(text: string, lastspace: int, j: nat, i: int, prev: string, last: string, space: int, cut: int)
    requires At(text, 0, lastspace, j, i, prev, last)
    requires j <= |text| && i == 78
    requires j < |text| ==> text[j] != CODE
    requires space == if j < |text| && text[j] == ' ' then j else lastspace
    requires cut == if space == -1 then j else space
    ensures cut == 0 <==> FirstAlone(text)
  {
    ShownAtMost(text, 0, j);
    assert FullAt(text, 0, j, 78);
    if FirstAlone(text) {
      var k: nat :| FullAt(text, 0, k, 78) && (k < |text| ==> text[k] != ' ') && NoSpaceFrom(text, 0, k, 1);
      FullOnce(text, 0, j, k, 78);
      if lastspace > 0 {
        NoSpaceBehind(text, 0, lastspace, j, 1);
      }
    }
  }

  /** As long as nothing has been cut off, the row has not been full. */
  ghost predicate Track(text: string, segs: seq<string>, j: nat) {
    if segs == [] then !FullBefore(text, j) else FullBefore(text, |text| + 1)
  }

  lemma TrackCode(text: string, segs: seq<string>, lastspace: int, j: nat, i: int, prev: string, last: string,
                  start: nat)
    requires At(text, start, lastspace, j, i, prev, last) && Track(text, segs, j) && (segs == [] ==> start == 0)
    requires j < |text| && text[j] == CODE
    ensures Track(text, segs, j + 2)
  {
    if segs == [] {
      forall k: nat | k < j + 2 ensures !FullAt(text, 0, k, 78) {
        if k == j + 1 && Boundary(text, 0, k) {
          BoundaryBehind(text, 0, j, k);
        }
      }
    }
  }

  lemma TrackChar(text: string, segs: seq<string>, lastspace: int, j: nat, i: int, prev: string, last: string,
                  start: nat)
    requires At(text, start, lastspace, j, i, prev, last) && Track(text, segs, j) && (segs == [] ==> start == 0)
    requires j <= |text| && i < 78
    ensures Track(text, segs, j + 1)
  {
  }

  /** The first cut comes when the row is full. */
  lemma TrackCut(text: string, segs: seq<string>, lastspace: int, j: nat, i: int, prev: string, last: string,
                 start: nat, seg: string, next: nat)
    requires At(text, start, lastspace, j, i, prev, last) && Track(text, segs, j) && (segs == [] ==> start == 0)
    requires j <= |text| && i == 78
    requires j < |text| ==> text[j] != CODE
    ensures Track(text, segs + [seg], next)
  {
    if segs == [] {
      assert FullAt(text, 0, j, 78);
    }
  }

  lemma TrackStart(text: string)
    ensures Track(text, [], 0)
  {
  }

  lemma TrackEnd(text: string, segs: seq<string>, j: nat)
    requires Track(text, segs, j) && (|text| > 78 ==> j == |text| + 1)
    ensures |text| > 78 ==> (segs != [] <==> FullBefore(text, |text| + 1))
  {
  }

  /** The first piece is a lone character exactly if the first word fills the row. */
  ghost predicate FirstWell(text: string, segs: seq<string>) {
    segs != [] ==> (|segs[0]| == 1 <==> FirstAlone(text))
  }

  lemma FirstWellMore(text: string, segs: seq<string>, start: nat, cut: nat)
    requires FirstWell(text, segs) && (start == 0 ==> segs == []) && (segs == [] ==> start == 0)
    requires start == 0 ==> (cut == 0 <==> FirstAlone(text))
    requires cut <= |text| && |text| > 78
    ensures FirstWell(text, segs + [Slice(text, start, cut + 1)])
  {
    hide FirstAlone;
  }

  lemma DoneStart(text: string, start: nat, printed: seq<string>, kept: seq<string>, segs: seq<string>,
                  window: seq<string>, line: seq<string>, starts: seq<nat>)
    requires Done(text, start, printed, kept, segs, window, line) && Pieces(text, segs, starts, start, |segs|)
    ensures segs == [] <==> start == 0
  {
  }

  lemma NoFirst(text: string)
    ensures FirstWell(text, [])
  {
  }

  lemma FirstMeans(text: string, segs: seq<string>)
    ensures FirstWell(text, segs) && segs != [] ==> (|segs[0]| == 1 <==> FirstAlone(text))
  {
  }

  lemma FirstStays(text: string, segs: seq<string>, seg: string)
    requires FirstWell(text, segs)
    ensures segs != [] ==> FirstWell(text, segs + [seg])
  {
    hide FirstAlone;
  }

  /** A word of more than 78 letters is cut behind its first. */
  lemma LongWordAlone(text: string)
    requires |text| >= 78 && forall k :: 0 <= k < |text| ==> text[k] != CODE && text[k] != ' '
    ensures FirstAlone(text)
  {
    LettersShow(text, 0, 78);
    assert FullAt(text, 0, 78, 78);
  }

  lemma {:induction false} LettersShow(text: string, a: nat, b: nat)
    requires a <= b <= |text| && forall k :: 0 <= k < |text| ==> text[k] != CODE && text[k] != ' '
    ensures Boundary(text, a, b) && Shown(text, a, b) == b - a && NoSpaceFrom(text, a, b, 1)
    decreases b - a
  {
    if a < b {
      LettersShow(text, a + 1, b);
    }
  }

  lemma RestIsSlice(text: string, start: nat)
    ensures Rest(text, start) == Slice(text, start, |text|)
  {
  }

  lemma RestSplit(text: string, start: nat, end: nat)
    requires start <= end
    ensures Rest(text, start) == Slice(text, start, end) + Rest(text, end)
  {
  }

  /** One more segment. */
  lemma Snoc(text: string, start: nat, end: nat, segs: seq<string>, outs: seq<string>,
                                out: string)
    requires start < end && start < |text|
    requires Joined(segs) + Rest(text, start) == text
    requires AllShow(outs, segs) && Shows(out, Slice(text, start, end))
    ensures Joined(segs + [Slice(text, start, end)]) + Rest(text, end) == text
    ensures AllShow(outs + [out], segs + [Slice(text, start, end)])
  {
    hide Joined, Shows;
    var seg := Slice(text, start, end);
    JoinedSnoc(segs, seg);
    RestSplit(text, start, end);
    assert Joined(segs) + (seg + Rest(text, end)) == (Joined(segs) + seg) + Rest(text, end);
  }

  /** The last segment. */
  lemma SnocLast(text: string, start: nat, segs: seq<string>, outs: seq<string>, out: string)
    requires Joined(segs) + Rest(text, start) == text
    requires AllShow(outs, segs) && Shows(out, Rest(text, start))
    ensures Joined(segs + [Rest(text, start)]) == text
    ensures AllShow(outs + [out], segs + [Rest(text, start)])
  {
    hide Joined, Shows;
    JoinedSnoc(segs, Rest(text, start));
  }

  lemma CutsMore(segs: seq<string>, seg: string, start: nat)
    requires CutsWell(segs, |segs|) && seg != "" && (start == 0 ==> segs == [])
    requires seg[|seg| - 1] == ' ' || Shown(seg, 0, |seg|) >= 77 || (start == 0 && |seg| == 1)
    ensures CutsWell(segs + [seg], |segs| + 1)
  {
    var more := segs + [seg];
    forall k | 0 <= k < |segs| + 1 ensures CutWell(more, k) {
      if k < |segs| {
        assert CutWell(segs, k);
        assert more[k] == segs[k];
      }
    }
  }

  lemma CutsKept(segs: seq<string>, seg: string)
    requires CutsWell(segs, |segs|)
    ensures CutsWell(segs + [seg], |segs|)
  {
    forall k | 0 <= k < |segs| ensures CutWell(segs + [seg], k) {
      assert CutWell(segs, k);
      assert (segs + [seg])[k] == segs[k];
    }
  }

  /** The pieces are consecutive and, but for the last, greedy; `next` is where the piece behind them begins. */
  ghost predicate Pieces(text: string, segs: seq<string>, starts: seq<nat>, next: nat, greedy: nat) {
    && |starts| == |segs| && greedy <= |segs|
    && (if starts == [] then next == 0 else starts[0] == 0)
    && (forall k :: 0 <= k < |segs| ==> segs[k] == Slice(text, starts[k], Next(starts, next, k)))
    && (forall k :: 0 <= k < greedy ==> Greedy(text, starts[k], Next(starts, next, k)))
  }

  function Next(starts: seq<nat>, next: nat, k: nat): nat
    requires k < |starts|
  {
    if k + 1 < |starts| then starts[k + 1] else next
  }

  lemma PiecesMore(text: string, segs: seq<string>, starts: seq<nat>, start: nat, end: nat)
    requires Pieces(text, segs, starts, start, |segs|)
    ensures Pieces(text, segs + [Slice(text, start, end)], starts + [start], end, |segs|)
    ensures Greedy(text, start, end) ==>
              Pieces(text, segs + [Slice(text, start, end)], starts + [start], end, |segs| + 1)
  {
    hide Slice, Greedy;
    var more := starts + [start];
    assert forall k :: 0 <= k < |segs| ==> more[k] == starts[k] && Next(more, end, k) == Next(starts, start, k);
  }

  lemma PiecesNone(text: string)
    ensures Pieces(text, [], [], 0, 0)
  {
  }

  /** What is printed and kept for the text before `start`. */
  ghost predicate Done(text: string, start: nat, printed: seq<string>, kept: seq<string>, segs: seq<string>,
                       window: seq<string>, line: seq<string>)
  {
    && Joined(segs) + Rest(text, start) == text
    && AllShow(printed, segs) && AllShow(kept, segs)
    && CutsWell(segs, |segs|) && (start == 0 ==> segs == [])
    && window != [] && line != [] && line == Scrolled(window, kept)
  }

  lemma DoneMore(text: string, start: nat, end: nat, shown: string, put: string,
                                    printed: seq<string>, kept: seq<string>, segs: seq<string>,
                                    window: seq<string>, line: seq<string>)
    requires Done(text, start, printed, kept, segs, window, line)
    requires start < end && start < |text|
    requires var seg := Slice(text, start, end);
             Shows(shown, seg) && Shows(put, seg) && seg != ""
             && (seg[|seg| - 1] == ' ' || Shown(seg, 0, |seg|) >= 77 || (start == 0 && |seg| == 1))
    ensures line != []
    ensures Done(text, end, printed + [shown], kept + [put], segs + [Slice(text, start, end)], window,
                 line[1..] + [put])
  {
    hide Joined, Shows, Shown, Rest, AllShow, CutsWell, Scrolled;
    var seg := Slice(text, start, end);
    Snoc(text, start, end, segs, printed, shown);
    Snoc(text, start, end, segs, kept, put);
    CutsMore(segs, seg, start);
    ScrolledOne(window, kept, put);
  }

  lemma DoneAll(text: string, start: nat, put: string, printed: seq<string>, kept: seq<string>,
                                   segs: seq<string>, window: seq<string>, line: seq<string>)
    requires Done(text, start, printed, kept, segs, window, line)
    requires Shows(put, Rest(text, start))
    ensures line != [] && var all := segs + [Rest(text, start)];
            Joined(all) == text && CutsWell(all, |segs|)
            && AllShow(printed + [put], all) && AllShow(kept + [put], all)
            && line[1..] + [put] == Scrolled(window, kept + [put])
  {
    hide Joined, Shows, Rest, AllShow, CutsWell, Scrolled;
    SnocLast(text, start, segs, printed, put);
    SnocLast(text, start, segs, kept, put);
    CutsKept(segs, Rest(text, start));
    ScrolledOne(window, kept, put);
  }

  // ---------------------------------------------------------------- colours

  /** The colour codes met when reading from `a` up to `b`. */
  function CodesIn(s: string, a: nat, b: nat): string
    decreases b - a
  {
    if a >= b || a >= |s| then ""
    else if s[a] == CODE then Slice(s, a, a + 2) + CodesIn(s, a + 2, b)
    else CodesIn(s, a + 1, b)
  }

  lemma {:induction false} CodesInSplit(s: string, a: nat, b: nat, c: nat)
    requires Boundary(s, a, b) && b <= c
    ensures CodesIn(s, a, c) == CodesIn(s, a, b) + CodesIn(s, b, c)
    decreases b - a
  {
    if a < b {
      CodesInSplit(s, if s[a] == CODE then a + 2 else a + 1, b, c);
    }
  }

  /** All codes met in front of piece `k`, those that are read again after a cut included: each row is read
      from its start to the place where it was full. */
  function Colours(s: string, starts: seq<nat>, stops: seq<nat>, k: nat): string
    requires k <= |starts| && k <= |stops|
  {
    if k == 0 then "" else Colours(s, starts, stops, k - 1) + CodesIn(s, starts[k - 1], stops[k - 1])
  }

  lemma {:induction false} ColoursMore(s: string, starts: seq<nat>, stops: seq<nat>, start: nat, stop: nat, k: nat)
    requires k <= |starts| && k <= |stops|
    ensures Colours(s, starts + [start], stops + [stop], k) == Colours(s, starts, stops, k)
    ensures Colours(s, starts + [start], stops, k) == Colours(s, starts, stops, k)
    decreases k
  {
    if k > 0 {
      ColoursMore(s, starts, stops, start, stop, k - 1);
    }
  }

  /** The colours in force in front of the row, and those met so far. */
  ghost predicate Hue(s: string, start: nat, j: nat, prev: string, last: string, starts: seq<nat>, stops: seq<nat>) {
    && |starts| == |stops|
    && prev == Colours(s, starts, stops, |stops|)
    && (j <= |s| ==> Boundary(s, start, j) && last == prev + CodesIn(s, start, j))
  }

  /** Each cut row is printed in the colours met in front of it, and kept in those met by its end. */
  ghost predicate Coloured(s: string, printed: seq<string>, kept: seq<string>, segs: seq<string>, starts: seq<nat>,
                           stops: seq<nat>)
  {
    && |stops| <= |starts| && |stops| <= |segs| && |stops| <= |printed| && |stops| <= |kept|
    && forall k :: 0 <= k < |stops| ==>
         && FullAt(s, starts[k], stops[k], if starts[k] == 0 then 78 else 77)
         && printed[k] == Colours(s, starts, stops, k) + segs[k]
         && kept[k] == Colours(s, starts, stops, k + 1) + segs[k]
  }

  lemma HueStart(s: string)
    ensures Hue(s, 0, 0, "", "", [], []) && Coloured(s, [], [], [], [], [])
  {
  }

  lemma HueCode(s: string, start: nat, j: nat, prev: string, last: string, starts: seq<nat>, stops: seq<nat>)
    requires Hue(s, start, j, prev, last, starts, stops) && j < |s| && s[j] == CODE
    ensures Hue(s, start, j + 2, prev, last + Slice(s, j, j + 2), starts, stops)
  {
    if j + 2 <= |s| {
      assert Boundary(s, j + 2, j + 2) && Boundary(s, j, j + 2);
      ShownSplit(s, start, j, j + 2);
      CodesInSplit(s, start, j, j + 2);
      assert CodesIn(s, j, j + 2) == Slice(s, j, j + 2) + CodesIn(s, j + 2, j + 2);
    }
  }

  lemma HueChar(s: string, start: nat, j: nat, prev: string, last: string, starts: seq<nat>, stops: seq<nat>)
    requires Hue(s, start, j, prev, last, starts, stops) && j <= |s| && (j < |s| ==> s[j] != CODE)
    ensures Hue(s, start, j + 1, prev, last, starts, stops)
  {
    if j < |s| {
      assert Boundary(s, j + 1, j + 1) && Boundary(s, j, j + 1);
      ShownSplit(s, start, j, j + 1);
      CodesInSplit(s, start, j, j + 1);
      assert CodesIn(s, j, j + 1) == CodesIn(s, j + 1, j + 1);
    }
  }

  lemma HueCut(s: string, start: nat, lastspace: int, j: nat, i: int, prev: string, last: string, starts: seq<nat>,
               stops: seq<nat>, next: nat, printed: seq<string>, kept: seq<string>, segs: seq<string>, seg: string)
    requires At(s, start, lastspace, j, i, prev, last) && j <= |s| && i == 78 && (j < |s| ==> s[j] != CODE)
    requires Hue(s, start, j, prev, last, starts, stops)
    requires Coloured(s, printed, kept, segs, starts, stops) && |printed| == |kept| == |segs| == |stops|
    ensures Hue(s, next, next, last, last, starts + [start], stops + [j])
    ensures Coloured(s, printed + [prev + seg], kept + [last + seg], segs + [seg], starts + [start], stops + [j])
  {
    hide Colours, Codes, NoSpaceFrom, CodesIn;
    var n := |stops|;
    var more, ends := starts + [start], stops + [j];
    forall k | 0 <= k <= n ensures Colours(s, more, ends, k) == Colours(s, starts, stops, k) {
      ColoursMore(s, starts, stops, start, j, k);
    }
    ColoursNext(s, more, ends, n);
    NoCodes(s, next);
    assert last + "" == last;
  }

  lemma ColoursNext(s: string, starts: seq<nat>, stops: seq<nat>, k: nat)
    requires k < |starts| && k < |stops|
    ensures Colours(s, starts, stops, k + 1) == Colours(s, starts, stops, k) + CodesIn(s, starts[k], stops[k])
  {
  }

  lemma NoCodes(s: string, a: nat)
    ensures CodesIn(s, a, a) == "" && Boundary(s, a, a)
  {
  }

  /** The last row is printed and kept in the colours met in front of it. */
  lemma HueEnd(s: string, start: nat, j: nat, prev: string, last: string, starts: seq<nat>, stops: seq<nat>,
               printed: seq<string>, kept: seq<string>, segs: seq<string>, seg: string)
    requires Hue(s, start, j, prev, last, starts, stops)
    requires Coloured(s, printed, kept, segs, starts, stops) && |printed| == |kept| == |segs| == |stops|
    ensures var n, all := |stops|, starts + [start];
      && Coloured(s, printed + [prev + seg], kept + [prev + seg], segs + [seg], all, stops)
      && (printed + [prev + seg])[n] == Colours(s, all, stops, n) + (segs + [seg])[n]
      && (kept + [prev + seg])[n] == Colours(s, all, stops, n) + (segs + [seg])[n]
  {
    hide Colours, FullAt;
    forall k | 0 <= k <= |stops| ensures Colours(s, starts + [start], stops, k) == Colours(s, starts, stops, k) {
      ColoursMore(s, starts, stops, start, 0, k);
    }
  }

  lemma Lengths(printed: seq<string>, kept: seq<string>, segs: seq<string>, starts: seq<nat>, stops: seq<nat>,
                text: string, start: nat, j: nat, prev: string, last: string, window: seq<string>, line: seq<string>)
    requires Done(text, start, printed, kept, segs, window, line) && Pieces(text, segs, starts, start, |segs|)
    requires Hue(text, start, j, prev, last, starts, stops)
    ensures |printed| == |kept| == |segs| == |stops|
  {
  }

  class Screen {
    var line: seq<string>

    /** The wrapping part of `print_line`: what it prints, and the lines it shifts into the
        screen. `segs` are the pieces the text is cut into. */
    method PrintLine(text: string)
      returns (printed: seq<string>, ghost kept: seq<string>, ghost segs: seq<string>, ghost starts: seq<nat>,
               ghost stops: seq<nat>)
      requires line != []
      modifies this
      ensures segs != [] && Joined(segs) == text
      ensures AllShow(printed, segs) && AllShow(kept, segs)
      ensures CutsWell(segs, |segs| - 1) && Pieces(text, segs, starts, |text|, |segs| - 1)
      ensures |segs| > 1 <==> |text| > 78 && FullBefore(text, |text| + 1)
      ensures |segs| > 1 ==> (|segs[0]| == 1 <==> FirstAlone(text))
      ensures |stops| == |segs| - 1 && Coloured(text, printed, kept, segs, starts, stops)
      ensures printed[|stops|] == Colours(text, starts, stops, |stops|) + segs[|stops|]
      ensures kept[|stops|] == Colours(text, starts, stops, |stops|) + segs[|stops|]
      ensures line == Scrolled(old(line), kept)
    {
      hide Hue, Coloured, Colours;
      hide FirstWell, FirstAlone, Track, FullBefore;
      hide Shown, Boundary, Codes, Joined, Shows, At, AllShow, CutsWell, Scrolled, Slice, Rest, Done, Pieces, Greedy;
      ghost var window := line;
      var i, lastspace, linestart := 0, 0, 0;
      var prevColour, lastColour := "", "";
      printed, kept, segs, starts, stops := [], [], [], [], [];
      PiecesNone(text);
      HueStart(text);
      var j := 0;
      Start(text, line);
      NoFirst(text);
      TrackStart(text);
      if |text| > 78 {
        while j <= |text|
          invariant At(text, linestart, lastspace, j, i, prevColour, lastColour)
          invariant Done(text, linestart, printed, kept, segs, window, line)
          invariant Pieces(text, segs, starts, linestart, |segs|)
          invariant FirstWell(text, segs) && Track(text, segs, j)
          invariant Hue(text, linestart, j, prevColour, lastColour, starts, stops)
          invariant Coloured(text, printed, kept, segs, starts, stops)
          decreases |text| + 1 - linestart, |text| + 1 - j
        {
          AtBounds(text, linestart, lastspace, j, i, prevColour, lastColour);
          DoneStart(text, linestart, printed, kept, segs, window, line, starts);
          if j < |text| && text[j] == CODE {
            HueCode(text, linestart, j, prevColour, lastColour, starts, stops);
            TrackCode(text, segs, lastspace, j, i, prevColour, lastColour, linestart);
            CodeStep(text, linestart, lastspace, j, i, prevColour, lastColour);
            lastColour := lastColour + Slice(text, j, j + 2);
            j := j + 1;
          } else {
            if i < 78 {
              HueChar(text, linestart, j, prevColour, lastColour, starts, stops);
              TrackChar(text, segs, lastspace, j, i, prevColour, lastColour, linestart);
              CharStep(text, linestart, lastspace, j, i, prevColour, lastColour);
            }
            ghost var before := lastspace;
            if j < |text| && text[j] == ' ' {
              lastspace := j;
            }
            if i >= 78 {
              ghost var space := lastspace;
              if lastspace == linestart - 1 {
                lastspace := j;
              }
              ghost var seg := Slice(text, linestart, lastspace + 1);
              CutStep(text, linestart, before, j, i, prevColour, lastColour, space, lastspace);
              Lengths(printed, kept, segs, starts, stops, text, linestart, j, prevColour, lastColour, window, line);
              HueCut(text, linestart, before, j, i, prevColour, lastColour, starts, stops, lastspace + 1, printed, kept,
                     segs, seg);
              TrackCut(text, segs, before, j, i, prevColour, lastColour, linestart, seg, lastspace + 1);
              if linestart == 0 {
                FirstCut(text, before, j, i, prevColour, lastColour, space, lastspace);
              }
              FirstWellMore(text, segs, linestart, lastspace);
              DoneMore(text, linestart, lastspace + 1, prevColour + seg, lastColour + seg, printed, kept, segs, window,
                       line);
              printed := printed + [prevColour + Slice(text, linestart, lastspace + 1)];
              prevColour := lastColour;
              line := line[1..] + [prevColour + Slice(text, linestart, lastspace + 1)];
              PiecesMore(text, segs, starts, linestart, lastspace + 1);
              kept, segs, starts, stops := kept + [prevColour + seg], segs + [seg], starts + [linestart], stops + [j];
              linestart := lastspace + 1;
              j := lastspace;
              i := 0;
            }
            i := i + 1;
          }
          j := j + 1;
        }
      }
      AtBounds(text, linestart, lastspace, j, i, prevColour, lastColour);
      LastRow(text, linestart, lastspace, j, i, prevColour, lastColour);
      TrackEnd(text, segs, j);
      Written(prevColour, Rest(text, linestart));
      Lengths(printed, kept, segs, starts, stops, text, linestart, j, prevColour, lastColour, window, line);
      HueEnd(text, linestart, j, prevColour, lastColour, starts, stops, printed, kept, segs, Rest(text, linestart));
      DoneAll(text, linestart, prevColour + Rest(text, linestart), printed, kept, segs, window, line);
      PiecesMore(text, segs, starts, linestart, |text|);
      FirstStays(text, segs, Rest(text, linestart));
      FirstMeans(text, segs + [Rest(text, linestart)]);
      RestIsSlice(text, linestart);
      starts := starts + [linestart];
      segs, kept := segs + [Rest(text, linestart)], kept + [prevColour + Rest(text, linestart)];
      if i <= 78 {
        printed := printed + [prevColour + Rest(text, linestart)];
        line := line[1..] + [prevColour + Rest(text, linestart)];
      }
    }
  }
}
