/** The full-screen editor's document as a value: rows of coloured characters, and
    the stream of characters and paragraph breaks that the rows spell out. */
module Document {
  /** A console attribute byte: blink, 3 bits of background, intensity, 3 bits of foreground. */
  type Attr = bv8

  datatype Glyph = Glyph(c: char, a: Attr)

  /** What one `Line` object holds. `hard` is its hard carriage return, `kludged` says
      that it was cut inside a word. */
  datatype Row = Row(cells: seq<Glyph>, hard: bool, kludged: bool)

  /** One element of the document read from start to end. */
  datatype Item = Ink(g: Glyph) | Break

  const BLANK_ROW := Row([], false, false)

  /** The regular expression class `\s` on 8-bit characters. */
  predicate IsSpace(c: char) {
    c in {' ', '\t', '\n', '\r', '\U{0B}', '\U{0C}', '\U{A0}'}
  }

  function Inks(cells: seq<Glyph>): seq<Item> {
    seq(|cells|, i requires 0 <= i < |cells| => Ink(cells[i]))
  }

  function Items(r: Row): seq<Item> {
    Inks(r.cells) + (if r.hard then [Break] else [])
  }

  function Stream(rows: seq<Row>): seq<Item> {
    if rows == [] then [] else Items(rows[0]) + Stream(rows[1..])
  }

  function Chars(rows: seq<Row>): seq<Glyph> {
    if rows == [] then [] else rows[0].cells + Chars(rows[1..])
  }

  /** Moving a boundary between two pieces of text does not change what they spell. */
  lemma InksJoin(a: seq<Glyph>, b: seq<Glyph>)
    ensures Inks(a + b) == Inks(a) + Inks(b)
  {
  }

  lemma SoftItems(r: Row)
    requires !r.hard
    ensures Items(r) == Inks(r.cells)
  {
  }

  lemma StreamCons(r: Row, rows: seq<Row>)
    ensures Stream([r] + rows) == Items(r) + Stream(rows)
  {
    assert ([r] + rows)[1..] == rows;
  }

  lemma CharsCons(r: Row, rows: seq<Row>)
    ensures Chars([r] + rows) == r.cells + Chars(rows)
  {
    assert ([r] + rows)[1..] == rows;
  }

  lemma Assoc<T>(a: seq<T>, b: seq<T>, c: seq<T>)
    ensures (a + b) + c == a + (b + c)
  {
  }

  lemma {:induction false} StreamSplit(a: seq<Row>, b: seq<Row>)
    ensures Stream(a + b) == Stream(a) + Stream(b)
  {
    if a == [] {
      assert a + b == b;
    } else {
      var rest := a[1..];
      assert a + b == [a[0]] + (rest + b);
      StreamCons(a[0], rest + b);
      StreamSplit(rest, b);
      Assoc(Items(a[0]), Stream(rest), Stream(b));
    }
  }

  lemma {:induction false} CharsSplit(a: seq<Row>, b: seq<Row>)
    ensures Chars(a + b) == Chars(a) + Chars(b)
  {
    if a == [] {
      assert a + b == b;
    } else {
      var rest := a[1..];
      assert a + b == [a[0]] + (rest + b);
      CharsCons(a[0], rest + b);
      CharsSplit(rest, b);
      Assoc(a[0].cells, Chars(rest), Chars(b));
    }
  }

  /** End of the whitespace run that starts at `k`. */
  function RunEnd(cells: seq<Glyph>, k: nat): (e: nat)
    requires k <= |cells|
    ensures k <= e <= |cells|
    ensures forall i :: k <= i < e ==> IsSpace(cells[i].c)
    ensures e < |cells| ==> !IsSpace(cells[e].c)
    decreases |cells| - k
  {
    if k < |cells| && IsSpace(cells[k].c) then RunEnd(cells, k + 1) else k
  }

  /** Length without trailing whitespace. */
  function TrimmedLen(cells: seq<Glyph>): (n: nat)
    ensures n <= |cells|
    ensures forall i :: n <= i < |cells| ==> IsSpace(cells[i].c)
    ensures n > 0 ==> !IsSpace(cells[n - 1].c)
  {
    if cells == [] || !IsSpace(cells[|cells| - 1].c) then |cells| else TrimmedLen(cells[..|cells| - 1])
  }

  lemma TrimmedAtMost(cells: seq<Glyph>, n: nat)
    requires n <= |cells|
    requires forall i :: n <= i < |cells| ==> IsSpace(cells[i].c)
    ensures TrimmedLen(cells) <= n
  {
  }

  /** A place where a row may be cut between words: whitespace after at least one
      character, with something other than whitespace further on. */
  predicate GapAt(cells: seq<Glyph>, k: nat) {
    1 <= k < |cells| && IsSpace(cells[k].c) && RunEnd(cells, k) < |cells|
  }

  /** The last gap at or before `k`, or 0. */
  function LastGap(cells: seq<Glyph>, k: nat): (g: nat)
    ensures g <= k
    ensures g != 0 ==> GapAt(cells, g)
    ensures forall j :: g < j <= k ==> !GapAt(cells, j)
  {
    if k == 0 || GapAt(cells, k) then k else LastGap(cells, k - 1)
  }

  /** Where the first word ends, looking no further than `room` characters. */
  function WordEnd(cells: seq<Glyph>, room: nat): (n: nat)
    ensures n <= |cells| && n <= room
    ensures forall i :: 0 <= i < n ==> !IsSpace(cells[i].c)
    ensures n < |cells| && n < room ==> IsSpace(cells[n].c)
  {
    if room == 0 || cells == [] || IsSpace(cells[0].c) then 0 else
    1 + WordEnd(cells[1..], room - 1)
  }

  /** Whole words end before position `k`. */
  predicate WordStop(cells: seq<Glyph>, k: nat) {
    1 <= k <= |cells| && (k < |cells| ==> IsSpace(cells[k].c))
  }

  /** The last word stop at or before `k`, or 0. */
  function LastStop(cells: seq<Glyph>, k: nat): (s: nat)
    ensures s <= k
    ensures s != 0 ==> WordStop(cells, s)
    ensures forall j :: s < j <= k ==> !WordStop(cells, j)
  {
    if k == 0 || WordStop(cells, k) then k else LastStop(cells, k - 1)
  }
}
