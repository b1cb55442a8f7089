/** The colour codes letter by letter, and how the writer and the reader treat single characters, line
    ends and paragraphs. */
module ColourRules {
  import opened Document
  import opened ColourCodes
  import opened ColourFile

  // ---------------------------------------------------------------- the codes

  /** Black, blue, green, cyan, red, magenta, brown: the letters and digits written. Light gray has none. */
  lemma WriterTable()
    ensures ForegroundCode(0) == "K" && ForegroundCode(1) == "B" && ForegroundCode(2) == "G"
    ensures ForegroundCode(3) == "C" && ForegroundCode(4) == "R" && ForegroundCode(5) == "M"
    ensures ForegroundCode(6) == "Y" && ForegroundCode(7) == ""
    ensures BackgroundCode(0) == "0" && BackgroundCode(1) == "4" && BackgroundCode(2) == "2"
    ensures BackgroundCode(3) == "6" && BackgroundCode(4) == "1" && BackgroundCode(5) == "5"
    ensures BackgroundCode(6) == "3" && BackgroundCode(7) == ""
  {
  }

  /** What each code does to an attribute; a small letter is read like a capital one. */
  lemma ReaderForeground(a: Attr)
    ensures Apply('K', a) == a & 0xf8 && Apply('B', a) == (a & 0xf8) | 1 && Apply('G', a) == (a & 0xf8) | 2
    ensures Apply('C', a) == (a & 0xf8) | 3 && Apply('R', a) == (a & 0xf8) | 4 && Apply('M', a) == (a & 0xf8) | 5
    ensures Apply('Y', a) == (a & 0xf8) | 6 && Apply('W', a) == (a & 0xf8) | 7
  {
  }

  /** Digits speak of the background: bit 0 is red, bit 1 green, bit 2 blue. */
  lemma ReaderBackground(a: Attr)
    ensures Apply('0', a) == a & 0x8f && Apply('4', a) == (a & 0x8f) | 0x10
  {
  }

  lemma ReaderRedBackground(a: Attr)
    ensures Apply('1', a) == (a & 0x8f) | 0x40 && Apply('5', a) == (a & 0x8f) | 0x50
  {
  }

  lemma ReaderMixedBackground(a: Attr)
    ensures Apply('6', a) == (a & 0x8f) | 0x30 && Apply('3', a) == (a & 0x8f) | 0x60
  {
  }

  lemma ReaderGreenBackground(a: Attr)
    ensures Apply('2', a) == (a & 0x8f) | 0x20 && Apply('7', a) == (a & 0x8f) | 0x70
  {
  }

  lemma ReaderSwitches(a: Attr)
    ensures Apply('H', a) == a | 0x08 && Apply('I', a) == a | 0x80 && Apply('N', a) == 7
  {
  }

  lemma SmallLetters(c: char, a: Attr)
    ensures 'a' <= c <= 'z' ==> Apply(c, a) == Apply(c - 'a' + 'A', a)
    ensures c !in "KBGCRMYW01234567HINkbgcrmywhin" ==> Apply(c, a) == a
  {
  }

  /** Blink or intensity that ends can be taken back only by going to normal. */
  predicate Ends(last: Attr, next: Attr) {
    (last & 0x80 != 0 && next & 0x80 == 0) || (last & 0x08 != 0 && next & 0x08 == 0)
  }

  /** Exactly the codes for what changes are written, counted from normal if that comes first. */
  lemma CodesWritten(last: Attr, next: Attr)
    ensures var f: Attr := if Ends(last, next) then 7 else last;
      Codes(last, next)
      == (if Ends(last, next) then "N" else "")
         + (if next & 0x80 != 0 && f & 0x80 == 0 then "I" else "")
         + (if next & 0x08 != 0 && f & 0x08 == 0 then "H" else "")
         + (if next & 0x07 != f & 0x07 then ForegroundCode(next & 0x07) else "")
         + (if (next & 0x70) >> 4 != (f & 0x70) >> 4 then BackgroundCode((next & 0x70) >> 4) else "")
  {
    hide ForegroundCode, BackgroundCode;
    if next == last {
      assert Codes(last, next) == "";
    }
  }

  /** Every code stands behind a Ctrl-A, and the codes of a character in front of it. */
  lemma EncodeWrites(g: Glyph, rest: seq<Glyph>, last: Attr)
    ensures Encode([g] + rest, last) == Escape(Codes(last, g.a)) + [g.c] + Encode(rest, g.a)
    ensures Encode([], last) == "" && Escape("") == ""
    ensures forall c, codes :: Escape([c] + codes) == ['\U{01}', c] + Escape(codes)
  {
    hide Codes;
    assert ([g] + rest)[1..] == rest;
    forall c, codes ensures Escape([c] + codes) == ['\U{01}', c] + Escape(codes) {
      assert ([c] + codes)[1..] == codes;
    }
  }

  // ---------------------------------------------------------------- lines and paragraphs

  /** Trailing spaces and tabs go, and nothing else. */
  lemma {:induction false} TrimMeans(s: string)
    ensures var t := TrimBlanks(s);
      && t <= s && (t == "" || (t[|t| - 1] != ' ' && t[|t| - 1] != '\t'))
      && forall i :: |t| <= i < |s| ==> s[i] == ' ' || s[i] == '\t'
    decreases |s|
  {
    if s != "" && IsBlank(s[|s| - 1]) {
      TrimMeans(s[..|s| - 1]);
    }
  }

  /** A paragraph ends in a carriage return and a newline if it is hard, in a space and a newline if not. */
  lemma ParaWritten(p: Para, rest: seq<Para>, last: Attr)
    ensures EncodeParas([p] + rest, last)
         == TrimBlanks(Encode(p.cells, last)) + (if p.hard then "\r\n" else " \n")
            + EncodeParas(rest, if p.cells == [] then last else p.cells[|p.cells| - 1].a)
    ensures EncodeParas([], last) == ""
  {
    assert ([p] + rest)[1..] == rest;
  }

  /** Row by row, if each row is to be written on a line of its own. */
  lemma {:induction false} SoftParas(rows: seq<Row>)
    ensures var ps := Paras(rows, true, []);
      |ps| == |rows| && forall i :: 0 <= i < |rows| ==> ps[i] == Para(rows[i].cells, rows[i].hard)
    decreases |rows|
  {
    if rows != [] {
      SoftParas(rows[1..]);
      assert [] + rows[0].cells == rows[0].cells;
      assert forall i :: 1 <= i < |rows| ==> rows[1..][i - 1] == rows[i];
    }
  }

  function Spelled(ps: seq<Para>): seq<Item> {
    if ps == [] then [] else Inks(ps[0].cells) + [Break] + Spelled(ps[1..])
  }

  /** Otherwise the paragraphs spell what the rows spell: all characters, with the breaks of the hard rows. */
  lemma {:induction false} HardParas(rows: seq<Row>, open: seq<Glyph>)
    requires rows != [] && rows[|rows| - 1].hard
    ensures Spelled(Paras(rows, false, open)) == Inks(open) + Stream(rows)
    ensures forall p :: p in Paras(rows, false, open) ==> p.hard
    decreases |rows|
  {
    var cells := open + rows[0].cells;
    InksJoin(open, rows[0].cells);
    if |rows| == 1 {
      assert rows[1..] == [];
      assert Paras(rows, false, open) == [Para(cells, true)];
      assert Stream(rows) == Items(rows[0]);
      assert Spelled([Para(cells, true)]) == Inks(cells) + [Break] + [];
    } else {
      var rest := rows[1..];
      assert rest[|rest| - 1] == rows[|rows| - 1];
      if rows[0].hard {
        HardParas(rest, []);
        assert Inks([]) + Stream(rest) == Stream(rest);
        assert Spelled(Paras(rows, false, open)) == Inks(cells) + [Break] + Stream(rest);
        Assoc(Inks(open), Inks(rows[0].cells) + [Break], Stream(rest));
        Assoc(Inks(open), Inks(rows[0].cells), [Break]);
      } else {
        HardParas(rest, cells);
        SoftItems(rows[0]);
        Assoc(Inks(open), Inks(rows[0].cells), Stream(rest));
      }
    }
  }

  // ---------------------------------------------------------------- reading

  /** A tab reads as spaces up to the next column that is a multiple of eight. */
  lemma TabReads(s: string, a: Attr, row: Row, w: int)
    ensures var n := 8 - |row.cells| % 8;
      && ReadLine("\t" + s, a, row, w) == ReadLine(s, a, row.(cells := row.cells + seq(n, _ => Glyph(' ', a))), w)
      && (|row.cells| + n) % 8 == 0 && 1 <= n <= 8
  {
    assert ("\t" + s)[1..] == s;
  }

  /** Every other character: a carriage return counts for nothing, a newline ends the line, a space may stand
      anywhere, a printable character must stand left of the right margin. */
  lemma CharReads(c: char, s: string, a: Attr, row: Row, w: int)
    ensures var r, more := ReadLine([c] + s, a, row, w), row.(cells := row.cells + [Glyph(c, a)]);
      && (c == '\r' ==> r == ReadLine(s, a, row, w))
      && (c == '\n' ==> r == Read(row.(hard := true), s, a, true))
      && (c == ' ' ==> r == ReadLine(s, a, more, w))
      && (c !in "\r\n \t\U{01}" && |row.cells| < w ==> r == ReadLine(s, a, more, w))
      && (c !in "\r\n \t\U{01}" && |row.cells| >= w ==> !r.ok)
    ensures ReadLine("", a, row, w) == Read(row, "", a, true)
  {
    assert ([c] + s)[1..] == s;
    assert seq(1, _ => Glyph(c, a)) == [Glyph(c, a)];
  }

  /** Ctrl-A and a letter change the attribute; Ctrl-A twice is a Ctrl-A. */
  lemma CodeReads(c: char, s: string, a: Attr, row: Row, w: int)
    ensures var r := ReadLine(['\U{01}', c] + s, a, row, w);
      r == if c == '\U{01}' then ReadLine(s, a, row.(cells := row.cells + [Glyph(c, a)]), w)
           else ReadLine(s, Apply(c, a), row, w)
    ensures ReadLine("\U{01}", a, row, w) == Read(row, "", a, true)
  {
    hide Apply;
    var t := ['\U{01}', c] + s;
    assert t[0] == CTRL_A && t[1] == c && t[2..] == s;
    assert seq(1, _ => Glyph(c, a)) == [Glyph(c, a)];
  }

  /** Line after line, the attribute going on. */
  lemma LinesRead(s: string, a: Attr, w: int)
    requires s != ""
    ensures var r := ReadLine(s, a, Row([], false, false), w);
      r.ok ==> ReadAll(s, a, w) == ([r.row] + ReadAll(r.rest, r.a, w).0, ReadAll(r.rest, r.a, w).1)
    ensures !ReadLine(s, a, Row([], false, false), w).ok ==> !ReadAll(s, a, w).1
    ensures ReadAll("", a, w) == ([], true)
  {
  }
}
