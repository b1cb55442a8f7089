/** The message text that the editor writes (`make_strings`) and reads (`make_lines`). */
module ColourFile {
  import opened Document
  import opened ColourCodes

  const TAB_WIDTH := 8

  predicate IsBlank(c: char) { c == ' ' || c == '\t' }

  function TrimBlanks(s: string): string {
    if s != "" && IsBlank(s[|s| - 1]) then TrimBlanks(s[..|s| - 1]) else s
  }

  // -------------------------------------------------------------------- writing

  /** The text between two line ends of the file. */
  datatype Para = Para(cells: seq<Glyph>, hard: bool)

  /** Rows run together until a hard one; with `soft` set, each row stands alone. */
  function Paras(rows: seq<Row>, soft: bool, open: seq<Glyph>): seq<Para> {
    if rows == [] then [] else
    var cells := open + rows[0].cells;
    if soft || rows[0].hard then [Para(cells, rows[0].hard)] + Paras(rows[1..], soft, [])
    else Paras(rows[1..], soft, cells)
  }

  function Terminator(hard: bool): string { if hard then "\r\n" else " \n" }

  function EncodeParas(ps: seq<Para>, last: Attr): string {
    if ps == [] then "" else
    TrimBlanks(Encode(ps[0].cells, last)) + Terminator(ps[0].hard) + EncodeParas(ps[1..], LastAttr(ps[0].cells, last))
  }

  lemma {:induction false} EncodeJoin(a: seq<Glyph>, b: seq<Glyph>, last: Attr)
    ensures Encode(a + b, last) == Encode(a, last) + Encode(b, LastAttr(a, last))
    ensures LastAttr(a + b, last) == LastAttr(b, LastAttr(a, last))
  {
    hide Codes, Escape;
    if a == [] {
      assert a + b == b;
    } else {
      assert (a + b)[1..] == a[1..] + b;
      EncodeJoin(a[1..], b, a[0].a);
      Assoc(Escape(Codes(last, a[0].a)) + [a[0].c], Encode(a[1..], a[0].a), Encode(b, LastAttr(a, last)));
    }
  }

  lemma EncodeOne(g: Glyph, last: Attr)
    ensures Encode([g], last) == Escape(Codes(last, g.a)) + [g.c]
  {
    assert [g][1..] == [];
  }

  lemma {:induction false} TrimBehind(done: string, s: string)
    requires done == "" || !IsBlank(done[|done| - 1])
    ensures TrimBlanks(done + s) == done + TrimBlanks(s)
  {
    if s == "" {
      assert done + s == done;
    } else if IsBlank(s[|s| - 1]) {
      TrimBehind(done, s[..|s| - 1]);
      assert (done + s)[..|done + s| - 1] == done + s[..|s| - 1];
    }
  }

  /** The characters of one line, each preceded by the codes that its attribute needs. */
  method WriteLine(str: string, last: Attr, text: seq<Glyph>) returns (out: string, lastattr: Attr)
    ensures out == str + Encode(text, last) && lastattr == LastAttr(text, last)
  {
    out, lastattr := str, last;
    for j := 0 to |text|
      invariant out == str + Encode(text[..j], last) && lastattr == LastAttr(text[..j], last)
    {
      hide Codes, Escape, Encode;
      EncodeJoin(text[..j], [text[j]], last);
      EncodeOne(text[j], lastattr);
      assert text[..j + 1] == text[..j] + [text[j]];
      Assoc(str, Encode(text[..j], last), Escape(Codes(lastattr, text[j].a)) + [text[j].c]);
      out := out + (Escape(Codes(lastattr, text[j].a)) + [text[j].c]);
      lastattr := text[j].a;
    }
    assert text[..|text|] == text;
  }

  lemma EmptyEncode(last: Attr)
    ensures Encode([], last) == "" && LastAttr([], last) == last
    ensures forall soft :: EncodeParas(Paras([], soft, []), last) == ""
  {
  }

  lemma ParasStep(rows: seq<Row>, soft: bool, open: seq<Glyph>, last: Attr)
    requires rows != []
    ensures var cells := open + rows[0].cells;
      EncodeParas(Paras(rows, soft, open), last)
      == if soft || rows[0].hard
         then TrimBlanks(Encode(cells, last)) + Terminator(rows[0].hard)
              + EncodeParas(Paras(rows[1..], soft, []), LastAttr(cells, last))
         else EncodeParas(Paras(rows[1..], soft, cells), last)
  {
    hide Encode, TrimBlanks;
    if soft || rows[0].hard {
      assert Paras(rows, soft, open)[1..] == Paras(rows[1..], soft, []);
    }
  }

  /** What is still to be written after line `i`, when `done` has been written and `open`
      is the paragraph begun. */
  lemma WrittenSoFar(line: seq<Row>, i: nat, soft: bool, open: seq<Glyph>, last: Attr, done: string)
    requires i < |line| && (done == "" || done[|done| - 1] == '\n')
    ensures var cells := open + line[i].cells;
      done + EncodeParas(Paras(line[i..], soft, open), last)
      == if soft || line[i].hard
         then TrimBlanks(done + Encode(cells, last)) + Terminator(line[i].hard)
              + EncodeParas(Paras(line[i + 1..], soft, []), LastAttr(cells, last))
         else done + EncodeParas(Paras(line[i + 1..], soft, cells), last)
  {
    hide Encode, EncodeParas, Paras, TrimBlanks;
    var cells := open + line[i].cells;
    assert line[i..][1..] == line[i + 1..];
    ParasStep(line[i..], soft, open, last);
    TrimBehind(done, Encode(cells, last));
    var kept := TrimBlanks(Encode(cells, last));
    var more := EncodeParas(Paras(line[i + 1..], soft, []), LastAttr(cells, last));
    Assoc(done, kept, Terminator(line[i].hard));
    Assoc(done, kept + Terminator(line[i].hard), more);
  }

  lemma Continued(done: string, open: seq<Glyph>, text: seq<Glyph>, last: Attr)
    ensures done + Encode(open, last) + Encode(text, LastAttr(open, last)) == done + Encode(open + text, last)
    ensures LastAttr(open + text, last) == LastAttr(text, LastAttr(open, last))
  {
    hide Encode;
    EncodeJoin(open, text, last);
    Assoc(done, Encode(open, last), Encode(text, LastAttr(open, last)));
  }

  lemma LineEnded(str: string, hard: bool, last: Attr)
    ensures var done := str + Terminator(hard);
      done != "" && done[|done| - 1] == '\n' && done + Encode([], last) == done
  {
  }

  /** After the first `i` lines: `done` is finished, `open` is the paragraph begun. */
  ghost predicate Progress(line: seq<Row>, i: nat, soft: bool, str: string, lastattr: Attr,
                           done: string, open: seq<Glyph>, start: Attr)
    requires i <= |line|
  {
    && str == done + Encode(open, start) && lastattr == LastAttr(open, start)
    && EncodeParas(Paras(line, soft, []), 7) == done + EncodeParas(Paras(line[i..], soft, open), start)
    && (done == "" || done[|done| - 1] == '\n')
    && (i == |line| ==> open == [])
  }

  lemma ProgressStep(line: seq<Row>, i: nat, soft: bool, str: string, lastattr: Attr,
                     done: string, open: seq<Glyph>, start: Attr)
    requires line != [] && line[|line| - 1].hard && i < |line|
    requires Progress(line, i, soft, str, lastattr, done, open, start)
    ensures var str', last' := str + Encode(line[i].cells, lastattr), LastAttr(line[i].cells, lastattr);
      if soft || line[i].hard
      then
        var out := TrimBlanks(str') + Terminator(line[i].hard);
        Progress(line, i + 1, soft, out, last', out, [], last')
      else Progress(line, i + 1, soft, str', last', done, open + line[i].cells, start)
  {
    hide Encode, TrimBlanks, EncodeParas, Paras, LastAttr, Terminator;
    WrittenSoFar(line, i, soft, open, start, done);
    Continued(done, open, line[i].cells, start);
    if soft || line[i].hard {
      LineEnded(TrimBlanks(str + Encode(line[i].cells, lastattr)), line[i].hard, LastAttr(line[i].cells, lastattr));
      EmptyEncode(LastAttr(line[i].cells, lastattr));
    }
  }

  /** `make_strings` with colours embedded. The last line is made hard first. */
  method MakeStrings(rows: seq<Row>, soft: bool) returns (str: string)
    requires rows != []
    ensures str == EncodeParas(Paras(rows[|rows| - 1 := rows[|rows| - 1].(hard := true)], soft, []), 7)
  {
    var line := rows[|rows| - 1 := rows[|rows| - 1].(hard := true)];
    ghost var done, open, start := "", [], 7 as Attr;
    str := "";
    var lastattr: Attr := 7;
    assert line[0..] == line;
    EmptyEncode(start);
    for i := 0 to |line|
      invariant Progress(line, i, soft, str, lastattr, done, open, start)
    {
      hide Progress, Encode, TrimBlanks, LastAttr, Terminator;
      ProgressStep(line, i, soft, str, lastattr, done, open, start);
      str, lastattr := WriteLine(str, lastattr, line[i].cells);
      open := open + line[i].cells;
      if soft || line[i].hard {
        str := TrimBlanks(str) + Terminator(line[i].hard);
        done, open, start := str, [], lastattr;
      }
    }
    EmptyEncode(start);
    assert line[|line|..] == [];
  }

  // -------------------------------------------------------------------- reading

  /** One line read: `rest` is the text behind it, `a` the attribute reached. `ok` is false
      when the line is too long and `make_lines` would wrap it. */
  datatype Read = Read(row: Row, rest: string, a: Attr, ok: bool)

  function Extend(row: Row, c: char, a: Attr, n: nat): Row {
    row.(cells := row.cells + seq(n, _ => Glyph(c, a)))
  }

  function ReadLine(s: string, a: Attr, row: Row, w: int): (r: Read)
    ensures s != "" ==> |r.rest| < |s|
    ensures |r.rest| <= |s|
    decreases |s|
  {
    if s == "" then Read(row, "", a, true)
    else if s[0] == '\r' then ReadLine(s[1..], a, row, w)
    else if s[0] == CTRL_A then
      if |s| == 1 then Read(row, "", a, true)
      else if s[1] == CTRL_A then ReadLine(s[2..], a, Extend(row, CTRL_A, a, 1), w)
      else ReadLine(s[2..], Apply(s[1], a), row, w)
    else if s[0] == '\n' then Read(row.(hard := true), s[1..], a, true)
    else if s[0] == ' ' then ReadLine(s[1..], a, Extend(row, ' ', a, 1), w)
    else if s[0] == '\t' then ReadLine(s[1..], a, Extend(row, ' ', a, TAB_WIDTH - |row.cells| % TAB_WIDTH), w)
    else if |row.cells| > w - 1 then Read(row, s[1..], a, false)
    else ReadLine(s[1..], a, Extend(row, s[0], a, 1), w)
  }

  function ReadAll(s: string, a: Attr, w: int): (seq<Row>, bool)
    decreases |s|
  {
    if s == "" then ([], true) else
    var r := ReadLine(s, a, BLANK_ROW, w);
    if !r.ok then ([], false) else
    var (rows, ok) := ReadAll(r.rest, r.a, w);
    ([r.row] + rows, ok)
  }

  /** The inner loop of `make_lines`: one line, up to and including its newline. */
  method MakeLine(str: string, start: nat, attr: Attr, w: int) returns (row: Row, spos: nat, thisattr: Attr, ok: bool)
    requires start < |str|
    ensures ok == ReadLine(str[start..], attr, BLANK_ROW, w).ok
    ensures ok ==> start < spos <= |str|
    ensures ok ==> ReadLine(str[start..], attr, BLANK_ROW, w) == Read(row, str[spos..], thisattr, true)
  {
    hide Apply, Extend;
    var done := false;
    row, spos, thisattr, ok := BLANK_ROW, start, attr, true;
    ghost var line := ReadLine(str[start..], attr, BLANK_ROW, w);
    while spos < |str| && !done
      invariant start <= spos <= |str| && (spos == start ==> !done)
      invariant !done ==> line == ReadLine(str[spos..], thisattr, row, w)
      invariant done ==> line == Read(row, str[spos..], thisattr, true)
      decreases |str| - spos
    {
      var c := str[spos];
      ghost var s := str[spos..];
      assert s[0] == c && s[1..] == str[spos + 1..];
      if c == '\r' {
        spos := spos + 1;
      } else if c == CTRL_A {
        spos := spos + 1;
        if spos < |str| {
          assert s[1] == str[spos] && s[2..] == str[spos + 1..];
          if str[spos] == CTRL_A {
            row := Extend(row, CTRL_A, thisattr, 1);
          } else {
            thisattr := Apply(str[spos], thisattr);
          }
          spos := spos + 1;
        }
      } else if c == '\n' {
        spos := spos + 1;
        row, done := row.(hard := true), true;
      } else if c == ' ' {
        row := Extend(row, ' ', thisattr, 1);
        spos := spos + 1;
      } else if c == '\t' {
        row := Extend(row, ' ', thisattr, TAB_WIDTH - |row.cells| % TAB_WIDTH);
        spos := spos + 1;
      } else if |row.cells| > w - 1 {
        return row, spos, thisattr, false;
      } else {
        row := Extend(row, c, thisattr, 1);
        spos := spos + 1;
      }
    }
  }

  /** `make_lines` without a separate attribute string, every newline being hard. `ok` is
      false when it would wrap a line. */
  method MakeLines(str: string, w: int) returns (nl: seq<Row>, ok: bool)
    ensures ok == ReadAll(str, 7, w).1
    ensures ok ==> nl == ReadAll(str, 7, w).0
  {
    nl, ok := [], true;
    var spos := 0;
    var thisattr: Attr := 7;
    assert str[0..] == str;
    while spos < |str|
      invariant spos <= |str|
      invariant ReadAll(str, 7, w).0 == nl + ReadAll(str[spos..], thisattr, w).0
      invariant ReadAll(str, 7, w).1 == ReadAll(str[spos..], thisattr, w).1
      decreases |str| - spos
    {
      hide ReadLine;
      ghost var spos0, attr0, nl0 := spos, thisattr, nl;
      var row, more;
      row, spos, thisattr, more := MakeLine(str, spos, thisattr, w);
      if !more {
        return nl, false;
      }
      nl := nl + [row];
      Assoc(nl0, [row], ReadAll(str[spos..], thisattr, w).0);
    }
  }

  /** The reader's attribute and text after `Encode(cells, last)`. */
  function Replay(cells: seq<Glyph>, last: Attr, d: Attr): seq<Glyph> {
    if cells == [] then [] else
    var a := After(last, cells[0].a, d);
    [Glyph(cells[0].c, a)] + Replay(cells[1..], cells[0].a, a)
  }

  function ReplayAttr(cells: seq<Glyph>, last: Attr, d: Attr): Attr {
    if cells == [] then d else ReplayAttr(cells[1..], cells[0].a, After(last, cells[0].a, d))
  }

  predicate PlainText(cells: seq<Glyph>) {
    forall g :: g in cells ==> g.c !in {CTRL_A, '\r', '\n', '\t'}
  }

  /** Behind `n` characters, all but blanks are left of the right margin. */
  predicate Narrow(cells: seq<Glyph>, n: nat, w: int) {
    forall i :: 0 <= i < |cells| && cells[i].c != ' ' ==> n + i < w
  }

  lemma {:induction false} EscapeReads(codes: string, t: string, d: Attr, row: Row, w: int)
    requires CTRL_A !in codes
    ensures ReadLine(Escape(codes) + t, d, row, w) == ReadLine(t, ApplyAll(codes, d), row, w)
  {
    if codes == "" {
      assert Escape(codes) + t == t;
    } else {
      var s := Escape(codes) + t;
      assert s[0] == CTRL_A && s[1] == codes[0] && s[2..] == Escape(codes[1..]) + t;
      EscapeReads(codes[1..], t, Apply(codes[0], d), row, w);
    }
  }

  lemma ColourCodesPlain(n: Attr)
    ensures forall c :: c in ForegroundCode(n) || c in BackgroundCode(n) ==> c != CTRL_A && !IsBlank(c)
  {
  }

  lemma CodesPlain(last: Attr, next: Attr)
    ensures forall c :: c in Codes(last, next) ==> c != CTRL_A && !IsBlank(c)
  {
    ColourCodesPlain(Foreground(next));
    ColourCodesPlain(Background(next));
    hide Resets, StartsBlink, StartsHigh, Foreground, Background, ForegroundCode, BackgroundCode;
  }

  lemma {:induction false} EncodeReads(cells: seq<Glyph>, last: Attr, t: string, d: Attr, row: Row, w: int)
    requires PlainText(cells) && Narrow(cells, |row.cells|, w)
    ensures ReadLine(Encode(cells, last) + t, d, row, w)
         == ReadLine(t, ReplayAttr(cells, last, d), row.(cells := row.cells + Replay(cells, last, d)), w)
  {
    hide Codes, Escape, Apply;
    if cells == [] {
      assert Encode(cells, last) + t == t && row.cells + Replay(cells, last, d) == row.cells;
    } else {
      var c, a, rest := cells[0].c, After(last, cells[0].a, d), cells[1..];
      var code, more := Escape(Codes(last, cells[0].a)), Encode(rest, cells[0].a);
      assert Encode(cells, last) + t == code + ([c] + (more + t));
      CodesPlain(last, cells[0].a);
      EscapeReads(Codes(last, cells[0].a), [c] + (more + t), d, row, w);
      var s, row' := [c] + (more + t), Extend(row, c, a, 1);
      assert s[1..] == more + t && row'.cells == row.cells + [Glyph(c, a)];
      assert c !in {CTRL_A, '\r', '\n', '\t'} && (c == ' ' || |row.cells| < w);
      assert ReadLine(s, a, row, w) == ReadLine(more + t, a, row', w);
      assert forall i :: 0 <= i < |rest| ==> rest[i] == cells[i + 1];
      EncodeReads(rest, cells[0].a, t, a, row', w);
      Assoc(row.cells, [Glyph(c, a)], Replay(rest, cells[0].a, a));
    }
  }

  /** Some change of attribute in the text is not written down completely. */
  predicate LosesColour(cells: seq<Glyph>, last: Attr) {
    cells != [] && ((cells[0].a != last && Lossy(last, cells[0].a)) || LosesColour(cells[1..], cells[0].a))
  }

  /** The colours of a text survive exactly when no change of attribute is lossy. */
  lemma {:induction false} ReplayExact(cells: seq<Glyph>, last: Attr)
    ensures Replay(cells, last, last) == cells <==> !LosesColour(cells, last)
    ensures !LosesColour(cells, last) ==> ReplayAttr(cells, last, last) == LastAttr(cells, last)
  {
    hide Lossy, After;
    if cells != [] {
      InStep(last, cells[0].a);
      ReplayExact(cells[1..], cells[0].a);
      var out := Replay(cells, last, last);
      assert out[0] == cells[0] ==> out[1..] == Replay(cells[1..], cells[0].a, cells[0].a);
      assert out == cells ==> out[0] == cells[0] && out[1..] == cells[1..];
      assert cells == [cells[0]] + cells[1..];
    }
  }

  /** What is left of a line when the blanks at its end are trimmed: the number of
      characters, and the codes of the first trimmed one, which stay behind. */
  function Trimmed(cells: seq<Glyph>, last: Attr): (r: (nat, string))
    ensures r.0 <= |cells|
  {
    if cells == [] then (0, "") else
    var front, g := cells[..|cells| - 1], cells[|cells| - 1];
    var code := Codes(LastAttr(front, last), g.a);
    if !IsBlank(g.c) then (|cells|, "") else if code != "" then (|front|, code) else Trimmed(front, last)
  }

  function Surviving(cells: seq<Glyph>, last: Attr): seq<Glyph> {
    cells[..Trimmed(cells, last).0]
  }

  lemma {:induction false} EscapeEnd(codes: string)
    requires codes != ""
    ensures Escape(codes) != "" && Escape(codes)[|Escape(codes)| - 1] == codes[|codes| - 1]
  {
    if |codes| > 1 {
      EscapeEnd(codes[1..]);
    } else {
      assert codes[1..] == "";
    }
  }

  lemma TrimStep(s: string, c: char)
    ensures TrimBlanks(s + [c]) == if IsBlank(c) then TrimBlanks(s) else s + [c]
  {
    assert (s + [c])[..|s|] == s;
  }

  lemma TrimBehindCode(s: string, codes: string)
    requires codes != "" && !IsBlank(codes[|codes| - 1])
    ensures TrimBlanks(s + Escape(codes)) == s + Escape(codes)
  {
    EscapeEnd(codes);
  }

  lemma TrimmedSnoc(front: seq<Glyph>, g: Glyph, last: Attr)
    ensures var cells, code := front + [g], Codes(LastAttr(front, last), g.a);
      && Trimmed(cells, last).1 == (if !IsBlank(g.c) then "" else if code != "" then code else Trimmed(front, last).1)
      && Surviving(cells, last)
         == (if !IsBlank(g.c) then cells else if code != "" then front else Surviving(front, last))
  {
    var cells := front + [g];
    assert cells[..|front|] == front && cells[..|cells|] == cells;
    assert forall k :: 0 <= k <= |front| ==> cells[..k] == front[..k];
  }

  lemma {:induction false} TrimEncode(cells: seq<Glyph>, last: Attr)
    ensures TrimBlanks(Encode(cells, last)) == Encode(Surviving(cells, last), last) + Escape(Trimmed(cells, last).1)
  {
    if cells == [] {
      assert Surviving(cells, last) == [];
    } else {
      var front, g := cells[..|cells| - 1], cells[|cells| - 1];
      var code := Codes(LastAttr(front, last), g.a);
      assert cells == front + [g];
      CodesPlain(LastAttr(front, last), g.a);
      EncodeJoin(front, [g], last);
      EncodeOne(g, LastAttr(front, last));
      Assoc(Encode(front, last), Escape(code), [g.c]);
      assert Escape("") == "";
      TrimmedSnoc(front, g, last);
      hide Codes, Encode, Escape, TrimBlanks, LastAttr, Trimmed, Surviving;
      TrimStep(Encode(front, last) + Escape(code), g.c);
      if !IsBlank(g.c) {
      } else if code != "" {
        TrimBehindCode(Encode(front, last), code);
      } else {
        TrimEncode(front, last);
      }
    }
  }

  lemma {:induction false} LosesColourSnoc(cells: seq<Glyph>, g: Glyph, last: Attr)
    ensures LosesColour(cells + [g], last)
       <==> LosesColour(cells, last) || (g.a != LastAttr(cells, last) && Lossy(LastAttr(cells, last), g.a))
  {
    hide Lossy;
    if cells == [] {
      assert [g][1..] == [] && cells + [g] == [g];
    } else {
      assert (cells + [g])[1..] == cells[1..] + [g];
      LosesColourSnoc(cells[1..], g, cells[0].a);
    }
  }

  /** Trimming leaves a text without losses, and the reader with the attribute of the
      whole text. */
  lemma {:induction false} TrimmedInStep(cells: seq<Glyph>, last: Attr)
    requires !LosesColour(cells, last)
    ensures !LosesColour(Surviving(cells, last), last) && CTRL_A !in Trimmed(cells, last).1
    ensures ApplyAll(Trimmed(cells, last).1, LastAttr(Surviving(cells, last), last)) == LastAttr(cells, last)
  {
    if cells != [] {
      var front, g := cells[..|cells| - 1], cells[|cells| - 1];
      assert cells == front + [g] && cells[..|cells|] == cells;
      LosesColourSnoc(front, g, last);
      InStep(LastAttr(front, last), g.a);
      CodesPlain(LastAttr(front, last), g.a);
      ApplySwitches(g.a);
      hide Codes, Lossy, Apply;
      if IsBlank(g.c) && Codes(LastAttr(front, last), g.a) == "" {
        ApplySwitches(LastAttr(front, last));
        TrimmedInStep(front, last);
        assert front[..Trimmed(front, last).0] == cells[..Trimmed(front, last).0];
      }
    }
  }

  /** What comes back for one paragraph: the surviving characters, on a hard line; a soft
      end adds a space. */
  function Saved(p: Para, last: Attr): Row {
    Row(Surviving(p.cells, last) + (if p.hard then [] else [Glyph(' ', LastAttr(p.cells, last))]), true, false)
  }

  /** The paragraph can be read back: no control characters, nothing right of the margin,
      no lossy change of colour. */
  predicate Clean(p: Para, last: Attr, w: int) {
    PlainText(p.cells) && Narrow(p.cells, 0, w) && !LosesColour(p.cells, last)
  }

  lemma TerminatorReads(hard: bool, t: string, a: Attr, row: Row, w: int)
    ensures ReadLine(Terminator(hard) + t, a, row, w)
      == Read(row.(cells := row.cells + (if hard then [] else [Glyph(' ', a)]), hard := true), t, a, true)
  {
    var s := Terminator(hard) + t;
    assert s[1..] == "\n" + t && s[1..][1..] == t;
    assert row.cells + [] == row.cells;
    if !hard {
      assert Extend(row, ' ', a, 1).cells == row.cells + [Glyph(' ', a)];
      assert ReadLine(s, a, row, w) == ReadLine(s[1..], a, Extend(row, ' ', a, 1), w);
    } else {
      assert ReadLine(s, a, row, w) == ReadLine(s[1..], a, row, w);
    }
  }

  /** The attribute a reader at `d` ends a paragraph with. */
  function Carry(p: Para, last: Attr, d: Attr): Attr {
    ApplyAll(Trimmed(p.cells, last).1, ReplayAttr(Surviving(p.cells, last), last, d))
  }

  /** What a reader at `d` makes of one paragraph. */
  function Reread(p: Para, last: Attr, d: Attr): Row {
    var blank := if p.hard then [] else [Glyph(' ', Carry(p, last, d))];
    Row(Replay(Surviving(p.cells, last), last, d) + blank, true, false)
  }

  lemma {:induction false} TrimmedPlain(cells: seq<Glyph>, last: Attr)
    ensures CTRL_A !in Trimmed(cells, last).1
  {
    if cells != [] {
      var front, g := cells[..|cells| - 1], cells[|cells| - 1];
      assert cells == front + [g];
      CodesPlain(LastAttr(front, last), g.a);
      TrimmedPlain(front, last);
    }
  }

  /** Any paragraph is read back as the replay of its surviving cells, wherever the reader starts. */
  lemma ParaRereads(p: Para, last: Attr, d: Attr, t: string, w: int)
    requires PlainText(p.cells) && Narrow(p.cells, 0, w)
    ensures ReadLine(TrimBlanks(Encode(p.cells, last)) + Terminator(p.hard) + t, d, BLANK_ROW, w)
      == Read(Reread(p, last, d), t, Carry(p, last, d), true)
  {
    var kept, codes, tail := Surviving(p.cells, last), Trimmed(p.cells, last).1, Terminator(p.hard) + t;
    hide ReadLine, Encode, Escape, TrimBlanks, Terminator, Trimmed, Surviving, Replay, ReplayAttr, ApplyAll;
    TrimEncode(p.cells, last);
    TrimmedPlain(p.cells, last);
    Assoc(Encode(kept, last) + Escape(codes), Terminator(p.hard), t);
    Assoc(Encode(kept, last), Escape(codes), tail);
    PrefixClean(p.cells, last, w);
    EncodeReads(kept, last, Escape(codes) + tail, d, BLANK_ROW, w);
    var cells := Replay(kept, last, d);
    assert [] + cells == cells;
    EscapeReads(codes, tail, ReplayAttr(kept, last, d), Row(cells, false, false), w);
    TerminatorReads(p.hard, t, Carry(p, last, d), Row(cells, false, false), w);
  }

  /** A clean paragraph keeps its surviving cells and the reader in step for the next. */
  lemma ParaReads(p: Para, last: Attr, t: string, w: int)
    requires Clean(p, last, w)
    ensures ReadLine(TrimBlanks(Encode(p.cells, last)) + Terminator(p.hard) + t, last, BLANK_ROW, w)
      == Read(Saved(p, last), t, LastAttr(p.cells, last), true)
  {
    hide ReadLine, Encode, TrimBlanks, Terminator, Trimmed, Surviving;
    hide LosesColour, Replay, ReplayAttr, ApplyAll, LastAttr;
    ParaRereads(p, last, last, t, w);
    TrimmedInStep(p.cells, last);
    ReplayExact(Surviving(p.cells, last), last);
  }

  lemma PrefixClean(cells: seq<Glyph>, last: Attr, w: int)
    requires PlainText(cells) && Narrow(cells, 0, w)
    ensures PlainText(Surviving(cells, last)) && Narrow(Surviving(cells, last), 0, w)
  {
  }

  function SavedAll(ps: seq<Para>, last: Attr): seq<Row> {
    if ps == [] then [] else [Saved(ps[0], last)] + SavedAll(ps[1..], LastAttr(ps[0].cells, last))
  }

  predicate AllClean(ps: seq<Para>, last: Attr, w: int) {
    ps == [] || (Clean(ps[0], last, w) && AllClean(ps[1..], LastAttr(ps[0].cells, last), w))
  }

  /** Reading what was written gives back every surviving character in its own colour, line
      by line. */
  lemma {:induction false} RoundTrip(ps: seq<Para>, last: Attr, w: int)
    requires AllClean(ps, last, w)
    ensures ReadAll(EncodeParas(ps, last), last, w) == (SavedAll(ps, last), true)
  {
    hide TrimBlanks, Encode, Saved, Clean, ReadLine, LastAttr;
    if ps != [] {
      var next := LastAttr(ps[0].cells, last);
      var line, more := TrimBlanks(Encode(ps[0].cells, last)) + Terminator(ps[0].hard), EncodeParas(ps[1..], next);
      ParaReads(ps[0], last, more, w);
      RoundTrip(ps[1..], next, w);
      assert |line| > 0 && EncodeParas(ps, last) == line + more;
    }
  }

  // ------------------------------------------------------- exactly which colours survive

  /** A text of printable characters, all but blanks left of the margin, in every paragraph. */
  predicate AllReadable(ps: seq<Para>, w: int) {
    forall p :: p in ps ==> PlainText(p.cells) && Narrow(p.cells, 0, w)
  }

  function RereadAll(ps: seq<Para>, last: Attr, d: Attr): seq<Row> {
    if ps == [] then [] else
    [Reread(ps[0], last, d)] + RereadAll(ps[1..], LastAttr(ps[0].cells, last), Carry(ps[0], last, d))
  }

  /** Whatever the colours, what is written is read back as its replay. */
  lemma {:induction false} FileRereads(ps: seq<Para>, last: Attr, d: Attr, w: int)
    requires AllReadable(ps, w)
    ensures ReadAll(EncodeParas(ps, last), d, w) == (RereadAll(ps, last, d), true)
  {
    hide TrimBlanks, Encode, Reread, Carry, ReadLine, LastAttr, PlainText, Narrow;
    if ps != [] {
      var next := LastAttr(ps[0].cells, last);
      var line, more := TrimBlanks(Encode(ps[0].cells, last)) + Terminator(ps[0].hard), EncodeParas(ps[1..], next);
      ParaRereads(ps[0], last, d, more, w);
      assert forall p :: p in ps[1..] ==> p in ps;
      FileRereads(ps[1..], next, Carry(ps[0], last, d), w);
      assert |line| > 0 && EncodeParas(ps, last) == line + more;
    }
  }

  /** A reader at `d` meets every attribute of a text that the writer begins at `last`. */
  predicate MeetsAll(cells: seq<Glyph>, last: Attr, d: Attr) {
    cells == [] || (Meets(last, cells[0].a, d) && MeetsAll(cells[1..], cells[0].a, cells[0].a))
  }

  lemma {:induction false} ReplayMeets(cells: seq<Glyph>, last: Attr, d: Attr)
    ensures Replay(cells, last, d) == cells <==> MeetsAll(cells, last, d)
    ensures |Replay(cells, last, d)| == |cells|
    decreases |cells|
  {
    hide Meets, After;
    if cells != [] {
      var a := After(last, cells[0].a, d);
      CodesMeet(last, cells[0].a, d);
      ReplayMeets(cells[1..], cells[0].a, a);
      var out := Replay(cells, last, d);
      assert out[0] == Glyph(cells[0].c, a) && out[1..] == Replay(cells[1..], cells[0].a, a);
      assert cells == [cells[0]] + cells[1..];
      assert out == cells ==> out[0] == cells[0] && out[1..] == cells[1..];
    }
  }

  /** The reader meets every attribute of the surviving text of every paragraph. Between paragraphs the
      writer is at the attribute of the last character, the reader where the codes have left it. */
  predicate FileMeets(ps: seq<Para>, last: Attr, d: Attr) {
    ps == []
    || (MeetsAll(Surviving(ps[0].cells, last), last, d)
        && FileMeets(ps[1..], LastAttr(ps[0].cells, last), Carry(ps[0], last, d)))
  }

  /** Line by line, `rows` begin with the surviving characters in their own colours. */
  predicate Restored(ps: seq<Para>, last: Attr, rows: seq<Row>) {
    if ps == [] then rows == []
    else
      && rows != [] && rows[0].hard && Surviving(ps[0].cells, last) <= rows[0].cells
      && |rows[0].cells| == |Surviving(ps[0].cells, last)| + (if ps[0].hard then 0 else 1)
      && Restored(ps[1..], LastAttr(ps[0].cells, last), rows[1..])
  }

  lemma {:induction false} RereadRestores(ps: seq<Para>, last: Attr, d: Attr)
    ensures Restored(ps, last, RereadAll(ps, last, d)) <==> FileMeets(ps, last, d)
    decreases |ps|
  {
    if ps != [] {
      var kept := Surviving(ps[0].cells, last);
      var row := Reread(ps[0], last, d);
      ReplayMeets(kept, last, d);
      assert row.cells[..|kept|] == Replay(kept, last, d);
      assert kept <= row.cells <==> kept == row.cells[..|kept|];
      hide Surviving, Carry, LastAttr, MeetsAll, Replay, Reread;
      var more := RereadAll(ps[1..], LastAttr(ps[0].cells, last), Carry(ps[0], last, d));
      assert RereadAll(ps, last, d)[1..] == more;
      RereadRestores(ps[1..], LastAttr(ps[0].cells, last), Carry(ps[0], last, d));
    }
  }

  /** Saving and loading a whole text gives every surviving character its colour back exactly when the
      reader meets every attribute. */
  lemma FileExact(ps: seq<Para>, w: int)
    requires AllReadable(ps, w)
    ensures var (rows, ok) := ReadAll(EncodeParas(ps, 7), 7, w); ok && (Restored(ps, 7, rows) <==> FileMeets(ps, 7, 7))
  {
    FileRereads(ps, 7, 7, w);
    RereadRestores(ps, 7, 7);
  }

  /** On a line that does not end in blanks nothing is trimmed, and its colours come back
      exactly when no change of attribute in it is lossy. */
  lemma LineExact(p: Para, last: Attr, w: int)
    requires PlainText(p.cells) && Narrow(p.cells, 0, w) && p.hard
    requires p.cells != [] ==> !IsBlank(p.cells[|p.cells| - 1].c)
    ensures ReadAll(EncodeParas([p], last), last, w) == ([Row(p.cells, true, false)], true)
       <==> !LosesColour(p.cells, last)
  {
    var cells := p.cells;
    assert Trimmed(cells, last) == (|cells|, "") && Surviving(cells, last) == cells;
    TrimEncode(cells, last);
    var line := Encode(cells, last) + Terminator(true);
    assert Encode(cells, last) + Escape("") == Encode(cells, last);
    assert EncodeParas([p][1..], LastAttr(cells, last)) == "";
    assert EncodeParas([p], last) == line + "" == line;
    hide ReadLine, Encode, EncodeParas, LosesColour, Replay, ReplayAttr, TrimBlanks;
    EncodeReads(cells, last, Terminator(true), last, BLANK_ROW, w);
    assert [] + Replay(cells, last, last) == Replay(cells, last, last);
    assert Terminator(true) + "" == Terminator(true);
    TerminatorReads(true, "", ReplayAttr(cells, last, last), Row(Replay(cells, last, last), false, false), w);
    var r := ReadLine(line, last, BLANK_ROW, w);
    assert r.row == Row(Replay(cells, last, last), true, false) && r.rest == "" && r.ok;
    assert ReadAll(line, last, w) == ([r.row] + [], true);
    assert ReadAll(line, last, w).0 == [r.row];
    ReplayExact(cells, last);
  }

  /** Saving and loading again, end to end. */
  method SaveAndLoad(rows: seq<Row>, soft: bool, w: int) returns (nl: seq<Row>, ok: bool)
    requires rows != []
    ensures var ps := Paras(rows[|rows| - 1 := rows[|rows| - 1].(hard := true)], soft, []);
      && (AllReadable(ps, w) ==> ok && nl == RereadAll(ps, 7, 7) && (Restored(ps, 7, nl) <==> FileMeets(ps, 7, 7)))
      && (AllClean(ps, 7, w) ==> ok && nl == SavedAll(ps, 7))
  {
    var str := MakeStrings(rows, soft);
    nl, ok := MakeLines(str, w);
    ghost var ps := Paras(rows[|rows| - 1 := rows[|rows| - 1].(hard := true)], soft, []);
    if AllReadable(ps, w) {
      FileRereads(ps, 7, 7, w);
      RereadRestores(ps, 7, 7);
    }
    if AllClean(ps, 7, w) {
      RoundTrip(ps, 7, w);
    }
  }

  /** A red letter and a normal one: the second comes back red as well. */
  lemma ColourLost()
    ensures var cells := [Glyph('a', RED), Glyph('b', LIGHTGRAY)];
      ReadAll(EncodeParas([Para(cells, true)], 7), 7, 80) != ([Row(cells, true, false)], true)
  {
    var cells := [Glyph('a', RED), Glyph('b', LIGHTGRAY)];
    assert Lossy(RED, LIGHTGRAY);
    assert cells[1..] == [Glyph('b', LIGHTGRAY)];
    assert LosesColour(cells[1..], RED);
    assert LosesColour(cells, 7);
    LineExact(Para(cells, true), 7, 80);
  }
}
