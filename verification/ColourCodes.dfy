/** Saving coloured text with Ctrl-A codes and reading it back. */
module ColourCodes {
  import opened JavaScript
  import opened Document

  const CTRL_A: char := '\U{01}'

  // The colour numbers of sbbsdefs.js.
  const BLACK: Attr := 0
  const BLUE: Attr := 1
  const GREEN: Attr := 2
  const CYAN: Attr := 3
  const RED: Attr := 4
  const MAGENTA: Attr := 5
  const BROWN: Attr := 6
  const LIGHTGRAY: Attr := 7
  const WHITE: Attr := 15

  // -------------------------------------------------------------------- writing

  /** A change of attribute first goes back to normal if blink or intensity is to end. */
  predicate Resets(last: Attr, next: Attr) {
    (next & 0x80 == 0 && last & 0x80 != 0) || (next & 0x08 == 0 && last & 0x08 != 0)
  }

  function ForegroundCode(n: Attr): string {
    if n == BLACK then "K" else if n == RED then "R" else if n == GREEN then "G"
    else if n == BROWN then "Y" else if n == BLUE then "B" else if n == MAGENTA then "M"
    else if n == CYAN then "C" else if n == WHITE then "W" else ""
  }

  function BackgroundCode(n: Attr): string {
    if n == BLACK then "0" else if n == RED then "1" else if n == GREEN then "2"
    else if n == BROWN then "3" else if n == BLUE then "4" else if n == MAGENTA then "5"
    else if n == CYAN then "6" else if n == WHITE then "7" else ""
  }

  function From(last: Attr, next: Attr): Attr {
    if Resets(last, next) then 7 else last
  }

  predicate StartsBlink(from: Attr, next: Attr) { next & 0x80 != 0 && from & 0x80 == 0 }

  predicate StartsHigh(from: Attr, next: Attr) { next & 0x08 != 0 && from & 0x08 == 0 }

  function Foreground(a: Attr): Attr { a & 0x07 }

  function Background(a: Attr): Attr { (a & 0x70) >> 4 }

  function When(c: bool, code: string): string { if c then code else "" }

  /** The codes `make_strings` writes before a character of attribute `next`. */
  function Codes(last: Attr, next: Attr): string {
    if next == last then "" else
    var from := From(last, next);
    When(Resets(last, next), "N")
    + When(StartsBlink(from, next), "I")
    + When(StartsHigh(from, next), "H")
    + When(Foreground(next) != Foreground(from), ForegroundCode(Foreground(next)))
    + When(Background(next) != Background(from), BackgroundCode(Background(next)))
  }

  function Escape(codes: string): string {
    if codes == "" then "" else [CTRL_A, codes[0]] + Escape(codes[1..])
  }

  function Encode(cells: seq<Glyph>, last: Attr): string {
    if cells == [] then "" else
    Escape(Codes(last, cells[0].a)) + [cells[0].c] + Encode(cells[1..], cells[0].a)
  }

  function LastAttr(cells: seq<Glyph>, last: Attr): Attr {
    if cells == [] then last else cells[|cells| - 1].a
  }

  // -------------------------------------------------------------------- reading

  /** What one code does to the attribute. */
  function Apply(code: char, a: Attr): Attr {
    match UpperChar(code)
    case 'K' => a & 0xf8
    case 'R' => (a & 0xf8) | RED
    case 'G' => (a & 0xf8) | GREEN
    case 'Y' => (a & 0xf8) | BROWN
    case 'B' => (a & 0xf8) | BLUE
    case 'M' => (a & 0xf8) | MAGENTA
    case 'C' => (a & 0xf8) | CYAN
    case 'W' => (a & 0xf8) | LIGHTGRAY
    case '0' => a & 0x8f
    case '1' => (a & 0x8f) | (RED << 4)
    case '2' => (a & 0x8f) | (GREEN << 4)
    case '3' => (a & 0x8f) | (BROWN << 4)
    case '4' => (a & 0x8f) | (BLUE << 4)
    case '5' => (a & 0x8f) | (MAGENTA << 4)
    case '6' => (a & 0x8f) | (CYAN << 4)
    case '7' => (a & 0x8f) | (LIGHTGRAY << 4)
    case 'H' => a | 0x08
    case 'I' => a | 0x80
    case 'N' => 7
    case _ => a
  }

  function ApplyAll(codes: string, a: Attr): Attr {
    if codes == "" then a else ApplyAll(codes[1..], Apply(codes[0], a))
  }

  /** The codes that are lost: a switch matched against WHITE, which is 15, never writes
      the code for colour 7. */
  predicate Lossy(last: Attr, next: Attr) {
    var from := From(last, next);
    (Foreground(next) == 7 && Foreground(from) != 7) || (Background(next) == 7 && Background(from) != 7)
  }

  lemma ApplyAllSplit(a: string, b: string, x: Attr)
    ensures ApplyAll(a + b, x) == ApplyAll(b, ApplyAll(a, x))
  {
    if a == "" {
      assert a + b == b;
    } else {
      assert (a + b)[1..] == a[1..] + b;
      ApplyAllSplit(a[1..], b, Apply(a[0], x));
    }
  }

  lemma ApplyOne(c: char, x: Attr)
    ensures ApplyAll([c], x) == Apply(c, x) && ApplyAll("", x) == x
  {
    assert [c][1..] == "";
  }

  lemma SmallColour(a: Attr)
    ensures Foreground(a) in {0, 1, 2, 3, 4, 5, 6, 7} && Background(a) in {0, 1, 2, 3, 4, 5, 6, 7}
  {
  }

  function SetBlink(a: Attr): Attr { a | 0x80 }

  function SetHigh(a: Attr): Attr { a | 0x08 }

  function SetForeground(a: Attr, n: Attr): Attr { (a & 0xf8) | n }

  function SetBackground(a: Attr, n: Attr): Attr { (a & 0x8f) | (n << 4) }

  lemma ApplyForeground(n: Attr, a: Attr)
    requires n in {0, 1, 2, 3, 4, 5, 6, 7}
    ensures ApplyAll(ForegroundCode(n), a) == if n == 7 then a else SetForeground(a, n)
  {
    if n != 7 {
      ApplyOne(ForegroundCode(n)[0], a);
    }
  }

  lemma ApplyBackground(n: Attr, a: Attr)
    requires n in {0, 1, 2, 3, 4, 5, 6, 7}
    ensures ApplyAll(BackgroundCode(n), a) == if n == 7 then a else SetBackground(a, n)
  {
    if n != 7 {
      ApplyOne(BackgroundCode(n)[0], a);
    }
  }

  /** What the reader makes of the attribute `d` when it sees the codes from `last` to `next`. */
  function After(last: Attr, next: Attr, d: Attr): Attr {
    ApplyAll(Codes(last, next), d)
  }

  /** The same in terms of bits. */
  function Rebuilt(last: Attr, next: Attr, d: Attr): Attr {
    var from := From(last, next);
    var d1 := if Resets(last, next) then 7 else d;
    var d2 := PutBlink(StartsBlink(from, next), d1);
    var d3 := PutHigh(StartsHigh(from, next), d2);
    var d4 := PutForeground(Foreground(next) != Foreground(from) && Foreground(next) != 7, d3, next);
    PutBackground(Background(next) != Background(from) && Background(next) != 7, d4, next)
  }

  function PutBlink(c: bool, a: Attr): Attr { if c then SetBlink(a) else a }

  function PutHigh(c: bool, a: Attr): Attr { if c then SetHigh(a) else a }

  function PutForeground(c: bool, a: Attr, next: Attr): Attr { if c then SetForeground(a, Foreground(next)) else a }

  function PutBackground(c: bool, a: Attr, next: Attr): Attr { if c then SetBackground(a, Background(next)) else a }

  lemma ApplyFive(a: string, b: string, c: string, e: string, f: string, x: Attr)
    ensures ApplyAll(a + b + c + e + f, x) == ApplyAll(f, ApplyAll(e, ApplyAll(c, ApplyAll(b, ApplyAll(a, x)))))
  {
    hide ApplyAll;
    ApplyAllSplit(a + b + c + e, f, x);
    ApplyAllSplit(a + b + c, e, x);
    ApplyAllSplit(a + b, c, x);
    ApplyAllSplit(a, b, x);
  }

  lemma ApplySwitches(x: Attr)
    ensures ApplyAll("", x) == x && ApplyAll("N", x) == 7
    ensures ApplyAll("I", x) == SetBlink(x) && ApplyAll("H", x) == SetHigh(x)
  {
    ApplyOne('N', x);
    ApplyOne('I', x);
    ApplyOne('H', x);
  }

  lemma AfterIsRebuilt(last: Attr, next: Attr, d: Attr)
    requires next != last
    ensures After(last, next, d) == Rebuilt(last, next, d)
  {
    SmallColour(next);
    var from := From(last, next);
    var n, i, h := When(Resets(last, next), "N"), When(StartsBlink(from, next), "I"), When(StartsHigh(from, next), "H");
    var fg := When(Foreground(next) != Foreground(from), ForegroundCode(Foreground(next)));
    var bg := When(Background(next) != Background(from), BackgroundCode(Background(next)));
    hide ApplyAll, Apply, ForegroundCode, BackgroundCode, Resets, StartsBlink, StartsHigh, From;
    hide Foreground, Background, SetBlink, SetHigh, SetForeground, SetBackground;
    var d1 := ApplyAll(n, d);
    var d2 := ApplyAll(i, d1);
    var d3 := ApplyAll(h, d2);
    var d4 := ApplyAll(fg, d3);
    ApplyFive(n, i, h, fg, bg, d);
    ApplySwitches(d);
    ApplySwitches(d1);
    ApplySwitches(d2);
    ApplySwitches(d3);
    ApplySwitches(d4);
    ApplyForeground(Foreground(next), d3);
    ApplyBackground(Background(next), d4);
  }

  // An attribute field by field.

  function BlinkBit(a: Attr): Attr { a & 0x80 }

  function HighBit(a: Attr): Attr { a & 0x08 }

  lemma FieldsDecide(a: Attr, b: Attr)
    ensures a == b <==> BlinkBit(a) == BlinkBit(b) && HighBit(a) == HighBit(b)
                        && Foreground(a) == Foreground(b) && Background(a) == Background(b)
  {
  }

  lemma BlinkSets(c: bool, a: Attr)
    ensures var b := PutBlink(c, a);
      && BlinkBit(b) == (if c then 0x80 else BlinkBit(a))
      && HighBit(b) == HighBit(a) && Foreground(b) == Foreground(a) && Background(b) == Background(a)
  {
  }

  lemma HighSets(c: bool, a: Attr)
    ensures var b := PutHigh(c, a);
      && HighBit(b) == (if c then 0x08 else HighBit(a))
      && BlinkBit(b) == BlinkBit(a) && Foreground(b) == Foreground(a) && Background(b) == Background(a)
  {
  }

  lemma ForegroundSets(c: bool, a: Attr, next: Attr)
    ensures var b := PutForeground(c, a, next);
      && Foreground(b) == (if c then Foreground(next) else Foreground(a))
      && HighBit(b) == HighBit(a) && BlinkBit(b) == BlinkBit(a) && Background(b) == Background(a)
  {
  }

  lemma BackgroundSets(c: bool, a: Attr, next: Attr)
    ensures var b := PutBackground(c, a, next);
      && Background(b) == (if c then Background(next) else Background(a))
      && HighBit(b) == HighBit(a) && BlinkBit(b) == BlinkBit(a) && Foreground(b) == Foreground(a)
  {
  }

  lemma BitValues(a: Attr)
    ensures (BlinkBit(a) == 0 || BlinkBit(a) == 0x80) && (HighBit(a) == 0 || HighBit(a) == 0x08)
  {
  }

  /** A reader at attribute `d` comes to `next` by the codes from `last`: each field is written with a code
      that exists, or is right already. */
  predicate Meets(last: Attr, next: Attr, d: Attr) {
    if next == last then d == next else
    var from := From(last, next);
    var base := if Resets(last, next) then 7 else d;
    && (StartsBlink(from, next) || BlinkBit(base) == BlinkBit(next))
    && (StartsHigh(from, next) || HighBit(base) == HighBit(next))
    && ((Foreground(next) != Foreground(from) && Foreground(next) != 7) || Foreground(base) == Foreground(next))
    && ((Background(next) != Background(from) && Background(next) != 7) || Background(base) == Background(next))
  }

  /** Each code changes its own field only. */
  lemma RebuiltFields(last: Attr, next: Attr, d: Attr)
    ensures var from, r := From(last, next), Rebuilt(last, next, d);
      var base: Attr := if Resets(last, next) then 7 else d;
      && BlinkBit(r) == (if StartsBlink(from, next) then 0x80 else BlinkBit(base))
      && HighBit(r) == (if StartsHigh(from, next) then 0x08 else HighBit(base))
      && Foreground(r)
         == Foreground(if Foreground(next) != Foreground(from) && Foreground(next) != 7 then next else base)
      && Background(r)
         == Background(if Background(next) != Background(from) && Background(next) != 7 then next else base)
  {
    var from := From(last, next);
    var blink, high := StartsBlink(from, next), StartsHigh(from, next);
    var fg := Foreground(next) != Foreground(from) && Foreground(next) != 7;
    var bg := Background(next) != Background(from) && Background(next) != 7;
    hide BlinkBit, HighBit, Foreground, Background, StartsBlink, StartsHigh, Resets, From;
    hide PutBlink, PutHigh, PutForeground, PutBackground;
    var d1: Attr := if Resets(last, next) then 7 else d;
    var d2 := PutBlink(blink, d1);
    var d3 := PutHigh(high, d2);
    var d4 := PutForeground(fg, d3, next);
    BlinkSets(blink, d1);
    HighSets(high, d2);
    ForegroundSets(fg, d3, next);
    BackgroundSets(bg, d4, next);
  }

  lemma StartsMean(from: Attr, next: Attr)
    ensures StartsBlink(from, next) ==> BlinkBit(next) == 0x80
    ensures StartsHigh(from, next) ==> HighBit(next) == 0x08
  {
    BitValues(next);
  }

  lemma RebuiltExact(last: Attr, next: Attr, d: Attr)
    requires next != last
    ensures Rebuilt(last, next, d) == next <==> Meets(last, next, d)
  {
    hide Rebuilt, BlinkBit, HighBit, Foreground, Background, StartsBlink, StartsHigh, Resets, From;
    StartsMean(From(last, next), next);
    RebuiltFields(last, next, d);
    FieldsDecide(Rebuilt(last, next, d), next);
  }

  /** Where the codes take a reader: to the next attribute exactly when every field is met. */
  lemma CodesMeet(last: Attr, next: Attr, d: Attr)
    ensures After(last, next, d) == next <==> Meets(last, next, d)
  {
    hide Rebuilt, Apply, Resets;
    if next == last {
      assert Codes(last, next) == "";
    } else {
      AfterIsRebuilt(last, next, d);
      RebuiltExact(last, next, d);
    }
  }

  /** A reader in step with the writer meets the next attribute exactly when no code is lost. */
  lemma MeetsInStep(last: Attr, next: Attr)
    ensures Meets(last, next, last) <==> next == last || !Lossy(last, next)
  {
    var from := From(last, next);
    BlinkStays(last, next);
    HighStays(last, next);
    hide BlinkBit, HighBit, Foreground, Background, StartsBlink, StartsHigh, Resets;
  }

  lemma BlinkStays(last: Attr, next: Attr)
    ensures var from := From(last, next); StartsBlink(from, next) || BlinkBit(from) == BlinkBit(next)
  {
  }

  lemma HighStays(last: Attr, next: Attr)
    ensures var from := From(last, next); StartsHigh(from, next) || HighBit(from) == HighBit(next)
  {
  }

  /** A reader in step with the writer stays in step, exactly when nothing is lost. */
  lemma InStep(last: Attr, next: Attr)
    ensures After(last, next, last) == next <==> next == last || !Lossy(last, next)
  {
    hide After, Meets, Lossy;
    CodesMeet(last, next, last);
    MeetsInStep(last, next);
  }
}
