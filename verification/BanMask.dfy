/** Normalising the hostmasks of channel bans and of K-lines. */
module BanMask {
  import opened JavaScript

  const MAX_NICKLEN := 30

  /** The characters that a mask may contain between its separators. */
  predicate MaskChar(c: char) {
    'A' <= c <= 'Z' || 'a' <= c <= 'z' || '0' <= c <= '9'
    || c in {'{', '}', '`', '^', '_', '|', ']', '[', '\\', '-', '.', '*', '?', '~'}
  }

  predicate Clean(s: string) { forall c :: c in s ==> MaskChar(c) }

  function Take(s: string, n: nat): string {
    if |s| <= n then s else s[..n]
  }

  // ------------------------------------------------------------------ collapsing

  /** Replace every `**`, from left to right, by `*`. */
  function ReplacePairs(s: string): (r: string)
    ensures |r| <= |s|
    ensures HasPair(s) ==> |r| < |s|
  {
    if |s| < 2 then s
    else if s[0] == '*' && s[1] == '*' then "*" + ReplacePairs(s[2..])
    else [s[0]] + ReplacePairs(s[1..])
  }

  predicate HasPair(s: string) {
    |s| >= 2 && ((s[0] == '*' && s[1] == '*') || HasPair(s[1..]))
  }

  /** Every run of stars shortened to one star. */
  function Collapse(s: string): string {
    if |s| < 2 then s
    else if s[0] == '*' && s[1] == '*' then Collapse(s[1..])
    else [s[0]] + Collapse(s[1..])
  }

  lemma {:induction false} CollapseNoPair(s: string)
    ensures !HasPair(Collapse(s))
    ensures |Collapse(s)| <= |s|
    ensures s != "" ==> Collapse(s) != "" && Collapse(s)[0] == s[0]
  {
    if |s| >= 2 {
      CollapseNoPair(s[1..]);
      if !(s[0] == '*' && s[1] == '*') {
        var r := Collapse(s);
        assert r[1..] == Collapse(s[1..]);
      }
    }
  }

  lemma {:induction false} CollapseFixed(s: string)
    requires !HasPair(s)
    ensures Collapse(s) == s
  {
    if |s| >= 2 {
      CollapseFixed(s[1..]);
    }
  }

  /** Replacing pairs does not change what remains after all of them are gone. */
  lemma {:induction false} CollapseReplaced(s: string)
    ensures Collapse(ReplacePairs(s)) == Collapse(s)
    ensures s != "" ==> ReplacePairs(s) != "" && ReplacePairs(s)[0] == s[0]
  {
    if |s| >= 2 {
      if s[0] == '*' && s[1] == '*' {
        CollapseReplaced(s[2..]);
        CollapseStar(ReplacePairs(s[2..]), s[2..]);
        assert s[1..][1..] == s[2..];
        assert s[1..] == "*" + s[2..];
      } else {
        CollapseReplaced(s[1..]);
        var r := ReplacePairs(s);
        assert r[1..] == ReplacePairs(s[1..]);
      }
    }
  }

  /** One star in front of texts that collapse alike. */
  lemma CollapseStar(a: string, b: string)
    requires Collapse(a) == Collapse(b)
    ensures Collapse("*" + a) == Collapse("*" + b)
  {
    CollapseNoPair(a);
    CollapseNoPair(b);
    assert ("*" + a)[1..] == a && ("*" + b)[1..] == b;
  }

  lemma {:induction false} CollapseJoin(a: string, sep: char, b: string)
    requires sep != '*'
    ensures Collapse(a + [sep] + b) == Collapse(a) + [sep] + Collapse(b)
  {
    var s := a + [sep] + b;
    if a == "" {
      assert s[1..] == b;
      if b == "" {
        assert s == [sep];
      }
    } else {
      CollapseJoin(a[1..], sep, b);
      assert s[1..] == a[1..] + [sep] + b;
      if |a| == 1 {
        assert a[1..] == "" && Collapse(a) == a;
      }
    }
  }

  lemma {:induction false} CollapseClean(s: string)
    ensures forall c :: c in Collapse(s) ==> c in s
  {
    if |s| >= 2 {
      CollapseClean(s[1..]);
    }
  }

  // -------------------------------------------------------------------- matching

  /** Which strings a mask stands for. `same` compares two characters. */
  predicate Match(p: string, s: string, same: (char, char) -> bool)
    decreases |p| + |s|
  {
    if p == "" then s == ""
    else if p[0] == '*' then Match(p[1..], s, same) || (s != "" && Match(p, s[1..], same))
    else s != "" && (p[0] == '?' || same(p[0], s[0])) && Match(p[1..], s[1..], same)
  }

  lemma {:induction false} TwoStars(p: string, s: string, same: (char, char) -> bool)
    requires |p| >= 2 && p[0] == '*' && p[1] == '*'
    ensures Match(p, s, same) == Match(p[1..], s, same)
    decreases |s|
  {
    if s != "" {
      TwoStars(p, s[1..], same);
    }
  }

  /** Collapsing stars does not change which strings a mask stands for. */
  lemma {:induction false} CollapseMatches(p: string, s: string, same: (char, char) -> bool)
    ensures Match(Collapse(p), s, same) == Match(p, s, same)
    decreases |p| + |s|
  {
    if |p| >= 2 {
      if p[0] == '*' && p[1] == '*' {
        TwoStars(p, s, same);
        CollapseMatches(p[1..], s, same);
      } else {
        assert Collapse(p)[1..] == Collapse(p[1..]);
        CollapseMatches(p[1..], s, same);
        if s != "" {
          CollapseMatches(p, s[1..], same);
          CollapseMatches(p[1..], s[1..], same);
        }
      }
    }
  }

  // -------------------------------------------------------------------- scanning

  /** `tmp_banstr` and `part_counter`: nick, user and host, or user and host for a K-line. */
  datatype Parts = Parts(a: string, b: string, c: string, at: nat)

  function Append(p: Parts, s: string): Parts {
    if p.at == 0 then p.(a := p.a + s) else if p.at == 1 then p.(b := p.b + s) else p.(c := p.c + s)
  }

  function Step(p: Parts, ch: char, kline: bool): Parts {
    if MaskChar(ch) then Append(p, [ch])
    else if ch == '!' && p.at == 0 && !kline then p.(at := 1)
    else if ch == '@' && p.at == 1 && !kline then p.(at := 2)
    else if ch == '@' && p.at == 0 then
      if kline then p.(at := 1) else p.(b := p.a, a := "*", at := 2)
    else p
  }

  function Scan(p: Parts, s: string, kline: bool): Parts
    decreases |s|
  {
    if s == "" then p else Scan(Step(p, s[0], kline), s[1..], kline)
  }

  /** A name with a dot and nothing else is a host; missing parts become stars. */
  function Fill(p: Parts, kline: bool): Parts {
    var q := if '.' in p.a && p.b == "" && p.c == ""
             then (if kline then p.(a := "", b := p.a) else p.(a := "", c := p.a)) else p;
    q.(a := if q.a == "" then "*" else q.a, b := if q.b == "" then "*" else q.b, c := if q.c == "" then "*" else q.c)
  }

  function Joined(p: Parts, kline: bool): string {
    if kline then Take(p.a, 10) + "@" + Take(p.b, 80)
    else Take(p.a, MAX_NICKLEN) + "!" + Take(p.b, 10) + "@" + Take(p.c, 80)
  }

  /** The mask before its stars are collapsed; None where the source returns 0. */
  function RawMask(str: string, kline: bool): Option<string> {
    var p := Scan(Parts("", "", "", 0), str, kline);
    if p.a == "" && p.b == "" && p.c == "" then None else Some(Joined(Fill(p, kline), kline))
  }

  function BanMaskOf(str: string, kline: bool): Option<string> {
    match RawMask(str, kline)
    case None => None
    case Some(m) => Some(Collapse(m))
  }

  /** `create_ban_mask`. */
  method CreateBanMask(str: string, kline: bool) returns (mask: Option<string>)
    ensures mask == BanMaskOf(str, kline)
  {
    var tmp := new string[3] (i => "");
    var part := 0;
    for i := 0 to |str|
      invariant 0 <= part <= 2
      invariant Scan(Parts("", "", "", 0), str, kline) == Scan(Parts(tmp[0], tmp[1], tmp[2], part), str[i..], kline)
    {
      var ch := str[i];
      assert str[i..][1..] == str[i + 1..];
      if MaskChar(ch) {
        tmp[part] := tmp[part] + [ch];
      } else if ch == '!' && part == 0 && !kline {
        part := 1;
      } else if ch == '@' && part == 1 && !kline {
        part := 2;
      } else if ch == '@' && part == 0 {
        if kline {
          part := 1;
        } else {
          tmp[1] := tmp[0];
          tmp[0] := "*";
          part := 2;
        }
      }
    }
    if tmp[0] == "" && tmp[1] == "" && tmp[2] == "" {
      return None;
    }
    if '.' in tmp[0] && tmp[1] == "" && tmp[2] == "" {
      if kline {
        tmp[1] := tmp[0];
      } else {
        tmp[2] := tmp[0];
      }
      tmp[0] := "";
    }
    if tmp[0] == "" {
      tmp[0] := "*";
    }
    if tmp[1] == "" {
      tmp[1] := "*";
    }
    if tmp[2] == "" && !kline {
      tmp[2] := "*";
    }
    var finalstr := if kline then Take(tmp[0], 10) + "@" + Take(tmp[1], 80)
                    else Take(tmp[0], MAX_NICKLEN) + "!" + Take(tmp[1], 10) + "@" + Take(tmp[2], 80);
    ghost var raw := finalstr;
    while HasPair(finalstr)
      invariant Collapse(finalstr) == Collapse(raw)
      decreases |finalstr|
    {
      CollapseReplaced(finalstr);
      finalstr := ReplacePairs(finalstr);
    }
    CollapseFixed(finalstr);
    mask := Some(finalstr);
  }

  // ------------------------------------------------------------------ properties

  /** A clean, non-empty part of a mask, with no two stars in a row. */
  predicate Part(s: string, limit: nat) {
    0 < |s| <= limit && Clean(s) && !HasPair(s)
  }

  predicate CleanParts(p: Parts) {
    Clean(p.a) && Clean(p.b) && Clean(p.c)
  }

  lemma {:induction false} ScanStaysClean(p: Parts, s: string, kline: bool)
    requires CleanParts(p)
    ensures CleanParts(Scan(p, s, kline))
    decreases |s|
  {
    if s != "" {
      assert CleanParts(Step(p, s[0], kline));
      ScanStaysClean(Step(p, s[0], kline), s[1..], kline);
    }
  }

  /** Truncated and collapsed, a non-empty clean text is a proper part. */
  lemma TakeCollapse(s: string, limit: nat)
    requires Clean(s) && s != "" && limit > 0
    ensures Part(Collapse(Take(s, limit)), limit)
  {
    CollapseNoPair(Take(s, limit));
    CollapseClean(Take(s, limit));
  }

  /** `n!u@h`, or `u@h` for a K-line. */
  predicate NormalForm(m: string, kline: bool, n: string, u: string, h: string) {
    if kline then Part(u, 10) && Part(h, 80) && m == u + "@" + h
    else Part(n, MAX_NICKLEN) && Part(u, 10) && Part(h, 80) && m == n + "!" + u + "@" + h
  }

  /** Every mask produced is in normal form, and stands for the same strings as before its
      stars were collapsed. */
  lemma MaskNormal(str: string, kline: bool) returns (n: string, u: string, h: string)
    requires BanMaskOf(str, kline).Some?
    ensures NormalForm(BanMaskOf(str, kline).value, kline, n, u, h)
    ensures forall s, same :: Match(BanMaskOf(str, kline).value, s, same) == Match(RawMask(str, kline).value, s, same)
  {
    var raw := RawMask(str, kline).value;
    forall s, same
      ensures Match(Collapse(raw), s, same) == Match(raw, s, same)
    {
      CollapseMatches(raw, s, same);
    }
    var p := Scan(Parts("", "", "", 0), str, kline);
    ScanStaysClean(Parts("", "", "", 0), str, kline);
    var q := Fill(p, kline);
    hide Scan, Fill, Collapse, Match, Take;
    FillNonEmpty(p, kline);
    if kline {
      n, u, h := "", Collapse(Take(q.a, 10)), Collapse(Take(q.b, 80));
      TakeCollapse(q.a, 10);
      TakeCollapse(q.b, 80);
      CollapseJoin(Take(q.a, 10), '@', Take(q.b, 80));
    } else {
      n, u, h := Collapse(Take(q.a, MAX_NICKLEN)), Collapse(Take(q.b, 10)), Collapse(Take(q.c, 80));
      TakeCollapse(q.a, MAX_NICKLEN);
      TakeCollapse(q.b, 10);
      TakeCollapse(q.c, 80);
      CollapseThree(Take(q.a, MAX_NICKLEN), Take(q.b, 10), Take(q.c, 80));
    }
  }

  lemma FillNonEmpty(p: Parts, kline: bool)
    requires CleanParts(p)
    ensures var q := Fill(p, kline); CleanParts(q) && q.a != "" && q.b != "" && q.c != ""
  {
  }

  lemma CollapseThree(a: string, b: string, c: string)
    ensures Collapse(a + "!" + b + "@" + c) == Collapse(a) + "!" + Collapse(b) + "@" + Collapse(c)
  {
    hide Collapse;
    CollapseJoin(a + "!" + b, '@', c);
    CollapseJoin(a, '!', b);
  }

  lemma {:induction false} ScanClean(p: Parts, s: string, rest: string, kline: bool)
    requires Clean(s)
    ensures Scan(p, s + rest, kline) == Scan(Append(p, s), rest, kline)
    decreases |s|
  {
    if s == "" {
      assert s + rest == rest && p.a + s == p.a && p.b + s == p.b && p.c + s == p.c;
    } else {
      assert s[0] in s && (s + rest)[1..] == s[1..] + rest;
      assert forall x: string :: x + [s[0]] + s[1..] == x + s;
      ScanClean(Step(p, s[0], kline), s[1..], rest, kline);
    }
  }

  lemma ScanSep(p: Parts, sep: char, rest: string, kline: bool)
    ensures Scan(p, [sep] + rest, kline) == Scan(Step(p, sep, kline), rest, kline)
  {
    assert ([sep] + rest)[1..] == rest;
  }

  /** Scanning a mask that is written out in full finds its parts. */
  lemma ScanFull(n: string, u: string, h: string)
    requires Clean(n) && Clean(u) && Clean(h)
    ensures Scan(Parts("", "", "", 0), n + "!" + u + "@" + h, false) == Parts(n, u, h, 2)
    ensures Scan(Parts("", "", "", 0), u + "@" + h, true) == Parts(u, h, "", 1)
  {
    hide Scan;
    var p := Parts("", "", "", 0);
    assert n + "!" + u + "@" + h == n + (['!'] + (u + (['@'] + (h + ""))));
    assert u + "@" + h == u + (['@'] + (h + ""));
    assert "" + n == n && "" + u == u && "" + h == h;
    ScanClean(p, n, ['!'] + (u + (['@'] + (h + ""))), false);
    ScanSep(Append(p, n), '!', u + (['@'] + (h + "")), false);
    ScanClean(Parts(n, "", "", 1), u, ['@'] + (h + ""), false);
    ScanSep(Parts(n, u, "", 1), '@', h + "", false);
    ScanClean(Parts(n, u, "", 2), h, "", false);
    ScanEnd(Parts(n, u, h, 2), false);
    ScanClean(p, u, ['@'] + (h + ""), true);
    ScanSep(Append(p, u), '@', h + "", true);
    ScanClean(Parts(u, "", "", 1), h, "", true);
    ScanEnd(Parts(u, h, "", 1), true);
  }

  lemma ScanEnd(p: Parts, kline: bool)
    ensures Scan(p, "", kline) == p
  {
  }

  /** A mask written out in full keeps its parts, truncated and collapsed. */
  lemma FullMask(n: string, u: string, h: string)
    requires Clean(n) && Clean(u) && Clean(h) && n != "" && u != "" && h != ""
    ensures BanMaskOf(n + "!" + u + "@" + h, false)
      == Some(Collapse(Take(n, MAX_NICKLEN)) + "!" + Collapse(Take(u, 10)) + "@" + Collapse(Take(h, 80)))
    ensures BanMaskOf(u + "@" + h, true) == Some(Collapse(Take(u, 10)) + "@" + Collapse(Take(h, 80)))
  {
    hide Scan, Collapse, Take;
    ScanFull(n, u, h);
    CollapseThree(Take(n, MAX_NICKLEN), Take(u, 10), Take(h, 80));
    CollapseJoin(Take(u, 10), '@', Take(h, 80));
  }

  /** A mask in normal form is not changed by normalising it again. */
  lemma Idempotent(str: string, kline: bool)
    requires BanMaskOf(str, kline).Some?
    ensures BanMaskOf(BanMaskOf(str, kline).value, kline) == BanMaskOf(str, kline)
  {
    var n, u, h := MaskNormal(str, kline);
    hide BanMaskOf, HasPair;
    CollapseFixed(u);
    CollapseFixed(h);
    if kline {
      FullMask("*", u, h);
    } else {
      CollapseFixed(n);
      FullMask(n, u, h);
    }
  }

  /** A bare name is a nick, or a host if there is a dot in it. */
  lemma BareMask(s: string)
    requires Clean(s) && s != ""
    ensures BanMaskOf(s, false) == Some(
      if '.' in s then "*!*@" + Collapse(Take(s, 80)) else Collapse(Take(s, MAX_NICKLEN)) + "!*@*")
  {
    ScanBare(s);
    StarAlone();
    hide Scan, Collapse, Take;
    CollapseThree("*", "*", Take(s, 80));
    CollapseThree(Take(s, MAX_NICKLEN), "*", "*");
    JoinStars(Collapse(Take(s, MAX_NICKLEN)), Collapse(Take(s, 80)));
  }

  lemma ScanBare(s: string)
    requires Clean(s) && s != ""
    ensures Scan(Parts("", "", "", 0), s, false) == Parts(s, "", "", 0)
  {
    assert s + "" == s && "" + s == s;
    ScanClean(Parts("", "", "", 0), s, "", false);
    ScanEnd(Parts(s, "", "", 0), false);
  }

  lemma StarAlone()
    ensures Collapse("*") == "*" && Take("*", 10) == "*" && Take("*", 80) == "*" && Take("*", MAX_NICKLEN) == "*"
  {
  }

  lemma JoinStars(nick: string, host: string)
    ensures nick + "!" + "*" + "@" + "*" == nick + "!*@*"
    ensures "*" + "!" + "*" + "@" + host == "*!*@" + host
  {
    assert "*" + "!" + "*" + "@" == "*!*@";
  }

  /** Characters that are neither part of a mask nor separators make no difference. */
  function Relevant(s: string): string {
    if s == "" then "" else (if MaskChar(s[0]) || s[0] == '!' || s[0] == '@' then [s[0]] else "") + Relevant(s[1..])
  }

  lemma {:induction false} NoiseIgnored(p: Parts, s: string, kline: bool)
    ensures Scan(p, Relevant(s), kline) == Scan(p, s, kline)
    decreases |s|
  {
    if s != "" {
      NoiseIgnored(Step(p, s[0], kline), s[1..], kline);
      if MaskChar(s[0]) || s[0] == '!' || s[0] == '@' {
        assert Relevant(s)[1..] == Relevant(s[1..]);
      } else {
        assert Relevant(s) == Relevant(s[1..]);
      }
    }
  }
}
