/** The same ban masks told by splitting the text at its separators. */
module BanMaskRules {
  import opened JavaScript
  import opened BanMask

  lemma MaskCharMeans(c: char)
    ensures MaskChar(c) <==>
              || 'A' <= c <= 'Z' || 'a' <= c <= 'z' || '0' <= c <= '9'
              || c in "{}`^_|][\\-.*?~"
  {
  }

  /** The mask characters of a text. */
  function Only(s: string): string {
    if s == "" then "" else (if MaskChar(s[0]) then [s[0]] else "") + Only(s[1..])
  }

  /** How many characters stand in front of the first of `seps`. */
  function Length(s: string, seps: string): (n: nat)
    ensures n <= |s| && (n < |s| ==> s[n] in seps)
    ensures forall i :: 0 <= i < n ==> s[i] !in seps
  {
    if s == "" || s[0] in seps then 0 else 1 + Length(s[1..], seps)
  }

  function Front(s: string, seps: string): string {
    s[..Length(s, seps)]
  }

  function Behind(s: string, seps: string): string {
    if Length(s, seps) < |s| then s[Length(s, seps) + 1..] else ""
  }

  /** Nick, user and host, told by the separators: `n!u@h`, `u@h`, or `n` alone. */
  function BanParts(s: string): (string, string, string) {
    var n := Length(s, "!@");
    if n == |s| then (Only(s), "", "")
    else if s[n] == '@' then ("*", Only(Front(s, "!@")), Only(Behind(s, "!@")))
    else (Only(Front(s, "!@")), Only(Front(Behind(s, "!@"), "@")), Only(Behind(Behind(s, "!@"), "@")))
  }

  /** User and host of a K-line, `u@h` or `u` alone. */
  function KLineParts(s: string): (string, string) {
    (Only(Front(s, "@")), Only(Behind(s, "@")))
  }

  function Cut(s: string, n: nat): string {
    if |s| > n then s[..n] else s
  }

  function Star(s: string): string {
    if s == "" then "*" else s
  }

  /** The mask: a lone name with a dot is a host, missing parts are stars, and the parts have at most 30, 10
      and 80 characters. */
  function MaskText(s: string, kline: bool): Option<string> {
    if kline then
      var (u, h) := KLineParts(s);
      if u == "" && h == "" then None
      else if '.' in u && h == "" then Some(Collapse("*@" + Cut(u, 80)))
      else Some(Collapse(Cut(Star(u), 10) + "@" + Cut(Star(h), 80)))
    else
      var (n, u, h) := BanParts(s);
      if n == "" && u == "" && h == "" then None
      else if '.' in n && u == "" && h == "" then Some(Collapse("*!*@" + Cut(n, 80)))
      else Some(Collapse(Cut(Star(n), 30) + "!" + Cut(Star(u), 10) + "@" + Cut(Star(h), 80)))
  }

  lemma OnlyNext(s: string)
    requires s != ""
    ensures Only(s) == (if MaskChar(s[0]) then [s[0]] else "") + Only(s[1..])
  {
  }

  lemma LengthNext(s: string, seps: string)
    requires s != ""
    ensures s[0] in seps ==> Front(s, seps) == "" && Behind(s, seps) == s[1..] && Length(s, seps) == 0
    ensures s[0] !in seps ==>
      Front(s, seps) == [s[0]] + Front(s[1..], seps) && Behind(s, seps) == Behind(s[1..], seps)
      && Length(s, seps) == 1 + Length(s[1..], seps)
  {
  }

  /** Behind the last separator only mask characters count. */
  lemma {:induction false} ScanLast(p: Parts, s: string, kline: bool)
    requires if kline then p.at == 1 else p.at == 2
    ensures Scan(p, s, kline) == if kline then p.(b := p.b + Only(s)) else p.(c := p.c + Only(s))
    decreases |s|
  {
    if s == "" {
      assert p.b + "" == p.b && p.c + "" == p.c;
    } else {
      ScanLast(Step(p, s[0], kline), s[1..], kline);
      assert p.b + [s[0]] + Only(s[1..]) == p.b + ([s[0]] + Only(s[1..]));
      assert p.c + [s[0]] + Only(s[1..]) == p.c + ([s[0]] + Only(s[1..]));
      assert "" + Only(s[1..]) == Only(s[1..]);
    }
  }

  /** Behind `!` the first `@` separates. */
  lemma {:induction false} ScanUser(p: Parts, s: string)
    requires p.at == 1 && p.c == ""
    ensures Scan(p, s, false)
         == Parts(p.a, p.b + Only(Front(s, "@")), Only(Behind(s, "@")), if Length(s, "@") < |s| then 2 else 1)
    decreases |s|
  {
    if s == "" {
      assert p.b + "" == p.b;
    } else {
      LengthNext(s, "@");
      if s[0] == '@' {
        ScanLast(Step(p, '@', false), s[1..], false);
        assert p.b + Only("") == p.b && "" + Only(s[1..]) == Only(s[1..]);
      } else {
        ScanUser(Step(p, s[0], false), s[1..]);
        OnlyNext(Front(s, "@"));
        assert Front(s, "@")[1..] == Front(s[1..], "@");
        assert p.b + [s[0]] + Only(Front(s[1..], "@")) == p.b + ([s[0]] + Only(Front(s[1..], "@")));
        assert "" + Only(Front(s[1..], "@")) == Only(Front(s[1..], "@"));
      }
    }
  }

  /** In front of every separator. */
  lemma {:induction false} ScanNick(a: string, s: string)
    ensures var p, n := Scan(Parts(a, "", "", 0), s, false), Length(s, "!@");
      if n == |s| then p == Parts(a + Only(s), "", "", 0)
      else if s[n] == '@' then p == Parts("*", a + Only(Front(s, "!@")), Only(Behind(s, "!@")), 2)
      else
        && p.a == a + Only(Front(s, "!@")) && p.b == Only(Front(Behind(s, "!@"), "@"))
        && p.c == Only(Behind(Behind(s, "!@"), "@"))
    decreases |s|
  {
    var p := Parts(a, "", "", 0);
    if s == "" {
      assert a + "" == a;
    } else {
      LengthNext(s, "!@");
      if s[0] == '@' {
        ScanLast(Step(p, '@', false), s[1..], false);
        assert a + Only("") == a && "" + Only(s[1..]) == Only(s[1..]);
      } else if s[0] == '!' {
        ScanUser(Step(p, '!', false), s[1..]);
        assert a + Only("") == a && "" + Only(Front(s[1..], "@")) == Only(Front(s[1..], "@"));
      } else {
        var more := if MaskChar(s[0]) then a + [s[0]] else a;
        ScanNick(more, s[1..]);
        OnlyNext(s);
        OnlyNext(Front(s, "!@"));
        assert Front(s, "!@")[1..] == Front(s[1..], "!@");
        JoinOnly(a, s[0], Only(s[1..]));
        JoinOnly(a, s[0], Only(Front(s[1..], "!@")));
        assert Length(s[1..], "!@") < |s[1..]| ==> s[1..][Length(s[1..], "!@")] == s[Length(s, "!@")];
      }
    }
  }

  lemma JoinOnly(a: string, c: char, rest: string)
    ensures (if MaskChar(c) then a + [c] else a) + rest == a + ((if MaskChar(c) then [c] else "") + rest)
  {
    assert a + [c] + rest == a + ([c] + rest);
    assert "" + rest == rest;
  }

  lemma {:induction false} ScanKLine(a: string, s: string)
    ensures var p := Scan(Parts(a, "", "", 0), s, true);
      p.a == a + Only(Front(s, "@")) && p.b == Only(Behind(s, "@")) && p.c == ""
    decreases |s|
  {
    var p := Parts(a, "", "", 0);
    if s == "" {
      assert a + "" == a;
    } else {
      LengthNext(s, "@");
      if s[0] == '@' {
        ScanLast(Step(p, '@', true), s[1..], true);
        assert a + Only("") == a && "" + Only(s[1..]) == Only(s[1..]);
      } else {
        ScanKLine(if MaskChar(s[0]) then a + [s[0]] else a, s[1..]);
        OnlyNext(Front(s, "@"));
        assert Front(s, "@")[1..] == Front(s[1..], "@");
        JoinOnly(a, s[0], Only(Front(s[1..], "@")));
      }
    }
  }

  /** Putting a K-line together. */
  lemma KLineJoins(p: Parts)
    requires p.c == ""
    ensures Joined(Fill(p, true), true)
         == if '.' in p.a && p.b == "" then "*@" + Cut(p.a, 80) else Cut(Star(p.a), 10) + "@" + Cut(Star(p.b), 80)
  {
    assert Take("*", 10) == "*";
    assert forall x: string :: "*" + "@" + x == "*@" + x;
  }

  /** Putting a ban together. */
  lemma BanJoins(p: Parts)
    ensures Joined(Fill(p, false), false)
         == if '.' in p.a && p.b == "" && p.c == "" then "*!*@" + Cut(p.a, 80)
            else Cut(Star(p.a), 30) + "!" + Cut(Star(p.b), 10) + "@" + Cut(Star(p.c), 80)
  {
    assert Take("*", 10) == "*" && Take("*", 30) == "*";
    assert forall x: string :: "*" + "!" + "*" + "@" + x == "*!*@" + x;
  }

  lemma KLineScanned(s: string)
    ensures var p := Scan(Parts("", "", "", 0), s, true); (p.a, p.b) == KLineParts(s) && p.c == ""
  {
    ScanKLine("", s);
    assert "" + Only(Front(s, "@")) == Only(Front(s, "@"));
  }

  lemma BanScanned(s: string)
    ensures var p := Scan(Parts("", "", "", 0), s, false); (p.a, p.b, p.c) == BanParts(s)
  {
    ScanNick("", s);
    assert "" + Only(s) == Only(s) && "" + Only(Front(s, "!@")) == Only(Front(s, "!@"));
  }

  /** `create_ban_mask` gives the mask told by the separators, whatever text it is given. */
  lemma MaskIs(s: string, kline: bool)
    ensures BanMaskOf(s, kline) == MaskText(s, kline)
  {
    hide Scan, Collapse, KLineParts, BanParts, Joined, Fill, Cut, Star;
    var p := Scan(Parts("", "", "", 0), s, kline);
    if kline {
      KLineScanned(s);
      KLineJoins(p);
    } else {
      BanScanned(s);
      BanJoins(p);
    }
  }

  lemma SplitAt(u: string, h: string)
    requires Clean(u) && Clean(h)
    ensures BanParts(u + "@" + h) == ("*", u, h)
  {
    var s := u + "@" + h;
    assert s == u + ("@" + h);
    LengthOf(u, "@" + h, "!@");
    OnlyClean(u);
    OnlyClean(h);
    assert Front(s, "!@") == u && Behind(s, "!@") == h;
  }

  /** A user and a host without a nick stand for any nick. */
  lemma UserAtHost(u: string, h: string)
    requires Clean(u) && Clean(h) && u != "" && h != ""
    ensures BanMaskOf(u + "@" + h, false) == Some(Collapse("*!" + Cut(u, 10) + "@" + Cut(h, 80)))
  {
    MaskIs(u + "@" + h, false);
    SplitAt(u, h);
    hide Collapse, BanMaskOf, BanParts;
    assert Cut("*", 30) == "*";
    assert "*" + "!" + Cut(u, 10) + "@" + Cut(h, 80) == "*!" + Cut(u, 10) + "@" + Cut(h, 80);
  }

  lemma {:induction false} OnlyClean(s: string)
    requires Clean(s)
    ensures Only(s) == s
  {
    if s != "" {
      OnlyClean(s[1..]);
    }
  }

  lemma {:induction false} LengthOf(a: string, rest: string, seps: string)
    requires (forall c :: c in a ==> c !in seps) && rest != "" && rest[0] in seps
    ensures Length(a + rest, seps) == |a|
    decreases |a|
  {
    if a == "" {
      assert a + rest == rest;
    } else {
      assert (a + rest)[1..] == a[1..] + rest;
      assert a[0] in a;
      LengthOf(a[1..], rest, seps);
    }
  }
}
