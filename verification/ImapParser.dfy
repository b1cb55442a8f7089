/** The IMAP service's command parser and the token encoder it is the counterpart of. */
module ImapParser {
  datatype Tree = Atom(s: string) | List(items: seq<Tree>)

  // ------------------------------------------------------------------- encoding

  /** Characters that keep a token from being sent bare. */
  predicate Special(c: char) {
    c in {'(', ')', '{', ' ', '*', '%', '\"', '\\', ']'} || c <= '\U{1F}'
  }

  /** Characters that keep a string from being sent in quotes. */
  predicate Unquotable(c: char) {
    c == '\r' || c == '\n' || '\U{80}' <= c <= '\U{FF}'
  }

  function Escape(s: string): string {
    if s == "" then ""
    else (if s[0] == '\"' || s[0] == '\\' then ['\\', s[0]] else [s[0]]) + Escape(s[1..])
  }

  function Digits(n: nat): string {
    if n < 10 then [n as char + '0'] else Digits(n / 10) + [(n % 10) as char + '0']
  }

  function EncodeBinary(s: string): string {
    "{" + Digits(|s|) + "}\r\n" + s
  }

  function EncodeString(s: string): string {
    if s == "" then "\"\""
    else if forall c :: c in s ==> !Unquotable(c) then "\"" + Escape(s) + "\""
    else EncodeBinary(s)
  }

  function EncodeToken(s: string): string {
    if s == "" then EncodeString(s)
    else if forall c :: c in s ==> !Special(c) then s
    else EncodeString(s)
  }

  function Encode(t: Tree): string
    decreases t, 0
  {
    match t
    case Atom(s) => EncodeToken(s)
    case List(items) => "(" + EncodeAll(items) + ")"
  }

  /** The members of a list, separated by spaces. */
  function EncodeAll(ts: seq<Tree>): string
    decreases ts, 1
  {
    if ts == [] then "" else if |ts| == 1 then Encode(ts[0]) else Encode(ts[0]) + " " + EncodeAll(ts[1..])
  }

  // -------------------------------------------------------------------- parsing

  /** `NeedsLiteral`: a literal's text has to be fetched from the client first. */
  datatype Parsed = Parsed(args: seq<Tree>, rest: string) | NeedsLiteral

  /** An atom extends to a space, which is consumed, or a closing parenthesis, which is not. */
  function AtomEnd(line: string): (n: nat)
    ensures n <= |line|
    ensures forall i :: 0 <= i < n ==> line[i] != ')' && line[i] != ' '
    ensures n < |line| ==> line[n] == ')' || line[n] == ' '
  {
    if line == "" || line[0] == ')' || line[0] == ' ' then 0 else 1 + AtomEnd(line[1..])
  }

  function QuoteEnd(line: string): (n: nat)
    ensures n <= |line|
    ensures forall i :: 0 <= i < n ==> line[i] != '\"'
    ensures n < |line| ==> line[n] == '\"'
  {
    if line == "" || line[0] == '\"' then 0 else 1 + QuoteEnd(line[1..])
  }

  function AfterAtom(line: string): (rest: string)
    ensures |rest| <= |line| && (line != "" && line[0] != ')' ==> |rest| < |line|)
  {
    var n := AtomEnd(line);
    if n < |line| && line[n] == ' ' then line[n + 1..] else line[n..]
  }

  function AfterQuote(line: string): (rest: string)
    ensures |rest| <= |line|
  {
    var n := QuoteEnd(line);
    if n < |line| then line[n + 1..] else ""
  }

  function Prepend(ts: seq<Tree>, p: Parsed): Parsed {
    match p
    case Parsed(args, rest) => Parsed(ts + args, rest)
    case NeedsLiteral => NeedsLiteral
  }

  function Parse(line: string): (p: Parsed)
    ensures p.Parsed? ==> |p.rest| <= |line|
    decreases |line|
  {
    if line == "" then Parsed([], "")
    else if line[0] == '\"' then
      var n := QuoteEnd(line[1..]);
      Prepend([Atom(line[1..][..n])], Parse(AfterQuote(line[1..])))
    else if line[0] == ')' then Parsed([], line[1..])
    else if line[0] == '(' then
      var sub := Parse(line[1..]);
      if sub.NeedsLiteral? then NeedsLiteral else Prepend([List(sub.args)], Parse(sub.rest))
    else if line[0] == '{' then NeedsLiteral
    else if line[0] == ' ' then Parse(line[1..])
    else Prepend([Atom(line[..AtomEnd(line)])], Parse(AfterAtom(line)))
  }

  lemma PrependTwice(a: seq<Tree>, b: seq<Tree>, p: Parsed)
    ensures Prepend(a, Prepend(b, p)) == Prepend(a + b, p)
  {
    if p.Parsed? {
      assert a + (b + p.args) == (a + b) + p.args;
    }
  }

  lemma PrependNothing(p: Parsed)
    ensures Prepend([], p) == p
  {
    if p.Parsed? {
      assert [] + p.args == p.args;
    }
  }

  /** The parser with its shared buffer. `ok` is false when it stops at a literal. */
  class Parser {
    var line: string

    method ParseAtom() returns (ret: string)
      modifies this
      ensures ret == old(line)[..AtomEnd(old(line))] && line == AfterAtom(old(line))
    {
      hide AtomEnd;
      ret := "";
      ghost var src, k := line, 0;
      while line != "" && line[0] != ')'
        invariant 0 <= k <= AtomEnd(src) && ret == src[..k] && line == src[k..]
        decreases |line|
      {
        assert line[0] == src[k];
        if line[0] == ' ' {
          line := line[1..];
          return;
        }
        ret, line := ret + [line[0]], line[1..];
        k := k + 1;
      }
      assert line != "" ==> src[k] == line[0];
    }

    method ParseQuotedString() returns (ret: string)
      requires line != ""
      modifies this
      ensures ret == old(line)[1..][..QuoteEnd(old(line)[1..])] && line == AfterQuote(old(line)[1..])
    {
      hide QuoteEnd;
      ret, line := "", line[1..];
      ghost var src, k := line, 0;
      while line != ""
        invariant 0 <= k <= QuoteEnd(src) && ret == src[..k] && line == src[k..]
        decreases |line|
      {
        assert line[0] == src[k];
        if line[0] == '\"' {
          line := line[1..];
          return;
        }
        ret, line := ret + [line[0]], line[1..];
        k := k + 1;
      }
    }

    method ParseLine() returns (args: seq<Tree>, ok: bool)
      modifies this
      ensures ok == Parse(old(line)).Parsed?
      ensures ok ==> Parse(old(line)) == Parsed(args, line)
      decreases |line|
    {
      hide AtomEnd, QuoteEnd, AfterAtom, AfterQuote;
      args, ok := [], true;
      PrependNothing(Parse(line));
      while line != ""
        invariant |line| <= |old(line)|
        invariant Parse(old(line)) == Prepend(args, Parse(line))
        decreases |line|
      {
        if line[0] == '\"' {
          PrependTwice(args, [Atom(line[1..][..QuoteEnd(line[1..])])], Parse(AfterQuote(line[1..])));
          var s := ParseQuotedString();
          args := args + [Atom(s)];
        } else if line[0] == ')' {
          line := line[1..];
          return;
        } else if line[0] == '(' {
          line := line[1..];
          ghost var p := Parse(line);
          var sub;
          sub, ok := ParseLine();
          if !ok {
            return;
          }
          PrependTwice(args, [List(sub)], Parse(line));
          args := args + [List(sub)];
        } else if line[0] == '{' {
          return args, false;
        } else if line[0] == ' ' {
          line := line[1..];
        } else {
          PrependTwice(args, [Atom(line[..AtomEnd(line)])], Parse(AfterAtom(line)));
          var s := ParseAtom();
          args := args + [Atom(s)];
        }
      }
    }
  }

  // ----------------------------------------------------------------- round trip

  /** The token is printed without escapes and without a literal. */
  predicate Simple(s: string) {
    && (forall c :: c in s ==> c != '\"' && c != '\\')
    && ((exists c :: c in s && Special(c)) ==> forall c :: c in s ==> !Unquotable(c))
  }

  predicate SimpleTree(t: Tree)
    decreases t, 0
  {
    match t
    case Atom(s) => Simple(s)
    case List(items) => AllSimple(items)
  }

  predicate AllSimple(ts: seq<Tree>)
    decreases ts, 1
  {
    ts == [] || (SimpleTree(ts[0]) && AllSimple(ts[1..]))
  }

  /** What may follow an encoded token. */
  predicate Ends(more: string) {
    more == "" || more[0] == ' ' || more[0] == ')'
  }

  lemma {:induction false} EscapePlain(s: string)
    requires forall c :: c in s ==> c != '\"' && c != '\\'
    ensures Escape(s) == s
  {
    if s != "" {
      assert s[0] in s && forall c :: c in s[1..] ==> c in s;
      EscapePlain(s[1..]);
    }
  }

  lemma {:induction false} EscapeLonger(s: string)
    ensures |Escape(s)| >= |s|
    ensures '\\' in s ==> |Escape(s)| > |s|
    ensures '\"' !in s ==> '\"' !in Escape(s)
  {
    if s != "" {
      EscapeLonger(s[1..]);
      assert s == [s[0]] + s[1..];
    }
  }

  lemma QuotedParse(body: string, more: string)
    requires '\"' !in body
    ensures Parse("\"" + body + "\"" + more) == Prepend([Atom(body)], Parse(more))
  {
    var line := "\"" + body + "\"" + more;
    var quoted := body + "\"" + more;
    assert line[1..] == quoted && quoted[|body|] == '\"';
    assert QuoteEnd(quoted) == |body| && quoted[..|body|] == body && quoted[|body| + 1..] == more;
  }

  lemma BareParse(s: string, more: string)
    requires s != "" && (forall c :: c in s ==> !Special(c)) && Ends(more)
    ensures Parse(s + more) == Prepend([Atom(s)], Parse(more))
  {
    var line := s + more;
    assert line[0] == s[0] && s[0] in s;
    assert forall i :: 0 <= i < |s| ==> line[i] == s[i] && s[i] in s && !Special(s[i]);
    assert more != "" ==> line[|s|] == more[0];
    assert AtomEnd(line) == |s| && line[..|s|] == s;
    if more != "" && more[0] == ' ' {
      assert AfterAtom(line) == more[1..];
      assert Parse(more) == Parse(more[1..]);
    } else {
      assert AfterAtom(line) == more;
    }
  }

  lemma TokenParse(s: string, more: string)
    requires Simple(s) && Ends(more)
    ensures Parse(EncodeToken(s) + more) == Prepend([Atom(s)], Parse(more))
  {
    if s == "" {
      QuotedParse("", more);
      assert EncodeToken(s) == "\"" + "" + "\"";
    } else if forall c :: c in s ==> !Special(c) {
      BareParse(s, more);
    } else {
      EscapePlain(s);
      QuotedParse(s, more);
    }
  }

  /** The parser ends a quoted string at the first quote, escaped or not, and keeps the
      backslashes. */
  lemma EscapedWrong(s: string, more: string)
    requires '\"' in s || '\\' in s
    ensures var quoted := Escape(s) + "\"" + more; quoted[..QuoteEnd(quoted)] != s
  {
    var quoted := Escape(s) + "\"" + more;
    var arg := quoted[..QuoteEnd(quoted)];
    EscapeLonger(s);
    if '\"' in s {
      assert '\"' !in arg;
    } else {
      assert quoted[|Escape(s)|] == '\"';
      assert forall i :: 0 <= i < |Escape(s)| ==> quoted[i] == Escape(s)[i] && Escape(s)[i] in Escape(s);
      assert |arg| == |Escape(s)|;
    }
  }

  /** A token that is not simple comes back as something else, or not at all. */
  lemma QuotedFirst(line: string)
    requires line != "" && line[0] == '\"'
    ensures var p := Parse(line); p.Parsed? ==> p.args != [] && p.args[0] == Atom(line[1..][..QuoteEnd(line[1..])])
  {
  }

  lemma LiteralFirst(line: string)
    requires line != "" && line[0] == '{'
    ensures Parse(line).NeedsLiteral?
  {
  }

  lemma TokenWrong(s: string, more: string)
    requires !Simple(s)
    ensures var p := Parse(EncodeToken(s) + more); p.Parsed? ==> p.args != [] && p.args[0] != Atom(s)
  {
    hide Escape, QuoteEnd, Digits, Parse;
    var line := EncodeToken(s) + more;
    if forall c :: c in s ==> !Unquotable(c) {
      assert '\"' in s || '\\' in s;
      assert Special('\"') && Special('\\');
      EscapedWrong(s, more);
      var quoted := Escape(s) + "\"" + more;
      assert line[0] == '\"' && line[1..] == quoted;
      QuotedFirst(line);
    } else {
      LiteralFirst(line);
    }
  }

  lemma ParseSpace(rest: string)
    ensures Parse(" " + rest) == Parse(rest) && Ends(" " + rest)
  {
    assert (" " + rest)[1..] == rest;
  }

  lemma ParseClose(rest: string)
    ensures Parse(")" + rest) == Parsed([], rest)
  {
    assert (")" + rest)[1..] == rest;
  }

  lemma ParseOpen(rest: string)
    ensures Parse("(" + rest) == (var sub := Parse(rest);
      if sub.NeedsLiteral? then NeedsLiteral else Prepend([List(sub.args)], Parse(sub.rest)))
  {
    assert ("(" + rest)[1..] == rest;
  }

  lemma ListText(items: seq<Tree>, more: string)
    ensures Encode(List(items)) + more == "(" + (EncodeAll(items) + (")" + more))
  {
  }

  lemma ItemsText(ts: seq<Tree>, more: string)
    requires |ts| > 1
    ensures EncodeAll(ts) + more == Encode(ts[0]) + (" " + (EncodeAll(ts[1..]) + more))
    ensures ts == [ts[0]] + ts[1..]
  {
    hide Encode;
    var a, b := Encode(ts[0]), EncodeAll(ts[1..]);
    assert EncodeAll(ts) == a + " " + b;
    hide EncodeAll;
    Regroup(a, " ", b, more);
    assert ts == [ts[0]] + ts[1..];
  }

  lemma Regroup(a: string, b: string, c: string, d: string)
    ensures a + b + c + d == a + (b + (c + d))
  {
  }

  lemma {:induction false} TreeParse(t: Tree, more: string)
    requires SimpleTree(t) && Ends(more)
    ensures Parse(Encode(t) + more) == Prepend([t], Parse(more))
    decreases t, 0
  {
    hide Parse, EncodeAll, Simple, EncodeToken;
    match t
    case Atom(s) =>
      TokenParse(s, more);
    case List(items) =>
      ListText(items, more);
      ParseOpen(EncodeAll(items) + (")" + more));
      ItemsParse(items, ")" + more);
      ParseClose(more);
      assert items + [] == items;
  }

  lemma {:induction false} ItemsParse(ts: seq<Tree>, more: string)
    requires AllSimple(ts) && (more == "" || more[0] == ')')
    ensures Parse(EncodeAll(ts) + more) == Prepend(ts, Parse(more))
    decreases ts, 1
  {
    hide Parse, Encode;
    if ts == [] {
      assert EncodeAll(ts) + more == more;
      PrependNothing(Parse(more));
    } else if |ts| == 1 {
      assert ts == [ts[0]];
      TreeParse(ts[0], more);
    } else {
      var rest := EncodeAll(ts[1..]) + more;
      ItemsText(ts, more);
      ParseSpace(rest);
      TreeParse(ts[0], " " + rest);
      ItemsParse(ts[1..], more);
      hide Prepend;
      PrependTwice([ts[0]], ts[1..], Parse(more));
    }
  }

  /** Parsing does not start with the trees `ts`. */
  predicate Misses(p: Parsed, ts: seq<Tree>) {
    p.Parsed? ==> !(ts <= p.args)
  }

  lemma MissesFirst(t: Tree, u: Tree, p: Parsed)
    requires t != u
    ensures Misses(Prepend([u], p), [t])
  {
    if p.Parsed? {
      assert ([u] + p.args)[0] == u && [t][0] == t;
    }
  }

  lemma MissesLater(t: Tree, ts: seq<Tree>, p: Parsed)
    ensures Misses(p, ts) ==> Misses(Prepend([t], p), [t] + ts)
    ensures Misses(p, [t]) ==> Misses(p, [t] + ts)
  {
    if p.Parsed? && [t] + ts <= [t] + p.args {
      assert ts == ([t] + ts)[1..] && p.args == ([t] + p.args)[1..];
    }
  }

  lemma {:induction false} TreeWrong(t: Tree, more: string)
    requires !SimpleTree(t)
    ensures Misses(Parse(Encode(t) + more), [t])
    decreases t, 0
  {
    hide Parse, EncodeAll, Simple, EncodeToken;
    match t
    case Atom(s) =>
      TokenWrong(s, more);
    case List(items) =>
      var inner := EncodeAll(items) + (")" + more);
      ListText(items, more);
      ParseOpen(inner);
      ItemsWrong(items, ")" + more);
      if Parse(inner).Parsed? {
        MissesFirst(t, List(Parse(inner).args), Parse(Parse(inner).rest));
      }
  }

  lemma {:induction false} ItemsWrong(ts: seq<Tree>, more: string)
    requires !AllSimple(ts)
    ensures Misses(Parse(EncodeAll(ts) + more), ts)
    decreases ts, 1
  {
    hide Parse, Encode, Misses;
    if |ts| == 1 {
      assert ts == [ts[0]];
      TreeWrong(ts[0], more);
    } else {
      var rest := EncodeAll(ts[1..]) + more;
      ItemsText(ts, more);
      ParseSpace(rest);
      if SimpleTree(ts[0]) {
        TreeParse(ts[0], " " + rest);
        ItemsWrong(ts[1..], more);
        MissesLater(ts[0], ts[1..], Parse(rest));
      } else {
        TreeWrong(ts[0], " " + rest);
        MissesLater(ts[0], ts[1..], Parse(Encode(ts[0]) + (" " + rest)));
      }
    }
  }

  /** The parser undoes the encoder, consuming everything, exactly on the trees whose tokens
      need neither escapes nor literals. */
  lemma RoundTrip(ts: seq<Tree>)
    ensures Parse(EncodeAll(ts)) == Parsed(ts, "") <==> AllSimple(ts)
  {
    hide EncodeAll, AllSimple;
    assert EncodeAll(ts) + "" == EncodeAll(ts) && ts + [] == ts;
    if AllSimple(ts) {
      ItemsParse(ts, "");
    } else {
      ItemsWrong(ts, "");
    }
  }

  /** A folder name with a backslash. */
  lemma BackslashDoubled()
    ensures Parse(EncodeAll([Atom("a\\b")])) == Parsed([Atom("a\\\\b")], "")
  {
    var s, d := "a\\b", "a\\\\b";
    assert s[1..] == "\\b" && s[1..][1..] == "b" && s[1..][1..][1..] == "";
    assert Escape("b") == "b";
    assert Escape("\\b") == "\\\\b";
    assert Escape(s) == d;
    assert Special(s[1]) && s[1] in s;
    QuotedParse(d, "");
    assert "\"" + d + "\"" + "" == EncodeToken(s) && [Atom(d)] + [] == [Atom(d)];
  }
}
