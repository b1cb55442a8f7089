/** What the token printer writes and the command parser reads, character by character. */
module ImapParserRules {
  import JavaScript
  import opened ImapParser

  // ---------------------------------------------------------------- printing

  /** A character that cannot stand in a bare token. */
  predicate NeedsQuotes(c: char) {
    c in "(){ *%\"\\]" || c < ' '
  }

  /** A character that cannot stand in quotes. */
  predicate NeedsCount(c: char) {
    c == '\r' || c == '\n' || '\U{7F}' < c < '\U{100}'
  }

  /** A token is written bare if it can be, in quotes if it can be, and else behind its length. */
  lemma TokenWritten(s: string)
    ensures EncodeToken(s)
         == if s != "" && (forall c :: c in s ==> !NeedsQuotes(c)) then s
            else if forall c :: c in s ==> !NeedsCount(c) then "\"" + Escape(s) + "\""
            else "{" + Digits(|s|) + "}\r\n" + s
  {
    SameClasses();
    EscapeNothing();
    hide Escape, Digits, Special, NeedsQuotes, Unquotable, NeedsCount;
    assert s == "" ==> "\"" + s + "\"" == "\"\"";
  }

  lemma SameClasses()
    ensures forall c :: Special(c) <==> NeedsQuotes(c)
    ensures forall c :: Unquotable(c) <==> NeedsCount(c)
  {
  }

  lemma EscapeNothing()
    ensures Escape("") == ""
  {
  }

  /** In quotes a quote and a backslash stand behind a backslash. */
  lemma EscapeNext(c: char, s: string)
    ensures Escape([c] + s) == (if c == '\"' || c == '\\' then ['\\', c] else [c]) + Escape(s)
  {
    assert ([c] + s)[1..] == s;
  }

  /** The length is written so that it reads back. */
  lemma LengthReads(n: nat, rest: string)
    requires rest == "" || !JavaScript.IsDigit(rest[0])
    ensures JavaScript.Digits(Digits(n) + rest, 0) == n
    ensures Digits(n) != "" && JavaScript.IsDigit(Digits(n)[0])
  {
    LengthBefore(n, rest, 0);
    LengthValue(n);
  }

  lemma {:induction false} LengthValue(n: nat)
    ensures JavaScript.Digits(Digits(n), 0) == n
    ensures Digits(n) != "" && JavaScript.IsDigit(Digits(n)[0])
    decreases n
  {
    var d := (n % 10) as char + '0';
    OneMore(n % 10, "");
    DigitThen(d, "", if n < 10 then 0 else n / 10);
    assert [d] + "" == [d];
    if n >= 10 {
      LengthValue(n / 10);
      LengthBefore(n / 10, [d], 0);
    }
  }

  lemma OneMore(d: nat, rest: string)
    requires d < 10
    ensures JavaScript.IsDigit(d as char + '0') && ((d as char + '0') - '0') as nat == d
  {
  }

  lemma DigitThen(d: char, rest: string, value: nat)
    requires JavaScript.IsDigit(d) && (rest == "" || !JavaScript.IsDigit(rest[0]))
    ensures JavaScript.Digits([d] + rest, value) == 10 * value + (d - '0') as nat
  {
    assert ([d] + rest)[1..] == rest;
  }

  lemma {:induction false} LengthBefore(n: nat, rest: string, value: nat)
    ensures JavaScript.Digits(Digits(n) + rest, value) == JavaScript.Digits(rest, JavaScript.Digits(Digits(n), value))
    decreases n
  {
    var d := (n % 10) as char + '0';
    OneMore(n % 10, rest);
    if n < 10 {
      assert Digits(n) == [d] && ([d] + rest)[1..] == rest && [d][1..] == "";
    } else {
      assert Digits(n) + rest == Digits(n / 10) + ([d] + rest);
      LengthBefore(n / 10, [d] + rest, value);
      LengthBefore(n / 10, [d], value);
      assert ([d] + rest)[1..] == rest && [d][1..] == "";
    }
  }

  /** A list is its members between parentheses, with one space between two of them. */
  lemma ListWritten(t: Tree, u: Tree, ts: seq<Tree>)
    ensures Encode(List(ts)) == "(" + EncodeAll(ts) + ")" && forall s :: Encode(Atom(s)) == EncodeToken(s)
    ensures EncodeAll([]) == "" && EncodeAll([t]) == Encode(t)
    ensures EncodeAll([t, u] + ts) == Encode(t) + " " + EncodeAll([u] + ts)
  {
    assert ([t, u] + ts)[1..] == [u] + ts;
  }

  // ---------------------------------------------------------------- reading

  /** The end of the line, spaces and parentheses. */
  lemma MarksRead(s: string)
    ensures Parse("") == Parsed([], "") && Parse(" " + s) == Parse(s) && Parse(")" + s) == Parsed([], s)
    ensures Parse("{" + s) == NeedsLiteral
    ensures Parse("(" + s)
         == match Parse(s)
            case NeedsLiteral => NeedsLiteral
            case Parsed(inner, rest) =>
              (match Parse(rest)
               case NeedsLiteral => NeedsLiteral
               case Parsed(args, end) => Parsed([List(inner)] + args, end))
  {
    ParseSpace(s);
    ParseClose(s);
    ParseOpen(s);
    assert ("{" + s)[0] == '{';
  }

  /** Whatever stands between quotes, or behind a quote that is not closed, is one argument. */
  lemma QuotesRead(body: string, more: string)
    requires '\"' !in body
    ensures Parse("\"" + body) == Parsed([Atom(body)], "")
    ensures Parse("\"" + body + "\"" + more)
         == match Parse(more)
            case NeedsLiteral => NeedsLiteral
            case Parsed(args, end) => Parsed([Atom(body)] + args, end)
  {
    QuotedParse(body, more);
    var line := "\"" + body;
    assert line[1..] == body;
    assert QuoteEnd(body) == |body| && body[..|body|] == body;
  }

  /** Anything else is a word up to a space or a closing parenthesis, quotes and parentheses inside it
      included. */
  lemma WordRead(s: string, more: string)
    requires s != "" && s[0] !in "\"(){ " && ' ' !in s && ')' !in s
    requires more == "" || more[0] == ' ' || more[0] == ')'
    ensures Parse(s + more)
         == match Parse(more)
            case NeedsLiteral => NeedsLiteral
            case Parsed(args, end) => Parsed([Atom(s)] + args, end)
  {
    var line := s + more;
    assert line[0] == s[0];
    assert forall i :: 0 <= i < |s| ==> line[i] == s[i] && s[i] in s;
    assert more != "" ==> line[|s|] == more[0];
    assert AtomEnd(line) == |s| && line[..|s|] == s;
    if more != "" && more[0] == ' ' {
      assert AfterAtom(line) == more[1..];
      assert more == " " + more[1..];
      ParseSpace(more[1..]);
    } else {
      assert AfterAtom(line) == more;
    }
  }
}
