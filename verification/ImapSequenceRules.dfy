/** What a sequence set covers, range by range. */
module ImapSequenceRules {
  import opened JavaScript
  import opened ImapSequence

  /** A list covers what its ranges cover. */
  lemma {:induction false} ListCovers(a: string, b: string, max: int, n: int)
    ensures Covered(a + "," + b, max, n) <==> Covered(a, max, n) || Covered(b, max, n)
  {
    hide Covers;
    SplitJoin(a, b, ',');
    forall c ensures c in Split(a + "," + b, ',') <==> c in Split(a, ',') || c in Split(b, ',') {
    }
  }

  lemma {:induction false} SplitJoin(a: string, b: string, sep: char)
    ensures Split(a + [sep] + b, sep) == Split(a, sep) + Split(b, sep)
    decreases |a|
  {
    if a == "" {
      assert a + [sep] + b == [sep] + b && ([sep] + b)[1..] == b;
    } else {
      assert (a + [sep] + b)[1..] == a[1..] + [sep] + b;
      SplitJoin(a[1..], b, sep);
      Onto(a[0], sep, Split(a[1..], sep), Split(b, sep));
      assert (a + [sep] + b)[0] == a[0];
    }
  }

  lemma Onto(c: char, sep: char, rest: seq<string>, tail: seq<string>)
    requires rest != []
    ensures (rest + tail)[0] == rest[0]
    ensures [""] + (rest + tail) == ([""] + rest) + tail
    ensures [[c] + rest[0]] + (rest + tail)[1..] == ([[c] + rest[0]] + rest[1..]) + tail
  {
  }

  lemma {:induction false} SplitWhole(s: string, sep: char)
    requires sep !in s
    ensures Split(s, sep) == [s]
  {
    if s != "" {
      assert s[0] in s && forall c :: c in s[1..] ==> c in s;
      SplitWhole(s[1..], sep);
      assert [s[0]] + s[1..] == s && Split(s[1..], sep)[1..] == [];
    }
  }

  /** The number that a bound stands for; `*` is the highest. */
  function BoundValue(s: string, max: int): Num {
    if s == "*" then Number(max) else ParseInt(s)
  }

  /** A single bound covers its own number. */
  lemma OneCovers(a: string, max: int, n: int)
    requires ':' !in a && ',' !in a
    ensures Covered(a, max, n) <==> BoundValue(a, max) == Number(n)
  {
    SplitWhole(a, ',');
    SplitWhole(a, ':');
    assert Covers(a, max, n) <==> BoundValue(a, max) == Number(n);
  }

  /** Two bounds cover what lies between them, whichever comes first; further ones do not count. */
  lemma RangeCovers(a: string, b: string, more: string, max: int, n: int)
    requires ':' !in a && ':' !in b && ',' !in a && ',' !in b && ',' !in more && (more == "" || more[0] == ':')
    ensures var x, y := BoundValue(a, max), BoundValue(b, max);
      Covered(a + ":" + b + more, max, n)
      <==> x.Number? && y.Number? && (x.n <= n <= y.n || y.n <= n <= x.n)
  {
    var chunk := a + ":" + b + more;
    OneChunk(a, b, more, max, n);
    TwoParts(a, b, more);
    BoundIs(a, max);
    BoundIs(b, max);
    hide Split, Bound, BoundValue;
  }

  lemma BoundIs(s: string, max: int)
    ensures Bound(s, max) == match BoundValue(s, max) case NaN => None case Number(n) => Some(n)
  {
  }

  lemma OneChunk(a: string, b: string, more: string, max: int, n: int)
    requires ',' !in a && ',' !in b && ',' !in more
    ensures Covered(a + ":" + b + more, max, n) <==> Covers(a + ":" + b + more, max, n)
  {
    hide Covers;
    var chunk := a + ":" + b + more;
    assert forall c :: c in chunk ==> c in a || c == ':' || c in b || c in more;
    SplitWhole(chunk, ',');
  }

  lemma TwoParts(a: string, b: string, more: string)
    requires ':' !in a && ':' !in b && (more == "" || more[0] == ':')
    ensures var parts := Split(a + ":" + b + more, ':'); |parts| >= 2 && parts[0] == a && parts[1] == b
  {
    assert a + ":" + b + more == a + ":" + (b + more);
    SplitJoin(a, b + more, ':');
    SplitWhole(a, ':');
    SplitWhole(b, ':');
    if more != "" {
      assert b + more == b + ":" + more[1..];
      SplitJoin(b, more[1..], ':');
    } else {
      assert b + more == b;
    }
  }

  /** What a set selects: indexed messages, by their numbers in UID mode and by their places otherwise. */
  lemma SelectsMeans(set_: string, uid: bool, index: Index, lastMsg: int, m: int)
    ensures Selects(set_, uid, index, lastMsg, m)
       <==> m in index.idx && if uid then Covered(set_, lastMsg, m) else Covered(set_, |index.offsets|, index.idx[m])
  {
  }

  /** The index holds the records that are there, in the mail base those addressed to the user. */
  lemma {:induction false} VisibleMeans(records: seq<Option<Record>>, mail: bool, user: int, n: int)
    ensures n in Visible(records, mail, user)
       <==> exists r :: Some(r) in records && r.number == n && (mail ==> r.to == user)
    decreases |records|
  {
    if records != [] {
      var front, last := records[..|records| - 1], records[|records| - 1];
      VisibleMeans(front, mail, user, n);
      assert records == front + [last];
      if exists r :: Some(r) in front && r.number == n && (mail ==> r.to == user) {
        var r :| Some(r) in front && r.number == n && (mail ==> r.to == user);
        assert Some(r) in records;
      }
      if last.Some? && last.value.number == n && (mail ==> last.value.to == user) {
        assert Some(last.value) in records;
      }
    }
  }
}
