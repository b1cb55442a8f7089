/** How part numbers are found, which entry a part goes to, what is stored, and what is written. */
module PartsRules {
  import opened JavaScript
  import opened PartsDatabase

  // ---------------------------------------------------------------- numbers

  /** A part number of at least one counts as given, and so does a total of at least the part number; only
      otherwise the subject is looked at. */
  lemma NumbersMean(c: Call, part: int, total: int)
    ensures c.part == Number(part) && c.total == Some(Number(total)) && 1 <= part <= total ==>
              Resolve(c) == Some((Number(part), Number(total)))
    ensures c.part == Number(part) && part >= 1
            && (c.total == None || (c.total == Some(Number(total)) && total < part)) ==>
              Resolve(c)
              == match SubjectTotal(c.subject)
                 case NaN => Some((Number(part), NaN))
                 case Number(t) => if t < part then None else Some((Number(part), Number(t)))
    ensures c.part == Number(part) && part < 1 && SubjectPart(c.subject).Number? && SubjectPart(c.subject).n < 1 ==>
              Resolve(c) == None
    ensures c.part == Number(part) && part < 1 && !(SubjectPart(c.subject).Number? && SubjectPart(c.subject).n < 1) ==>
              Resolve(c) == Resolve(c.(part := SubjectPart(c.subject)))
    ensures c.part == NaN && c.total == Some(Number(total)) ==> Resolve(c) == Some((NaN, Number(total)))
  {
    hide SubjectPart, SubjectTotal;
  }

  /** The subject's numbers stand behind its last opening parenthesis, or bracket if it has none: the part
      in front, the total behind the first slash. */
  lemma SubjectMeans(head: string, tail: string, open: char)
    requires (open == '(' && '(' !in tail) || (open == '[' && '(' !in head && '(' !in tail && '[' !in tail)
    ensures SubjectPart(head + [open] + tail) == ParseInt(tail)
    ensures '/' !in tail ==> SubjectTotal(head + [open] + tail) == Number(-1)
    ensures forall a, b :: tail == a + "/" + b && '/' !in a ==> SubjectTotal(head + [open] + tail) == ParseInt(b)
  {
    hide ParseInt;
    var s := head + [open] + tail;
    LastAt(head, open, tail);
    if open == '[' {
      NoneIn(s, '(');
    }
    assert s[|head| + 1..] == tail;
    if '/' !in tail {
      NotFound(tail, '/');
    }
    forall a, b | tail == a + "/" + b && '/' !in a ensures SubjectTotal(s) == ParseInt(b) {
      FirstAt(a, '/', b);
      assert tail[|a| + 1..] == b;
    }
  }

  /** Without either the call is turned down, unless its numbers are given. */
  lemma NoBracket(s: string)
    requires '(' !in s && '[' !in s
    ensures SubjectPart(s) == Number(-1) && SubjectTotal(s) == Number(-1)
  {
    NoneIn(s, '(');
    NoneIn(s, '[');
  }

  lemma {:induction false} LastAt(head: string, c: char, tail: string)
    requires c !in tail
    ensures LastOf(head + [c] + tail, c) == |head|
    decreases |tail|
  {
    var s := head + [c] + tail;
    if tail != "" {
      var short := tail[..|tail| - 1];
      assert s[..|s| - 1] == head + [c] + short && s[|s| - 1] == tail[|tail| - 1];
      LastAt(head, c, short);
    }
  }

  lemma {:induction false} NoneIn(s: string, c: char)
    requires c !in s
    ensures LastOf(s, c) == -1
  {
    if s != "" {
      NoneIn(s[..|s| - 1], c);
    }
  }

  lemma {:induction false} FirstAt(a: string, c: char, b: string)
    requires c !in a
    ensures FirstOf(a + [c] + b, c) == |a|
    decreases |a|
  {
    var s := a + [c] + b;
    if a != "" {
      assert s[0] == a[0] && s[1..] == a[1..] + [c] + b;
      FirstAt(a[1..], c, b);
    }
  }

  lemma {:induction false} NotFound(s: string, c: char)
    requires c !in s
    ensures FirstOf(s, c) == -1
  {
    if s != "" {
      NotFound(s[1..], c);
    }
  }

  // ---------------------------------------------------------------- storing

  /** An entry takes a part of the same file: same name, codec and total, and the same size and checksum if
      the part brings them. */
  lemma MatchMeans(e: Entry, c: Call, total: int)
    ensures Matches(e, c, Number(total))
       <==> e.name == c.name && e.codec == c.codec && e.total == Number(total)
            && (c.size.Some? ==> e.size == c.size) && (c.crc.Some? ==> e.crc == c.crc)
    ensures !Matches(e, c, NaN)
  {
  }

  /** A part that is not known yet goes to the first entry that matches, or to a new one at the end; nothing
      else changes. */
  lemma AddStores(list: seq<Entry>, c: Call, part: int, total: int) returns (k: nat)
    requires Resolve(c) == Some((Number(part), Number(total)))
    ensures k <= |list| && (forall i :: 0 <= i < k ==> !Matches(list[i], c, Number(total)))
    ensures k < |list| ==> Matches(list[k], c, Number(total))
    ensures var e := if k < |list| then list[k] else Entry(c.name, c.codec, Number(total), c.size, c.crc, 0, {}, map[]);
      var after := Added(list, c);
      if part in e.ids then after == list
      else
        && |after| == (if k < |list| then |list| else |list| + 1)
        && (forall i :: 0 <= i < |list| && i != k ==> after[i] == list[i])
        && after[k].name == e.name && after[k].codec == e.codec && after[k].total == e.total
        && after[k].size == e.size && after[k].crc == e.crc && after[k].parts == e.parts + 1
        && after[k].ids == (if c.id.Some? then e.ids + {part} else e.ids)
        && after[k].info == e.info[part := c.info]
  {
    k := Find(list, c, Number(total));
  }

  /** A stored part is found under its name, size and total. */
  lemma HoldsMeans(e: Entry, name: string, size: Option<int>, part: int, total: int)
    ensures Holds(e, name, size, Number(part), Number(total))
       <==> e.name == name && e.size == size && e.total == Number(total) && part in e.ids
  {
  }

  // ---------------------------------------------------------------- writing

  /** The lines of a part: those of the message from the first to the last given, as far as it has them. */
  lemma LinesMean(body: seq<string>, first: nat, last: int)
    ensures var lines, n := Lines(body, first, last), if last < |body| then last + 1 - first else |body| - first;
      |lines| == (if n > 0 then n else 0) && forall i :: 0 <= i < |lines| ==> lines[i] == body[first + i]
  {
  }

  /** A part's lines are read from the message it was stored with. */
  lemma PartMeans(e: Entry, bodies: Bodies, k: int)
    ensures Readable(e, bodies, k) <==> k in e.info && (e.info[k].sub, e.info[k].msg) in bodies
    ensures Readable(e, bodies, k) ==>
              PartLines(e, bodies, k) == Lines(bodies[(e.info[k].sub, e.info[k].msg)], e.info[k].first, e.info[k].last)
  {
    hide Lines;
  }

  /** The file begins with part 1, and each part follows the one before. */
  lemma ContentsMean(e: Entry, bodies: Bodies, n: int)
    requires AllReadable(e, bodies, n)
    ensures n <= 0 ==> Contents(e, bodies, n) == []
    ensures n >= 1 ==> Contents(e, bodies, n) == Contents(e, bodies, n - 1) + PartLines(e, bodies, n)
  {
  }

  /** The entries that have reached their total, can be read and pass the check. */
  function Ready(list: seq<Entry>, bodies: Bodies, check: Check): seq<File> {
    if list == [] then []
    else
      var n, e := |list| - 1, list[|list| - 1];
      Ready(list[..n], bodies, check)
      + if e.total == Number(e.parts) && AllReadable(e, bodies, e.parts) && check(e, Contents(e, bodies, e.parts))
        then [File(e.name, Contents(e, bodies, e.parts))] else []
  }

  /** Exactly they become files, in order. */
  lemma {:induction false} FilesAre(list: seq<Entry>, bodies: Bodies, check: Check, kept: seq<Entry>, files: seq<File>)
    requires Combined(list, bodies, check, kept, files)
    ensures files == Ready(list, bodies, check)
    decreases |list|
  {
    if list != [] {
      hide Contents, Readable;
      var n, e := |list| - 1, list[|list| - 1];
      if Finished(e, bodies, check) {
        FilesAre(list[..n], bodies, check, kept, files[..|files| - 1]);
        assert files == files[..|files| - 1] + [files[|files| - 1]];
      } else {
        FilesAre(list[..n], bodies, check, kept[..|kept| - 1], files);
      }
    }
  }

  /** The others stay, in order, and a complete one that cannot be read loses the id of its first part that
      cannot. */
  lemma {:induction false} KeptAre(list: seq<Entry>, bodies: Bodies, check: Check, kept: seq<Entry>, files: seq<File>)
    requires Combined(list, bodies, check, kept, files)
    ensures kept == Left(list, bodies, check)
    decreases |list|
  {
    if list != [] {
      hide Contents, Readable;
      var n, e := |list| - 1, list[|list| - 1];
      if Finished(e, bodies, check) {
        KeptAre(list[..n], bodies, check, kept, files[..|files| - 1]);
      } else {
        KeptAre(list[..n], bodies, check, kept[..|kept| - 1], files);
        StaysIs(e, bodies, kept[|kept| - 1]);
        assert kept == kept[..|kept| - 1] + [kept[|kept| - 1]];
      }
    }
  }

  function Left(list: seq<Entry>, bodies: Bodies, check: Check): seq<Entry> {
    if list == [] then []
    else
      var n, e := |list| - 1, list[|list| - 1];
      Left(list[..n], bodies, check)
      + if e.total == Number(e.parts) && AllReadable(e, bodies, e.parts) && check(e, Contents(e, bodies, e.parts))
        then [] else [Tried(e, bodies)]
  }

  function Tried(e: Entry, bodies: Bodies): Entry {
    var k := FirstUnread(e, bodies, 1);
    if e.total == Number(e.parts) && k <= e.parts then e.(ids := e.ids - {k}) else e
  }

  /** The first part from `k` on that cannot be read. */
  function FirstUnread(e: Entry, bodies: Bodies, k: nat): (r: nat)
    ensures k <= r && (r > e.parts || !Readable(e, bodies, r))
    ensures forall i :: k <= i < r ==> Readable(e, bodies, i)
    decreases e.parts + 1 - k
  {
    if k > e.parts || !Readable(e, bodies, k) then k else FirstUnread(e, bodies, k + 1)
  }

  lemma StaysIs(e: Entry, bodies: Bodies, f: Entry)
    requires StaysAs(e, bodies, f)
    ensures f == Tried(e, bodies)
  {
    hide Readable;
    if Complete(e) && !AllReadable(e, bodies, e.total.n) {
      var k :| 1 <= k <= e.total.n && AllReadable(e, bodies, k - 1) && !Readable(e, bodies, k)
               && f == e.(ids := e.ids - {k});
      var r := FirstUnread(e, bodies, 1);
      assert r >= k;
      assert r <= k;
    }
  }
}
