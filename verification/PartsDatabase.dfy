/** The database of multi-part binaries: collecting parts and combining complete files. */
module PartsDatabase {
  import opened JavaScript

  predicate Less(a: Num, b: Num) {
    a.Number? && b.Number? && a.n < b.n
  }

  predicate Same(a: Num, b: Num) {
    a.Number? && a == b
  }

  // ---------------------------------------------------------------- subjects

  function LastOf(s: string, c: char): (k: int)
    ensures -1 <= k < |s|
  {
    if s == "" then -1 else if s[|s| - 1] == c then |s| - 1 else LastOf(s[..|s| - 1], c)
  }

  function FirstOf(s: string, c: char): (k: int)
    ensures -1 <= k < |s|
  {
    if s == "" then -1
    else if s[0] == c then 0
    else
      var k := FirstOf(s[1..], c);
      if k < 0 then -1 else k + 1
  }

  /** Where a part number stands in a subject. */
  function Bracket(subject: string): (k: int)
    ensures -1 <= k < |subject|
  {
    if LastOf(subject, '(') >= 0 then LastOf(subject, '(') else LastOf(subject, '[')
  }

  function SubjectPart(subject: string): Num {
    if Bracket(subject) < 0 then Number(-1) else ParseInt(subject[Bracket(subject) + 1..])
  }

  function SubjectTotal(subject: string): Num {
    if Bracket(subject) < 0 then Number(-1)
    else
      var tail := subject[Bracket(subject) + 1..];
      if FirstOf(tail, '/') < 0 then Number(-1) else ParseInt(tail[FirstOf(tail, '/') + 1..])
  }

  // ---------------------------------------------------------------- adding

  // A missing `total`, `id`, `size` or `crc` is an undefined one.
  datatype Call = Call(name: string, codec: string, part: Num, total: Option<Num>, subject: string,
                       id: Option<string>, info: Info, size: Option<int>, crc: Option<nat>)

  datatype Info = Info(sub: string, msg: int, first: nat, last: int)

  // `ids` holds the part numbers with a message id.
  datatype Entry = Entry(name: string, codec: string, total: Num, size: Option<int>, crc: Option<nat>,
                         parts: nat, ids: set<int>, info: map<int, Info>)

  /** The part number and the total a call means, or nothing when it is turned down. */
  function Resolve(c: Call): Option<(Num, Num)> {
    var part := if Less(c.part, Number(1)) then SubjectPart(c.subject) else c.part;
    if Less(part, Number(1)) then None
    else
      var total := if c.total.None? || Less(c.total.value, part) then SubjectTotal(c.subject) else c.total.value;
      if Less(total, part) then None else Some((part, total))
  }

  /** The number written into the names of a part's properties; NaN is written as 0. */
  function Key(part: Num): int {
    if part.NaN? then 0 else part.n
  }

  predicate Matches(e: Entry, c: Call, total: Num) {
    && e.name == c.name && Same(e.total, total) && e.codec == c.codec
    && (c.size.None? || e.size == c.size) && (c.crc.None? || e.crc == c.crc)
  }

  /** The first entry that matches, or the end of the list. */
  function Find(list: seq<Entry>, c: Call, total: Num): (k: nat)
    ensures k <= |list|
    ensures k < |list| ==> Matches(list[k], c, total)
    ensures forall i :: 0 <= i < k ==> !Matches(list[i], c, total)
  {
    if list == [] || Matches(list[0], c, total) then 0 else 1 + Find(list[1..], c, total)
  }

  function Target(list: seq<Entry>, c: Call, total: Num): Entry {
    var k := Find(list, c, total);
    if k < |list| then list[k] else Entry(c.name, c.codec, total, c.size, c.crc, 0, {}, map[])
  }

  function WithPart(e: Entry, c: Call, part: Num): Entry {
    e.(parts := e.parts + 1,
       ids := if c.id.Some? then e.ids + {Key(part)} else e.ids,
       info := e.info[Key(part) := c.info])
  }

  function Added(list: seq<Entry>, c: Call): seq<Entry> {
    match Resolve(c)
    case None => list
    case Some((part, total)) =>
      var k, e := Find(list, c, total), Target(list, c, total);
      if Key(part) in e.ids then list
      else if k < |list| then list[k := WithPart(e, c, part)]
      else list + [WithPart(e, c, part)]
  }

  lemma Spliced(list: seq<Entry>, li: nat, before: seq<Entry>, done: nat)
    requires li < |list| && done < |before| && list[li..] == before[done..]
    ensures var rest := list[..li] + list[li + 1..]; rest[..li] == list[..li] && rest[li..] == before[done + 1..]
  {
    assert list[li..][1..] == list[li + 1..] && before[done..][1..] == before[done + 1..];
  }

  class Database {
    var list: seq<Entry>

    method AddPart(c: Call) returns (ok: bool)
      modifies this
      ensures ok == Resolve(c).Some?
      ensures list == Added(old(list), c)
    {
      var part := c.part;
      if Less(part, Number(1)) {
        part := SubjectPart(c.subject);
        if Less(part, Number(1)) {
          return false;
        }
      }
      var total: Num;
      if c.total.None? || Less(c.total.value, part) {
        total := SubjectTotal(c.subject);
        if Less(total, part) {
          return false;
        }
      } else {
        total := c.total.value;
      }
      var li := 0;
      while li < |list| && !Matches(list[li], c, total)
        invariant 0 <= li <= |list|
        invariant forall i :: 0 <= i < li ==> !Matches(list[i], c, total)
      {
        li := li + 1;
      }
      var e := if li < |list| then list[li] else Entry(c.name, c.codec, total, c.size, c.crc, 0, {}, map[]);
      if Key(part) in e.ids {
        return true;
      }
      e := WithPart(e, c, part);
      list := if li < |list| then list[li := e] else list + [e];
      ok := true;
    }

    /** Every entry whose count has reached its total is put together. */
    method CombineParts(bodies: Bodies, check: Check) returns (files: seq<File>)
      modifies this
      ensures Combined(old(list), bodies, check, list, files)
    {
      hide Finished, Contents, Readable, AllReadable, StaysAs, Combined;
      CombinedNone(bodies, check);
      files := [];
      ghost var before, done := list, 0;
      var li := 0;
      while li < |list|
        invariant 0 <= li <= |list| && 0 <= done <= |before|
        invariant list[li..] == before[done..]
        invariant Combined(before[..done], bodies, check, list[..li], files)
      {
        var e := list[li];
        assert e == before[done];
        ghost var kept := list[..li];
        if !Complete(e) {
          Incomplete(e, bodies, check);
          Keep(before[..done], bodies, check, kept, files, e, e);
          assert list[..li + 1] == kept + [e] && list[li + 1..] == before[done + 1..];
          li := li + 1;
        } else {
          var lines, pi := [], 1;
          ContentsNone(e, bodies);
          while pi <= e.total.n && Readable(e, bodies, pi)
            invariant 1 <= pi <= e.total.n + 1 && AllReadable(e, bodies, pi - 1)
            invariant lines == Contents(e, bodies, pi - 1)
            modifies {}
          {
            ContentsNext(e, bodies, pi);
            lines := lines + PartLines(e, bodies, pi);
            pi := pi + 1;
          }
          if pi <= e.total.n {
            var f := e.(ids := e.ids - {pi});
            Broken(e, bodies, check, pi);
            Keep(before[..done], bodies, check, kept, files, e, f);
            list := list[li := f];
            assert list[..li + 1] == kept + [f] && list[li + 1..] == before[done + 1..];
            li := li + 1;
          } else if !check(e, lines) {
            Judged(e, bodies, check);
            Keep(before[..done], bodies, check, kept, files, e, e);
            assert list[..li + 1] == kept + [e] && list[li + 1..] == before[done + 1..];
            li := li + 1;
          } else {
            Judged(e, bodies, check);
            Finish(before[..done], bodies, check, kept, files, e);
            files := files + [File(e.name, lines)];
            Spliced(list, li, before, done);
            list := list[..li] + list[li + 1..];
          }
        }
        assert before[..done] + [e] == before[..done + 1];
        done := done + 1;
      }
      assert before[..done] == before && list[..li] == list;
    }

    method PartExists(name: string, size: Option<int>, part: Num, total: Num) returns (found: bool)
      ensures found <==> exists i :: 0 <= i < |list| && Holds(list[i], name, size, part, total)
    {
      for li := 0 to |list|
        invariant forall i :: 0 <= i < li ==> !Holds(list[i], name, size, part, total)
      {
        if list[li].name != name || list[li].size != size || !Same(list[li].total, total) {
          continue;
        }
        if Key(part) in list[li].ids {
          return true;
        }
      }
      found := false;
    }
  }

  predicate Holds(e: Entry, name: string, size: Option<int>, part: Num, total: Num) {
    e.name == name && e.size == size && Same(e.total, total) && Key(part) in e.ids
  }

  // ---------------------------------------------------------------- accounting

  /** Every stored part is one of 1..total, and `parts` is their number. */
  predicate Accounted(e: Entry) {
    && e.total.Number?
    && (forall k <- e.ids :: 1 <= k <= e.total.n && k in e.info)
    && e.parts == |e.ids|
  }

  predicate AllAccounted(list: seq<Entry>) {
    forall i :: 0 <= i < |list| ==> Accounted(list[i])
  }

  /** The numbers 1..n. */
  function UpTo(n: nat): set<int> {
    if n == 0 then {} else UpTo(n - 1) + {n as int}
  }

  lemma {:induction false} UpToMeans(n: nat)
    ensures forall k :: k in UpTo(n) <==> 1 <= k <= n
    ensures |UpTo(n)| == n
  {
    if n > 0 {
      UpToMeans(n - 1);
    }
  }

  /** What the count of an accounted entry means. */
  lemma CountMeans(e: Entry)
    requires Accounted(e) && e.parts > 0
    ensures e.parts <= e.total.n
    ensures e.parts == e.total.n <==> forall k :: 1 <= k <= e.total.n ==> k in e.ids
  {
    var k := Pick(e.ids);
    UpToMeans(e.total.n);
    forall x | x in e.ids ensures x in UpTo(e.total.n) {
      assert 1 <= x <= e.total.n;
    }
    SubsetSize(e.ids, UpTo(e.total.n));
    if forall k :: 1 <= k <= e.total.n ==> k in e.ids {
      assert UpTo(e.total.n) == e.ids;
    }
  }

  lemma ResolvedRange(c: Call)
    requires Resolve(c).Some?
    ensures var (part, total) := Resolve(c).value;
            part.Number? ==> part.n >= 1 && (total.Number? ==> part.n <= total.n)
  {
  }

  /** The part a call brings is already there. */
  predicate Known(list: seq<Entry>, c: Call) {
    Resolve(c).Some? && Key(Resolve(c).value.0) in Target(list, c, Resolve(c).value.1).ids
  }

  /** A call turned down, or one whose numbers are numbers and that brings a message id. */
  predicate Proper(c: Call) {
    Resolve(c).None? || (Resolve(c).value.0.Number? && Resolve(c).value.1.Number? && c.id.Some?)
  }

  lemma AddExact(list: seq<Entry>, c: Call)
    requires AllAccounted(list)
    ensures AllAccounted(Added(list, c)) <==> Proper(c) || Known(list, c)
  {
    if Resolve(c).Some? && !Known(list, c) {
      var (part, total) := Resolve(c).value;
      ResolvedRange(c);
      var k, e := Find(list, c, total), Target(list, c, total);
      var f := WithPart(e, c, part);
      var after := Added(list, c);
      assert after[k] == f;
      if Proper(c) {
        assert f.ids == e.ids + {part.n};
        assert Accounted(f);
        forall i | 0 <= i < |after| ensures Accounted(after[i]) {
          assert i != k ==> after[i] == list[i];
        }
      } else {
        assert !Accounted(f) by {
          if total.Number? && c.id.Some? {
            assert Key(part) in f.ids;
          }
        }
      }
    }
  }

  function AddedAll(list: seq<Entry>, calls: seq<Call>): seq<Entry>
    decreases |calls|
  {
    if calls == [] then list else AddedAll(Added(list, calls[0]), calls[1..])
  }

  /** Each call is proper, or brings a part that is known at its turn. */
  predicate AllProper(list: seq<Entry>, calls: seq<Call>)
    decreases |calls|
  {
    calls == [] || ((Proper(calls[0]) || Known(list, calls[0])) && AllProper(Added(list, calls[0]), calls[1..]))
  }

  /** The entry is damaged for good: its total is no number, it has a part outside 1..total, or it counts
      parts that are not there. */
  predicate Damaged(e: Entry) {
    || !e.total.Number?
    || (exists k :: k in e.ids && !(1 <= k <= e.total.n))
    || e.parts > |e.ids|
  }

  lemma DamagedStays(list: seq<Entry>, c: Call, i: nat)
    requires i < |list| && Damaged(list[i])
    ensures i < |Added(list, c)| && Damaged(Added(list, c)[i])
  {
    AddGrows(list, c);
    var e, f := list[i], Added(list, c)[i];
    if e.total.Number? && exists k :: k in e.ids && !(1 <= k <= e.total.n) {
      var k :| k in e.ids && !(1 <= k <= e.total.n);
      assert k in f.ids;
    }
  }

  /** An accounted list is damaged by any call that does not keep the accounting. */
  lemma AddDamages(list: seq<Entry>, c: Call) returns (i: nat)
    requires AllAccounted(list) && !(Proper(c) || Known(list, c))
    ensures i < |Added(list, c)| && Damaged(Added(list, c)[i])
  {
    var (part, total) := Resolve(c).value;
    ResolvedRange(c);
    i := Find(list, c, total);
    var f := WithPart(Target(list, c, total), c, part);
    assert Added(list, c)[i] == f;
    if total.Number? && c.id.Some? {
      assert Key(part) in f.ids;
    }
  }

  lemma {:induction false} RunDamaged(list: seq<Entry>, calls: seq<Call>, i: nat)
    requires i < |list| && Damaged(list[i])
    ensures !AllAccounted(AddedAll(list, calls))
    decreases |calls|
  {
    if calls != [] {
      DamagedStays(list, calls[0], i);
      RunDamaged(Added(list, calls[0]), calls[1..], i);
    } else {
      assert !Accounted(list[i]);
    }
  }

  /** Over any calls the count of every entry is right exactly when each call was proper or brought a known
      part. */
  lemma {:induction false} RunAccounted(list: seq<Entry>, calls: seq<Call>)
    requires AllAccounted(list)
    ensures AllAccounted(AddedAll(list, calls)) <==> AllProper(list, calls)
    decreases |calls|
  {
    if calls != [] {
      var c := calls[0];
      AddExact(list, c);
      if Proper(c) || Known(list, c) {
        RunAccounted(Added(list, c), calls[1..]);
      } else {
        var i := AddDamages(list, c);
        RunDamaged(Added(list, c), calls[1..], i);
      }
    }
  }

  /** The entry goes on as `f`: nothing stored is lost or replaced. */
  predicate Grows(e: Entry, f: Entry) {
    && f.name == e.name && f.codec == e.codec && f.total == e.total && f.size == e.size && f.crc == e.crc
    && e.parts <= f.parts && e.ids <= f.ids
    && (forall k <- e.ids :: k in e.info ==> k in f.info && f.info[k] == e.info[k])
  }

  lemma AddGrows(list: seq<Entry>, c: Call)
    ensures |list| <= |Added(list, c)| <= |list| + 1
    ensures forall i :: 0 <= i < |list| ==> Grows(list[i], Added(list, c)[i])
  {
    if Resolve(c).Some? && !Known(list, c) {
      var k := Find(list, c, Resolve(c).value.1);
      forall i | 0 <= i < |list| ensures Grows(list[i], Added(list, c)[i]) {
        if i != k {
          assert Added(list, c)[i] == list[i];
        }
      }
    }
  }

  lemma {:induction false} RunGrows(list: seq<Entry>, calls: seq<Call>)
    ensures |list| <= |AddedAll(list, calls)|
    ensures forall i :: 0 <= i < |list| ==> Grows(list[i], AddedAll(list, calls)[i])
    decreases |calls|
  {
    if calls != [] {
      var mid := Added(list, calls[0]);
      AddGrows(list, calls[0]);
      RunGrows(mid, calls[1..]);
      forall i | 0 <= i < |list| ensures Grows(list[i], AddedAll(list, calls)[i]) {
        GrowsOn(list[i], mid[i], AddedAll(mid, calls[1..])[i]);
      }
    }
  }

  lemma GrowsOn(e: Entry, f: Entry, g: Entry)
    requires Grows(e, f) && Grows(f, g)
    ensures Grows(e, g)
  {
  }

  /** A part taken with its size is found by `PartExists` after any further calls. */
  lemma TakenIsFound(list: seq<Entry>, c: Call, calls: seq<Call>)
    requires Resolve(c).Some? && Resolve(c).value.1.Number? && c.id.Some? && c.size.Some?
    ensures var (part, total) := Resolve(c).value;
            var after := AddedAll(Added(list, c), calls);
            exists i :: 0 <= i < |after| && Holds(after[i], c.name, c.size, part, total)
  {
    var (part, total) := Resolve(c).value;
    var mid := Added(list, c);
    var k := Find(list, c, total);
    assert Holds(mid[k], c.name, c.size, part, total);
    RunGrows(mid, calls);
    assert Grows(mid[k], AddedAll(mid, calls)[k]);
    assert Holds(AddedAll(mid, calls)[k], c.name, c.size, part, total);
  }

  lemma Parses(c: char, total: char)
    requires IsDigit(total) && c !in " \t\r\n+-/("
    ensures SubjectPart(['f', ' ', '(', c, '/', total, ')']) == if IsDigit(c) then Number((c - '0') as int) else NaN
    ensures SubjectTotal(['f', ' ', '(', c, '/', total, ')']) == Number((total - '0') as int)
  {
    var head, tail := "f (", [c, '/', total, ')'];
    BracketAt(head, tail);
    assert head + tail == ['f', ' ', '(', c, '/', total, ')'];
    assert tail[1..] == ['/', total, ')'] && tail[1..][1..] == [total, ')'] && tail[2..] == [total, ')'];
    assert [total, ')'][1..] == [')'];
    assert FirstOf(tail, '/') == 1;
    OneDigit(total, [')']);
    if IsDigit(c) {
      OneDigit(c, ['/', total, ')']);
    }
  }

  lemma OneDigit(c: char, rest: string)
    requires IsDigit(c) && rest != "" && !IsDigit(rest[0])
    ensures ParseInt([c] + rest) == Number((c - '0') as int)
  {
    var s := [c] + rest;
    assert s[0] == c && s[1..] == rest;
    assert Digits(rest, (c - '0') as nat) == (c - '0') as int;
  }

  lemma {:induction false} BracketAt(head: string, tail: string)
    requires head != "" && head[|head| - 1] == '(' && '(' !in tail
    ensures LastOf(head + tail, '(') == |head| - 1
    ensures (head + tail)[|head|..] == tail
    decreases |tail|
  {
    if tail == "" {
      assert head + tail == head;
    } else {
      var short := tail[..|tail| - 1];
      assert (head + tail)[..|head + tail| - 1] == head + short;
      BracketAt(head, short);
    }
  }

  /** A subject whose part is no number makes a file of two parts look complete without its second part. */
  lemma NaNCountsAsPart()
    ensures var info := Info("sub", 1, 1, 9);
            var odd := Call("f", "uue", Number(0), None, "f (x/2)", Some("a"), info, None, None);
            var one := Call("f", "uue", Number(0), None, "f (1/2)", Some("b"), info, None, None);
            var list := Added(Added([], odd), one);
            |list| == 1 && Same(Number(list[0].parts), list[0].total) && 2 !in list[0].ids
  {
    hide SubjectPart, SubjectTotal;
    var info := Info("sub", 1, 1, 9);
    var odd := Call("f", "uue", Number(0), None, "f (x/2)", Some("a"), info, None, None);
    var one := Call("f", "uue", Number(0), None, "f (1/2)", Some("b"), info, None, None);
    Parses('x', '2');
    Parses('1', '2');
    assert odd.subject == ['f', ' ', '(', 'x', '/', '2', ')'] && one.subject == ['f', ' ', '(', '1', '/', '2', ')'];
    assert Resolve(odd) == Some((NaN, Number(2))) && Resolve(one) == Some((Number(1), Number(2)));
    var mid := Added([], odd);
    assert |mid| == 1 && mid[0].ids == {0} && mid[0].parts == 1 && mid[0].total == Number(2);
    assert Matches(mid[0], one, Number(2)) && Find(mid, one, Number(2)) == 0;
    assert Added(mid, one)[0].ids == {0, 1};
  }

  // ---------------------------------------------------------------- combining

  datatype File = File(name: string, lines: seq<string>)

  // The message bases: the lines of every message that can be read and decodes to the length announced.
  type Bodies = map<(string, int), seq<string>>

  // The check of the whole file: its size and checksum.
  type Check = (Entry, seq<string>) -> bool

  function Lines(body: seq<string>, first: nat, last: int): seq<string> {
    var end := if last + 1 < |body| then last + 1 else |body|;
    if first <= end then body[first..end] else []
  }

  predicate Readable(e: Entry, bodies: Bodies, k: int) {
    k in e.info && (e.info[k].sub, e.info[k].msg) in bodies
  }

  function PartLines(e: Entry, bodies: Bodies, k: int): seq<string>
    requires Readable(e, bodies, k)
  {
    var i := e.info[k];
    Lines(bodies[(i.sub, i.msg)], i.first, i.last)
  }

  predicate AllReadable(e: Entry, bodies: Bodies, n: int) {
    forall k :: 1 <= k <= n ==> Readable(e, bodies, k)
  }

  /** The lines of parts 1..n in order. */
  function Contents(e: Entry, bodies: Bodies, n: int): seq<string>
    requires AllReadable(e, bodies, n)
  {
    if n <= 0 then [] else Contents(e, bodies, n - 1) + PartLines(e, bodies, n)
  }

  predicate Complete(e: Entry) {
    Same(Number(e.parts), e.total)
  }

  /** The entry becomes a file and leaves the database. */
  predicate Finished(e: Entry, bodies: Bodies, check: Check) {
    && Complete(e) && AllReadable(e, bodies, e.total.n)
    && check(e, Contents(e, bodies, e.total.n))
  }

  /** An entry that stays: the first part that cannot be read loses its id. */
  ghost predicate StaysAs(e: Entry, bodies: Bodies, f: Entry) {
    if !Complete(e) || AllReadable(e, bodies, e.total.n) then f == e
    else
      exists k :: 1 <= k <= e.total.n && AllReadable(e, bodies, k - 1) && !Readable(e, bodies, k)
                  && f == e.(ids := e.ids - {k})
  }

  /** The entries of `list` either stay, in order, or become files, in order. */
  ghost predicate Combined(list: seq<Entry>, bodies: Bodies, check: Check, kept: seq<Entry>, files: seq<File>)
    decreases |list|
  {
    if list == [] then kept == [] && files == []
    else
      var n, e := |list| - 1, list[|list| - 1];
      if Finished(e, bodies, check) then
        files != [] && files[|files| - 1] == File(e.name, Contents(e, bodies, e.total.n))
        && Combined(list[..n], bodies, check, kept, files[..|files| - 1])
      else
        kept != [] && StaysAs(e, bodies, kept[|kept| - 1])
        && Combined(list[..n], bodies, check, kept[..|kept| - 1], files)
  }

  lemma Incomplete(e: Entry, bodies: Bodies, check: Check)
    requires !Complete(e)
    ensures !Finished(e, bodies, check) && StaysAs(e, bodies, e)
  {
  }

  lemma Broken(e: Entry, bodies: Bodies, check: Check, k: int)
    requires Complete(e) && 1 <= k <= e.total.n
    requires AllReadable(e, bodies, k - 1) && !Readable(e, bodies, k)
    ensures !Finished(e, bodies, check) && StaysAs(e, bodies, e.(ids := e.ids - {k}))
  {
  }

  lemma Judged(e: Entry, bodies: Bodies, check: Check)
    requires Complete(e) && AllReadable(e, bodies, e.total.n)
    ensures Finished(e, bodies, check) <==> check(e, Contents(e, bodies, e.total.n))
    ensures StaysAs(e, bodies, e)
  {
  }

  lemma CombinedNone(bodies: Bodies, check: Check)
    ensures Combined([], bodies, check, [], [])
  {
  }

  lemma Keep(list: seq<Entry>, bodies: Bodies, check: Check, kept: seq<Entry>, files: seq<File>, e: Entry, f: Entry)
    requires Combined(list, bodies, check, kept, files) && !Finished(e, bodies, check) && StaysAs(e, bodies, f)
    ensures Combined(list + [e], bodies, check, kept + [f], files)
  {
    hide Finished, StaysAs;
    assert (list + [e])[..|list|] == list && (kept + [f])[..|kept|] == kept;
  }

  lemma Finish(list: seq<Entry>, bodies: Bodies, check: Check, kept: seq<Entry>, files: seq<File>, e: Entry)
    requires Combined(list, bodies, check, kept, files) && Finished(e, bodies, check)
    ensures Combined(list + [e], bodies, check, kept, files + [File(e.name, Contents(e, bodies, e.total.n))])
  {
    hide Contents;
    var more := files + [File(e.name, Contents(e, bodies, e.total.n))];
    assert (list + [e])[..|list|] == list && more[..|files|] == files;
  }

  lemma ContentsNone(e: Entry, bodies: Bodies)
    ensures AllReadable(e, bodies, 0) && Contents(e, bodies, 0) == []
  {
  }

  lemma ContentsNext(e: Entry, bodies: Bodies, n: int)
    requires 1 <= n && AllReadable(e, bodies, n - 1) && Readable(e, bodies, n)
    ensures AllReadable(e, bodies, n)
    ensures Contents(e, bodies, n) == Contents(e, bodies, n - 1) + PartLines(e, bodies, n)
  {
  }

  /** Every file written holds all parts of an entry, in order; an accounted entry had them all. */
  lemma {:induction false} FileIsWhole(list: seq<Entry>, bodies: Bodies, check: Check, kept: seq<Entry>,
                                       files: seq<File>, j: nat)
    requires Combined(list, bodies, check, kept, files) && j < |files|
    ensures exists i :: 0 <= i < |list| && MadeOf(files[j], list[i], bodies)
    decreases |list|
  {
    CombinedSize(list, bodies, check, kept, files);
    var n, e := |list| - 1, list[|list| - 1];
    if Finished(e, bodies, check) && j == |files| - 1 {
      if Accounted(e) && e.parts > 0 {
        CountMeans(e);
      }
      assert MadeOf(files[j], list[n], bodies);
    } else {
      var fewer := if Finished(e, bodies, check) then files[..|files| - 1] else files;
      var left := if Finished(e, bodies, check) then kept else kept[..|kept| - 1];
      var shorter := list[..n];
      FileIsWhole(shorter, bodies, check, left, fewer, j);
      assert fewer[j] == files[j];
      var i :| 0 <= i < |shorter| && MadeOf(files[j], shorter[i], bodies);
      assert MadeOf(files[j], list[i], bodies);
    }
  }

  ghost predicate MadeOf(f: File, e: Entry, bodies: Bodies) {
    && Complete(e) && AllReadable(e, bodies, e.total.n)
    && f == File(e.name, Contents(e, bodies, e.total.n))
    && (Accounted(e) && e.parts > 0 ==> forall k :: 1 <= k <= e.total.n ==> k in e.ids)
  }

  lemma {:induction false} CombinedSize(list: seq<Entry>, bodies: Bodies, check: Check, kept: seq<Entry>,
                                        files: seq<File>)
    requires Combined(list, bodies, check, kept, files)
    ensures |kept| + |files| == |list|
    decreases |list|
  {
    if list != [] {
      var n := |list| - 1;
      if Finished(list[n], bodies, check) {
        CombinedSize(list[..n], bodies, check, kept, files[..|files| - 1]);
      } else {
        CombinedSize(list[..n], bodies, check, kept[..|kept| - 1], files);
      }
    }
  }

  /** `combine_parts` leaves every count right exactly when it can read all parts of every complete entry. */
  lemma {:induction false} CombineExact(list: seq<Entry>, bodies: Bodies, check: Check, kept: seq<Entry>,
                                        files: seq<File>)
    requires Combined(list, bodies, check, kept, files) && AllAccounted(list)
    ensures AllAccounted(kept) <==> AllWhole(list, bodies)
    decreases |list|
  {
    if list != [] {
      var n, e := |list| - 1, list[|list| - 1];
      var fewer := list[..n];
      assert AllWhole(list, bodies) <==> AllWhole(fewer, bodies) && Whole(e, bodies) by {
        assert forall i :: 0 <= i < n ==> fewer[i] == list[i];
      }
      if Finished(e, bodies, check) {
        CombineExact(fewer, bodies, check, kept, files[..|files| - 1]);
      } else {
        var m := |kept| - 1;
        CombineExact(fewer, bodies, check, kept[..m], files);
        StaysAccounted(e, bodies, kept[m]);
        assert AllAccounted(kept) <==> AllAccounted(kept[..m]) && Accounted(kept[m]);
      }
    }
  }

  /** An entry that is not tried, or all of whose parts can be read. */
  predicate Whole(e: Entry, bodies: Bodies) {
    Complete(e) ==> AllReadable(e, bodies, e.total.n)
  }

  predicate AllWhole(list: seq<Entry>, bodies: Bodies) {
    forall i :: 0 <= i < |list| ==> Whole(list[i], bodies)
  }

  lemma StaysAccounted(e: Entry, bodies: Bodies, f: Entry)
    requires Accounted(e) && StaysAs(e, bodies, f)
    ensures Accounted(f) <==> Whole(e, bodies)
  {
    if !Whole(e, bodies) {
      CountMeans(e);
    }
  }

  /** A failed attempt takes a part's id but leaves the count at the total; when the part is added again
      the count is beyond it, and no calls bring the entry to completion any more. */
  lemma FailureIsFinal(list: seq<Entry>, i: nat, bodies: Bodies, k: int, c: Call, calls: seq<Call>)
    requires i < |list| && Accounted(list[i]) && Complete(list[i])
    requires 1 <= k <= list[i].total.n && AllReadable(list[i], bodies, k - 1) && !Readable(list[i], bodies, k)
    ensures var f := list[i].(ids := list[i].ids - {k});
            var after := list[i := f];
            && StaysAs(list[i], bodies, f) && Complete(f) && !Accounted(f)
            && (Resolve(c) == Some((Number(k), f.total)) && Find(after, c, f.total) == i ==>
                  var end := AddedAll(Added(after, c), calls);
                  i < |end| && !Complete(end[i]))
  {
    var e := list[i];
    CountMeans(e);
    assert k in e.ids;
    var f := e.(ids := e.ids - {k});
    var after := list[i := f];
    if Resolve(c) == Some((Number(k), f.total)) && Find(after, c, f.total) == i {
      var more := Added(after, c);
      assert more[i].parts == f.total.n + 1;
      RunGrows(more, calls);
      assert Grows(more[i], AddedAll(more, calls)[i]);
    }
  }
}
