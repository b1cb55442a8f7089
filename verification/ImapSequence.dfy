/** Message sequence sets (section 9 of RFC 3501) and the two-way index they refer to. */
module ImapSequence {
  import opened JavaScript

  // ---------------------------------------------------------------------- index

  /** `offsets` lists the message numbers (UIDs); `idx` gives each its sequence number. */
  datatype Index = Index(offsets: seq<int>, idx: map<int, int>) {
    predicate Valid() {
      && (forall i :: 0 <= i < |offsets| ==> offsets[i] in idx && idx[offsets[i]] == i + 1)
      && (forall n :: n in idx ==> 1 <= idx[n] <= |offsets| && offsets[idx[n] - 1] == n)
    }
  }

  /** One record of the message base: its number and the number of the addressee. */
  datatype Record = Record(number: int, to: int)

  predicate Ascending(s: seq<int>) {
    forall i, j :: 0 <= i < j < |s| ==> s[i] < s[j]
  }

  /** The numbers of the records that the user may see, in order. */
  function Visible(records: seq<Option<Record>>, mail: bool, user: int): seq<int> {
    if records == [] then [] else
    var front, r := Visible(records[..|records| - 1], mail, user), records[|records| - 1];
    if r.Some? && (mail ==> r.value.to == user) then front + [r.value.number] else front
  }

  function Append(index: Index, number: int): Index {
    Index(index.offsets + [number], index.idx[number := |index.offsets| + 1])
  }

  lemma AppendValid(index: Index, number: int)
    requires index.Valid() && number !in index.idx
    ensures Append(index, number).Valid()
  {
  }

  lemma AppendAscending(s: seq<int>, x: int)
    requires Ascending(s) && forall i :: 0 <= i < |s| ==> s[i] < x
    ensures Ascending(s + [x])
  {
  }

  /** Every indexed number is below those of the records from `i` on. */
  ghost predicate InFront(index: Index, records: seq<Option<Record>>, i: nat) {
    forall n, j :: n in index.idx && i <= j < |records| && records[j].Some? ==> n < records[j].value.number
  }

  lemma ReadNext(index: Index, records: seq<Option<Record>>, i: nat)
    requires i < |records| && index.Valid() && Ascending(index.offsets) && InFront(index, records, i)
    requires forall i, j :: 0 <= i < j < |records| && records[i].Some? && records[j].Some? ==>
      records[i].value.number < records[j].value.number
    ensures InFront(index, records, i + 1)
    ensures records[i].Some? ==>
      var more := Append(index, records[i].value.number);
      more.Valid() && Ascending(more.offsets) && InFront(more, records, i + 1)
  {
    if records[i].Some? {
      var number := records[i].value.number;
      assert number !in index.idx;
      AppendValid(index, number);
      AppendAscending(index.offsets, number);
    }
  }

  /** `read_index`. The mail base shows each user his own messages only. */
  method ReadIndex(records: seq<Option<Record>>, mail: bool, user: int) returns (index: Index)
    requires forall i, j :: 0 <= i < j < |records| && records[i].Some? && records[j].Some? ==>
      records[i].value.number < records[j].value.number
    ensures index.Valid() && Ascending(index.offsets)
    ensures index.offsets == Visible(records, mail, user)
  {
    index := Index([], map[]);
    for i := 0 to |records|
      invariant index.Valid() && Ascending(index.offsets)
      invariant index.offsets == Visible(records[..i], mail, user)
      invariant InFront(index, records, i)
    {
      hide InFront, Ascending;
      var idx := records[i];
      assert records[..i + 1][..i] == records[..i];
      ReadNext(index, records, i);
      if idx.Some? && (mail ==> idx.value.to == user) {
        index := Append(index, idx.value.number);
      }
    }
    assert records[..|records|] == records;
  }

  // -------------------------------------------------------------------- parsing

  function Split(s: string, sep: char): (r: seq<string>)
    ensures |r| >= 1
  {
    if s == "" then [""] else
    var rest := Split(s[1..], sep);
    if s[0] == sep then [""] + rest else [[s[0]] + rest[0]] + rest[1..]
  }

  function Bound(token: string, max: int): Option<int> {
    if token == "*" then Some(max)
    else
      match ParseInt(token)
      case NaN => None
      case Number(n) => Some(n)
  }

  /** The first and last number of one range, in ascending order. */
  function Range(chunk: string, max: int): Option<(int, int)> {
    var parts := Split(chunk, ':');
    var a, b := Bound(parts[0], max), Bound(if |parts| == 1 then parts[0] else parts[1], max);
    if a.None? || b.None? then None
    else if a.value > b.value then Some((b.value, a.value)) else Some((a.value, b.value))
  }

  predicate Covers(chunk: string, max: int, n: int) {
    Range(chunk, max).Some? && Range(chunk, max).value.0 <= n <= Range(chunk, max).value.1
  }

  /** Some range of the set contains the number. */
  predicate Covered(set_: string, max: int, n: int) {
    exists c :: c in Split(set_, ',') && Covers(c, max, n)
  }

  /** What the set selects: by UID, or by sequence number. */
  predicate Selects(set_: string, uid: bool, index: Index, lastMsg: int, m: int) {
    m in index.idx &&
    if uid then Covered(set_, lastMsg, m) else Covered(set_, |index.offsets|, index.idx[m])
  }

  predicate Sorted(s: seq<int>) {
    forall i, j :: 0 <= i < j < |s| ==> s[i] <= s[j]
  }

  function Insert(x: int, s: seq<int>): (r: seq<int>)
    ensures forall y :: y in r <==> y == x || y in s
    ensures Sorted(s) ==> Sorted(r)
  {
    if s == [] || x <= s[0] then [x] + s else
    var rest := Insert(x, s[1..]);
    assert s == [s[0]] + s[1..];
    assert Sorted(s) ==> forall y :: y in s[1..] ==> s[0] <= y;
    assert forall j :: 0 <= j < |rest| ==> rest[j] in rest;
    [s[0]] + rest
  }

  /** The built-in sort with a numeric comparison. */
  function Sort(s: seq<int>): (r: seq<int>)
    ensures forall y :: y in r <==> y in s
    ensures Sorted(r)
  {
    if s == [] then [] else
    assert s == [s[0]] + s[1..];
    Insert(s[0], Sort(s[1..]))
  }

  /** Remove repetitions from a sorted list, in place. */
  method Dedupe(sorted: seq<int>) returns (response: seq<int>)
    requires Sorted(sorted)
    ensures Ascending(response) && forall y :: y in response <==> y in sorted
  {
    response := sorted;
    var i := 0;
    while i < |response|
      invariant 0 <= i <= |response|
      invariant Sorted(response)
      invariant forall j, k :: 0 <= j < k < |response| && j < i ==> response[j] < response[k]
      invariant forall y :: y in response <==> y in sorted
      decreases |response| - i
    {
      if i + 1 < |response| && response[i] == response[i + 1] {
        ghost var was := response;
        response := response[..i + 1] + response[i + 2..];
        assert was == was[..i + 1] + [was[i]] + was[i + 2..];
        assert was[i] in was[..i + 1] by { assert was[..i + 1][i] == was[i]; }
      } else {
        i := i + 1;
      }
    }
  }

  /** `parse_seq_set`. */
  method ParseSeqSet(set_: string, uid: bool, index: Index, lastMsg: int) returns (response: seq<int>)
    requires index.Valid()
    ensures Ascending(response)
    ensures forall m :: m in response <==> Selects(set_, uid, index, lastMsg, m)
  {
    response := [];
    var chunks := Split(set_, ',');
    var max := if uid then lastMsg else |index.offsets|;
    for c := 0 to |chunks|
      invariant forall m :: m in response <==> exists k :: 0 <= k < c && Picks(chunks[k], uid, index, max, m)
    {
      var more := ParseChunk(chunks[c], uid, index, max);
      response := response + more;
    }
    forall m
      ensures m in response <==> Selects(set_, uid, index, lastMsg, m)
    {
      if Selects(set_, uid, index, lastMsg, m) {
        var n := if uid then m else index.idx[m];
        var ch :| ch in chunks && Covers(ch, max, n);
        var k :| 0 <= k < |chunks| && chunks[k] == ch;
        assert Picks(chunks[k], uid, index, max, m);
      }
    }
    response := Dedupe(Sort(response));
  }

  predicate Picks(chunk: string, uid: bool, index: Index, max: int, m: int) {
    m in index.idx && Covers(chunk, max, if uid then m else index.idx[m])
  }

  method ParseChunk(chunk: string, uid: bool, index: Index, max: int) returns (response: seq<int>)
    requires index.Valid()
    ensures forall m :: m in response <==> Picks(chunk, uid, index, max, m)
  {
    response := [];
    var range := Range(chunk, max);
    if range.None? {
      return;
    }
    var i := range.value.0;
    while i <= range.value.1
      invariant range.value.0 <= i
      invariant forall m :: m in response <==>
                  m in index.idx
                  && range.value.0 <= (if uid then m else index.idx[m]) < i
                  && (if uid then m else index.idx[m]) <= range.value.1
      decreases range.value.1 - i
    {
      if uid {
        if i in index.idx {
          response := response + [i];
        }
      } else if 1 <= i <= |index.offsets| {
        response := response + [index.offsets[i - 1]];
      }
      i := i + 1;
    }
  }

  // ---------------------------------------------------------------- consequences

  lemma Nonempty(s: seq<int>)
    ensures s == [] || exists y :: y in s
  {
    if s != [] {
      var y := s[0];
      assert y in s;
    }
  }

  /** An ascending list is determined by its elements. */
  lemma {:induction false} AscendingUnique(a: seq<int>, b: seq<int>)
    requires Ascending(a) && Ascending(b) && forall y :: y in a <==> y in b
    ensures a == b
  {
    if exists y :: y in a {
      assert a[0] in a;
      assert b[0] in b;
      assert a[0] == b[0];
      forall y
        ensures y in a[1..] <==> y in b[1..]
      {
        assert y in a[1..] <==> y in a && y != a[0];
        assert y in b[1..] <==> y in b && y != b[0];
      }
      AscendingUnique(a[1..], b[1..]);
      assert a == [a[0]] + a[1..] && b == [b[0]] + b[1..];
    } else {
      Nonempty(a);
      Nonempty(b);
    }
  }

  /** Sequence-number mode is UID mode on the sequence numbers 1, 2, ..., carried over by
      the index. */
  lemma ModesAgree(set_: string, index: Index, lastMsg: int, byNumber: seq<int>, byPosition: seq<int>)
    requires index.Valid() && Ascending(index.offsets)
    requires Ascending(byNumber) && forall m :: m in byNumber <==> Selects(set_, false, index, lastMsg, m)
    requires Ascending(byPosition)
    requires forall k :: k in byPosition <==> 1 <= k <= |index.offsets| && Covered(set_, |index.offsets|, k)
    ensures |byNumber| == |byPosition|
    ensures forall i :: 0 <= i < |byPosition| ==>
      1 <= byPosition[i] <= |index.offsets| && byNumber[i] == index.offsets[byPosition[i] - 1]
  {
    hide Covered;
    assert forall i :: 0 <= i < |byPosition| ==> byPosition[i] in byPosition;
    var mapped := seq(|byPosition|, i requires 0 <= i < |byPosition| && 1 <= byPosition[i] <= |index.offsets| =>
      index.offsets[byPosition[i] - 1]);
    forall m | m in byNumber
      ensures m in mapped
    {
      var i :| 0 <= i < |byPosition| && byPosition[i] == index.idx[m];
      assert mapped[i] == m;
    }
    AscendingUnique(byNumber, mapped);
  }

  lemma SplitStar(sep: char)
    requires sep != '*'
    ensures Split("*", sep) == ["*"]
  {
    var s := "*";
    assert s[1..] == "";
    var rest := Split(s[1..], sep);
    assert rest == [""] && rest[1..] == [] && [s[0]] + rest[0] == s;
  }

  /** `*` is to stand for the highest UID of the mailbox. It does so exactly when the last
      message of the base is one that the user may see; otherwise it selects nothing. */
  lemma StarIsLast(index: Index, lastMsg: int, response: seq<int>)
    requires index.Valid() && Ascending(index.offsets) && index.offsets != []
    requires forall n :: n in index.idx ==> n <= lastMsg
    requires Ascending(response) && forall m :: m in response <==> Selects("*", true, index, lastMsg, m)
    ensures response == [index.offsets[|index.offsets| - 1]] <==> lastMsg in index.idx
    ensures lastMsg !in index.idx ==> response == []
  {
    SplitStar(',');
    SplitStar(':');
    forall m
      ensures Covered("*", lastMsg, m) <==> m == lastMsg
    {
      assert Covers("*", lastMsg, m) <==> m == lastMsg;
      assert "*" in Split("*", ',');
    }
    hide Covered, Split;
    var last := index.offsets[|index.offsets| - 1];
    assert last in index.idx;
    if lastMsg in index.idx {
      assert index.offsets[index.idx[lastMsg] - 1] == lastMsg;
      assert last == lastMsg;
      AscendingUnique(response, [last]);
    } else {
      AscendingUnique(response, []);
    }
  }
}
