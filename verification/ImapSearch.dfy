/** SEARCH: prefix keys compiled into predicates, which are sorted into buckets by the part
    of the message they look at and evaluated bucket by bucket. */
module ImapSearch {
  import opened JavaScript

  /** The part of a message that a predicate takes as its argument. */
  datatype Part = Idx | Hdr | Body | All

  /** A search key of section 6.4.4 of RFC 3501. */
  datatype Key = Leaf(name: string, args: seq<string>) | Not(k: Key) | Or(left: Key, right: Key)

  datatype Msg = Msg(number: nat, offset: nat, hasHdr: bool, hasBody: bool)

  /** A JavaScript truth value, or an exception. */
  datatype Outcome = Value(b: bool) | Threw

  /** The leaves are opaque: `broken` says that building the predicate throws, `sat` is what it
      gives on a message. */
  datatype Env = Env(broken: Key -> bool, sat: (Key, Msg) -> Outcome)

  /** Part and number of arguments of the keys that `get_func` knows. Any other name is a
      predicate on the index that is never true. */
  function Table(name: string): (Part, nat) {
    if name in {"FROM", "KEYWORD", "SUBJECT", "TO", "UNKEYWORD", "BEFORE", "ON", "SINCE",
                "SENTBEFORE", "SENTON", "SENTSINCE", "CC", "BCC"} then (Hdr, 1)
    else if name == "HEADER" then (Hdr, 2)
    else if name == "BODY" then (Body, 1)
    else if name in {"LARGER", "SMALLER", "TEXT"} then (All, 1)
    else if name == "UID" then (Idx, 1)
    else (Idx, 0)
  }

  // -------------------------------------------------------------------- meaning

  /** The truth of a key; it means something where evaluating the key does not throw. */
  predicate Holds(k: Key, m: Msg, env: Env) {
    match k
    case Leaf(_, _) => env.sat(k, m) == Value(true)
    case Not(k1) => !Holds(k1, m, env)
    case Or(k1, k2) => Holds(k1, m, env) || Holds(k2, m, env)
  }

  // ---------------------------------------------------------------- compilation

  /** The closures built by `get_func`. An `or` passes each operand the argument of its part. */
  datatype Fn = FLeaf(key: Key, part: Part) | FNot(f: Fn) | FOr(f: Fn, fPart: Part, g: Fn, gPart: Part)

  function PartOf(k: Key): Part {
    match k
    case Leaf(name, _) => Table(name).0
    case Not(k1) => PartOf(k1)
    case Or(_, _) => All
  }

  function Compile(k: Key): Fn {
    match k
    case Leaf(name, _) => FLeaf(k, Table(name).0)
    case Not(k1) => FNot(Compile(k1))
    case Or(k1, k2) => FOr(Compile(k1), PartOf(k1), Compile(k2), PartOf(k2))
  }

  /** Building the predicate for any leaf of the key throws. */
  predicate Broken(k: Key, env: Env) {
    match k
    case Leaf(_, _) => env.broken(k)
    case Not(k1) => Broken(k1, env)
    case Or(k1, k2) => Broken(k1, env) || Broken(k2, env)
  }

  /** The first key of an argument list and what follows it; None if the list runs out. A
      leaf at the end of the list may be short of arguments. */
  function ReadKey(args: seq<string>): (r: Option<(Key, seq<string>)>)
    ensures r.Some? ==> |r.value.1| < |args|
    decreases |args|
  {
    if args == [] then None else
    var name, rest := Upper(args[0]), args[1..];
    if name == "NOT" then
      match ReadKey(rest)
      case None => None
      case Some((k, more)) => Some((Not(k), more))
    else if name == "OR" then
      match ReadKey(rest)
      case None => None
      case Some((k1, more)) =>
        (match ReadKey(more)
         case None => None
         case Some((k2, end)) => Some((Or(k1, k2), end)))
    else
      var n := if Table(name).1 < |rest| then Table(name).1 else |rest|;
      Some((Leaf(name, rest[..n]), rest[n..]))
  }

  /** All keys of an argument list; None if the last one is incomplete. */
  function ReadKeys(args: seq<string>): Option<seq<Key>>
    decreases |args|
  {
    if args == [] then Some([]) else
    match ReadKey(args)
    case None => None
    case Some((k, rest)) =>
      match ReadKeys(rest)
      case None => None
      case Some(ks) => Some([k] + ks)
  }

  /** How a well-formed key is written. */
  function Written(k: Key): seq<string> {
    match k
    case Leaf(name, args) => [name] + args
    case Not(k1) => ["NOT"] + Written(k1)
    case Or(k1, k2) => ["OR"] + Written(k1) + Written(k2)
  }

  predicate WellFormed(k: Key) {
    match k
    case Leaf(name, args) => Upper(name) == name && name != "NOT" && name != "OR" && |args| == Table(name).1
    case Not(k1) => WellFormed(k1)
    case Or(k1, k2) => WellFormed(k1) && WellFormed(k2)
  }

  lemma ReadNot(rest: seq<string>)
    ensures ReadKey(["NOT"] + rest)
         == match ReadKey(rest) case None => None case Some((k, more)) => Some((Not(k), more))
  {
    assert (["NOT"] + rest)[1..] == rest && Upper("NOT") == "NOT";
  }

  lemma ReadOr(k1: Key, k2: Key, rest: seq<string>, more: seq<string>, end: seq<string>)
    requires ReadKey(rest) == Some((k1, more)) && ReadKey(more) == Some((k2, end))
    ensures ReadKey(["OR"] + rest) == Some((Or(k1, k2), end))
  {
    assert (["OR"] + rest)[1..] == rest && Upper("OR") == "OR";
  }

  lemma ReadLeaf(name: string, kargs: seq<string>, rest: seq<string>)
    requires WellFormed(Leaf(name, kargs))
    ensures ReadKey([name] + kargs + rest) == Some((Leaf(name, kargs), rest))
  {
    hide Upper;
    var args := [name] + kargs + rest;
    var tail := kargs + rest;
    assert args[0] == name && args[1..] == tail;
    assert tail[..|kargs|] == kargs && tail[|kargs|..] == rest;
  }

  /** Prefix notation needs no parentheses. */
  lemma {:induction false} ReadWritten(k: Key, rest: seq<string>)
    requires WellFormed(k)
    ensures ReadKey(Written(k) + rest) == Some((k, rest))
  {
    hide ReadKey, Upper;
    match k
    case Leaf(name, kargs) =>
      ReadLeaf(name, kargs, rest);
    case Not(k1) =>
      ReadWritten(k1, rest);
      ReadNot(Written(k1) + rest);
      assert Written(k) + rest == ["NOT"] + (Written(k1) + rest);
    case Or(k1, k2) =>
      ReadWritten(k1, Written(k2) + rest);
      ReadWritten(k2, rest);
      ReadOr(k1, k2, Written(k1) + (Written(k2) + rest), Written(k2) + rest, rest);
      assert Written(k) + rest == ["OR"] + (Written(k1) + (Written(k2) + rest));
  }

  // ----------------------------------------------------------------- evaluation

  datatype Arg = Undefined | Given(part: Part)

  /** Call a closure with up to three arguments. A leaf throws when the object it reads
      from is undefined; a negation hands on its first argument only. */
  function Call(f: Fn, x: Arg, y: Arg, z: Arg, m: Msg, env: Env): Outcome
    decreases f, 0
  {
    match f
    case FLeaf(key, part) =>
      var fed := if part == All then x == Given(Idx) && y == Given(Hdr) && z == Given(Body) else x == Given(part);
      if fed then env.sat(key, m) else Threw
    case FNot(f1) =>
      (match Call(f1, x, Undefined, Undefined, m, env)
       case Threw => Threw
       case Value(b) => Value(!b))
    case FOr(f1, p1, f2, p2) =>
      (match CallWith(f1, p1, x, y, z, m, env)
       case Threw => Threw
       case Value(b) => if b then Value(true) else CallWith(f2, p2, x, y, z, m, env))
  }

  function CallWith(f: Fn, part: Part, x: Arg, y: Arg, z: Arg, m: Msg, env: Env): Outcome
    decreases f, 1
  {
    match part
    case Idx => Call(f, x, Undefined, Undefined, m, env)
    case Hdr => Call(f, y, Undefined, Undefined, m, env)
    case Body => Call(f, z, Undefined, Undefined, m, env)
    case All => Call(f, x, y, z, m, env)
  }

  /** Evaluating the key on the message throws: it comes to a leaf that throws itself or, below a
      negation of a key that takes all three parts, to one that needs more than the index. `full`
      says that header and body are passed. */
  predicate Throws(k: Key, full: bool, m: Msg, env: Env) {
    match k
    case Leaf(name, _) => (Table(name).0 != Idx && !full) || env.sat(k, m) == Threw
    case Not(k1) => Throws(k1, full && PartOf(k1) != All, m, env)
    case Or(k1, k2) => Throws(k1, full, m, env) || (!Holds(k1, m, env) && Throws(k2, full, m, env))
  }

  /** What the caller passes to a closure of this part. */
  function Passed(part: Part, full: bool, m: Msg): (Arg, Arg, Arg) {
    match part
    case Idx => (Given(Idx), Undefined, Undefined)
    case Hdr => (if full then Given(Hdr) else Undefined, Undefined, Undefined)
    case Body => (if full then Given(Body) else Undefined, Undefined, Undefined)
    case All => (Given(Idx), if full then Given(Hdr) else Undefined, if full then Given(Body) else Undefined)
  }

  /** The compiled key never gives a wrong answer: it throws, exactly when `Throws` says so,
      or it gives the truth value of the key. */
  lemma {:induction false} CompileCorrect(k: Key, full: bool, m: Msg, env: Env)
    ensures var (x, y, z) := Passed(PartOf(k), full, m);
      Call(Compile(k), x, y, z, m, env) == if Throws(k, full, m, env) then Threw else Value(Holds(k, m, env))
  {
    match k
    case Leaf(_, _) =>
    case Not(k1) =>
      CompileCorrect(k1, full && PartOf(k1) != All, m, env);
    case Or(k1, k2) =>
      CompileCorrect(k1, full, m, env);
      CompileCorrect(k2, full, m, env);
  }

  /** Evaluation, with all parts at hand, comes to a leaf that throws. */
  predicate LeafThrows(k: Key, m: Msg, env: Env) {
    match k
    case Leaf(_, _) => env.sat(k, m) == Threw
    case Not(k1) => LeafThrows(k1, m, env)
    case Or(k1, k2) => LeafThrows(k1, m, env) || (!Holds(k1, m, env) && LeafThrows(k2, m, env))
  }

  /** All leaves look at the index only. */
  predicate IndexOnly(k: Key) {
    match k
    case Leaf(name, _) => Table(name).0 == Idx
    case Not(k1) => IndexOnly(k1)
    case Or(k1, k2) => IndexOnly(k1) && IndexOnly(k2)
  }

  /** What is negated looks at the index only, or is not a key that takes all three parts. */
  predicate NoWideNot(k: Key) {
    match k
    case Leaf(_, _) => true
    case Not(k1) => IndexOnly(k1) || (PartOf(k1) != All && NoWideNot(k1))
    case Or(k1, k2) => NoWideNot(k1) && NoWideNot(k2)
  }

  lemma {:induction false} IndexOnlySafe(k: Key, full: bool, m: Msg, env: Env)
    requires IndexOnly(k)
    ensures Throws(k, full, m, env) <==> LeafThrows(k, m, env)
  {
    match k
    case Leaf(_, _) =>
    case Not(k1) => IndexOnlySafe(k1, full && PartOf(k1) != All, m, env);
    case Or(k1, k2) =>
      IndexOnlySafe(k1, full, m, env);
      IndexOnlySafe(k2, full, m, env);
  }

  /** Such keys throw only where a leaf does. */
  lemma {:induction false} NarrowNotSafe(k: Key, m: Msg, env: Env)
    requires NoWideNot(k)
    ensures Throws(k, true, m, env) <==> LeafThrows(k, m, env)
  {
    match k
    case Leaf(_, _) =>
    case Not(k1) =>
      if IndexOnly(k1) {
        IndexOnlySafe(k1, PartOf(k1) != All, m, env);
      } else {
        NarrowNotSafe(k1, m, env);
      }
    case Or(k1, k2) =>
      NarrowNotSafe(k1, m, env);
      NarrowNotSafe(k2, m, env);
  }

  /** A negated OR is evaluated with the index alone: it throws exactly when its first operand does then,
      or is false and the second does. */
  lemma NotOrExact(k1: Key, k2: Key, m: Msg, env: Env)
    ensures Throws(Not(Or(k1, k2)), true, m, env)
       <==> Throws(k1, false, m, env) || (!Holds(k1, m, env) && Throws(k2, false, m, env))
    ensures Call(Compile(Not(Or(k1, k2))), Given(Idx), Given(Hdr), Given(Body), m, env) == Threw
       <==> Throws(k1, false, m, env) || (!Holds(k1, m, env) && Throws(k2, false, m, env))
  {
    CompileCorrect(Not(Or(k1, k2)), true, m, env);
  }

  /** NOT (OR SEEN TO x) throws on every message that has not been seen, whatever its addressee. */
  lemma WideNotThrows(m: Msg, env: Env)
    requires env.sat(Leaf("SEEN", []), m) == Value(false)
    ensures Throws(Not(Or(Leaf("SEEN", []), Leaf("TO", ["x"]))), true, m, env)
    ensures Call(Compile(Not(Or(Leaf("SEEN", []), Leaf("TO", ["x"])))), Given(Idx), Given(Hdr), Given(Body), m, env)
         == Threw
  {
    NotOrExact(Leaf("SEEN", []), Leaf("TO", ["x"]), m, env);
  }

  // ------------------------------------------------------------------ do_search

  /** The argument list that `get_func` shifts its arguments from. */
  class ArgList {
    var args: seq<string>

    constructor (a: seq<string>)
      ensures args == a
    {
      args := a;
    }

    /** `get_func`. `ok` is false when it throws. */
    method GetFunc(env: Env) returns (ok: bool, type_: Part, search: Fn)
      modifies this
      ensures match ReadKey(old(args))
        case None => !ok
        case Some((k, rest)) =>
          && ok == !Broken(k, env)
          && (ok ==> type_ == PartOf(k) && search == Compile(k) && args == rest)
      decreases |args|
    {
      type_, search := Idx, FLeaf(Leaf("", []), Idx);
      if args == [] {
        return false, type_, search;
      }
      var name := Upper(args[0]);
      args := args[1..];
      if name == "NOT" {
        var f;
        ok, type_, f := GetFunc(env);
        search := FNot(f);
      } else if name == "OR" {
        var p1, f1, p2, f2;
        ok, p1, f1 := GetFunc(env);
        if ok {
          ok, p2, f2 := GetFunc(env);
          type_, search := All, FOr(f1, p1, f2, p2);
        }
      } else {
        var n := if Table(name).1 < |args| then Table(name).1 else |args|;
        var key := Leaf(name, args[..n]);
        args := args[n..];
        ok, type_, search := !env.broken(key), Table(name).0, FLeaf(key, Table(name).0);
      }
    }
  }

  /** The compiled keys of one part, in order: one entry of `search_set`. */
  function Bucket(ks: seq<Key>, part: Part): seq<Fn> {
    if ks == [] then [] else
    Bucket(ks[..|ks| - 1], part)
    + (if PartOf(ks[|ks| - 1]) == part then [Compile(ks[|ks| - 1])] else [])
  }

  lemma {:induction false} InBucket(ks: seq<Key>, k: Key)
    requires k in ks
    ensures Compile(k) in Bucket(ks, PartOf(k))
  {
    var front, last := ks[..|ks| - 1], ks[|ks| - 1];
    assert ks == front + [last];
    if k != last {
      InBucket(front, k);
    }
  }

  lemma {:induction false} FromBucket(ks: seq<Key>, part: Part, f: Fn) returns (k: Key)
    requires f in Bucket(ks, part)
    ensures k in ks && PartOf(k) == part && Compile(k) == f
  {
    var front, last := ks[..|ks| - 1], ks[|ks| - 1];
    if f in Bucket(front, part) {
      k := FromBucket(front, part, f);
    } else {
      k := last;
    }
  }

  lemma BucketSnoc(ks: seq<Key>, k: Key, part: Part)
    ensures Bucket(ks + [k], part) == Bucket(ks, part) + (if PartOf(k) == part then [Compile(k)] else [])
  {
    assert (ks + [k])[..|ks|] == ks;
  }

  function Before(ks: seq<Key>, more: Option<seq<Key>>): Option<seq<Key>> {
    match more
    case None => None
    case Some(ks') => Some(ks + ks')
  }

  lemma ReadKeysStep(ks: seq<Key>, args: seq<string>)
    requires args != []
    ensures match ReadKey(args)
      case None => Before(ks, ReadKeys(args)).None?
      case Some((k, rest)) => Before(ks, ReadKeys(args)) == Before(ks + [k], ReadKeys(rest))
  {
    match ReadKey(args)
    case None =>
    case Some((k, rest)) =>
      match ReadKeys(rest)
      case None =>
      case Some(more) => assert ks + ([k] + more) == ks + [k] + more;
  }

  /** The search keys have been sorted into the four buckets. */
  method CompileAll(args: seq<string>, env: Env)
      returns (ok: bool, idx: seq<Fn>, hdr: seq<Fn>, body: seq<Fn>, all: seq<Fn>)
    ensures match ReadKeys(args)
      case None => !ok
      case Some(ks) =>
        && ok == (forall k :: k in ks ==> !Broken(k, env))
        && (ok ==> idx == Bucket(ks, Idx) && hdr == Bucket(ks, Hdr))
        && (ok ==> body == Bucket(ks, Body) && all == Bucket(ks, All))
  {
    hide ReadKey, Broken, Compile, Bucket;
    idx, hdr, body, all := [], [], [], [];
    ghost var ks: seq<Key> := [];
    var list := new ArgList(args);
    StartEmpty(args);
    while list.args != []
      invariant ReadKeys(args) == Before(ks, ReadKeys(list.args))
      invariant forall k :: k in ks ==> !Broken(k, env)
      invariant idx == Bucket(ks, Idx) && hdr == Bucket(ks, Hdr) && body == Bucket(ks, Body) && all == Bucket(ks, All)
      decreases |list.args|
    {
      hide ReadKeys;
      ReadKeysStep(ks, list.args);
      ghost var key := ReadKey(list.args);
      if key.Some? {
        StepKeys(ks, key.value.0, ReadKeys(key.value.1));
      }
      var part, f;
      ok, part, f := list.GetFunc(env);
      if !ok {
        return;
      }
      ghost var k := key.value.0;
      BucketSnoc(ks, k, Idx);
      BucketSnoc(ks, k, Hdr);
      BucketSnoc(ks, k, Body);
      BucketSnoc(ks, k, All);
      ks := ks + [k];
      match part
      case Idx => idx := idx + [f];
      case Hdr => hdr := hdr + [f];
      case Body => body := body + [f];
      case All => all := all + [f];
    }
    ok := true;
    assert ks + [] == ks;
  }

  lemma StartEmpty(args: seq<string>)
    ensures ReadKeys(args) == Before([], ReadKeys(args))
    ensures forall part :: Bucket([], part) == []
  {
    if ReadKeys(args).Some? {
      assert [] + ReadKeys(args).value == ReadKeys(args).value;
    }
  }

  lemma StepKeys(ks: seq<Key>, k: Key, more: Option<seq<Key>>)
    ensures Before(ks + [k], more).Some? ==> k in Before(ks + [k], more).value
  {
  }

  /** Evaluate one bucket. Every predicate is called, even after one has failed. */
  method RunBucket(fs: seq<Fn>, part: Part, m: Msg, env: Env) returns (failed: bool, threw: bool)
    ensures var (x, y, z) := Passed(part, true, m);
      && threw == (exists f :: f in fs && Call(f, x, y, z, m, env) == Threw)
      && (!threw ==> failed == exists f :: f in fs && Call(f, x, y, z, m, env) == Value(false))
  {
    hide Call;
    var (x, y, z) := Passed(part, true, m);
    failed, threw := false, false;
    for j := 0 to |fs|
      invariant !threw && forall i :: 0 <= i < j ==> Call(fs[i], x, y, z, m, env) != Threw
      invariant failed == exists i :: 0 <= i < j && Call(fs[i], x, y, z, m, env) == Value(false)
    {
      var r := Call(fs[j], x, y, z, m, env);
      assert fs[j] in fs;
      if r == Threw {
        return failed, true;
      }
      if r == Value(false) {
        failed := true;
      }
    }
    assert failed ==> exists f :: f in fs && Call(f, x, y, z, m, env) == Value(false);
  }

  /** Some key of one of these parts is among the keys. */
  predicate Uses(ks: seq<Key>, part: Part) {
    exists k :: k in ks && PartOf(k) == part
  }

  predicate NeedsHdr(ks: seq<Key>) { Uses(ks, Hdr) || Uses(ks, All) }

  predicate NeedsBody(ks: seq<Key>) { Uses(ks, Body) || Uses(ks, All) }

  /** The message satisfies all keys, and its header can be read if a key asks for it. */
  predicate Found(ks: seq<Key>, m: Msg, env: Env) {
    (NeedsHdr(ks) ==> m.hasHdr) && forall k :: k in ks ==> Holds(k, m, env)
  }

  predicate BucketThrows(ks: seq<Key>, part: Part, m: Msg, env: Env) {
    exists k :: k in ks && PartOf(k) == part && Throws(k, true, m, env)
  }

  predicate BucketFails(ks: seq<Key>, part: Part, m: Msg, env: Env) {
    exists k :: k in ks && PartOf(k) == part && !Throws(k, true, m, env) && !Holds(k, m, env)
  }

  /** Examining the message throws: a key throws before a key of an earlier part has failed or the header
      is found missing, or a body that is asked for cannot be read. */
  predicate ExamineThrows(ks: seq<Key>, m: Msg, env: Env) {
    || BucketThrows(ks, Idx, m, env)
    || (!BucketFails(ks, Idx, m, env)
        && (NeedsHdr(ks) ==> m.hasHdr)
        && (|| BucketThrows(ks, Hdr, m, env)
            || (!BucketFails(ks, Hdr, m, env)
                && NeedsBody(ks)
                && (|| !m.hasBody
                    || BucketThrows(ks, Body, m, env)
                    || (!BucketFails(ks, Body, m, env) && BucketThrows(ks, All, m, env))))))
  }

  /** Nothing can go wrong with this message. */
  predicate Sound(ks: seq<Key>, m: Msg, env: Env) {
    (NeedsBody(ks) ==> m.hasBody) && forall k :: k in ks ==> NoWideNot(k) && !LeafThrows(k, m, env)
  }

  lemma SoundAnswers(ks: seq<Key>, m: Msg, env: Env)
    requires Sound(ks, m, env)
    ensures !ExamineThrows(ks, m, env)
  {
    hide Throws, LeafThrows, NoWideNot;
    forall k | k in ks ensures !Throws(k, true, m, env) {
      NarrowNotSafe(k, m, env);
    }
  }

  /** A bucket throws or fails exactly when one of its keys does. */
  ghost predicate BucketOk(ks: seq<Key>, part: Part, m: Msg, env: Env) {
    var (x, y, z) := Passed(part, true, m);
    var fs := Bucket(ks, part);
    && ((exists f :: f in fs && Call(f, x, y, z, m, env) == Threw)
        <==> BucketThrows(ks, part, m, env))
    && ((exists f :: f in fs && Call(f, x, y, z, m, env) == Value(false))
        <==> BucketFails(ks, part, m, env))
    && (fs != [] <==> Uses(ks, part))
  }

  lemma BucketVerdict(ks: seq<Key>, part: Part, m: Msg, env: Env)
    ensures BucketOk(ks, part, m, env)
  {
    hide Call, Throws, Holds, Bucket;
    var (x, y, z) := Passed(part, true, m);
    var fs := Bucket(ks, part);
    forall k
      ensures k in ks && PartOf(k) == part ==> Compile(k) in fs
      ensures k in ks && PartOf(k) == part ==>
        Call(Compile(k), x, y, z, m, env) == if Throws(k, true, m, env) then Threw else Value(Holds(k, m, env))
    {
      if k in ks && PartOf(k) == part {
        InBucket(ks, k);
        CompileCorrect(k, true, m, env);
      }
    }
    forall f | f in fs
      ensures exists k :: k in ks && PartOf(k) == part && Compile(k) == f
    {
      var k := FromBucket(ks, part, f);
    }
    if fs != [] {
      assert fs[0] in fs;
    }
  }

  /** The body of the loop over the messages in `do_search`. */
  method Examine(ghost ks: seq<Key>, idx: seq<Fn>, hdr: seq<Fn>, body: seq<Fn>, all: seq<Fn>, m: Msg, env: Env)
      returns (hit: bool, threw: bool)
    requires idx == Bucket(ks, Idx) && hdr == Bucket(ks, Hdr) && body == Bucket(ks, Body) && all == Bucket(ks, All)
    ensures threw <==> ExamineThrows(ks, m, env)
    ensures !threw ==> hit == Found(ks, m, env)
    ensures !threw ==> hit == Answers(ks, m, env)
  {
    hide Call, Throws, Holds, Bucket, Passed;
    BucketVerdict(ks, Idx, m, env);
    BucketVerdict(ks, Hdr, m, env);
    BucketVerdict(ks, Body, m, env);
    BucketVerdict(ks, All, m, env);
    hit, threw := false, false;
    var failed;
    if |idx| > 0 {
      failed, threw := RunBucket(idx, Idx, m, env);
      if threw || failed {
        return;
      }
    }
    if |hdr| > 0 || |all| > 0 {
      if !m.hasHdr {
        return;
      }
      failed, threw := RunBucket(hdr, Hdr, m, env);
      if threw || failed {
        return;
      }
    }
    if |body| > 0 || |all| > 0 {
      if !m.hasBody {
        return false, true;
      }
      failed, threw := RunBucket(body, Body, m, env);
      if threw || failed {
        return;
      }
    }
    if |all| > 0 {
      failed, threw := RunBucket(all, All, m, env);
      if threw || failed {
        return;
      }
    }
    hit := true;
  }

  /** The numbers of the messages found, in order. */
  function Results(ks: seq<Key>, offsets: seq<Msg>, uid: bool, env: Env): seq<nat> {
    if offsets == [] then [] else
    var m := offsets[|offsets| - 1];
    Results(ks, offsets[..|offsets| - 1], uid, env)
    + (if Found(ks, m, env) then [if uid then m.number else m.offset] else [])
  }

  predicate SearchThrows(ks: seq<Key>, offsets: seq<Msg>, env: Env) {
    (exists k :: k in ks && Broken(k, env)) || (exists m :: m in offsets && ExamineThrows(ks, m, env))
  }

  /** `do_search` on the messages given. If it does not throw, its answer is exactly the messages that
      satisfy every key. It throws exactly when a key is incomplete or cannot be built, or examining one
      of the messages throws. */
  method DoSearch(args: seq<string>, offsets: seq<Msg>, uid: bool, env: Env)
      returns (result: seq<nat>, threw: bool, ghost at: seq<nat>)
    ensures threw <==> ReadKeys(args).None? || SearchThrows(ReadKeys(args).value, offsets, env)
    ensures !threw ==> result == Results(ReadKeys(args).value, offsets, uid, env)
    ensures !threw ==> Hits(at, |offsets|, ReadKeys(args).value, offsets, env) && Listed(result, at, offsets, uid)
  {
    hide ReadKeys, Bucket, Broken, Found, ExamineThrows, Hits, Listed, Answers;
    result, threw, at := [], false, [];
    var ok, idx, hdr, body, all := CompileAll(args, env);
    if !ok {
      return [], true, [];
    }
    ghost var ks := ReadKeys(args).value;
    NoHits(ks, offsets, env);
    for i := 0 to |offsets|
      invariant !threw && result == Results(ks, offsets[..i], uid, env)
      invariant forall k :: 0 <= k < i ==> !ExamineThrows(ks, offsets[k], env)
      invariant Hits(at, i, ks, offsets, env) && Listed(result, at, offsets, uid)
    {
      var m := offsets[i];
      assert m in offsets && offsets[..i + 1][..i] == offsets[..i];
      var hit;
      hit, threw := Examine(ks, idx, hdr, body, all, m, env);
      if threw {
        return;
      }
      NextHit(at, i, ks, offsets, env, hit);
      if hit {
        NextListed(result, at, offsets, uid, i);
        result := result + [if uid then m.number else m.offset];
        at := at + [i];
      }
    }
    assert offsets[..|offsets|] == offsets;
  }

  /** `at` are the positions in front of `n` of the messages that satisfy all keys and whose header can be
      read if a key asks for it, in ascending order. */
  ghost predicate Hits(at: seq<nat>, n: nat, ks: seq<Key>, offsets: seq<Msg>, env: Env)
    requires n <= |offsets|
  {
    && (forall i, j :: 0 <= i < j < |at| ==> at[i] < at[j])
    && (forall i :: i in at ==> i < n)
    && forall i :: 0 <= i < n ==> (i in at <==> Answers(ks, offsets[i], env))
  }

  predicate Answers(ks: seq<Key>, m: Msg, env: Env) {
    && (forall k :: k in ks ==> Holds(k, m, env))
    && ((exists k :: k in ks && (PartOf(k) == Hdr || PartOf(k) == All)) ==> m.hasHdr)
  }

  /** The answer gives the messages at these positions, by number for a UID search and else by position in
      the mailbox. */
  ghost predicate Listed(result: seq<nat>, at: seq<nat>, offsets: seq<Msg>, uid: bool) {
    && |result| == |at|
    && forall k :: 0 <= k < |at| ==>
         at[k] < |offsets| && result[k] == if uid then offsets[at[k]].number else offsets[at[k]].offset
  }

  lemma NextListed(result: seq<nat>, at: seq<nat>, offsets: seq<Msg>, uid: bool, i: nat)
    requires Listed(result, at, offsets, uid) && i < |offsets|
    ensures Listed(result + [if uid then offsets[i].number else offsets[i].offset], at + [i], offsets, uid)
  {
  }

  lemma NoHits(ks: seq<Key>, offsets: seq<Msg>, env: Env)
    ensures Hits([], 0, ks, offsets, env) && forall uid :: Listed([], [], offsets, uid)
  {
  }

  lemma NextHit(at: seq<nat>, i: nat, ks: seq<Key>, offsets: seq<Msg>, env: Env, hit: bool)
    requires i < |offsets| && Hits(at, i, ks, offsets, env) && hit == Answers(ks, offsets[i], env)
    ensures Hits(if hit then at + [i] else at, i + 1, ks, offsets, env)
  {
    forall k | 0 <= k < |at| ensures at[k] < i {
      assert at[k] in at;
    }
  }

  // ------------------------------------------------------------- keys and their names

  /** What a key is true of. */
  lemma HoldsMeans(k: Key, l: Key, m: Msg, env: Env)
    ensures Holds(Not(k), m, env) <==> !Holds(k, m, env)
    ensures Holds(Or(k, l), m, env) <==> Holds(k, m, env) || Holds(l, m, env)
    ensures forall name, args :: Holds(Leaf(name, args), m, env) <==> env.sat(Leaf(name, args), m) == Value(true)
  {
  }

  /** Which part of a message each key looks at, and how many arguments it takes. Other names take none and
      look at the index. */
  lemma KeyTable(name: string)
    ensures var hdr := ["FROM", "KEYWORD", "SUBJECT", "TO", "UNKEYWORD", "BEFORE", "ON", "SINCE", "SENTBEFORE",
                        "SENTON", "SENTSINCE", "CC", "BCC"];
      && (name in hdr ==> Table(name) == (Hdr, 1))
      && Table("HEADER") == (Hdr, 2) && Table("BODY") == (Body, 1) && Table("UID") == (Idx, 1)
      && Table("LARGER") == (All, 1) && Table("SMALLER") == (All, 1) && Table("TEXT") == (All, 1)
      && (name !in hdr + ["HEADER", "BODY", "UID", "LARGER", "SMALLER", "TEXT"] ==> Table(name) == (Idx, 0))
  {
  }

  lemma PartMeans(k: Key, l: Key)
    ensures PartOf(Not(k)) == PartOf(k) && PartOf(Or(k, l)) == All
    ensures forall name, args :: PartOf(Leaf(name, args)) == Table(name).0
  {
  }

  /** A key's name may be written in small letters. */
  lemma AnyCase(name: string, rest: seq<string>)
    ensures ReadKey([name] + rest) == ReadKey([Upper(name)] + rest)
  {
    var a, b := [name] + rest, [Upper(name)] + rest;
    assert a[1..] == rest && b[1..] == rest;
    assert Upper(Upper(name)) == Upper(name);
  }

  /** A key at the end of the list may be short of arguments. */
  lemma ShortKey(name: string, args: seq<string>)
    requires Upper(name) == name && name != "NOT" && name != "OR" && |args| <= Table(name).1
    ensures ReadKey([name] + args) == Some((Leaf(name, args), []))
    ensures ReadKey([]) == None
  {
    var a := [name] + args;
    assert a[1..] == args && args[..|args|] == args && args[|args|..] == [];
  }
}
