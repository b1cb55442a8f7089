/** The mailing-list exporter: one persistent pointer into a message base, moved by every run. */
module ListExport {
  import opened JavaScript

  // `readable` is false when the base has the header but not the text.
  datatype Message = Message(deleted: bool, private: bool, moderated: bool, validated: bool, readable: bool)

  datatype Base = Base(msgs: map<int, Message>, first: int, last: int)

  datatype Subscriber = Subscriber(name: string, address: string, disabled: bool)

  datatype Recipient = Recipient(to: string, address: string)

  datatype Mail = Mail(number: int, recipients: seq<Recipient>)

  // The process is told to stop at message `msg`, check `tick` of it: 0 is the loop guard, u + 1 the
  // check before subscriber u, and the check behind the last subscriber follows those.
  datatype Quit = Never | At(msg: int, tick: nat)

  predicate Sound(b: Base) {
    && b.first <= b.last + 1
    && forall n <- b.msgs :: b.first <= n <= b.last
  }

  predicate Stopped(quit: Quit, p: int, tick: nat) {
    quit.At? && (quit.msg < p || (quit.msg == p && quit.tick <= tick))
  }

  function Lookup(b: Base, n: int): Option<Message> {
    if n in b.msgs then Some(b.msgs[n]) else None
  }

  predicate Held(m: Option<Message>) {
    m.Some? && !m.value.deleted && !m.value.private && m.value.moderated && !m.value.validated
  }

  /** A message that subscribers are to get. */
  predicate Due(m: Option<Message>) {
    m.Some? && !m.value.deleted && !m.value.private && m.value.readable && !Held(m)
  }

  predicate Active(u: Subscriber) {
    !u.disabled && u.address != ""
  }

  function Recipients(subs: seq<Subscriber>): seq<Recipient> {
    if subs == [] then []
    else
      var u := subs[|subs| - 1];
      Recipients(subs[..|subs| - 1])
      + if Active(u) then [Recipient(if u.name == "" then u.address else u.name, u.address)] else []
  }

  /** The mail sent, and where the pointer stands, when the loop goes on from `p`. */
  function Walk(b: Base, subs: seq<Subscriber>, quit: Quit, p: int): (seq<Mail>, int)
    decreases b.last + 1 - p
  {
    if p > b.last || Stopped(quit, p, 0) then ([], p)
    else if Held(Lookup(b, p)) then ([], p - 1)
    else if !Due(Lookup(b, p)) then Walk(b, subs, quit, p + 1)
    else if Stopped(quit, p, |subs| + 1) then ([], p - 1)
    else
      var (mail, q) := Walk(b, subs, quit, p + 1);
      (if Recipients(subs) == [] then mail else [Mail(p, Recipients(subs))] + mail, q)
  }

  /** The first message to look at. */
  function Start(b: Base, ptr: Option<int>): int {
    if ptr.None? then b.last + 1 else if ptr.value < b.first then b.first else ptr.value + 1
  }

  function Min(a: int, b: int): int {
    if a < b then a else b
  }

  /** One run: the mail sent and the pointer saved. */
  function Export(b: Base, subs: seq<Subscriber>, quit: Quit, ptr: Option<int>): (seq<Mail>, Option<int>) {
    if subs == [] then ([], ptr)
    else
      var (mail, q) := Walk(b, subs, quit, Start(b, ptr));
      (mail, Some(Min(q, b.last)))
  }

  function Numbers(mail: seq<Mail>): seq<int> {
    if mail == [] then [] else [mail[0].number] + Numbers(mail[1..])
  }

  class Exporter {
    var pointer: Option<int>
    var sent: seq<Mail>

    method Run(b: Base, subs: seq<Subscriber>, quit: Quit)
      modifies this
      ensures sent == old(sent) + Export(b, subs, quit, old(pointer)).0
      ensures pointer == Export(b, subs, quit, old(pointer)).1
    {
      if subs == [] {
        return;
      }
      var ptr: int;
      match pointer {
        case None => ptr := b.last + 1;
        case Some(value) => ptr := if value < b.first then b.first else value + 1;
      }
      ghost var start := ptr;
      var broke := false;
      while !broke && ptr <= b.last && !Stopped(quit, ptr, 0)
        invariant !broke ==>
                    sent + Walk(b, subs, quit, ptr).0 == old(sent) + Walk(b, subs, quit, start).0
                    && Walk(b, subs, quit, ptr).1 == Walk(b, subs, quit, start).1
        invariant broke ==>
                    sent == old(sent) + Walk(b, subs, quit, start).0 && ptr == Walk(b, subs, quit, start).1
        decreases !broke, b.last + 1 - ptr
      {
        if ptr !in b.msgs || b.msgs[ptr].deleted || b.msgs[ptr].private {
          ptr := ptr + 1;
        } else if b.msgs[ptr].moderated && !b.msgs[ptr].validated {
          ptr, broke := ptr - 1, true;
        } else if !b.msgs[ptr].readable {
          ptr := ptr + 1;
        } else {
          var recipients := Collect(subs, quit, ptr);
          if Stopped(quit, ptr, |subs| + 1) {
            ptr, broke := ptr - 1, true;
          } else {
            if recipients != [] {
              sent := sent + [Mail(ptr, recipients)];
            }
            ptr := ptr + 1;
          }
        }
      }
      if ptr > b.last {
        ptr := b.last;
      }
      pointer := Some(ptr);
    }
  }

  method Collect(subs: seq<Subscriber>, quit: Quit, p: int) returns (recipients: seq<Recipient>)
    ensures !Stopped(quit, p, |subs| + 1) ==> recipients == Recipients(subs)
  {
    recipients := [];
    var u := 0;
    while u < |subs| && !Stopped(quit, p, u + 1)
      invariant 0 <= u <= |subs|
      invariant recipients == Recipients(subs[..u])
    {
      assert subs[..u + 1][..u] == subs[..u];
      if !subs[u].disabled && subs[u].address != "" {
        var name := if subs[u].name == "" then subs[u].address else subs[u].name;
        recipients := recipients + [Recipient(name, subs[u].address)];
      }
      u := u + 1;
    }
    assert subs[..|subs|] == subs;
  }

  // ---------------------------------------------------------------- one run

  /** The numbers from `a` up to `b` whose messages are due, ascending. */
  function DueIn(base: Base, a: int, b: int): seq<int>
    decreases b + 1 - a
  {
    if a > b then []
    else (if Due(Lookup(base, a)) then [a] else []) + DueIn(base, a + 1, b)
  }

  lemma {:induction false} DueInSnoc(base: Base, a: int, b: int)
    requires a <= b
    ensures DueIn(base, a, b) == DueIn(base, a, b - 1) + (if Due(Lookup(base, b)) then [b] else [])
    decreases b - a
  {
    if a < b {
      DueInSnoc(base, a + 1, b);
    }
  }

  lemma {:induction false} ActiveMeans(subs: seq<Subscriber>)
    ensures Recipients(subs) != [] <==> exists u :: 0 <= u < |subs| && Active(subs[u])
  {
    if subs != [] {
      var rest := subs[..|subs| - 1];
      ActiveMeans(rest);
      if Recipients(rest) != [] {
        var u :| 0 <= u < |rest| && Active(rest[u]);
        assert Active(subs[u]);
      }
      if exists u :: 0 <= u < |subs| && Active(subs[u]) {
        var u :| 0 <= u < |subs| && Active(subs[u]);
        assert u < |rest| ==> Active(rest[u]);
      }
    }
  }

  /** The run ended at the loop guard, with the message the pointer is left on not looked at. */
  predicate CutShort(b: Base, quit: Quit, q: int) {
    q <= b.last && Stopped(quit, q, 0)
  }

  lemma {:induction false} WalkSends(b: Base, subs: seq<Subscriber>, quit: Quit, p: int)
    requires p <= b.last + 1 && Recipients(subs) != []
    ensures var (mail, q) := Walk(b, subs, quit, p);
            && p - 1 <= q <= b.last + 1
            && (CutShort(b, quit, q) ==> p <= q)
            && (p <= b.last < q ==> !Stopped(quit, b.last, 0))
            && Numbers(mail) == DueIn(b, p, if CutShort(b, quit, q) then q - 1 else Min(q, b.last))
    decreases b.last + 1 - p
  {
    if p <= b.last && !Stopped(quit, p, 0) && !Held(Lookup(b, p)) {
      WalkSends(b, subs, quit, p + 1);
    }
  }

  lemma {:induction false} WalkHolds(b: Base, subs: seq<Subscriber>, quit: Quit, p: int, n: int)
    requires p <= n <= b.last
    requires var q := Walk(b, subs, quit, p).1; n <= q && !(CutShort(b, quit, q) && n == q)
    ensures !Held(Lookup(b, n))
    decreases b.last + 1 - p
  {
    if p < n {
      WalkHolds(b, subs, quit, p + 1, n);
    }
  }

  lemma {:induction false} WalkEnds(b: Base, subs: seq<Subscriber>, quit: Quit, p: int)
    requires p <= b.last + 1
    ensures var q := Walk(b, subs, quit, p).1;
            p - 1 <= q && (quit == Never && q < b.last ==> Held(Lookup(b, q + 1)))
    decreases b.last + 1 - p
  {
    if p <= b.last && !Stopped(quit, p, 0) && !Held(Lookup(b, p)) {
      WalkEnds(b, subs, quit, p + 1);
    }
  }

  lemma {:induction false} MailTo(b: Base, subs: seq<Subscriber>, quit: Quit, p: int, k: nat)
    requires p <= b.last + 1 && k < |Walk(b, subs, quit, p).0|
    ensures Walk(b, subs, quit, p).0[k].recipients == Recipients(subs) != []
    decreases b.last + 1 - p
  {
    if Due(Lookup(b, p)) && Recipients(subs) != [] {
      if k > 0 {
        MailTo(b, subs, quit, p + 1, k - 1);
      }
    } else {
      MailTo(b, subs, quit, p + 1, k);
    }
  }

  /** Nothing lies between the pointer and the first message of the base. */
  lemma {:induction false} Jump(b: Base, a: int, c: int)
    requires Sound(b) && a <= b.first
    ensures DueIn(b, a, c) == DueIn(b, if b.first <= c + 1 then b.first else c + 1, c)
    decreases b.first - a
  {
    if a < b.first && a <= c {
      Jump(b, a + 1, c);
    }
  }

  /** Where the loop guard first sees that the run has to stop, when the loop goes on from `p`. */
  function GuardAt(quit: Quit, p: int): int
    requires quit.At?
  {
    if Stopped(quit, p, 0) then p else if quit.tick == 0 then quit.msg else quit.msg + 1
  }

  /** The loop guard ends a run from `p`: it comes to that message without being held up, and no check
      behind the guard has seen the signal first. */
  predicate GuardEnds(b: Base, subs: seq<Subscriber>, quit: Quit, p: int) {
    && quit.At? && GuardAt(quit, p) <= b.last
    && (forall n :: p <= n < GuardAt(quit, p) ==> !Held(Lookup(b, n)))
    && !(p <= quit.msg && 0 < quit.tick <= |subs| + 1 && Due(Lookup(b, quit.msg)))
  }

  lemma {:induction false} GuardExact(b: Base, subs: seq<Subscriber>, quit: Quit, p: int)
    requires p <= b.last + 1
    ensures var q := Walk(b, subs, quit, p).1;
            && (CutShort(b, quit, q) <==> GuardEnds(b, subs, quit, p))
            && (CutShort(b, quit, q) ==> p <= q && q == GuardAt(quit, p))
    decreases b.last + 1 - p
  {
    if p <= b.last && !Stopped(quit, p, 0) && !Held(Lookup(b, p)) {
      GuardExact(b, subs, quit, p + 1);
      if quit.At? {
        assert GuardAt(quit, p) == GuardAt(quit, p + 1);
      }
    }
  }

  /** The run leaves its pointer on a message that it has not looked at and that the list would have to
      send or to wait for. */
  predicate Skips(b: Base, subs: seq<Subscriber>, quit: Quit, ptr: int) {
    var p := Start(b, Some(ptr));
    GuardEnds(b, subs, quit, p)
    && (Due(Lookup(b, GuardAt(quit, p))) || Held(Lookup(b, GuardAt(quit, p))))
  }

  /** What one run means for the numbers from the old pointer to the new one: each message that is due
      is sent, once and in order, exactly unless the loop guard ends the run on a due message. */
  lemma RunExact(b: Base, subs: seq<Subscriber>, quit: Quit, ptr: int)
    requires Sound(b) && ptr <= b.last && Recipients(subs) != []
    ensures var (mail, next) := Export(b, subs, quit, Some(ptr));
            && next.Some? && ptr <= next.value <= b.last
            && (Numbers(mail) == DueIn(b, ptr + 1, next.value)
                <==> !(GuardEnds(b, subs, quit, Start(b, Some(ptr)))
                       && Due(Lookup(b, GuardAt(quit, Start(b, Some(ptr)))))))
            && (Numbers(mail) == DueIn(b, ptr + 1, next.value) || |Numbers(mail)| < |DueIn(b, ptr + 1, next.value)|)
  {
    hide Walk, DueIn, Numbers, GuardEnds, Recipients, Due, Lookup;
    assert subs != [] by {
      EmptyRecipients();
    }
    var start := Start(b, Some(ptr));
    GuardExact(b, subs, quit, start);
    WalkSends(b, subs, quit, start);
    var (mail, q) := Walk(b, subs, quit, start);
    var e := Min(q, b.last);
    if ptr < b.first {
      Jump(b, ptr + 1, e);
    }
    assert DueIn(b, ptr + 1, e) == DueIn(b, start, e);
    if CutShort(b, quit, q) {
      DueInSnoc(b, start, q);
      assert |[q]| == 1;
    }
  }

  /** The pointer passes no message awaiting moderation, exactly unless the loop guard ends the run on one. */
  lemma HoldsExact(b: Base, subs: seq<Subscriber>, quit: Quit, ptr: int)
    requires Sound(b) && ptr <= b.last && subs != []
    ensures var next := Export(b, subs, quit, Some(ptr)).1.value;
            && ptr <= next <= b.last
            && ((forall n :: ptr < n <= next ==> !Held(Lookup(b, n)))
                <==> !(GuardEnds(b, subs, quit, Start(b, Some(ptr)))
                       && Held(Lookup(b, GuardAt(quit, Start(b, Some(ptr)))))))
  {
    var start := Start(b, Some(ptr));
    GuardExact(b, subs, quit, start);
    WalkSpan(b, subs, quit, start);
    var q := Walk(b, subs, quit, start).1;
    var next := Min(q, b.last);
    forall n | ptr < n <= next && !(CutShort(b, quit, q) && n == q) ensures !Held(Lookup(b, n)) {
      if n >= start {
        WalkHolds(b, subs, quit, start, n);
      }
    }
  }

  lemma {:induction false} WalkSpan(b: Base, subs: seq<Subscriber>, quit: Quit, p: int)
    requires p <= b.last + 1
    ensures var q := Walk(b, subs, quit, p).1;
            && p - 1 <= q <= b.last + 1
            && (CutShort(b, quit, q) ==> p <= q)
            && (p <= b.last < q ==> !Stopped(quit, b.last, 0))
    decreases b.last + 1 - p
  {
    if p <= b.last && !Stopped(quit, p, 0) && !Held(Lookup(b, p)) {
      WalkSpan(b, subs, quit, p + 1);
    }
  }

  /** A run that is not told to stop leaves the pointer at the last message or in front of one awaiting
      moderation. */
  lemma RunReaches(b: Base, subs: seq<Subscriber>, ptr: int)
    requires Sound(b) && ptr <= b.last && subs != []
    ensures var next := Export(b, subs, Never, Some(ptr)).1.value;
            next == b.last || Held(Lookup(b, next + 1))
  {
    WalkEnds(b, subs, Never, Start(b, Some(ptr)));
  }

  /** A first run, without a pointer, sends nothing and starts the list at the newest message. */
  lemma FirstRun(b: Base, subs: seq<Subscriber>, quit: Quit)
    requires subs != []
    ensures Export(b, subs, quit, None) == ([], Some(b.last))
  {
  }

  // ---------------------------------------------------------------- many runs

  // Between runs the base may change in any way that does not take back message numbers.
  datatype Event = Changed(base: Base) | Run(subs: seq<Subscriber>, quit: Quit)

  // `seen` holds, for every number the pointer passed, what the base held under it at that time.
  datatype State = State(base: Base, ptr: int, sent: seq<int>, seen: seq<Option<Message>>)

  function Views(b: Base, a: int, c: int): (r: seq<Option<Message>>)
    ensures |r| == if a <= c then c - a + 1 else 0
    decreases c + 1 - a
  {
    if a > c then [] else [Lookup(b, a)] + Views(b, a + 1, c)
  }

  function Step(s: State, e: Event): State {
    match e
    case Changed(base) => s.(base := base)
    case Run(subs, quit) =>
      var (mail, next) := Export(s.base, subs, quit, Some(s.ptr));
      if next.None? then s
      else State(s.base, next.value, s.sent + Numbers(mail), s.seen + Views(s.base, s.ptr + 1, next.value))
  }

  /** The base keeps its numbers, and a list with subscribers has an active one. */
  predicate Proper(s: State, e: Event) {
    match e
    case Changed(base) => Sound(base) && s.base.last <= base.last
    case Run(subs, quit) => subs == [] || Recipients(subs) != []
  }

  /** No run is ended by its loop guard on a message that is due or held. */
  predicate Careful(s: State, e: Event) {
    e.Run? && e.subs != [] ==> !Skips(s.base, e.subs, e.quit, s.ptr)
  }

  function After(s: State, es: seq<Event>): State
    decreases |es|
  {
    if es == [] then s else After(Step(s, es[0]), es[1..])
  }

  predicate AllProper(s: State, es: seq<Event>)
    decreases |es|
  {
    es == [] || (Proper(s, es[0]) && AllProper(Step(s, es[0]), es[1..]))
  }

  predicate AllCareful(s: State, es: seq<Event>)
    decreases |es|
  {
    es == [] || (Careful(s, es[0]) && AllCareful(Step(s, es[0]), es[1..]))
  }

  /** The numbers behind `start` whose message was due when the pointer passed. */
  function DueOf(start: int, seen: seq<Option<Message>>): seq<int>
    decreases |seen|
  {
    if seen == [] then []
    else (if Due(seen[0]) then [start + 1] else []) + DueOf(start + 1, seen[1..])
  }

  lemma {:induction false} DueOfJoin(start: int, a: seq<Option<Message>>, b: seq<Option<Message>>)
    ensures DueOf(start, a + b) == DueOf(start, a) + DueOf(start + |a|, b)
    decreases |a|
  {
    if a == [] {
      assert a + b == b;
    } else {
      hide Due;
      assert (a + b)[1..] == a[1..] + b && (a + b)[0] == a[0];
      DueOfJoin(start + 1, a[1..], b);
      var first := if Due(a[0]) then [start + 1] else [];
      assert DueOf(start, a + b) == first + DueOf(start + 1, a[1..] + b);
      assert DueOf(start, a) == first + DueOf(start + 1, a[1..]);
    }
  }

  lemma {:induction false} DueOfViews(b: Base, a: int, c: int)
    ensures DueOf(a - 1, Views(b, a, c)) == DueIn(b, a, c)
    decreases c + 1 - a
  {
    if a <= c {
      DueOfViews(b, a + 1, c);
      assert Views(b, a, c)[1..] == Views(b, a + 1, c);
    }
  }

  lemma {:induction false} ViewsAt(b: Base, a: int, c: int, k: nat)
    requires k <= c - a
    ensures Views(b, a, c)[k] == Lookup(b, a + k)
    decreases k
  {
    if k > 0 {
      ViewsAt(b, a + 1, c, k - 1);
    }
  }

  predicate Sane(origin: int, s: State) {
    Sound(s.base) && s.ptr <= s.base.last && |s.seen| == s.ptr - origin
  }

  predicate NoneHeld(seen: seq<Option<Message>>) {
    forall k :: 0 <= k < |seen| ==> !Held(seen[k])
  }

  predicate Ledger(origin: int, s: State) {
    Sane(origin, s) && s.sent == DueOf(origin, s.seen) && NoneHeld(s.seen)
  }

  /** A due message has been lost, or a held one passed. */
  predicate Behind(origin: int, s: State) {
    Sane(origin, s) && (|s.sent| < |DueOf(origin, s.seen)| || !NoneHeld(s.seen))
  }

  lemma HeldViews(b: Base, a: int, c: int)
    ensures NoneHeld(Views(b, a, c)) <==> forall n :: a <= n <= c ==> !Held(Lookup(b, n))
  {
    forall k | 0 <= k < |Views(b, a, c)| ensures Views(b, a, c)[k] == Lookup(b, a + k) {
      ViewsAt(b, a, c, k);
    }
    if NoneHeld(Views(b, a, c)) {
      forall n | a <= n <= c ensures !Held(Lookup(b, n)) {
        assert !Held(Views(b, a, c)[n - a]);
      }
    }
  }

  /** What a run adds to the books. */
  lemma RunAdds(origin: int, s: State, subs: seq<Subscriber>, quit: Quit)
    returns (mail: seq<int>, due: seq<int>, views: seq<Option<Message>>)
    requires Sane(origin, s) && Recipients(subs) != []
    ensures var t := Step(s, Run(subs, quit));
            && Sane(origin, t) && t.sent == s.sent + mail && t.seen == s.seen + views
            && DueOf(origin, t.seen) == DueOf(origin, s.seen) + due
            && (mail == due || |mail| < |due|)
            && (mail == due && NoneHeld(views) <==> !Skips(s.base, subs, quit, s.ptr))
  {
    hide DueIn, DueOf, Walk, Due, Held, CutShort, Lookup, Recipients, GuardEnds, NoneHeld, Numbers;
    var b := s.base;
    assert subs != [] by {
      EmptyRecipients();
    }
    RunExact(b, subs, quit, s.ptr);
    HoldsExact(b, subs, quit, s.ptr);
    var (sent, next) := Export(b, subs, quit, Some(s.ptr));
    mail, due, views := Numbers(sent), DueIn(b, s.ptr + 1, next.value), Views(b, s.ptr + 1, next.value);
    HeldViews(b, s.ptr + 1, next.value);
    DueOfJoin(origin, s.seen, views);
    DueOfViews(b, s.ptr + 1, next.value);
  }

  lemma EmptyRecipients()
    ensures Recipients([]) == []
  {
  }

  lemma NoneHeldJoin(a: seq<Option<Message>>, b: seq<Option<Message>>)
    ensures NoneHeld(a + b) <==> NoneHeld(a) && NoneHeld(b)
  {
    if NoneHeld(a + b) {
      forall k | 0 <= k < |a| ensures !Held(a[k]) {
        assert !Held((a + b)[k]);
      }
      forall k | 0 <= k < |b| ensures !Held(b[k]) {
        assert !Held((a + b)[|a| + k]);
      }
    }
  }

  lemma StepLedger(origin: int, s: State, e: Event)
    requires Sane(origin, s) && Proper(s, e)
    ensures Ledger(origin, s) ==> if Careful(s, e) then Ledger(origin, Step(s, e)) else Behind(origin, Step(s, e))
    ensures Behind(origin, s) ==> Behind(origin, Step(s, e))
    ensures Sane(origin, Step(s, e)) && s.ptr <= Step(s, e).ptr
  {
    hide DueOf, NoneHeld, Skips, Recipients, Views, Walk, Numbers;
    if e.Run? && e.subs == [] {
      QuietRun(s, e);
    } else if e.Run? {
      var mail, due, views := RunAdds(origin, s, e.subs, e.quit);
      NoneHeldJoin(s.seen, views);
    }
  }

  /** A list without subscribers is left alone. */
  lemma QuietRun(s: State, e: Event)
    requires e.Run? && e.subs == []
    ensures Step(s, e) == s
  {
    assert s.sent + [] == s.sent && s.seen + [] == s.seen;
  }

  /** Over any runs and changes the books are right exactly when every run was careful: a message that a
      run skips is not made up for by later ones. */
  lemma {:induction false} LedgerExact(origin: int, s: State, es: seq<Event>)
    requires Sane(origin, s) && AllProper(s, es)
    ensures Ledger(origin, s) ==> (Ledger(origin, After(s, es)) <==> AllCareful(s, es))
    ensures Behind(origin, s) ==> Behind(origin, After(s, es))
    ensures Sane(origin, After(s, es)) && s.ptr <= After(s, es).ptr
    decreases |es|
  {
    hide Sane, NoneHeld, DueOf, Step, Proper, Careful;
    NotBoth(origin, After(s, es));
    if es != [] {
      StepLedger(origin, s, es[0]);
      LedgerExact(origin, Step(s, es[0]), es[1..]);
    }
  }

  lemma NotBoth(origin: int, s: State)
    ensures !(Ledger(origin, s) && Behind(origin, s))
  {
  }

  /** The pointer passed `n` while its message was due. */
  predicate DueAt(start: int, seen: seq<Option<Message>>, n: int) {
    start < n <= start + |seen| && Due(seen[n - start - 1])
  }

  lemma {:induction false} DueOfMembers(start: int, seen: seq<Option<Message>>)
    ensures forall n :: n in DueOf(start, seen) <==> DueAt(start, seen, n)
    ensures forall i, j :: 0 <= i < j < |DueOf(start, seen)| ==> DueOf(start, seen)[i] < DueOf(start, seen)[j]
    decreases |seen|
  {
    if seen != [] {
      DueOfMembers(start + 1, seen[1..]);
      var d, rest := DueOf(start, seen), DueOf(start + 1, seen[1..]);
      forall n ensures n in d <==> DueAt(start, seen, n) {
        assert n in rest <==> DueAt(start + 1, seen[1..], n);
      }
      forall i, j | 0 <= i < j < |d| ensures d[i] < d[j] {
        if Due(seen[0]) && i == 0 {
          assert d[j] == rest[j - 1] && d[j] in rest;
          assert DueAt(start + 1, seen[1..], d[j]);
        }
      }
    }
  }

  /** Over any careful runs and any changes from a pointer at `origin`: what is sent is ascending, so nothing is sent
      twice; a number is sent exactly when the pointer passed it while its message was due; and no
      message was passed while it awaited moderation. */
  lemma ExactlyOnce(s: State, es: seq<Event>)
    requires Sound(s.base) && s.ptr <= s.base.last && s.sent == [] && s.seen == []
    requires AllProper(s, es) && AllCareful(s, es)
    ensures var t := After(s, es);
            && s.ptr <= t.ptr <= t.base.last && |t.seen| == t.ptr - s.ptr
            && (forall i, j :: 0 <= i < j < |t.sent| ==> t.sent[i] < t.sent[j])
            && (forall n :: n in t.sent <==> DueAt(s.ptr, t.seen, n))
            && (forall k :: 0 <= k < |t.seen| ==> !Held(t.seen[k]))
  {
    LedgerExact(s.ptr, s, es);
    var t := After(s, es);
    DueOfMembers(s.ptr, t.seen);
  }

  /** Message `n` stays due from its posting on. */
  predicate Steady(n: int, b: Base) {
    n <= b.last ==> Due(Lookup(b, n))
  }

  predicate AlwaysSteady(n: int, s: State, es: seq<Event>)
    decreases |es|
  {
    Steady(n, s.base) && (es == [] || AlwaysSteady(n, Step(s, es[0]), es[1..]))
  }

  lemma {:induction false} SteadySeen(origin: int, n: int, s: State, es: seq<Event>)
    requires Ledger(origin, s) && AllProper(s, es) && AllCareful(s, es) && AlwaysSteady(n, s, es)
    requires origin < n && (n <= s.ptr ==> Due(s.seen[n - origin - 1]))
    ensures Ledger(origin, After(s, es))
    ensures n <= After(s, es).ptr ==> Due(After(s, es).seen[n - origin - 1])
    decreases |es|
  {
    if es != [] {
      var e, t := es[0], Step(s, es[0]);
      StepLedger(origin, s, e);
      if s.ptr < n <= t.ptr {
        ViewsAt(s.base, s.ptr + 1, t.ptr, n - s.ptr - 1);
      }
      SteadySeen(origin, n, t, es[1..]);
    }
  }

  /** A message above the first pointer that is due whenever it is there is sent as soon as the pointer
      has passed it. */
  lemma SteadyIsSent(n: int, s: State, es: seq<Event>)
    requires Sound(s.base) && s.ptr <= s.base.last && s.sent == [] && s.seen == []
    requires AllProper(s, es) && AllCareful(s, es) && s.ptr < n && AlwaysSteady(n, s, es)
    ensures n in After(s, es).sent <==> n <= After(s, es).ptr
  {
    SteadySeen(s.ptr, n, s, es);
    ExactlyOnce(s, es);
  }

  /** A run told to stop at its loop guard loses the message there: the next run starts behind it. */
  lemma GuardLosesMessage()
    ensures var m := Message(false, false, false, false, true);
            var b := Base(map[1 := m, 2 := m], 1, 2);
            var subs := [Subscriber("Ann", "ann@x.org", false)];
            var s := State(b, 0, [], []);
            Due(Lookup(b, 1)) && After(s, [Run(subs, At(1, 0)), Run(subs, Never)]).sent == [2]
  {
    var m := Message(false, false, false, false, true);
    var b := Base(map[1 := m, 2 := m], 1, 2);
    var subs := [Subscriber("Ann", "ann@x.org", false)];
    var s := State(b, 0, [], []);
    assert Recipients(subs) == [Recipient("Ann", "ann@x.org")];
    assert Walk(b, subs, At(1, 0), 1) == ([], 1);
    var t := Step(s, Run(subs, At(1, 0)));
    assert t == State(b, 1, [], [Some(m)]);
    assert Walk(b, subs, Never, 3) == ([], 3);
    assert Lookup(b, 2) == Some(m) && Due(Lookup(b, 2)) && !Held(Lookup(b, 2));
    assert [Mail(2, Recipients(subs))] + [] == [Mail(2, Recipients(subs))];
    assert Walk(b, subs, Never, 2) == ([Mail(2, Recipients(subs))], 3);
    var u := Step(t, Run(subs, Never));
    assert [Mail(2, Recipients(subs))][1..] == [];
    assert Numbers([Mail(2, Recipients(subs))]) == [2];
    assert u.sent == [2];
    assert [Run(subs, At(1, 0)), Run(subs, Never)][1..] == [Run(subs, Never)];
    assert After(t, [Run(subs, Never)]) == u;
  }
}
