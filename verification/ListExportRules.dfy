/** The export run told message by message. */
module ListExportRules {
  import opened JavaScript
  import opened ListExport

  /** A message is sent if it is there, neither deleted nor private, readable, and validated if moderated;
      one that only lacks its validation holds up the run. */
  lemma MessageMeans(m: Message)
    ensures Due(Some(m)) <==> !m.deleted && !m.private && m.readable && (m.moderated ==> m.validated)
    ensures Held(Some(m)) <==> !m.deleted && !m.private && m.moderated && !m.validated
    ensures !Due(None) && !Held(None)
  {
  }

  /** Subscribers with an address that are not disabled, in order, by name or else by address. */
  lemma RecipientsMean(subs: seq<Subscriber>, u: Subscriber)
    ensures Recipients([]) == []
    ensures Recipients(subs + [u])
         == Recipients(subs)
            + if !u.disabled && u.address != "" then [Recipient(if u.name != "" then u.name else u.address, u.address)]
              else []
  {
    assert (subs + [u])[..|subs|] == subs;
  }

  /** The signal is seen from a tick of a message on: earlier ticks come before it, later messages behind. */
  lemma SignalMeans(msg: int, at: nat, p: int, tick: nat)
    ensures Stopped(At(msg, at), p, tick) <==> msg < p || (msg == p && at <= tick)
    ensures !Stopped(Never, p, tick)
  {
  }

  /** A run starts behind its pointer, at the first message if that is later, and behind the last message
      without a pointer. */
  lemma StartMeans(b: Base, ptr: int)
    ensures Start(b, None) == b.last + 1
    ensures Start(b, Some(ptr)) == if ptr >= b.first then ptr + 1 else b.first
  {
  }

  /** The loop at message `p`. */
  lemma LoopStep(b: Base, subs: seq<Subscriber>, quit: Quit, p: int)
    ensures p > b.last || Stopped(quit, p, 0) ==> Walk(b, subs, quit, p) == ([], p)
    ensures p <= b.last && !Stopped(quit, p, 0) ==>
              var skip, none: seq<Mail> := Walk(b, subs, quit, p + 1), [];
              Walk(b, subs, quit, p)
              == if p !in b.msgs || b.msgs[p].deleted || b.msgs[p].private then skip
                 else if b.msgs[p].moderated && !b.msgs[p].validated then (none, p - 1)
                 else if !b.msgs[p].readable then skip
                 else if Stopped(quit, p, |subs| + 1) then (none, p - 1)
                 else if Recipients(subs) == [] then skip
                 else ([Mail(p, Recipients(subs))] + skip.0, skip.1)
  {
    hide Recipients, Stopped;
  }

  /** Without active subscribers nothing is sent. */
  lemma {:induction false} NobodyGetsNothing(b: Base, subs: seq<Subscriber>, quit: Quit, p: int)
    requires Recipients(subs) == []
    ensures Walk(b, subs, quit, p).0 == []
    decreases b.last + 1 - p
  {
    hide Recipients;
    if p <= b.last && !Stopped(quit, p, 0) && !Held(Lookup(b, p)) {
      NobodyGetsNothing(b, subs, quit, p + 1);
    }
  }

  /** What a run saves: nothing without subscribers, and otherwise where its loop ended, at most the last
      message. */
  lemma RunMeans(b: Base, subs: seq<Subscriber>, quit: Quit, ptr: Option<int>)
    ensures subs == [] ==> Export(b, subs, quit, ptr) == ([], ptr)
    ensures subs != [] ==>
              var (mail, q) := Walk(b, subs, quit, Start(b, ptr));
              Export(b, subs, quit, ptr) == (mail, Some(if q > b.last then b.last else q))
  {
    hide Walk;
  }
}
