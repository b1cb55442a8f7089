/** A channel message travelling through the whole network: messages in the links, and
    servers handling them one at a time in any order. */
module FanOut {
  import opened JavaScript
  import opened ServerTree
  import opened ChannelRelay

  type Link = (Server, Server)

  /** `carried` counts what each link has transported in each direction, `ran` records the
      servers that have handled the message. */
  datatype State = State(
    inFlight: multiset<Link>,
    carried: multiset<Link>,
    delivered: multiset<User>,
    ran: set<Server>)

  ghost predicate Setting(net: Net, ch: Channel, o: User) {
    Located(net, ch, o) && Refused(ch, o).None?
  }

  ghost function LinksOut(net: Net, ch: Channel, o: User, s: Server): set<Link>
    requires Located(net, ch, o) && s in net.depth
  {
    set c | c in net.depth && SendsTo(net, ch, o, s, c) :: (s, c)
  }

  /** Server `s` runs `do_msg` for the message of `o`. */
  ghost function Handle(net: Net, ch: Channel, o: User, s: Server, st: State): State
    requires Located(net, ch, o) && s in net.depth
  {
    var out := multiset(LinksOut(net, ch, o, s));
    State(st.inFlight + out, st.carried + out, st.delivered + multiset(Locals(ch, o, s)), st.ran + {s})
  }

  ghost function Init(net: Net, ch: Channel, o: User): State
    requires Setting(net, ch, o)
  {
    Handle(net, ch, o, ch.home[o], State(multiset{}, multiset{}, multiset{}, {}))
  }

  /** The server at the end of link `l` receives the message. It ignores it unless it came
      from its own next hop towards the origin. */
  ghost predicate Step(net: Net, ch: Channel, o: User, st: State, l: Link, st': State)
    requires Setting(net, ch, o)
  {
    && l in st.inFlight && l.1 in net.depth
    && var rest := st.(inFlight := st.inFlight - multiset{l});
       st' == if l.1 != ch.home[o] && net.Hop(l.1, ch.home[o]) == l.0 then Handle(net, ch, o, l.1, rest) else rest
  }

  /** A run delivers the messages of the links `ls` one after the other. */
  ghost predicate Run(net: Net, ch: Channel, o: User, ls: seq<Link>, sts: seq<State>)
    requires Setting(net, ch, o)
  {
    && |sts| == |ls| + 1 && sts[0] == Init(net, ch, o)
    && forall i :: 0 <= i < |ls| ==> Step(net, ch, o, sts[i], ls[i], sts[i + 1])
  }

  // ------------------------------------------------------------------ invariant

  /** Link `l` is used by the servers that have handled the message so far. */
  ghost predicate Used(net: Net, ch: Channel, o: User, ran: set<Server>, l: Link)
    requires Located(net, ch, o) && ran <= net.depth.Keys
  {
    l.0 in ran && l.1 in net.depth && SendsTo(net, ch, o, l.0, l.1)
  }

  ghost predicate Inv(net: Net, ch: Channel, o: User, st: State)
    requires Setting(net, ch, o)
  {
    && st.ran <= net.depth.Keys && ch.home[o] in st.ran
    && (forall s :: s in st.ran && s != ch.home[o] ==> net.Hop(s, ch.home[o]) in st.ran)
    && (forall l :: st.carried[l] == if Used(net, ch, o, st.ran, l) then 1 else 0)
    && (forall l :: st.inFlight[l] == if Used(net, ch, o, st.ran, l) && l.1 !in st.ran then 1 else 0)
    && (forall u :: st.delivered[u] == if u in ch.members && ch.home[u] in st.ran && u != o then 1 else 0)
  }

  /** The receiver of a copy looks back at the sender to find the origin. */
  lemma SentAway(net: Net, ch: Channel, o: User, s: Server, c: Server)
    requires Located(net, ch, o) && s in net.depth && SendsTo(net, ch, o, s, c)
    ensures c in net.depth && c != s && c != ch.home[o] && net.Hop(c, ch.home[o]) == s
  {
    var u :| u in ch.members && ch.home[u] != s && net.Hop(s, ch.home[u]) == c;
    net.LooksBack(s, ch.home[u], ch.home[o]);
    net.HopCloser(s, ch.home[u]);
  }

  lemma InitInv(net: Net, ch: Channel, o: User)
    requires Setting(net, ch, o)
    ensures Inv(net, ch, o, Init(net, ch, o)) && Init(net, ch, o).ran == {ch.home[o]}
  {
    var h := ch.home[o];
    var st := Init(net, ch, o);
    forall l
      ensures st.carried[l] == if Used(net, ch, o, st.ran, l) then 1 else 0
      ensures st.inFlight[l] == if Used(net, ch, o, st.ran, l) && l.1 !in st.ran then 1 else 0
    {
      assert l in LinksOut(net, ch, o, h) <==> Used(net, ch, o, st.ran, l);
      if Used(net, ch, o, st.ran, l) {
        SentAway(net, ch, o, l.0, l.1);
      }
    }
  }

  /** When server `b` handles a message that came over `l`, exactly its own links out are
      added, none of them leads to a server that has handled the message already, and no
      other link led to `b`. */
  lemma HandleUses(net: Net, ch: Channel, o: User, ran: set<Server>, l: Link, k: Link)
    requires Setting(net, ch, o) && ran <= net.depth.Keys && ch.home[o] in ran
    requires forall s :: s in ran && s != ch.home[o] ==> net.Hop(s, ch.home[o]) in ran
    requires Used(net, ch, o, ran, l) && l.1 !in ran
    ensures ran + {l.1} <= net.depth.Keys
    ensures Used(net, ch, o, ran + {l.1}, k) <==> Used(net, ch, o, ran, k) || k in LinksOut(net, ch, o, l.1)
    ensures k in LinksOut(net, ch, o, l.1) ==> !Used(net, ch, o, ran, k) && k.1 !in ran + {l.1}
    ensures Used(net, ch, o, ran, k) && k.1 == l.1 ==> k == l
  {
    hide SendsTo;
    assert k in LinksOut(net, ch, o, l.1) <==> k.0 == l.1 && k.1 in net.depth && SendsTo(net, ch, o, l.1, k.1);
    if Used(net, ch, o, ran + {l.1}, k) {
      SentAway(net, ch, o, k.0, k.1);
    }
    SentAway(net, ch, o, l.0, l.1);
  }

  /** A copy that is on its way is handled where it arrives: the receiver has not handled one before, and
      looks back at the sender to find the origin. */
  lemma StepHandles(net: Net, ch: Channel, o: User, st: State, l: Link, st': State)
    requires Setting(net, ch, o) && Inv(net, ch, o, st) && Step(net, ch, o, st, l, st')
    ensures Used(net, ch, o, st.ran, l) && l.1 !in st.ran && l.1 in net.depth
    ensures st' == Handle(net, ch, o, l.1, st.(inFlight := st.inFlight - multiset{l}))
  {
    hide SendsTo, LinksOut, Handle;
    assert st.inFlight[l] > 0;
    SentAway(net, ch, o, l.0, l.1);
  }

  lemma StepLink(net: Net, ch: Channel, o: User, st: State, l: Link, st': State, k: Link)
    requires Setting(net, ch, o) && Inv(net, ch, o, st) && Step(net, ch, o, st, l, st')
    ensures st'.ran == st.ran + {l.1} <= net.depth.Keys
    ensures st'.carried[k] == if Used(net, ch, o, st'.ran, k) then 1 else 0
    ensures st'.inFlight[k] == if Used(net, ch, o, st'.ran, k) && k.1 !in st'.ran then 1 else 0
  {
    hide SendsTo, LinksOut, Used;
    StepHandles(net, ch, o, st, l, st');
    HandleUses(net, ch, o, st.ran, l, k);
    var out := LinksOut(net, ch, o, l.1);
    assert multiset(out)[k] == if k in out then 1 else 0;
    assert st'.carried[k] == st.carried[k] + multiset(out)[k];
    assert st'.inFlight[k] == (st.inFlight - multiset{l})[k] + multiset(out)[k];
  }

  lemma StepUser(net: Net, ch: Channel, o: User, st: State, l: Link, st': State, u: User)
    requires Setting(net, ch, o) && Inv(net, ch, o, st) && Step(net, ch, o, st, l, st')
    ensures st'.ran == st.ran + {l.1}
    ensures st'.delivered[u] == if u in ch.members && ch.home[u] in st'.ran && u != o then 1 else 0
  {
    hide SendsTo, LinksOut, Used;
    StepHandles(net, ch, o, st, l, st');
    var here: multiset<User> := multiset(Locals(ch, o, l.1));
    assert here[u] == if u in Locals(ch, o, l.1) then 1 else 0;
    assert st'.delivered[u] == st.delivered[u] + here[u];
  }

  lemma StepInv(net: Net, ch: Channel, o: User, st: State, l: Link, st': State)
    requires Setting(net, ch, o) && Inv(net, ch, o, st) && Step(net, ch, o, st, l, st')
    ensures Inv(net, ch, o, st')
    ensures l.1 !in st.ran && st'.ran == st.ran + {l.1}
  {
    hide SendsTo, LinksOut, Handle, Step, Locals;
    StepHandles(net, ch, o, st, l, st');
    SentAway(net, ch, o, l.0, l.1);
    StepUser(net, ch, o, st, l, st', o);
    StepLink(net, ch, o, st, l, st', l);
    forall k
      ensures st'.carried[k] == if Used(net, ch, o, st'.ran, k) then 1 else 0
      ensures st'.inFlight[k] == if Used(net, ch, o, st'.ran, k) && k.1 !in st'.ran then 1 else 0
    {
      StepLink(net, ch, o, st, l, st', k);
    }
    forall u
      ensures st'.delivered[u] == if u in ch.members && ch.home[u] in st'.ran && u != o then 1 else 0
    {
      StepUser(net, ch, o, st, l, st', u);
    }
  }

  lemma {:induction false} RunInv(net: Net, ch: Channel, o: User, ls: seq<Link>, sts: seq<State>, i: nat)
    requires Setting(net, ch, o) && Run(net, ch, o, ls, sts) && i <= |ls|
    ensures Inv(net, ch, o, sts[i]) && |sts[i].ran| == i + 1
  {
    hide Inv, Init, Handle;
    if i == 0 {
      InitInv(net, ch, o);
    } else {
      RunInv(net, ch, o, ls, sts, i - 1);
      StepInv(net, ch, o, sts[i - 1], ls[i - 1], sts[i]);
    }
  }

  // ------------------------------------------------------------------- theorems

  /** At every moment of every run: nobody has got the message twice, only members other
      than the origin have got it, no link has carried it twice or in both directions, and
      each link that carried it leads to such a member. */
  lemma AtMostOnce(net: Net, ch: Channel, o: User, ls: seq<Link>, sts: seq<State>, i: nat)
    requires Setting(net, ch, o) && Run(net, ch, o, ls, sts) && i <= |ls|
    ensures forall u :: sts[i].delivered[u] <= 1
    ensures forall u :: u in sts[i].delivered ==> u in ch.members && u != o
    ensures forall l :: sts[i].carried[l] <= 1
    ensures forall l: Link :: l in sts[i].carried ==> (l.1, l.0) !in sts[i].carried
    ensures forall l: Link :: l in sts[i].carried ==>
      l.0 in net.depth
      && exists u :: u in ch.members && u != o && ch.home[u] != l.0 && net.Hop(l.0, ch.home[u]) == l.1
  {
    RunInv(net, ch, o, ls, sts, i);
    forall l: Link | l in sts[i].carried
      ensures (l.1, l.0) !in sts[i].carried
      ensures l.0 in net.depth
      && exists u :: u in ch.members && u != o && ch.home[u] != l.0 && net.Hop(l.0, ch.home[u]) == l.1
    {
      SentAway(net, ch, o, l.0, l.1);
      assert !SendsTo(net, ch, o, l.1, l.0);
      var u :| u in ch.members && ch.home[u] != l.0 && net.Hop(l.0, ch.home[u]) == l.1;
      assert u != o;
    }
  }

  /** Every run is shorter than the number of servers: the propagation ends. */
  lemma RunsEnd(net: Net, ch: Channel, o: User, ls: seq<Link>, sts: seq<State>)
    requires Setting(net, ch, o) && Run(net, ch, o, ls, sts)
    ensures |ls| < |net.depth|
  {
    RunInv(net, ch, o, ls, sts, |ls|);
    SubsetSize(sts[|ls|].ran, net.depth.Keys);
  }

  /** On the way from a server that has not handled the message yet to the origin, some link
      is carrying it. */
  lemma {:induction false} StillComing(net: Net, ch: Channel, o: User, st: State, u: User, v: Server)
      returns (l: Link)
    requires Setting(net, ch, o) && Inv(net, ch, o, st)
    requires u in ch.members && v in net.depth && v !in st.ran && ch.home[u] !in st.ran
    requires v == ch.home[u] || net.Hop(v, ch.home[u]) != net.Hop(v, ch.home[o])
    ensures l in st.inFlight
    decreases net.Away(v, ch.home[o])
  {
    var h, t := ch.home[o], ch.home[u];
    var a := net.Hop(v, h);
    net.LooksBack(v, h, t);
    if a != h {
      net.NoBounce(v, h);
    }
    if a in st.ran {
      assert SendsTo(net, ch, o, a, v);
      l := (a, v);
      assert Used(net, ch, o, st.ran, l);
    } else {
      net.HopCloser(v, h);
      l := StillComing(net, ch, o, st, u, a);
    }
  }

  /** Once no link carries the message any more, every member other than the origin has got
      it exactly once. */
  lemma ExactlyOnce(net: Net, ch: Channel, o: User, ls: seq<Link>, sts: seq<State>)
    requires Setting(net, ch, o) && Run(net, ch, o, ls, sts)
    requires sts[|ls|].inFlight == multiset{}
    ensures sts[|ls|].delivered == multiset(ch.members - {o})
  {
    var st := sts[|ls|];
    RunInv(net, ch, o, ls, sts, |ls|);
    forall u | u in ch.members
      ensures ch.home[u] in st.ran
    {
      if ch.home[u] !in st.ran {
        var l := StillComing(net, ch, o, st, u, ch.home[u]);
      }
    }
  }

  /** A run that has not come to rest can go on, so by `RunsEnd` every run comes to rest. */
  lemma CanGoOn(net: Net, ch: Channel, o: User, ls: seq<Link>, sts: seq<State>)
      returns (l: Link, st': State)
    requires Setting(net, ch, o) && Run(net, ch, o, ls, sts)
    requires sts[|ls|].inFlight != multiset{}
    ensures Step(net, ch, o, sts[|ls|], l, st') && st'.ran > sts[|ls|].ran
  {
    var st := sts[|ls|];
    RunInv(net, ch, o, ls, sts, |ls|);
    l :| l in st.inFlight;
    assert Used(net, ch, o, st.ran, l);
    SentAway(net, ch, o, l.0, l.1);
    st' := Handle(net, ch, o, l.1, st.(inFlight := st.inFlight - multiset{l}));
    StepInv(net, ch, o, st, l, st');
  }
}
