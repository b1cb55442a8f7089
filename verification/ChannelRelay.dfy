/** How one server passes a channel message on: to its own members of the channel, and
    once into every link behind which there are others. */
module ChannelRelay {
  import opened JavaScript
  import opened ServerTree

  type User = nat

  /** One server's record of a user. A remote user's `parent` is the neighbouring server
      that introduced it; a user connected here has none. */
  datatype Client = Client(id: User, parent: Option<Server>)

  /** `originatorout` reaches every client of the channel connected to this server, except
      the origin unless `bounce` is set. */
  method BcastToChannel(users: seq<Client>, self: Client, bounce: bool) returns (out: seq<User>)
    requires forall i, j :: 0 <= i < j < |users| ==> users[i].id != users[j].id
    ensures forall id :: multiset(out)[id]
                         == if exists c :: c in users && LocalTarget(c, id, self, bounce) then 1 else 0
    ensures forall id :: id in out <==>
                         exists c :: c in users && c.id == id && c.parent.None? && (id != self.id || bounce)
  {
    out := [];
    for i := 0 to |users|
      invariant forall id :: id in out <==> exists j :: 0 <= j < i && LocalTarget(users[j], id, self, bounce)
      invariant forall id :: multiset(out)[id] <= 1
    {
      var aUser := users[i];
      if (aUser.id != self.id || bounce) && aUser.parent.None? {
        assert LocalTarget(aUser, aUser.id, self, bounce);
        assert aUser.id !in out;
        out := out + [aUser.id];
      }
    }
    forall id, c | c in users && LocalTarget(c, id, self, bounce)
      ensures id in out
    {
      var j :| 0 <= j < |users| && users[j] == c;
    }
    assert forall id :: multiset(out)[id] == 1 <==> id in out;
    forall id, c | c in users && c.id == id && c.parent.None? && (id != self.id || bounce)
      ensures id in out
    {
      assert LocalTarget(c, id, self, bounce);
    }
  }

  predicate LocalTarget(c: Client, id: User, self: Client, bounce: bool) {
    c.id == id && c.parent.None? && (id != self.id || bounce)
  }

  /** One copy goes to every neighbour that is the parent of a remote member, but not back
      to the parent of the origin. */
  method BcastToChannelServers(users: seq<Client>, self: Client) returns (out: seq<Server>)
    ensures forall s :: multiset(out)[s] == if exists c :: c in users && LinkTarget(c, s, self) then 1 else 0
    ensures forall s :: s in out <==> exists c :: c in users && c.parent == Some(s) && self.parent != Some(s)
  {
    out := [];
    var sentToServers: map<Server, bool> := map[];
    for i := 0 to |users|
      invariant forall s :: s in out <==> s in sentToServers
      invariant forall s :: s in out <==> exists j :: 0 <= j < i && LinkTarget(users[j], s, self)
      invariant forall s :: multiset(out)[s] <= 1
    {
      var aUser := users[i];
      if aUser.parent.Some? && self.parent != aUser.parent && aUser.parent.value !in sentToServers {
        assert LinkTarget(aUser, aUser.parent.value, self);
        out := out + [aUser.parent.value];
        sentToServers := sentToServers[aUser.parent.value := true];
      }
    }
    forall s, c | c in users && LinkTarget(c, s, self)
      ensures s in out
    {
      var j :| 0 <= j < |users| && users[j] == c;
    }
    assert forall s :: multiset(out)[s] == 1 <==> s in out;
  }

  predicate LinkTarget(c: Client, s: Server, self: Client) {
    c.parent == Some(s) && c.parent != self.parent
  }

  /** What every server knows about the channel. */
  datatype Channel = Channel(
    members: set<User>,
    home: map<User, Server>,
    noOutside: bool,
    moderated: bool,
    voiced: set<User>,
    opped: set<User>,
    banned: set<User>)

  datatype Refusal = NoOutsideMessages | Moderated | Banned

  /** The checks of `do_msg` before a channel message is sent on. */
  function Refused(ch: Channel, o: User): Option<Refusal> {
    if ch.noOutside && o !in ch.members then Some(NoOutsideMessages)
    else if ch.moderated && o !in ch.voiced && o !in ch.opped then Some(Moderated)
    else if o in ch.banned && o !in ch.voiced && o !in ch.opped then Some(Banned)
    else None
  }

  ghost predicate Located(net: Net, ch: Channel, o: User) {
    && net.Valid()
    && o in ch.home && ch.members <= ch.home.Keys
    && forall u :: u in ch.home ==> ch.home[u] in net.depth
  }

  /** How server `s` records user `u`. */
  function View(net: Net, ch: Channel, s: Server, u: User): Client
    requires net.Valid() && s in net.depth && u in ch.home && ch.home[u] in net.depth
  {
    Client(u, if ch.home[u] == s then None else Some(net.Hop(s, ch.home[u])))
  }

  /** The members that server `s` delivers to itself. */
  function Locals(ch: Channel, o: User, s: Server): set<User>
    requires ch.members <= ch.home.Keys
  {
    set u | u in ch.members && ch.home[u] == s && u != o
  }

  /** Server `s`, handling a message from `o`, sends it into the link to `c`. */
  ghost predicate SendsTo(net: Net, ch: Channel, o: User, s: Server, c: Server)
    requires Located(net, ch, o) && s in net.depth
  {
    && (ch.home[o] == s || net.Hop(s, ch.home[o]) != c)
    && exists u :: u in ch.members && ch.home[u] != s && net.Hop(s, ch.home[u]) == c
  }

  /** The channel branch of `do_msg` on server `s`: if the message is not refused, each
      local member gets it once and each link that needs it carries it once. */
  method DoMsg(net: Net, ch: Channel, o: User, s: Server, users: seq<Client>)
      returns (refusal: Option<Refusal>, delivered: seq<User>, links: seq<Server>)
    requires Located(net, ch, o) && s in net.depth
    requires forall i, j :: 0 <= i < j < |users| ==> users[i].id != users[j].id
    requires forall c :: c in users <==> c.id in ch.members && c == View(net, ch, s, c.id)
    ensures refusal == Refused(ch, o)
    ensures var outsider, trusted := o !in ch.members, o in ch.voiced || o in ch.opped;
      && (refusal == Some(NoOutsideMessages) <==> ch.noOutside && outsider)
      && (refusal == Some(Moderated) <==> !(ch.noOutside && outsider) && !trusted && ch.moderated)
      && (refusal == Some(Banned) <==> !(ch.noOutside && outsider) && !trusted && !ch.moderated && o in ch.banned)
      && (refusal.None? <==> !(ch.noOutside && outsider) && (trusted || (!ch.moderated && o !in ch.banned)))
    ensures refusal.None? ==> forall u :: u in delivered <==> u in ch.members && ch.home[u] == s && u != o
    ensures refusal.Some? ==> delivered == [] && links == []
    ensures refusal.None? ==> multiset(delivered) == multiset(Locals(ch, o, s))
    ensures refusal.None? ==> forall c :: multiset(links)[c] == if SendsTo(net, ch, o, s, c) then 1 else 0
  {
    refusal, delivered, links := Refused(ch, o), [], [];
    if refusal.Some? {
      return;
    }
    var self := View(net, ch, s, o);
    delivered := BcastToChannel(users, self, false);
    links := BcastToChannelServers(users, self);
    forall u
      ensures u in Locals(ch, o, s) <==> exists c :: c in users && LocalTarget(c, u, self, false)
    {
      if u in Locals(ch, o, s) {
        assert View(net, ch, s, u) in users && LocalTarget(View(net, ch, s, u), u, self, false);
      }
    }
    forall u
      ensures u in delivered <==> u in Locals(ch, o, s)
    {
      assert u in delivered <==> multiset(delivered)[u] > 0;
    }
    forall c
      ensures SendsTo(net, ch, o, s, c) <==> exists x :: x in users && LinkTarget(x, c, self)
    {
      if SendsTo(net, ch, o, s, c) {
        var u :| u in ch.members && ch.home[u] != s && net.Hop(s, ch.home[u]) == c;
        assert View(net, ch, s, u) in users && LinkTarget(View(net, ch, s, u), c, self);
      }
    }
  }
}
