/** The states of an IMAP session and which commands each of them serves. */
module ImapSession {
  import opened JavaScript

  datatype State = UnAuthenticated | Authenticated | Selected

  datatype Table = AnyState | BeforeLogin | Mailboxes | Messages

  // `args` are the words behind the tag and the command, which is in upper case.
  datatype Command = Command(name: string, args: seq<string>)

  // What the host answers: whether a login succeeds, whether a mailbox can be found, and whether an
  // idle client runs out of time.
  datatype Host = Host(login: bool, mailbox: Option<string>, idledOut: bool)

  /** The command tables: the command is known and takes so many arguments. */
  predicate Serves(t: Table, name: string, count: nat) {
    match t
    case AnyState => name in ["CAPABILITY", "NOOP", "LOGOUT", "IDLE"] && count == 0
    case BeforeLogin =>
      (name == "STARTTLS" && count == 0) || (name == "AUTHENTICATE" && count == 1) || (name == "LOGIN" && count == 2)
    case Mailboxes =>
      || (name in ["SELECT", "EXAMINE", "CREATE", "DELETE", "SUBSCRIBE", "UNSUBSCRIBE"] && count == 1)
      || (name in ["RENAME", "LIST", "LSUB", "STATUS"] && count == 2)
      || (name == "APPEND" && 2 <= count <= 4)
    case Messages =>
      || (name in ["CHECK", "CLOSE", "UNSELECT", "EXPUNGE"] && count == 0)
      || (name == "SEARCH" && count >= 1) || (name in ["FETCH", "COPY"] && count == 2)
      || (name == "STORE" && count == 3) || (name == "UID" && 2 <= count <= 4)
  }

  // One executed command, with what held in front of it.
  datatype Executed = Executed(table: Table, name: string, loggedIn: bool, mailbox: Option<string>)

  // `mailbox` is the open message base; `loggedIn` holds once the host has let the user in.
  datatype View = View(state: State, mailbox: Option<string>, ended: bool, loggedIn: bool, log: seq<Executed>)

  class Session {
    var state: State
    var mailbox: Option<string>
    var ended: bool
    ghost var loggedIn: bool
    ghost var log: seq<Executed>

    ghost function Now(): View
      reads this
    {
      View(state, mailbox, ended, loggedIn, log)
    }

    constructor ()
      ensures Now() == View(UnAuthenticated, None, false, false, [])
    {
      state, mailbox, ended, loggedIn, log := UnAuthenticated, None, false, false, [];
    }

    method OpenSub(host: Host) returns (found: bool)
      modifies this`mailbox
      ensures found == host.mailbox.Some? && mailbox == host.mailbox
    {
      mailbox := None;
      if host.mailbox.Some? {
        mailbox := host.mailbox;
      }
      found := mailbox.Some?;
    }

    /** The handlers that change the session. */
    method Handle(c: Command, t: Table, host: Host)
      requires Serves(t, c.name, |c.args|) && !ended
      modifies this
      ensures log == old(log) + [Executed(t, c.name, old(loggedIn), old(mailbox))]
      ensures loggedIn == (old(loggedIn) || (LogsIn(c, t) && host.login))
      ensures ended == (t == AnyState && (c.name == "LOGOUT" || (c.name == "IDLE" && host.idledOut)))
      ensures state == if LogsIn(c, t) && host.login then Authenticated
                       else if Opens(c, t) then (if host.mailbox.Some? then Selected else Authenticated)
                       else if Closes(c, t) then Authenticated
                       else old(state)
      ensures mailbox == if ended then None
                         else if Opens(c, t) then host.mailbox
                         else if Closes(c, t) then None
                         else old(mailbox)
    {
      log := log + [Executed(t, c.name, loggedIn, mailbox)];
      match t
      case AnyState =>
        if c.name == "LOGOUT" || (c.name == "IDLE" && host.idledOut) {
          mailbox, ended := None, true;
        }
      case BeforeLogin =>
        if c.name == "AUTHENTICATE" {
          if Upper(c.args[0]) == "PLAIN" && host.login {
            state, loggedIn := Authenticated, true;
          }
        } else if c.name == "LOGIN" && host.login {
          state, loggedIn := Authenticated, true;
        }
      case Mailboxes =>
        if c.name == "SELECT" || c.name == "EXAMINE" {
          var found := OpenSub(host);
          state := if found then Selected else Authenticated;
        }
      case Messages =>
        if c.name == "CLOSE" || c.name == "UNSELECT" {
          mailbox := None;
          state := Authenticated;
        }
    }

    /** Executes one line; `bad` says that no table of the state serves it. */
    method Execute(c: Command, host: Host) returns (bad: bool)
      requires !ended
      modifies this
      ensures Now() == Next(old(Now()), c, host)
      ensures bad <==> Chosen(old(state), c).None?
    {
      if Serves(AnyState, c.name, |c.args|) {
        Handle(c, AnyState, host);
        return false;
      }
      match state {
        case UnAuthenticated =>
          if Serves(BeforeLogin, c.name, |c.args|) {
            Handle(c, BeforeLogin, host);
            return false;
          }
        case Authenticated =>
          if Serves(Mailboxes, c.name, |c.args|) {
            Handle(c, Mailboxes, host);
            return false;
          }
        case Selected =>
          if Serves(Messages, c.name, |c.args|) {
            Handle(c, Messages, host);
            return false;
          }
          if Serves(Mailboxes, c.name, |c.args|) {
            Handle(c, Mailboxes, host);
            return false;
          }
      }
      bad := true;
    }
  }

  predicate LogsIn(c: Command, t: Table)
    requires Serves(t, c.name, |c.args|)
  {
    t == BeforeLogin && (c.name == "LOGIN" || (c.name == "AUTHENTICATE" && Upper(c.args[0]) == "PLAIN"))
  }

  predicate Opens(c: Command, t: Table) {
    t == Mailboxes && (c.name == "SELECT" || c.name == "EXAMINE")
  }

  predicate Closes(c: Command, t: Table) {
    t == Messages && (c.name == "CLOSE" || c.name == "UNSELECT")
  }

  /** The table that serves a command in a state. */
  function Chosen(s: State, c: Command): Option<Table> {
    if Serves(AnyState, c.name, |c.args|) then Some(AnyState)
    else if s == UnAuthenticated then if Serves(BeforeLogin, c.name, |c.args|) then Some(BeforeLogin) else None
    else if s == Selected && Serves(Messages, c.name, |c.args|) then Some(Messages)
    else if Serves(Mailboxes, c.name, |c.args|) then Some(Mailboxes)
    else None
  }

  function Next(v: View, c: Command, host: Host): View {
    match Chosen(v.state, c)
    case None => v
    case Some(t) =>
      var w := v.(log := v.log + [Executed(t, c.name, v.loggedIn, v.mailbox)]);
      if t == AnyState && (c.name == "LOGOUT" || (c.name == "IDLE" && host.idledOut)) then
        w.(ended := true, mailbox := None)
      else if LogsIn(c, t) && host.login then w.(state := Authenticated, loggedIn := true)
      else if Opens(c, t) then
        w.(state := if host.mailbox.Some? then Selected else Authenticated, mailbox := host.mailbox)
      else if Closes(c, t) then w.(state := Authenticated, mailbox := None)
      else w
  }

  function Run(v: View, cs: seq<(Command, Host)>): View
    decreases |cs|
  {
    if cs == [] || v.ended then v else Run(Next(v, cs[0].0, cs[0].1), cs[1..])
  }

  /** What a command needed was there when it was executed. */
  predicate Entitled(x: Executed) {
    match x.table
    case AnyState => true
    case BeforeLogin => !x.loggedIn
    case Mailboxes => x.loggedIn
    case Messages => x.loggedIn && x.mailbox.Some?
  }

  predicate Safe(v: View) {
    && (!v.ended ==> (v.mailbox.Some? <==> v.state == Selected))
    && (v.ended ==> v.mailbox.None?)
    && (v.state == UnAuthenticated <==> !v.loggedIn)
    && forall k :: 0 <= k < |v.log| ==> Entitled(v.log[k])
  }

  lemma NextSafe(v: View, c: Command, host: Host)
    requires Safe(v) && !v.ended
    ensures Safe(Next(v, c, host)) && v.log <= Next(v, c, host).log
    ensures v.loggedIn ==> Next(v, c, host).loggedIn
  {
  }

  /** On every run: a mailbox is open exactly in the selected state, mailbox commands come after a
      login, message commands with a mailbox open, and a login is never undone. */
  lemma {:induction false} RunSafe(v: View, cs: seq<(Command, Host)>)
    requires Safe(v)
    ensures Safe(Run(v, cs)) && v.log <= Run(v, cs).log
    ensures v.state != UnAuthenticated ==> Run(v, cs).state != UnAuthenticated
    decreases |cs|
  {
    if cs != [] && !v.ended {
      NextSafe(v, cs[0].0, cs[0].1);
      RunSafe(Next(v, cs[0].0, cs[0].1), cs[1..]);
    }
  }

  /** Without a login granted by the host no run gets beyond the commands served before it. */
  lemma NoEntryWithoutLogin(v: View, cs: seq<(Command, Host)>)
    requires Safe(v) && v.state == UnAuthenticated && v.log == []
    requires forall k :: 0 <= k < |cs| ==> !cs[k].1.login
    ensures Run(v, cs).state == UnAuthenticated && Run(v, cs).mailbox.None?
    ensures forall x <- Run(v, cs).log :: x.table == AnyState || x.table == BeforeLogin
    decreases |cs|
  {
    StaysOut(v, cs);
  }

  lemma {:induction false} StaysOut(v: View, cs: seq<(Command, Host)>)
    requires Safe(v) && v.state == UnAuthenticated
    requires forall x <- v.log :: x.table == AnyState || x.table == BeforeLogin
    requires forall k :: 0 <= k < |cs| ==> !cs[k].1.login
    ensures Run(v, cs).state == UnAuthenticated && Run(v, cs).mailbox.None?
    ensures forall x <- Run(v, cs).log :: x.table == AnyState || x.table == BeforeLogin
    decreases |cs|
  {
    if cs != [] && !v.ended {
      NextSafe(v, cs[0].0, cs[0].1);
      StaysOut(Next(v, cs[0].0, cs[0].1), cs[1..]);
    }
  }
}
