/** The commands of a session by name, and where each leads. */
module ImapSessionRules {
  import opened JavaScript
  import opened ImapSession

  /** Which commands each table serves, and with how many arguments. */
  lemma CommandTable(name: string, n: nat)
    ensures Serves(AnyState, name, n) <==>
              n == 0 && (name == "CAPABILITY" || name == "NOOP" || name == "LOGOUT" || name == "IDLE")
    ensures Serves(BeforeLogin, name, n) <==>
              || (n == 0 && name == "STARTTLS") || (n == 1 && name == "AUTHENTICATE") || (n == 2 && name == "LOGIN")
    ensures Serves(Mailboxes, name, n) <==>
              || (n == 1 && (name == "SELECT" || name == "EXAMINE" || name == "CREATE" || name == "DELETE"
                             || name == "SUBSCRIBE" || name == "UNSUBSCRIBE"))
              || (n == 2 && (name == "RENAME" || name == "LIST" || name == "LSUB" || name == "STATUS"))
              || (2 <= n <= 4 && name == "APPEND")
    ensures Serves(Messages, name, n) <==>
              || (n == 0 && (name == "CHECK" || name == "CLOSE" || name == "UNSELECT" || name == "EXPUNGE"))
              || (n >= 1 && name == "SEARCH") || (n == 2 && (name == "FETCH" || name == "COPY"))
              || (n == 3 && name == "STORE") || (2 <= n <= 4 && name == "UID")
  {
  }

  /** The table looked at first is the one for any state, then that of the state; in the selected state
      mailbox commands come last. */
  lemma TablesOf(s: State, c: Command)
    ensures var n := |c.args|;
      Chosen(s, c)
      == if Serves(AnyState, c.name, n) then Some(AnyState)
         else match s
              case UnAuthenticated => if Serves(BeforeLogin, c.name, n) then Some(BeforeLogin) else None
              case Authenticated => if Serves(Mailboxes, c.name, n) then Some(Mailboxes) else None
              case Selected =>
                if Serves(Messages, c.name, n) then Some(Messages)
                else if Serves(Mailboxes, c.name, n) then Some(Mailboxes) else None
  {
    hide Serves;
  }

  /** Where the commands lead that change a session; all others leave its state and mailbox alone. */
  lemma Leads(v: View, c: Command, host: Host)
    ensures var t, w := Chosen(v.state, c), Next(v, c, host);
      && (t == None ==> w == v)
      && (t == Some(AnyState) && (c.name == "LOGOUT" || (c.name == "IDLE" && host.idledOut)) ==>
            w.ended && w.mailbox == None && w.state == v.state)
      && (t == Some(BeforeLogin) && host.login && (c.name == "LOGIN" || (c.name == "AUTHENTICATE" && Plain(c.args))) ==>
            w.state == Authenticated && w.loggedIn && w.mailbox == v.mailbox)
      && (t == Some(Mailboxes) && (c.name == "SELECT" || c.name == "EXAMINE") ==>
            w.state == (if host.mailbox == None then Authenticated else Selected) && w.mailbox == host.mailbox)
      && (t == Some(Messages) && (c.name == "CLOSE" || c.name == "UNSELECT") ==>
            w.state == Authenticated && w.mailbox == None)
      && (c.name !in ["LOGOUT", "IDLE", "LOGIN", "AUTHENTICATE", "SELECT", "EXAMINE", "CLOSE", "UNSELECT"]
          || (c.name == "IDLE" && !host.idledOut) || (c.name == "LOGIN" && !host.login)
          || (c.name == "AUTHENTICATE" && !(host.login && Plain(c.args))) ==>
            w.state == v.state && w.mailbox == v.mailbox && w.ended == v.ended && w.loggedIn == v.loggedIn)
  {
    hide Upper;
  }

  predicate Plain(args: seq<string>) {
    args != [] && Upper(args[0]) == "PLAIN"
  }
}
