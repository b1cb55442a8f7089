/** The send and receive queues of a local client of the IRC daemon. */
module IrcQueues {
  function Size(lines: seq<string>): nat {
    if lines == [] then 0 else |lines[0]| + Size(lines[1..])
  }

  lemma {:induction false} SizeSnoc(lines: seq<string>, line: string)
    ensures Size(lines + [line]) == Size(lines) + |line|
  {
    if lines == [] {
      assert lines + [line] == [line];
    } else {
      assert (lines + [line])[1..] == lines[1..] + [line];
      SizeSnoc(lines[1..], line);
    }
  }

  lemma {:induction false} SizeZero(lines: seq<string>)
    ensures Size(lines) == 0 <==> forall k :: 0 <= k < |lines| ==> lines[k] == ""
  {
    if lines != [] {
      SizeZero(lines[1..]);
      if forall k :: 0 <= k < |lines| ==> lines[k] == "" {
        forall k | 0 <= k < |lines[1..]| ensures lines[1..][k] == "" {
          assert lines[1..][k] == lines[k + 1];
        }
      }
      if Size(lines) == 0 {
        forall k | 0 <= k < |lines| ensures lines[k] == "" {
          assert k > 0 ==> lines[k] == lines[1..][k - 1];
        }
      }
    }
  }

  class Queue {
    var queue: seq<string>
    var bytes: int

    constructor ()
      ensures queue == [] && bytes == 0
    {
      queue, bytes := [], 0;
    }

    method Add(str: string)
      modifies this
      ensures queue == old(queue) + [str] && bytes == old(bytes) + |str|
    {
      bytes := bytes + |str|;
      queue := queue + [str];
    }

    method Del() returns (str: string)
      requires queue != []
      modifies this
      ensures [str] + queue == old(queue) && bytes == old(bytes) - |str|
    {
      str := queue[0];
      bytes := bytes - |str|;
      queue := queue[1..];
    }
  }

  // ---------------------------------------------------------------- output

  // `produced` are the lines the daemon wrote to the client, `accepted` those its socket took.
  datatype Out = Out(accepted: seq<string>, queue: seq<string>, bytes: int, produced: seq<string>)

  function Sent(s: Out, line: string, takes: bool): Out {
    if s.bytes != 0 || !takes then
      Out(s.accepted, s.queue + [line], s.bytes + |line|, s.produced + [line])
    else
      Out(s.accepted + [line], s.queue, s.bytes, s.produced + [line])
  }

  /** One look at the send queue; the result of the send is not used. */
  function Polled(s: Out, writable: bool, takes: bool): Out {
    if s.bytes != 0 && writable && s.queue != [] then
      Out(if takes then s.accepted + [s.queue[0]] else s.accepted,
          s.queue[1..], s.bytes - |s.queue[0]|, s.produced)
    else s
  }

  predicate Counted(s: Out) {
    s.bytes == Size(s.queue)
  }

  /** Nothing is lost, doubled or overtaken. */
  predicate InOrder(s: Out) {
    s.accepted + s.queue == s.produced
  }

  // ---------------------------------------------------------------- input

  // `received` are the commands read from the client, `executed` those carried out.
  datatype In = In(executed: seq<string>, queue: seq<string>, bytes: int, received: seq<string>,
                   idle: int, throttle: nat)

  /** A user's command at time `now`: the fifth within two seconds of each other is put off. */
  function Worked(s: In, cmd: string, now: int): In {
    if now - s.idle <= 2 && s.throttle + 1 >= 5 then
      s.(queue := s.queue + [cmd], bytes := s.bytes + |cmd|, throttle := 0, idle := now)
    else
      s.(executed := s.executed + [cmd], throttle := if now - s.idle <= 2 then s.throttle + 1 else 0, idle := now)
  }

  /** The receive loop; an empty line is no command. */
  function Received(s: In, cmd: string, now: int): In {
    if cmd == "" then s
    else
      var r := s.(received := s.received + [cmd]);
      if s.bytes != 0 then r.(queue := s.queue + [cmd], bytes := s.bytes + |cmd|) else Worked(r, cmd, now)
  }

  function Ticked(s: In, now: int): In {
    if s.bytes != 0 && now - s.idle >= 2 && s.queue != [] then
      Worked(s.(queue := s.queue[1..], bytes := s.bytes - |s.queue[0]|, throttle := 0), s.queue[0], now)
    else s
  }

  predicate InputInOrder(s: In) {
    && s.executed + s.queue == s.received
    && s.bytes == Size(s.queue)
    && (forall k :: 0 <= k < |s.queue| ==> s.queue[k] != "")
    && s.throttle <= 4
  }

  // ---------------------------------------------------------------- the client

  // Whoever a line comes from: a server writes under its name, a user under nick!user@host.
  datatype Origin = Origin(server: bool, nick: string, nuh: string)

  class Client {
    const sendq: Queue
    const recvq: Queue
    const isServer: bool
    var idletime: int
    var throttleCount: nat
    var accepted: seq<string>
    var executed: seq<string>
    ghost var produced: seq<string>
    ghost var received: seq<string>

    ghost predicate Valid()
      reads this, sendq, recvq
    {
      sendq != recvq && Counted(Output()) && InputInOrder(Input())
    }

    ghost function Output(): Out
      reads this, sendq
    {
      Out(accepted, sendq.queue, sendq.bytes, produced)
    }

    ghost function Input(): In
      reads this, recvq
    {
      In(executed, recvq.queue, recvq.bytes, received, idletime, throttleCount)
    }

    constructor (server: bool, now: int)
      ensures Valid() && fresh(sendq) && fresh(recvq) && isServer == server
      ensures Output() == Out([], [], 0, []) && Input() == In([], [], 0, [], now, 0)
    {
      sendq := new Queue();
      recvq := new Queue();
      isServer, idletime, throttleCount := server, now, 0;
      accepted, executed, produced, received := [], [], [], [];
    }

    /** `takes` is what the socket answers to a send. */
    method Send(line: string, takes: bool)
      requires Valid()
      modifies this, sendq
      ensures Valid() && Output() == Sent(old(Output()), line, takes) && Input() == old(Input())
    {
      SizeSnoc(sendq.queue, line);
      produced := produced + [line];
      if sendq.bytes != 0 || !takes {
        sendq.Add(line);
      } else {
        accepted := accepted + [line];
      }
    }

    method RawOut(str: string, takes: bool)
      requires Valid()
      modifies this, sendq
      ensures Valid() && Output() == Sent(old(Output()), str, takes) && Input() == old(Input())
    {
      Send(str, takes);
    }

    method OriginatorOut(str: string, origin: Origin, takes: bool)
      requires Valid()
      modifies this, sendq
      ensures Valid() && Input() == old(Input())
      ensures var from := if isServer || origin.server then origin.nick else origin.nuh;
              Output() == Sent(old(Output()), ":" + from + " " + str, takes)
    {
      var data: string;
      if !isServer {
        if origin.server {
          data := ":" + origin.nick + " " + str;
        } else {
          data := ":" + origin.nuh + " " + str;
        }
      } else {
        data := ":" + origin.nick + " " + str;
      }
      Send(data, takes);
    }

    method IrcOut(str: string, servername: string, takes: bool)
      requires Valid()
      modifies this, sendq
      ensures Valid() && Output() == Sent(old(Output()), ":" + servername + " " + str, takes)
      ensures Input() == old(Input())
    {
      Send(":" + servername + " " + str, takes);
    }

    method Work(cmd: string, now: int)
      requires sendq != recvq
      modifies this, recvq
      ensures Input() == Worked(old(Input()), cmd, now) && Output() == old(Output())
    {
      if now - idletime <= 2 {
        throttleCount := throttleCount + 1;
        if throttleCount >= 5 {
          recvq.Add(cmd);
          throttleCount := 0;
          idletime := now;
          return;
        }
      } else {
        throttleCount := 0;
      }
      idletime := now;
      executed := executed + [cmd];
    }

    method Receive(cmd: string, now: int)
      requires Valid()
      modifies this, recvq
      ensures Valid() && Input() == Received(old(Input()), cmd, now) && Output() == old(Output())
    {
      ReceiveKeeps(Input(), cmd, now);
      if cmd != "" {
        received := received + [cmd];
        if recvq.bytes != 0 {
          recvq.Add(cmd);
        } else {
          Work(cmd, now);
        }
      }
    }

    method CheckQueues(now: int, writable: bool, takes: bool)
      requires Valid()
      modifies this, sendq, recvq
      ensures Valid() && Output() == Polled(old(Output()), writable, takes) && Input() == Ticked(old(Input()), now)
    {
      TickKeeps(Input(), now);
      if sendq.bytes != 0 && writable {
        if takes {
          accepted := accepted + [sendq.queue[0]];
        }
        sendq.bytes := sendq.bytes - |sendq.queue[0]|;
        sendq.queue := sendq.queue[1..];
      }
      if recvq.bytes != 0 && now - idletime >= 2 {
        var cmd := recvq.Del();
        throttleCount := 0;
        Work(cmd, now);
      }
    }
  }

  // ---------------------------------------------------------------- output keeps its order

  /** A queue of nothing but empty lines counts as empty. */
  predicate Overtakes(s: Out, line: string, takes: bool) {
    s.queue != [] && (forall k :: 0 <= k < |s.queue| ==> s.queue[k] == "") && takes && line != ""
  }

  lemma SendExact(s: Out, line: string, takes: bool)
    requires Counted(s) && InOrder(s)
    ensures Counted(Sent(s, line, takes))
    ensures InOrder(Sent(s, line, takes)) <==> !Overtakes(s, line, takes)
  {
    SizeSnoc(s.queue, line);
    SizeZero(s.queue);
    var t := Sent(s, line, takes);
    if s.bytes == 0 && takes {
      assert t.accepted + t.queue == s.accepted + ([line] + s.queue);
      assert t.produced == s.accepted + (s.queue + [line]);
      if InOrder(t) {
        assert (s.accepted + ([line] + s.queue))[|s.accepted|] == (s.accepted + (s.queue + [line]))[|s.accepted|];
      }
      if line == "" {
        assert [line] + s.queue == s.queue + [line];
      }
    } else {
      assert s.accepted + (s.queue + [line]) == (s.accepted + s.queue) + [line];
    }
  }

  lemma PollExact(s: Out, writable: bool, takes: bool)
    requires Counted(s) && InOrder(s)
    ensures Counted(Polled(s, writable, takes))
    ensures InOrder(Polled(s, writable, takes)) <==> !(s.bytes != 0 && writable && !takes)
  {
    var t := Polled(s, writable, takes);
    if t != s {
      assert s.queue == [s.queue[0]] + s.queue[1..];
      if takes {
        assert (s.accepted + [s.queue[0]]) + s.queue[1..] == s.accepted + s.queue;
      } else {
        assert |t.accepted + t.queue| == |s.produced| - 1;
      }
    }
  }

  datatype Event = Line(line: string, takes: bool) | Poll(writable: bool, takes: bool)

  function OutStep(s: Out, e: Event): Out {
    match e
    case Line(line, takes) => Sent(s, line, takes)
    case Poll(writable, takes) => Polled(s, writable, takes)
  }

  function OutRun(s: Out, es: seq<Event>): Out
    decreases |es|
  {
    if es == [] then s else OutRun(OutStep(s, es[0]), es[1..])
  }

  /** A line with text, or a socket that takes what it was ready for. */
  predicate Fair(e: Event) {
    match e
    case Line(line, _) => line != ""
    case Poll(writable, takes) => writable ==> takes
  }

  predicate NoBlank(lines: seq<string>) {
    forall k :: 0 <= k < |lines| ==> lines[k] != ""
  }

  /** Over any run of lines and polls the client gets a beginning of what was written to it, and the
      rest is waiting in order. */
  lemma {:induction false} NoOvertaking(s: Out, es: seq<Event>)
    requires Counted(s) && InOrder(s) && NoBlank(s.queue) && forall e <- es :: Fair(e)
    ensures var t := OutRun(s, es);
            Counted(t) && InOrder(t) && NoBlank(t.queue) && t.accepted <= t.produced && s.accepted <= t.accepted
    decreases |es|
  {
    if es != [] {
      var e, t := es[0], OutStep(s, es[0]);
      assert e in es && forall x <- es[1..] :: x in es;
      if e.Line? {
        SendExact(s, e.line, e.takes);
        assert s.queue != [] ==> s.queue[0] != "";
      } else {
        PollExact(s, e.writable, e.takes);
      }
      NoOvertaking(t, es[1..]);
    }
  }

  /** The event keeps the order: no queue of empty lines is overtaken, and a socket reported ready takes
      the line. */
  predicate Orderly(s: Out, e: Event) {
    match e
    case Line(line, takes) => !Overtakes(s, line, takes)
    case Poll(writable, takes) => !(s.bytes != 0 && writable && !takes)
  }

  predicate AllOrderly(s: Out, es: seq<Event>)
    decreases |es|
  {
    es == [] || (Orderly(s, es[0]) && AllOrderly(OutStep(s, es[0]), es[1..]))
  }

  /** A line has been lost, or one has come out of turn. */
  predicate Spoilt(s: Out) {
    || |s.accepted| + |s.queue| < |s.produced|
    || exists k :: 0 <= k < |s.accepted| && k < |s.produced| && s.accepted[k] != s.produced[k]
  }

  lemma SpoiltNow(s: Out, e: Event)
    requires Counted(s) && InOrder(s) && !Orderly(s, e)
    ensures Spoilt(OutStep(s, e))
  {
    if e.Line? {
      SizeZero(s.queue);
      var t, k := OutStep(s, e), |s.accepted|;
      assert t.accepted[k] == e.line && t.produced[k] == s.queue[0] == "";
    } else {
      assert |s.produced| == |s.accepted| + |s.queue|;
    }
  }

  lemma SpoiltStays(s: Out, e: Event)
    requires Spoilt(s)
    ensures Spoilt(OutStep(s, e))
  {
    var t := OutStep(s, e);
    if exists k :: 0 <= k < |s.accepted| && k < |s.produced| && s.accepted[k] != s.produced[k] {
      var k :| 0 <= k < |s.accepted| && k < |s.produced| && s.accepted[k] != s.produced[k];
      assert t.accepted[k] == s.accepted[k] && t.produced[k] == s.produced[k];
    }
  }

  lemma InOrderMeans(s: Out)
    requires InOrder(s)
    ensures !Spoilt(s)
  {
    forall k | 0 <= k < |s.accepted| ensures s.accepted[k] == s.produced[k] {
      assert (s.accepted + s.queue)[k] == s.accepted[k];
    }
  }

  lemma {:induction false} SpoiltRun(s: Out, es: seq<Event>)
    requires Spoilt(s)
    ensures !InOrder(OutRun(s, es))
    decreases |es|
  {
    if es == [] {
      if InOrder(s) {
        InOrderMeans(s);
      }
    } else {
      SpoiltStays(s, es[0]);
      SpoiltRun(OutStep(s, es[0]), es[1..]);
    }
  }

  /** Over any run the order is kept exactly when every event keeps it at its turn: nothing heals a line
      lost or out of turn. */
  lemma {:induction false} OrderExact(s: Out, es: seq<Event>)
    requires Counted(s) && InOrder(s)
    ensures InOrder(OutRun(s, es)) <==> AllOrderly(s, es)
    decreases |es|
  {
    if es != [] {
      var e, t := es[0], OutStep(s, es[0]);
      if e.Line? {
        SendExact(s, e.line, e.takes);
      } else {
        PollExact(s, e.writable, e.takes);
      }
      if Orderly(s, e) {
        OrderExact(t, es[1..]);
      } else {
        SpoiltNow(s, e);
        SpoiltRun(t, es[1..]);
      }
    }
  }

  /** As many good polls as lines waiting bring everything to the client. */
  lemma {:induction false} Drains(s: Out, es: seq<Event>)
    requires Counted(s) && InOrder(s) && NoBlank(s.queue)
    requires |es| >= |s.queue| && forall e <- es :: e == Poll(true, true)
    ensures OutRun(s, es).queue == [] && OutRun(s, es).accepted == s.produced
    decreases |es|
  {
    if es == [] {
    } else {
      assert es[0] in es && forall x <- es[1..] :: x in es;
      PollExact(s, true, true);
      Drains(OutStep(s, es[0]), es[1..]);
    }
  }

  /** An empty line put off lets the next one overtake it. */
  lemma EmptyLineOvertaken()
    ensures var t := OutRun(Out([], [], 0, []), [Line("", false), Line("PING", true)]);
            t.accepted == ["PING"] && t.queue == [""] && t.produced == ["", "PING"]
  {
    var s := Out([], [], 0, []);
    var es := [Line("", false), Line("PING", true)];
    assert es[1..] == [Line("PING", true)] && es[1..][1..] == [];
    var t := OutStep(s, es[0]);
    assert t == Out([], [""], 0, [""]);
    assert OutRun(t, es[1..]) == OutStep(t, es[1]);
  }

  // ---------------------------------------------------------------- input keeps its order

  lemma ReceiveKeeps(s: In, cmd: string, now: int)
    requires InputInOrder(s)
    ensures InputInOrder(Received(s, cmd, now))
  {
    if cmd != "" {
      SizeSnoc(s.queue, cmd);
      SizeZero(s.queue);
      assert s.executed + (s.queue + [cmd]) == (s.executed + s.queue) + [cmd];
      if s.queue != [] {
        assert s.queue[0] != "";
      }
    }
  }

  lemma TickKeeps(s: In, now: int)
    requires InputInOrder(s)
    ensures InputInOrder(Ticked(s, now))
    ensures s.queue != [] && now - s.idle >= 2 ==>
              Ticked(s, now).executed == s.executed + [s.queue[0]] && Ticked(s, now).queue == s.queue[1..]
  {
    if s.queue != [] {
      assert s.queue[0] != "";
      assert (s.executed + [s.queue[0]]) + s.queue[1..] == s.executed + s.queue;
    }
  }

  datatype Input = Command(cmd: string, now: int) | Tick(now: int)

  function InStep(s: In, e: Input): In {
    match e
    case Command(cmd, now) => Received(s, cmd, now)
    case Tick(now) => Ticked(s, now)
  }

  function InRun(s: In, es: seq<Input>): In
    decreases |es|
  {
    if es == [] then s
    else InRun(InStep(s, es[0]), es[1..])
  }

  /** What a user sent. */
  function Commands(es: seq<Input>): seq<string> {
    if es == [] then [] else CommandOf(es[0]) + Commands(es[1..])
  }

  function CommandOf(e: Input): seq<string> {
    if e.Command? && e.cmd != "" then [e.cmd] else []
  }

  lemma InStepKeeps(s: In, e: Input)
    requires InputInOrder(s)
    ensures InputInOrder(InStep(s, e)) && InStep(s, e).received == s.received + CommandOf(e)
  {
    if e.Command? {
      ReceiveKeeps(s, e.cmd, e.now);
    } else {
      TickKeeps(s, e.now);
    }
  }

  /** Whatever a user sends and whenever: every command is carried out once, in the order received, or
      is still waiting. */
  lemma {:induction false} CommandsInOrder(s: In, es: seq<Input>)
    requires InputInOrder(s)
    ensures InputInOrder(InRun(s, es))
    ensures InRun(s, es).executed + InRun(s, es).queue == s.received + Commands(es)
    decreases |es|
  {
    if es == [] {
      assert s.received + [] == s.received;
    } else {
      hide InStep, InputInOrder, CommandOf;
      InStepKeeps(s, es[0]);
      CommandsInOrder(InStep(s, es[0]), es[1..]);
      assert (s.received + CommandOf(es[0])) + Commands(es[1..]) == s.received + Commands(es);
    }
  }

  /** Commands no more than two seconds apart. */
  predicate Burst(idle: int, es: seq<Input>)
    decreases |es|
  {
    es == [] || (es[0].Command? && es[0].cmd != "" && es[0].now - idle <= 2 && Burst(es[0].now, es[1..]))
  }

  /** Of a burst at most four commands are carried out; the others wait. */
  lemma {:induction false} BurstIsHeld(s: In, es: seq<Input>)
    requires InputInOrder(s) && Burst(s.idle, es)
    ensures |InRun(s, es).executed| <= |s.executed| + (if s.queue == [] then 4 - s.throttle else 0)
    decreases |es|
  {
    if es != [] {
      var e := es[0];
      ReceiveKeeps(s, e.cmd, e.now);
      SizeZero(s.queue);
      var t := Received(s, e.cmd, e.now);
      if s.queue == [] {
        BurstIsHeld(t, es[1..]);
      } else {
        assert s.queue[0] != "";
        HeldBurst(s, s.idle, es);
      }
    }
  }

  /** Once a command waits, those received behind it do too. */
  lemma {:induction false} HeldBurst(s: In, idle: int, es: seq<Input>)
    requires InputInOrder(s) && s.queue != [] && Burst(idle, es)
    ensures InRun(s, es).executed == s.executed
    decreases |es|
  {
    if es != [] {
      SizeZero(s.queue);
      assert s.queue[0] != "";
      ReceiveKeeps(s, es[0].cmd, es[0].now);
      HeldBurst(Received(s, es[0].cmd, es[0].now), es[0].now, es[1..]);
    }
  }
}
