/** When lines are sent and commands executed. */
module IrcQueueRules {
  import opened IrcQueues

  /** A line is sent at once exactly if no bytes are waiting and the socket takes it. */
  lemma SendMeans(s: Out, line: string, takes: bool)
    ensures var t := Sent(s, line, takes);
            && t.produced == s.produced + [line]
            && if s.bytes == 0 && takes then
                 t.accepted == s.accepted + [line] && t.queue == s.queue && t.bytes == s.bytes
               else
                 t.accepted == s.accepted && t.queue == s.queue + [line] && t.bytes == s.bytes + |line|
  {
  }

  /** A poll takes the oldest line off the queue exactly if bytes are waiting and the socket is ready. */
  lemma PollMeans(s: Out, writable: bool, takes: bool)
    requires Counted(s)
    ensures s.bytes == 0 || !writable ==> Polled(s, writable, takes) == s
    ensures s.bytes != 0 && writable ==>
              var t := Polled(s, writable, takes);
              && s.queue != [] && t.queue == s.queue[1..] && t.bytes == s.bytes - |s.queue[0]|
              && t.accepted == (if takes then s.accepted + [s.queue[0]] else s.accepted) && t.produced == s.produced
  {
  }

  /** A tick does something exactly if commands are waiting and two seconds have passed. */
  lemma TickMeans(s: In, now: int)
    requires InputInOrder(s)
    ensures s.queue == [] || now - s.idle < 2 ==> Ticked(s, now) == s
    ensures s.queue != [] && now - s.idle >= 2 ==>
              var t := Ticked(s, now);
              && t.executed == s.executed + [s.queue[0]] && t.queue == s.queue[1..]
              && t.idle == now && t.throttle == (if now - s.idle == 2 then 1 else 0)
  {
    SizeZero(s.queue);
    if s.queue != [] {
      assert s.queue[0] != "";
    }
  }

  /** Of a burst exactly the first four commands are executed at once, fewer if others went before; the
      next is put off. */
  lemma {:induction false} BurstExact(s: In, es: seq<Input>)
    requires InputInOrder(s) && Burst(s.idle, es) && s.queue == []
    ensures var n := if |es| <= 4 - s.throttle then |es| else 4 - s.throttle;
            && |InRun(s, es).executed| == |s.executed| + n
            && |InRun(s, es).queue| == |es| - n
    decreases |es|
  {
    if es != [] {
      var e := es[0];
      ReceiveKeeps(s, e.cmd, e.now);
      var t := Received(s, e.cmd, e.now);
      if s.throttle < 4 {
        BurstExact(t, es[1..]);
      } else {
        assert t.queue == [e.cmd];
        WaitingBurst(t, e.now, es[1..]);
      }
    }
  }

  /** Once a command waits, all that follow do. */
  lemma {:induction false} WaitingBurst(s: In, idle: int, es: seq<Input>)
    requires InputInOrder(s) && s.queue != [] && Burst(idle, es)
    ensures InRun(s, es).executed == s.executed && |InRun(s, es).queue| == |s.queue| + |es|
    decreases |es|
  {
    if es != [] {
      SizeZero(s.queue);
      assert s.queue[0] != "";
      ReceiveKeeps(s, es[0].cmd, es[0].now);
      WaitingBurst(Received(s, es[0].cmd, es[0].now), es[0].now, es[1..]);
    }
  }

  /** Commands more than two seconds apart. */
  predicate Unhurried(idle: int, es: seq<Input>)
    decreases |es|
  {
    es == [] || (es[0].Command? && es[0].cmd != "" && es[0].now - idle > 2 && Unhurried(es[0].now, es[1..]))
  }

  /** They are all executed at once. */
  lemma {:induction false} UnhurriedRuns(s: In, es: seq<Input>)
    requires InputInOrder(s) && s.queue == [] && Unhurried(s.idle, es)
    ensures InRun(s, es).executed == s.executed + Commands(es) && InRun(s, es).queue == []
    decreases |es|
  {
    if es == [] {
      assert s.executed + [] == s.executed;
    } else {
      var e := es[0];
      ReceiveKeeps(s, e.cmd, e.now);
      var t := Received(s, e.cmd, e.now);
      UnhurriedRuns(t, es[1..]);
      assert (s.executed + [e.cmd]) + Commands(es[1..]) == s.executed + ([e.cmd] + Commands(es[1..]));
    }
  }
}
