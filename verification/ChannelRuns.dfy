/** What becomes of every call on a channel, said of the actions of a run: which sends are published, which give
    up, and what every receive ends with. */
module ChannelRuns {
  import opened Channel
  import Numbers
  import opened Runs
  import opened Wrappers

  /** A value is written exactly when fewer than 63 lay between the two loads of the sender, blocking or not.
      Otherwise `trySend` gives up and `send` starts over. Nothing else changes. */
  lemma SendDecides(s: State)
    requires Reachable(s) && s.sender.SendTail?
    ensures var SendTail(v, b, _, seen) := s.sender;
            && 0 <= |s.sent| - seen < CAP
            && AfterSender(s) == s.(sender := if |s.sent| - seen < CAP - 1 then SendWrite(v, s.tail)
                                              else if b then SendHead(v, b) else SendIdle)
  {
    ReachableSound(s);
    OccupiedIsCount(s.sender.seen, |s.sent|);
  }

  /** A receive goes on to read exactly when a value was in the buffer as it loaded `tail`. Otherwise
      `tryReceive` gives up and `receive` looks at `closed`. */
  lemma ReceiveDecides(s: State)
    requires Reachable(s) && s.receiver.ReceiveTail?
    ensures var ReceiveTail(b, head) := s.receiver;
            AfterReceiver(s) == s.(receiver := if |s.received| < |s.sent| then ReceiveRead(head)
                                               else if b then ReceiveClosed(|s.sent|) else ReceiveIdle)
  {
    ReachableSound(s);
    if s.head == s.tail {
      SameCell(|s.received|, |s.sent|);
    }
  }

  // ---------- the state before an action ----------

  /** `s` is the state that `run` leads to from a fresh channel with these cells. */
  ghost predicate Leads(data: seq<int>, run: seq<Action>, s: State) {
    |data| == CAP && Exec(Step, Init(data), run) == Some(s)
  }

  lemma LastAction(data: seq<int>, run: seq<Action>, s: State) returns (s0: State)
    requires run != [] && Leads(data, run, s)
    ensures Leads(data, run[..|run| - 1], s0) && Reachable(s0)
    ensures Enabled(s0, run[|run| - 1]) && s == Apply(s0, run[|run| - 1])
  {
    hide Enabled, Apply;
    ExecLast(Step, Init(data), run);
    s0 := Exec(Step, Init(data), run[..|run| - 1]).value;
  }

  function StateBefore(data: seq<int>, run: seq<Action>): Option<State>
    requires run != []
  {
    Exec(Step, Init(data), run[..|run| - 1])
  }

  // ---------- sends ----------

  /** The sender is about to give up: it is a `trySend`, and 63 values lay between its loads. */
  predicate GivesUp(s: State, a: Action) {
    a.SenderStep? && s.sender.SendTail? && !s.sender.blocking && |s.sent| - s.sender.seen >= CAP - 1
  }

  /** The values of the sends of a run, in order, without those that gave up. */
  ghost function Offered(data: seq<int>, run: seq<Action>): seq<int> {
    if run == [] then []
    else
      var before, a, s := Offered(data, run[..|run| - 1]), run[|run| - 1], StateBefore(data, run);
      if a.Send? then before + [a.v]
      else if s.Some? && GivesUp(s.value, a) && before != [] then before[..|before| - 1]
      else before
  }

  /** The value of the send under way. */
  function Pending(sender: Sender): seq<int> {
    if sender.SendIdle? then [] else [sender.v]
  }

  lemma SendStep(s: State, a: Action)
    requires Reachable(s) && Enabled(s, a)
    ensures var s' := Apply(s, a);
            if a.Send? then s'.sent == s.sent && Pending(s.sender) == [] && Pending(s'.sender) == [a.v]
            else if GivesUp(s, a) then s'.sent == s.sent && |Pending(s.sender)| == 1 && Pending(s'.sender) == []
            else s'.sent + Pending(s'.sender) == s.sent + Pending(s.sender)
  {
    hide Reachable, Occupied;
    if a.SenderStep? {
      ReachableSound(s);
      if s.sender.SendTail? {
        SendDecides(s);
      }
    }
  }

  /** Every send is published, in order, unless it gave up or is still under way: none is lost, and none is
      published twice. */
  lemma {:induction false} SendsAccounted(data: seq<int>, run: seq<Action>, s: State)
    requires Leads(data, run, s)
    ensures s.sent + Pending(s.sender) == Offered(data, run)
    decreases |run|
  {
    hide Enabled, Apply, GivesUp, Pending, Reachable;
    if run == [] {
      NothingPending(data);
    } else {
      var s0 := LastAction(data, run, s);
      var a := run[|run| - 1];
      SendsAccounted(data, run[..|run| - 1], s0);
      SendStep(s0, a);
      if GivesUp(s0, a) {
        assert (s0.sent + Pending(s0.sender))[..|s0.sent|] == s0.sent;
        assert s0.sent + [] == s0.sent;
      } else if a.Send? {
        assert s0.sent + [] == s0.sent;
      }
    }
  }

  lemma NothingPending(data: seq<int>)
    ensures Init(data).sent + Pending(Init(data).sender) == []
  {
  }

  // ---------- receives ----------

  /** The receive is about to give up: it is a `tryReceive` that saw an empty buffer. */
  predicate FindsNothing(s: State, a: Action) {
    a.ReceiverStep? && s.receiver.ReceiveTail? && !s.receiver.blocking && |s.received| == |s.sent|
  }

  /** How many receives of a run gave up. */
  ghost function Empty(data: seq<int>, run: seq<Action>): nat {
    if run == [] then 0
    else
      var s := StateBefore(data, run);
      Empty(data, run[..|run| - 1]) + if s.Some? && FindsNothing(s.value, run[|run| - 1]) then 1 else 0
  }

  function Receives(run: seq<Action>): nat {
    if run == [] then 0 else Receives(run[..|run| - 1]) + if run[|run| - 1].Receive? then 1 else 0
  }

  function Busy(r: Receiver): nat {
    if r.ReceiveIdle? then 0 else 1
  }

  function Ended(s: State): nat {
    |s.received| + |s.reports| + Busy(s.receiver)
  }

  lemma ReceiveStep(s: State, a: Action)
    requires Reachable(s) && Enabled(s, a)
    ensures Ended(Apply(s, a)) + (if FindsNothing(s, a) then 1 else 0) == Ended(s) + if a.Receive? then 1 else 0
  {
    hide Reachable, Numbers.ToNumber, Occupied;
    if a.ReceiverStep? {
      ReachableSound(s);
      if s.receiver.ReceiveTail? {
        ReceiveDecides(s);
      }
    }
  }

  /** Every receive ends with one value, with one report "closed", or, if it is a `tryReceive` that saw an empty
      buffer, with nothing; at most one is still under way. */
  lemma {:induction false} ReceivesAccounted(data: seq<int>, run: seq<Action>, s: State)
    requires Leads(data, run, s)
    ensures |s.received| + |s.reports| + Empty(data, run) + Busy(s.receiver) == Receives(run)
    decreases |run|
  {
    hide Enabled, Apply, FindsNothing, Reachable;
    if run != [] {
      var s0 := LastAction(data, run, s);
      ReceivesAccounted(data, run[..|run| - 1], s0);
      ReceiveStep(s0, run[|run| - 1]);
    }
  }

  // ---------- calls without interference ----------

  /** A send that nobody interrupts publishes its value when fewer than 63 are in the buffer; when there are 63, a
      `trySend` changes nothing and a `send` starts over. */
  lemma UninterruptedSend(s: State, v: int, b: bool)
    requires Reachable(s) && s.sender.SendIdle?
    ensures |s.received| <= |s.sent|
    ensures |s.sent| - |s.received| < CAP - 1 ==>
      var end := Exec(Step, s, [Send(v, b), SenderStep, SenderStep, SenderStep, SenderStep]);
      end.Some? && end.value.sent == s.sent + [v] && end.value.sender.SendIdle?
    ensures |s.sent| - |s.received| == CAP - 1 ==>
      Exec(Step, s, [Send(v, b), SenderStep, SenderStep]) == Some(if b then s.(sender := SendHead(v, true)) else s)
  {
    ReachableSound(s);
    OccupiedIsCount(|s.received|, |s.sent|);
    hide Occupied, Reachable;
    var s1 := Apply(s, Send(v, b));
    var s2 := AfterSender(s1);
    var s3 := AfterSender(s2);
    RunOf(s, Send(v, b), [SenderStep, SenderStep]);
    RunOf(s1, SenderStep, [SenderStep]);
    RunOf(s2, SenderStep, []);
    if |s.sent| - |s.received| < CAP - 1 {
      var s4 := AfterSender(s3);
      RunOf(s, Send(v, b), [SenderStep, SenderStep, SenderStep, SenderStep]);
      RunOf(s1, SenderStep, [SenderStep, SenderStep, SenderStep]);
      RunOf(s2, SenderStep, [SenderStep, SenderStep]);
      RunOf(s3, SenderStep, [SenderStep]);
      RunOf(s4, SenderStep, []);
    }
  }

  lemma RunOf(s: State, a: Action, more: seq<Action>)
    requires Enabled(s, a)
    ensures Exec(Step, s, [a] + more) == Exec(Step, Apply(s, a), more)
    ensures Exec(Step, s, []) == Some(s)
  {
    assert ([a] + more)[1..] == more;
  }

  /** A receive that nobody interrupts takes the first value when there is one. In an empty buffer a `tryReceive`
      changes nothing, and a `receive` reports "closed" when the channel is closed, else it starts over. */
  lemma UninterruptedReceive(s: State, b: bool)
    requires Reachable(s) && s.receiver.ReceiveIdle?
    ensures |s.received| <= |s.sent|
    ensures |s.received| < |s.sent| ==>
      var end := Exec(Step, s, [Receive(b), ReceiverStep, ReceiverStep, ReceiverStep, ReceiverStep]);
      && end.Some? && end.value.received == s.received + [Delivered(s.sent[|s.received|])]
      && end.value.receiver.ReceiveIdle?
    ensures |s.received| == |s.sent| && !b ==> Exec(Step, s, [Receive(b), ReceiverStep, ReceiverStep]) == Some(s)
    ensures |s.received| == |s.sent| && b ==>
      Exec(Step, s, [Receive(b), ReceiverStep, ReceiverStep, ReceiverStep]) ==
      Some(if s.closed then s.(reports := s.reports + [(|s.sent|, |s.sent|)]) else s.(receiver := ReceiveHead(true)))
  {
    ReachableSound(s);
    EmptyIffSame(s);
    hide Reachable, Enabled, Apply, Inv;
    if |s.received| < |s.sent| {
      TakesFirst(s, b);
    } else {
      FindsEmpty(s, b);
    }
  }

  /** The four steps on a buffer that holds something. */
  lemma TakesFirst(s: State, b: bool)
    requires Inv(s) && s.receiver.ReceiveIdle? && s.head != s.tail && |s.received| < |s.sent|
    ensures var end := Exec(Step, s, [Receive(b), ReceiverStep, ReceiverStep, ReceiverStep, ReceiverStep]);
            && end.Some? && end.value.received == s.received + [Delivered(s.sent[|s.received|])]
            && end.value.receiver.ReceiveIdle?
  {
    hide Numbers.ToNumber;
    var v := Delivered(s.sent[|s.received|]);
    var s1 := s.(receiver := ReceiveHead(b));
    var s2 := s.(receiver := ReceiveTail(b, s.head));
    var s3 := s.(receiver := ReceiveRead(s.head));
    var s4 := s.(receiver := ReceiveStore(s.head, v));
    var s5 := s.(head := (s.head + 1) % CAP, received := s.received + [v]);
    assert AfterReceiver(s3) == s4 by {
      assert s.data[|s.received| % CAP] == AsWord(s.sent[|s.received|]);
    }
    assert Apply(s, Receive(b)) == s1 && AfterReceiver(s1) == s2 && AfterReceiver(s2) == s3 && AfterReceiver(s4) == s5;
    hide Inv, AfterReceiver, AfterSender, Delivered;
    RunOf(s, Receive(b), [ReceiverStep, ReceiverStep, ReceiverStep, ReceiverStep]);
    RunOf(s1, ReceiverStep, [ReceiverStep, ReceiverStep, ReceiverStep]);
    RunOf(s2, ReceiverStep, [ReceiverStep, ReceiverStep]);
    RunOf(s3, ReceiverStep, [ReceiverStep]);
    RunOf(s4, ReceiverStep, []);
    RunOf(s5, Close, []);
  }

  /** The steps on an empty buffer. */
  lemma FindsEmpty(s: State, b: bool)
    requires s.receiver.ReceiveIdle? && s.head == s.tail && |s.received| == |s.sent|
    ensures !b ==> Exec(Step, s, [Receive(b), ReceiverStep, ReceiverStep]) == Some(s)
    ensures b ==>
      Exec(Step, s, [Receive(b), ReceiverStep, ReceiverStep, ReceiverStep]) ==
      Some(if s.closed then s.(reports := s.reports + [(|s.sent|, |s.sent|)]) else s.(receiver := ReceiveHead(true)))
  {
    var s1 := s.(receiver := ReceiveHead(b));
    var s2 := s.(receiver := ReceiveTail(b, s.head));
    var s3 := s.(receiver := if b then ReceiveClosed(|s.sent|) else ReceiveIdle);
    assert Apply(s, Receive(b)) == s1 && AfterReceiver(s1) == s2 && AfterReceiver(s2) == s3;
    var s4 := AfterReceiver(s3);
    assert b ==> s4 == if s.closed then s.(reports := s.reports + [(|s.sent|, |s.sent|)])
                       else s.(receiver := ReceiveHead(true));
    hide AfterReceiver, AfterSender;
    RunOf(s, Receive(b), [ReceiverStep, ReceiverStep]);
    RunOf(s1, ReceiverStep, [ReceiverStep]);
    RunOf(s2, ReceiverStep, []);
    RunOf(s3, Close, []);
    if b {
      RunOf(s, Receive(b), [ReceiverStep, ReceiverStep, ReceiverStep]);
      RunOf(s1, ReceiverStep, [ReceiverStep, ReceiverStep]);
      RunOf(s2, ReceiverStep, [ReceiverStep]);
      RunOf(s3, ReceiverStep, []);
      RunOf(s4, Close, []);
    }
  }

  lemma EmptyIffSame(s: State)
    requires Inv(s)
    ensures s.head == s.tail <==> |s.received| == |s.sent|
  {
    if s.head == s.tail {
      SameCell(|s.received|, |s.sent|);
    }
  }

  // ---------- closing ----------

  predicate Closes(run: seq<Action>) {
    exists i :: 0 <= i < |run| && run[i].Close?
  }

  lemma CloseStep(s: State, a: Action)
    requires Enabled(s, a)
    ensures Apply(s, a).closed <==> s.closed || a.Close?
    ensures Apply(s, a).reports != [] ==> s.reports != [] || s.closed
  {
    hide Numbers.ToNumber, Occupied;
  }

  /** A channel is closed exactly when a close is in the run, and no receive reports "closed" before that. */
  lemma {:induction false} ClosedIffAsked(data: seq<int>, run: seq<Action>, s: State)
    requires Leads(data, run, s)
    ensures s.closed <==> Closes(run)
    ensures s.reports != [] ==> Closes(run)
    decreases |run|
  {
    hide Enabled, Apply, Reachable;
    if run != [] {
      var n := |run| - 1;
      var s0 := LastAction(data, run, s);
      ClosedIffAsked(data, run[..n], s0);
      CloseStep(s0, run[n]);
      if i :| 0 <= i < n && run[..n][i].Close? {
        assert run[i].Close?;
      }
      if i :| 0 <= i < |run| && run[i].Close? {
        assert i < n ==> run[..n][i].Close?;
      }
    }
  }
}
