/** The ring-buffer channel in shared memory, with one sending and one receiving thread. Module Channel is
    the step system in which every load and store of `send`, `trySend`, `receive`, `tryReceive` and `close`
    is a step of its own; module ChannelObject is the object as a single thread uses it. */
module Channel {
  import opened Numbers
  import opened Powers
  import opened Runs
  import opened Wrappers

  const CAP := 64
  const TWO_64 := 0x1_0000_0000_0000_0000

  /** What the value cell holds for a value: it is written as an unsigned 64-bit word. */
  function AsWord(v: int): int {
    v % TWO_64
  }

  function AsWords(vs: seq<int>): seq<int> {
    seq(|vs|, i requires 0 <= i < |vs| => AsWord(vs[i]))
  }

  /** What a receive answers for a value: its word, converted to a number. */
  function Delivered(v: int): int {
    ToNumber(AsWord(v))
  }

  function Deliveries(vs: seq<int>): seq<int> {
    seq(|vs|, i requires 0 <= i < |vs| => Delivered(vs[i]))
  }

  /** The sender: about to load `head`, to load `tail`, to write the value, to store the new `tail`. A
      sender that finds the buffer full gives up (`trySend`) or starts over (`send`). `seen` is history: how
      much had been received when it loaded `head`. */
  datatype Sender =
    | SendIdle
    | SendHead(v: int, blocking: bool)
    | SendTail(v: int, blocking: bool, head: int, seen: nat)
    | SendWrite(v: int, tail: int)
    | SendStore(v: int, tail: int)

  /** The receiver: about to load `head`, to load `tail`, to read the value, to store the new `head`, or to
      look at `closed`. `since` is history: how much had been sent when it found the buffer empty. */
  datatype Receiver =
    | ReceiveIdle
    | ReceiveHead(blocking: bool)
    | ReceiveTail(blocking: bool, head: int)
    | ReceiveRead(head: int)
    | ReceiveStore(head: int, v: int)
    | ReceiveClosed(since: nat)

  datatype State = State(
    // shared memory
    head: int, tail: int, closed: bool, data: seq<int>,
    sender: Sender, receiver: Receiver,
    // history: values published and values delivered, and after how many of each a receive reported "closed"
    sent: seq<int>, received: seq<int>, reports: seq<(nat, nat)>)

  datatype Action =
    | Send(v: int, blocking: bool)
    | SenderStep
    | Receive(blocking: bool)
    | ReceiverStep
    | Close

  function Init(data: seq<int>): State {
    State(0, 0, false, data, SendIdle, ReceiveIdle, [], [], [])
  }

  predicate Enabled(s: State, a: Action) {
    match a
    case Send(_, _) => s.sender.SendIdle?
    case SenderStep => !s.sender.SendIdle?
    case Receive(_) => s.receiver.ReceiveIdle?
    case ReceiverStep => !s.receiver.ReceiveIdle?
    case Close => true
  }

  function Occupied(head: int, tail: int): int {
    (tail - head + CAP) % CAP
  }

  function AfterSender(s: State): State {
    match s.sender
    case SendIdle => s
    case SendHead(v, b) => s.(sender := SendTail(v, b, s.head, |s.received|))
    case SendTail(v, b, head, _) =>
      if Occupied(head, s.tail) < CAP - 1 then s.(sender := SendWrite(v, s.tail))
      else s.(sender := if b then SendHead(v, b) else SendIdle)
    case SendWrite(v, tail) =>
      if 0 <= tail % CAP < |s.data| then s.(data := s.data[tail % CAP := AsWord(v)], sender := SendStore(v, tail))
      else s
    case SendStore(v, tail) => s.(tail := (tail + 1) % CAP, sender := SendIdle, sent := s.sent + [v])
  }

  function AfterReceiver(s: State): State {
    match s.receiver
    case ReceiveIdle => s
    case ReceiveHead(b) => s.(receiver := ReceiveTail(b, s.head))
    case ReceiveTail(b, head) =>
      if head != s.tail then s.(receiver := ReceiveRead(head))
      else s.(receiver := if b then ReceiveClosed(|s.sent|) else ReceiveIdle)
    case ReceiveRead(head) =>
      if 0 <= head % CAP < |s.data| then s.(receiver := ReceiveStore(head, ToNumber(s.data[head % CAP]))) else s
    case ReceiveStore(head, v) =>
      s.(head := (head + 1) % CAP, receiver := ReceiveIdle, received := s.received + [v])
    case ReceiveClosed(_) =>
      if s.closed then s.(receiver := ReceiveIdle, reports := s.reports + [(|s.received|, |s.sent|)])
      else s.(receiver := ReceiveHead(true))
  }

  function Apply(s: State, a: Action): State {
    match a
    case Send(v, b) => s.(sender := SendHead(v, b))
    case SenderStep => AfterSender(s)
    case Receive(b) => s.(receiver := ReceiveHead(b))
    case ReceiverStep => AfterReceiver(s)
    case Close => s.(closed := true)
  }

  // ---------- the invariant ----------

  /** The cells between `head` and `tail` hold, in order, what has been sent and not yet received. */
  ghost predicate BufferSound(s: State) {
    && |s.data| == CAP
    && |s.received| <= |s.sent| < |s.received| + CAP
    && s.head == |s.received| % CAP && s.tail == |s.sent| % CAP
    && s.received == Deliveries(s.sent[..|s.received|])
    && forall i :: |s.received| <= i < |s.sent| ==> s.data[i % CAP] == AsWord(s.sent[i])
  }

  ghost predicate SenderSound(s: State) {
    match s.sender
    case SendTail(_, _, head, seen) =>
      head == seen % CAP && seen <= |s.received| && |s.sent| < seen + CAP
    case SendWrite(_, tail) => tail == s.tail && |s.sent| < |s.received| + CAP - 1
    case SendStore(v, tail) =>
      tail == s.tail && |s.sent| < |s.received| + CAP - 1 && |s.data| == CAP && s.data[tail % CAP] == AsWord(v)
    case _ => true
  }

  ghost predicate ReceiverSound(s: State) {
    match s.receiver
    case ReceiveTail(_, head) => head == s.head
    case ReceiveRead(head) => head == s.head && |s.received| < |s.sent|
    case ReceiveStore(head, v) => head == s.head && |s.received| < |s.sent| && v == Delivered(s.sent[|s.received|])
    case ReceiveClosed(since) => since == |s.received| <= |s.sent|
    case _ => true
  }

  ghost predicate Inv(s: State) {
    BufferSound(s) && SenderSound(s) && ReceiverSound(s)
  }

  // ---------- arithmetic of the ring ----------

  lemma SameCell(i: int, j: int)
    requires 0 <= i <= j < i + CAP && i % CAP == j % CAP
    ensures i == j
  {
  }

  lemma NextCell(i: int)
    requires 0 <= i
    ensures (i % CAP + 1) % CAP == (i + 1) % CAP
  {
  }

  /** The occupancy that the code computes from the two indices is the number of values between them. */
  lemma OccupiedIsCount(from: int, to: int)
    requires 0 <= from <= to < from + CAP
    ensures Occupied(from % CAP, to % CAP) == to - from
  {
  }

  // ---------- every step keeps the invariant ----------

  lemma DeliveriesSnoc(vs: seq<int>, n: nat)
    requires n < |vs|
    ensures Deliveries(vs[..n + 1]) == Deliveries(vs[..n]) + [Delivered(vs[n])]
  {
  }

  lemma KeepSendTail(s: State)
    requires Inv(s) && s.sender.SendTail?
    ensures Inv(AfterSender(s))
  {
    OccupiedIsCount(s.sender.seen, |s.sent|);
  }

  lemma KeepSendWrite(s: State)
    requires Inv(s) && s.sender.SendWrite?
    ensures Inv(AfterSender(s))
  {
    var s' := AfterSender(s);
    forall i | |s.received| <= i < |s.sent| ensures s'.data[i % CAP] == AsWord(s.sent[i]) {
      if i % CAP == |s.sent| % CAP {
        SameCell(i, |s.sent|);
      }
    }
  }

  lemma KeepSendStore(s: State)
    requires Inv(s) && s.sender.SendStore?
    ensures Inv(AfterSender(s))
  {
    NextCell(|s.sent|);
    var s' := AfterSender(s);
    assert s'.sent[..|s.received|] == s.sent[..|s.received|];
  }

  lemma KeepSender(s: State)
    requires Inv(s)
    ensures Inv(AfterSender(s))
  {
    match s.sender
    case SendTail(_, _, _, _) => KeepSendTail(s);
    case SendWrite(_, _) => KeepSendWrite(s);
    case SendStore(_, _) => KeepSendStore(s);
    case _ =>
  }

  lemma KeepReceiveStore(s: State)
    requires Inv(s) && s.receiver.ReceiveStore?
    ensures Inv(AfterReceiver(s))
  {
    NextCell(|s.received|);
    DeliveriesSnoc(s.sent, |s.received|);
  }

  lemma KeepReceiveTail(s: State)
    requires Inv(s) && s.receiver.ReceiveTail?
    ensures Inv(AfterReceiver(s))
  {
    if s.head == s.tail {
      SameCell(|s.received|, |s.sent|);
    }
  }

  lemma KeepReceiveRead(s: State)
    requires Inv(s) && s.receiver.ReceiveRead?
    ensures Inv(AfterReceiver(s))
  {
    hide ToNumber;
  }

  lemma KeepReceiveMove(s: State)
    requires Inv(s) && (s.receiver.ReceiveIdle? || s.receiver.ReceiveHead? || s.receiver.ReceiveClosed?)
    ensures Inv(AfterReceiver(s))
  {
    hide ToNumber;
  }

  lemma KeepReceiver(s: State)
    requires Inv(s)
    ensures Inv(AfterReceiver(s))
  {
    hide *;
    match s.receiver
    case ReceiveTail(_, _) => KeepReceiveTail(s);
    case ReceiveRead(_) => KeepReceiveRead(s);
    case ReceiveStore(_, _) => KeepReceiveStore(s);
    case _ => KeepReceiveMove(s);
  }

  lemma KeepStep(s: State, a: Action)
    requires Inv(s) && Enabled(s, a)
    ensures Inv(Apply(s, a))
  {
    match a
    case SenderStep => KeepSender(s);
    case ReceiverStep => KeepReceiver(s);
    case _ =>
  }

  // ---------- whole runs ----------

  function Step(s: State, a: Action): Option<State> {
    if Enabled(s, a) then Some(Apply(s, a)) else None
  }

  /** `s` is the state after some interleaving on a fresh channel, whatever its cells held at first. */
  ghost predicate Reachable(s: State) {
    exists data: seq<int>, run :: |data| == CAP && Exec(Step, Init(data), run) == Some(s)
  }

  lemma RunKeeps(s: State, run: seq<Action>)
    requires Inv(s)
    ensures Exec(Step, s, run).Some? ==> Inv(Exec(Step, s, run).value)
  {
    hide Inv, Enabled, Apply;
    forall x, a | Inv(x) && Step(x, a).Some? ensures Inv(Step(x, a).value) {
      KeepStep(x, a);
    }
    ExecKeeps(Step, s => Inv(s), s, run);
  }

  lemma ReachableSound(s: State)
    requires Reachable(s)
    ensures Inv(s)
  {
    var data: seq<int>, run :| |data| == CAP && Exec(Step, Init(data), run) == Some(s);
    RunKeeps(Init(data), run);
  }

  function Buffered(s: State): seq<int>
    requires BufferSound(s)
  {
    seq(|s.sent| - |s.received|, i requires 0 <= i < |s.sent| - |s.received| => s.data[(|s.received| + i) % CAP])
  }

  /** Conservation, in order: what was received is what was sent first, and the buffer holds the words of
      the rest, never more than one less than its capacity. */
  lemma SentIsReceivedThenBuffered(s: State)
    requires Reachable(s)
    ensures BufferSound(s) && s.received == Deliveries(s.sent[..|s.received|])
    ensures Buffered(s) == AsWords(s.sent[|s.received|..])
    ensures |Buffered(s)| <= CAP - 1 && Occupied(s.head, s.tail) == |Buffered(s)|
  {
    ReachableSound(s);
    OccupiedIsCount(|s.received|, |s.sent|);
    var rest := AsWords(s.sent[|s.received|..]);
    forall i | 0 <= i < |rest| ensures rest[i] == Buffered(s)[i] {
      assert s.sent[|s.received|..][i] == s.sent[|s.received| + i];
    }
  }

  /** The cell the receiver reads is never the cell the sender writes. */
  lemma NeverSameCell(s: State)
    requires Reachable(s) && (s.sender.SendWrite? || s.sender.SendStore?) && s.receiver.ReceiveRead?
    ensures s.sender.tail % CAP != s.receiver.head % CAP
  {
    ReachableSound(s);
    if |s.sent| % CAP == |s.received| % CAP {
      SameCell(|s.received|, |s.sent|);
    }
  }

  /** A value comes out as it went in exactly when it is an unsigned 64-bit number and a double: -1 does
      not, and 2^53 + 1 does not. */
  lemma DeliveredUnchangedIff(s: State, i: nat)
    requires Reachable(s) && i < |s.received|
    ensures i < |s.sent| && (s.received[i] == s.sent[i] <==> 0 <= s.sent[i] < TWO_64 && IsDouble(s.sent[i]))
  {
    ReachableSound(s);
    assert s.received[i] == Deliveries(s.sent[..|s.received|])[i];
    UnchangedIff(s.sent[i]);
  }

  lemma UnchangedIff(v: int)
    ensures Delivered(v) == v <==> 0 <= v < TWO_64 && IsDouble(v)
  {
    hide ToNumber, IsDouble;
    var w := AsWord(v);
    TwoTo64IsDouble();
    ToNumberIsNearest(w, 0);
    ToNumberIsNearest(w, TWO_64);
    ToNumberExactIff(w);
    assert Abs(w) == w;
    if v < 0 || v >= TWO_64 {
      assert 0 <= w < TWO_64;
      assert w != v;
      assert Abs(ToNumber(w) - w) <= w && Abs(ToNumber(w) - w) <= TWO_64 - w;
      assert 0 <= ToNumber(w) <= TWO_64;
      assert v == TWO_64 ==> w == 0;
    }
  }

  lemma TwoTo64IsDouble()
    ensures IsDouble(TWO_64) && IsDouble(0)
  {
    assert Scaled(Abs(0), 0, 0);
    assert Power2(16) == 0x1_0000 && Power2(32) == 0x1_0000_0000 by {
      assert Power2(8) == 0x100;
      PowerSplits(8, 8);
      PowerSplits(16, 16);
    }
    assert Scaled(Abs(TWO_64), 0x1_0000_0000, 32);
  }

  // ---------- reports of "closed" ----------

  /** A blocking receive that reports "closed" has missed exactly the values that were published after it
      looked at `tail`. */
  lemma ClosedReportMisses(s: State)
    requires Reachable(s) && s.receiver.ReceiveClosed? && s.closed
    ensures BufferSound(s) && s.receiver.since <= |s.sent|
    ensures var s' := AfterReceiver(s);
            && s'.receiver.ReceiveIdle? && BufferSound(s')
            && Buffered(s') == AsWords(s.sent[s.receiver.since..])
            && s'.reports == s.reports + [(s.receiver.since, |s.sent|)]
  {
    ReachableSound(s);
    SentIsReceivedThenBuffered(s);
  }

  /** The channel is closed with everything sent, and a receive that is about to look at `closed` has seen
      everything. `earlier` are the reports made before. */
  ghost predicate Draining(s: State, sent: seq<int>, earlier: seq<(nat, nat)>) {
    && Inv(s) && s.closed && s.sender.SendIdle? && s.sent == sent
    && (s.receiver.ReceiveClosed? ==> s.receiver.since == |sent|)
    && |earlier| <= |s.reports| && s.reports[..|earlier|] == earlier
    && forall i :: |earlier| <= i < |s.reports| ==> s.reports[i] == (|sent|, |sent|)
  }

  /** A step of the channel other than a new send. */
  function DrainStep(s: State, a: Action): Option<State> {
    if a.Send? then None else Step(s, a)
  }

  lemma DrainingKept(s: State, a: Action, sent: seq<int>, earlier: seq<(nat, nat)>)
    requires Draining(s, sent, earlier) && DrainStep(s, a).Some?
    ensures Draining(DrainStep(s, a).value, sent, earlier)
  {
    KeepStep(s, a);
    var s' := Apply(s, a);
    if a.ReceiverStep? && s.receiver.ReceiveTail? && s.head == s.tail {
      SameCell(|s.received|, |s.sent|);
    }
    assert s'.reports[..|earlier|] == earlier;
  }

  /** Draining is safe: once the channel is closed, no send is under way, and no receive has already looked
      past the last values, every report of "closed" in every continuation without a send comes after all
      values that were sent. A receive that starts then meets the condition. */
  lemma DrainedBeforeReport(s: State, run: seq<Action>, i: nat)
    requires Reachable(s) && s.closed && s.sender.SendIdle?
    requires s.receiver.ReceiveClosed? ==> s.receiver.since == |s.sent|
    requires Exec(DrainStep, s, run).Some?
    ensures var s' := Exec(DrainStep, s, run).value;
            && s'.sent == s.sent
            && (|s.reports| <= i < |s'.reports| ==> s'.reports[i] == (|s.sent|, |s.sent|))
  {
    hide Inv, Enabled, Apply;
    ReachableSound(s);
    var sent, earlier := s.sent, s.reports;
    forall x, a | Draining(x, sent, earlier) && DrainStep(x, a).Some?
      ensures Draining(DrainStep(x, a).value, sent, earlier)
    {
      DrainingKept(x, a, sent, earlier);
    }
    assert s.reports[..|earlier|] == earlier;
    ExecKeeps(DrainStep, x => Draining(x, sent, earlier), s, run);
  }

  /** The condition on a receive under way is exact: one that looked too early can report too early. */
  lemma EarlyLookReportsEarly(s: State) returns (run: seq<Action>)
    requires Reachable(s) && s.closed && s.sender.SendIdle?
    requires s.receiver.ReceiveClosed? && s.receiver.since != |s.sent|
    ensures var end := Exec(DrainStep, s, run);
            && end.Some? && |end.value.reports| == |s.reports| + 1
            && end.value.reports[|s.reports|].0 < |s.sent|
  {
    ReachableSound(s);
    run := [ReceiverStep];
    assert Exec(DrainStep, AfterReceiver(s), []) == Some(AfterReceiver(s));
    assert run[1..] == [];
  }

  // ---------- runs that show the limits ----------

  lemma Do(s: State, a: Action) returns (s': State)
    requires Reachable(s) && Enabled(s, a)
    ensures Reachable(s') && s' == Apply(s, a)
  {
    var data: seq<int>, run :| |data| == CAP && Exec(Step, Init(data), run) == Some(s);
    ExecAppend(Step, Init(data), run, a);
    s' := Apply(s, a);
  }

  lemma NewChannel() returns (s: State)
    ensures Reachable(s) && s == Init(seq(CAP, i => 0))
  {
    s := Init(seq(CAP, i => 0));
    assert Exec(Step, s, []) == Some(s);
  }

  /** One whole send. */
  lemma SendOne(s0: State, v: int) returns (s: State)
    requires Reachable(s0) && s0.sender.SendIdle? && Occupied(s0.head, s0.tail) < CAP - 1
    ensures 0 <= s0.tail % CAP < |s0.data|
    ensures Reachable(s) && s == s0.(tail := (s0.tail + 1) % CAP, sent := s0.sent + [v],
                                     data := s0.data[s0.tail % CAP := AsWord(v)])
  {
    hide Reachable, Occupied;
    ReachableSound(s0);
    s := Do(s0, Send(v, true));
    s := Do(s, SenderStep);
    s := Do(s, SenderStep);
    s := Do(s, SenderStep);
    s := Do(s, SenderStep);
  }

  /** The receiver finds the buffer empty, the sender sends `v` and closes, and the receiver then reports
      "closed" with `v` still in the buffer. */
  lemma ClosedReportCanMiss(v: int) returns (s: State)
    ensures Reachable(s) && s.reports == [(0, 1)] && s.received == [] && s.sent == [v]
  {
    hide Reachable;
    s := NewChannel();
    s := Do(s, Receive(true));
    s := Do(s, ReceiverStep);
    s := Do(s, ReceiverStep);
    s := SendOne(s, v);
    s := Do(s, Close);
    s := Do(s, ReceiverStep);
  }

  /** 2^53 + 1 is sent, and 2^53 is received. */
  lemma LargeOddValueChanges() returns (s: State)
    ensures Reachable(s) && s.sent == [TWO_53 + 1] && s.received == [TWO_53]
  {
    hide Reachable;
    FirstInexact();
    s := NewChannel();
    s := SendOne(s, TWO_53 + 1);
    hide ToNumber;
    s := Do(s, Receive(false));
    s := Do(s, ReceiverStep);
    s := Do(s, ReceiverStep);
    s := Do(s, ReceiverStep);
    s := Do(s, ReceiverStep);
  }
}
