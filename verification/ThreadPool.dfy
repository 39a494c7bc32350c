/** The browser thread runtime as a step system: the main thread spawns closures on a pool of workers and
    joins them through recycled result slots in shared memory. Every access to shared memory, and every
    message, is a step of its own, and steps of the main thread and the workers interleave freely. */
module ThreadPool {
  import opened Numbers
  import opened Runs
  import opened Wrappers

  type ThreadId = int
  type Worker = int
  type Address = int
  type Int64 = x: int | -0x8000_0000_0000_0000 <= x < 0x8000_0000_0000_0000

  const RESULT_SLOT_BYTES := 16
  const RESULT_POOL_BYTES := 64 * 1024

  /** How the closure of a thread ended. */
  datatype Outcome = Returned(result: Int64) | Threw

  /** The main thread's record of a thread. `done` and `result` are set, and the worker and the slot given
      up, in one go: by the join, or at once when the closure runs inline. */
  datatype Thread = Dispatched(worker: Worker, slot: Address) | Done(result: int)

  type Threads = map<ThreadId, Thread>

  /** A `run` message. */
  datatype Job = Job(thread: ThreadId, slot: Address)

  /** Where a worker is in its message handler. */
  datatype Phase =
    | Resting
    | Running(job: Job)
    | HasResult(job: Job, result: Int64)
    | Stored(job: Job)
    | Caught(job: Job)
    | MustReport

  /** Where the main thread is in `spawn` or `join`, with the locals it needs from there on. */
  datatype Main =
    | Ready
    | Dispatching(thread: ThreadId, worker: Worker, slot: Address)
    | Polling(thread: ThreadId, slot: Address)
    | Reading(thread: ThreadId, slot: Address)

  /** How far a thread has come; kept as history only. A closure that runs on the main thread is inlined. */
  datatype Stage = Posting | Queued | InHand | Published | Joined | Inlined

  datatype State = State(
    poolSize: nat, resultBase: Address,
    // the main thread's own fields
    idleWorkers: seq<Worker>, nextThreadId: ThreadId, threads: Threads,
    nextResultSlot: nat, freeResultSlots: seq<Address>, main: Main,
    // shared memory: the flag and the value cell of each slot
    ready: map<Address, int>, value: map<Address, Int64>,
    // the workers and the messages under way
    inbox: map<Worker, seq<Job>>, phase: map<Worker, Phase>, errors: seq<Worker>,
    // history: how far each thread has come, how closures ended, what each slot held at dispatch, what
    // joins returned, which workers threw and whose error messages the main thread has handled
    stage: map<ThreadId, Stage>, outcome: map<ThreadId, Outcome>, stale: map<ThreadId, Int64>,
    joined: seq<(ThreadId, int)>, threw: multiset<Worker>, handled: multiset<Worker>,
    // who stored last into each slot, and who had done so when a thread was dispatched with it
    lastStorer: map<Address, ThreadId>, staleFrom: map<ThreadId, Option<ThreadId>>)

  datatype Action =
    | SpawnStore
    | SpawnPost
    | SpawnInline(inlineOutcome: Outcome)
    | JoinStart(thread: ThreadId)
    | JoinPoll
    | JoinRead
    | HandleError
    | Take(worker: Worker)
    | Finish(worker: Worker, outcome: Outcome)
    | StoreResult(worker: Worker)
    | Publish(worker: Worker)
    | PostError(worker: Worker)

  function Load<V>(cells: map<Address, V>, a: Address, zero: V): V {
    if a in cells then cells[a] else zero
  }

  // ---------- the main thread's slot pool ----------

  function SlotAddress(base: Address, k: nat): Address {
    base + k * RESULT_SLOT_BYTES
  }

  /** `_allocResultSlot`: the slot handed out, the free list and the count of slots ever made. */
  function AllocResultSlot(base: Address, free: seq<Address>, next: nat): (Address, seq<Address>, nat) {
    if free != [] then (free[|free| - 1], free[..|free| - 1], next)
    else (SlotAddress(base, next), free, next + 1)
  }

  // ---------- steps ----------

  function Init(poolSize: nat, resultBase: Address): State {
    var all := seq(poolSize, w => w);
    State(poolSize, resultBase,
          all, poolSize + 1, map[], 0, [], Ready, map[], map[],
          map w | w in all :: [], map w | w in all :: Resting, [],
          map[], map[], map[], [], multiset{}, multiset{}, map[], map[])
  }

  predicate Enabled(s: State, a: Action) {
    match a
    case SpawnStore => s.main.Ready? && s.idleWorkers != []
    case SpawnPost => s.main.Dispatching?
    case SpawnInline(_) => s.main.Ready? && s.idleWorkers == []
    case JoinStart(t) => s.main.Ready?
    case JoinPoll => s.main.Polling?
    case JoinRead => s.main.Reading?
    case HandleError => s.main.Ready? && s.errors != []
    case Take(w) => w in s.phase && s.phase[w].Resting? && w in s.inbox && s.inbox[w] != []
    case Finish(w, _) => w in s.phase && s.phase[w].Running?
    case StoreResult(w) => w in s.phase && s.phase[w].HasResult?
    case Publish(w) => w in s.phase && (s.phase[w].Stored? || s.phase[w].Caught?)
    case PostError(w) => w in s.phase && s.phase[w].MustReport?
  }

  function SpawnStoreStep(s: State): State
    requires s.idleWorkers != []
  {
    var t, w := s.nextThreadId, s.idleWorkers[|s.idleWorkers| - 1];
    var (slot, free, next) := AllocResultSlot(s.resultBase, s.freeResultSlots, s.nextResultSlot);
    s.(
      nextThreadId := t + 1,
      idleWorkers := s.idleWorkers[..|s.idleWorkers| - 1],
      freeResultSlots := free, nextResultSlot := next,
      ready := s.ready[slot := 0],
      threads := s.threads[t := Dispatched(w, slot)],
      main := Dispatching(t, w, slot),
      stage := s.stage[t := Posting],
      stale := s.stale[t := Load(s.value, slot, 0)],
      staleFrom := s.staleFrom[t := if slot in s.lastStorer then Some(s.lastStorer[slot]) else None])
  }

  function SpawnInlineStep(s: State, o: Outcome): State {
    var t := s.nextThreadId;
    s.(nextThreadId := t + 1,
       threads := s.threads[t := Done(if o.Returned? then o.result else 0)],
       stage := s.stage[t := Inlined],
       outcome := s.outcome[t := o],
       stale := s.stale[t := 0],
       staleFrom := s.staleFrom[t := None])
  }

  function JoinReadStep(s: State): State
    requires s.main.Reading?
  {
    var Reading(t, slot) := s.main;
    var result := ToNumber(Load(s.value, slot, 0));
    s.(threads := s.threads[t := Done(result)],
       freeResultSlots := s.freeResultSlots + [slot],
       idleWorkers := if Unjoined(s.threads, t) then s.idleWorkers + [s.threads[t].worker] else s.idleWorkers,
       main := Ready,
       stage := s.stage[t := Joined],
       joined := s.joined + [(t, result)])
  }

  function Apply(s: State, a: Action): State
    requires Enabled(s, a)
  {
    match a
    case SpawnStore => SpawnStoreStep(s)
    case SpawnPost =>
      var Dispatching(t, w, slot) := s.main;
      s.(main := Ready,
         inbox := s.inbox[w := (if w in s.inbox then s.inbox[w] else []) + [Job(t, slot)]],
         stage := s.stage[t := Queued])
    case SpawnInline(o) => SpawnInlineStep(s, o)
    case JoinStart(t) =>
      s.(main := if Unjoined(s.threads, t) then Polling(t, s.threads[t].slot) else s.main,
         joined := s.joined + if t in s.threads && s.threads[t].Done? then [(t, s.threads[t].result)] else [])
    case JoinPoll =>
      if Load(s.ready, s.main.slot, 0) == 0 then s else s.(main := Reading(s.main.thread, s.main.slot))
    case JoinRead => JoinReadStep(s)
    case HandleError =>
      s.(errors := s.errors[1..], idleWorkers := s.idleWorkers + [s.errors[0]],
         handled := s.handled + multiset{s.errors[0]})
    case Take(w) =>
      s.(phase := s.phase[w := Running(s.inbox[w][0])], inbox := s.inbox[w := s.inbox[w][1..]],
         stage := s.stage[s.inbox[w][0].thread := InHand])
    case Finish(w, Returned(v)) =>
      var job := s.phase[w].job;
      s.(outcome := s.outcome[job.thread := Returned(v)], phase := s.phase[w := HasResult(job, v)])
    case Finish(w, Threw) =>
      var job := s.phase[w].job;
      s.(outcome := s.outcome[job.thread := Threw], phase := s.phase[w := Caught(job)],
         threw := s.threw + multiset{w})
    case StoreResult(w) =>
      var HasResult(job, v) := s.phase[w];
      s.(value := s.value[job.slot := v], phase := s.phase[w := Stored(job)],
         lastStorer := s.lastStorer[job.slot := job.thread])
    case Publish(w) =>
      s.(ready := s.ready[s.phase[w].job.slot := 1],
         phase := s.phase[w := if s.phase[w].Stored? then Resting else MustReport],
         stage := s.stage[s.phase[w].job.thread := Published])
    case PostError(w) =>
      s.(errors := s.errors + [w], phase := s.phase[w := Resting])
  }

  // ---------- the invariant ----------

  /** `t` was dispatched to a worker and its slot is not freed yet. */
  predicate Unjoined(threads: Threads, t: ThreadId) {
    t in threads && threads[t].Dispatched?
  }

  function UnjoinedThreads(threads: Threads): set<ThreadId> {
    set t | t in threads && threads[t].Dispatched?
  }

  function ServedBy(threads: Threads, w: Worker): set<ThreadId> {
    set t | t in threads && threads[t].Dispatched? && threads[t].worker == w
  }

  /** The outcome of `t` as a value: the closure's result, or, if it threw, what the slot held before. */
  function Expected(outcome: map<ThreadId, Outcome>, stale: map<ThreadId, Int64>, t: ThreadId): Int64
    requires t in outcome && t in stale
  {
    if outcome[t].Returned? then outcome[t].result else stale[t]
  }

  /** What a join of `t` must answer: a value that was read from a slot is converted to a number, one that the
      main thread computed itself is not. */
  function Owed(stage: map<ThreadId, Stage>, outcome: map<ThreadId, Outcome>, stale: map<ThreadId, Int64>,
                t: ThreadId): int
    requires t in stage && t in outcome && t in stale
  {
    if stage[t].Inlined? then Expected(outcome, stale, t) else ToNumber(Expected(outcome, stale, t))
  }

  predicate Ended(at: Stage) {
    at.Joined? || at.Inlined?
  }

  ghost predicate ThreadsSound(poolSize: nat, nextThreadId: ThreadId, threads: Threads, stage: map<ThreadId, Stage>,
                               outcome: map<ThreadId, Outcome>, stale: map<ThreadId, Int64>) {
    && threads.Keys == stage.Keys == stale.Keys && outcome.Keys <= threads.Keys
    && forall t :: t in threads ==>
         && t < nextThreadId
         && match threads[t]
            case Done(result) => Ended(stage[t]) && t in outcome && result == Owed(stage, outcome, stale, t)
            case Dispatched(w, _) => !Ended(stage[t]) && 0 <= w < poolSize
  }

  /** No two unjoined threads share a slot, and no free slot is in use. */
  ghost predicate SlotsApart(base: Address, next: nat, free: seq<Address>, threads: Threads) {
    && (forall t :: Unjoined(threads, t) ==>
          Allocated(base, next, threads[t].slot) && threads[t].slot !in free)
    && (forall t, u :: Unjoined(threads, t) && Unjoined(threads, u) && threads[t].slot == threads[u].slot ==> t == u)
    && (forall i :: 0 <= i < |free| ==> Allocated(base, next, free[i]))
    && (forall i, j :: 0 <= i < j < |free| ==> free[i] != free[j])
  }

  predicate Allocated(base: Address, next: nat, a: Address) {
    base <= a < SlotAddress(base, next) && (a - base) % RESULT_SLOT_BYTES == 0
  }

  /** The flag of an unjoined thread is set exactly when it is published, and then its value cell is right. */
  ghost predicate CellsSound(threads: Threads, stage: map<ThreadId, Stage>, ready: map<Address, int>,
                             value: map<Address, Int64>, outcome: map<ThreadId, Outcome>, stale: map<ThreadId, Int64>) {
    forall t :: Unjoined(threads, t) ==>
      CellSound(threads[t].slot, t, stage, ready, value, outcome, stale)
  }

  ghost predicate CellSound(slot: Address, t: ThreadId, stage: map<ThreadId, Stage>, ready: map<Address, int>,
                            value: map<Address, Int64>, outcome: map<ThreadId, Outcome>, stale: map<ThreadId, Int64>) {
    && t in stage && t in stale && slot in ready
    && match stage[t]
       case Published => ready[slot] == 1 && t in outcome && Load(value, slot, 0) == Expected(outcome, stale, t)
       case InHand => ready[slot] == 0
       case _ => ready[slot] == 0 && t !in outcome && Load(value, slot, 0) == stale[t]
  }

  predicate HasJob(p: Phase) {
    p.Running? || p.HasResult? || p.Stored? || p.Caught?
  }

  /** `job` is the message for a thread of worker `w` that has come as far as `at`. */
  predicate JobAt(threads: Threads, stage: map<ThreadId, Stage>, w: Worker, job: Job, at: Stage) {
    && job.thread in threads && threads[job.thread] == Dispatched(w, job.slot)
    && job.thread in stage && stage[job.thread] == at
  }

  /** Messages wait in order at their worker, once each, and none is lost. */
  ghost predicate InboxesSound(threads: Threads, stage: map<ThreadId, Stage>, inbox: map<Worker, seq<Job>>) {
    && (forall w, i :: w in inbox && 0 <= i < |inbox[w]| ==> JobAt(threads, stage, w, inbox[w][i], Queued))
    && (forall w, i, j :: w in inbox && 0 <= i < j < |inbox[w]| ==> inbox[w][i] != inbox[w][j])
    && (forall t :: t in stage && stage[t].Queued? && Unjoined(threads, t) ==>
          var w := threads[t].worker; w in inbox && Job(t, threads[t].slot) in inbox[w])
  }

  ghost predicate PhasesSound(threads: Threads, stage: map<ThreadId, Stage>, phase: map<Worker, Phase>,
                              value: map<Address, Int64>, outcome: map<ThreadId, Outcome>, stale: map<ThreadId, Int64>) {
    && (forall w :: w in phase && HasJob(phase[w]) ==>
          JobAt(threads, stage, w, phase[w].job, InHand) && HandSound(phase[w], value, outcome, stale))
    && (forall t :: t in stage && stage[t].InHand? && Unjoined(threads, t) ==>
          var w := threads[t].worker; w in phase && HasJob(phase[w]) && phase[w].job.thread == t)
  }

  ghost predicate HandSound(p: Phase, value: map<Address, Int64>, outcome: map<ThreadId, Outcome>,
                            stale: map<ThreadId, Int64>)
    requires HasJob(p)
  {
    var t, held := p.job.thread, Load(value, p.job.slot, 0);
    && t in stale
    && match p
       case Running(_) => t !in outcome && held == stale[t]
       case HasResult(_, v) => t in outcome && outcome[t] == Returned(v)
       case Stored(_) => t in outcome && outcome[t] == Returned(held)
       case _ => t in outcome && outcome[t] == Threw && held == stale[t]
  }

  ghost predicate MainSound(threads: Threads, stage: map<ThreadId, Stage>, main: Main) {
    && (match main
        case Ready => true
        case Dispatching(t, w, slot) => JobAt(threads, stage, w, Job(t, slot), Posting)
        case Polling(t, slot) => Unjoined(threads, t) && threads[t].slot == slot
        case Reading(t, slot) =>
          Unjoined(threads, t) && threads[t].slot == slot && t in stage && stage[t].Published?)
    && forall t :: t in stage && stage[t].Posting? ==> main.Dispatching? && main.thread == t
  }

  ghost predicate JoinsSound(threads: Threads, joined: seq<(ThreadId, int)>) {
    forall i :: 0 <= i < |joined| ==>
      joined[i].0 in threads && threads[joined[i].0] == Done(joined[i].1)
  }

  /** Workers and slots are neither lost nor made: a handled error message returns a worker once more. */
  ghost predicate Counted(poolSize: nat, idle: seq<Worker>, threads: Threads, next: nat, free: seq<Address>,
                          handled: multiset<Worker>) {
    && |free| + |UnjoinedThreads(threads)| == next
    && |idle| + |UnjoinedThreads(threads)| == poolSize + |handled|
    && next <= poolSize + |handled|
  }

  ghost predicate IdleCounted(poolSize: nat, idle: seq<Worker>, threads: Threads, handled: multiset<Worker>) {
    && (forall w :: w in idle ==> 0 <= w < poolSize)
    && forall w :: 0 <= w < poolSize ==> multiset(idle)[w] + |ServedBy(threads, w)| == 1 + handled[w]
  }

  predicate Failing(p: Phase) {
    p.Caught? || p.MustReport?
  }

  ghost predicate ErrorsCounted(poolSize: nat, phase: map<Worker, Phase>, errors: seq<Worker>,
                                handled: multiset<Worker>, threw: multiset<Worker>) {
    && (forall w :: w in phase <==> 0 <= w < poolSize)
    && (forall w :: w in errors ==> 0 <= w < poolSize)
    && (forall w :: w in handled ==> w in phase)
    && forall w :: w in phase ==>
         handled[w] + multiset(errors)[w] + (if Failing(phase[w]) then 1 else 0) == threw[w]
  }

  ghost predicate Inv(s: State) {
    && ThreadsSound(s.poolSize, s.nextThreadId, s.threads, s.stage, s.outcome, s.stale)
    && SlotsApart(s.resultBase, s.nextResultSlot, s.freeResultSlots, s.threads)
    && CellsSound(s.threads, s.stage, s.ready, s.value, s.outcome, s.stale)
    && InboxesSound(s.threads, s.stage, s.inbox) && s.inbox.Keys == s.phase.Keys
    && PhasesSound(s.threads, s.stage, s.phase, s.value, s.outcome, s.stale)
    && MainSound(s.threads, s.stage, s.main)
    && JoinsSound(s.threads, s.joined)
    && Counted(s.poolSize, s.idleWorkers, s.threads, s.nextResultSlot, s.freeResultSlots, s.handled)
    && IdleCounted(s.poolSize, s.idleWorkers, s.threads, s.handled)
    && ErrorsCounted(s.poolSize, s.phase, s.errors, s.handled, s.threw)
  }

  predicate SamePool(s: State, s': State) {
    s'.poolSize == s.poolSize && s'.resultBase == s.resultBase
  }

  // ---------- every step keeps the invariant ----------

  lemma CountInit(n: nat, w: Worker)
    requires 0 <= w < n
    ensures multiset(seq(n, i => i))[w] == 1
  {
    var all := seq(n, i => i);
    assert all == all[..w] + [w] + all[w + 1..];
  }

  lemma IdleInit(poolSize: nat, threads: Threads)
    requires threads == map[]
    ensures IdleCounted(poolSize, seq(poolSize, i => i), threads, multiset{})
  {
    var all := multiset(seq(poolSize, i => i));
    forall w | 0 <= w < poolSize ensures all[w] == 1 {
      CountInit(poolSize, w);
    }
    assert forall w :: ServedBy(threads, w) == {};
  }

  lemma WorkersInit(poolSize: nat, w: Worker)
    ensures w in seq(poolSize, i => i) <==> 0 <= w < poolSize
  {
    if 0 <= w < poolSize {
      assert seq(poolSize, i => i)[w] == w;
    }
  }

  lemma JobsInit(inbox: map<Worker, seq<Job>>, phase: map<Worker, Phase>)
    requires forall w :: w in inbox ==> inbox[w] == []
    requires forall w :: w in phase ==> phase[w].Resting?
    ensures InboxesSound(map[], map[], inbox) && PhasesSound(map[], map[], phase, map[], map[], map[])
  {
  }

  lemma InitSound(poolSize: nat, resultBase: Address)
    ensures Inv(Init(poolSize, resultBase))
  {
    hide InboxesSound, PhasesSound, IdleCounted;
    var s := Init(poolSize, resultBase);
    forall w ensures w in s.phase <==> 0 <= w < poolSize {
      WorkersInit(poolSize, w);
    }
    assert s.idleWorkers == seq(poolSize, i => i);
    IdleInit(poolSize, s.threads);
    JobsInit(s.inbox, s.phase);
  }

  lemma UnjoinedMore(threads: Threads, t: ThreadId, w: Worker, slot: Address)
    requires t !in threads
    ensures |UnjoinedThreads(threads[t := Dispatched(w, slot)])| == |UnjoinedThreads(threads)| + 1
  {
    assert UnjoinedThreads(threads[t := Dispatched(w, slot)]) == UnjoinedThreads(threads) + {t};
  }

  lemma ServedMore(threads: Threads, t: ThreadId, w: Worker, slot: Address, v: Worker)
    requires t !in threads
    ensures |ServedBy(threads[t := Dispatched(w, slot)], v)| == |ServedBy(threads, v)| + if v == w then 1 else 0
  {
    assert ServedBy(threads[t := Dispatched(w, slot)], v) == ServedBy(threads, v) + if v == w then {t} else {};
  }

  lemma UnjoinedLess(threads: Threads, t: ThreadId, result: int)
    ensures |UnjoinedThreads(threads)| ==
            |UnjoinedThreads(threads[t := Done(result)])| + if Unjoined(threads, t) then 1 else 0
  {
    assert UnjoinedThreads(threads[t := Done(result)]) == UnjoinedThreads(threads) - {t};
  }

  lemma ServedLess(threads: Threads, t: ThreadId, result: int, v: Worker)
    ensures |ServedBy(threads, v)| ==
            |ServedBy(threads[t := Done(result)], v)| + if Unjoined(threads, t) && threads[t].worker == v then 1 else 0
  {
    assert ServedBy(threads[t := Done(result)], v) == ServedBy(threads, v) - {t};
  }

  lemma IdleAfterDispatch(poolSize: nat, idle: seq<Worker>, threads: Threads, handled: multiset<Worker>,
                          t: ThreadId, slot: Address)
    requires IdleCounted(poolSize, idle, threads, handled) && idle != [] && t !in threads
    ensures IdleCounted(poolSize, idle[..|idle| - 1], threads[t := Dispatched(idle[|idle| - 1], slot)], handled)
  {
    var w := idle[|idle| - 1];
    var front, threads' := idle[..|idle| - 1], threads[t := Dispatched(w, slot)];
    forall v | 0 <= v < poolSize ensures multiset(front)[v] + |ServedBy(threads', v)| == 1 + handled[v] {
      CountPop(idle, v);
      ServedMore(threads, t, w, slot, v);
    }
    forall v | v in front ensures 0 <= v < poolSize {
      CountPop(idle, v);
    }
  }

  lemma IdleAfterInline(poolSize: nat, idle: seq<Worker>, threads: Threads, handled: multiset<Worker>,
                        t: ThreadId, result: int)
    requires IdleCounted(poolSize, idle, threads, handled) && t !in threads
    ensures IdleCounted(poolSize, idle, threads[t := Done(result)], handled)
  {
    forall v ensures |ServedBy(threads[t := Done(result)], v)| == |ServedBy(threads, v)| {
      ServedLess(threads, t, result, v);
    }
  }

  lemma IdleAfterJoin(poolSize: nat, idle: seq<Worker>, threads: Threads, handled: multiset<Worker>,
                      t: ThreadId, result: int)
    requires IdleCounted(poolSize, idle, threads, handled) && Unjoined(threads, t)
    requires 0 <= threads[t].worker < poolSize
    ensures IdleCounted(poolSize, idle + [threads[t].worker], threads[t := Done(result)], handled)
  {
    forall v | 0 <= v < poolSize
      ensures multiset(idle + [threads[t].worker])[v] + |ServedBy(threads[t := Done(result)], v)| == 1 + handled[v]
    {
      ServedLess(threads, t, result, v);
    }
  }

  lemma CountPop<T>(s: seq<T>, v: T)
    requires s != []
    ensures multiset(s)[v] == multiset(s[..|s| - 1])[v] + if v == s[|s| - 1] then 1 else 0
    ensures v in s[..|s| - 1] ==> v in s
  {
    assert s == s[..|s| - 1] + [s[|s| - 1]];
  }

  lemma CountShift<T>(s: seq<T>, v: T)
    requires s != []
    ensures multiset(s)[v] == multiset(s[1..])[v] + if v == s[0] then 1 else 0
    ensures v in s[1..] ==> v in s
  {
    assert s == [s[0]] + s[1..];
  }

  lemma IdleAfterError(poolSize: nat, idle: seq<Worker>, threads: Threads, phase: map<Worker, Phase>,
                       errors: seq<Worker>, handled: multiset<Worker>, threw: multiset<Worker>)
    requires errors != [] && IdleCounted(poolSize, idle, threads, handled)
    requires ErrorsCounted(poolSize, phase, errors, handled, threw)
    ensures IdleCounted(poolSize, idle + [errors[0]], threads, handled + multiset{errors[0]})
  {
    assert errors[0] in errors;
  }

  lemma ErrorsAfterHandling(poolSize: nat, phase: map<Worker, Phase>, errors: seq<Worker>,
                            handled: multiset<Worker>, threw: multiset<Worker>)
    requires errors != [] && ErrorsCounted(poolSize, phase, errors, handled, threw)
    ensures ErrorsCounted(poolSize, phase, errors[1..], handled + multiset{errors[0]}, threw)
  {
    assert errors[0] in errors;
    forall v
      ensures multiset(errors)[v] == multiset(errors[1..])[v] + if v == errors[0] then 1 else 0
      ensures v in errors[1..] ==> v in errors
    {
      CountShift(errors, v);
    }
  }

  /** The threads that have come exactly as far as `at` are the same in both, with the same records. */
  ghost predicate SameAt(threads: Threads, stage: map<ThreadId, Stage>,
                         threads': Threads, stage': map<ThreadId, Stage>, at: Stage) {
    && (forall t :: t in threads && t in stage && stage[t] == at ==>
          t in threads' && t in stage' && stage'[t] == at && threads'[t] == threads[t])
    && (forall t :: t in threads' && t in stage' && stage'[t] == at ==>
          t in threads && t in stage && stage[t] == at && threads'[t] == threads[t])
  }

  lemma InboxesFrame(threads: Threads, stage: map<ThreadId, Stage>, threads': Threads, stage': map<ThreadId, Stage>,
                     inbox: map<Worker, seq<Job>>)
    requires InboxesSound(threads, stage, inbox) && SameAt(threads, stage, threads', stage', Queued)
    ensures InboxesSound(threads', stage', inbox)
  {
  }

  lemma PhasesFrame(threads: Threads, stage: map<ThreadId, Stage>, threads': Threads, stage': map<ThreadId, Stage>,
                    phase: map<Worker, Phase>, value: map<Address, Int64>,
                    outcome: map<ThreadId, Outcome>, stale: map<ThreadId, Int64>,
                    outcome': map<ThreadId, Outcome>, stale': map<ThreadId, Int64>)
    requires PhasesSound(threads, stage, phase, value, outcome, stale) && SameAt(threads, stage, threads', stage', InHand)
    requires forall t :: t in stage && stage[t].InHand? ==>
      (t in outcome <==> t in outcome') && (t in stale <==> t in stale')
      && (t in outcome ==> outcome'[t] == outcome[t]) && (t in stale ==> stale'[t] == stale[t])
    ensures PhasesSound(threads', stage', phase, value, outcome', stale')
  {
  }

  lemma AllocApart(base: Address, next: nat, free: seq<Address>, threads: Threads, t: ThreadId, w: Worker)
    requires SlotsApart(base, next, free, threads) && t !in threads
    ensures var (slot, free', next') := AllocResultSlot(base, free, next);
            && SlotsApart(base, next', free', threads[t := Dispatched(w, slot)])
            && (forall u :: Unjoined(threads, u) ==> threads[u].slot != slot)
            && |free'| + next == |free| + next' - 1
  {
    if free != [] {
      var slot, free' := free[|free| - 1], free[..|free| - 1];
      assert slot in free && slot !in free';
    } else {
      assert !Allocated(base, next, SlotAddress(base, next));
    }
  }

  lemma ReleaseApart(base: Address, next: nat, free: seq<Address>, threads: Threads, t: ThreadId, result: int)
    requires SlotsApart(base, next, free, threads) && Unjoined(threads, t)
    ensures SlotsApart(base, next, free + [threads[t].slot], threads[t := Done(result)])
  {
  }

  lemma ApartAfterInline(base: Address, next: nat, free: seq<Address>, threads: Threads, t: ThreadId, result: int)
    requires SlotsApart(base, next, free, threads) && t !in threads
    ensures SlotsApart(base, next, free, threads[t := Done(result)])
  {
  }

  lemma CellsAfterDispatch(threads: Threads, stage: map<ThreadId, Stage>, ready: map<Address, int>,
                           value: map<Address, Int64>, outcome: map<ThreadId, Outcome>, stale: map<ThreadId, Int64>,
                           t: ThreadId, w: Worker, slot: Address)
    requires CellsSound(threads, stage, ready, value, outcome, stale) && t !in threads && t !in outcome
    requires forall u :: Unjoined(threads, u) ==> threads[u].slot != slot
    ensures CellsSound(threads[t := Dispatched(w, slot)], stage[t := Posting], ready[slot := 0], value, outcome,
                       stale[t := Load(value, slot, 0)])
  {
  }

  lemma CellsAfterInline(threads: Threads, stage: map<ThreadId, Stage>, ready: map<Address, int>,
                         value: map<Address, Int64>, outcome: map<ThreadId, Outcome>, stale: map<ThreadId, Int64>,
                         t: ThreadId, result: int, o: Outcome)
    requires CellsSound(threads, stage, ready, value, outcome, stale) && t !in threads
    ensures CellsSound(threads[t := Done(result)], stage[t := Inlined], ready, value, outcome[t := o], stale[t := 0])
  {
  }

  /** What one thread's progress from `stage[t]` to `at` must not disturb. */
  lemma ThreadsStage(poolSize: nat, next: ThreadId, threads: Threads, stage: map<ThreadId, Stage>,
                     outcome: map<ThreadId, Outcome>, stale: map<ThreadId, Int64>, t: ThreadId, at: Stage)
    requires ThreadsSound(poolSize, next, threads, stage, outcome, stale) && Unjoined(threads, t) && !Ended(at)
    ensures ThreadsSound(poolSize, next, threads, stage[t := at], outcome, stale)
  {
  }

  lemma CellsStage(threads: Threads, stage: map<ThreadId, Stage>, ready: map<Address, int>,
                   value: map<Address, Int64>, outcome: map<ThreadId, Outcome>, stale: map<ThreadId, Int64>,
                   t: ThreadId, at: Stage)
    requires CellsSound(threads, stage, ready, value, outcome, stale) && Unjoined(threads, t)
    requires (stage[t].Posting? && at.Queued?) || (stage[t].Queued? && at.InHand?)
    ensures CellsSound(threads, stage[t := at], ready, value, outcome, stale)
  {
  }

  lemma CellsAfterFinish(threads: Threads, stage: map<ThreadId, Stage>, ready: map<Address, int>,
                         value: map<Address, Int64>, outcome: map<ThreadId, Outcome>, stale: map<ThreadId, Int64>,
                         t: ThreadId, o: Outcome)
    requires CellsSound(threads, stage, ready, value, outcome, stale) && Unjoined(threads, t) && stage[t].InHand?
    ensures CellsSound(threads, stage, ready, value, outcome[t := o], stale)
  {
  }

  lemma CellsAfterStore(base: Address, next: nat, free: seq<Address>, threads: Threads,
                        stage: map<ThreadId, Stage>, ready: map<Address, int>, value: map<Address, Int64>,
                        outcome: map<ThreadId, Outcome>, stale: map<ThreadId, Int64>, t: ThreadId, v: Int64)
    requires SlotsApart(base, next, free, threads) && CellsSound(threads, stage, ready, value, outcome, stale)
    requires Unjoined(threads, t) && stage[t].InHand?
    ensures CellsSound(threads, stage, ready, value[threads[t].slot := v], outcome, stale)
  {
  }

  lemma CellsAfterPublish(base: Address, next: nat, free: seq<Address>, threads: Threads,
                          stage: map<ThreadId, Stage>, ready: map<Address, int>, value: map<Address, Int64>,
                          outcome: map<ThreadId, Outcome>, stale: map<ThreadId, Int64>, t: ThreadId)
    requires SlotsApart(base, next, free, threads) && CellsSound(threads, stage, ready, value, outcome, stale)
    requires Unjoined(threads, t) && t in outcome && Load(value, threads[t].slot, 0) == Expected(outcome, stale, t)
    ensures CellsSound(threads, stage[t := Published], ready[threads[t].slot := 1], value, outcome, stale)
  {
  }

  lemma CellsAfterJoin(threads: Threads, stage: map<ThreadId, Stage>, ready: map<Address, int>,
                       value: map<Address, Int64>, outcome: map<ThreadId, Outcome>, stale: map<ThreadId, Int64>,
                       t: ThreadId, result: int)
    requires CellsSound(threads, stage, ready, value, outcome, stale)
    ensures CellsSound(threads[t := Done(result)], stage[t := Joined], ready, value, outcome, stale)
  {
  }

  lemma InboxesAfterPost(threads: Threads, stage: map<ThreadId, Stage>, inbox: map<Worker, seq<Job>>, w: Worker, job: Job)
    requires InboxesSound(threads, stage, inbox) && JobAt(threads, stage, w, job, Posting) && w in inbox
    ensures InboxesSound(threads, stage[job.thread := Queued], inbox[w := inbox[w] + [job]])
  {
    var inbox' := inbox[w := inbox[w] + [job]];
    assert inbox'[w][|inbox[w]|] == job;
    assert forall v, j :: v in inbox && j in inbox[v] ==> j in inbox'[v];
  }

  lemma InboxesAfterTake(threads: Threads, stage: map<ThreadId, Stage>, inbox: map<Worker, seq<Job>>, w: Worker)
    requires InboxesSound(threads, stage, inbox) && w in inbox && inbox[w] != []
    ensures InboxesSound(threads, stage[inbox[w][0].thread := InHand], inbox[w := inbox[w][1..]])
  {
  }

  lemma PhasesAfterTake(threads: Threads, stage: map<ThreadId, Stage>, phase: map<Worker, Phase>,
                        value: map<Address, Int64>, outcome: map<ThreadId, Outcome>, stale: map<ThreadId, Int64>,
                        w: Worker, job: Job)
    requires PhasesSound(threads, stage, phase, value, outcome, stale) && w in phase && !HasJob(phase[w])
    requires JobAt(threads, stage, w, job, Queued) && HandSound(Running(job), value, outcome, stale)
    ensures PhasesSound(threads, stage[job.thread := InHand], phase[w := Running(job)], value, outcome, stale)
  {
  }

  /** A worker that moves on with the job in its hands touches no other worker's. */
  lemma PhasesAfterMove(base: Address, next: nat, free: seq<Address>,
                        threads: Threads, stage: map<ThreadId, Stage>, phase: map<Worker, Phase>,
                        value: map<Address, Int64>, outcome: map<ThreadId, Outcome>, stale: map<ThreadId, Int64>,
                        w: Worker, p: Phase, value': map<Address, Int64>, outcome': map<ThreadId, Outcome>)
    requires SlotsApart(base, next, free, threads)
    requires PhasesSound(threads, stage, phase, value, outcome, stale) && w in phase && HasJob(phase[w])
    requires HasJob(p) && p.job == phase[w].job && HandSound(p, value', outcome', stale)
    requires forall a :: a != p.job.slot ==> Load(value', a, 0) == Load(value, a, 0)
    requires forall t :: t != p.job.thread ==>
      (t in outcome <==> t in outcome') && (t in outcome ==> outcome'[t] == outcome[t])
    ensures PhasesSound(threads, stage, phase[w := p], value', outcome', stale)
  {
  }

  lemma PhasesAfterPublish(threads: Threads, stage: map<ThreadId, Stage>, phase: map<Worker, Phase>,
                           value: map<Address, Int64>, outcome: map<ThreadId, Outcome>, stale: map<ThreadId, Int64>,
                           w: Worker, p: Phase)
    requires PhasesSound(threads, stage, phase, value, outcome, stale) && w in phase && HasJob(phase[w])
    requires !HasJob(p)
    ensures PhasesSound(threads, stage[phase[w].job.thread := Published], phase[w := p], value, outcome, stale)
  {
  }

  lemma ThreadsAfterSpawn(poolSize: nat, t: ThreadId, threads: Threads, stage: map<ThreadId, Stage>,
                          outcome: map<ThreadId, Outcome>, stale: map<ThreadId, Int64>,
                          main: Main, joined: seq<(ThreadId, int)>, w: Worker, slot: Address, held: Int64)
    requires ThreadsSound(poolSize, t, threads, stage, outcome, stale) && 0 <= w < poolSize
    requires MainSound(threads, stage, main) && main.Ready? && JoinsSound(threads, joined)
    ensures var threads', stage' := threads[t := Dispatched(w, slot)], stage[t := Posting];
            && ThreadsSound(poolSize, t + 1, threads', stage', outcome, stale[t := held])
            && MainSound(threads', stage', Dispatching(t, w, slot)) && JoinsSound(threads', joined)
  {
  }

  lemma ThreadsAfterInline(poolSize: nat, t: ThreadId, threads: Threads, stage: map<ThreadId, Stage>,
                           outcome: map<ThreadId, Outcome>, stale: map<ThreadId, Int64>,
                           main: Main, joined: seq<(ThreadId, int)>, o: Outcome)
    requires ThreadsSound(poolSize, t, threads, stage, outcome, stale)
    requires MainSound(threads, stage, main) && main.Ready? && JoinsSound(threads, joined)
    ensures var threads' := threads[t := Done(if o.Returned? then o.result else 0)];
            && ThreadsSound(poolSize, t + 1, threads', stage[t := Inlined], outcome[t := o], stale[t := 0])
            && MainSound(threads', stage[t := Inlined], main) && JoinsSound(threads', joined)
  {
  }

  lemma ThreadsAfterJoin(poolSize: nat, next: ThreadId, threads: Threads, stage: map<ThreadId, Stage>,
                         outcome: map<ThreadId, Outcome>, stale: map<ThreadId, Int64>,
                         main: Main, joined: seq<(ThreadId, int)>, t: ThreadId)
    requires ThreadsSound(poolSize, next, threads, stage, outcome, stale) && Unjoined(threads, t) && t in outcome
    requires MainSound(threads, stage, main) && main.Reading? && JoinsSound(threads, joined)
    ensures var result := ToNumber(Expected(outcome, stale, t));
            && ThreadsSound(poolSize, next, threads[t := Done(result)], stage[t := Joined], outcome, stale)
            && MainSound(threads[t := Done(result)], stage[t := Joined], Ready)
            && JoinsSound(threads[t := Done(result)], joined + [(t, result)])
  {
    hide ToNumber;
  }

  /** A record that waits in no inbox and lies in no worker's hands, before or after, disturbs neither. */
  lemma JobsAfterRecord(threads: Threads, stage: map<ThreadId, Stage>, inbox: map<Worker, seq<Job>>,
                        phase: map<Worker, Phase>, value: map<Address, Int64>,
                        outcome: map<ThreadId, Outcome>, stale: map<ThreadId, Int64>,
                        t: ThreadId, thread: Thread, at: Stage,
                        outcome': map<ThreadId, Outcome>, stale': map<ThreadId, Int64>)
    requires InboxesSound(threads, stage, inbox) && PhasesSound(threads, stage, phase, value, outcome, stale)
    requires t in stage ==> !stage[t].Queued? && !stage[t].InHand?
    requires !at.Queued? && !at.InHand?
    requires forall u :: u != t ==> (u in outcome <==> u in outcome') && (u in outcome ==> outcome'[u] == outcome[u])
    requires forall u :: u != t ==> (u in stale <==> u in stale') && (u in stale ==> stale'[u] == stale[u])
    ensures InboxesSound(threads[t := thread], stage[t := at], inbox)
    ensures PhasesSound(threads[t := thread], stage[t := at], phase, value, outcome', stale')
  {
    InboxesFrame(threads, stage, threads[t := thread], stage[t := at], inbox);
    PhasesFrame(threads, stage, threads[t := thread], stage[t := at], phase, value, outcome, stale, outcome', stale');
  }

  /** A worker step that neither fails nor reports changes no count. */
  lemma ErrorsAfterMove(poolSize: nat, phase: map<Worker, Phase>, errors: seq<Worker>,
                        handled: multiset<Worker>, threw: multiset<Worker>, w: Worker, p: Phase)
    requires ErrorsCounted(poolSize, phase, errors, handled, threw) && w in phase && Failing(phase[w]) == Failing(p)
    ensures ErrorsCounted(poolSize, phase[w := p], errors, handled, threw)
  {
  }

  lemma ErrorsAfterThrow(poolSize: nat, phase: map<Worker, Phase>, errors: seq<Worker>,
                         handled: multiset<Worker>, threw: multiset<Worker>, w: Worker, p: Phase)
    requires ErrorsCounted(poolSize, phase, errors, handled, threw) && w in phase && !Failing(phase[w]) && Failing(p)
    ensures ErrorsCounted(poolSize, phase[w := p], errors, handled, threw + multiset{w})
  {
  }

  lemma ErrorsAfterReport(poolSize: nat, phase: map<Worker, Phase>, errors: seq<Worker>,
                          handled: multiset<Worker>, threw: multiset<Worker>, w: Worker)
    requires ErrorsCounted(poolSize, phase, errors, handled, threw) && w in phase && Failing(phase[w])
    ensures ErrorsCounted(poolSize, phase[w := Resting], errors + [w], handled, threw)
  {
  }

  lemma PhasesAfterReport(threads: Threads, stage: map<ThreadId, Stage>, phase: map<Worker, Phase>,
                          value: map<Address, Int64>, outcome: map<ThreadId, Outcome>, stale: map<ThreadId, Int64>,
                          w: Worker)
    requires PhasesSound(threads, stage, phase, value, outcome, stale) && w in phase && !HasJob(phase[w])
    ensures PhasesSound(threads, stage, phase[w := Resting], value, outcome, stale)
  {
  }

  lemma ThreadsAfterFinish(poolSize: nat, next: ThreadId, threads: Threads, stage: map<ThreadId, Stage>,
                           outcome: map<ThreadId, Outcome>, stale: map<ThreadId, Int64>, t: ThreadId, o: Outcome)
    requires ThreadsSound(poolSize, next, threads, stage, outcome, stale) && Unjoined(threads, t)
    ensures ThreadsSound(poolSize, next, threads, stage, outcome[t := o], stale)
  {
  }

  lemma MainAfterStep(threads: Threads, stage: map<ThreadId, Stage>, main: Main, t: ThreadId, at: Stage)
    requires MainSound(threads, stage, main) && t in stage && !stage[t].Posting? && !stage[t].Published? && !at.Posting?
    ensures MainSound(threads, stage[t := at], main)
  {
  }

  lemma NextIsNew(poolSize: nat, next: ThreadId, threads: Threads, stage: map<ThreadId, Stage>,
                  outcome: map<ThreadId, Outcome>, stale: map<ThreadId, Int64>)
    requires ThreadsSound(poolSize, next, threads, stage, outcome, stale)
    ensures next !in threads && next !in stage && next !in outcome && next !in stale
  {
  }

  lemma KeepSpawnStore(s: State)
    requires Inv(s) && Enabled(s, SpawnStore)
    ensures Inv(Apply(s, SpawnStore)) && SamePool(s, Apply(s, SpawnStore))
  {
    hide ThreadsSound, SlotsApart, CellsSound, InboxesSound, PhasesSound, MainSound, JoinsSound, ErrorsCounted;
    NextIsNew(s.poolSize, s.nextThreadId, s.threads, s.stage, s.outcome, s.stale);
    var idle, t := s.idleWorkers, s.nextThreadId;
    var w := idle[|idle| - 1];
    var (slot, _, _) := AllocResultSlot(s.resultBase, s.freeResultSlots, s.nextResultSlot);
    assert w in idle;
    ThreadsAfterSpawn(s.poolSize, t, s.threads, s.stage, s.outcome, s.stale, s.main, s.joined, w, slot,
                      Load(s.value, slot, 0));
    AllocApart(s.resultBase, s.nextResultSlot, s.freeResultSlots, s.threads, t, w);
    UnjoinedMore(s.threads, t, w, slot);
    IdleAfterDispatch(s.poolSize, idle, s.threads, s.handled, t, slot);
    CellsAfterDispatch(s.threads, s.stage, s.ready, s.value, s.outcome, s.stale, t, w, slot);
    JobsAfterRecord(s.threads, s.stage, s.inbox, s.phase, s.value, s.outcome, s.stale, t, Dispatched(w, slot), Posting,
                    s.outcome, s.stale[t := Load(s.value, slot, 0)]);
  }

  lemma KeepSpawnPost(s: State)
    requires Inv(s) && Enabled(s, SpawnPost)
    ensures Inv(Apply(s, SpawnPost)) && SamePool(s, Apply(s, SpawnPost))
  {
    hide SlotsApart, InboxesSound, JoinsSound, Counted, IdleCounted;
    var s', t, w := Apply(s, SpawnPost), s.main.thread, s.main.worker;
    ThreadsStage(s.poolSize, s.nextThreadId, s.threads, s.stage, s.outcome, s.stale, t, Queued);
    CellsStage(s.threads, s.stage, s.ready, s.value, s.outcome, s.stale, t, Queued);
    InboxesAfterPost(s.threads, s.stage, s.inbox, w, Job(t, s.main.slot));
    PhasesFrame(s.threads, s.stage, s'.threads, s'.stage, s.phase, s.value, s.outcome, s.stale, s'.outcome, s'.stale);
  }

  lemma KeepSpawnInline(s: State, o: Outcome)
    requires Inv(s) && Enabled(s, SpawnInline(o))
    ensures Inv(Apply(s, SpawnInline(o))) && SamePool(s, Apply(s, SpawnInline(o)))
  {
    hide ThreadsSound, SlotsApart, CellsSound, InboxesSound, PhasesSound, MainSound, JoinsSound, IdleCounted,
         ErrorsCounted;
    NextIsNew(s.poolSize, s.nextThreadId, s.threads, s.stage, s.outcome, s.stale);
    var t, result := s.nextThreadId, if o.Returned? then o.result else 0;
    ThreadsAfterInline(s.poolSize, t, s.threads, s.stage, s.outcome, s.stale, s.main, s.joined, o);
    ApartAfterInline(s.resultBase, s.nextResultSlot, s.freeResultSlots, s.threads, t, result);
    UnjoinedLess(s.threads, t, result);
    IdleAfterInline(s.poolSize, s.idleWorkers, s.threads, s.handled, t, result);
    CellsAfterInline(s.threads, s.stage, s.ready, s.value, s.outcome, s.stale, t, result, o);
    JobsAfterRecord(s.threads, s.stage, s.inbox, s.phase, s.value, s.outcome, s.stale, t, Done(result), Inlined,
                    s.outcome[t := o], s.stale[t := 0]);
  }

  lemma KeepJoinStart(s: State, t: ThreadId)
    requires Inv(s) && Enabled(s, JoinStart(t))
    ensures Inv(Apply(s, JoinStart(t))) && SamePool(s, Apply(s, JoinStart(t)))
  {
    hide SlotsApart, CellsSound, InboxesSound, PhasesSound, Counted, IdleCounted, ErrorsCounted, JoinsSound, MainSound;
    assert s.joined + [] == s.joined;
    if t in s.threads {
      match s.threads[t]
      case Done(result) => JoinedMore(s.threads, s.joined, t, result);
      case Dispatched(_, slot) => StartsPolling(s.threads, s.stage, s.main, t, slot);
    }
  }

  lemma JoinedMore(threads: Threads, joined: seq<(ThreadId, int)>, t: ThreadId, result: int)
    requires JoinsSound(threads, joined) && t in threads && threads[t] == Done(result)
    ensures JoinsSound(threads, joined + [(t, result)])
  {
  }

  lemma StartsPolling(threads: Threads, stage: map<ThreadId, Stage>, main: Main, t: ThreadId, slot: Address)
    requires MainSound(threads, stage, main) && main.Ready? && Unjoined(threads, t) && threads[t].slot == slot
    ensures MainSound(threads, stage, Polling(t, slot))
  {
  }

  lemma KeepJoinPoll(s: State)
    requires Inv(s) && Enabled(s, JoinPoll)
    ensures Inv(Apply(s, JoinPoll)) && SamePool(s, Apply(s, JoinPoll))
  {
  }

  lemma KeepJoinRead(s: State)
    requires Inv(s) && Enabled(s, JoinRead)
    ensures Inv(Apply(s, JoinRead)) && SamePool(s, Apply(s, JoinRead))
  {
    hide SlotsApart, InboxesSound, PhasesSound, JoinsSound, IdleCounted, ErrorsCounted, ToNumber;
    var t, result := s.main.thread, ToNumber(Load(s.value, s.main.slot, 0));
    assert CellSound(s.main.slot, t, s.stage, s.ready, s.value, s.outcome, s.stale);
    ThreadsAfterJoin(s.poolSize, s.nextThreadId, s.threads, s.stage, s.outcome, s.stale, s.main, s.joined, t);
    UnjoinedLess(s.threads, t, result);
    IdleAfterJoin(s.poolSize, s.idleWorkers, s.threads, s.handled, t, result);
    ReleaseApart(s.resultBase, s.nextResultSlot, s.freeResultSlots, s.threads, t, result);
    CellsAfterJoin(s.threads, s.stage, s.ready, s.value, s.outcome, s.stale, t, result);
    JobsAfterRecord(s.threads, s.stage, s.inbox, s.phase, s.value, s.outcome, s.stale, t, Done(result), Joined,
                    s.outcome, s.stale);
  }

  lemma KeepHandleError(s: State)
    requires Inv(s) && Enabled(s, HandleError)
    ensures Inv(Apply(s, HandleError)) && SamePool(s, Apply(s, HandleError))
  {
    hide ThreadsSound, SlotsApart, CellsSound, InboxesSound, PhasesSound, MainSound, JoinsSound,
         IdleCounted, ErrorsCounted;
    IdleAfterError(s.poolSize, s.idleWorkers, s.threads, s.phase, s.errors, s.handled, s.threw);
    ErrorsAfterHandling(s.poolSize, s.phase, s.errors, s.handled, s.threw);
  }

  lemma KeepTake(s: State, w: Worker)
    requires Inv(s) && Enabled(s, Take(w))
    ensures Inv(Apply(s, Take(w))) && SamePool(s, Apply(s, Take(w)))
  {
    hide SlotsApart, PhasesSound, MainSound, JoinsSound, Counted, IdleCounted, ErrorsCounted;
    var job := s.inbox[w][0];
    assert JobAt(s.threads, s.stage, w, job, Queued);
    assert CellSound(job.slot, job.thread, s.stage, s.ready, s.value, s.outcome, s.stale);
    ThreadsStage(s.poolSize, s.nextThreadId, s.threads, s.stage, s.outcome, s.stale, job.thread, InHand);
    MainAfterStep(s.threads, s.stage, s.main, job.thread, InHand);
    ErrorsAfterMove(s.poolSize, s.phase, s.errors, s.handled, s.threw, w, Running(job));
    CellsStage(s.threads, s.stage, s.ready, s.value, s.outcome, s.stale, job.thread, InHand);
    InboxesAfterTake(s.threads, s.stage, s.inbox, w);
    PhasesAfterTake(s.threads, s.stage, s.phase, s.value, s.outcome, s.stale, w, job);
  }

  lemma KeepFinish(s: State, w: Worker, o: Outcome)
    requires Inv(s) && Enabled(s, Finish(w, o))
    ensures Inv(Apply(s, Finish(w, o))) && SamePool(s, Apply(s, Finish(w, o)))
  {
    hide SlotsApart, CellsSound, InboxesSound, MainSound, JoinsSound, Counted, IdleCounted, ErrorsCounted;
    var s', job := Apply(s, Finish(w, o)), s.phase[w].job;
    ThreadsAfterFinish(s.poolSize, s.nextThreadId, s.threads, s.stage, s.outcome, s.stale, job.thread, o);
    if o.Threw? {
      ErrorsAfterThrow(s.poolSize, s.phase, s.errors, s.handled, s.threw, w, s'.phase[w]);
    } else {
      ErrorsAfterMove(s.poolSize, s.phase, s.errors, s.handled, s.threw, w, s'.phase[w]);
    }
    CellsAfterFinish(s.threads, s.stage, s.ready, s.value, s.outcome, s.stale, job.thread, o);
    PhasesAfterMove(s.resultBase, s.nextResultSlot, s.freeResultSlots, s.threads, s.stage, s.phase,
                    s.value, s.outcome, s.stale, w, s'.phase[w], s.value, s'.outcome);
  }

  lemma KeepStoreResult(s: State, w: Worker)
    requires Inv(s) && Enabled(s, StoreResult(w))
    ensures Inv(Apply(s, StoreResult(w))) && SamePool(s, Apply(s, StoreResult(w)))
  {
    hide ThreadsSound, SlotsApart, CellsSound, InboxesSound, MainSound, JoinsSound, Counted, IdleCounted, ErrorsCounted;
    var s', job := Apply(s, StoreResult(w)), s.phase[w].job;
    ErrorsAfterMove(s.poolSize, s.phase, s.errors, s.handled, s.threw, w, s'.phase[w]);
    CellsAfterStore(s.resultBase, s.nextResultSlot, s.freeResultSlots, s.threads, s.stage, s.ready, s.value,
                    s.outcome, s.stale, job.thread, s.phase[w].result);
    PhasesAfterMove(s.resultBase, s.nextResultSlot, s.freeResultSlots, s.threads, s.stage, s.phase,
                    s.value, s.outcome, s.stale, w, s'.phase[w], s'.value, s.outcome);
  }

  lemma KeepPublish(s: State, w: Worker)
    requires Inv(s) && Enabled(s, Publish(w))
    ensures Inv(Apply(s, Publish(w))) && SamePool(s, Apply(s, Publish(w)))
  {
    hide ThreadsSound, SlotsApart, CellsSound, InboxesSound, MainSound, JoinsSound, Counted, IdleCounted, ErrorsCounted;
    var s', job := Apply(s, Publish(w)), s.phase[w].job;
    ThreadsStage(s.poolSize, s.nextThreadId, s.threads, s.stage, s.outcome, s.stale, job.thread, Published);
    MainAfterStep(s.threads, s.stage, s.main, job.thread, Published);
    ErrorsAfterMove(s.poolSize, s.phase, s.errors, s.handled, s.threw, w, s'.phase[w]);
    CellsAfterPublish(s.resultBase, s.nextResultSlot, s.freeResultSlots, s.threads, s.stage, s.ready, s.value,
                      s.outcome, s.stale, job.thread);
    InboxesFrame(s.threads, s.stage, s.threads, s'.stage, s.inbox);
    PhasesAfterPublish(s.threads, s.stage, s.phase, s.value, s.outcome, s.stale, w, s'.phase[w]);
  }

  lemma KeepPostError(s: State, w: Worker)
    requires Inv(s) && Enabled(s, PostError(w))
    ensures Inv(Apply(s, PostError(w))) && SamePool(s, Apply(s, PostError(w)))
  {
    hide ThreadsSound, SlotsApart, CellsSound, InboxesSound, PhasesSound, MainSound, JoinsSound, Counted,
         IdleCounted, ErrorsCounted;
    ErrorsAfterReport(s.poolSize, s.phase, s.errors, s.handled, s.threw, w);
    PhasesAfterReport(s.threads, s.stage, s.phase, s.value, s.outcome, s.stale, w);
  }

  lemma KeepStep(s: State, a: Action)
    requires Inv(s) && Enabled(s, a)
    ensures Inv(Apply(s, a)) && SamePool(s, Apply(s, a))
  {
    hide *;
    match a
    case SpawnStore => KeepSpawnStore(s);
    case SpawnPost => KeepSpawnPost(s);
    case SpawnInline(o) => KeepSpawnInline(s, o);
    case JoinStart(t) => KeepJoinStart(s, t);
    case JoinPoll => KeepJoinPoll(s);
    case JoinRead => KeepJoinRead(s);
    case HandleError => KeepHandleError(s);
    case Take(w) => KeepTake(s, w);
    case Finish(w, o) => KeepFinish(s, w, o);
    case StoreResult(w) => KeepStoreResult(s, w);
    case Publish(w) => KeepPublish(s, w);
    case PostError(w) => KeepPostError(s, w);
  }

  // ---------- whole runs ----------

  function Step(s: State, a: Action): Option<State> {
    if Enabled(s, a) then Some(Apply(s, a)) else None
  }

  /** `s` is the state after some interleaving of main thread and workers. */
  ghost predicate Reachable(poolSize: nat, base: Address, s: State) {
    exists run :: Exec(Step, Init(poolSize, base), run) == Some(s)
  }

  lemma ReachableSound(poolSize: nat, base: Address, s: State)
    requires Reachable(poolSize, base, s)
    ensures Inv(s) && s.poolSize == poolSize && s.resultBase == base
  {
    hide Inv, Enabled, Apply;
    var start := Init(poolSize, base);
    var run :| Exec(Step, start, run) == Some(s);
    InitSound(poolSize, base);
    forall x, a | Inv(x) && SamePool(start, x) && Step(x, a).Some?
      ensures Inv(Step(x, a).value) && SamePool(start, Step(x, a).value)
    {
      KeepStep(x, a);
    }
    ExecKeeps(Step, x => Inv(x) && SamePool(start, x), start, run);
  }

  lemma ReachableStep(poolSize: nat, base: Address, s: State, a: Action)
    requires Reachable(poolSize, base, s) && Enabled(s, a)
    ensures Reachable(poolSize, base, Apply(s, a))
  {
    var run :| Exec(Step, Init(poolSize, base), run) == Some(s);
    ExecAppend(Step, Init(poolSize, base), run, a);
  }

  // ---------- what the invariant says of single fields ----------

  lemma SlotsInOrder(s: State)
    requires Inv(s)
    ensures SlotsApart(s.resultBase, s.nextResultSlot, s.freeResultSlots, s.threads)
  {
  }

  lemma DoneIsExpected(s: State, t: ThreadId)
    requires Inv(s) && t in s.threads && s.threads[t].Done?
    ensures t in s.outcome && t in s.stale && t in s.stage
    ensures s.threads[t].result == Owed(s.stage, s.outcome, s.stale, t)
  {
  }

  /** The slot that a join reads can be released once the record is closed. */
  lemma ReadingIsUnjoined(s: State)
    requires Inv(s) && s.main.Reading?
    ensures var Reading(t, slot) := s.main;
            && Unjoined(s.threads, t) && s.threads[t].slot == slot
            && Allocated(s.resultBase, s.nextResultSlot, slot) && slot !in s.freeResultSlots
            && forall result ::
                 SlotsApart(s.resultBase, s.nextResultSlot, s.freeResultSlots, s.threads[t := Done(result)])
    ensures var Reading(t, slot) := s.main;
            forall u :: u != t && Unjoined(s.threads, u) ==> s.threads[u].slot != slot
  {
  }

  // ---------- where a stale value comes from ----------

  /** A cell holds the result of the thread that stored last into it, and a thread that is dispatched with it
      inherits that, or 0 if no thread has stored there. */
  ghost predicate Traced(s: State) {
    && CellsTraced(s.value, s.lastStorer, s.outcome) && StaleTraced(s.stale, s.staleFrom, s.outcome)
    && InlinedInheritNothing(s.stage, s.staleFrom)
  }

  ghost predicate InlinedInheritNothing(stage: map<ThreadId, Stage>, staleFrom: map<ThreadId, Option<ThreadId>>) {
    forall t :: t in stage && stage[t].Inlined? ==> t in staleFrom && staleFrom[t].None?
  }

  ghost predicate CellsTraced(value: map<Address, Int64>, lastStorer: map<Address, ThreadId>,
                              outcome: map<ThreadId, Outcome>)
  {
    && value.Keys == lastStorer.Keys
    && forall a :: a in value ==> HasResultOf(outcome, lastStorer[a], value[a])
  }

  ghost predicate StaleTraced(stale: map<ThreadId, Int64>, staleFrom: map<ThreadId, Option<ThreadId>>,
                              outcome: map<ThreadId, Outcome>)
  {
    && stale.Keys == staleFrom.Keys
    && forall t :: t in stale ==>
         match staleFrom[t]
         case None => stale[t] == 0
         case Some(u) => HasResultOf(outcome, u, stale[t])
  }

  ghost predicate HasResultOf(outcome: map<ThreadId, Outcome>, u: ThreadId, v: Int64) {
    u in outcome && outcome[u] == Returned(v)
  }

  lemma StoresOwnResult(s: State, w: Worker)
    requires Inv(s) && Enabled(s, StoreResult(w))
    ensures HasResultOf(s.outcome, s.phase[w].job.thread, s.phase[w].result)
  {
  }

  lemma FinishesFirst(s: State, w: Worker)
    requires Inv(s) && w in s.phase && s.phase[w].Running?
    ensures s.phase[w].job.thread !in s.outcome
  {
  }

  lemma NewThreadIsNew(s: State)
    requires Inv(s)
    ensures s.nextThreadId !in s.stale && s.nextThreadId !in s.outcome
  {
  }

  lemma TracedWithOutcome(s: State, t: ThreadId, o: Outcome)
    requires Traced(s) && t !in s.outcome
    ensures CellsTraced(s.value, s.lastStorer, s.outcome[t := o])
    ensures StaleTraced(s.stale, s.staleFrom, s.outcome[t := o])
  {
  }

  lemma StaleOfCell(s: State, t: ThreadId, slot: Address)
    requires Traced(s)
    ensures StaleTraced(s.stale[t := Load(s.value, slot, 0)],
                        s.staleFrom[t := if slot in s.lastStorer then Some(s.lastStorer[slot]) else None], s.outcome)
  {
  }

  lemma StaleOfInline(s: State, t: ThreadId, outcome: map<ThreadId, Outcome>)
    requires StaleTraced(s.stale, s.staleFrom, outcome)
    ensures StaleTraced(s.stale[t := 0], s.staleFrom[t := None], outcome)
  {
  }

  lemma KeepTraced(s: State, a: Action)
    requires Inv(s) && Traced(s) && Enabled(s, a)
    ensures Traced(Apply(s, a))
  {
    hide *;
    match a
    case StoreResult(w) => KeepTracedStore(s, w);
    case Finish(w, o) => KeepTracedFinish(s, w, o);
    case SpawnStore => KeepTracedSpawn(s);
    case SpawnInline(o) => KeepTracedInline(s, o);
    case _ => KeepTracedOther(s, a);
  }

  lemma KeepTracedOther(s: State, a: Action)
    requires Traced(s) && Enabled(s, a) && !a.StoreResult? && !a.Finish? && !a.SpawnStore? && !a.SpawnInline?
    ensures Traced(Apply(s, a))
  {
    hide Traced;
    match a
    case SpawnPost => SameTraced(s, Apply(s, a));
    case JoinStart(_) => SameTraced(s, Apply(s, a));
    case JoinPoll => SameTraced(s, Apply(s, a));
    case JoinRead => SameTraced(s, Apply(s, a));
    case HandleError => SameTraced(s, Apply(s, a));
    case Take(_) => SameTraced(s, Apply(s, a));
    case Publish(_) => SameTraced(s, Apply(s, a));
    case PostError(_) => SameTraced(s, Apply(s, a));
  }

  lemma SameTraced(s: State, s': State)
    requires Traced(s) && s'.value == s.value && s'.lastStorer == s.lastStorer && s'.outcome == s.outcome
    requires s'.stale == s.stale && s'.staleFrom == s.staleFrom
    requires forall t :: t in s'.stage && s'.stage[t].Inlined? ==> t in s.stage && s.stage[t].Inlined?
    ensures Traced(s')
  {
  }

  lemma KeepTracedFinish(s: State, w: Worker, o: Outcome)
    requires Inv(s) && Traced(s) && Enabled(s, Finish(w, o))
    ensures Traced(Apply(s, Finish(w, o)))
  {
    hide Inv, CellsTraced, StaleTraced;
    FinishesFirst(s, w);
    TracedWithOutcome(s, s.phase[w].job.thread, o);
  }

  lemma KeepTracedSpawn(s: State)
    requires Traced(s) && Enabled(s, SpawnStore)
    ensures Traced(Apply(s, SpawnStore))
  {
    hide CellsTraced, StaleTraced, Load, AllocResultSlot;
    var slot := AllocResultSlot(s.resultBase, s.freeResultSlots, s.nextResultSlot).0;
    StaleOfCell(s, s.nextThreadId, slot);
  }

  lemma KeepTracedInline(s: State, o: Outcome)
    requires Inv(s) && Traced(s) && Enabled(s, SpawnInline(o))
    ensures Traced(Apply(s, SpawnInline(o)))
  {
    hide Inv, CellsTraced, StaleTraced;
    NewThreadIsNew(s);
    TracedWithOutcome(s, s.nextThreadId, o);
    StaleOfInline(s, s.nextThreadId, s.outcome[s.nextThreadId := o]);
  }

  lemma KeepTracedStore(s: State, w: Worker)
    requires Inv(s) && Traced(s) && Enabled(s, StoreResult(w))
    ensures Traced(Apply(s, StoreResult(w)))
  {
    hide Inv;
    StoresOwnResult(s, w);
  }

  lemma ReachableTraced(poolSize: nat, base: Address, s: State)
    requires Reachable(poolSize, base, s)
    ensures Traced(s)
  {
    hide Inv, Enabled, Apply;
    var start := Init(poolSize, base);
    var run :| Exec(Step, start, run) == Some(s);
    InitSound(poolSize, base);
    forall x, a | Inv(x) && Traced(x) && Step(x, a).Some? ensures Inv(Step(x, a).value) && Traced(Step(x, a).value) {
      KeepStep(x, a);
      KeepTraced(x, a);
    }
    hide Traced;
    ExecKeeps(Step, x => Inv(x) && Traced(x), start, run);
  }

  // ---------- what every run promises ----------

  /** Every join has answered with the result of the joined thread's own closure or, if that closure
      threw, with the result of the thread that had stored last into its slot when it was dispatched, or 0 if
      none had. What comes out of a slot has become a number on the way. */
  lemma JoinAnswersOwnResult(poolSize: nat, base: Address, s: State, i: nat)
    requires Reachable(poolSize, base, s) && i < |s.joined|
    ensures var (t, answer) := s.joined[i];
            && t in s.outcome && t in s.staleFrom && t in s.stage && Ended(s.stage[t])
            && match s.outcome[t]
               case Returned(v) => answer == if s.stage[t].Inlined? then v else ToNumber(v)
               case Threw =>
                 match s.staleFrom[t]
                 case None => answer == 0
                 case Some(u) => exists v: Int64 :: HasResultOf(s.outcome, u, v) && answer == ToNumber(v)
  {
    hide ToNumber, Reachable;
    ReachableSound(poolSize, base, s);
    ReachableTraced(poolSize, base, s);
    JoinedIsOwed(s, i);
    ZeroOnlyOfZero(0);
    var t := s.joined[i].0;
    assert s.outcome[t].Threw? && s.staleFrom[t].Some? ==> HasResultOf(s.outcome, s.staleFrom[t].value, s.stale[t]);
  }

  /** A returned result is joined as it is exactly when the closure ran on the main thread or the result is a
      number of at most 53 significant bits. */
  lemma JoinedUnchangedIff(poolSize: nat, base: Address, s: State, i: nat)
    requires Reachable(poolSize, base, s) && i < |s.joined|
    ensures var (t, answer) := s.joined[i];
            && t in s.outcome && t in s.stage
            && (s.outcome[t].Returned? ==>
                  (answer == s.outcome[t].result <==> s.stage[t].Inlined? || IsDouble(s.outcome[t].result)))
  {
    hide ToNumber, Reachable, IsDouble;
    var t := s.joined[i].0;
    JoinAnswersOwnResult(poolSize, base, s, i);
    if s.outcome[t].Returned? {
      ToNumberExactIff(s.outcome[t].result);
    }
  }

  /** A throwing closure is joined with the 0 that the worker means it to have exactly when its slot held none
      or held a 0. */
  lemma ThrowAnswersZeroIff(poolSize: nat, base: Address, s: State, i: nat)
    requires Reachable(poolSize, base, s) && i < |s.joined|
    ensures var (t, answer) := s.joined[i];
            && t in s.outcome && t in s.staleFrom
            && (s.outcome[t].Threw? ==>
                  (answer == 0 <==>
                   s.staleFrom[t].None? || HasResultOf(s.outcome, s.staleFrom[t].value, 0)))
  {
    hide ToNumber, Reachable;
    var (t, answer) := s.joined[i];
    JoinAnswersOwnResult(poolSize, base, s, i);
    if s.outcome[t].Threw? && s.staleFrom[t].Some? {
      var v: Int64 :| HasResultOf(s.outcome, s.staleFrom[t].value, v) && answer == ToNumber(v);
      ZeroOnlyOfZero(v);
    }
  }

  lemma ZeroOnlyOfZero(v: int)
    ensures ToNumber(v) == 0 <==> v == 0
  {
    hide ToNumber;
    FirstInexact();
    if v < -TWO_53 || v > TWO_53 {
      var d := if v < 0 then -TWO_53 else TWO_53;
      ToNumberExactIff(d);
      ToNumberIsNearest(v, d);
    }
  }

  lemma JoinedIsOwed(s: State, i: nat)
    requires Inv(s) && i < |s.joined|
    ensures var (t, answer) := s.joined[i];
            && t in s.outcome && t in s.stale && t in s.stage && Ended(s.stage[t])
            && answer == Owed(s.stage, s.outcome, s.stale, t)
  {
  }

  /** No two unjoined threads share a slot, and every slot in use lies in the reserved region as long as
      workers and closures that threw number no more than the region has slots. */
  lemma SlotsNeverShared(poolSize: nat, base: Address, s: State, t: ThreadId)
    requires Reachable(poolSize, base, s) && Unjoined(s.threads, t)
    ensures forall u :: u != t && Unjoined(s.threads, u) ==> s.threads[u].slot != s.threads[t].slot
    ensures s.threads[t].slot !in s.freeResultSlots
    ensures (s.threads[t].slot - base) % RESULT_SLOT_BYTES == 0
    ensures poolSize + |s.handled| <= RESULT_POOL_BYTES / RESULT_SLOT_BYTES ==>
      base <= s.threads[t].slot && s.threads[t].slot + RESULT_SLOT_BYTES <= base + RESULT_POOL_BYTES
  {
    ReachableSound(poolSize, base, s);
  }

  /** Conservation of the pool: handled error messages are what it gains beyond its size, and there are
      no more of them than closures that threw. A worker is idle or serving as often more than once as its own
      error messages have been handled. */
  lemma PoolConserved(poolSize: nat, base: Address, s: State)
    requires Reachable(poolSize, base, s)
    ensures |s.idleWorkers| + |UnjoinedThreads(s.threads)| == poolSize + |s.handled|
    ensures |s.freeResultSlots| + |UnjoinedThreads(s.threads)| == s.nextResultSlot <= poolSize + |s.handled|
    ensures s.handled <= s.threw
    ensures forall w :: 0 <= w < poolSize ==>
      multiset(s.idleWorkers)[w] + |ServedBy(s.threads, w)| == 1 + s.handled[w]
  {
    ReachableSound(poolSize, base, s);
    forall w ensures s.handled[w] <= s.threw[w] {
    }
  }

  /** As long as no closure has thrown, every worker is either idle, once, or serving one unjoined thread,
      and no more slots were ever made than there are workers. */
  lemma PoolWithoutThrows(poolSize: nat, base: Address, s: State)
    requires Reachable(poolSize, base, s) && s.threw == multiset{}
    ensures |s.idleWorkers| + |UnjoinedThreads(s.threads)| == poolSize && s.nextResultSlot <= poolSize
    ensures forall w :: 0 <= w < poolSize ==> multiset(s.idleWorkers)[w] + |ServedBy(s.threads, w)| == 1
  {
    ReachableSound(poolSize, base, s);
    PoolConserved(poolSize, base, s);
    assert s.handled == multiset{};
  }

  function IsFinished(s: State, t: ThreadId): int {
    if t !in s.threads then 0
    else if s.threads[t].Done? then 1
    else if Load(s.ready, s.threads[t].slot, 0) == 1 then 1 else 0
  }

  /** `isFinished` says yes exactly for the threads whose result a join would return without waiting. */
  lemma FinishedIffJoinReady(poolSize: nat, base: Address, s: State, t: ThreadId)
    requires Reachable(poolSize, base, s) && t in s.threads
    ensures t in s.stage && (IsFinished(s, t) == 1 <==> s.stage[t].Published? || Ended(s.stage[t]))
    ensures IsFinished(s, t) == 1 ==> t in s.outcome
    ensures s.main == Polling(t, if Unjoined(s.threads, t) then s.threads[t].slot else 0) ==>
      (IsFinished(s, t) == 1 <==> Apply(s, JoinPoll).main.Reading?)
  {
    ReachableSound(poolSize, base, s);
    if Unjoined(s.threads, t) {
      assert CellSound(s.threads[t].slot, t, s.stage, s.ready, s.value, s.outcome, s.stale);
    }
  }

  /** A join that still waits never waits for nothing: the worker of its thread can take a step. */
  lemma JoinNeverStuck(poolSize: nat, base: Address, s: State) returns (a: Action)
    requires Reachable(poolSize, base, s) && s.main.Polling? && Load(s.ready, s.main.slot, 0) == 0
    ensures Enabled(s, a) && Unjoined(s.threads, s.main.thread)
    ensures var w := s.threads[s.main.thread].worker;
            a in {Take(w), Finish(w, Threw), StoreResult(w), Publish(w), PostError(w)}
  {
    ReachableSound(poolSize, base, s);
    var t := s.main.thread;
    var w := s.threads[t].worker;
    assert CellSound(s.main.slot, t, s.stage, s.ready, s.value, s.outcome, s.stale);
    assert s.stage[t].Queued? || s.stage[t].InHand?;
    match s.phase[w]
    case Resting => a := Take(w);
    case Running(_) => a := Finish(w, Threw);
    case HasResult(_, _) => a := StoreResult(w);
    case Stored(_) => a := Publish(w);
    case Caught(_) => a := Publish(w);
    case MustReport => a := PostError(w);
  }

  // ---------- closures that throw ----------

  lemma InitReachable(poolSize: nat, base: Address)
    ensures Reachable(poolSize, base, Init(poolSize, base))
  {
    assert Exec(Step, Init(poolSize, base), []) == Some(Init(poolSize, base));
  }

  lemma Do(s: State, a: Action) returns (s': State)
    requires Reachable(1, 0, s) && Enabled(s, a)
    ensures Reachable(1, 0, s') && s' == Apply(s, a)
  {
    s' := Apply(s, a);
    ReachableStep(1, 0, s, a);
  }

  /** Spawns the next thread on the only worker and lets its closure end. */
  lemma SpawnAndFinish(s0: State, o: Outcome) returns (s: State)
    requires Reachable(1, 0, s0) && s0.main.Ready? && s0.idleWorkers == [0]
    requires 0 in s0.phase && s0.phase[0].Resting? && 0 in s0.inbox && s0.inbox[0] == []
    requires AllocResultSlot(s0.resultBase, s0.freeResultSlots, s0.nextResultSlot) == (0, [], 1)
    ensures var t := s0.nextThreadId;
            && Reachable(1, 0, s) && s.main.Ready? && s.nextThreadId == t + 1 && s.idleWorkers == []
            && s.threads == s0.threads[t := Dispatched(0, 0)]
            && 0 in s.phase && s.phase[0] == (if o.Returned? then HasResult(Job(t, 0), o.result) else Caught(Job(t, 0)))
            && 0 in s.inbox && s.inbox[0] == []
            && s.freeResultSlots == [] && s.nextResultSlot == 1 && s.errors == s0.errors
            && s.value == s0.value && s.outcome == s0.outcome[t := o] && s.joined == s0.joined
  {
    hide Reachable;
    s := Do(s0, SpawnStore);
    s := Do(s, SpawnPost);
    s := Do(s, Take(0));
    s := Do(s, Finish(0, o));
  }

  /** Lets the worker publish thread `t` and joins it. */
  lemma PublishAndJoin(s0: State, t: ThreadId) returns (s: State)
    requires Reachable(1, 0, s0) && s0.main.Ready? && t in s0.threads && s0.threads[t] == Dispatched(0, 0)
    requires 0 in s0.phase && (s0.phase[0] == Stored(Job(t, 0)) || s0.phase[0] == Caught(Job(t, 0)))
    ensures var held := Load(s0.value, 0, 0);
            && Reachable(1, 0, s) && s.main.Ready? && s.idleWorkers == s0.idleWorkers + [0]
            && s.threads == s0.threads[t := Done(ToNumber(held))] && s.joined == s0.joined + [(t, ToNumber(held))]
            && 0 in s.phase && s.phase[0] == (if s0.phase[0].Stored? then Resting else MustReport)
            && s.freeResultSlots == s0.freeResultSlots + [0] && s.nextResultSlot == s0.nextResultSlot
            && s.inbox == s0.inbox && s.errors == s0.errors
            && s.value == s0.value && s.outcome == s0.outcome && s.nextThreadId == s0.nextThreadId
  {
    hide Reachable, AllocResultSlot, ToNumber;
    s := Do(s0, Publish(0));
    s := Do(s, JoinStart(t));
    s := Do(s, JoinPoll);
    s := Do(s, JoinRead);
  }

  /** The first thread on the only worker returns `v` and is joined; its slot still holds `v`. */
  lemma ReturnAndJoin(v: Int64) returns (s: State)
    ensures Reachable(1, 0, s) && s.main.Ready? && s.idleWorkers == [0] && s.nextThreadId == 3
    ensures 0 in s.phase && s.phase[0].Resting? && 0 in s.inbox && s.inbox[0] == []
    ensures AllocResultSlot(s.resultBase, s.freeResultSlots, s.nextResultSlot) == (0, [], 1)
    ensures Load(s.value, 0, 0) == v && s.joined == [(2, ToNumber(v))] && s.outcome == map[2 := Returned(v)]
  {
    hide Reachable, ToNumber;
    InitReachable(1, 0);
    s := SpawnAndFinish(Init(1, 0), Returned(v));
    s := Do(s, StoreResult(0));
    s := PublishAndJoin(s, 2);
  }

  /** A closure that throws leaves its slot as it was. After a thread that returned `v`, a throwing one in
      the recycled slot is joined with `v`, not with 0. */
  lemma ThrowJoinsStaleResult(v: Int64) returns (s: State)
    ensures Reachable(1, 0, s) && s.joined == [(2, ToNumber(v)), (3, ToNumber(v))]
    ensures s.outcome == map[2 := Returned(v), 3 := Threw]
  {
    hide Reachable, AllocResultSlot, ToNumber;
    s := ReturnAndJoin(v);
    s := SpawnAndFinish(s, Threw);
    s := PublishAndJoin(s, 3);
  }

  /** A closure returns 2^53 + 1, and the join answers 2^53. */
  lemma LargeOddResultChanges() returns (s: State)
    ensures Reachable(1, 0, s) && s.joined == [(2, TWO_53)] && s.outcome == map[2 := Returned(TWO_53 + 1)]
  {
    hide ToNumber;
    FirstInexact();
    s := ReturnAndJoin(TWO_53 + 1);
  }

  /** A closure that throws also returns its worker twice: by the join and by the error message. */
  lemma ThrowReturnsWorkerTwice() returns (s: State)
    ensures Reachable(1, 0, s) && s.idleWorkers == [0, 0] && UnjoinedThreads(s.threads) == {}
  {
    InitReachable(1, 0);
    s := SpawnAndFinish(Init(1, 0), Threw);
    s := PublishAndJoin(s, 2);
    s := Do(s, PostError(0));
    s := Do(s, HandleError);
  }
}
