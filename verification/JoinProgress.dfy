/** Why joins end: every step of the worker that serves a thread brings its result nearer, and nothing that
    anyone else does takes it further away. */
module JoinProgress {
  import opened Numbers
  import opened Runs
  import opened ThreadPool
  import opened Wrappers

  /** How many steps a worker still has to take with what it is at. */
  function StepsLeft(p: Phase): nat {
    match p
    case Running(_) => 4
    case HasResult(_, _) => 3
    case Stored(_) => 2
    case Caught(_) => 2
    case MustReport => 1
    case Resting => 0
  }

  function Place(jobs: seq<Job>, job: Job): (i: nat)
    ensures i <= |jobs|
    ensures i < |jobs| ==> jobs[i] == job
    ensures job in jobs ==> i < |jobs|
  {
    if jobs == [] || jobs[0] == job then 0 else 1 + Place(jobs[1..], job)
  }

  /** `t` is under way to or at its worker, and its result is not published. */
  predicate Waiting(s: State, t: ThreadId) {
    && t in s.stage && (s.stage[t].Queued? || s.stage[t].InHand?) && Unjoined(s.threads, t)
    && s.threads[t].worker in s.phase && s.threads[t].worker in s.inbox
  }

  predicate Settled(s: State, t: ThreadId) {
    t in s.stage && (s.stage[t].Published? || s.stage[t].Joined?)
  }

  /** What the worker still has to do before the result of `t` is published, five steps for each message up to
      that of `t`. */
  function Rank(s: State, t: ThreadId): nat
    requires Waiting(s, t)
  {
    var w := s.threads[t].worker;
    StepsLeft(s.phase[w]) +
    if s.stage[t].Queued? then 5 * (Place(s.inbox[w], Job(t, s.threads[t].slot)) + 1) else 0
  }

  /** The worker whose step an action is. */
  function Actor(a: Action): Option<Worker> {
    match a
    case Take(w) => Some(w)
    case Finish(w, _) => Some(w)
    case StoreResult(w) => Some(w)
    case Publish(w) => Some(w)
    case PostError(w) => Some(w)
    case _ => None
  }

  // ---------- what the invariant gives ----------

  lemma WaitingFacts(s: State, t: ThreadId)
    requires Inv(s) && Waiting(s, t)
    ensures var w := s.threads[t].worker;
            && (s.stage[t].InHand? ==> HasJob(s.phase[w]) && s.phase[w].job.thread == t)
            && (s.stage[t].Queued? ==> Job(t, s.threads[t].slot) in s.inbox[w])
            && t < s.nextThreadId
  {
  }

  lemma HandFacts(s: State, w: Worker)
    requires Inv(s) && w in s.phase && HasJob(s.phase[w])
    ensures JobAt(s.threads, s.stage, w, s.phase[w].job, InHand)
  {
  }

  lemma InboxFacts(s: State, w: Worker)
    requires Inv(s) && w in s.inbox && s.inbox[w] != []
    ensures JobAt(s.threads, s.stage, w, s.inbox[w][0], Queued)
  {
  }

  lemma MainFacts(s: State)
    requires Inv(s)
    ensures s.main.Dispatching? ==> s.main.thread in s.stage && s.stage[s.main.thread].Posting?
    ensures s.main.Reading? ==> s.main.thread in s.stage && s.stage[s.main.thread].Published?
    ensures s.nextThreadId !in s.stage
  {
  }

  lemma PlaceKept(jobs: seq<Job>, more: seq<Job>, job: Job)
    requires job in jobs
    ensures Place(jobs + more, job) == Place(jobs, job)
    decreases |jobs|
  {
    if jobs[0] != job {
      assert (jobs + more)[1..] == jobs[1..] + more;
      PlaceKept(jobs[1..], more, job);
    }
  }

  // ---------- one step ----------

  /** A step that is another's leaves the rank alone. */
  ghost predicate Unmoved(s: State, s': State, t: ThreadId)
    requires Waiting(s, t)
  {
    Waiting(s', t) && s'.threads[t] == s.threads[t] && Rank(s', t) == Rank(s, t)
  }

  /** A step of the serving worker lowers it, or publishes the result. */
  ghost predicate Nearer(s: State, s': State, t: ThreadId)
    requires Waiting(s, t)
  {
    Settled(s', t) || (Waiting(s', t) && s'.threads[t] == s.threads[t] && Rank(s', t) < Rank(s, t))
  }

  lemma OwnTake(s: State, t: ThreadId)
    requires Inv(s) && Waiting(s, t) && Enabled(s, Take(s.threads[t].worker))
    ensures Nearer(s, Apply(s, Take(s.threads[t].worker)), t)
  {
    hide Inv;
    var w := s.threads[t].worker;
    WaitingFacts(s, t);
    InboxFacts(s, w);
  }

  lemma OwnFinish(s: State, t: ThreadId, o: Outcome)
    requires Inv(s) && Waiting(s, t) && Enabled(s, Finish(s.threads[t].worker, o))
    ensures Nearer(s, Apply(s, Finish(s.threads[t].worker, o)), t)
  {
    hide Inv, Place;
    WaitingFacts(s, t);
  }

  lemma OwnStore(s: State, t: ThreadId)
    requires Inv(s) && Waiting(s, t) && Enabled(s, StoreResult(s.threads[t].worker))
    ensures Nearer(s, Apply(s, StoreResult(s.threads[t].worker)), t)
  {
    hide Inv, Place;
    WaitingFacts(s, t);
  }

  lemma OwnReport(s: State, t: ThreadId)
    requires Inv(s) && Waiting(s, t) && Enabled(s, PostError(s.threads[t].worker))
    ensures Nearer(s, Apply(s, PostError(s.threads[t].worker)), t)
  {
    hide Inv, Place;
    WaitingFacts(s, t);
  }

  lemma OwnPublish(s: State, t: ThreadId)
    requires Inv(s) && Waiting(s, t) && Enabled(s, Publish(s.threads[t].worker))
    ensures Nearer(s, Apply(s, Publish(s.threads[t].worker)), t)
  {
    hide Inv;
    WaitingFacts(s, t);
    HandFacts(s, s.threads[t].worker);
  }

  lemma OtherTake(s: State, t: ThreadId, w: Worker)
    requires Inv(s) && Waiting(s, t) && Enabled(s, Take(w)) && w != s.threads[t].worker
    ensures Unmoved(s, Apply(s, Take(w)), t)
  {
    hide Inv, Place, StepsLeft;
    InboxFacts(s, w);
  }

  lemma OtherPublish(s: State, t: ThreadId, w: Worker)
    requires Inv(s) && Waiting(s, t) && Enabled(s, Publish(w)) && w != s.threads[t].worker
    ensures Unmoved(s, Apply(s, Publish(w)), t)
  {
    hide Inv, Place, StepsLeft;
    HandFacts(s, w);
  }

  lemma OtherFinish(s: State, t: ThreadId, w: Worker, o: Outcome)
    requires Waiting(s, t) && Enabled(s, Finish(w, o)) && w != s.threads[t].worker
    ensures Unmoved(s, Apply(s, Finish(w, o)), t)
  {
    hide Place, StepsLeft;
  }

  lemma OtherStore(s: State, t: ThreadId, w: Worker)
    requires Waiting(s, t) && Enabled(s, StoreResult(w)) && w != s.threads[t].worker
    ensures Unmoved(s, Apply(s, StoreResult(w)), t)
  {
    hide Place, StepsLeft;
  }

  lemma OtherReport(s: State, t: ThreadId, w: Worker)
    requires Waiting(s, t) && Enabled(s, PostError(w)) && w != s.threads[t].worker
    ensures Unmoved(s, Apply(s, PostError(w)), t)
  {
    hide Place, StepsLeft;
  }

  lemma OtherWorker(s: State, t: ThreadId, a: Action)
    requires Inv(s) && Waiting(s, t) && Enabled(s, a) && Actor(a).Some? && Actor(a) != Some(s.threads[t].worker)
    ensures Unmoved(s, Apply(s, a), t)
  {
    hide Inv, Enabled, Apply, Unmoved;
    match a
    case Take(w) => OtherTake(s, t, w);
    case Publish(w) => OtherPublish(s, t, w);
    case Finish(w, o) => OtherFinish(s, t, w, o);
    case StoreResult(w) => OtherStore(s, t, w);
    case PostError(w) => OtherReport(s, t, w);
  }

  lemma MainPosts(s: State, t: ThreadId)
    requires Inv(s) && Waiting(s, t) && Enabled(s, SpawnPost)
    ensures Unmoved(s, Apply(s, SpawnPost), t)
  {
    hide Inv;
    MainFacts(s);
    WaitingFacts(s, t);
    var w, job := s.threads[t].worker, Job(t, s.threads[t].slot);
    if s.stage[t].Queued? {
      PlaceKept(s.inbox[w], [Job(s.main.thread, s.main.slot)], job);
    }
  }

  lemma MainSpawns(s: State, t: ThreadId, a: Action)
    requires Inv(s) && Waiting(s, t) && Enabled(s, a) && (a.SpawnStore? || a.SpawnInline?)
    ensures Unmoved(s, Apply(s, a), t)
  {
    hide Inv, AllocResultSlot, Load, Place, StepsLeft;
    MainFacts(s);
  }

  lemma MainReads(s: State, t: ThreadId)
    requires Inv(s) && Waiting(s, t) && Enabled(s, JoinRead)
    ensures Unmoved(s, Apply(s, JoinRead), t)
  {
    hide Inv, Load, Place, StepsLeft, ToNumber;
    MainFacts(s);
  }

  lemma MainLooks(s: State, t: ThreadId, a: Action)
    requires Waiting(s, t) && Enabled(s, a) && (a.JoinStart? || a.JoinPoll? || a.HandleError?)
    ensures Unmoved(s, Apply(s, a), t)
  {
    hide Load, Place, StepsLeft;
  }

  lemma MainMoves(s: State, t: ThreadId, a: Action)
    requires Inv(s) && Waiting(s, t) && Enabled(s, a) && Actor(a).None? && !a.SpawnPost?
    ensures Unmoved(s, Apply(s, a), t)
  {
    hide Inv, Waiting, Enabled, Apply, Unmoved;
    if a.SpawnStore? || a.SpawnInline? {
      MainSpawns(s, t, a);
    } else if a.JoinRead? {
      MainReads(s, t);
    } else {
      MainLooks(s, t, a);
    }
  }

  /** Every step of the serving worker lowers the rank of a waiting thread or publishes its result, and no
      other step changes it. */
  lemma StepLowersRank(s: State, t: ThreadId, a: Action)
    requires Inv(s) && Waiting(s, t) && Enabled(s, a)
    ensures if Actor(a) == Some(s.threads[t].worker) then Nearer(s, Apply(s, a), t) else Unmoved(s, Apply(s, a), t)
  {
    hide Inv, Enabled, Apply, Nearer, Unmoved;
    if Actor(a) == Some(s.threads[t].worker) {
      match a
      case Take(_) => OwnTake(s, t);
      case Publish(_) => OwnPublish(s, t);
      case Finish(_, o) => OwnFinish(s, t, o);
      case StoreResult(_) => OwnStore(s, t);
      case PostError(_) => OwnReport(s, t);
    } else if Actor(a).Some? {
      OtherWorker(s, t, a);
    } else if a.SpawnPost? {
      MainPosts(s, t);
    } else {
      MainMoves(s, t, a);
    }
  }

  lemma SettledKeptByMain(s: State, t: ThreadId, a: Action)
    requires Inv(s) && Settled(s, t) && Enabled(s, a) && Actor(a).None?
    ensures Settled(Apply(s, a), t)
  {
    hide Inv, AllocResultSlot, Load, ToNumber;
    MainFacts(s);
    match a
    case SpawnStore =>
    case SpawnPost =>
    case SpawnInline(_) =>
    case JoinStart(_) =>
    case JoinPoll =>
    case JoinRead =>
    case HandleError =>
  }

  lemma SettledKeptByTake(s: State, t: ThreadId, w: Worker)
    requires Inv(s) && Settled(s, t) && Enabled(s, Take(w))
    ensures Settled(Apply(s, Take(w)), t)
  {
    hide Inv;
    InboxFacts(s, w);
  }

  lemma SettledKeptByWorker(s: State, t: ThreadId, a: Action)
    requires Settled(s, t) && Enabled(s, a) && Actor(a).Some? && !a.Take?
    ensures Settled(Apply(s, a), t)
  {
    match a
    case Finish(_, _) =>
    case StoreResult(_) =>
    case Publish(_) =>
    case PostError(_) =>
  }

  lemma SettledKept(s: State, t: ThreadId, a: Action)
    requires Inv(s) && Settled(s, t) && Enabled(s, a)
    ensures Settled(Apply(s, a), t)
  {
    hide Inv, Settled, Enabled, Apply;
    if Actor(a).None? {
      SettledKeptByMain(s, t, a);
    } else if a.Take? {
      SettledKeptByTake(s, t, a.worker);
    } else {
      SettledKeptByWorker(s, t, a);
    }
  }

  // ---------- whole runs ----------

  function StepsOf(run: seq<Action>, w: Worker): nat {
    if run == [] then 0 else (if Actor(run[0]) == Some(w) then 1 else 0) + StepsOf(run[1..], w)
  }

  lemma {:induction false} SettledStays(s: State, t: ThreadId, run: seq<Action>)
    requires Inv(s) && Settled(s, t) && Exec(Step, s, run).Some?
    ensures Settled(Exec(Step, s, run).value, t)
    decreases |run|
  {
    if run != [] {
      hide Inv, Enabled, Apply, Settled;
      KeepStep(s, run[0]);
      SettledKept(s, t, run[0]);
      SettledStays(Apply(s, run[0]), t, run[1..]);
    }
  }

  lemma RankPositive(s: State, t: ThreadId)
    requires Inv(s) && Waiting(s, t)
    ensures Rank(s, t) > 0
  {
    WaitingFacts(s, t);
  }

  /** In every run, whatever the others do in between, a waiting thread is settled once its worker has taken
      as many steps as its rank says: joins end once closures do. */
  lemma {:induction false} WorkerStepsSettle(s: State, t: ThreadId, run: seq<Action>)
    requires Inv(s) && Waiting(s, t) && Exec(Step, s, run).Some?
    requires StepsOf(run, s.threads[t].worker) >= Rank(s, t)
    ensures Settled(Exec(Step, s, run).value, t)
    decreases |run|
  {
    hide Inv, Enabled, Apply, Settled, Waiting, Rank;
    RankPositive(s, t);
    if run != [] {
      var s' := Apply(s, run[0]);
      KeepStep(s, run[0]);
      StepLowersRank(s, t, run[0]);
      if Settled(s', t) {
        SettledStays(s', t, run[1..]);
      } else {
        WorkerStepsSettle(s', t, run[1..]);
      }
    }
  }

  /** A thread that a join waits for is waiting in this sense, or its result can be read. */
  lemma PolledIsWaiting(poolSize: nat, base: Address, s: State)
    requires Reachable(poolSize, base, s) && s.main.Polling?
    ensures Inv(s) && (Waiting(s, s.main.thread) || Settled(s, s.main.thread))
  {
    ReachableSound(poolSize, base, s);
  }
}
