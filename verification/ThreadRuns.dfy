/** What the threads of a run come to, said of the actions of the run: which thread ends how, what joins answer
    for it, and in which order joins are answered. */
module ThreadRuns {
  import opened Numbers
  import opened Runs
  import opened ThreadPool
  import opened Wrappers

  /** The state before the action `i` of a run. */
  function StateAt(poolSize: nat, base: Address, run: seq<Action>, i: nat): Option<State>
    requires i <= |run|
  {
    Exec(Step, Init(poolSize, base), run[..i])
  }

  /** The action `i` creates thread `t` and runs its closure on the main thread, and it ends as `o`. */
  ghost predicate EndsInline(poolSize: nat, base: Address, run: seq<Action>, i: nat, t: ThreadId, o: Outcome) {
    && i < |run| && run[i] == SpawnInline(o)
    && var s := StateAt(poolSize, base, run, i);
       s.Some? && s.value.nextThreadId == t
  }

  /** In the action `i` the worker that has thread `t` in its hands ends the closure as `o`. */
  ghost predicate EndsAtWorker(poolSize: nat, base: Address, run: seq<Action>, i: nat, t: ThreadId, o: Outcome) {
    && i < |run| && run[i].Finish? && run[i].outcome == o
    && var s := StateAt(poolSize, base, run, i);
       s.Some? && HasInHand(s.value, run[i].worker, t)
  }

  predicate HasInHand(s: State, w: Worker, t: ThreadId) {
    w in s.phase && s.phase[w].Running? && s.phase[w].job.thread == t
  }

  ghost predicate SomeInline(poolSize: nat, base: Address, run: seq<Action>, t: ThreadId, o: Outcome) {
    exists i :: EndsInline(poolSize, base, run, i, t, o)
  }

  ghost predicate SomeWorker(poolSize: nat, base: Address, run: seq<Action>, t: ThreadId, o: Outcome) {
    exists i :: EndsAtWorker(poolSize, base, run, i, t, o)
  }

  // ---------- one step ----------

  predicate EndedAs(s: State, t: ThreadId, o: Outcome) {
    t in s.outcome && s.outcome[t] == o
  }

  predicate Inline(s: State, t: ThreadId) {
    t in s.stage && s.stage[t].Inlined?
  }

  function AnsweredFor(joined: seq<(ThreadId, int)>): seq<ThreadId> {
    seq(|joined|, i requires 0 <= i < |joined| => joined[i].0)
  }

  /** The thread of the join under way. */
  function Pending(main: Main): seq<ThreadId> {
    if main.Polling? || main.Reading? then [main.thread] else []
  }

  /** What a state records of the history of threads and joins. */
  datatype Record = Record(
    outcome: map<ThreadId, Outcome>, stage: map<ThreadId, Stage>, lastStorer: map<Address, ThreadId>,
    staleFrom: map<ThreadId, Option<ThreadId>>, next: ThreadId, joined: seq<(ThreadId, int)>, main: Main)

  function RecordOf(s: State): Record {
    Record(s.outcome, s.stage, s.lastStorer, s.staleFrom, s.nextThreadId, s.joined, s.main)
  }

  lemma AfterSpawnStore(s: State)
    requires Enabled(s, SpawnStore)
    ensures var r, r' := RecordOf(s), RecordOf(Apply(s, SpawnStore));
            r' == r.(stage := r.stage[r.next := Posting], staleFrom := r'.staleFrom, next := r.next + 1, main := r'.main)
            && r'.main.Dispatching?
  {
    hide Load, AllocResultSlot;
  }

  lemma AfterSpawnPost(s: State)
    requires Enabled(s, SpawnPost)
    ensures var r, r' := RecordOf(s), RecordOf(Apply(s, SpawnPost));
            r' == r.(stage := r.stage[r.main.thread := Queued], main := Ready)
  {
  }

  lemma AfterSpawnInline(s: State, o: Outcome)
    requires Enabled(s, SpawnInline(o))
    ensures var r, r' := RecordOf(s), RecordOf(Apply(s, SpawnInline(o)));
            r' == r.(stage := r.stage[r.next := Inlined], outcome := r.outcome[r.next := o],
                     staleFrom := r.staleFrom[r.next := None], next := r.next + 1)
  {
  }

  lemma AfterJoinStart(s: State, t: ThreadId)
    requires Enabled(s, JoinStart(t))
    ensures var r, r' := RecordOf(s), RecordOf(Apply(s, JoinStart(t)));
            && r' == r.(joined := r'.joined, main := r'.main)
            && AnsweredFor(r'.joined) + Pending(r'.main) ==
               AnsweredFor(r.joined) + if t in s.threads then [t] else []
  {
  }

  lemma AfterJoinPoll(s: State)
    requires Enabled(s, JoinPoll)
    ensures var r, r' := RecordOf(s), RecordOf(Apply(s, JoinPoll));
            r' == r.(main := r'.main) && Pending(r'.main) == Pending(r.main)
  {
    var m := PollMoves(s);
    hide Apply, Pending;
    var s' := Apply(s, JoinPoll);
    assert s' == s.(main := m);
  }

  lemma PollMoves(s: State) returns (m: Main)
    requires Enabled(s, JoinPoll)
    ensures Apply(s, JoinPoll) == s.(main := m) && Pending(m) == Pending(s.main)
  {
    hide Load;
    m := if Load(s.ready, s.main.slot, 0) == 0 then s.main else Reading(s.main.thread, s.main.slot);
  }

  lemma AfterJoinRead(s: State)
    requires Enabled(s, JoinRead)
    ensures var r, r' := RecordOf(s), RecordOf(Apply(s, JoinRead));
            && r' == r.(stage := r.stage[r.main.thread := Joined], joined := r'.joined, main := Ready)
            && AnsweredFor(r'.joined) == AnsweredFor(r.joined) + [r.main.thread]
  {
    hide Load, ToNumber;
  }

  lemma AfterHandleError(s: State)
    requires Enabled(s, HandleError)
    ensures var r, r' := RecordOf(s), RecordOf(Apply(s, HandleError));
            r' == r
  {
  }

  lemma AfterTake(s: State, w: Worker)
    requires Enabled(s, Take(w))
    ensures var r, r' := RecordOf(s), RecordOf(Apply(s, Take(w)));
            r' == r.(stage := r.stage[s.inbox[w][0].thread := InHand])
  {
  }

  lemma AfterFinish(s: State, w: Worker, o: Outcome)
    requires Enabled(s, Finish(w, o))
    ensures var r, r' := RecordOf(s), RecordOf(Apply(s, Finish(w, o)));
            r' == r.(outcome := r.outcome[s.phase[w].job.thread := o])
  {
  }

  lemma AfterStoreResult(s: State, w: Worker)
    requires Enabled(s, StoreResult(w))
    ensures var r, r' := RecordOf(s), RecordOf(Apply(s, StoreResult(w)));
            r' == r.(lastStorer := r.lastStorer[s.phase[w].job.slot := s.phase[w].job.thread])
  {
  }

  lemma AfterPublish(s: State, w: Worker)
    requires Enabled(s, Publish(w))
    ensures var r, r' := RecordOf(s), RecordOf(Apply(s, Publish(w)));
            r' == r.(stage := r.stage[s.phase[w].job.thread := Published])
  {
  }

  lemma AfterPostError(s: State, w: Worker)
    requires Enabled(s, PostError(w))
    ensures var r, r' := RecordOf(s), RecordOf(Apply(s, PostError(w)));
            r' == r
  {
  }

  /** Each action records only what it is. */
  lemma Recorded(s: State, a: Action)
    requires Enabled(s, a)
    ensures var r, r' := RecordOf(s), RecordOf(Apply(s, a));
            && r'.outcome == (match a
                              case SpawnInline(o) => r.outcome[r.next := o]
                              case Finish(w, o) => r.outcome[s.phase[w].job.thread := o]
                              case _ => r.outcome)
            && r'.stage == (match a
                            case SpawnStore => r.stage[r.next := Posting]
                            case SpawnPost => r.stage[r.main.thread := Queued]
                            case SpawnInline(_) => r.stage[r.next := Inlined]
                            case JoinRead => r.stage[r.main.thread := Joined]
                            case Take(w) => r.stage[s.inbox[w][0].thread := InHand]
                            case Publish(w) => r.stage[s.phase[w].job.thread := Published]
                            case _ => r.stage)
            && r'.lastStorer == (match a
                                 case StoreResult(w) => r.lastStorer[s.phase[w].job.slot := s.phase[w].job.thread]
                                 case _ => r.lastStorer)
            && (a.SpawnStore? || r'.staleFrom == if a.SpawnInline? then r.staleFrom[r.next := None] else r.staleFrom)
            && r'.next == r.next + (if a.SpawnStore? || a.SpawnInline? then 1 else 0)
            && AnsweredFor(r'.joined) + Pending(r'.main) ==
               AnsweredFor(r.joined) + Pending(r.main) + if a.JoinStart? && a.thread in s.threads then [a.thread] else []
  {
    hide Apply, AnsweredFor;
    match a
    case SpawnStore => AfterSpawnStore(s);
    case SpawnPost => AfterSpawnPost(s);
    case SpawnInline(o) => AfterSpawnInline(s, o);
    case JoinStart(t) => AfterJoinStart(s, t);
    case JoinPoll => AfterJoinPoll(s);
    case JoinRead => AfterJoinRead(s);
    case HandleError => AfterHandleError(s);
    case Take(w) => AfterTake(s, w);
    case Finish(w, o) => AfterFinish(s, w, o);
    case StoreResult(w) => AfterStoreResult(s, w);
    case Publish(w) => AfterPublish(s, w);
    case PostError(w) => AfterPostError(s, w);
  }

  lemma OutcomeStep(s: State, a: Action, t: ThreadId, o: Outcome)
    requires Inv(s) && Enabled(s, a)
    ensures EndedAs(Apply(s, a), t, o) <==>
            || EndedAs(s, t, o)
            || (a == SpawnInline(o) && s.nextThreadId == t)
            || (a.Finish? && a.outcome == o && HasInHand(s, a.worker, t))
  {
    hide Inv, Apply;
    Recorded(s, a);
    match a
    case SpawnInline(_) => NewThreadIsNew(s);
    case Finish(w, _) => FinishesFirst(s, w);
    case _ =>
  }

  /** The thread whose stage an action moves on is not one that ran on the main thread. */
  lemma MovedIsNotInline(s: State, a: Action)
    requires Inv(s) && Enabled(s, a)
    ensures a.SpawnStore? || a.SpawnInline? ==> !Inline(s, s.nextThreadId)
    ensures a.SpawnPost? || a.JoinRead? ==> !Inline(s, s.main.thread)
    ensures a.Take? ==> !Inline(s, s.inbox[a.worker][0].thread)
    ensures a.Publish? ==> !Inline(s, s.phase[a.worker].job.thread)
  {
    if a.Take? {
      assert JobAt(s.threads, s.stage, a.worker, s.inbox[a.worker][0], Queued);
    }
  }

  lemma InlineStep(s: State, a: Action, t: ThreadId)
    requires Inv(s) && Enabled(s, a)
    ensures Inline(Apply(s, a), t) <==> Inline(s, t) || (a.SpawnInline? && s.nextThreadId == t)
  {
    hide Inv, Apply;
    MovedIsNotInline(s, a);
    Recorded(s, a);
  }

  // ---------- how threads end ----------

  lemma RunIsReachable(poolSize: nat, base: Address, run: seq<Action>, s: State)
    requires Exec(Step, Init(poolSize, base), run) == Some(s)
    ensures Reachable(poolSize, base, s)
  {
  }

  /** The run without its last action, and the state in which that is taken. */
  lemma LastAction(poolSize: nat, base: Address, run: seq<Action>, s: State) returns (before: seq<Action>, s0: State)
    requires run != [] && Exec(Step, Init(poolSize, base), run) == Some(s)
    ensures before == run[..|run| - 1] && run == before + [run[|run| - 1]]
    ensures Exec(Step, Init(poolSize, base), before) == Some(s0) && StateAt(poolSize, base, run, |run| - 1) == Some(s0)
    ensures Inv(s0) && Enabled(s0, run[|run| - 1]) && s == Apply(s0, run[|run| - 1])
  {
    hide Enabled, Apply, Inv, Reachable;
    before := run[..|run| - 1];
    ExecLast(Step, Init(poolSize, base), run);
    s0 := Exec(Step, Init(poolSize, base), before).value;
    hide Exec;
    assert run == before + [run[|run| - 1]];
    RunIsReachable(poolSize, base, before, s0);
    ReachableSound(poolSize, base, s0);
  }

  lemma SameStates(poolSize: nat, base: Address, before: seq<Action>, a: Action, i: nat)
    requires i <= |before|
    ensures StateAt(poolSize, base, before + [a], i) == StateAt(poolSize, base, before, i)
  {
    assert (before + [a])[..i] == before[..i];
  }

  lemma InlineMore(poolSize: nat, base: Address, before: seq<Action>, a: Action, s0: State, t: ThreadId, o: Outcome)
    requires StateAt(poolSize, base, before, |before|) == Some(s0)
    ensures SomeInline(poolSize, base, before + [a], t, o) <==>
            SomeInline(poolSize, base, before, t, o) || (a == SpawnInline(o) && s0.nextThreadId == t)
  {
    hide StateAt;
    var run: seq<Action>, n: nat := before + [a], |before|;
    forall i | 0 <= i <= n ensures StateAt(poolSize, base, run, i) == StateAt(poolSize, base, before, i) {
      SameStates(poolSize, base, before, a, i);
    }
    assert run[n] == a && forall i :: 0 <= i < n ==> run[i] == before[i];
    if i: nat :| EndsInline(poolSize, base, before, i, t, o) {
      assert EndsInline(poolSize, base, run, i, t, o);
    }
    if a == SpawnInline(o) && s0.nextThreadId == t {
      assert EndsInline(poolSize, base, run, n, t, o);
    }
    if i: nat :| EndsInline(poolSize, base, run, i, t, o) {
      if i < n {
        assert EndsInline(poolSize, base, before, i, t, o);
      }
    }
  }

  lemma WorkerMore(poolSize: nat, base: Address, before: seq<Action>, a: Action, s0: State, t: ThreadId, o: Outcome)
    requires StateAt(poolSize, base, before, |before|) == Some(s0)
    ensures SomeWorker(poolSize, base, before + [a], t, o) <==>
            SomeWorker(poolSize, base, before, t, o) || (a.Finish? && a.outcome == o && HasInHand(s0, a.worker, t))
  {
    hide StateAt, HasInHand;
    var run: seq<Action>, n: nat := before + [a], |before|;
    forall i | 0 <= i <= n ensures StateAt(poolSize, base, run, i) == StateAt(poolSize, base, before, i) {
      SameStates(poolSize, base, before, a, i);
    }
    assert run[n] == a && forall i :: 0 <= i < n ==> run[i] == before[i];
    if i: nat :| EndsAtWorker(poolSize, base, before, i, t, o) {
      assert EndsAtWorker(poolSize, base, run, i, t, o);
    }
    if a.Finish? && a.outcome == o && HasInHand(s0, a.worker, t) {
      assert EndsAtWorker(poolSize, base, run, n, t, o);
    }
    if i: nat :| EndsAtWorker(poolSize, base, run, i, t, o) {
      if i < n {
        assert EndsAtWorker(poolSize, base, before, i, t, o);
      }
    }
  }

  /** A thread has ended as `o` exactly when an action of the run ended it so, and on the main thread exactly
      when that action created it. */
  lemma {:induction false} OutcomeIffAction(
      poolSize: nat, base: Address, run: seq<Action>, s: State, t: ThreadId, o: Outcome)
    requires Exec(Step, Init(poolSize, base), run) == Some(s)
    ensures EndedAs(s, t, o) <==> SomeInline(poolSize, base, run, t, o) || SomeWorker(poolSize, base, run, t, o)
    ensures Inline(s, t) && EndedAs(s, t, o) <==> SomeInline(poolSize, base, run, t, o)
    ensures SomeWorker(poolSize, base, run, t, o) ==> !Inline(s, t)
    decreases |run|
  {
    hide Inv, Enabled, Apply, SomeInline, SomeWorker, StateAt, HasInHand;
    if run == [] {
      NothingYet(poolSize, base, t, o);
    } else {
      var before, s0 := LastAction(poolSize, base, run, s);
      var a := run[|run| - 1];
      OutcomeIffAction(poolSize, base, before, s0, t, o);
      WholeRun(poolSize, base, before, s0);
      InlineMore(poolSize, base, before, a, s0, t, o);
      WorkerMore(poolSize, base, before, a, s0, t, o);
      OutcomeStep(s0, a, t, o);
      InlineStep(s0, a, t);
      NewEndsOnce(s0, a, t, o);
    }
  }

  lemma WholeRun(poolSize: nat, base: Address, run: seq<Action>, s: State)
    requires Exec(Step, Init(poolSize, base), run) == Some(s)
    ensures StateAt(poolSize, base, run, |run|) == Some(s)
  {
    assert run[..|run|] == run;
  }

  lemma NothingYet(poolSize: nat, base: Address, t: ThreadId, o: Outcome)
    ensures !EndedAs(Init(poolSize, base), t, o)
    ensures !SomeInline(poolSize, base, [], t, o) && !SomeWorker(poolSize, base, [], t, o)
  {
  }

  /** What ends in a step had not ended before, and the worker's thread did not run on the main thread. */
  lemma NewEndsOnce(s: State, a: Action, t: ThreadId, o: Outcome)
    requires Inv(s) && Enabled(s, a)
    ensures a.SpawnInline? && s.nextThreadId == t ==> !EndedAs(s, t, o)
    ensures a.Finish? && HasInHand(s, a.worker, t) ==> !Inline(s, t)
    ensures a.Finish? && HasInHand(s, a.worker, t) ==> !EndedAs(s, t, o)
  {
  }

  // ---------- who stores ----------

  /** `t` has ended at a worker. */
  predicate WorkersThread(s: State, t: ThreadId) {
    t in s.outcome && !Inline(s, t)
  }

  ghost predicate StoredByWorkers(s: State) {
    && (forall a :: a in s.lastStorer ==> WorkersThread(s, s.lastStorer[a]))
    && forall t :: t in s.staleFrom && s.staleFrom[t].Some? ==> WorkersThread(s, s.staleFrom[t].value)
  }

  lemma WorkersThreadStays(s: State, a: Action, t: ThreadId)
    requires Inv(s) && Enabled(s, a) && WorkersThread(s, t)
    ensures WorkersThread(Apply(s, a), t)
  {
    hide Inv, Enabled, Apply;
    InlineStep(s, a, t);
    NewThreadIsNew(s);
    EndedStays(s, a, t);
  }

  lemma EndedStays(s: State, a: Action, t: ThreadId)
    requires Inv(s) && Enabled(s, a) && t in s.outcome
    ensures t in Apply(s, a).outcome
  {
    hide Inv, Enabled, Apply;
    OutcomeStep(s, a, t, s.outcome[t]);
  }

  lemma StorerIsWorkers(s: State, w: Worker)
    requires Inv(s) && Enabled(s, StoreResult(w))
    ensures WorkersThread(s, s.phase[w].job.thread)
  {
  }

  /** What a spawn finds out about its slot is who stored last into it. */
  lemma SpawnInherits(s: State, t: ThreadId)
    requires Enabled(s, SpawnStore)
    ensures var s' := Apply(s, SpawnStore);
            t in s'.staleFrom && s'.staleFrom[t].Some? ==>
              (t in s.staleFrom && s'.staleFrom[t] == s.staleFrom[t])
              || exists x :: x in s.lastStorer && s'.staleFrom[t] == Some(s.lastStorer[x])
  {
    hide Load, AllocResultSlot;
  }

  /** Who stored changes only when a worker stores, and what a thread is dispatched with only then. */
  lemma StorersAfter(s: State, a: Action)
    requires Enabled(s, a)
    ensures var s' := Apply(s, a);
            && (forall x :: x in s'.lastStorer ==>
                  (x in s.lastStorer && s'.lastStorer[x] == s.lastStorer[x])
                  || (a.StoreResult? && s'.lastStorer[x] == s.phase[a.worker].job.thread))
            && forall t :: t in s'.staleFrom && s'.staleFrom[t].Some? ==>
                 (t in s.staleFrom && s'.staleFrom[t] == s.staleFrom[t])
                 || exists x :: x in s.lastStorer && s'.staleFrom[t] == Some(s.lastStorer[x])
  {
    hide Apply;
    Recorded(s, a);
    if a.SpawnStore? {
      forall t {
        SpawnInherits(s, t);
      }
    }
  }

  lemma StorersStep(s: State, a: Action)
    requires Inv(s) && StoredByWorkers(s) && Enabled(s, a)
    ensures StoredByWorkers(Apply(s, a))
  {
    hide Inv, Enabled, Apply, WorkersThread;
    StorersAfter(s, a);
    if a.StoreResult? {
      StorerIsWorkers(s, a.worker);
    }
    forall t | WorkersThread(s, t) ensures WorkersThread(Apply(s, a), t) {
      WorkersThreadStays(s, a, t);
    }
  }

  lemma StorersAreWorkers(poolSize: nat, base: Address, s: State)
    requires Reachable(poolSize, base, s)
    ensures StoredByWorkers(s)
  {
    hide Inv, Enabled, Apply;
    var start := Init(poolSize, base);
    var run :| Exec(Step, start, run) == Some(s);
    InitSound(poolSize, base);
    assert StoredByWorkers(start);
    hide StoredByWorkers;
    forall x, a | Inv(x) && StoredByWorkers(x) && Step(x, a).Some?
      ensures Inv(Step(x, a).value) && StoredByWorkers(Step(x, a).value)
    {
      KeepStep(x, a);
      StorersStep(x, a);
    }
    ExecKeeps(Step, x => Inv(x) && StoredByWorkers(x), start, run);
  }

  // ---------- what joins answer ----------

  /** In every run a join answers for a closure that ran on the main thread what it returned, or 0 if it threw,
      and for one that a worker ended with a result that result as a number. */
  lemma JoinAnswersAction(poolSize: nat, base: Address, run: seq<Action>, s: State, j: nat, o: Outcome)
    requires Exec(Step, Init(poolSize, base), run) == Some(s) && j < |s.joined|
    ensures var (t, answer) := s.joined[j];
            && (SomeInline(poolSize, base, run, t, o) ==> answer == if o.Returned? then o.result else 0)
            && (SomeWorker(poolSize, base, run, t, o) && o.Returned? ==> answer == ToNumber(o.result))
            && (SomeWorker(poolSize, base, run, t, o) && o.Threw? ==>
                  || answer == 0
                  || exists u, v: Int64 :: SomeWorker(poolSize, base, run, u, Returned(v)) && answer == ToNumber(v))
  {
    hide ToNumber, SomeInline, SomeWorker, Inv, Enabled, Apply;
    var (t, answer) := s.joined[j];
    RunIsReachable(poolSize, base, run, s);
    hide Reachable;
    OutcomeIffAction(poolSize, base, run, s, t, o);
    JoinAnswersOwnResult(poolSize, base, s, j);
    ReachableTraced(poolSize, base, s);
    if SomeWorker(poolSize, base, run, t, o) {
      if o.Threw? && s.staleFrom[t].Some? {
        var u := s.staleFrom[t].value;
        var v: Int64 :| HasResultOf(s.outcome, u, v) && answer == ToNumber(v);
        OutcomeIffAction(poolSize, base, run, s, u, Returned(v));
        StorersAreWorkers(poolSize, base, s);
        assert WorkersThread(s, u);
      }
    }
  }

  /** The threads that the joins of a run ask for, in order; a join of an unknown thread answers 0 at once. */
  ghost function AskedFor(poolSize: nat, base: Address, run: seq<Action>): seq<ThreadId> {
    if run == [] then []
    else
      var n := |run| - 1;
      var s := StateAt(poolSize, base, run, n);
      AskedFor(poolSize, base, run[..n]) +
      if run[n].JoinStart? && s.Some? && run[n].thread in s.value.threads then [run[n].thread] else []
  }

  lemma NoJoins()
    ensures AnsweredFor([]) + Pending(Ready) == []
  {
  }

  /** Joins are answered in the order in which they are asked, each once and for the thread it asked for; only
      the last can be still under way. */
  lemma {:induction false} JoinsAnsweredInOrder(poolSize: nat, base: Address, run: seq<Action>, s: State)
    requires Exec(Step, Init(poolSize, base), run) == Some(s)
    ensures AnsweredFor(s.joined) + Pending(s.main) == AskedFor(poolSize, base, run)
    decreases |run|
  {
    hide Inv, Enabled, Apply, AnsweredFor, Pending;
    if run == [] {
      NoJoins();
    } else {
      var before, s0 := LastAction(poolSize, base, run, s);
      JoinsAnsweredInOrder(poolSize, base, before, s0);
      Recorded(s0, run[|run| - 1]);
    }
  }

  // ---------- ids and places ----------

  function Spawns(run: seq<Action>): nat {
    if run == [] then 0
    else Spawns(run[..|run| - 1]) + if run[|run| - 1].SpawnStore? || run[|run| - 1].SpawnInline? then 1 else 0
  }

  /** Thread ids count the spawns, from one above the workers' own. */
  lemma {:induction false} IdsCountSpawns(poolSize: nat, base: Address, run: seq<Action>, s: State)
    requires Exec(Step, Init(poolSize, base), run) == Some(s)
    ensures s.nextThreadId == poolSize + 1 + Spawns(run)
    decreases |run|
  {
    hide Inv, Apply, Enabled;
    if run != [] {
      var before, s0 := LastAction(poolSize, base, run, s);
      IdsCountSpawns(poolSize, base, before, s0);
      Recorded(s0, run[|run| - 1]);
    }
  }

  /** A spawn right after a join uses the worker and the slot that the join gave back. */
  lemma SpawnReusesLast(s: State)
    requires Inv(s) && s.main.Reading?
    ensures Enabled(Apply(s, JoinRead), SpawnStore)
    ensures var s1 := Apply(s, JoinRead);
            var s2 := Apply(s1, SpawnStore);
            s2.threads[s1.nextThreadId] == s.threads[s.main.thread]
  {
    hide ToNumber;
    ReadingIsUnjoined(s);
  }

  /** While no closure has thrown, a spawn runs on the main thread exactly when every worker serves a thread that
      is not joined yet, and goes to a worker otherwise. */
  lemma InlineIffAllBusy(poolSize: nat, base: Address, s: State, o: Outcome)
    requires Reachable(poolSize, base, s) && s.threw == multiset{} && s.main.Ready?
    ensures Enabled(s, SpawnInline(o)) <==> |UnjoinedThreads(s.threads)| == poolSize
    ensures Enabled(s, SpawnStore) <==> |UnjoinedThreads(s.threads)| < poolSize
  {
    hide Reachable, UnjoinedThreads;
    PoolWithoutThrows(poolSize, base, s);
  }
}
