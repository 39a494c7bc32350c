/** The mutex on a shared cell: any number of threads, each compareExchange and each store one step. */
module Mutex {
  import opened Runs
  import opened Wrappers

  type ThreadId = int

  /** A thread outside, about to try the compareExchange (again and again when `blocking`), or holding. */
  datatype Pc = Outside | Trying(blocking: bool) | Holding

  datatype State = State(cell: int, pcs: map<ThreadId, Pc>)

  datatype Action =
    | Lock(t: ThreadId)
    | TryLock(t: ThreadId)
    | CompareExchange(t: ThreadId)
    | Unlock(t: ThreadId)

  function Init(threads: set<ThreadId>): State {
    State(0, map t | t in threads :: Outside)
  }

  predicate At(s: State, t: ThreadId, pc: Pc) {
    t in s.pcs && s.pcs[t] == pc
  }

  /** Unlocking is left to the holder: the discipline under which the mutex excludes. */
  predicate Enabled(s: State, a: Action) {
    match a
    case Lock(t) => At(s, t, Outside)
    case TryLock(t) => At(s, t, Outside)
    case CompareExchange(t) => t in s.pcs && s.pcs[t].Trying?
    case Unlock(t) => At(s, t, Holding)
  }

  function Apply(s: State, a: Action): State
    requires Enabled(s, a)
  {
    match a
    case Lock(t) => s.(pcs := s.pcs[t := Trying(true)])
    case TryLock(t) => s.(pcs := s.pcs[t := Trying(false)])
    case CompareExchange(t) =>
      if s.cell == 0 then State(1, s.pcs[t := Holding])
      else if s.pcs[t].blocking then s
      else s.(pcs := s.pcs[t := Outside])
    case Unlock(t) => State(0, s.pcs[t := Outside])
  }

  /** The store that `mutexUnlock` does for any caller at all. */
  function StrayUnlock(s: State): State {
    s.(cell := 0)
  }

  ghost predicate Exclusive(s: State) {
    forall t, u :: At(s, t, Holding) && At(s, u, Holding) ==> t == u
  }

  ghost predicate Inv(s: State) {
    && Exclusive(s)
    && (s.cell == 0 || s.cell == 1)
    && (s.cell == 1 <==> exists t :: At(s, t, Holding))
  }

  function Step(s: State, a: Action): Option<State> {
    if Enabled(s, a) then Some(Apply(s, a)) else None
  }

  lemma KeepStep(s: State, a: Action)
    requires Inv(s) && Enabled(s, a)
    ensures Inv(Apply(s, a))
  {
    var s' := Apply(s, a);
    assert a.CompareExchange? && s.cell == 0 ==> At(s', a.t, Holding);
    if s.cell == 1 && !a.Unlock? {
      var h :| At(s, h, Holding);
      assert At(s', h, Holding);
    }
    assert forall u :: u != a.t ==> (At(s', u, Holding) <==> At(s, u, Holding));
  }

  /** In every run on a new mutex, at most one thread holds it, and its cell is 1 exactly while one does. */
  lemma MutualExclusion(threads: set<ThreadId>, run: seq<Action>, t: ThreadId, u: ThreadId)
    requires Exec(Step, Init(threads), run).Some?
    ensures var s := Exec(Step, Init(threads), run).value;
            && (At(s, t, Holding) && At(s, u, Holding) ==> t == u)
            && (s.cell == 0 || s.cell == 1)
            && (s.cell == 1 <==> exists h :: At(s, h, Holding))
  {
    forall x, a | Inv(x) && Step(x, a).Some? ensures Inv(Step(x, a).value) {
      KeepStep(x, a);
    }
    ExecKeeps(Step, s => Inv(s), Init(threads), run);
  }

  /** An attempt succeeds exactly when nobody holds the mutex. Otherwise it changes nothing but that a
      `tryLock` gives up. */
  lemma AttemptSucceedsIffFree(s: State, t: ThreadId)
    requires Inv(s) && t in s.pcs && s.pcs[t].Trying?
    ensures var s' := Apply(s, CompareExchange(t));
            if exists h :: At(s, h, Holding) then
              s' == if s.pcs[t].blocking then s else s.(pcs := s.pcs[t := Outside])
            else s' == State(1, s.pcs[t := Holding])
  {
  }

  /** Without interference `lock` and `tryLock` take a free mutex; a held one leaves `tryLock` with nothing and
      `lock` at the next attempt. */
  lemma UninterruptedLock(s: State, t: ThreadId)
    requires Inv(s) && At(s, t, Outside)
    ensures var l, r := Exec(Step, s, [Lock(t), CompareExchange(t)]), Exec(Step, s, [TryLock(t), CompareExchange(t)]);
            if exists h :: At(s, h, Holding) then l == Some(s.(pcs := s.pcs[t := Trying(true)])) && r == Some(s)
            else l == r == Some(State(1, s.pcs[t := Holding]))
  {
    TwoSteps(s, Lock(t), CompareExchange(t));
    TwoSteps(s, TryLock(t), CompareExchange(t));
    Overwritten(s.pcs, t, Trying(true));
    Overwritten(s.pcs, t, Trying(false));
  }

  lemma Overwritten(pcs: map<ThreadId, Pc>, t: ThreadId, p: Pc)
    requires t in pcs && pcs[t].Outside?
    ensures pcs[t := p][t := Outside] == pcs && pcs[t := p][t := Holding] == pcs[t := Holding]
  {
  }

  lemma TwoSteps(s: State, a: Action, b: Action)
    requires Enabled(s, a) && Enabled(Apply(s, a), b)
    ensures Exec(Step, s, [a, b]) == Some(Apply(Apply(s, a), b))
  {
    hide Enabled, Apply;
    assert [a, b][1..] == [b] && [b][1..] == [];
    assert Exec(Step, Apply(s, a), [b]) == Some(Apply(Apply(s, a), b));
  }

  /** An unlock by the holder frees it. */
  lemma UnlockFrees(s: State, t: ThreadId)
    requires Inv(s) && At(s, t, Holding)
    ensures var s' := Apply(s, Unlock(t)); s'.cell == 0 && forall h :: !At(s', h, Holding)
  {
    forall h ensures !At(Apply(s, Unlock(t)), h, Holding) {
      assert At(s, h, Holding) ==> h == t;
    }
  }

  /** The discipline is needed exactly when the mutex is held: a stray unlock then lets a second thread in
      with one lock call, and otherwise changes nothing. */
  lemma StrayUnlockBreaksIffHeld(s: State, t: ThreadId)
    requires Inv(s) && At(s, t, Outside)
    ensures (exists h :: At(s, h, Holding)) <==>
            (var after := Exec(Step, StrayUnlock(s), [Lock(t), CompareExchange(t)]);
             after.Some? && !Exclusive(after.value))
    ensures !(exists h :: At(s, h, Holding)) ==> StrayUnlock(s) == s
  {
    var s0 := StrayUnlock(s);
    var s1 := Apply(s0, Lock(t));
    var s2 := Apply(s1, CompareExchange(t));
    var run := [Lock(t), CompareExchange(t)];
    assert run[1..] == [CompareExchange(t)] && run[1..][1..] == [];
    assert Exec(Step, s2, []) == Some(s2);
    assert Exec(Step, s1, run[1..]) == Some(s2);
    assert Exec(Step, s0, run) == Some(s2);
    assert At(s2, t, Holding);
    if exists h :: At(s, h, Holding) {
      var h :| At(s, h, Holding);
      assert h != t && s2.pcs[h] == s.pcs[h];
      assert At(s2, h, Holding);
    } else {
      forall u | At(s2, u, Holding) ensures u == t {
        assert !At(s, u, Holding);
      }
    }
  }
}

/** The counting semaphore on a shared cell: the load and the compareExchange are separate steps. The
    runtime has no operation that raises the count. */
module Semaphore {
  import opened Runs
  import opened Wrappers

  type ThreadId = int

  datatype Pc = Outside | Loading(blocking: bool) | Swapping(blocking: bool, current: int)

  /** `acquired` is history: the number of successful acquires, by any thread. */
  datatype State = State(cell: int, pcs: map<ThreadId, Pc>, acquired: nat)

  datatype Action = Acquire(t: ThreadId, blocking: bool) | Load(t: ThreadId) | CompareExchange(t: ThreadId)

  function Init(count: int, threads: set<ThreadId>): State {
    State(count, map t | t in threads :: Outside, 0)
  }

  predicate Enabled(s: State, a: Action) {
    a.t in s.pcs &&
    match a
    case Acquire(t, _) => s.pcs[t].Outside?
    case Load(t) => s.pcs[t].Loading?
    case CompareExchange(t) => s.pcs[t].Swapping?
  }

  /** Where a thread goes whose attempt failed: around the loop, or out with a refusal. */
  function Failed(blocking: bool): Pc {
    if blocking then Loading(true) else Outside
  }

  function Apply(s: State, a: Action): State
    requires Enabled(s, a)
  {
    match a
    case Acquire(t, b) => s.(pcs := s.pcs[t := Loading(b)])
    case Load(t) =>
      var b := s.pcs[t].blocking;
      s.(pcs := s.pcs[t := if s.cell > 0 then Swapping(b, s.cell) else Failed(b)])
    case CompareExchange(t) =>
      var Swapping(b, current) := s.pcs[t];
      if s.cell == current then State(current - 1, s.pcs[t := Outside], s.acquired + 1)
      else s.(pcs := s.pcs[t := Failed(b)])
  }

  ghost predicate Inv(s: State, count: int) {
    && s.cell + s.acquired == count
    && (s.cell >= 0 || s.acquired == 0)
    && forall t :: t in s.pcs && s.pcs[t].Swapping? ==> 0 < s.pcs[t].current <= count && s.cell <= s.pcs[t].current
  }

  function Step(s: State, a: Action): Option<State> {
    if Enabled(s, a) then Some(Apply(s, a)) else None
  }

  lemma RunKeeps(count: int, threads: set<ThreadId>, run: seq<Action>)
    requires Exec(Step, Init(count, threads), run).Some?
    ensures Inv(Exec(Step, Init(count, threads), run).value, count)
  {
    forall x, a | Inv(x, count) && Step(x, a).Some? ensures Inv(Step(x, a).value, count) {
    }
    ExecKeeps(Step, s => Inv(s, count), Init(count, threads), run);
  }

  /** In every run the cell and the successful acquires add up to the initial count, and the cell is never
      negative if and only if the initial count was not. */
  lemma PermitsConserved(count: int, threads: set<ThreadId>, run: seq<Action>)
    requires Exec(Step, Init(count, threads), run).Some?
    ensures var s := Exec(Step, Init(count, threads), run).value;
            && s.cell + s.acquired == count
            && (s.cell >= 0 <==> count >= 0)
            && s.acquired <= if count > 0 then count else 0
  {
    RunKeeps(count, threads, run);
  }

  /** A compareExchange fails only because another acquire has succeeded since the load. */
  lemma FailureMeansProgress(count: int, threads: set<ThreadId>, run: seq<Action>, t: ThreadId)
    requires Exec(Step, Init(count, threads), run).Some?
    requires t in Exec(Step, Init(count, threads), run).value.pcs
    requires Exec(Step, Init(count, threads), run).value.pcs[t].Swapping?
    ensures var s := Exec(Step, Init(count, threads), run).value;
            s.cell != s.pcs[t].current ==> s.acquired > count - s.pcs[t].current
  {
    RunKeeps(count, threads, run);
  }

  lemma ThreeSteps(s: State, a: Action, b: Action, c: Action)
    requires Enabled(s, a) && Enabled(Apply(s, a), b)
    ensures Exec(Step, s, [a, b]) == Some(Apply(Apply(s, a), b))
    ensures Enabled(Apply(Apply(s, a), b), c) ==>
      Exec(Step, s, [a, b, c]) == Some(Apply(Apply(Apply(s, a), b), c))
  {
    hide Enabled, Apply;
    var s1 := Apply(s, a);
    var s2 := Apply(s1, b);
    assert [a, b][1..] == [b] && [b][1..] == [];
    assert Exec(Step, s1, [b]) == Some(s2);
    if Enabled(s2, c) {
      assert [a, b, c][1..] == [b, c] && [b, c][1..] == [c] && [c][1..] == [];
      assert Exec(Step, s2, [c]) == Some(Apply(s2, c));
      assert Exec(Step, s1, [b, c]) == Some(Apply(s2, c));
    }
  }

  lemma BackOutside(pcs: map<ThreadId, Pc>, t: ThreadId, p: Pc, q: Pc)
    requires t in pcs && pcs[t].Outside?
    ensures pcs[t := p][t := q][t := Outside] == pcs && pcs[t := p][t := Outside] == pcs
    ensures pcs[t := p][t := p] == pcs[t := p]
  {
  }

  /** Without interference an acquire takes a permit if there is one; if there is none, a non-blocking one changes
      nothing, and a blocking one goes on loading. */
  lemma UninterruptedAcquire(s: State, t: ThreadId, b: bool)
    requires t in s.pcs && s.pcs[t].Outside?
    ensures s.cell > 0 ==>
      Exec(Step, s, [Acquire(t, b), Load(t), CompareExchange(t)]) == Some(State(s.cell - 1, s.pcs, s.acquired + 1))
    ensures s.cell <= 0 ==>
      Exec(Step, s, [Acquire(t, b), Load(t)]) == Some(if b then s.(pcs := s.pcs[t := Loading(true)]) else s)
  {
    ThreeSteps(s, Acquire(t, b), Load(t), CompareExchange(t));
    BackOutside(s.pcs, t, Loading(b), Swapping(b, s.cell));
  }

  /** A blocking acquire ends only with a permit. */
  lemma BlockingEndsWithPermit(s: State, a: Action)
    requires Enabled(s, a) && !a.Acquire? && s.pcs[a.t].blocking
    ensures var s' := Apply(s, a); s'.pcs[a.t].Outside? <==> s'.acquired == s.acquired + 1
    ensures var s' := Apply(s, a); !s'.pcs[a.t].Outside? ==> s'.pcs[a.t].blocking && s'.acquired == s.acquired
  {
  }

  /** The swap succeeds exactly when the cell is still what the load saw. */
  lemma SwapSucceedsIffUnchanged(s: State, t: ThreadId)
    requires t in s.pcs && s.pcs[t].Swapping?
    ensures var s' := Apply(s, CompareExchange(t));
            if s.cell == s.pcs[t].current then
              s'.cell == s.cell - 1 && s'.acquired == s.acquired + 1 && s'.pcs[t].Outside?
            else s' == s.(pcs := s.pcs[t := Failed(s.pcs[t].blocking)])
  {
  }
}
