/** The thread runtime object as the source writes it, updating its fields in place. Each method runs from
    one access to shared memory to the next, so that calls may be interleaved in any order, and each is one
    step of the system in module ThreadPool. */
module ThreadRuntime {
  import opened Numbers
  import opened Wrappers
  import opened ThreadPool

  lemma SpawnStoreKeeps(s: State)
    requires Inv(s) && s.main.Ready? && s.idleWorkers != []
    ensures SlotsApart(s.resultBase, s.nextResultSlot, s.freeResultSlots, s.threads)
    ensures Inv(SpawnStoreStep(s))
  {
    hide Inv, SpawnStoreStep;
    SlotsInOrder(s);
    KeepStep(s, SpawnStore);
  }

  class RayzorThreadRuntime {
    const poolSize: nat
    const resultBase: Address

    var idleWorkers: seq<Worker>
    var nextThreadId: ThreadId
    var threads: Threads
    var nextResultSlot: nat
    var freeResultSlots: seq<Address>
    var main: Main

    // shared memory, the workers, and the messages under way
    var ready: map<Address, int>
    var value: map<Address, Int64>
    var inbox: map<Worker, seq<Job>>
    var phase: map<Worker, Phase>
    var errors: seq<Worker>

    /** Only the history part of this state is ever read. */
    ghost var history: State

    ghost function View(): State
      reads this
    {
      State(poolSize, resultBase, idleWorkers, nextThreadId, threads, nextResultSlot, freeResultSlots, main,
            ready, value, inbox, phase, errors, history.stage, history.outcome, history.stale, history.joined,
            history.threw, history.handled, history.lastStorer, history.staleFrom)
    }

    /** The whole invariant of the system holds of this object. */
    ghost predicate Valid()
      reads this
    {
      Inv(View())
    }

    /** The answer that a join of `t` owes. */
    ghost predicate Answers(t: ThreadId, answer: int)
      reads this
    {
      && t in history.outcome && t in history.stale && t in history.stage
      && answer == Owed(history.stage, history.outcome, history.stale, t)
    }

    constructor (poolSize: nat, resultBase: Address)
      ensures Valid() && View() == Init(poolSize, resultBase)
    {
      this.poolSize, this.resultBase := poolSize, resultBase;
      idleWorkers, nextThreadId, threads := seq(poolSize, w => w), poolSize + 1, map[];
      nextResultSlot, freeResultSlots, main := 0, [], Ready;
      ready, value, errors := map[], map[], [];
      var all := seq(poolSize, w => w);
      inbox := map w | w in all :: [];
      phase := map w | w in all :: Resting;
      history := Init(poolSize, resultBase);
      new;
      InitSound(poolSize, resultBase);
    }

    /** Hands out a slot of the region that no unjoined thread holds and takes it off the free list. */
    method AllocResultSlot() returns (addr: Address)
      requires SlotsApart(resultBase, nextResultSlot, freeResultSlots, threads)
      modifies this`freeResultSlots, this`nextResultSlot
      ensures SlotsApart(resultBase, nextResultSlot, freeResultSlots, threads)
      ensures Allocated(resultBase, nextResultSlot, addr) && addr !in freeResultSlots
      ensures forall t :: Unjoined(threads, t) ==> threads[t].slot != addr
      ensures (addr, freeResultSlots, nextResultSlot) ==
              ThreadPool.AllocResultSlot(resultBase, old(freeResultSlots), old(nextResultSlot))
    {
      if |freeResultSlots| > 0 {
        addr := freeResultSlots[|freeResultSlots| - 1];
        assert addr in freeResultSlots;
        freeResultSlots := freeResultSlots[..|freeResultSlots| - 1];
      } else {
        addr := resultBase + nextResultSlot * RESULT_SLOT_BYTES;
        nextResultSlot := nextResultSlot + 1;
      }
    }

    /** Takes back a slot that no thread holds any more. */
    method ReleaseResultSlot(addr: Address)
      requires SlotsApart(resultBase, nextResultSlot, freeResultSlots, threads)
      requires Allocated(resultBase, nextResultSlot, addr) && addr !in freeResultSlots
      requires forall t :: Unjoined(threads, t) ==> threads[t].slot != addr
      modifies this`freeResultSlots
      ensures SlotsApart(resultBase, nextResultSlot, freeResultSlots, threads)
      ensures freeResultSlots == old(freeResultSlots) + [addr]
    {
      freeResultSlots := freeResultSlots + [addr];
    }

    /** `spawn` with an idle worker, up to and including the reset of the ready flag. */
    method SpawnReset() returns (threadId: ThreadId)
      requires Valid() && main.Ready? && idleWorkers != []
      modifies this
      ensures Valid() && View() == SpawnStoreStep(old(View())) && threadId == old(nextThreadId)
    {
      hide ThreadPool.AllocResultSlot, Load, Inv, SlotsApart, Allocated, Unjoined, Enabled, Apply, ToNumber,
           Expected, Owed;
      ghost var before := View();
      SpawnStoreKeeps(before);
      threadId := nextThreadId;
      nextThreadId := nextThreadId + 1;
      var worker := idleWorkers[|idleWorkers| - 1];
      idleWorkers := idleWorkers[..|idleWorkers| - 1];
      var slot := AllocResultSlot();
      ready := ready[slot := 0];
      threads := threads[threadId := Dispatched(worker, slot)];
      main := Dispatching(threadId, worker, slot);
      history := SpawnStoreStep(before);
      assert View() == SpawnStoreStep(before);
    }

    /** The rest of that `spawn`: the `run` message. */
    method SpawnMessage()
      requires Valid() && main.Dispatching?
      modifies this
      ensures Valid() && View() == Apply(old(View()), SpawnPost)
    {
      hide Inv, Expected;
      ghost var before := View();
      var Dispatching(threadId, worker, slot) := main;
      inbox := inbox[worker := (if worker in inbox then inbox[worker] else []) + [Job(threadId, slot)]];
      main := Ready;
      history := Apply(before, SpawnPost);
      KeepStep(before, SpawnPost);
    }

    /** `spawn` with no idle worker: the closure runs on the main thread, and a throw counts as 0. */
    method SpawnSynchronously(closure: Outcome) returns (threadId: ThreadId)
      requires Valid() && main.Ready? && idleWorkers == []
      modifies this
      ensures Valid() && View() == SpawnInlineStep(old(View()), closure) && threadId == old(nextThreadId)
    {
      hide Inv, Expected;
      ghost var before := View();
      threadId := nextThreadId;
      nextThreadId := nextThreadId + 1;
      threads := threads[threadId := Done(match closure case Returned(result) => result case Threw => 0)];
      history := SpawnInlineStep(before, closure);
      KeepStep(before, SpawnInline(closure));
    }

    /** `join` up to its first look at shared memory; some joins are answered before it. */
    method JoinEnter(threadId: ThreadId) returns (answer: Option<int>)
      requires Valid() && main.Ready?
      modifies this
      ensures Valid() && View() == Apply(old(View()), JoinStart(threadId))
      ensures threadId !in threads ==> answer == Some(0)
      ensures answer.None? <==> main.Polling?
      ensures answer.Some? && threadId in threads ==>
                Answers(threadId, answer.value) && history.joined == old(history.joined) + [(threadId, answer.value)]
    {
      hide Inv, Expected;
      ghost var before := View();
      if threadId !in threads {
        answer := Some(0);
      } else {
        match threads[threadId]
        case Done(result) =>
          DoneIsExpected(before, threadId);
          answer := Some(result);
        case Dispatched(_, slot) =>
          answer := None;
          main := Polling(threadId, slot);
      }
      history := Apply(before, JoinStart(threadId));
      KeepStep(before, JoinStart(threadId));
    }

    /** One turn of the spin loop of `join`. */
    method JoinSpin() returns (again: bool)
      requires Valid() && main.Polling?
      modifies this
      ensures Valid() && View() == Apply(old(View()), JoinPoll) && (again <==> main.Polling?)
    {
      hide Inv, Expected;
      ghost var before := View();
      again := Load(ready, main.slot, 0) == 0;
      if !again {
        main := Reading(main.thread, main.slot);
      }
      history := Apply(before, JoinPoll);
      KeepStep(before, JoinPoll);
    }

    /** The end of `join`: reads the value and gives back the slot and the worker. */
    method JoinFinish() returns (result: int)
      requires Valid() && main.Reading?
      modifies this
      ensures Valid() && View() == JoinReadStep(old(View()))
      ensures Answers(old(main).thread, result)
      ensures history.joined == old(history.joined) + [(old(main).thread, result)]
    {
      hide Inv, Expected;
      ghost var before := View();
      hide SlotsApart, Load, Allocated;
      ReadingIsUnjoined(before);
      var Reading(threadId, slot) := main;
      result := ToNumber(Load(value, slot, 0));
      var worker := threads[threadId].worker;
      threads := threads[threadId := Done(result)];
      ReleaseResultSlot(slot);
      idleWorkers := idleWorkers + [worker];
      main := Ready;
      history := JoinReadStep(before);
      KeepStep(before, JoinRead);
      DoneIsExpected(View(), threadId);
    }

    /** The handler of an `error` message. It finds no task, since none is ever registered, and returns the
        worker to the idle pool. */
    method HandleWorkerMessage()
      requires Valid() && main.Ready? && errors != []
      modifies this
      ensures Valid() && View() == Apply(old(View()), HandleError)
    {
      hide Inv, Expected;
      ghost var before := View();
      var worker := errors[0];
      errors := errors[1..];
      idleWorkers := idleWorkers + [worker];
      history := Apply(before, HandleError);
      KeepStep(before, HandleError);
    }

    // ---------- the `run` handler of a worker ----------

    method WorkerTake(w: Worker)
      requires Valid() && Enabled(View(), Take(w))
      modifies this
      ensures Valid() && View() == Apply(old(View()), Take(w))
    {
      hide Inv, Expected;
      ghost var before := View();
      var job := inbox[w][0];
      inbox := inbox[w := inbox[w][1..]];
      phase := phase[w := Running(job)];
      history := Apply(before, Take(w));
      KeepStep(before, Take(w));
    }

    method WorkerClosureEnds(w: Worker, closure: Outcome)
      requires Valid() && Enabled(View(), Finish(w, closure))
      modifies this
      ensures Valid() && View() == Apply(old(View()), Finish(w, closure))
    {
      hide Inv, Expected;
      ghost var before := View();
      var job := phase[w].job;
      match closure {
        case Returned(result) => phase := phase[w := HasResult(job, result)];
        case Threw =>
          phase := phase[w := Caught(job)];
      }
      history := Apply(before, Finish(w, closure));
      KeepStep(before, Finish(w, closure));
    }

    method WorkerStore(w: Worker)
      requires Valid() && Enabled(View(), StoreResult(w))
      modifies this
      ensures Valid() && View() == Apply(old(View()), StoreResult(w))
    {
      hide Inv, Expected;
      ghost var before := View();
      var HasResult(job, result) := phase[w];
      value := value[job.slot := result];
      phase := phase[w := Stored(job)];
      history := Apply(before, StoreResult(w));
      KeepStep(before, StoreResult(w));
    }

    method WorkerPublish(w: Worker)
      requires Valid() && Enabled(View(), Publish(w))
      modifies this
      ensures Valid() && View() == Apply(old(View()), Publish(w))
    {
      hide Inv, Expected;
      ghost var before := View();
      var job := phase[w].job;
      ready := ready[job.slot := 1];
      phase := phase[w := if phase[w].Stored? then Resting else MustReport];
      history := Apply(before, Publish(w));
      KeepStep(before, Publish(w));
    }

    method WorkerReport(w: Worker)
      requires Valid() && Enabled(View(), PostError(w))
      modifies this
      ensures Valid() && View() == Apply(old(View()), PostError(w))
    {
      hide Inv, Expected;
      ghost var before := View();
      errors := errors + [w];
      phase := phase[w := Resting];
      history := Apply(before, PostError(w));
      KeepStep(before, PostError(w));
    }
  }
}
