# Rayzor: verified models

Dafny models of the algorithms of the Rayzor Haxe compiler whose correctness is easy to state and hard to see,
with proofs of what they are for. `dafny verify dfyconfig.toml` checks the project.

| file | models |
|---|---|
| `Digraph.dfy`, `DependencyGraph.dfy` | the file dependency graph: construction, depth-first cycle detection, Kahn ordering with its fallback, transitive closures |
| `ThreadPool.dfy`, `ThreadRuntime.dfy`, `ThreadRuns.dfy`, `JoinProgress.dfy` | the browser thread runtime: worker pool, recycled result slots, the ready-flag handshake; a step system, the class that takes its steps, what joins answer, and why they end |
| `Channel.dfy`, `ChannelRuns.dfy`, `ChannelObject.dfy` | the shared-memory ring buffer: a step system for one sender and one receiver, and the calls that do not wait as a queue |
| `Numbers.dfy` | the conversion of integers to doubles, nearest with ties to even |
| `SyncPrimitives.dfy` | the compareExchange mutex and semaphore as step systems |
| `LazyFusion.dfy`, `FusedKernel.dfy` | lazy GPU fusion: the key stream, input binding, kernel emission, and the kernel cache |
| `BuildId.dfy`, `BuildFiles.dfy`, `BuildContents.dfy` | the FNV-1a build id over sorted, framed source files, and what its stream determines |
| `Haxelib.dfy`, `HaxelibChoice.dfy` | breadth-first library resolution |
| `HxmlArgs.dfy`, `HxmlLines.dfy`, `HxmlOrder.dfy`, `HxmlBuilds.dfy`, `HxmlFields.dfy` | build files: lines, include expansion and its order, splitting at `--each` and `--next`, configurations |
| `TensorIndex.dfy`, `TensorAlgebra.dfy` | row-major indexing of any rank, transposition, multiplication |
| `RecvBuffer.dfy` | the socket receive buffer |
| `Utf8Offsets.dfy` | byte offsets to character offsets |
| `SuiteMerge.dfy` | merging benchmark results |
| `Runs.dfy` | runs of a step system, and what every step keeps |
| `Powers.dfy`, `Sequences.dfy`, `Wrappers.dfy` | shared vocabulary |

Code that changes state in place is a class or a method with loops, proved against a function of its inputs or of
the old state; the properties are lemmas about that function. The concurrent parts are step systems: every atomic
load, store or compareExchange and every message is one step, memory is sequentially consistent (ECMA-262, sections
25.4 and 29), and the properties hold in every reachable state, over runs of any length.

## Where the code does less than one would expect

Each of these is proved, with the exact condition under which the code does meet the expectation.

- `get_all_dependencies` follows `edges`, which `from_files` draws from dependency to dependent, so it returns
  dependents. The comments at dependency_graph.rs:27-28 and 302 say the opposite; the model follows the code. The
  answer is right for a package exactly when every name linked to it, in either direction, lies on a closed walk with
  it; without cycles, exactly when it has no edges at all.
- The compilation order is a permutation of the files exactly when qualified names are distinct.
- A closure that throws on a worker leaves its result slot as it was: the join returns the result of the last thread
  that stored there, and so the 0 of the worker's comment exactly when none did or that result was 0. Its worker enters
  the idle pool twice: every worker is idle or serving exactly once more than its error messages have been handled.
- A channel delivers a value unchanged exactly when it is an unsigned 64-bit number of at most 53 significant bits, and
  a join returns a worker's result unchanged exactly when it has at most 53: both go through `Number`.
- A receive that reports "closed" can miss values. After a close with no send under way and none to follow, all
  reports come after the last value exactly when no receive had looked at `tail` before the last value was published.
- A mutex may be unlocked by anyone; exclusion breaks exactly when it is held by another thread.
- The fused-kernel key ignores which leaves share a buffer: a cached kernel is right exactly for the trees whose
  leaves alias alike. After `a + a`, the kernel computes `b + b` for `b + c`.
- The build-id stream does not always tell lists of files apart: a list has a stream of its own exactly when only its
  last item can be a file and no zero byte of that file is followed by what reads as frames. Lists without zero bytes
  are always told apart from each other. For a known list of paths, contents are determined exactly when no file can
  be closed by another zero byte than its own.
- `read_byte` answers undefined, until another kind of read, exactly when the head of the buffer is an empty message.
- Tensor indices are not checked: a write disturbs no other element exactly when its index is in range or its place
  lies outside the data.
- A merge keeps unique keys unique exactly when no benchmark that is appended whole lists a target twice, and merging a
  run again changes an answer exactly when such a benchmark first gives a row other than its last, and no later entry
  of it in the run has the target.

## Model

| member | source | states |
|---|---|---|
| `DependencyGraphs.DependencyGraph.FromFiles` | compiler/src/dependency_graph.rs:72-108 | Every name has the node of the last file so named, an edge runs from `u` to `v` exactly when `u` is a known name that a file named `v` imports, and the two edge maps are converses. |
| `DependencyGraphs.DependencyGraph.AddEdge` | compiler/src/dependency_graph.rs:155-167 | Adds one pair to the forward relation and the same pair, turned around, to the backward one; converses stay converses. |
| `DependencyGraphs.EdgesStayConverse` | compiler/src/dependency_graph.rs:155-167 | Forward and backward edges are converses after every sequence of `add_edge` calls. |
| `DependencyGraphs.DependencyGraph.TopologicalSort` | compiler/src/dependency_graph.rs:248-300 | The result lists every node once; each file whose name is on no cycle and behind none comes after all its dependencies, and all files on or behind a cycle come last. |
| `DependencyGraphs.KahnPhase` | compiler/src/dependency_graph.rs:263-287 | The queue loop emits exactly the nodes that are neither on a cycle nor behind one, each after all its predecessors. |
| `DependencyGraphs.KahnStep` | compiler/src/dependency_graph.rs:271-287 | One turn of the queue loop keeps its invariant: counts are degrees among the nodes not emitted, and the queue holds exactly the unemitted nodes of degree zero. |
| `DependencyGraphs.Decrement` | compiler/src/dependency_graph.rs:277-286 | No count that is decremented is zero, and the names queued are exactly those whose count becomes zero. |
| `DependencyGraphs.InDegrees` | compiler/src/dependency_graph.rs:252-261 | The count of every node is the number of its predecessors. |
| `DependencyGraphs.UnemittedIsTainted` | compiler/src/dependency_graph.rs:289-297 | When the queue is empty, every node that was not emitted is on a cycle or behind one. |
| `DependencyGraphs.AppendRemaining` | compiler/src/dependency_graph.rs:289-297 | The fallback loop appends exactly the nodes that the queue loop left out, once each. |
| `DependencyGraphs.CompletedOrder` | compiler/src/dependency_graph.rs:270-300 | Emitted nodes followed by all others make a complete compilation order. |
| `DependencyGraphs.OrderCoversFiles` | compiler/src/dependency_graph.rs:248-300 | The order is a permutation of all file indices if and only if no two files have the same qualified name. |
| `DependencyGraphs.SameNameHidesFile` | compiler/src/dependency_graph.rs:76-88 | Of two files with one qualified name, the first is not in the order. |
| `DependencyGraphs.AcyclicIffFullyOrdered` | compiler/src/dependency_graph.rs:174-300 | The graph has no cycle if and only if the order puts every dependency before every dependent. |
| `DependencyGraphs.DependencyGraph.DetectAllCycles` | compiler/src/dependency_graph.rs:174-190 | Depth-first search reports nothing if and only if the graph has no cycle, everything it reports is a cycle, and for every node on a cycle some report lies in its strongly connected component. |
| `DependencyGraphs.CycleSearch.Visit` | compiler/src/dependency_graph.rs:204-243 | A call leaves path and recursion stack as they were, marks its node, and keeps: the stack holds the names on the path, the path is a walk, and with nothing reported successors finish first. |
| `DependencyGraphs.CycleSearch.Report` | compiler/src/dependency_graph.rs:220-237 | The neighbour is always found on the path, and the record made from it is a closed walk with no repeated interior node and the files of its nodes. |
| `DependencyGraphs.Position` | compiler/src/dependency_graph.rs:222 | Finds the first occurrence of a name that is on the path. |
| `DependencyGraphs.ReportedCycleIsCycle` | compiler/src/dependency_graph.rs:220-237 | Whatever has the form of a report witnesses a cycle of the graph. |
| `DependencyGraphs.CyclesAreReported` | compiler/src/dependency_graph.rs:204-243 | When every edge either goes to a node that finished earlier or has been reported, each strongly connected component with a cycle has a report that starts in it. |
| `Digraph.FinishOrderAcyclic` | compiler/src/dependency_graph.rs:204-243 | An order of finishing in which successors come first leaves no room for a cycle: an empty report is complete. |
| `Digraph.BackwardWalkMeetsCycle` | compiler/src/dependency_graph.rs:289-297 | In a finite set where every node has a predecessor in the set, every node is on or behind a cycle. |
| `Digraph.OrderedIsUntainted` | compiler/src/dependency_graph.rs:270-287 | A node listed after all its predecessors, which are listed likewise, is on no cycle and behind none. |
| `DependencyGraphs.DependencyGraph.Analyze` | compiler/src/dependency_graph.rs:174-201 | Order and cycle report of one analysis together: the guarantees of both, on the same graph, a report for every component with a cycle included. |
| `DependencyGraphs.SearchFrom` | compiler/src/dependency_graph.rs:303-338 | The worklist search finds exactly the names reached in one or more steps, and ends. |
| `DependencyGraphs.DependencyGraph.GetAllDependencies` | compiler/src/dependency_graph.rs:303-319 | Exactly the names reached from the package along the forward map, that is, everything that depends on it. |
| `DependencyGraphs.DependencyGraph.GetAllDependents` | compiler/src/dependency_graph.rs:322-338 | Exactly the names that reach the package along the forward map: `v` is in the forward set of `u` if and only if `u` is in the backward set of `v`. |
| `Digraph.ForwardIsBackwardIff` | compiler/src/dependency_graph.rs:303-338 | The two sets of a package are the same if and only if every name linked to it by edges taken in either direction lies on a closed walk with it. |
| `Digraph.AcyclicForwardIsBackwardIff` | compiler/src/dependency_graph.rs:303-338 | In a graph without cycles the two sets of a package are the same if and only if it has no forward and no backward edge. |
| `DependencyGraphs.ImporterHasNoForwardSet` | compiler/src/dependency_graph.rs:303-319 | Of two files, the second importing the first, the importer has nothing in its forward set, and the imported file has the importer in its own. |
| `ThreadPool.ReachableSound` | compiler/data/rayzor_threads.js:137-238 | The whole invariant of the pool, the slots, the messages and the workers holds after every interleaving of single steps. |
| `ThreadPool.KeepStep` | compiler/data/rayzor_threads.js:160-238 | Every step of the main thread or of a worker keeps that invariant. |
| `ThreadPool.JoinAnswersOwnResult` | compiler/data/rayzor_threads.js:202-238 | Every join answers with the result of its own thread's closure, despite recycled slots; if the closure threw, with the result of the thread that stored last into its slot before the dispatch, or 0 if none had. A value read from a slot is converted to the nearest double. |
| `ThreadRuns.OutcomeIffAction` | compiler/data/rayzor_threads.js:185-199 | In every run a thread has ended with an outcome exactly when an action of the run ended it so: a spawn without an idle worker that created it, or the end of its closure at the worker that had it in hand. |
| `ThreadRuns.JoinAnswersAction` | compiler/data/rayzor_threads.js:185-233 | In every run a join answers for a thread that ran on the main thread what that action returned, or 0 if it threw, and for one that a worker ended with a result that result as a number; after a throw at a worker, 0 or a result that another worker ended with. |
| `ThreadRuns.JoinsAnsweredInOrder` | compiler/data/rayzor_threads.js:202-233 | The joins of known threads are answered in the order in which they are asked, each once and for the thread it asked for; only the last can be still under way. |
| `ThreadRuns.IdsCountSpawns` | compiler/data/rayzor_threads.js:160-161 | Thread ids count the spawns, from one above the workers' own. |
| `ThreadRuns.SpawnReusesLast` | compiler/data/rayzor_threads.js:39-51 | A spawn right after a join uses the worker and the slot that the join gave back. |
| `ThreadRuns.InlineIffAllBusy` | compiler/data/rayzor_threads.js:169-199 | While no closure has thrown, a spawn runs on the main thread exactly when every worker serves a thread that is not joined yet. |
| `ThreadPool.JoinedUnchangedIff` | compiler/data/rayzor_threads.js:222-233 | A returned result is joined as it is if and only if the closure ran on the main thread or the result has at most 53 significant bits. |
| `ThreadPool.LargeOddResultChanges` | compiler/data/rayzor_threads.js:223 | A run in which a closure returns 2^53 + 1 and the join answers 2^53. |
| `ThreadPool.ReachableTraced` | compiler/data/rayzor_worker.js:49-66 | In every run a cell holds the result of the thread that stored last into it, and a thread inherits that from its slot, or 0 when no thread has stored there. |
| `ThreadPool.SlotsNeverShared` | compiler/data/rayzor_threads.js:39-51 | No two unjoined threads share a slot, no slot in use is free, and slots stay inside the reserved region while the workers and the handled errors number no more than its slots. |
| `ThreadPool.PoolConserved` | compiler/data/rayzor_threads.js:160-238 | Idle workers plus unjoined threads equal the pool size plus the handled error messages, worker by worker too; free slots plus unjoined threads equal the slots ever made. |
| `ThreadPool.PoolWithoutThrows` | compiler/data/rayzor_threads.js:160-238 | While no closure has thrown, each worker is idle once or serves one unjoined thread, and `nextResultSlot` never exceeds the pool size. |
| `ThreadPool.FinishedIffJoinReady` | compiler/data/rayzor_threads.js:255-265 | `isFinished` answers 1 exactly for the threads whose result is published, joined or computed inline, which is when a join returns without waiting. |
| `ThreadPool.JoinNeverStuck` | compiler/data/rayzor_threads.js:217-221 | While a join spins, the worker that serves its thread always has a step to take. |
| `JoinProgress.StepLowersRank` | compiler/data/rayzor_worker.js:31-66 | Every step of the worker that serves an unpublished thread lowers the number of steps it still has to take for it, or publishes the result, and no step of anyone else changes that number. |
| `JoinProgress.WorkerStepsSettle` | compiler/data/rayzor_threads.js:217-221 | In every run, once the serving worker has taken that many steps, however interleaved, the result is published: joins end once closures do. |
| `JoinProgress.PolledIsWaiting` | compiler/data/rayzor_threads.js:217-221 | Whatever thread a join polls for is under way at its worker or published already. |
| `ThreadPool.ThrowAnswersZeroIff` | compiler/data/rayzor_worker.js:56-66 | The join of a throwing closure answers 0 if and only if no thread had stored into its slot, or the last that had stored 0. |
| `ThreadPool.ThrowJoinsStaleResult` | compiler/data/rayzor_worker.js:56-66 | A run in which a throwing closure is joined with the previous result of its recycled slot, not with 0. |
| `ThreadPool.ThrowReturnsWorkerTwice` | compiler/data/rayzor_threads.js:137-152 | A run in which a throwing closure puts its worker into the idle pool twice. |
| `ThreadRuntime.RayzorThreadRuntime.constructor` | compiler/data/rayzor_threads.js:39-51 | A fresh runtime is the initial state of the step system and meets its invariant. |
| `ThreadRuntime.RayzorThreadRuntime.AllocResultSlot` | compiler/data/rayzor_threads.js:39-44 | Hands out a slot of the region that no unjoined thread holds and that is no longer free, and keeps all slots apart. |
| `ThreadRuntime.RayzorThreadRuntime.ReleaseResultSlot` | compiler/data/rayzor_threads.js:46-51 | Takes back a slot that no unjoined thread holds, and keeps all slots apart. |
| `ThreadRuntime.RayzorThreadRuntime.SpawnReset` | compiler/data/rayzor_threads.js:169-180 | The first part of `spawn` on a worker is the step that pops worker and slot, resets the flag and records the thread. The invariant of the system is kept. |
| `ThreadRuntime.RayzorThreadRuntime.SpawnMessage` | compiler/data/rayzor_threads.js:181-182 | Posting the `run` message is one step. The invariant of the system is kept. |
| `ThreadRuntime.RayzorThreadRuntime.SpawnSynchronously` | compiler/data/rayzor_threads.js:185-199 | With no idle worker the closure runs at once, and a throw counts as 0. The invariant of the system is kept. |
| `ThreadRuntime.RayzorThreadRuntime.JoinEnter` | compiler/data/rayzor_threads.js:202-213 | A join of an unknown thread answers 0, one of a finished thread answers what that thread owes, and any other starts to poll. The invariant of the system is kept. |
| `ThreadRuntime.RayzorThreadRuntime.JoinSpin` | compiler/data/rayzor_threads.js:217-221 | One atomic load of the flag is one step, and the loop goes on exactly while the flag is not set. The invariant of the system is kept. |
| `ThreadRuntime.RayzorThreadRuntime.JoinFinish` | compiler/data/rayzor_threads.js:222-233 | Reading the value and giving back slot and worker is one step, and the answer is what the closure of the joined thread owes. The invariant of the system is kept. |
| `ThreadRuntime.RayzorThreadRuntime.HandleWorkerMessage` | compiler/data/rayzor_threads.js:137-152 | An error message returns its worker to the idle pool. The invariant of the system is kept. |
| `ThreadRuntime.RayzorThreadRuntime.WorkerTake` | compiler/data/rayzor_worker.js:31-39 | A worker takes its oldest message. The invariant of the system is kept. |
| `ThreadRuntime.RayzorThreadRuntime.WorkerClosureEnds` | compiler/data/rayzor_worker.js:40-48 | The closure returns or throws. The invariant of the system is kept. |
| `ThreadRuntime.RayzorThreadRuntime.WorkerStore` | compiler/data/rayzor_worker.js:49-52 | The value is written before the flag. The invariant of the system is kept. |
| `ThreadRuntime.RayzorThreadRuntime.WorkerPublish` | compiler/data/rayzor_worker.js:53-64 | The flag is set, after a value or after a throw. The invariant of the system is kept. |
| `ThreadRuntime.RayzorThreadRuntime.WorkerReport` | compiler/data/rayzor_worker.js:65 | After a throw, and only then, an error message is posted. The invariant of the system is kept. |
| `Channel.KeepStep` | compiler/data/rayzor_threads.js:417-500 | Every single load, data write and index store of one sender and one receiver, and every close, keeps the channel's invariant. |
| `Channel.SentIsReceivedThenBuffered` | compiler/data/rayzor_threads.js:417-494 | In every interleaving the values received are the first ones sent, each as its conversions leave it, the words of the others are in the buffer, in order, and the buffer never holds more than 63. |
| `Channel.NeverSameCell` | compiler/data/rayzor_threads.js:429-433 | The cell being read is never the cell being written. |
| `ChannelRuns.SendDecides` | compiler/data/rayzor_threads.js:424-439 | In every reachable state a sender that loads `tail` goes on to write exactly when fewer than 63 values lay between its two loads, blocking or not; otherwise `trySend` gives up and `send` starts over. |
| `ChannelRuns.ReceiveDecides` | compiler/data/rayzor_threads.js:465-494 | A receiver that loads `tail` goes on to read exactly when a value is in the buffer; otherwise `tryReceive` gives up and `receive` looks at `closed`. |
| `ChannelRuns.SendsAccounted` | compiler/data/rayzor_threads.js:417-456 | In every run the values sent, with the one under way, are those of all sends in order, without the ones that found 63 values and gave up: none is lost and none published twice. |
| `ChannelRuns.ReceivesAccounted` | compiler/data/rayzor_threads.js:459-494 | Every receive of a run ends with one value, one report "closed" or, for a `tryReceive` that saw an empty buffer, nothing; at most one is still under way. |
| `ChannelRuns.UninterruptedSend` | compiler/data/rayzor_threads.js:441-456 | A send that nobody interrupts publishes its value when fewer than 63 are in the buffer, and a `trySend` changes nothing when there are 63. |
| `ChannelRuns.UninterruptedReceive` | compiler/data/rayzor_threads.js:459-494 | A receive that nobody interrupts takes the first value if there is one; in an empty buffer `tryReceive` changes nothing, and `receive` reports "closed" on a closed channel, else starts over. |
| `ChannelRuns.ClosedIffAsked` | compiler/data/rayzor_threads.js:496-500 | In every run the channel is closed exactly when a close is in the run, and no receive reports "closed" before. |
| `Channel.OccupiedIsCount` | compiler/data/rayzor_threads.js:428 | The occupancy computed from the two wrapped indices is the number of values in the buffer. |
| `Channel.DeliveredUnchangedIff` | compiler/data/rayzor_threads.js:429-470 | A value is received as it was sent if and only if it is an unsigned 64-bit number of at most 53 significant bits. |
| `Channel.UnchangedIff` | compiler/data/rayzor_threads.js:470 | The conversions to a 64-bit word and back to a double leave an integer as it is under exactly that condition, negative numbers and 2^64 included. |
| `Channel.LargeOddValueChanges` | compiler/data/rayzor_threads.js:470 | A run in which 2^53 + 1 is sent and 2^53 is received. |
| `Numbers.ToNumberIsNearest` | compiler/data/rayzor_threads.js:470 | The conversion of a word gives a double, and no double is nearer. |
| `Numbers.ToNumberExactIff` | compiler/data/rayzor_threads.js:470 | It leaves an integer as it is if and only if that is a significand of 53 bits times a power of two. |
| `Numbers.FirstInexact` | compiler/data/rayzor_threads.js:470 | It is exact up to 2^53 in both directions and turns 2^53 + 1 into 2^53. |
| `Numbers.TieGoesToEven` | compiler/data/rayzor_threads.js:470 | Where two doubles are equally near, the one with the even significand is taken. |
| `Numbers.HalfwayRounds` | compiler/data/rayzor_threads.js:470 | An odd number between 2^53 and 2^54 becomes the neighbour that is a multiple of 4. |
| `Numbers.HalfwayNumbers` | compiler/data/rayzor_threads.js:470 | 2^53 + 1 goes down, and 2^53 + 3 goes up. |
| `Channel.DrainedBeforeReport` | compiler/data/rayzor_threads.js:459-477 | Once the channel is closed with no send under way and none to follow, and no receive has looked at `tail` too early, every report "closed" in every later run comes when all values sent have been received. |
| `Channel.EarlyLookReportsEarly` | compiler/data/rayzor_threads.js:465-477 | The condition is sharp: if a receive has looked too early, its report comes before all values sent are received. |
| `Channel.ClosedReportMisses` | compiler/data/rayzor_threads.js:465-477 | A receive about to report "closed" leaves in the buffer exactly the values published after its load of `tail`. |
| `Channel.ClosedReportCanMiss` | compiler/data/rayzor_threads.js:465-477 | A run in which a value sent before the close is missed by a receive that reports "closed". |
| `ChannelObject.WindowPush` | compiler/data/rayzor_threads.js:449-453 | Writing at `tail` and advancing it appends to the queue, around the end of the ring too. |
| `ChannelObject.WindowPop` | compiler/data/rayzor_threads.js:487-491 | Reading at `head` and advancing it takes the first of the queue. |
| `ChannelObject.RingChannel.constructor` | compiler/data/rayzor_threads.js:398-415 | A new channel is empty and open. |
| `ChannelObject.RingChannel.TrySend` | compiler/data/rayzor_threads.js:441-456 | Appends to the queue unless it holds 63 values, and says which. |
| `ChannelObject.RingChannel.TryReceive` | compiler/data/rayzor_threads.js:480-494 | Removes the first of the queue and returns it as a double; on an empty queue answers 0 and changes nothing. |
| `ChannelObject.RingChannel.Close` | compiler/data/rayzor_threads.js:496-500 | Marks the channel closed and keeps its contents. |
| `ChannelObject.RingChannel.Len` | compiler/data/rayzor_threads.js:507-514 | The length of the queue. |
| `ChannelObject.RingChannel.IsFull` | compiler/data/rayzor_threads.js:525-529 | Full exactly at 63 values. |
| `Mutex.MutualExclusion` | compiler/data/rayzor_threads.js:315-366 | With unlock left to holders, in every run at most one thread holds the mutex and the cell is 1 exactly while one does. |
| `Mutex.AttemptSucceedsIffFree` | compiler/data/rayzor_threads.js:315-354 | An attempt takes the mutex exactly when nobody holds it; otherwise it changes nothing but that a `tryLock` gives up. |
| `Mutex.UninterruptedLock` | compiler/data/rayzor_threads.js:315-354 | Without interference `lock` and `tryLock` take a free mutex; a held one leaves `tryLock` with nothing and `lock` at its next attempt. |
| `Mutex.UnlockFrees` | compiler/data/rayzor_threads.js:356-362 | After an unlock by the holder nobody holds the mutex. |
| `Mutex.StrayUnlockBreaksIffHeld` | compiler/data/rayzor_threads.js:356-362 | An unlock by another thread lets a second thread in if and only if the mutex is held. |
| `Semaphore.PermitsConserved` | compiler/data/rayzor_threads.js:370-393 | In every run the cell plus the successful acquires equal the initial count, and the cell is negative only if the initial count was. |
| `Semaphore.UninterruptedAcquire` | compiler/data/rayzor_threads.js:370-393 | Without interference an acquire takes a permit if there is one, and a non-blocking one changes nothing if there is none. |
| `Semaphore.BlockingEndsWithPermit` | compiler/data/rayzor_threads.js:370-393 | A blocking acquire ends only with a permit. |
| `Semaphore.SwapSucceedsIffUnchanged` | compiler/data/rayzor_threads.js:382 | The swap takes a permit exactly when the cell is still what the load saw. |
| `Semaphore.FailureMeansProgress` | compiler/data/rayzor_threads.js:382 | A compareExchange fails only because another acquire has succeeded since the load. |
| `LazyFusion.NameInjective` | gpu/src/kernel_ir.rs:82-107 | No two operators have the same name. |
| `LazyFusion.StreamPrefix` | gpu/src/lazy.rs:66-83 | A stream can be read in one way only: whatever follows, the tree at its front and its end are determined. |
| `LazyFusion.KeyIffShape` | gpu/src/lazy.rs:60-83 | Two trees give one stream if and only if they have the same shape and operators, whatever buffers their leaves name. |
| `LazyFusion.StreamHasher.HashOp` | gpu/src/lazy.rs:66-83 | The walk feeds the hasher the stream of the tree and nothing else. |
| `LazyFusion.InputCollector.Collect` | gpu/src/lazy.rs:100-122 | One walk adds the tree's new buffers once each, in order of first use, and the map sends each buffer to its place. |
| `LazyFusion.CollectInputs` | gpu/src/lazy.rs:93-98 | The buffers are the distinct leaves in order of first occurrence; the map is their numbering. |
| `LazyFusion.BindingsIffSharing` | gpu/src/lazy.rs:100-122 | Two trees get the same slot at every leaf if and only if their leaves alias alike, and then use equally many buffers. |
| `FusedKernel.Emitter.EmitOp` | gpu/src/codegen/wgsl_fused.rs:69-131 | The emitter appends exactly the lines of the tree, numbered on from its counter, and returns the operand that holds the result. |
| `FusedKernel.EmitFusedKernel` | gpu/src/codegen/wgsl_fused.rs:29-65 | The kernel of a tree with the numbering of its own leaves, for the given element type and number of inputs. |
| `FusedKernel.EmittedComputes` | gpu/src/codegen/wgsl_fused.rs:69-131 | The lines read only bound slots and earlier variables, and their result is the tree's value, for every meaning of the operators. |
| `FusedKernel.ScopedBindsSlots` | gpu/src/codegen/wgsl_fused.rs:76-80 | Code that is in scope for a number of inputs has all the tree's slots bound. |
| `FusedKernel.OpByOpAt` | gpu/src/lazy.rs:1-15 | Running operations one by one on whole buffers gives, at each place, the tree's value there. |
| `FusedKernel.CachedKernelIsOpByOp` | gpu/src/buffer.rs:165-201 | The kernel built from one tree, on the buffers of another of the same shape and sharing, computes the other's operation-by-operation result; a tree and itself included. |
| `FusedKernel.ServesIffSharing` | gpu/src/buffer.rs:176-188 | Among trees with one cache key, a kernel serves another tree if and only if the two trees' leaves alias alike. |
| `FusedKernel.AliasedKernelMiscomputes` | gpu/src/buffer.rs:176-188 | After `a + a`, the cached kernel gives 2 for the sum of buffers holding 1 and 2. |
| `FusedKernel.FusedCache.Materialize` | gpu/src/buffer.rs:165-201 | Over any run, a tree is given the kernel of the first tree with its shape and element type, and that kernel is right for it exactly when the two alias alike. |
| `BuildId.StepInjective` | compiler/build.rs:15-20 | One byte of FNV-1a is injective in the state and in the byte. |
| `BuildId.MulInjective` | compiler/build.rs:18 | Wrapping multiplication by the prime loses nothing, by its inverse modulo 2^64. |
| `BuildId.SuffixKeepsApart` | compiler/build.rs:15-20 | A common suffix merges no two states. |
| `BuildId.EditUnnoticedIff` | compiler/build.rs:15-20 | Replacing a stretch of the stream keeps the hash if and only if both stretches lead from the state before them to one state. |
| `BuildId.Hex16Injective` | compiler/build.rs:344 | The hexadecimal rendering tells all hashes apart. |
| `BuildId.Fnv64.Write` | compiler/build.rs:15-20 | Writing bytes folds the step over them. |
| `BuildId.Fnv64.WriteStr` | compiler/build.rs:22-25 | A text is written with a zero byte after it. |
| `BuildId.CollectFiles` | compiler/build.rs:356-374 | The walk appends the files at or below a path, in listing order. |
| `BuildFiles.CollectedExact` | compiler/build.rs:356-374 | The files collected from a path are exactly those that entry names lead to from it. |
| `BuildFiles.HashedExact` | compiler/build.rs:324-342 | Hashed are the five listed files and exactly the files found below the five listed directories. |
| `BuildFiles.SourceByteChangesId` | compiler/build.rs:303-387 | Changing one byte of any file found below a listed directory changes the id. |
| `BuildFiles.HeaderDecodes` | compiler/build.rs:303-322 | The start of the stream determines the package version and all target values, and what follows it. |
| `BuildFiles.Hex16ReadsBack` | compiler/build.rs:344 | The id is 16 hexadecimal digits that stand for the hash. |
| `BuildFiles.XorDigit` | compiler/build.rs:17 | Each binary digit of the exclusive-or is 1 exactly when the two digits differ. |
| `BuildFiles.KnownHash` | compiler/build.rs:6-20 | The hash of the text "a" is the published value of 64-bit FNV-1a. |
| `BuildId.HashPath` | compiler/build.rs:376-387 | A path contributes its name and its contents, or its name and a mark that it is missing. |
| `BuildId.HashTree` | compiler/build.rs:347-354 | A tree contributes its files in sorted order. |
| `BuildId.CacheBuildId` | compiler/build.rs:303-345 | The id is the rendered hash of the whole framed stream. |
| `BuildId.ListingOrderIrrelevant` | compiler/build.rs:347-374 | The id does not depend on the order in which directories list their entries. |
| `BuildId.HashedOnce` | compiler/build.rs:324-342 | No path is hashed twice, over all the listed files and directories. |
| `BuildId.EditKeepsIdIff` | compiler/build.rs:303-387 | Any edit of one hashed file, its removal included, keeps the id if and only if its old and new frame lead to one state: nothing hashed later hides it. |
| `BuildId.OneByteChangesId` | compiler/build.rs:303-387 | Changing exactly one byte of one hashed file always changes the id. |
| `BuildId.FramesDecode` | compiler/build.rs:376-387 | While names and contents hold no zero byte, the framed stream determines the paths, which of them are missing, and every content. |
| `BuildId.OneReadingIff` | compiler/build.rs:376-387 | With names shown apart and without zero bytes, a stream of frames is that of one list of files only if and only if no file is followed by another item and no file can be cut: a zero byte of its contents after which what is left of the stream reads as frames of other paths. |
| `BuildId.CollisionHasCut` | compiler/build.rs:376-387 | Two lists with one stream differ only by a cut in one of them: without a zero byte there is no collision. |
| `BuildId.CutGivesReading` | compiler/build.rs:376-387 | Every cut gives another list of files with the same stream. |
| `BuildId.AbsorbGivesReading` | compiler/build.rs:376-387 | A file that is followed by other items has the stream of one file that holds their frames in its contents. |
| `BuildId.ZeroFreeDecodes` | compiler/build.rs:376-387 | Lists without zero bytes have one stream if and only if they are equal. |
| `BuildId.FramesAreItems` | compiler/build.rs:376-387 | The stream of paths on a disk is that of their items, each a name with its contents or missing. |
| `BuildId.ItemsComeFromDisk` | compiler/build.rs:376-387 | Every list of distinct items is that of some disk. |
| `BuildId.LoneZeroReadsOnce` | compiler/build.rs:376-387 | A zero byte alone does no harm: one file that holds nothing else has a stream of its own. |
| `BuildContents.ContentsDeterminedIff` | compiler/build.rs:376-387 | For a fixed list of paths, the stream determines what is missing and all contents if and only if no file can also be closed by another zero byte than its own, so that what is left still reads as frames of the remaining paths. |
| `BuildContents.LastIsDetermined` | compiler/build.rs:376-387 | The last file of a list can never be closed elsewhere, whatever it holds. |
| `BuildContents.ContentsCanMove` | compiler/build.rs:376-387 | Two files can share out the same bytes among them in two ways. |
| `BuildId.ZeroByteImitatesFrame` | compiler/build.rs:376-387 | With a zero byte in its contents, one file has the same frames as two. |
| `Haxelib.ResolveInRepository` | compiler/src/haxelib.rs:118-153 | The search ends on any world, and what it attempts, in order, is the one resolution: the first of each name among the requests followed by what the attempts declare. Libraries and problems are those of the attempts. |
| `HaxelibChoice.LibrariesExact` | compiler/src/haxelib.rs:141-146 | The libraries are exactly those that the attempts choose: the directory of a path, with no version, or the one of the repository for the name and version, the development directory first when no version is asked for, else the version asked for or the current one. |
| `HaxelibChoice.ProblemsExact` | compiler/src/haxelib.rs:141-150 | A problem arises exactly for an attempt whose directory, repository, folder, version or readable manifest is missing, and says which. |
| `HaxelibChoice.LibrariesInOrder` | compiler/src/haxelib.rs:147-149 | The libraries come in the order of the attempts that yield them. |
| `HaxelibChoice.DeclaredExact` | compiler/src/haxelib.rs:147-149 | An attempt queues what the directory it chooses declares, and nothing if it yields no library. |
| `HaxelibChoice.AskedVersionIsFound` | compiler/src/haxelib.rs:179-208 | A version that is asked for and installed is the one found, whatever is current or in development. |
| `HaxelibChoice.CommasForDots` | compiler/src/haxelib.rs:184-203 | Directory names have commas where names and versions have dots, and are the same elsewhere. |
| `HaxelibChoice.VersionsApart` | compiler/src/haxelib.rs:203 | Versions that differ in more than dots have different directories. |
| `Haxelib.ResolutionUnique` | compiler/src/haxelib.rs:129-151 | That description has at most one solution. |
| `Haxelib.AttemptedOnce` | compiler/src/haxelib.rs:135-150 | No name is attempted twice and none that is provided; each attempt yields one library or one problem. |
| `Haxelib.DirectRequestsWin` | compiler/src/haxelib.rs:127-137 | Requested names come first, each as its first direct request has it; a declared dependency never replaces a direct request. |
| `Haxelib.AttemptedIffWanted` | compiler/src/haxelib.rs:118-153 | A name is attempted if and only if it is not provided and the requests lead to it. |
| `HxmlArgs.CollectArgs` | compiler/src/hxml.rs:362-411 | The recursive loop ends on any set of files, cyclic includes included, and appends the expansion of its lines. |
| `HxmlLines.FlagItem` | compiler/src/hxml.rs:370-381 | A line of a flag, white space and a plain value is that flag with that value, whatever white space is around and between them. |
| `HxmlLines.QuotedFlagItem` | compiler/src/hxml.rs:370-381 | Quotes around the value are taken off once, and white space inside them stays. |
| `HxmlLines.FlagAloneItem` | compiler/src/hxml.rs:374-378 | A flag alone has no value. |
| `HxmlLines.SilentItem` | compiler/src/hxml.rs:370-373 | A blank line and a comment say nothing. |
| `HxmlLines.BareItem` | compiler/src/hxml.rs:379-386 | A bare value that ends in `.hxml` is an include below the common directory, and any other an argument with an empty flag. |
| `HxmlLines.UnreadableInclude` | compiler/src/hxml.rs:382-402 | An include that cannot be read leaves one argument at its line, which says why, at the first reference to it, and nothing later. |
| `HxmlLines.TrimSplits` | compiler/src/hxml.rs:370 | Every line is its trimmed part between white space, so that the laws above speak of every line. |
| `HxmlArgs.InputFilesExact` | compiler/src/hxml.rs:171-197 | From a file, the files read are that file and exactly those its references lead to, each once. |
| `HxmlArgs.ArgumentsExact` | compiler/src/hxml.rs:362-411 | Every argument line of every file read comes out as exactly one argument with its flag and value, and each file's arguments in line order. |
| `HxmlArgs.ExpansionCloses` | compiler/src/hxml.rs:382-402 | No reference of the lines or of a file newly read is left out. |
| `HxmlArgs.ExpansionSound` | compiler/src/hxml.rs:382-402 | Nothing is read that the lines do not lead to. |
| `HxmlArgs.ExpansionInOrder` | compiler/src/hxml.rs:369-410 | Arguments of one file keep the order of its lines, and no line gives two. |
| `HxmlArgs.ArgsAreSaid` | compiler/src/hxml.rs:369-410 | Every argument is what its line says, or reports an include on that line that cannot be read. |
| `HxmlOrder.ExpansionIsPreorder` | compiler/src/hxml.rs:362-411 | The expansion of a file is its depth-first preorder. Arguments and files met have addresses, the line numbers that lead to them from the root; in the order of addresses, files are met at exactly the first references that stand in the root or in a file met, and the arguments are those of exactly the lines that have something to say there. |
| `HxmlOrder.PreorderIsExpansion` | compiler/src/hxml.rs:362-411 | That description has only one solution: whatever meets it has the arguments of the expansion and meets the same files. |
| `HxmlOrder.PlacesFollowAddresses` | compiler/src/hxml.rs:362-411 | One argument is before another if and only if its address is. |
| `HxmlOrder.IncludedFileIsOneBlock` | compiler/src/hxml.rs:382-402 | All that an included file brings, at every depth, is one contiguous block of the expansion, at the file's first reference; it is the file's own expansion, given the files met by then. |
| `HxmlOrder.LineIsOneBlock` | compiler/src/hxml.rs:382-402 | What one line brings is contiguous, after the arguments of earlier lines of the file and before those of later lines. |
| `HxmlBuilds.SplitArgs` | compiler/src/hxml.rs:199-209 | The loop splits the arguments: shared are those whose next separator is `--each`, the rest are divided at the `--next`s, all in order. |
| `HxmlBuilds.SplitUnique` | compiler/src/hxml.rs:199-209 | Only one split meets that description. |
| `HxmlBuilds.SplitCovers` | compiler/src/hxml.rs:199-209 | Every argument that is no separator is in exactly one group, and no separator is in any. |
| `HxmlBuilds.RetainedKeepsAll` | compiler/src/hxml.rs:210-215 | Dropping empty sections loses no argument and leaves no empty section among several. |
| `HxmlBuilds.RetainedExact` | compiler/src/hxml.rs:210-215 | The sections kept are exactly those that are not empty, each as it is and in order; if all are empty, one empty section. |
| `HxmlBuilds.FromArgs` | compiler/src/hxml.rs:199-226 | At least one build, one for each section kept, each made by the shared arguments and then its own. |
| `HxmlBuilds.HxmlConfig.Apply` | compiler/src/hxml.rs:228-294 | One argument applied in place is its effect on the configuration's value. |
| `HxmlFields.ListsHold` | compiler/src/hxml.rs:232-248 | After any arguments, class paths, libraries, defines and resources are the values of their own flags, in order. |
| `HxmlFields.NamesHold` | compiler/src/hxml.rs:251-271 | Macros are the values of their flag; a bare value is a source file exactly when it ends in `.hx`, and a class otherwise. |
| `HxmlFields.ValuesHold` | compiler/src/hxml.rs:233-283 | Switches are on exactly when given; mode, output and main class are what the last argument that says one says. |
| `HxmlFields.OthersHold` | compiler/src/hxml.rs:272-294 | The target is what the last target flag names; all other arguments are kept as text, with a warning exactly where the flag is not known. |
| `HxmlFields.TextReadsBack` | compiler/src/hxml.rs:347-354 | The text kept of an argument is a line that says it again. |
| `HxmlFields.FirstWordIs` | compiler/src/hxml.rs:278-281 | The main class of a run target is the first word of its value. |
| `HxmlFields.SplitsOnce` | compiler/src/hxml.rs:236-247 | A text is split at the first separator, and is whole without one. |
| `HxmlFields.MissingIncludeWarns` | compiler/src/hxml.rs:285-291 | The report of an include that cannot be read becomes a warning of the build. |
| `HxmlBuilds.BuildIsSharedThenSection` | compiler/src/hxml.rs:216-294 | Every list of a build is the shared list followed by the section's, and a single value is the section's where it sets one, else the shared one. |
| `TensorIndex.UnflatFlat` | src/wasm_cmd.rs:1452-1456 | For every shape of any rank, a multi-index in range is recovered from its place. |
| `TensorIndex.FlatUnflat` | src/wasm_cmd.rs:1452-1456 | Every place below the size is that of a multi-index in range. |
| `TensorIndex.StridesGivePlace` | compiler/data/rayzor_tensor_runtime.js:10-14 | The place of a multi-index is its inner product with the strides. |
| `TensorIndex.ComputeStrides` | compiler/data/rayzor_tensor_runtime.js:12-14 | The backward loop computes the row-major strides. |
| `TensorIndex.FlatIndex` | src/wasm_cmd.rs:1452-1456 | The backward loop computes the place, missing indices counting as 0. |
| `TensorIndex.ReadLaws` | src/wasm_cmd.rs:1449-1459 | Entries that an index leaves out are read as 0, extra ones are not looked at, and a read gives 0 where there is no data. |
| `TensorIndex.Tensor.Get` | src/wasm_cmd.rs:1449-1459 | Reads the element at the place, 0 outside the data. |
| `TensorIndex.Tensor.Set` | src/wasm_cmd.rs:1460-1469 | The written data are exactly those of the old with the one place replaced, if it exists; a value set at a multi-index in range is read back there, and every other multi-index in range reads as before. |
| `TensorIndex.OutOfShapeAliases` | src/wasm_cmd.rs:1452-1456 | For every shape, an index outside it whose place lies in the data has the place of another multi-index, which is in range. |
| `TensorIndex.OthersKeptIff` | src/wasm_cmd.rs:1460-1469 | A write leaves all other multi-indices in range as they were, whatever is written, if and only if its index is in range or its place lies outside the data. |
| `TensorIndex.ColumnTooFar` | src/wasm_cmd.rs:1452-1456 | In a 2 by 2 matrix, column 2 of row 0 is column 0 of row 1. |
| `TensorAlgebra.Transpose` | compiler/data/rayzor_tensor_runtime.js:71-76 | The nested loops fill every cell of the transpose from its own cell. |
| `TensorAlgebra.Multiply` | compiler/data/rayzor_tensor_runtime.js:101-110 | The nested loops fill every cell of the product with the inner product of its row and column. |
| `TensorAlgebra.TransposeTwice` | compiler/data/rayzor_tensor_runtime.js:71-76 | Transposing twice gives the matrix back. |
| `TensorAlgebra.TransposeOfProduct` | compiler/data/rayzor_tensor_runtime.js:71-110 | The transpose of a product is the product of the transposes in reverse. |
| `TensorAlgebra.ProductAssociates` | compiler/data/rayzor_tensor_runtime.js:101-110 | Multiplication is associative. |
| `TensorAlgebra.IdentityIsNeutral` | compiler/data/rayzor_tensor_runtime.js:101-110 | Multiplying by an identity, on either side, gives the matrix back. |
| `TensorAlgebra.SumsSwap` | compiler/data/rayzor_tensor_runtime.js:106 | The order of a double sum does not matter. |
| `TensorAlgebra.TensorTable.Alloc` | compiler/data/rayzor_tensor_runtime.js:9-17 | A new handle, never 0 and never one in use, for the given data, with the row-major strides and the element count; older handles keep their tensors. |
| `TensorAlgebra.TensorTable.TransposeOf` | compiler/data/rayzor_tensor_runtime.js:71-76 | 0 for an unknown handle or a tensor that is not a matrix, else a new matrix that is the transpose; data beyond the shape are not looked at. |
| `TensorAlgebra.TensorTable.ProductOf` | compiler/data/rayzor_tensor_runtime.js:101-110 | 0 for an unknown handle, else a new matrix that is the product. |
| `RecvBuffer.Socket.OnMessage` | compiler/data/rayzor_net_runtime.js:25-28 | A message is appended to the stream. |
| `RecvBuffer.Socket.Read` | compiler/data/rayzor_net_runtime.js:37-40 | Hands out the head chunk whole, or nothing when there is none. |
| `RecvBuffer.Socket.ReadByte` | compiler/data/rayzor_net_runtime.js:55-60 | Hands out the next byte of the stream; the head chunk loses it, and goes if that was all, and the other chunks stay; -1 exactly when there is no chunk, undefined exactly when the head chunk is empty. |
| `RecvBuffer.Socket.ReadBytes` | compiler/data/rayzor_net_runtime.js:61-70 | Ends, copies exactly the smaller of what is asked and what there is, from the front of the stream to consecutive places, and changes nothing else. |
| `RecvBuffer.DropKeepsChunks` | compiler/data/rayzor_net_runtime.js:61-70 | A read cuts the queue at one place; all chunks behind it stay as they were. |
| `RecvBuffer.ChunksAreAStream` | compiler/data/rayzor_net_runtime.js:55-70 | While no message is empty, every run of arrivals and byte reads is answered as by one plain stream: message boundaries cannot be observed. |
| `RecvBuffer.EmptyMessageBlocks` | compiler/data/rayzor_net_runtime.js:55-60 | An empty message hides the bytes behind it from `read_byte`. |
| `Utf8Offsets.ByteToChar` | diagnostics/src/lib.rs:357-372 | For every valid text and offset, the number of characters that end at or before the offset, stepping back at most three bytes, to a character's first byte. |
| `Utf8Offsets.BoundaryBelow` | diagnostics/src/lib.rs:366-369 | Between the first byte of the character an offset falls in and the offset there is no boundary. |
| `Utf8Offsets.EndByMonotone` | diagnostics/src/lib.rs:357-372 | Later offsets never give smaller counts. |
| `Utf8Offsets.CountOfText` | diagnostics/src/lib.rs:359 | Counting the bytes that start a character counts the characters of a text. |
| `Utf8Offsets.LabelRange` | diagnostics/src/lib.rs:388-401 | A label range is never empty, starts at the character that holds the label's first byte, and ends where the label's end falls or one character on. |
| `SuiteMerge.Merge` | compiler/examples/benchmark_runner.rs:2046-2081 | The loops compute the merge of the run into the suite of the file, or keep the run where there is no file. |
| `SuiteMerge.MergeRows` | compiler/examples/benchmark_runner.rs:2057-2067 | Rows are overwritten at the first row of their target or appended. |
| `SuiteMerge.MergeAnswers` | compiler/examples/benchmark_runner.rs:2046-2075 | For every run, duplicates included: about a benchmark of the file the last new row wins, and a benchmark new to the file answers with the first row of its first entry unless a later entry has the target. |
| `SuiteMerge.MergeIsUnion` | compiler/examples/benchmark_runner.rs:2046-2075 | For a run with unique keys the merge is the right-biased union by (benchmark, target): new rows win, and old rows not measured again survive. |
| `SuiteMerge.MergedSays` | compiler/examples/benchmark_runner.rs:2033-2081 | What the merged suite says: the run's system information if it has any, else the file's; about each key the run's row where it measured one, else the file's; without a file, the run. |
| `SuiteMerge.FindSorted` | compiler/examples/benchmark_runner.rs:2068-2070 | Sorting by target is stable and changes no answer. |
| `SuiteMerge.RemeasuredIsOrdered` | compiler/examples/benchmark_runner.rs:2068-2070 | A benchmark that was in the file and was run again has its rows in order of target. |
| `SuiteMerge.MergeTwiceIsOnce` | compiler/examples/benchmark_runner.rs:2046-2075 | For every run, merging it again leaves the answer for a key as it is if and only if the file had the benchmark before or the run ends on the row that it answers with: a later entry has the target, or its first and last row in the first entry are the same. |
| `SuiteMerge.UniqueAnswersWithLast` | compiler/examples/benchmark_runner.rs:2046-2075 | A run with unique keys always does. |
| `SuiteMerge.TargetListedTwice` | compiler/examples/benchmark_runner.rs:2046-2075 | A new benchmark that lists a target twice: its key is there twice after the merge, which answers with the first row, and merging again makes it answer with the second. |
| `SuiteMerge.UniqueKeptIff` | compiler/examples/benchmark_runner.rs:2046-2075 | Keys are unique afterwards if and only if they were before and no benchmark appended whole lists a target twice. |

## Left out

- DependencyGraphs.DependencyGraph.FromFiles: takes qualified names and imports as given, because `extract_package_name` only reads them off a syntax tree.
- DependencyGraphs.DependencyGraph.TopologicalSort: fixes no order among nodes that are ready together, because ordered sets and maps are walked in an arbitrary order here; the results hold for every order.
- ThreadPool.JoinAnswersOwnResult: closures return 64-bit integers, because compiled closures do; boxing of answers is not part of this model.
- ThreadPool.ThrowAnswersZeroIff: the result region starts zeroed, as it does where `rayzor_malloc` is exported; the fallback to a fixed address leaves there what memory held.
- Channel.SentIsReceivedThenBuffered: values sent are integers, because `BigInt` makes an integer of a value, or fails, before anything is written.
- TensorAlgebra.TensorTable.ProductOf: requires matrices, the second with a row for each column of the first, and data for their shapes, because the code checks nothing and reads undefined elements otherwise.
- TensorAlgebra.TensorTable.TransposeOf: requires data for the shape, because the code reads undefined elements otherwise.
- TensorIndex.Tensor.Set: elements are exact integers, because rounding is not the point; typed-array conversions are not modelled.
- FusedKernel.FusedCache.Materialize: keys kernels by the stream itself, because collisions of the 64-bit hash are outside the code's control; buffers are released by reference counting, which is not modelled.
- FusedKernel.EmittedComputes: operators have one arbitrary meaning per name, because shader text for each operator and floating-point arithmetic are the back end's.
- BuildId.CacheBuildId: the order of paths and the bytes they are shown as are parameters of the platform; trees are finite and links are not followed.
- Haxelib.ResolveInRepository: library directories are a finite map to the dependencies that their manifests and parameter files declare, and a library is its name, version and directory; class paths, defines and macros are not part of this model.
- HxmlArgs.CollectArgs: white space is ASCII only, canonical names are a function of paths, and files do not change while they are read.
- HxmlBuilds.FromArgs: leaves out the list of files read, which is the same for every build of a file.
- RecvBuffer.Socket.Read: hands out bytes; decoding them as text is the platform's.
- Futures, the inline fallbacks without shared memory, `sleep` and `yieldNow`.
- Channels with several senders or receivers: the `lock` word of a channel is allocated but never used.
- A release operation of the semaphore: the source has none.
- Timeouts and wake-ups of `Atomics.wait` and `Atomics.notify`: a waiting thread may take its next step at any time, so they add no behaviour.
- `condition_idents`, the manifest and snapshot generators of the build script, and `Dependency::parse`: they read text and would add only easy members.
- Command line, package files, native libraries, device calls and the rendering of reports.
