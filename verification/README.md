# net_base, verified

`net_base` is a coroutine runtime with a logging stack: on every thread one `IOManager` with one
`Scheduler` runs many `Executor`s, other threads hand work over through a lock-free list and a pipe,
and loggers write through a formatter pipeline to buffered files. This project models that core in
Dafny 4.11 and proves what it promises.

Check everything with `dafny verify dfyconfig.toml`.

## How it is organised

State machines and pure logic are functions over values, with theorems over every run; next to them
stands the code as it is written, as classes and loops proved to do exactly what those functions say.

| modules | subject |
|---|---|
| `RemoteHandoff`, `HandoffProgress`, `HandoffRuns` | `addRemoteTask`, `RemoteTaskList`, the wake-up pipe and the loop thread, interleaved step by step over an explicit node heap with address reuse |
| `Coroutine`, `ExecutorThread` | executors and thread-local pointers over one-shot continuations |
| `EventLoop`, `IoManager` | user-space event masks against the kernel's interest set; delivery of registrations |
| `Scheduler`, `SchedulerLoop` | the FIFO ready list and `threadScheduleFunc` |
| `Timers`, `TimerQueue` | the timer set, sweeps, and the epoll timeout |
| `FileStream`, `WritableFile` | the 65535-byte write buffer against a plain stream |
| `AsyncFlusher` | clients and worker of asynchronous file logging |
| `LogPattern` | the pattern parser and its printer |
| `Decimal`, `LogStream` | integer texts, the in-place conversions and the 5120-byte stream buffer |
| `Logger` | compiling a pattern into formatters and running them |
| `HostPort` | `host:port` splitting and port numbers |
| `Balancer` | round-robin scheduling |
| `Common` | shared vocabulary |

## Where the code departs from its intent

The model follows the code. Departures are stated by their condition, and shown by a run or an input
that meets it.

- `removeEvent` computes the bits that are *not* registered and never stores the new mask: it keeps
  the masks in agreement only when it has nothing to do (`RemoveAgreesOnlyWhenIdle`, `RemoveEffect`;
  run: `RemovingBreaksAgreement`).
- `blockPending` consults the call-once flags of the first event's descriptor for every event of a
  batch (`PersistenceFollowsTheFirstEvent`; run: `CallOnceBehindPersistent`). When the first event is
  the pipe's, this can read outside the vector (`PollDefinedExactly`; run: `PipeFirstIsUndefined`).
- An event with an error condition enqueues both executors, also a null one (`ErrorEventExactly`;
  run: `ErrorEnqueuesNull`). A null entry ends the drain of a stopping scheduler
  (`DrainIsCompleteIffNoNull`; run: `NullEntryStrandsTheRest`), and makes a running one block while
  work is ready (`BlocksOverWorkExactly`, `WaitsOverWorkExactly`; runs: `NullEntryBlocksTheLoop`,
  `WaitingOverReadyTaskHappens`).
- A descriptor is watched edge-triggered only until the kernel's entry is modified for the first time,
  by a further registration or a withdrawal (`RegisterEffect`, `WithdrawEffect`).
- Growing the vector to `fd * 1.5` entries covers `fd` only from 2 on (`GrowthCoversExactly`; run:
  `LowDescriptorIsUndefined`).
- `exec` from anywhere but the main executor stores the wrong continuation (`EnterOnlyFromMain`; run:
  `NestedEnterHappens`), and a second `run` ends in a jump to a consumed one
  (`SecondRunJumpsToConsumedContext`; run: `SecondRunHappens`).
- A `Scheduler` constructed while a coroutine is suspended strands that coroutine's next yield
  (`NewSchedulerExactly`; run: `SuspendedBeforeTheScheduler` after
  `SuspendedBeforeTheSchedulerHappens`).
- With exit-with-tasks off, `stop()` alone never ends the loop (`StoppedLeavesExactly`).
- When the loop has ended, the tasks published since its last exchange stay on the list for ever
  (`ExitAccountsForEveryTask`, `StrandedForever`; runs: `StrandingHappens`,
  `StrandingBeforeTheEndHappens`).
- `getNextInterval` reads the clock twice, and the clock is `gettimeofday`, which may be set back. When
  the earliest deadline passes between the readings the subtraction wraps, and the cast to `int` makes
  epoll_wait block without limit on a timer that has expired; the cast alone does the same to timers
  far ahead (`IntervalIsRemainingTimeExactly`, `BlocksWithPendingTimerExactly`,
  `TimeoutOversleepsExactly`; runs: `ExpiringBetweenReadingsBlocksForever`,
  `TwentyFiveDaysBlockForever`).
- `removeTimer` looks a timer up by its deadline alone and does not check that it found one
  (`RemovesTheTimerExactly`, `RemoveDefinedExactly`; runs: `CancellingErasesTheEarlierTimer`,
  `CancellingAfterTheSweep`, `CancellingErasesAnotherTimer`).
- A failed write loses the buffer for good (`FaithfulIffNoFailure`, `AppendFailsExactly`; run:
  `FailureLeavesAHole`).
- The constructor of `AsyncFileLogFlusher` that takes a `String`, which the flusher factory uses, never
  starts the worker thread (`NothingWrittenWithoutWorker`).
- `%%` does not consume its second percent sign (`RoundTripExactly`; input: `PercentIsNotEscaped`).
- An empty port text is accepted as port 0 (`GetPortFromString`; input: `EmptyPortIsZero`).
- The balancer's counter wraps at 2^64, which is fair only for a number of workers that divides it
  (`FairAcrossWrapExactly`; window: `UnfairWindow`).

## What the model takes as given

- Atomic operations are sequentially consistent steps; a pipe holds 65536 bytes and a full pipe
  blocks its writer; `read` takes up to eight bytes.
- A context is a one-shot continuation: jumping to it consumes it and yields one for the stack left.
- `registerEvent` and `addRemoteTask` are not given a null executor. The scheduler's model does allow
  null entries from anywhere.
- A task counts as started when it is taken from the ready list; an executor that is already Terminal
  is then skipped.
- An executor handed over or registered is known by the number of the call that did it, so that the
  same executor may appear many times.
- An event mask is a record of the five bits the code uses instead of a 32-bit word. Descriptors stay
  open, and epoll reports a descriptor at most once per call, and besides ERR and HUP only bits asked
  for.
- The clock, `strftime`, the outcome of every `::write` and `::close`, what a callback does and what
  a poll returns are parameters, universally quantified. `strftime`'s result fits its 64-byte buffer.
- A file call that has used up the given outcomes of `::write` is `Pending`; this makes the states in
  the middle of a call visible. A `::write` that accepts zero bytes is included.
- `multiset::find` returns the first of several equal timers; `isalpha` is that of the C locale;
  timer callbacks are not null, as `addTimer` asserts.
- Array bounds that the code leaves to its callers (room in the stream buffer) are preconditions.

## Model

| member | source | states |
|---|---|---|
| `RemoteHandoff.EveryInterleavingIsSafe` | include/coroutine/scheduler.h:121-140 | in every interleaving of any number of producers with the loop thread, also when freed addresses are reallocated: the published list is acyclic, disjoint from the list being walked and from every unpublished node, no freed node is reachable, every allocated node is accounted for; pushed tasks = listed + detached + handed to addExecutor as multisets, each task pushed at most once; batches are handed over one after the other, each newest first; handed = accepted + refused; every task is accepted and started at most once, and those not removed are started in acceptance order |
| `RemoteHandoff.NoLostWakeUp` | include/io/io_manager.h:55-58 | whenever the loop thread waits in epoll_wait on an empty pipe, every listed task belongs to a producer between its successful CAS and its pipe write |
| `HandoffProgress.WakeUpIsEnough` | src/io/io_manager.cpp:164-190 | in every reachable state in which the loop thread waits and the pipe holds a byte, it can go on by itself until every listed task has been handed over, newest first, and the list is empty |
| `HandoffProgress.WokenLoopCollects` | src/coroutine/scheduler.cpp:64-64 | the exact state after that: pipe and list empty, the nodes freed, the tasks accepted and queued in list order, or refused when stopping |
| `HandoffProgress.StoppingAcceptsNothing` | src/coroutine/scheduler.cpp:29-31 | once a scheduler is stopping, over whatever follows no task is accepted, the ready list never grows, every task handed over is refused, and a loop that does not wait never waits again |
| `HandoffProgress.RefusesOnlyAfterStop` | include/coroutine/scheduler.h:131-137 | in every run the tasks handed over are the accepted ones followed by the refused ones, and a scheduler that was not told to stop refuses nothing |
| `HandoffProgress.UndisturbedProducerPublishes` | include/coroutine/scheduler.h:121-129 | a producer that is not disturbed publishes its node, at once or after one failed CAS, which reads the head again |
| `HandoffProgress.DrainTakesItsReads` | src/io/io_manager.cpp:186-189 | a read takes at most eight bytes and the drain ends with the first read that finds none |
| `HandoffProgress.WalkHandsOverAll` | include/coroutine/scheduler.h:132-139 | a walk hands over the detached list from its head on and frees every node |
| `HandoffProgress.TheFirstEntryDecides` | src/coroutine/scheduler.cpp:66-77 | at the end of a walk an executor at the front is run, and a null entry or an empty list lets the loop wait, or leave iff it is stopping |
| `HandoffProgress.OffersAreQueued` | src/coroutine/scheduler.cpp:29-35 | what callbacks and polls add goes behind everything else, unless the scheduler is stopping |
| `HandoffProgress.EraseTakesOneEntry` | src/coroutine/scheduler.cpp:37-41 | removeExecutor takes one entry off the ready list and leaves the others in order |
| `HandoffProgress.QuitOnlyAtTop` | include/coroutine/scheduler.h:103-105 | the stop function ends the loop only at its top, and changes nothing else |
| `HandoffProgress.PipeIsBounded` | src/io/io_manager.cpp:142-147 | the pipe never holds more than 65536 bytes |
| `RemoteHandoff.QuietMeansDone` | src/coroutine/scheduler.cpp:58-77 | when the loop thread waits on an empty pipe and no addRemoteTask call is in progress, every task ever passed in was started, was refused by a stopping scheduler, was removed by removeExecutor, or is still ready |
| `RemoteHandoff.QuietWithoutNullsMeansDone` | src/coroutine/scheduler.cpp:58-77 | when moreover no null executor was ever queued, it was started, refused or removed |
| `RemoteHandoff.WaitsOverWorkExactly` | src/coroutine/scheduler.cpp:66-76 | the loop thread waits, or exits, over ready entries iff it popped a null entry with others behind it |
| `RemoteHandoff.KeepsInv` | include/coroutine/scheduler.h:119-140 | every atomic step of every thread keeps the seven-part invariant (shape, ownership, logs, numbering, wake-up, lock, ready list) |
| `RemoteHandoff.ShapeKeptByCas` | include/coroutine/scheduler.h:124-126 | a CAS that succeeds links the current list behind the new node, whatever happened to the remembered address since it was read; one that fails changes nothing |
| `RemoteHandoff.PrivateKeptByPublishing` | include/coroutine/scheduler.h:122-126 | publishing moves exactly the producer's own node to the list; all other unpublished nodes stay private |
| `RemoteHandoff.ShapeKeptByFree` | include/coroutine/scheduler.h:133-138 | deleting the walked node breaks neither the published list nor the rest of the walk |
| `RemoteHandoff.LoggedKeptByExchange` | include/coroutine/scheduler.h:132-132 | exchange(nullptr) turns the whole published list into one batch of the hand-over log |
| `RemoteHandoff.WakeUpKeptByLoop` | src/io/io_manager.cpp:184-190 | draining the pipe cannot lose a wake-up, because the next exchange always comes after it |
| `RemoteHandoff.ExclusiveKept` | src/io/io_manager.cpp:142-147 | at most one producer is between taking and releasing the wake lock |
| `HandoffRuns.StaleCasSucceeds` | include/coroutine/scheduler.h:121-129 | from every reachable state with a list to collect and two idle producers, a run exists in which a CAS succeeds on an address that was freed and reallocated since it was read |
| `HandoffRuns.StaleCasHappens` | include/coroutine/scheduler.h:121-140 | such states are reachable |
| `RemoteHandoff.ExitAccountsForEveryTask` | src/coroutine/scheduler.cpp:71-77 | when the loop thread has exited, the stranded list is exactly what was published since the last exchange, newest first; a task is settled (started, refused, removed or left ready) iff it is neither stranded nor still held by a producer before its CAS |
| `RemoteHandoff.StrandedForever` | src/coroutine/scheduler.cpp:71-97 | after that nothing is handed over, started or refused any more, whatever producers do |
| `HandoffRuns.StrandingHappens` | src/coroutine/scheduler.cpp:71-77 | a run in which a task is published after the loop thread has left |
| `HandoffRuns.StrandingBeforeTheEndHappens` | src/coroutine/scheduler.cpp:64-77 | a run in which a stranded task was published before the loop thread left, after its last exchange |
| `HandoffRuns.WaitingOverReadyTaskHappens` | src/coroutine/scheduler.cpp:64-76 | a run in which the loop thread waits on an empty pipe with every producer idle while a task is ready |
| `Coroutine.EveryRunIsSound` | src/coroutine/executor.cpp:155-167 | over every disciplined run (exec only from main, a scheduler constructed while nothing is suspended and run once) no jump targets a consumed continuation, the current pointer names the running stack, and every suspended frame recorded the executor that resumes it |
| `Coroutine.DisciplineKeepsInv` | src/coroutine/executor.cpp:255-281 | each disciplined exec, yield, kill, terminal, mainExec and mainYield is defined, keeps the invariant, and consumes exactly the live continuation it jumps to |
| `Coroutine.SwitchIsSound` | src/coroutine/executor.cpp:162-165 | a switch whose resumed frame names the leaving executor consumes one continuation, stores the new one in the leaving executor and disturbs no other |
| `Coroutine.SwitchToNew` | src/coroutine/executor.cpp:57-62 | the first switch to a new executor stores the caller's continuation in the caller, through the pointer passed along with the jump |
| `Coroutine.LeaveKeeps` | src/coroutine/executor.cpp:304-320 | yield and terminal return to the main executor and keep the invariant |
| `Coroutine.RunKeeps` | src/coroutine/executor.cpp:233-246 | entering the scheduler executor from the base executor keeps the invariant |
| `Coroutine.LoopExitKeeps` | src/coroutine/executor.cpp:237-254 | leaving the scheduler loop resumes the base executor's own continuation |
| `Coroutine.OneWorkerExecutes` | src/coroutine/executor.cpp:107-144 | in every reachable state at most one worker is in Exec, and the current pointer and the processor are on it |
| `Coroutine.ExecReturnsSettled` | src/coroutine/scheduler.cpp:78-93 | when exec returns to the loop the worker is Terminal or HoldUp, so the assert(false) branch is unreachable |
| `Coroutine.TerminalForever` | src/coroutine/executor.cpp:131-144 | a Terminal worker stays Terminal and never runs again, whatever follows |
| `Coroutine.FinishedForever` | src/coroutine/executor.cpp:64-77 | a worker whose callback returned, and a worker that was killed, is Terminal and never runs again, whatever follows |
| `Coroutine.FinishEffect` | src/coroutine/executor.cpp:138-144 | terminal() leaves the executor Terminal and the main executor running; no other state changes |
| `Coroutine.KillEffect` | src/coroutine/executor.cpp:131-136 | a killed worker is Terminal, running or not, and loses the processor iff it had it |
| `Coroutine.YieldEffect` | src/coroutine/executor.cpp:107-112 | a running worker that yields is HoldUp and the main executor runs; any other yield does nothing |
| `Coroutine.EnterEffect` | src/coroutine/executor.cpp:255-281 | a new or suspended worker is run; a Terminal one is left alone |
| `Coroutine.RunEffect` | src/coroutine/executor.cpp:233-246 | the scheduler executor runs |
| `Coroutine.LoopExitEffect` | src/coroutine/executor.cpp:237-254 | the scheduler executor is HoldUp and the base executor runs |
| `Coroutine.ConstructionEffect` | src/coroutine/scheduler.cpp:17-19 | a constructed executor is in Init without context; a scheduler makes its own the main one |
| `Coroutine.AssertionsFail` | src/coroutine/executor.cpp:99-105 | entering the main executor, and terminating an executor that does not run, fails |
| `Coroutine.EnterOnlyFromMain` | src/coroutine/executor.cpp:304-307 | entering a runnable worker keeps the invariant if and only if the caller is the main executor; otherwise the main executor's context is left naming another stack |
| `Coroutine.NewSchedulerExactly` | src/coroutine/scheduler.cpp:17-19 | constructing a scheduler keeps the invariant if and only if it is done on the base stack while no executor is suspended |
| `Coroutine.SuspendedBeforeTheScheduler` | src/coroutine/executor.cpp:229-231 | a worker suspended before that is resumed by the scheduler once, and its next yield jumps to a consumed continuation |
| `Coroutine.SuspendedBeforeTheSchedulerHappens` | src/coroutine/executor.cpp:107-112 | a disciplined run that leaves such a worker |
| `Coroutine.SecondRunJumpsToConsumedContext` | include/coroutine/scheduler.h:48-50 | after a second run the returning scheduler loop jumps to its own consumed continuation |
| `Coroutine.SecondRunHappens` | src/coroutine/scheduler.cpp:96-97 | a disciplined run after which a second run does this |
| `Coroutine.NestedEnterHappens` | src/coroutine/executor.cpp:304-307 | a disciplined run after which one worker entering another breaks the invariant |
| `ExecutorThread.ThreadLocals.constructor` | src/coroutine/executor.cpp:283-292 | a new thread satisfies the invariant |
| `ExecutorThread.ThreadLocals.MakeContext` | src/coroutine/executor.cpp:181-203 | a new one-shot continuation at the entry function, and nothing else, is created |
| `ExecutorThread.ThreadLocals.SwapContext` | src/coroutine/executor.cpp:155-167 | field by field the switch of the model |
| `ExecutorThread.ThreadLocals.DoExec` | src/coroutine/executor.cpp:255-281 | all six states of doExec |
| `ExecutorThread.ThreadLocals.ExecWorker` | src/coroutine/executor.cpp:99-105 | keeps the invariant; the switch is a good one |
| `ExecutorThread.ThreadLocals.YieldWorker` | src/coroutine/executor.cpp:107-112 | keeps the invariant, also when the executor does not run and nothing happens; the switch is a good one |
| `ExecutorThread.ThreadLocals.KillWorker` | src/coroutine/executor.cpp:131-136 | keeps the invariant; the switch is a good one |
| `ExecutorThread.ThreadLocals.TerminalWorker` | src/coroutine/executor.cpp:138-144 | does the model's Finish (see FinishEffect): the executor is Terminal and main runs; keeps the invariant |
| `ExecutorThread.ThreadLocals.ConstructScheduler` | src/coroutine/scheduler.cpp:17-19 | the new main executor; the invariant is kept and no stack is left |
| `ExecutorThread.ThreadLocals.MainExec` | src/coroutine/executor.cpp:233-246 | keeps the invariant; the switch is a good one |
| `ExecutorThread.ThreadLocals.MainYield` | src/coroutine/executor.cpp:237-254 | keeps the invariant; the switch is a good one |
| `EventLoop.EveryRunAgrees` | src/io/io_manager.cpp:184-221 | over every run of registrations and valid polls the kernel's mask, EPOLLET aside, equals registered_events, a descriptor is watched iff that mask is not zero, and no executor that is reused is null; the run is undefined iff some registration of a descriptor below 2 or some batch that starts with the pipe's event indexes outside the vector, so no ADD meets a present descriptor and no MOD or DEL an absent one |
| `EventLoop.EveryRunDeliversOnce` | src/io/io_manager.cpp:191-241 | over every run of call-once registrations and error-free polls a bit is registered iff its executor is not null, every registration is armed, enqueued exactly once, or replaced, never two of these, and no null executor is enqueued |
| `EventLoop.FatesAreFinal` | src/io/io_manager.cpp:49-59 | whatever follows in such a run, a replaced registration is never enqueued and an enqueued one never replaced or enqueued again |
| `EventLoop.RegisterAgrees` | src/io/io_manager.cpp:27-64 | registerEvent is defined iff it returns early or fd has an entry or is at least 2, and then it keeps the agreement; its epoll_ctl call cannot fail |
| `EventLoop.RegisterEffect` | src/io/io_manager.cpp:27-64 | returns true iff not stopped and read or write; then the slot holds the new executor with the given flag, its bit is registered, the other side is untouched, and the kernel watches edge-triggered iff it did not watch before; a stopped manager changes nothing |
| `EventLoop.GrowthCoversExactly` | src/io/io_manager.cpp:33-37 | after growing to fd * 1.5 entries index fd is valid iff it was before or fd >= 2 |
| `EventLoop.LowDescriptorIsUndefined` | src/io/io_manager.cpp:33-53 | registering descriptor 0 or 1 first indexes outside the vector |
| `EventLoop.PollEventAgrees` | src/io/io_manager.cpp:191-221 | handling one event of a watched descriptor keeps the agreement, whatever its bits |
| `EventLoop.PollEventDefinedExactly` | src/io/io_manager.cpp:192-209 | when no reused executor is null, handling an event is free of out-of-range reads, null calls and failed epoll_ctl iff it carries neither IN nor OUT or the first event's descriptor has an entry |
| `EventLoop.PollDefinedExactly` | src/io/io_manager.cpp:184-221 | a poll of valid reports is undefined iff its batch starts with the pipe's event, the vector has no entry for the pipe, and a later event carries IN or OUT; otherwise the agreement is kept |
| `EventLoop.PollAllKeepsHeld` | src/io/io_manager.cpp:194-241 | polling never leaves a persistent registration without executor |
| `EventLoop.RegisterKeepsHeld` | src/io/io_manager.cpp:49-59 | nor does registering |
| `EventLoop.PipeFirstIsUndefined` | src/io/io_manager.cpp:184-209 | a registration followed by a poll that reports the pipe and then the descriptor is such a run |
| `EventLoop.PollAllAgrees` | src/io/io_manager.cpp:184-243 | the loop over the polled events keeps the agreement |
| `EventLoop.PollEnqueuesExactly` | src/io/io_manager.cpp:184-243 | a poll of valid reports hands over exactly the executors its events report, in the order of the batch, reader before writer, call-once or persistent |
| `EventLoop.PollEventEnqueues` | src/io/io_manager.cpp:224-241 | in any state a handled event enqueues the reader iff it carries IN, ERR or HUP, then the writer iff it carries OUT, ERR or HUP |
| `EventLoop.DeliverEffect` | src/io/io_manager.cpp:224-241 | an executor that is handed over is forgotten iff it is call-once; masks stay |
| `EventLoop.WithdrawEffect` | src/io/io_manager.cpp:191-221 | a reported side is withdrawn iff the first event's descriptor is call-once on that side, and nothing else is; the kernel stays edge-triggered iff nothing was withdrawn |
| `EventLoop.PollEventFrame` | src/io/io_manager.cpp:184-243 | handling an event leaves every other descriptor and all call-once flags alone |
| `EventLoop.RegisterKeepsOnce` | src/io/io_manager.cpp:49-64 | a call-once registration replaces the executor in its slot and gives every ticket exactly one fate |
| `EventLoop.PollEventKeepsOnce` | src/io/io_manager.cpp:222-241 | an error-free event enqueues only executors that were armed, and disarms them |
| `EventLoop.ErrorEventExactly` | src/io/io_manager.cpp:224-241 | in every reachable state an event with ERR or HUP is defined iff it carries neither IN nor OUT or the first event has an entry, and then enqueues both executors, null ones included; where bits and executors matched they still match iff the event carried every registered bit |
| `EventLoop.ErrorEnqueuesBoth` | src/io/io_manager.cpp:224-241 | in any state whatever, a handled error event enqueues both executors |
| `EventLoop.ErrorEnqueuesNull` | src/io/io_manager.cpp:224-241 | a registration for reading followed by a bare error enqueues a null executor and leaves a bit without executor |
| `EventLoop.PersistenceFollowsTheFirstEvent` | src/io/io_manager.cpp:194-241 | a delivered read or write event stays registered iff the descriptor of the first event of the batch is persistent for that side; its bit and its executor still match iff the two flags are equal |
| `EventLoop.CallOnceBehindPersistent` | src/io/io_manager.cpp:194-241 | a run in which a call-once registration polled behind a persistent one is enqueued, stays registered and has lost its executor |
| `EventLoop.RemoveAgreesOnlyWhenIdle` | src/io/io_manager.cpp:73-91 | removeEvent keeps the agreement iff it has nothing to remove |
| `EventLoop.RemovingBreaksAgreement` | src/io/io_manager.cpp:73-91 | registering and removing one event breaks it |
| `EventLoop.RemoveEffect` | src/io/io_manager.cpp:73-91 | removing registered events makes the kernel stop watching all of them, keeps the mask, and forgets both executors unless an unregistered bit was given for them |
| `IoManager.IOManager.constructor` | src/io/io_manager.cpp:132-140 | the manager starts in agreement, watching only the pipe |
| `IoManager.IOManager.EpollAdd` | src/io/io_manager.cpp:149-152 | EPOLL_CTL_ADD on an absent descriptor |
| `IoManager.IOManager.EpollMod` | src/io/io_manager.cpp:154-157 | EPOLL_CTL_MOD on a present descriptor |
| `IoManager.IOManager.EpollDel` | src/io/io_manager.cpp:159-162 | EPOLL_CTL_DEL on a present descriptor |
| `IoManager.IOManager.WidenInterest` | src/io/io_manager.cpp:39-47 | both masks are widened by the same bits |
| `IoManager.IOManager.StoreExecutor` | src/io/io_manager.cpp:49-59 | the new executor and flag in their slot, the old one replaced |
| `IoManager.IOManager.RegisterEvent` | src/io/io_manager.cpp:27-64 | the whole new state and return value, with the agreement and the non-null reused executors kept |
| `IoManager.IOManager.HasEvent` | src/io/io_manager.cpp:66-71 | true iff the kernel watches the descriptor for that kind of event |
| `IoManager.IOManager.HandOver` | src/io/io_manager.cpp:224-241 | the executor of one slot is enqueued, and forgotten iff call-once |
| `IoManager.IOManager.RemainingInterest` | src/io/io_manager.cpp:192-209 | the bits left, by the flags of the first event's descriptor |
| `IoManager.IOManager.WithdrawInterest` | src/io/io_manager.cpp:211-219 | both masks are narrowed to the bits left, by MOD or DEL |
| `IoManager.IOManager.HandleEvent` | src/io/io_manager.cpp:184-243 | one turn of the event loop |
| `IoManager.IOManager.BlockPending` | src/io/io_manager.cpp:184-244 | the whole batch, with the agreement and the non-null reused executors kept |
| `Scheduler.LoopIsFifo` | src/coroutine/scheduler.cpp:58-96 | in every run, whatever callbacks, producers and the poller do, popped entries followed by waiting ones are exactly the accepted entries minus the removed ones, in acceptance order |
| `Scheduler.ServedInTurn` | src/coroutine/scheduler.cpp:60-93 | when nothing is removed and the loop is not stopped early, the first n entries, if none is null, are run in the next n rounds, one each and in order |
| `Scheduler.RunningRound` | src/coroutine/scheduler.cpp:64-82 | a round that finds an executor takes exactly that entry, lets it act, and goes on |
| `Scheduler.StopFunctionLeaves` | include/coroutine/scheduler.h:103-105 | a stop function that answers true ends the loop of a stopped scheduler at once |
| `Scheduler.RemovesTheFirstEntry` | src/coroutine/scheduler.cpp:37-41 | removeExecutor takes out the first entry of the executor and nothing else |
| `Scheduler.RemovesNothingExactly` | src/coroutine/scheduler.cpp:37-41 | it changes nothing iff the executor is not queued |
| `Scheduler.StopExactly` | include/coroutine/scheduler.h:52-58 | stop() starts the drain with exit-with-tasks on and otherwise only marks the scheduler stopped |
| `Scheduler.CallbackEffect` | src/coroutine/scheduler.cpp:29-41 | what a callback adds is queued last unless the scheduler is stopping; removals and stops take effect in order |
| `Scheduler.DrainsOnStop` | src/coroutine/scheduler.cpp:71-77 | a draining loop accepts nothing more, leaves only with an empty ready list, and leaves within one round more than the list is long |
| `Scheduler.DrainingStep` | src/coroutine/scheduler.cpp:60-77 | one round of a draining loop leaves iff nothing is ready and otherwise shortens the list |
| `Scheduler.DrainIsCompleteIffNoNull` | src/coroutine/scheduler.cpp:71-74 | when callbacks remove nothing, the drain leaves nothing behind iff no entry but the last is null |
| `Scheduler.NullEntryStrandsTheRest` | src/coroutine/scheduler.cpp:71-74 | a run from a new scheduler that leaves an executor behind |
| `Scheduler.BlocksOverWorkExactly` | src/coroutine/scheduler.cpp:66-76 | the loop blocks while entries are ready iff the entry it popped is null and not the only one |
| `Scheduler.NullEntryBlocksTheLoop` | src/coroutine/scheduler.cpp:66-76 | a run from a new scheduler that blocks with an executor ready |
| `Scheduler.BlockPendingNeverRefused` | src/coroutine/scheduler.cpp:71-76 | in every round that blocks, each addExecutor made inside the block function succeeds and is queued in call order behind everything else |
| `Scheduler.StoppingOnlyShrinks` | src/coroutine/scheduler.cpp:29-41 | callbacks of a stopping scheduler can only shorten the ready list |
| `Scheduler.RefusesAll` | src/coroutine/scheduler.cpp:29-31 | a stopping scheduler refuses every offer |
| `Scheduler.RemoveKeepsOrder` | src/coroutine/scheduler.cpp:37-41 | removing erases one entry and keeps the order of the others |
| `Scheduler.StopAloneDoesNotLeave` | include/coroutine/scheduler.h:103-105 | with exit-with-tasks off the loop is left only in a round whose stop function answers true |
| `Scheduler.StoppedLeavesExactly` | include/coroutine/scheduler.h:52-58 | after stop() with exit-with-tasks off the loop is left iff a stop function answers true |
| `SchedulerLoop.SchedulerThread.constructor` | src/coroutine/scheduler.cpp:8-22 | an empty, ordered scheduler |
| `SchedulerLoop.SchedulerThread.AddExecutor` | src/coroutine/scheduler.cpp:29-35 | appends and answers true iff not stopping |
| `SchedulerLoop.SchedulerThread.RemoveExecutor` | src/coroutine/scheduler.cpp:37-41 | erases the first entry of the executor, if any |
| `SchedulerLoop.SchedulerThread.Stop` | include/coroutine/scheduler.h:52-58 | sets the flag chosen by exit-with-tasks |
| `SchedulerLoop.SchedulerThread.Turn` | src/coroutine/scheduler.cpp:60-93 | one turn of the loop does what the model's iteration does |
| `SchedulerLoop.SchedulerThread.ThreadScheduleFunc` | src/coroutine/scheduler.cpp:58-97 | the loop does what the model's loop does, keeps acceptance order, and empties a draining list without null entries |
| `Timers.Deadline` | include/base/timer.h:34-42 | the deadline is now + interval iff that does not overflow, and the largest stamp otherwise |
| `Timers.SweepIsExact` | include/base/timer.h:74-97 | takeExpiredTimers returns exactly the timers with deadline <= now, by deadline and first in first out among equals, keeps all others, puts back one copy of each repeating one, with the same callback and interval and due one interval after its clock reading (or at the largest stamp when that overflows), adds nothing else, and keeps the set sorted |
| `Timers.CopiesExactly` | include/base/timer.h:88-93 | the timers put back are the repeating ones, one each and in order, with the same callback and interval, repeating, and the saturated deadline |
| `Timers.ExpiredExactly` | include/base/timer.h:81-85 | lower bound plus the run of equal deadlines is exactly the expired part |
| `Timers.TakeFirstIsExact` | include/base/timer.h:116-135 | takes nothing iff nothing has expired, otherwise the earliest timer, with exactly one such copy put back if it repeats |
| `Timers.InsertKeepsOrder` | include/base/timer.h:63-68 | insertion keeps the set sorted by deadline, then by insertion |
| `Timers.EveryRunIsOrdered` | include/base/timer.h:63-143 | the set stays sorted over every run of insertions, sweeps and removals at any clock readings, and the run is undefined iff a removal finds no timer with its deadline |
| `Timers.IntervalIsRemainingTimeExactly` | include/base/timer.h:99-107 | for any two clock readings getNextInterval is the time remaining at the second iff the earliest deadline does not lie between them |
| `Timers.TimeoutOversleepsExactly` | src/io/io_manager.cpp:168-171 | for any two readings: the epoll timeout is -1 without timers; it is negative or longer than the time left iff the deadline passes between the readings, and not by a multiple of 2^32 ms, or bit 31 of the remaining time is set; outside the race it is exact iff less than 2^31 ms remain |
| `Timers.BlocksWithPendingTimerExactly` | src/io/io_manager.cpp:169-170 | for any two readings: a pending timer makes epoll_wait block without limit iff the deadline passes between them by an amount whose low 32 bits are 1 to 2^31, or bit 31 of the remaining time is set |
| `Timers.ExpiringBetweenReadingsBlocksForever` | include/base/timer.h:103-106 | a deadline that passes between readings one millisecond apart does so |
| `Timers.TwentyFiveDaysBlockForever` | src/io/io_manager.cpp:169-170 | a timer 2^31 ms ahead does so |
| `Timers.FullSleepExpiresSomething` | src/io/io_manager.cpp:168-181 | for any two readings: after sleeping a whole non-negative timeout the sweep returns something iff the deadline had passed at the second reading, or had not passed at the first and was less than 2^31 ms away |
| `Timers.RemoveDefinedExactly` | include/base/timer.h:137-143 | removeTimer erases the end iterator iff no timer of the set has the given deadline |
| `Timers.RemoveErasesTheFirst` | include/base/timer.h:137-143 | otherwise it erases the first timer with that deadline and keeps the order of the others |
| `Timers.RemovesTheTimerExactly` | include/base/timer.h:137-143 | for any timer, still in the set or not, removeTimer erases exactly that timer iff it is in the set and no earlier one has its deadline |
| `Timers.CancellingATakenTimer` | include/base/timer.h:137-143 | cancelling a timer that is no longer in the set, when defined, erases another one with its deadline |
| `Timers.CancellingErasesTheEarlierTimer` | include/base/timer.h:137-143 | a run with two timers of one deadline in which cancelling the second erases the first |
| `Timers.CancellingAfterTheSweep` | include/base/timer.h:137-143 | a run in which a swept timer is cancelled and the end iterator erased |
| `Timers.CancellingErasesAnotherTimer` | include/base/timer.h:137-143 | a run in which cancelling a swept timer erases one added later |
| `TimerQueue.TimerManager.constructor` | include/base/timer.h:145-148 | an empty, sorted set |
| `TimerQueue.TimerManager.AddTimer` | include/base/timer.h:63-68 | inserts behind equal deadlines; the set stays sorted |
| `TimerQueue.TimerManager.EndOfExpired` | include/base/timer.h:81-85 | the iterator loop ends at the end of the expired part |
| `TimerQueue.TimerManager.TakeExpiredTimers` | include/base/timer.h:74-97 | result and remaining set of an exact sweep |
| `TimerQueue.TimerManager.RearmLoop` | include/base/timer.h:88-93 | every repeating timer is inserted again with the clock reading of its turn |
| `TimerQueue.TimerManager.TakeFirstIfExpired` | include/base/timer.h:116-135 | result and remaining set of taking the first expired timer |
| `TimerQueue.TimerManager.RemoveTimer` | include/base/timer.h:137-143 | erases the first timer with the deadline; the set stays sorted |
| `TimerQueue.TimerManager.GetNextInterval` | include/base/timer.h:99-107 | the largest stamp without timers, otherwise the remaining time iff the deadline does not lie between the two readings |
| `FileStream.BufferingRefinesStream` | include/base/file.h:28-52 | with arbitrary partial writes and retries, while calls succeed disk ++ buffer is the concatenation of all appends with at most 65535 buffered bytes; up to and including the first call that does not, the disk is a prefix of it |
| `FileStream.AppendRefinesStream` | include/base/file.h:28-52 | a successful append extends the stream by its data; at every moment the disk is a prefix; a failing append loses bytes |
| `FileStream.CloseAfterSuccessIsComplete` | include/base/file.h:54-61 | a successful close after successful appends makes the file equal to the stream |
| `FileStream.CloseWritesStream` | include/base/file.h:54-61 | at every moment of a close the disk is a prefix of the stream, and a successful close writes all of it |
| `FileStream.WritesPrefix` | include/base/file.h:107-122 | write puts a prefix of its data on disk, all of it iff it succeeds |
| `FileStream.FaithfulIffNoFailure` | include/base/file.h:101-105 | going on after failures, the file stands for the whole stream iff no call fails, by the lengths of the data and the outcomes of ::write alone, and is strictly shorter otherwise |
| `FileStream.WriteFailsExactly` | include/base/file.h:107-122 | a write fails iff the first error of ::write comes before all bytes were accepted |
| `FileStream.WrittenExactly` | include/base/file.h:107-122 | exactly the bytes accepted before the first error reach the disk, up to the data at hand |
| `FileStream.CloseExactly` | include/base/file.h:54-61 | a close succeeds iff the flush and ::close do, and reports a failure of either |
| `FileStream.AppendWithoutError` | include/base/file.h:28-52 | without errors of ::write an append does not fail |
| `FileStream.AppendFailsExactly` | include/base/file.h:28-52 | an append fails iff it overflows the buffer and the flush of the full buffer fails, or the direct write of a rest of a buffer or more |
| `FileStream.FittingAppendSucceeds` | include/base/file.h:32-39 | an append that fits the buffer never fails |
| `FileStream.FailureLeavesAHole` | include/base/file.h:41-43 | a failing append that loses all its data, followed by one that succeeds |
| `FileStream.AppendContinues` | include/base/file.h:107-122 | further outcomes of ::write continue a half-done append: nothing on disk is taken back, and an append that has returned is not affected |
| `WritableFile.Writer.constructor` | include/base/file.h:63-73 | an empty buffer |
| `WritableFile.Writer.Write` | include/base/file.h:107-122 | the retry loop, against the model |
| `WritableFile.Writer.FlushBuffer` | include/base/file.h:101-105 | the buffer is dropped whatever write returned |
| `WritableFile.Writer.AppendData` | include/base/file.h:28-52 | disk, buffer and status of an append |
| `WritableFile.Writer.CloseFile` | include/base/file.h:54-61 | disk, buffer and status of a close |
| `AsyncFlusher.EveryInterleavingKeepsOrder` | include/logging/logger_flusher.h:349-369 | in every interleaving of flush calls with the worker, while writes succeed, disk ++ file buffer ++ pool is all flushed strings in lock order, and the disk is always a prefix of them; the mutex has one owner |
| `AsyncFlusher.EveryInterleavingIsFaithful` | include/logging/logger_flusher.h:66-72 | in every interleaving what a client passed to flush is what was pushed for it, each string once and in its order, and then the string still in flight |
| `AsyncFlusher.WorkerEmptiesThePool` | include/logging/logger_flusher.h:349-355 | the worker goes on with the first string while there is one and lets go of the mutex exactly when there is none |
| `AsyncFlusher.InOrderKept` | include/logging/logger_flusher.h:349-355 | every step keeps that order, also one that continues a half-done append |
| `AsyncFlusher.DiskOnlyGrows` | include/logging/logger_flusher.h:349-355 | no step takes back what is on disk |
| `AsyncFlusher.NothingWrittenWithoutWorker` | include/logging/logger_flusher.h:302-306 | a flusher built without its worker keeps everything in its pool and writes nothing, whatever the clients do |
| `AsyncFlusher.AsyncFileFlusher.PushText` | include/logging/logger_flusher.h:66-72 | the string goes to the back of the pool |
| `AsyncFlusher.AsyncFileFlusher.DoFlush` | include/logging/logger_flusher.h:349-355 | empties the pool into the file in order; no append fails unless ::write reports an error, and strings that fit the buffer are only buffered |
| `LogPattern.RoundTripExactly` | src/base/string_parsers.h:16-93 | parsing inverts printing for exactly the canonical token lists: no two literals in a row, percent signs of a literal only at its end and before a directive, keys of letters or closing braces, formats without closing brace |
| `LogPattern.WellFormedRoundTrip` | src/base/string_parsers.h:16-93 | in particular for non-empty percent-free literals, none adjacent, non-empty alphabetic keys and formats without closing brace |
| `LogPattern.ShortFormSurvives` | src/base/string_parsers.h:16-93 | every canonical list is also parsed back from the text that leaves out the braces of an empty format wherever the key still ends there |
| `LogPattern.PlainDirectiveIsParsed` | src/base/string_parsers.h:37-78 | `%key`, up to the end or a character that is neither part of a key nor an opening brace, is the directive with that key and an empty format |
| `LogPattern.UnclosedIsReported` | src/base/string_parsers.h:81-85 | a format that is never closed is reported in front of the literal collected so far, and the text behind the percent sign is read again |
| `LogPattern.UnclosedBecomesText` | src/base/string_parsers.h:81-90 | without further percent signs that text becomes one literal |
| `LogPattern.KeyCharacters` | src/base/string_parsers.h:38-42 | the characters of a key are the ASCII letters and the closing brace |
| `LogPattern.ClosingBraceBelongsToKey` | src/base/string_parsers.h:38-42 | a closing brace without an opening one belongs to the key |
| `LogPattern.DateWithoutFormat` | src/base/string_parsers.h:37-78 | `%d` alone is the date directive with an empty format |
| `LogPattern.CanonicalSurvives` | src/base/string_parsers.h:19-90 | every canonical list is parsed back from its printed text |
| `LogPattern.ErrorFreeIsCanonical` | src/base/string_parsers.h:72-85 | a pattern without unclosed format parses to a canonical list |
| `LogPattern.ParsingNeverShrinks` | src/base/string_parsers.h:81-85 | the printed tokens are never shorter than the pattern, and at least sixteen characters longer for every error |
| `LogPattern.PrintingNormalizes` | src/base/string_parsers.h:16-93 | printing the tokens of an error-free pattern gives a pattern with the same tokens |
| `LogPattern.PercentIsNotEscaped` | src/base/string_parsers.h:24-29 | `100%%` is the text `100%` followed by a directive with an empty key |
| `LogPattern.ScanDirective` | src/base/string_parsers.h:31-70 | the inner index loop terminates on every input and finds exactly the key, the format and the end of the directive, or that the format is never closed |
| `LogPattern.TakeDirective` | src/base/string_parsers.h:31-85 | one turn of the outer loop at a percent sign continues the parse and moves on |
| `LogPattern.LogPatternParse` | src/base/string_parsers.h:16-93 | the nested index loops terminate on every input and compute the parse |
| `Decimal.IntRoundTrip` | src/logging/LogSStream.cpp:18-37 | the decimal text of every integer is canonical and reads back as that integer |
| `Decimal.CanonicalIntIsUnique` | src/logging/LogSStream.cpp:18-37 | there is only one canonical text for a value |
| `Decimal.DigitsReadBack` | src/logging/LogSStream.cpp:39-53 | decimal and hexadecimal texts read back |
| `Decimal.NatTextIsCanonical` | src/logging/LogSStream.cpp:39-53 | digits only, no leading zero |
| `Decimal.CanonicalNatIsUnique` | src/logging/LogSStream.cpp:39-53 | printing what a canonical text stands for gives that text |
| `Decimal.SixtyFourBitLength` | src/logging/LogSStream.cpp:104-110 | at most 20 characters for every 64-bit value, the minimum included |
| `Decimal.SixtyFourBitHexLength` | src/logging/LogSStream.cpp:39-53 | at most 16 hexadecimal digits |
| `LogStream.TableGivesDigit` | src/logging/LogSStream.cpp:11-27 | with truncating division the two-sided table gives the last digit of a value of either sign |
| `LogStream.WriteDigits` | src/logging/LogSStream.cpp:24-28 | the digit loop writes the digits backwards |
| `LogStream.WriteHexDigits` | src/logging/LogSStream.cpp:43-47 | the hexadecimal digit loop writes the digits backwards |
| `LogStream.ReverseRange` | src/logging/LogSStream.cpp:34-34 | the range is reversed in place and the rest kept |
| `LogStream.Convert` | src/logging/LogSStream.cpp:19-37 | for every value of an 8- to 64-bit type the canonical decimal text, at most 20 characters, appears at the given place |
| `LogStream.ConvertHex` | src/logging/LogSStream.cpp:39-53 | the canonical upper-case hexadecimal text, at most 16 characters |
| `LogStream.StreamBuffer.constructor` | include/logging/LogSStream.h:36-39 | an empty buffer of 5120 characters |
| `LogStream.StreamBuffer.Free` | include/logging/LogSStream.h:45-48 | the buffer is empty |
| `LogStream.StreamBuffer.AppendChar` | include/logging/LogSStream.h:59-64 | the contents are extended by the character |
| `LogStream.StreamBuffer.AppendText` | include/logging/LogSStream.h:66-70 | the contents are extended by the text |
| `LogStream.StreamBuffer.AppendInt` | src/logging/LogSStream.cpp:65-69 | the contents are extended by the decimal text |
| `LogStream.StreamBuffer.GetSlice` | src/logging/LogSStream.cpp:85-87 | the contents |
| `Logger.LoggingPreservesMeaning` | src/logger.cpp:63-102 | for every canonical token list with non-empty keys, setting the printed pattern and logging an event gives the concatenation of rendering each token directly, every %d using the format of the last %d or the default when that is empty, unknown keys rendering as the error text |
| `Logger.CompiledMeaning` | src/logger.cpp:79-101 | running the compiled formatters gives the concatenated meaning |
| `Logger.TokenMeaning` | src/logging/logger_formatters.cpp:70-99 | each compiled formatter renders its token |
| `Logger.CompiledDate` | src/logger.cpp:87-91 | the date pattern left behind is that of the last %d; without one it is unchanged |
| `Logger.LoggerObject.BuildFormatter` | src/logger.cpp:79-101 | formatter and date pattern of one token |
| `Logger.LoggerObject.SetFormatters` | src/logger.cpp:63-102 | the compiled pattern |
| `Logger.LoggerObject.Format` | src/logger.cpp:53-55 | the stream holds the concatenated pieces, if they fit its buffer |
| `Logger.LoggerObject.Deliver` | src/logger.cpp:56-58 | every flusher receives the text |
| `Logger.LoggerObject.Log` | src/logger.cpp:49-59 | every flusher receives the concatenated pieces and the stream is empty again |
| `Logger.ShortFits` | include/logging/LogSStream.h:59-70 | a text shorter than the buffer always fits it |
| `Logger.LoggerObject.SetFormattersAndLog` | src/logger.cpp:49-102 | after setting the printed form of a token list, every flusher receives the meaning of the list, if that is shorter than the buffer |
| `HostPort.SplitRecovers` | src/net/address.cpp:18-50 | splitting host:port recovers any host, even one with colons, without its brackets exactly when both are present, and any colon-free port text |
| `HostPort.BracketsExactly` | src/net/address.cpp:43-49 | a host in brackets loses them, any other host is left as it is |
| `HostPort.ParseHostAndPort` | src/net/address.cpp:18-50 | fails iff there is no colon; otherwise the two pointers designate the split |
| `HostPort.GetPortFromString` | src/net/address.cpp:95-111 | accepts exactly texts of at most five digits with value at most 65535 and returns that value |
| `HostPort.PortRoundTrip` | src/net/address.cpp:148-152 | the printed form of every port is accepted and reads back |
| `HostPort.PortBoundary` | src/net/address.cpp:106-108 | 65535 is accepted and 65536 is not |
| `HostPort.AddressRoundTrip` | src/net/address.cpp:307-309 | the printed host:port reads back as its host and port, for any host text |
| `HostPort.DottedRoundTrip` | src/net/address.cpp:237-241 | the dotted text of every IPv4 address stands for that address |
| `HostPort.IPv4RoundTrip` | src/net/address.cpp:232-241 | the printed form of every IPv4 address and port splits into the dotted text and the port text, which stand for the address and the port |
| `HostPort.EmptyPortIsZero` | src/net/address.cpp:95-111 | the empty port text is accepted as port 0 |
| `Balancer.RoundRobinIsFair` | src/balancer/io/avg_balancer.cpp:55-59 | of any k consecutive calls every one of n workers gets floor(k/n) or ceil(k/n) |
| `Balancer.FairAcrossWrapExactly` | src/balancer/io/avg_balancer.cpp:57-58 | every window of calls is fair, across the wrap of the counter too, iff the number of workers divides the number of counter values |
| `Balancer.WindowIsFair` | src/balancer/io/avg_balancer.cpp:57-58 | for any number of workers a window in which the counter does not wrap is fair |
| `Balancer.UnfairWindow` | src/balancer/io/avg_balancer.cpp:57-58 | otherwise the window that starts with the last call before the wrap gives one worker two of at most n calls |
| `Balancer.SequenceBalancer.constructor` | src/balancer/io/avg_balancer.cpp:33-47 | a balancer starts at any value of the shared counter |
| `Balancer.SequenceBalancer.Schedule` | src/balancer/io/avg_balancer.cpp:55-59 | the next worker in turn, at any counter value; the shares since the start are fair when the counter has not wrapped or the workers divide its range |

## Left out

- `insertFront` and `scheduleAll` have no sequential form beside the step machine, because their interleavings are the point; the unused return value of `insertFront` is not modelled.
- Memory orders weaker than sequential consistency, and the race of a `stop()` from another thread with the scheduler's own flag reads.
- The unsynchronised filling of `managers_`, unsynchronised use of the balancer's counter, and the current-thread manager, which is never chosen.
- HostPort.AddressRoundTrip: takes the host text as given, because IPv6 texts come from `inet_ntop`; `inet_pton`, `getaddrinfo` and the ordering of addresses are not modelled.
- Logger.LoggingPreservesMeaning: integers and texts only; `double` formatting through `sprintf` and the limit of ten flushers are not modelled.
- AsyncFlusher.EveryInterleavingKeepsOrder: order only; the condition wait has no predicate, so nothing is claimed about progress or about strings still pooled at destruction.
- Coroutine.EveryRunIsSound: the fcontext variant only; stacks, stack unwinding, exceptions of callbacks, `reuse`, `reset` and `resetContext` are not modelled.
- EventLoop.EveryRunDeliversOnce: call-once registrations and error-free polls, the case the code supports; `ErrorEventExactly` and `PersistenceFollowsTheFirstEvent` say what happens outside it.
- The hooked system calls and `co_*` wrappers, which forward to foreign functions.
- Sockets, the TCP server and socket options.
- Configuration, YAML and JSON lookup, thin wrappers over libraries.
- Random and priority balancers, level names from strings, runners, backtraces and benchmarks.
