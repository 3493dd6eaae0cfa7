/**
 Coroutine switching on one thread.

 A context is a one-shot continuation: `jump_fcontext` consumes the continuation it jumps to and
 creates a new one for the stack it leaves.  The receiving side then stores that new continuation
 in the executor named by the frame it resumes: `swapContext` stores it in its own `dst`, and
 `executorMainFunc` in the executor passed along with the jump.  Whether the stored context is the
 right one therefore depends on every frame having recorded the executor that later resumes it.
 */
module Coroutine {
  import opened Common

  type Id = nat
  type Context = nat

  datatype State = Init | Exec | Ready | HoldUp | Terminal | Aborted

  datatype Executor = Executor(state: State, context: Option<Context>)

  /** Where a suspended stack goes on: the entry of executorMainFunc, or the statement after the
      jump inside `swapContext(_, dst)`. */
  datatype Frame = Entry | Swap(dst: Id)

  /** A live continuation: the stack it belongs to and where that stack goes on. */
  datatype Suspended = Suspended(stack: Id, at: Frame)

  datatype Thread = Thread(
    executors: map<Id, Executor>,
    current: Id,                      // t_cur_executor
    main: Id,                         // t_main_executor
    base: Id,                         // t_base_executor
    running: Id,                      // whose stack the processor is on
    live: map<Context, Suspended>,    // continuations not yet consumed
    unused: Context)

  /** What the code on the running stack can do. */
  datatype Op =
    | Spawn(id: Id)         // construct an Executor from a callback
    | Enter(id: Id)         // id->exec()
    | Yield(id: Id)         // id->yield()
    | Kill(id: Id)          // id->kill()
    | Finish                // the callback returned: t_cur_executor->terminal()
    | NewScheduler(id: Id)  // construct a Scheduler: a new executor becomes the main one
    | Run                   // Scheduler::run: main->mainExec()
    | LoopExit              // end of threadScheduleFunc: main->mainYield()

  // ---------------------------------------------------------------------------
  // The code
  // ---------------------------------------------------------------------------

  function SetState(t: Thread, id: Id, state: State): (r: Thread)
    requires id in t.executors
  {
    t.(executors := t.executors[id := t.executors[id].(state := state)])
  }

  function MakeContext(t: Thread, id: Id): (r: Thread)
    requires id in t.executors
  {
    t.(executors := t.executors[id := t.executors[id].(context := Some(t.unused))],
       live := t.live[t.unused := Suspended(id, Entry)],
       unused := t.unused + 1)
  }

  /** The executor whose context the resumed code overwrites. */
  function Receiver(at: Frame, src: Id): (r: Id) {
    if at.Entry? then src else at.dst
  }

  /** Jump from the running stack to `dst`'s context; None is a jump into a continuation that
      does not exist or was consumed before. */
  function SwapContext(t: Thread, src: Id, dst: Id): (r: Option<Thread>)
    requires dst in t.executors
  {
    var target := t.executors[dst].context;
    if target.None? || target.value !in t.live then None
    else
      var resumed := t.live[target.value];
      var receiver := Receiver(resumed.at, src);
      if receiver !in t.executors then None
      else
        Some(t.(running := resumed.stack,
                live := (t.live - {target.value})[t.unused := Suspended(t.running, Swap(dst))],
                unused := t.unused + 1,
                executors := t.executors[receiver := t.executors[receiver].(context := Some(t.unused))]))
  }

  function DoExec(t: Thread, id: Id, main: bool): (r: Option<Thread>)
    requires id in t.executors && t.base in t.executors && t.main in t.executors
  {
    match t.executors[id].state
    case Init =>
      var t1 := SetState(MakeContext(t, id), id, Exec).(current := id);
      SwapContext(t1, if main then t.base else t.main, id)
    case HoldUp =>
      SwapContext(SetState(t, id, Exec).(current := id), if main then t.base else t.main, id)
    case Ready =>
      SwapContext(SetState(t, id, Exec).(current := id), if main then t.base else t.main, id)
    case Exec => Some(t)
    case Terminal => Some(t)
    case Aborted => Some(t)
  }

  /** Leave executor `id` in state `state` and go back to the main executor. */
  function BackToMain(t: Thread, id: Id, state: State): (r: Option<Thread>)
    requires id in t.executors && t.main in t.executors
  {
    SwapContext(SetState(t, id, state).(current := t.main), id, t.main)
  }

  /** One operation up to the next point where some stack runs; None is a failed assertion or a
      jump into a consumed continuation. */
  function Step(t: Thread, op: Op): (r: Option<Thread>)
    requires t.base in t.executors && t.main in t.executors && t.current in t.executors
  {
    match op
    case Spawn(id) =>
      if id in t.executors then None
      else Some(t.(executors := t.executors[id := Executor(Init, None)]))
    case Enter(id) =>
      if id !in t.executors || id == t.main then None else DoExec(t, id, false)
    case Yield(id) =>
      if id !in t.executors then None
      else if t.executors[id].state != Exec then Some(t)
      else BackToMain(t, id, HoldUp)
    case Kill(id) =>
      if id !in t.executors then None
      else if t.executors[id].state != Exec then Some(SetState(t, id, Terminal))
      else BackToMain(t, id, Terminal)
    case Finish =>
      if t.executors[t.current].state != Exec then None
      else BackToMain(t, t.current, Terminal)
    case NewScheduler(id) =>
      if id in t.executors then None
      else Some(t.(executors := t.executors[id := Executor(Init, None)], main := id))
    case Run => DoExec(t, t.main, true)
    case LoopExit =>
      if t.executors[t.main].state != Exec then Some(t)
      else SwapContext(SetState(t, t.main, HoldUp).(current := t.base), t.main, t.base)
  }

  /** A thread whose base executor runs: alone, or with a scheduler executor as main. */
  function Start(base: Id, main: Id): (t: Thread) {
    Thread(map[main := Executor(Init, None)][base := Executor(Ready, None)], base, main, base, base, map[], 0)
  }

  predicate Worker(t: Thread, id: Id) {
    id in t.executors && id != t.main && id != t.base
  }

  /** No executor but the base one is suspended in the middle of its work. */
  predicate NoneSuspended(t: Thread) {
    forall id :: id in t.executors && id != t.base ==> t.executors[id].state != HoldUp
  }

  /** The uses the runtime makes of executors: exec only from the main executor, kill of workers, yield
      of workers or of executors that do not run, a scheduler constructed on the base stack while
      nothing is suspended, and a single run of it. */
  predicate Disciplined(t: Thread, op: Op) {
    match op
    case Spawn(id) => id !in t.executors
    case Enter(id) => t.running == t.main && Worker(t, id)
    case Yield(id) => id in t.executors && (t.executors[id].state == Exec ==> Worker(t, id))
    case Kill(id) => Worker(t, id)
    case Finish => Worker(t, t.running)
    case NewScheduler(id) => id !in t.executors && t.running == t.base && NoneSuspended(t)
    case Run => t.running == t.base && t.main != t.base && t.main in t.executors && t.executors[t.main].state == Init
    case LoopExit => t.running == t.main && t.main != t.base
  }

  // ---------------------------------------------------------------------------
  // The invariant
  // ---------------------------------------------------------------------------

  predicate Pointers(t: Thread) {
    t.base in t.executors && t.main in t.executors && t.running in t.executors
  }

  /** `id`'s context is a live continuation of `id`'s own stack. */
  predicate Resumable(t: Thread, id: Id) {
    && id in t.executors
    && t.executors[id].context.Some?
    && t.executors[id].context.value in t.live
    && t.live[t.executors[id].context.value].stack == id
  }

  function FrameOf(t: Thread, id: Id): (r: Frame)
    requires Resumable(t, id)
  {
    t.live[t.executors[id].context.value].at
  }

  ghost predicate Contexts(t: Thread) {
    && (forall c :: c in t.live ==>
          && c < t.unused
          && t.live[c].stack in t.executors
          && t.live[c].stack != t.running
          && t.executors[t.live[c].stack].context == Some(c))
    && (forall id :: id in t.executors && id != t.running && t.executors[id].context.Some? ==> Resumable(t, id))
  }

  /** Every suspended frame recorded the executor that will resume it. */
  ghost predicate Frames(t: Thread)
    requires Pointers(t)
  {
    && (forall id :: Worker(t, id) && t.executors[id].state == HoldUp ==>
          Resumable(t, id) && FrameOf(t, id) == Swap(t.main))
    && (Worker(t, t.running) ==> Resumable(t, t.main) && FrameOf(t, t.main) == Swap(t.running))
    && (t.main != t.base && t.running != t.base ==> Resumable(t, t.base) && FrameOf(t, t.base) == Swap(t.main))
    && (t.main != t.base && t.running == t.base && t.executors[t.main].state != Init ==>
          Resumable(t, t.main) && FrameOf(t, t.main) == Swap(t.base))
  }

  ghost predicate States(t: Thread)
    requires Pointers(t)
  {
    && (forall id :: Worker(t, id) ==>
          var e := t.executors[id];
          && (e.state == Exec <==> id == t.running)
          && (e.state == Init || e.state == Exec || e.state == HoldUp || e.state == Terminal)
          && (e.state == Init ==> e.context.None?)
          && (e.state == HoldUp ==> e.context.Some?))
    && t.executors[t.base].state == Ready
    && (t.main != t.base ==>
          var m := t.executors[t.main];
          if t.running == t.base then m == Executor(Init, None) || m.state == HoldUp else m.state == Exec)
  }

  ghost predicate Inv(t: Thread) {
    && Pointers(t)
    && t.current == t.running
    && Contexts(t)
    && Frames(t)
    && States(t)
  }

  /** From `t` to `t'` the processor changed stacks correctly: the continuation jumped to was live
      in `t` and is consumed in `t'`, and the frame it resumed had recorded the executor that left
      (or was the entry of a new executor). */
  predicate GoodSwitch(t: Thread, t': Thread) {
    t'.running != t.running ==>
      && Resumable(t', t.running)
      && t.running in t.executors
      && (Resumable(t, t'.running) ==>
            && FrameOf(t, t'.running) == Swap(t.running)
            && t.executors[t'.running].context.value !in t'.live)
  }

  // ---------------------------------------------------------------------------
  // One switch
  // ---------------------------------------------------------------------------

  lemma StateChangeKeepsContexts(t: Thread, id: Id, state: State, current: Id)
    requires Contexts(t) && id in t.executors
    ensures var t1 := SetState(t, id, state).(current := current);
            && Contexts(t1)
            && forall e :: Resumable(t, e) ==> Resumable(t1, e) && FrameOf(t1, e) == FrameOf(t, e)
  {}

  /** When the resumed frame names the executor that leaves, a switch consumes one live
      continuation, stores the new one in the right place and disturbs no other. */
  lemma SwitchIsSound(t: Thread, src: Id, dst: Id)
    requires Contexts(t) && t.running in t.executors && dst != t.running
    requires Resumable(t, dst) && Receiver(FrameOf(t, dst), src) == t.running
    ensures SwapContext(t, src, dst).Some?
    ensures var t' := SwapContext(t, src, dst).value;
            && Contexts(t')
            && t'.running == dst
            && t'.current == t.current && t'.main == t.main && t'.base == t.base
            && t'.executors == t.executors[t.running := t.executors[t.running].(context := Some(t.unused))]
            && Resumable(t', t.running) && FrameOf(t', t.running) == Swap(dst)
            && t.executors[dst].context.value !in t'.live
            && forall e :: Resumable(t, e) && e != dst ==> Resumable(t', e) && FrameOf(t', e) == FrameOf(t, e)
  {
    var t' := SwapContext(t, src, dst).value;
    var c := t.executors[dst].context.value;
    forall e | Resumable(t, e) && e != dst
      ensures Resumable(t', e) && FrameOf(t', e) == FrameOf(t, e)
    {
      var k := t.executors[e].context.value;
      assert k in t.live && k != c && k < t.unused;
      assert e != t.running;
    }
  }

  lemma NewContextIsSound(t: Thread, id: Id)
    requires Contexts(t) && id in t.executors && t.executors[id].context.None? && id != t.running
    ensures var t1 := MakeContext(t, id);
            && Contexts(t1)
            && Resumable(t1, id) && FrameOf(t1, id) == Entry
            && forall e :: Resumable(t, e) ==> Resumable(t1, e) && FrameOf(t1, e) == FrameOf(t, e)
  {
    var t1 := MakeContext(t, id);
    forall e | Resumable(t, e)
      ensures Resumable(t1, e) && FrameOf(t1, e) == FrameOf(t, e)
    {
      assert t.executors[e].context.value < t.unused;
    }
  }

  // ---------------------------------------------------------------------------
  // Every disciplined operation
  // ---------------------------------------------------------------------------

  ghost predicate Kept(t: Thread, op: Op)
    requires Inv(t)
  {
    && Step(t, op).Some?
    && Inv(Step(t, op).value)
    && GoodSwitch(t, Step(t, op).value)
  }

  /** A new executor just before its first switch. */
  lemma NewExecutorIsReady(t: Thread, id: Id)
    requires Contexts(t) && id in t.executors && t.executors[id].context.None? && id != t.running
    ensures var t1 := SetState(MakeContext(t, id), id, Exec).(current := id);
            && Contexts(t1)
            && Resumable(t1, id) && FrameOf(t1, id) == Entry
            && t1.executors == t.executors[id := Executor(Exec, Some(t.unused))]
            && forall e :: Resumable(t, e) ==> Resumable(t1, e) && FrameOf(t1, e) == FrameOf(t, e)
  {
    NewContextIsSound(t, id);
    StateChangeKeepsContexts(MakeContext(t, id), id, Exec, id);
  }

  /** The first switch to a new executor, from the stack of `src`. */
  lemma SwitchToNew(t: Thread, id: Id, src: Id)
    requires Contexts(t) && id in t.executors && t.executors[id].context.None? && id != t.running
    requires src == t.running && src in t.executors
    ensures var r := SwapContext(SetState(MakeContext(t, id), id, Exec).(current := id), src, id);
            && r.Some?
            && Contexts(r.value)
            && r.value.running == r.value.current == id
            && r.value.main == t.main && r.value.base == t.base
            && r.value.executors == t.executors[id := Executor(Exec, Some(t.unused))]
                                               [src := t.executors[src].(context := Some(t.unused + 1))]
            && t.unused !in r.value.live && t.unused < r.value.unused
            && Resumable(r.value, src) && FrameOf(r.value, src) == Swap(id)
            && forall e :: Resumable(t, e) ==> Resumable(r.value, e) && FrameOf(r.value, e) == FrameOf(t, e)
  {
    NewExecutorIsReady(t, id);
    var t1 := SetState(MakeContext(t, id), id, Exec).(current := id);
    SwitchIsSound(t1, src, id);
    var t' := SwapContext(t1, src, id).value;
    forall e | Resumable(t, e)
      ensures Resumable(t', e) && FrameOf(t', e) == FrameOf(t, e)
    {
      assert Resumable(t1, e) && FrameOf(t1, e) == FrameOf(t, e) && e != id;
    }
  }

  lemma FirstEnterStates(t: Thread, id: Id)
    requires Inv(t) && Disciplined(t, Enter(id)) && t.executors[id].state == Init
    ensures Step(t, Enter(id)).Some? && Pointers(Step(t, Enter(id)).value)
    ensures States(Step(t, Enter(id)).value)
  {
    SwitchToNew(t, id, t.main);
    var t' := Step(t, Enter(id)).value;
    forall e | Worker(t', e) && e != id ensures t'.executors[e] == t.executors[e] && Worker(t, e) {}
    assert t'.executors[t.main].state == t.executors[t.main].state;
  }

  lemma FirstEnterFrames(t: Thread, id: Id)
    requires Inv(t) && Disciplined(t, Enter(id)) && t.executors[id].state == Init
    ensures Step(t, Enter(id)).Some? && Pointers(Step(t, Enter(id)).value)
    ensures Frames(Step(t, Enter(id)).value)
  {
    SwitchToNew(t, id, t.main);
    var t' := Step(t, Enter(id)).value;
    forall e | Worker(t', e) && t'.executors[e].state == HoldUp
      ensures Resumable(t', e) && FrameOf(t', e) == Swap(t'.main)
    {
      assert Worker(t, e) && t.executors[e].state == HoldUp;
      assert Resumable(t, e) && FrameOf(t, e) == Swap(t.main);
    }
  }

  lemma FirstEnterKeeps(t: Thread, id: Id)
    requires Inv(t) && Disciplined(t, Enter(id)) && t.executors[id].state == Init
    ensures Kept(t, Enter(id))
  {
    SwitchToNew(t, id, t.main);
    FirstEnterStates(t, id);
    FirstEnterFrames(t, id);
  }

  /** A switch from the running stack to a suspended executor whose frame names the running one, with
      the state of one executor set before. */
  lemma SwitchBack(t: Thread, id: Id, state: State, src: Id, dst: Id, current: Id)
    requires Contexts(t) && id in t.executors && t.running in t.executors && dst != t.running
    requires Resumable(t, dst) && FrameOf(t, dst) == Swap(t.running)
    ensures var r := SwapContext(SetState(t, id, state).(current := current), src, dst);
            && r.Some?
            && Contexts(r.value)
            && r.value.running == dst && r.value.current == current
            && r.value.main == t.main && r.value.base == t.base
            && r.value.executors.Keys == t.executors.Keys
            && r.value.executors[id].state == state
            && (forall e :: e in t.executors && e != id ==> r.value.executors[e].state == t.executors[e].state)
            && (forall e :: e in t.executors && e != t.running ==>
                  r.value.executors[e].context == t.executors[e].context)
            && t.executors[dst].context.value !in r.value.live
            && Resumable(r.value, t.running) && FrameOf(r.value, t.running) == Swap(dst)
            && forall e :: Resumable(t, e) && e != dst ==> Resumable(r.value, e) && FrameOf(r.value, e) == FrameOf(t, e)
  {
    StateChangeKeepsContexts(t, id, state, current);
    var t1 := SetState(t, id, state).(current := current);
    SwitchIsSound(t1, src, dst);
    var t' := SwapContext(t1, src, dst).value;
    assert t'.executors == t1.executors[t.running := t1.executors[t.running].(context := Some(t1.unused))];
    forall e | Resumable(t, e) && e != dst
      ensures Resumable(t', e) && FrameOf(t', e) == FrameOf(t, e)
    {
      assert Resumable(t1, e) && FrameOf(t1, e) == FrameOf(t, e);
    }
  }

  lemma ReEnterKeeps(t: Thread, id: Id)
    requires Inv(t) && Disciplined(t, Enter(id)) && t.executors[id].state == HoldUp
    ensures Kept(t, Enter(id))
  {
    assert Worker(t, id) && Resumable(t, id);
    SwitchBack(t, id, Exec, t.main, id, id);
  }

  lemma EnterKeeps(t: Thread, id: Id)
    requires Inv(t) && Disciplined(t, Enter(id))
    ensures Kept(t, Enter(id))
  {
    assert Worker(t, id);
    if t.executors[id].state == Init { FirstEnterKeeps(t, id); }
    else if t.executors[id].state == HoldUp { ReEnterKeeps(t, id); }
  }

  lemma LeaveStates(t: Thread, state: State)
    requires Inv(t) && Worker(t, t.running) && (state == HoldUp || state == Terminal)
    ensures BackToMain(t, t.running, state).Some? && Pointers(BackToMain(t, t.running, state).value)
    ensures States(BackToMain(t, t.running, state).value)
  {
    SwitchBack(t, t.running, state, t.running, t.main, t.main);
    var t' := BackToMain(t, t.running, state).value;
    forall e | Worker(t', e) && e != t.running ensures t'.executors[e] == t.executors[e] && Worker(t, e) {}
  }

  lemma LeaveFrames(t: Thread, state: State)
    requires Inv(t) && Worker(t, t.running) && (state == HoldUp || state == Terminal)
    ensures BackToMain(t, t.running, state).Some? && Pointers(BackToMain(t, t.running, state).value)
    ensures Frames(BackToMain(t, t.running, state).value)
  {
    SwitchBack(t, t.running, state, t.running, t.main, t.main);
    var t' := BackToMain(t, t.running, state).value;
    forall e | Worker(t', e) && t'.executors[e].state == HoldUp
      ensures Resumable(t', e) && FrameOf(t', e) == Swap(t'.main)
    {
      assert Worker(t, e);
      if e != t.running { assert Resumable(t, e) && FrameOf(t, e) == Swap(t.main) && e != t.main; }
    }
  }

  lemma LeaveKeeps(t: Thread, op: Op, state: State)
    requires Inv(t) && Disciplined(t, op) && Worker(t, t.running)
    requires state == HoldUp || state == Terminal
    requires Step(t, op) == BackToMain(t, t.running, state)
    ensures Kept(t, op)
  {
    SwitchBack(t, t.running, state, t.running, t.main, t.main);
    LeaveStates(t, state);
    LeaveFrames(t, state);
  }

  lemma RunKeeps(t: Thread)
    requires Inv(t) && Disciplined(t, Run)
    ensures Kept(t, Run)
  {
    SwitchToNew(t, t.main, t.base);
  }

  lemma LoopExitKeeps(t: Thread)
    requires Inv(t) && Disciplined(t, LoopExit)
    ensures Kept(t, LoopExit)
  {
    SwitchBack(t, t.main, HoldUp, t.main, t.base, t.base);
  }

  lemma KillKeeps(t: Thread, id: Id)
    requires Inv(t) && Disciplined(t, Kill(id)) && id != t.running
    ensures Kept(t, Kill(id))
  {
    StateChangeKeepsContexts(t, id, Terminal, t.current);
  }

  lemma SpawnKeeps(t: Thread, id: Id)
    requires Inv(t) && Disciplined(t, Spawn(id))
    ensures Kept(t, Spawn(id))
  {
    var t' := Step(t, Spawn(id)).value;
    assert forall e :: Resumable(t, e) ==> Resumable(t', e) && FrameOf(t', e) == FrameOf(t, e);
  }

  lemma NewSchedulerKeeps(t: Thread, id: Id)
    requires Inv(t) && Disciplined(t, NewScheduler(id))
    ensures Kept(t, NewScheduler(id))
  {
    var t' := Step(t, NewScheduler(id)).value;
    assert forall e :: e in t.executors ==> t'.executors[e] == t.executors[e];
    assert Contexts(t');
  }

  /** Every operation within the discipline jumps only to live continuations and keeps the
      invariant. */
  lemma DisciplineKeepsInv(t: Thread, op: Op)
    requires Inv(t) && Disciplined(t, op)
    ensures Kept(t, op)
  {
    match op
    case Spawn(id) => SpawnKeeps(t, id);
    case Enter(id) => EnterKeeps(t, id);
    case Yield(id) => if t.executors[id].state == Exec { LeaveKeeps(t, op, HoldUp); }
    case Kill(id) => if id == t.running { LeaveKeeps(t, op, Terminal); } else { KillKeeps(t, id); }
    case NewScheduler(id) => NewSchedulerKeeps(t, id);
    case Finish => LeaveKeeps(t, op, Terminal);
    case Run => RunKeeps(t);
    case LoopExit => LoopExitKeeps(t);
  }

  // ---------------------------------------------------------------------------
  // Whole runs
  // ---------------------------------------------------------------------------

  /** The thread after a sequence of operations; None as soon as one fails. */
  ghost function After(start: Thread, ops: seq<Op>): (r: Option<Thread>) {
    if ops == [] then Some(start)
    else
      var t := After(start, ops[..|ops| - 1]);
      if t.None? || !Pointers(t.value) || t.value.current !in t.value.executors then None
      else Step(t.value, ops[|ops| - 1])
  }

  ghost predicate DisciplinedRun(start: Thread, ops: seq<Op>) {
    ops != [] ==>
      var before := ops[..|ops| - 1];
      && DisciplinedRun(start, before)
      && (After(start, before).Some? ==> Disciplined(After(start, before).value, ops[|ops| - 1]))
  }

  /** In a disciplined run from either start, with or without a scheduler, no jump ever targets a
      consumed continuation and the invariant holds throughout: the thread-local current pointer
      names the stack that runs and every suspended frame recorded the executor that resumes it. */
  lemma {:induction false} EveryRunIsSound(base: Id, main: Id, ops: seq<Op>)
    requires DisciplinedRun(Start(base, main), ops)
    ensures After(Start(base, main), ops).Some?
    ensures Inv(After(Start(base, main), ops).value)
  {
    if ops != [] {
      var before := ops[..|ops| - 1];
      EveryRunIsSound(base, main, before);
      DisciplineKeepsInv(After(Start(base, main), before).value, ops[|ops| - 1]);
    }
  }

  /** At most one worker is in Exec, and it is the one on the processor. */
  lemma OneWorkerExecutes(base: Id, main: Id, ops: seq<Op>, a: Id, b: Id)
    requires DisciplinedRun(Start(base, main), ops)
    requires After(Start(base, main), ops).Some?
    requires Worker(After(Start(base, main), ops).value, a) && Worker(After(Start(base, main), ops).value, b)
    requires After(Start(base, main), ops).value.executors[a].state == Exec
    requires After(Start(base, main), ops).value.executors[b].state == Exec
    ensures a == b == After(Start(base, main), ops).value.running
    ensures a == After(Start(base, main), ops).value.current
  {
    EveryRunIsSound(base, main, ops);
  }

  /** When `exec()` returns to the main executor, the worker it entered is Terminal or HoldUp; so
      the `assert(false)` of the scheduler loop cannot be reached. */
  lemma ExecReturnsSettled(t: Thread, op: Op)
    requires Inv(t) && Disciplined(t, op) && Worker(t, t.running)
    ensures Step(t, op).Some?
    ensures var t' := Step(t, op).value;
            t'.running != t.running ==>
              && t'.running == t.main
              && FrameOf(t, t.main) == Swap(t.running)
              && (t'.executors[t.running].state == Terminal || t'.executors[t.running].state == HoldUp)
  {
    DisciplineKeepsInv(t, op);
    if (op.Yield? && op.id == t.running) || op.Finish? || (op.Kill? && op.id == t.running) {
      var state := if op.Yield? then HoldUp else Terminal;
      StateChangeKeepsContexts(t, t.running, state, t.main);
      SwitchIsSound(SetState(t, t.running, state).(current := t.main), t.running, t.main);
    }
  }

  // ---------------------------------------------------------------------------
  // What every operation does
  // ---------------------------------------------------------------------------

  /** From `t` to `t'` the processor goes to `runs`, the executor `id` gets the state `state`, and
      every other executor keeps its state. */
  predicate Effect(t: Thread, t': Thread, runs: Id, id: Id, state: State) {
    && t'.running == t'.current == runs
    && t'.main == t.main && t'.base == t.base
    && t'.executors.Keys == t.executors.Keys
    && id in t.executors && t'.executors[id].state == state
    && forall e :: e in t.executors && e != id ==> t'.executors[e].state == t.executors[e].state
  }

  /** A callback that returned leaves its executor Terminal and the main executor running. */
  lemma FinishEffect(t: Thread)
    requires Inv(t) && Disciplined(t, Finish)
    ensures Step(t, Finish).Some?
    ensures Effect(t, Step(t, Finish).value, t.main, t.running, Terminal)
  {
    SwitchBack(t, t.running, Terminal, t.running, t.main, t.main);
  }

  /** A killed worker is Terminal, whether it was running or not, and loses the processor if it had
      it. */
  lemma KillEffect(t: Thread, id: Id)
    requires Inv(t) && Disciplined(t, Kill(id))
    ensures Step(t, Kill(id)).Some?
    ensures Effect(t, Step(t, Kill(id)).value, if id == t.running then t.main else t.running, id, Terminal)
  {
    if id == t.running { SwitchBack(t, id, Terminal, id, t.main, t.main); }
  }

  /** A running worker that yields is suspended and the main executor runs; a yield of any other
      executor does nothing. */
  lemma YieldEffect(t: Thread, id: Id)
    requires Inv(t) && Disciplined(t, Yield(id))
    ensures Step(t, Yield(id)).Some?
    ensures Worker(t, id) && id == t.running ==> Effect(t, Step(t, Yield(id)).value, t.main, id, HoldUp)
    ensures !(Worker(t, id) && id == t.running) ==> Step(t, Yield(id)).value == t
  {
    if Worker(t, id) && id == t.running { SwitchBack(t, id, HoldUp, id, t.main, t.main); }
  }

  /** A worker that is new or suspended is run; a Terminal one is left alone. */
  lemma EnterEffect(t: Thread, id: Id)
    requires Inv(t) && Disciplined(t, Enter(id))
    ensures Step(t, Enter(id)).Some?
    ensures t.executors[id].state != Terminal ==> Effect(t, Step(t, Enter(id)).value, id, id, Exec)
    ensures t.executors[id].state == Terminal ==> Step(t, Enter(id)).value == t
  {
    assert Worker(t, id);
    if t.executors[id].state == Init {
      SwitchToNew(t, id, t.main);
    } else if t.executors[id].state == HoldUp {
      assert Resumable(t, id);
      SwitchBack(t, id, Exec, t.main, id, id);
    }
  }

  /** Running the scheduler gives its executor the processor, and leaving the loop suspends it and
      gives the processor back to the base executor. */
  lemma RunEffect(t: Thread)
    requires Inv(t) && Disciplined(t, Run)
    ensures Step(t, Run).Some? && Effect(t, Step(t, Run).value, t.main, t.main, Exec)
  {
    SwitchToNew(t, t.main, t.base);
  }

  lemma LoopExitEffect(t: Thread)
    requires Inv(t) && Disciplined(t, LoopExit)
    ensures Step(t, LoopExit).Some? && Effect(t, Step(t, LoopExit).value, t.base, t.main, HoldUp)
  {
    SwitchBack(t, t.main, HoldUp, t.main, t.base, t.base);
  }

  /** A constructed executor is new and has no context yet; a scheduler makes its own the main one. */
  lemma ConstructionEffect(t: Thread, id: Id)
    requires Inv(t) && id !in t.executors
    ensures Step(t, Spawn(id)) == Some(t.(executors := t.executors[id := Executor(Init, None)]))
    ensures Step(t, NewScheduler(id)).Some?
    ensures Step(t, NewScheduler(id)).value == Step(t, Spawn(id)).value.(main := id)
  {}

  /** The assertions of the code: the main executor is not entered, a terminated executor does not
      terminate again. */
  lemma AssertionsFail(t: Thread)
    requires Pointers(t) && t.current in t.executors
    ensures Step(t, Enter(t.main)).None?
    ensures t.executors[t.current].state != Exec ==> Step(t, Finish).None?
  {}

  lemma TerminalStaysOneStep(t: Thread, op: Op, id: Id)
    requires Inv(t) && Disciplined(t, op)
    requires Worker(t, id) && t.executors[id].state == Terminal
    ensures Step(t, op).Some?
    ensures var t' := Step(t, op).value; Worker(t', id) && t'.executors[id].state == Terminal && t'.running != id
  {
    match op
    case Enter(e) => EnterEffect(t, e);
    case Yield(e) => YieldEffect(t, e);
    case Kill(e) => KillEffect(t, e);
    case Finish => FinishEffect(t);
    case Run => RunEffect(t);
    case LoopExit => LoopExitEffect(t);
    case Spawn(_) =>
    case NewScheduler(_) =>
  }

  /** A Terminal worker never runs again, whatever follows. */
  lemma {:induction false} TerminalForever(base: Id, main: Id, ops: seq<Op>, more: seq<Op>, id: Id)
    requires DisciplinedRun(Start(base, main), ops + more)
    requires After(Start(base, main), ops).Some? && Worker(After(Start(base, main), ops).value, id)
    requires After(Start(base, main), ops).value.executors[id].state == Terminal
    ensures After(Start(base, main), ops + more).Some?
    ensures Worker(After(Start(base, main), ops + more).value, id)
    ensures After(Start(base, main), ops + more).value.executors[id].state == Terminal
    ensures After(Start(base, main), ops + more).value.running != id
    decreases |more|
  {
    var s := Start(base, main);
    if more == [] {
      assert ops + more == ops;
      EveryRunIsSound(base, main, ops);
    } else {
      var all := ops + more;
      assert all[..|all| - 1] == ops + more[..|more| - 1];
      TerminalForever(base, main, ops, more[..|more| - 1], id);
      EveryRunIsSound(base, main, all[..|all| - 1]);
      TerminalStaysOneStep(After(s, all[..|all| - 1]).value, all[|all| - 1], id);
    }
  }

  /** A worker whose callback returned, and a worker that was killed, never runs again, whatever
      follows. */
  lemma FinishedForever(base: Id, main: Id, ops: seq<Op>, op: Op, more: seq<Op>, id: Id)
    requires DisciplinedRun(Start(base, main), ops + [op] + more) && DisciplinedRun(Start(base, main), ops)
    requires After(Start(base, main), ops).Some?
    requires Disciplined(After(Start(base, main), ops).value, op)
    requires (op == Finish && id == After(Start(base, main), ops).value.running) || op == Kill(id)
    ensures After(Start(base, main), ops + [op] + more).Some?
    ensures Worker(After(Start(base, main), ops + [op] + more).value, id)
    ensures After(Start(base, main), ops + [op] + more).value.executors[id].state == Terminal
    ensures After(Start(base, main), ops + [op] + more).value.running != id
  {
    var s := Start(base, main);
    EveryRunIsSound(base, main, ops);
    var t := After(s, ops).value;
    AfterNext(s, ops, op);
    if op == Finish { FinishEffect(t); } else { KillEffect(t, id); }
    TerminalForever(base, main, ops + [op], more, id);
  }

  // ---------------------------------------------------------------------------
  // Exactly where the discipline is needed
  // ---------------------------------------------------------------------------

  /** Entering a worker that can run keeps the invariant if and only if the caller is the main
      executor; any other caller leaves its own stack in the main executor's context. */
  lemma EnterOnlyFromMain(t: Thread, id: Id)
    requires Inv(t) && Worker(t, id) && id != t.running
    requires t.executors[id].state == Init || t.executors[id].state == HoldUp
    ensures Step(t, Enter(id)).Some?
    ensures Inv(Step(t, Enter(id)).value) <==> t.running == t.main
    ensures t.running != t.main ==>
              var t' := Step(t, Enter(id)).value;
              && t'.executors[t.main].context.Some?
              && t'.executors[t.main].context.value in t'.live
              && t'.live[t'.executors[t.main].context.value].stack == t.running
  {
    if t.running == t.main {
      EnterKeeps(t, id);
    } else if t.executors[id].state == HoldUp {
      assert Resumable(t, id) && FrameOf(t, id) == Swap(t.main);
    }
  }

  /** Constructing a scheduler keeps the invariant if and only if it is done on the base stack while no
      executor is suspended: a suspended one recorded the old main executor as the one that resumes
      it. */
  lemma NewSchedulerExactly(t: Thread, id: Id)
    requires Inv(t) && id !in t.executors
    ensures Step(t, NewScheduler(id)).Some?
    ensures Inv(Step(t, NewScheduler(id)).value) <==> t.running == t.base && NoneSuspended(t)
  {
    var t' := Step(t, NewScheduler(id)).value;
    if t.running == t.base && NoneSuspended(t) {
      NewSchedulerKeeps(t, id);
    } else if t.running == t.base {
      var e :| e in t.executors && e != t.base && t.executors[e].state == HoldUp;
      assert Resumable(t, e) && FrameOf(t, e) != Swap(id);
      assert Worker(t', e) && t'.executors[e] == t.executors[e];
    } else {
      assert Worker(t', t.running) && !Resumable(t', id);
    }
  }

  /** `w` is suspended and its frame names the base executor, not the main one. */
  ghost predicate Misplaced(t: Thread, w: Id) {
    && Pointers(t) && t.current in t.executors && t.main != t.base
    && Worker(t, w) && t.executors[w].state == HoldUp && w != t.running
    && Resumable(t, w) && FrameOf(t, w) == Swap(t.base)
  }

  lemma ConstructOverSuspended(t: Thread, w: Id, id: Id) returns (t1: Thread)
    requires Inv(t) && t.running == t.base == t.main && Worker(t, w) && t.executors[w].state == HoldUp
    requires id !in t.executors
    ensures Step(t, NewScheduler(id)) == Some(t1) && t1.main == id && t1.running == t.base == t1.base
    ensures Contexts(t1) && Misplaced(t1, w) && t1.executors[id] == Executor(Init, None)
  {
    t1 := Step(t, NewScheduler(id)).value;
    assert forall e :: e in t.executors ==> t1.executors[e] == t.executors[e];
    assert Resumable(t, w) && FrameOf(t, w) == Swap(t.base);
  }

  lemma RunOverSuspended(t1: Thread, w: Id) returns (t2: Thread)
    requires Contexts(t1) && Misplaced(t1, w) && t1.running == t1.base
    requires t1.executors[t1.main] == Executor(Init, None)
    ensures Step(t1, Run) == Some(t2) && t2.running == t2.main == t1.main && t2.base == t1.base
    ensures Contexts(t2) && Misplaced(t2, w)
    ensures t2.executors[t2.main].context.Some? && t2.executors[t2.main].context.value !in t2.live
    ensures t2.executors[t2.main].context.value < t2.unused
  {
    SwitchToNew(t1, t1.main, t1.base);
    t2 := Step(t1, Run).value;
  }

  lemma EnterSuspended(t2: Thread, w: Id) returns (t3: Thread)
    requires Contexts(t2) && Misplaced(t2, w) && t2.running == t2.main
    requires t2.executors[t2.main].context.Some? && t2.executors[t2.main].context.value !in t2.live
    requires t2.executors[t2.main].context.value < t2.unused
    ensures Step(t2, Enter(w)) == Some(t3) && Pointers(t3) && t3.current in t3.executors
    ensures Step(t3, Yield(w)).None?
  {
    t3 := Step(t2, Enter(w)).value;
    assert t3.executors[t3.main] == t2.executors[t2.main];
  }

  /** A worker suspended before the scheduler was constructed can be resumed by it once; when it then
      yields it jumps to the consumed entry of the scheduler executor. */
  lemma SuspendedBeforeTheScheduler(t: Thread, w: Id, id: Id) returns (t1: Thread, t2: Thread, t3: Thread)
    requires Inv(t) && t.running == t.base == t.main && Worker(t, w) && t.executors[w].state == HoldUp
    requires id !in t.executors
    ensures Step(t, NewScheduler(id)) == Some(t1) && Pointers(t1) && t1.current in t1.executors
    ensures Step(t1, Run) == Some(t2) && Pointers(t2) && t2.current in t2.executors
    ensures Step(t2, Enter(w)) == Some(t3) && Pointers(t3) && t3.current in t3.executors
    ensures Step(t3, Yield(w)).None?
  {
    t1 := ConstructOverSuspended(t, w, id);
    t2 := RunOverSuspended(t1, w);
    t3 := EnterSuspended(t2, w);
  }

  /** A second run resumes the scheduler loop after its mainYield; when the loop function then
      returns, its terminal() jumps to its own, already consumed, context. */
  lemma SecondRunJumpsToConsumedContext(t: Thread)
    requires Inv(t) && t.main != t.base && t.running == t.base && t.executors[t.main].state == HoldUp
    ensures Step(t, Run).Some?
    ensures Pointers(Step(t, Run).value) && Step(t, Run).value.current == t.main
    ensures Step(Step(t, Run).value, Finish).None?
  {
    StateChangeKeepsContexts(t, t.main, Exec, t.main);
    SwitchIsSound(SetState(t, t.main, Exec).(current := t.main), t.base, t.main);
  }

  // ---------------------------------------------------------------------------
  // Runs that leave the discipline
  // ---------------------------------------------------------------------------

  lemma AfterNext(start: Thread, ops: seq<Op>, op: Op)
    requires After(start, ops).Some? && Inv(After(start, ops).value)
    requires DisciplinedRun(start, ops) && Disciplined(After(start, ops).value, op)
    ensures DisciplinedRun(start, ops + [op])
    ensures After(start, ops + [op]) == Step(After(start, ops).value, op)
    ensures After(start, ops + [op]).Some? && Inv(After(start, ops + [op]).value)
  {
    assert (ops + [op])[..|ops|] == ops;
    DisciplineKeepsInv(After(start, ops).value, op);
  }

  lemma RunStarts(base: Id, main: Id)
    requires base != main
    ensures DisciplinedRun(Start(base, main), [Run])
    ensures After(Start(base, main), [Run]).Some? && Inv(After(Start(base, main), [Run]).value)
    ensures var t := After(Start(base, main), [Run]).value;
            t.running == t.main == main && t.base == base && t.executors.Keys == {base, main}
  {
    var s := Start(base, main);
    AfterNext(s, [], Run);
    assert [] + [Run] == [Run];
    SwitchToNew(s, main, base);
  }

  /** A scheduler that ran and was left can be run again, and the second time its loop ends in a jump
      to a consumed continuation. */
  lemma SecondRunHappens(base: Id, main: Id)
    requires base != main
    ensures DisciplinedRun(Start(base, main), [Run, LoopExit])
    ensures After(Start(base, main), [Run, LoopExit]).Some?
    ensures var t := After(Start(base, main), [Run, LoopExit]).value;
            && Pointers(t) && t.current in t.executors && Step(t, Run).Some?
            && Pointers(Step(t, Run).value) && Step(t, Run).value.current == main
            && Step(Step(t, Run).value, Finish).None?
  {
    var s := Start(base, main);
    RunStarts(base, main);
    var t := After(s, [Run]).value;
    AfterNext(s, [Run], LoopExit);
    assert [Run] + [LoopExit] == [Run, LoopExit];
    SwitchBack(t, main, HoldUp, main, base, base);
    SecondRunJumpsToConsumedContext(After(s, [Run, LoopExit]).value);
  }

  /** A worker that enters another worker leaves its own stack in the main executor's context. */
  lemma NestedEnterHappens(base: Id, main: Id, a: Id, b: Id)
    requires base != main && a !in {base, main} && b !in {base, main, a}
    ensures var ops := [Run, Spawn(a), Spawn(b), Enter(a)];
            && DisciplinedRun(Start(base, main), ops) && After(Start(base, main), ops).Some?
            && var t := After(Start(base, main), ops).value;
               && Pointers(t) && t.running == a && t.current in t.executors
               && Step(t, Enter(b)).Some? && !Inv(Step(t, Enter(b)).value)
  {
    var s := Start(base, main);
    RunStarts(base, main);
    AfterNext(s, [Run], Spawn(a));
    assert [Run] + [Spawn(a)] == [Run, Spawn(a)];
    AfterNext(s, [Run, Spawn(a)], Spawn(b));
    assert [Run, Spawn(a)] + [Spawn(b)] == [Run, Spawn(a), Spawn(b)];
    var t := After(s, [Run, Spawn(a), Spawn(b)]).value;
    AfterNext(s, [Run, Spawn(a), Spawn(b)], Enter(a));
    assert [Run, Spawn(a), Spawn(b)] + [Enter(a)] == [Run, Spawn(a), Spawn(b), Enter(a)];
    SwitchToNew(t, a, main);
    EnterOnlyFromMain(Step(t, Enter(a)).value, b);
  }

  lemma WorkerEntered(base: Id, w: Id)
    requires w != base
    ensures DisciplinedRun(Start(base, base), [Spawn(w), Enter(w)])
    ensures After(Start(base, base), [Spawn(w), Enter(w)]).Some?
    ensures var t := After(Start(base, base), [Spawn(w), Enter(w)]).value;
            Inv(t) && t.running == w && t.base == t.main == base && t.executors.Keys == {base, w}
  {
    var s := Start(base, base);
    AfterNext(s, [], Spawn(w));
    assert [] + [Spawn(w)] == [Spawn(w)];
    var t1 := After(s, [Spawn(w)]).value;
    AfterNext(s, [Spawn(w)], Enter(w));
    assert [Spawn(w)] + [Enter(w)] == [Spawn(w), Enter(w)];
    SwitchToNew(t1, w, base);
  }

  /** Such a worker exists after one disciplined yield without a scheduler. */
  lemma SuspendedBeforeTheSchedulerHappens(base: Id, w: Id, id: Id)
    requires w != base && id !in {base, w}
    ensures var ops := [Spawn(w), Enter(w), Yield(w)];
            && DisciplinedRun(Start(base, base), ops) && After(Start(base, base), ops).Some?
            && var t := After(Start(base, base), ops).value;
               && Inv(t) && t.running == t.base == t.main && Worker(t, w) && t.executors[w].state == HoldUp
               && id !in t.executors
  {
    var s := Start(base, base);
    WorkerEntered(base, w);
    var t := After(s, [Spawn(w), Enter(w)]).value;
    AfterNext(s, [Spawn(w), Enter(w)], Yield(w));
    assert [Spawn(w), Enter(w)] + [Yield(w)] == [Spawn(w), Enter(w), Yield(w)];
    SwitchBack(t, w, HoldUp, w, base, base);
  }
}
