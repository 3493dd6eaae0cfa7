/**
 The executor operations of one thread as the code performs them: fields and thread-local pointers
 are reassigned one after the other and a jump leaves the stack.  A method ends where some stack
 runs again, which need not be the stack that called it.
 */
module ExecutorThread {
  import opened Common
  import opened Coroutine

  class ThreadLocals {
    var executors: map<Id, Executor>
    var current: Id
    var main: Id
    var base: Id
    var running: Id
    var live: map<Context, Suspended>
    var unused: Context

    ghost function View(): (t: Thread)
      reads this
    {
      Thread(executors, current, main, base, running, live, unused)
    }

    /** Executor::getCurrent on a new thread, followed by the Scheduler constructor when
        `main != base`. */
    constructor (base: Id, main: Id)
      ensures View() == Start(base, main) && Inv(View())
    {
      this.executors := map[main := Executor(Init, None)][base := Executor(Ready, None)];
      this.current, this.main, this.base, this.running := base, main, base, base;
      this.live := map[];
      this.unused := 0;
    }

    method MakeContext(id: Id)
      requires id in executors
      modifies this
      ensures View() == Coroutine.MakeContext(old(View()), id)
    {
      executors := executors[id := executors[id].(context := Some(unused))];
      live := live[unused := Suspended(id, Entry)];
      unused := unused + 1;
    }

    method SwapContext(src: Id, dst: Id)
      requires dst in executors && Coroutine.SwapContext(View(), src, dst).Some?
      modifies this
      ensures Some(View()) == Coroutine.SwapContext(old(View()), src, dst)
    {
      // jump_fcontext(dst->context_, src)
      var target := executors[dst].context.value;
      var resumed := live[target];
      var left := unused;
      live := (live - {target})[left := Suspended(running, Swap(dst))];
      unused := unused + 1;
      running := resumed.stack;
      // the first statement executed on the resumed stack
      if resumed.at.Entry? {
        executors := executors[src := executors[src].(context := Some(left))];
      } else {
        executors := executors[resumed.at.dst := executors[resumed.at.dst].(context := Some(left))];
      }
    }

    method DoExec(id: Id, isMain: bool)
      requires id in executors && base in executors && main in executors
      requires Coroutine.DoExec(View(), id, isMain).Some?
      modifies this
      ensures Some(View()) == Coroutine.DoExec(old(View()), id, isMain)
    {
      var state := executors[id].state;
      if state == Init {
        MakeContext(id);
      }
      if state == Init || state == HoldUp || state == Ready {
        executors := executors[id := executors[id].(state := Exec)];
        current := id;
        SwapContext(if isMain then base else main, id);
      }
    }

    method ExecWorker(id: Id)
      requires Inv(View()) && Disciplined(View(), Enter(id))
      modifies this
      ensures Inv(View()) && Some(View()) == Step(old(View()), Enter(id)) && GoodSwitch(old(View()), View())
    {
      EnterKeeps(View(), id);
      DoExec(id, false);
    }

    method YieldWorker(id: Id)
      requires Inv(View()) && Disciplined(View(), Yield(id))
      modifies this
      ensures Inv(View()) && Some(View()) == Step(old(View()), Yield(id)) && GoodSwitch(old(View()), View())
    {
      DisciplineKeepsInv(View(), Yield(id));
      if executors[id].state != Exec { return; }
      executors := executors[id := executors[id].(state := HoldUp)];
      current := main;
      SwapContext(id, current);
    }

    method KillWorker(id: Id)
      requires Inv(View()) && Disciplined(View(), Kill(id))
      modifies this
      ensures Inv(View()) && Some(View()) == Step(old(View()), Kill(id)) && GoodSwitch(old(View()), View())
    {
      DisciplineKeepsInv(View(), Kill(id));
      var state := executors[id].state;
      executors := executors[id := executors[id].(state := Terminal)];
      if state == Exec {
        current := main;
        SwapContext(id, current);
      }
    }

    method TerminalWorker()
      requires Inv(View()) && Disciplined(View(), Finish)
      modifies this
      ensures Inv(View()) && Some(View()) == Step(old(View()), Finish) && GoodSwitch(old(View()), View())
    {
      DisciplineKeepsInv(View(), Finish);
      var id := current;
      executors := executors[id := executors[id].(state := Terminal)];
      current := main;
      SwapContext(id, current);
    }

    /** The Scheduler constructor: a new executor, then setMainExecutor. */
    method ConstructScheduler(id: Id)
      requires Inv(View()) && Disciplined(View(), NewScheduler(id))
      modifies this
      ensures Inv(View()) && Some(View()) == Step(old(View()), NewScheduler(id)) && running == old(running)
    {
      NewSchedulerKeeps(View(), id);
      executors := executors[id := Executor(Init, None)];
      main := id;
    }

    method MainExec()
      requires Inv(View()) && Disciplined(View(), Run)
      modifies this
      ensures Inv(View()) && Some(View()) == Step(old(View()), Run) && GoodSwitch(old(View()), View())
    {
      RunKeeps(View());
      DoExec(main, true);
    }

    method MainYield()
      requires Inv(View()) && Disciplined(View(), LoopExit)
      modifies this
      ensures Inv(View()) && Some(View()) == Step(old(View()), LoopExit) && GoodSwitch(old(View()), View())
    {
      LoopExitKeeps(View());
      if executors[main].state != Exec { return; }
      executors := executors[main := executors[main].(state := HoldUp)];
      current := base;
      SwapContext(main, base);
    }
  }
}
