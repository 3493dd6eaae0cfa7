/** Scheduler's methods on its fields, and threadScheduleFunc as the loop it is. */
module SchedulerLoop {
  import opened Common
  import opened Scheduler

  class SchedulerThread {
    var ready: seq<Entry>
    var stopping: bool
    var stopped: bool
    var exitWithTasks: bool
    var accepted: nat
    ghost var popped: seq<Entry>
    ghost var removed: set<nat>

    ghost function View(): (s: Sched)
      reads this
    {
      Sched(ready, stopping, stopped, exitWithTasks, accepted, popped, removed)
    }

    constructor ()
      ensures View() == NEW && Ordered(View())
    {
      ready, stopping, stopped, exitWithTasks, accepted, popped, removed := [], false, false, true, 0, [], {};
    }

    method AddExecutor(e: Option<Executor>) returns (ok: bool)
      modifies this
      ensures View() == Scheduler.AddExecutor(old(View()), e)
      ensures ok <==> !old(stopping)
    {
      if stopping { return false; }
      ready := ready + [Entry(accepted, e)];
      accepted := accepted + 1;
      return true;
    }

    method RemoveExecutor(e: Option<Executor>)
      modifies this
      ensures View() == Scheduler.RemoveExecutor(old(View()), e)
    {
      var i := 0;
      while i < |ready| && ready[i].executor != e
        invariant 0 <= i <= |ready|
        invariant Find(ready, e) == i + Find(ready[i..], e)
      {
        assert ready[i..][1..] == ready[i + 1..];
        i := i + 1;
      }
      if i < |ready| {
        removed := removed + {ready[i].ticket};
        ready := ready[..i] + ready[i + 1..];
      }
    }

    method Stop()
      modifies this
      ensures View() == StopRequest(old(View()))
    {
      if exitWithTasks { stopping := true; } else { stopped := true; }
    }

    /** scheduleAll's walk, or the poller's deliveries. */
    method Offer(es: seq<Option<Executor>>)
      modifies this
      ensures View() == AddAll(old(View()), es)
    {
      for i := 0 to |es|
        invariant AddAll(View(), es[i..]) == AddAll(old(View()), es)
      {
        assert es[i..][1..] == es[i + 1..];
        var _ := AddExecutor(es[i]);
      }
      assert es[|es|..] == [];
    }

    /** What one callback does before it gives control back. */
    method Callback(actions: seq<Action>)
      modifies this
      ensures View() == ActAll(old(View()), actions)
    {
      for i := 0 to |actions|
        invariant ActAll(View(), actions[i..]) == ActAll(old(View()), actions)
      {
        assert actions[i..][1..] == actions[i + 1..];
        match actions[i] {
          case Add(e) => var _ := AddExecutor(e);
          case Erase(e) => RemoveExecutor(e);
          case Halt => Stop();
        }
      }
      assert actions[|actions|..] == [];
    }

    /** Take the entry at the front, if any. */
    method TakeFront() returns (executor: Option<Executor>)
      modifies this`ready, this`popped
      ensures View() == PopFront(old(View()))
      ensures executor == if old(ready) == [] then None else old(ready)[0].executor
    {
      executor := None;
      if ready != [] {
        executor := ready[0].executor;
        popped := popped + [ready[0]];
        ready := ready[1..];
      }
    }

    /** One turn of the while loop. */
    method Turn(round: Round) returns (left: bool)
      modifies this
      ensures (View(), left) == Iterate(old(View()), round)
    {
      if stopped && round.stopFunction { return true; }
      Offer(round.remote);
      var executor := TakeFront();
      if executor.None? {
        if stopping { return true; }
        Offer(round.woken);
      } else {
        Callback(round.actions);
      }
      return false;
    }

    /** threadScheduleFunc, in the surroundings `rounds`; `left` tells whether the loop was left
        within them. */
    method ThreadScheduleFunc(rounds: seq<Round>) returns (left: bool)
      requires Ordered(View())
      modifies this
      ensures (View(), left) == Loop(old(View()), rounds)
      ensures Ordered(View())
      ensures Draining(old(View())) && NoNull(old(View())) && |rounds| > |old(ready)| ==> left && ready == []
    {
      LoopIsFifo(View(), rounds);
      if Draining(View()) && NoNull(View()) { DrainsOnStop(View(), rounds); }
      left := false;
      var i := 0;
      while i < |rounds| && !left
        invariant 0 <= i <= |rounds|
        invariant if left then (View(), true) == Loop(old(View()), rounds)
                  else Loop(View(), rounds[i..]) == Loop(old(View()), rounds)
      {
        assert rounds[i..][0] == rounds[i] && rounds[i..][1..] == rounds[i + 1..];
        left := Turn(rounds[i]);
        i := i + 1;
      }
      if !left { assert rounds[i..] == []; }
    }
  }
}
