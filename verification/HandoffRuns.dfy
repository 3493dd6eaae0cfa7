/** Runs of the hand-off that exist: address reuse, stranded tasks, and waiting over a ready task. */
module HandoffRuns {
  import opened Common
  import opened RemoteHandoff

  ghost predicate Reachable(producers: set<nat>, s: State) {
    exists steps :: After(producers, steps) == Some(s)
  }

  lemma ReachNext(producers: set<nat>, s: State, step: Step)
    requires Reachable(producers, s) && Next(s, step).Some?
    ensures Reachable(producers, Next(s, step).value)
  {
    var steps :| After(producers, steps) == Some(s);
    var more := steps + [step];
    assert more[..|more| - 1] == steps;
    assert After(producers, more) == Next(s, step);
  }

  lemma AllocateAndLoad(producers: set<nat>, s: State, p: nat, at: Addr) returns (r: State)
    requires Reachable(producers, s) && p in s.producers && s.producers[p].Idle? && at != 0 && at !in s.heap
    ensures Reachable(producers, r)
    ensures r == SetProducer(s, p, Loaded(at, s.issued, s.head))
                 .(heap := s.heap[at := Node(s.issued, 0)], issued := s.issued + 1)
  {
    ReachNext(producers, s, New(p, at));
    var s1 := Next(s, New(p, at)).value;
    ReachNext(producers, s1, Load(p));
    r := Next(s1, Load(p)).value;
    assert r.producers == s.producers[p := Loaded(at, s.issued, s.head)];
  }

  lemma LinkAndPublish(producers: set<nat>, s: State, p: nat) returns (r: State)
    requires Reachable(producers, s) && p in s.producers && s.producers[p].Loaded? && s.head == s.producers[p].seen
    ensures Reachable(producers, r)
    ensures var pc := s.producers[p];
            r == SetProducer(s, p, Published(pc.task))
                 .(heap := s.heap[pc.node := Node(pc.task, pc.seen)], head := pc.node,
                   published := s.published + [pc.task])
  {
    ReachNext(producers, s, Link(p));
    var s1 := Next(s, Link(p)).value;
    ReachNext(producers, s1, Cas(p));
    r := Next(s1, Cas(p)).value;
    assert r.producers == s.producers[p := Published(s.producers[p].task)];
  }

  lemma DetachOne(producers: set<nat>, s: State) returns (r: State)
    requires Reachable(producers, s) && s.loop.Top? && s.head in s.heap
    ensures Reachable(producers, r)
    ensures r.producers == s.producers && r.heap == s.heap - {s.head} && r.head == 0 && r.issued == s.issued
  {
    ReachNext(producers, s, Exchange);
    var s1 := Next(s, Exchange).value;
    ReachNext(producers, s1, Hand);
    var s2 := Next(s1, Hand).value;
    ReachNext(producers, s2, Free);
    r := Next(s2, Free).value;
  }

  /** From every reachable state with the loop thread about to collect a list and two idle
      producers, this run is possible: `p` reads the head address, the node there is freed, `q` gets
      the same address for a new task and publishes it, and the CAS of `p` succeeds although the
      address it remembers now belongs to another node. */
  lemma StaleCasSucceeds(producers: set<nat>, s: State, p: nat, q: nat, n: Addr) returns (loaded: State, done: State)
    requires Reachable(producers, s) && s.loop.Top? && s.head in s.heap && s.head != 0
    requires p in s.producers && q in s.producers && p != q && s.producers[p].Idle? && s.producers[q].Idle?
    requires n != 0 && n !in s.heap
    ensures Reachable(producers, loaded) && Reachable(producers, done)
    ensures s.head in loaded.heap && p in loaded.producers && loaded.producers[p] == Loaded(n, s.issued, s.head)
    ensures done.head == n && n in done.heap && done.heap[n] == Node(s.issued, s.head)
    ensures s.head in done.heap && done.heap[s.head] == Node(s.issued + 1, 0)
    ensures p in done.producers && done.producers[p] == Published(s.issued)
  {
    loaded := AllocateAndLoad(producers, s, p, n);
    var freed := DetachOne(producers, loaded);
    var reused := AllocateAndLoad(producers, freed, q, s.head);
    var published := LinkAndPublish(producers, reused, q);
    assert published.producers[p] == Loaded(n, s.issued, s.head);
    done := LinkAndPublish(producers, published, p);
  }

  /** Such states exist. */
  lemma StaleCasHappens() returns (s: State)
    ensures Reachable({0, 1, 2}, s) && s.loop.Top? && s.head in s.heap && s.head != 0
    ensures s.producers.Keys == {0, 1, 2} && s.producers[0].Idle? && s.producers[1].Idle?
  {
    var start := Start({0, 1, 2});
    assert After({0, 1, 2}, []) == Some(start);
    var s1 := AllocateAndLoad({0, 1, 2}, start, 2, 5);
    s := LinkAndPublish({0, 1, 2}, s1, 2);
  }

  // ---------------------------------------------------------------------------
  // Stranded tasks
  // ---------------------------------------------------------------------------

  /** The loop thread, asked to stop, finds nothing on the remote list. */
  lemma StopAndExchange(producers: set<nat>, s: State) returns (r: State)
    requires Reachable(producers, s) && s.loop.Top? && s.head == 0
    ensures Reachable(producers, r) && r == s.(stopping := true, loop := Walk(0))
  {
    ReachNext(producers, s, Stop);
    var s1 := s.(stopping := true);
    ReachNext(producers, s1, Exchange);
    r := Next(s1, Exchange).value;
  }

  /** A task published after the loop thread has left is stranded. */
  lemma StrandingHappens() returns (s: State)
    ensures Reachable({0}, s) && s.loop.Exit? && s.published == [0] && s.handed == []
    ensures s.producers == map[0 := Published(0)]
  {
    var start := Start({0});
    assert After({0}, []) == Some(start);
    var s1 := StopAndExchange({0}, start);
    ReachNext({0}, s1, NoWork);
    var s2 := AllocateAndLoad({0}, Next(s1, NoWork).value, 0, 5);
    s := LinkAndPublish({0}, s2, 0);
  }

  /** So is one published before it leaves, but after its last exchange. */
  lemma StrandingBeforeTheEndHappens() returns (published: State, s: State)
    ensures Reachable({0}, published) && published.loop == Walk(0) && published.published == [0]
    ensures Next(published, NoWork) == Some(s) && s.loop.Exit? && s.published == [0] && s.handed == []
  {
    var start := Start({0});
    assert After({0}, []) == Some(start);
    var s1 := StopAndExchange({0}, start);
    var s2 := AllocateAndLoad({0}, s1, 0, 5);
    published := LinkAndPublish({0}, s2, 0);
    s := Next(published, NoWork).value;
  }

  // ---------------------------------------------------------------------------
  // Waiting over a ready task
  // ---------------------------------------------------------------------------

  /** An idle loop thread goes to wait. */
  lemma GoToWait(producers: set<nat>, s: State) returns (r: State)
    requires Reachable(producers, s) && s.loop.Top? && s.head == 0 && !s.stopping
    requires s.ready == [] || s.ready[0].Null?
    ensures Reachable(producers, r)
    ensures r == s.(loop := Wait, ready := if s.ready == [] then [] else s.ready[1..])
  {
    ReachNext(producers, s, Exchange);
    var s1 := Next(s, Exchange).value;
    ReachNext(producers, s1, NoWork);
    r := Next(s1, NoWork).value;
  }

  lemma Signal(producers: set<nat>, s: State, p: nat) returns (r: State)
    requires Reachable(producers, s) && p in s.producers && s.producers[p].Published?
    requires s.lock.None? && s.pipe < PIPE_CAPACITY
    ensures Reachable(producers, r) && r == SetProducer(s, p, Idle).(pipe := s.pipe + 1)
  {
    ReachNext(producers, s, Lock(p));
    var s1 := Next(s, Lock(p)).value;
    ReachNext(producers, s1, Write(p));
    var s2 := Next(s1, Write(p)).value;
    ReachNext(producers, s2, Unlock(p));
    r := Next(s2, Unlock(p)).value;
    assert r.producers == s.producers[p := Idle];
  }

  /** One poll reports the wake-up and queues `items`. */
  lemma WakeAndDrain(producers: set<nat>, s: State, items: seq<Item>) returns (r: State)
    requires Reachable(producers, s) && s.loop.Wait? && s.pipe == 1 && !s.stopping && OwnItems(items)
    ensures Reachable(producers, r) && r == s.(loop := Top, pipe := 0, ready := s.ready + items)
  {
    ReachNext(producers, s, Wake(true, items));
    var s1 := Next(s, Wake(true, items)).value;
    ReachNext(producers, s1, Read);
    var s2 := Next(s1, Read).value;
    ReachNext(producers, s2, Read);
    r := Next(s2, Read).value;
  }

  /** The loop thread collects a list of one task. */
  lemma CollectOne(producers: set<nat>, s: State) returns (r: State)
    requires Reachable(producers, s) && s.loop.Top? && !s.stopping
    requires 0 !in s.heap && s.head in s.heap && s.heap[s.head].next == 0
    ensures Reachable(producers, r)
    ensures var t := s.heap[s.head].task;
            r == s.(loop := Walk(0), head := 0, heap := s.heap - {s.head}, handed := s.handed + [t],
                    accepted := s.accepted + [t], ready := s.ready + [Remote(t)])
  {
    ReachNext(producers, s, Exchange);
    var s1 := Next(s, Exchange).value;
    ReachNext(producers, s1, Hand);
    var s2 := Next(s1, Hand).value;
    ReachNext(producers, s2, Free);
    r := Next(s2, Free).value;
  }

  /** It runs the local executor at the front. */
  lemma RunLocal(producers: set<nat>, s: State) returns (r: State)
    requires Reachable(producers, s) && s.loop == Walk(0) && s.ready != [] && s.ready[0].Local?
    ensures Reachable(producers, r) && r == s.(loop := Top, ready := s.ready[1..])
  {
    ReachNext(producers, s, Pop);
    var s1 := Next(s, Pop).value;
    assert s1.started == s.started + [] == s.started;
    ReachNext(producers, s1, Return([]));
    r := Next(s1, Return([])).value;
    assert s1.ready + [] == s1.ready;
  }

  /** A wake-up and an error event in one poll: the error queues an executor and a null entry, the
      task is collected behind them, and when the null entry is popped the loop thread waits on an
      empty pipe, with every producer idle, while the task is ready. */
  lemma WaitingOverReadyTaskHappens() returns (s: State)
    ensures Reachable({0}, s) && s.loop.Wait? && s.pipe == 0 && s.issued == 1
    ensures s.producers == map[0 := Idle] && s.started == [] && s.ready == [Remote(0)]
  {
    var start := Start({0});
    assert After({0}, []) == Some(start);
    var waiting := GoToWait({0}, start);
    var loaded := AllocateAndLoad({0}, waiting, 0, 5);
    var published := LinkAndPublish({0}, loaded, 0);
    var signalled := Signal({0}, published, 0);
    var woken := WakeAndDrain({0}, signalled, [Local, Null]);
    assert woken.ready == [Local, Null];
    var collected := CollectOne({0}, woken);
    assert collected.ready == [Local, Null, Remote(0)];
    var after := RunLocal({0}, collected);
    assert after.ready == [Null, Remote(0)];
    s := GoToWait({0}, after);
  }
}
