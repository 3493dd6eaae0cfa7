/**
 What the hand-off does, step by step and alone: which entries a scheduler accepts, how a producer
 gets its node published, and how a woken loop thread collects everything on the list.
 */
module HandoffProgress {
  import opened Common
  import opened RemoteHandoff

  // ---------------------------------------------------------------------------
  // Accepting and refusing
  // ---------------------------------------------------------------------------

  /** From `s` on, a stopping scheduler accepted nothing: the ready list only lost entries, everything
      handed over was refused, and the loop did not go to wait again. */
  predicate OnlyRefuses(s: State, s': State) {
    && s'.stopping
    && s'.accepted == s.accepted
    && multiset(s'.ready) <= multiset(s.ready)
    && |s.handed| <= |s'.handed|
    && s'.handed == s.handed + s'.handed[|s.handed|..]
    && s'.refused == s.refused + s'.handed[|s.handed|..]
    && (!s.loop.Wait? ==> !s'.loop.Wait?)
  }

  lemma DroppingOne(items: seq<Item>, at: nat)
    requires at < |items|
    ensures multiset(items) == multiset(items[..at] + items[at + 1..]) + multiset{items[at]}
  {
    assert items == items[..at] + [items[at]] + items[at + 1..];
  }

  /** A step of a stopping scheduler takes at most one entry off the ready list. */
  lemma StoppingTakesOne(s: State, step: Step) returns (at: nat)
    requires s.stopping && Next(s, step).Some?
    ensures var s' := Next(s, step).value;
            s'.ready == s.ready || (at < |s.ready| && s'.ready == s.ready[..at] + s.ready[at + 1..])
  {
    at := if step.Erase? then step.at else 0;
    assert s.ready != [] ==> s.ready[..0] + s.ready[1..] == s.ready[1..];
  }

  lemma StoppingShrinksReady(s: State, step: Step)
    requires s.stopping && Next(s, step).Some?
    ensures multiset(Next(s, step).value.ready) <= multiset(s.ready)
  {
    var at := StoppingTakesOne(s, step);
    if at < |s.ready| { DroppingOne(s.ready, at); }
  }

  lemma StoppingRefuses(s: State, step: Step)
    requires s.stopping && Next(s, step).Some?
    ensures var s' := Next(s, step).value;
            && s'.stopping && s'.accepted == s.accepted && (!s.loop.Wait? ==> !s'.loop.Wait?)
            && exists x :: s'.handed == s.handed + x && s'.refused == s.refused + x
  {
    var s' := Next(s, step).value;
    if step.Hand? {
      var x := [s.heap[s.loop.cur].task];
      assert s'.handed == s.handed + x && s'.refused == s.refused + x;
    } else {
      assert s'.handed == s.handed + [] && s'.refused == s.refused + [];
    }
  }

  lemma StoppingStep(s: State, step: Step)
    requires s.stopping && Next(s, step).Some?
    ensures OnlyRefuses(s, Next(s, step).value)
  {
    var s' := Next(s, step).value;
    StoppingShrinksReady(s, step);
    StoppingRefuses(s, step);
    var x :| s'.handed == s.handed + x && s'.refused == s.refused + x;
    assert s'.handed[|s.handed|..] == x;
  }

  lemma OnlyRefusesOn(a: State, b: State, c: State)
    requires OnlyRefuses(a, b) && OnlyRefuses(b, c)
    ensures OnlyRefuses(a, c)
  {
    var x, y := b.handed[|a.handed|..], c.handed[|b.handed|..];
    assert c.handed == a.handed + (x + y);
    assert c.handed[|a.handed|..] == x + y;
    assert a.refused + (x + y) == (a.refused + x) + y;
  }

  /** Once a scheduler is stopping, whatever follows, no task is accepted and the ready list never
      grows: every task handed over from then on is refused. */
  lemma {:induction false} StoppingAcceptsNothing(producers: set<nat>, steps: seq<Step>, more: seq<Step>)
    requires After(producers, steps).Some? && After(producers, steps).value.stopping
    requires After(producers, steps + more).Some?
    ensures OnlyRefuses(After(producers, steps).value, After(producers, steps + more).value)
    decreases |more|
  {
    var s := After(producers, steps).value;
    if more == [] {
      assert steps + more == steps;
      assert s.handed[|s.handed|..] == [];
    } else {
      var before := more[..|more| - 1];
      assert (steps + more)[..|steps + more| - 1] == steps + before;
      StoppingAcceptsNothing(producers, steps, before);
      var s1 := After(producers, steps + before).value;
      StoppingStep(s1, more[|more| - 1]);
      OnlyRefusesOn(s, s1, Next(s1, more[|more| - 1]).value);
    }
  }

  /** Acceptance comes first, refusal afterwards, and a scheduler that was never told to stop refuses
      nothing. */
  predicate AcceptedThenRefused(s: State) {
    && s.handed == s.accepted + s.refused
    && (!s.stopping ==> s.refused == [])
  }

  lemma AcceptedThenRefusedKept(s: State, step: Step)
    requires AcceptedThenRefused(s) && Next(s, step).Some?
    ensures AcceptedThenRefused(Next(s, step).value)
    ensures Next(s, step).value.stopping <==> s.stopping || step.Stop?
  {
    if step.Hand? {
      var t := s.heap[s.loop.cur].task;
      Regrouped(s.accepted, s.refused, [t]);
      assert s.accepted + [] == s.accepted && s.accepted + [t] + [] == s.accepted + [t];
    }
  }

  lemma {:induction false} RefusesOnlyAfterStop(producers: set<nat>, steps: seq<Step>)
    requires After(producers, steps).Some?
    ensures AcceptedThenRefused(After(producers, steps).value)
    ensures After(producers, steps).value.stopping <==> exists i :: 0 <= i < |steps| && steps[i].Stop?
  {
    if steps != [] {
      var before := steps[..|steps| - 1];
      RefusesOnlyAfterStop(producers, before);
      AcceptedThenRefusedKept(After(producers, before).value, steps[|steps| - 1]);
      assert forall i :: 0 <= i < |before| ==> before[i] == steps[i];
      if exists i :: 0 <= i < |before| && before[i].Stop? {
        var i :| 0 <= i < |before| && before[i].Stop?;
        assert steps[i].Stop?;
      }
    }
  }

  // ---------------------------------------------------------------------------
  // The ready list
  // ---------------------------------------------------------------------------

  /** At the end of a walk the first entry decides: an executor is run, a null entry or an empty list
      lets the loop wait, or leave when it is stopping. */
  lemma TheFirstEntryDecides(s: State)
    requires s.loop == Walk(0)
    ensures LoopNext(s, Pop).Some? <==> LoopNext(s, NoWork).None?
    ensures LoopNext(s, NoWork).Some? <==> s.ready == [] || s.ready[0] == Null
    ensures LoopNext(s, Pop).Some? ==> LoopNext(s, Pop).value.loop == Run
    ensures LoopNext(s, NoWork).Some? ==> (LoopNext(s, NoWork).value.loop == Exit <==> s.stopping)
    ensures LoopNext(s, NoWork).Some? ==> (LoopNext(s, NoWork).value.loop == Wait <==> !s.stopping)
  {}

  /** The stop function is asked at the top of the loop only; leaving there changes nothing else. */
  lemma QuitOnlyAtTop(s: State)
    ensures LoopNext(s, Quit).Some? <==> s.loop.Top?
    ensures s.loop.Top? ==> LoopNext(s, Quit).value == s.(loop := Exit)
  {}

  /** The pipe never holds more than its 65536 bytes, and only a byte that fits is written. */
  lemma {:induction false} PipeIsBounded(producers: set<nat>, steps: seq<Step>)
    requires After(producers, steps).Some?
    ensures After(producers, steps).value.pipe <= 65536
  {
    if steps != [] {
      PipeIsBounded(producers, steps[..|steps| - 1]);
      PipeStaysBounded(After(producers, steps[..|steps| - 1]).value, steps[|steps| - 1]);
    }
  }

  lemma PipeStaysBounded(s: State, step: Step)
    requires s.pipe <= 65536 && Next(s, step).Some?
    ensures Next(s, step).value.pipe <= 65536
  {}

  /** What callbacks and polls queue goes behind everything else in its order, and the loop goes on to
      collect; waiting never prevents a poll from returning. */
  lemma OffersAreQueued(s: State, items: seq<Item>)
    requires OwnItems(items) && !s.stopping
    ensures s.loop.Run? ==> LoopNext(s, Return(items)) == Some(s.(loop := Top, ready := s.ready + items))
    ensures s.loop.Wait? ==> LoopNext(s, Wake(false, items)) == Some(s.(loop := Top, ready := s.ready + items))
    ensures s.loop.Wait? && s.pipe > 0 ==>
              LoopNext(s, Wake(true, items)) == Some(s.(loop := Drain, ready := s.ready + items))
    ensures LoopNext(s, Wake(true, items)).Some? ==> s.pipe > 0
  {}

  /** removeExecutor takes out one entry and leaves the others in their order. */
  lemma EraseTakesOneEntry(s: State, before: seq<Item>, item: Item, behind: seq<Item>)
    requires s.loop.Run? && s.ready == before + [item] + behind
    ensures LoopNext(s, Erase(|before|)).Some?
    ensures LoopNext(s, Erase(|before|)).value.ready == before + behind
    ensures forall t :: t in LoopNext(s, Erase(|before|)).value.erased <==> t in s.erased || item == Remote(t)
  {
    assert s.ready[..|before|] == before && s.ready[|before| + 1..] == behind && s.ready[|before|] == item;
  }

  // ---------------------------------------------------------------------------
  // Runs of one thread alone
  // ---------------------------------------------------------------------------

  /** The given steps from `s`; None when one is not enabled. */
  function Play(s: State, steps: seq<Step>): (r: Option<State>)
    decreases steps
  {
    if steps == [] then Some(s)
    else if Next(s, steps[0]).None? then None
    else Play(Next(s, steps[0]).value, steps[1..])
  }

  lemma {:induction false} PlayOn(s: State, a: seq<Step>, b: seq<Step>)
    requires Play(s, a).Some?
    ensures Play(s, a + b) == Play(Play(s, a).value, b)
    decreases a
  {
    if a == [] {
      assert a + b == b;
    } else {
      assert (a + b)[0] == a[0] && (a + b)[1..] == a[1..] + b;
      PlayOn(Next(s, a[0]).value, a[1..], b);
    }
  }

  lemma PlayFirst(s: State, step: Step, rest: seq<Step>)
    requires Next(s, step).Some?
    ensures Play(s, [step] + rest) == Play(Next(s, step).value, rest)
  {
    assert ([step] + rest)[1..] == rest;
  }

  /** The state after producer `p` published its node on the list as it is. */
  function Pushed(s: State, p: nat): (r: State)
    requires p in s.producers && s.producers[p].OwnsNode()
  {
    var pc := s.producers[p];
    SetProducer(s, p, Published(pc.task))
    .(heap := s.heap[pc.node := Node(pc.task, s.head)], head := pc.node, published := s.published + [pc.task])
  }

  lemma PublishFromLoaded(s: State, p: nat)
    requires p in s.producers && s.producers[p].Loaded? && s.producers[p].seen == s.head
    ensures Play(s, [Link(p), Cas(p)]) == Some(Pushed(s, p))
  {
    var s1 := Next(s, Link(p)).value;
    PlayFirst(s, Link(p), [Cas(p)]);
    assert [Link(p)] + [Cas(p)] == [Link(p), Cas(p)];
    PlayFirst(s1, Cas(p), []);
    assert [Cas(p)] + [] == [Cas(p)];
    assert Next(s1, Cas(p)).value.producers == s.producers[p := Published(s.producers[p].task)];
  }

  /** A producer that is not disturbed publishes its node: right away, or after one failed CAS, which
      draining the head again. */
  lemma UndisturbedProducerPublishes(s: State, p: nat)
    requires p in s.producers
    ensures s.producers[p].Allocated? ==> Play(s, [Load(p), Link(p), Cas(p)]) == Some(Pushed(s, p))
    ensures s.producers[p].Loaded? && s.producers[p].seen == s.head ==>
              Play(s, [Link(p), Cas(p)]) == Some(Pushed(s, p))
    ensures s.producers[p].Linked? && s.producers[p].seen != s.head ==>
              Play(s, [Cas(p), Link(p), Cas(p)]) == Some(Pushed(s, p))
  {
    var pc := s.producers[p];
    if pc.Allocated? || (pc.Linked? && pc.seen != s.head) {
      var step := if pc.Allocated? then Load(p) else Cas(p);
      var s1 := Next(s, step).value;
      PlayFirst(s, step, [Link(p), Cas(p)]);
      assert [step] + [Link(p), Cas(p)] == [step, Link(p), Cas(p)];
      PublishFromLoaded(s1, p);
      assert Pushed(s1, p).producers == Pushed(s, p).producers;
    } else if pc.Loaded? && pc.seen == s.head {
      PublishFromLoaded(s, p);
    }
  }

  // ---------------------------------------------------------------------------
  // A woken loop thread collects everything
  // ---------------------------------------------------------------------------

  function Reads(n: nat): (r: seq<Step>)
    ensures |r| == n
  {
    if n == 0 then [] else [Read] + Reads(n - 1)
  }

  /** Every read takes at most eight bytes, and the drain ends with the first read that finds none. */
  lemma {:induction false} DrainTakesItsReads(s: State)
    requires s.loop.Drain?
    ensures Play(s, Reads((s.pipe + 7) / 8)) == Some(s.(pipe := 0))
    ensures Play(s, Reads((s.pipe + 7) / 8 + 1)) == Some(s.(pipe := 0, loop := Top))
    ensures s.pipe > 8 ==> Next(s, Read) == Some(s.(pipe := s.pipe - 8))
    decreases s.pipe
  {
    if s.pipe == 0 {
      assert Reads(1)[1..] == Reads(0);
      assert s.(pipe := 0) == s;
    } else {
      var rest := s.(pipe := if s.pipe <= 8 then 0 else s.pipe - 8);
      DrainTakesItsReads(rest);
      var n := (rest.pipe + 7) / 8;
      assert (s.pipe + 7) / 8 == n + 1;
      assert Reads(n + 1)[1..] == Reads(n) && Reads(n + 2)[1..] == Reads(n + 1);
    }
  }

  function Walks(n: nat): (r: seq<Step>) {
    if n == 0 then [] else [Hand, Free] + Walks(n - 1)
  }

  function Items(ts: seq<Task>): (r: seq<Item>)
    ensures |r| == |ts| && forall i :: 0 <= i < |ts| ==> r[i] == Remote(ts[i])
  {
    seq(|ts|, i requires 0 <= i < |ts| => Remote(ts[i]))
  }

  function Elements(c: seq<Addr>): (r: set<Addr>) { set a | a in c }

  /** The state after a walk over tasks `ts` in that order. */
  function Walked(s: State, ts: seq<Task>, gone: set<Addr>): (r: State) {
    var r := s.(loop := Walk(0), heap := s.heap - gone, handed := s.handed + ts);
    if s.stopping then r.(refused := s.refused + ts)
    else r.(accepted := s.accepted + ts, ready := s.ready + Items(ts))
  }

  lemma OneWalkStep(s: State)
    requires s.loop.Walk? && s.loop.cur in s.heap
    ensures Play(s, [Hand, Free])
            == Some(Walked(s, [s.heap[s.loop.cur].task], {s.loop.cur}).(loop := Walk(s.heap[s.loop.cur].next)))
  {
    var s1 := Next(s, Hand).value;
    PlayFirst(s, Hand, [Free]);
    assert [Hand] + [Free] == [Hand, Free];
    PlayFirst(s1, Free, []);
    assert [Free] + [] == [Free];
    assert Items([s.heap[s.loop.cur].task]) == [Remote(s.heap[s.loop.cur].task)];
  }

  lemma WalkedOn(s: State, ts: seq<Task>, more: seq<Task>, gone: set<Addr>, rest: set<Addr>, l: Loop)
    ensures Walked(Walked(s, ts, gone).(loop := l), more, rest) == Walked(s, ts + more, gone + rest)
  {
    Regrouped(s.handed, ts, more);
    Regrouped(s.refused, ts, more);
    Regrouped(s.accepted, ts, more);
    assert Items(ts + more) == Items(ts) + Items(more);
    assert s.ready + Items(ts) + Items(more) == s.ready + (Items(ts) + Items(more));
    assert s.heap - gone - rest == s.heap - (gone + rest);
  }

  lemma WalkedNothing(s: State)
    requires s.loop == Walk(0)
    ensures Walked(s, [], {}) == s
  {
    assert Items([]) == [] && s.ready + [] == s.ready && s.handed + [] == s.handed;
    assert s.refused + [] == s.refused && s.accepted + [] == s.accepted;
    assert s.heap - {} == s.heap;
  }

  /** A walk hands over the detached list from its head on and frees every node. */
  lemma {:induction false} WalkHandsOverAll(s: State, c: seq<Addr>)
    requires s.loop.Walk? && Chain(s.heap, s.loop.cur, c) && AllIn(s.heap, c) && NoDuplicates(c)
    ensures Play(s, Walks(|c|)) == Some(Walked(s, Tasks(s.heap, c), Elements(c)))
    decreases c
  {
    if c == [] {
      assert Tasks(s.heap, c) == [] && Elements(c) == {};
      WalkedNothing(s);
    } else {
      var a, rest := c[0], c[1..];
      var s1 := Walked(s, [s.heap[a].task], {a}).(loop := Walk(s.heap[a].next));
      OneWalkStep(s);
      RestOfChain(s, c);
      WalkHandsOverAll(s1, rest);
      PlayOn(s, [Hand, Free], Walks(|rest|));
      FirstAndRest(s, c);
      WalkedOn(s, [s.heap[a].task], Tasks(s.heap, rest), {a}, Elements(rest), Walk(s.heap[a].next));
    }
  }

  lemma FirstAndRest(s: State, c: seq<Addr>)
    requires c != [] && AllIn(s.heap, c) && AllIn(s.heap - {c[0]}, c[1..])
    ensures AllIn(s.heap, c[1..]) && Tasks(s.heap - {c[0]}, c[1..]) == Tasks(s.heap, c[1..])
    ensures Tasks(s.heap, c) == [s.heap[c[0]].task] + Tasks(s.heap, c[1..])
    ensures Elements(c) == {c[0]} + Elements(c[1..])
  {}

  lemma RestOfChain(s: State, c: seq<Addr>)
    requires c != [] && s.loop.Walk? && Chain(s.heap, s.loop.cur, c) && AllIn(s.heap, c) && NoDuplicates(c)
    ensures Chain(s.heap - {c[0]}, s.heap[c[0]].next, c[1..])
    ensures AllIn(s.heap - {c[0]}, c[1..]) && NoDuplicates(c[1..])
  {
    forall i | 0 <= i < |c[1..]| ensures c[1..][i] != c[0] { assert c[1..][i] == c[i + 1]; }
    ChainFrame(s.heap, s.heap - {c[0]}, s.heap[c[0]].next, c[1..]);
  }

  /** A wake-up byte brings the loop thread back to its top with an empty pipe. */
  lemma WokenLoopDrains(s: State, offered: seq<Item>)
    requires s.loop.Wait? && s.pipe > 0 && OwnItems(offered)
    ensures Play(s, [Wake(true, offered)] + Reads((s.pipe + 7) / 8 + 1))
            == Some(s.(pipe := 0, loop := Top, ready := Offered(s, offered)))
  {
    PlayFirst(s, Wake(true, offered), Reads((s.pipe + 7) / 8 + 1));
    DrainTakesItsReads(Next(s, Wake(true, offered)).value);
  }

  /** At its top it takes the whole list and hands it over. */
  lemma TopCollects(s: State, c: seq<Addr>)
    requires s.loop.Top? && Chain(s.heap, s.head, c) && AllIn(s.heap, c) && NoDuplicates(c)
    ensures Play(s, [Exchange] + Walks(|c|)) == Some(Walked(s.(head := 0), Tasks(s.heap, c), Elements(c)))
  {
    PlayFirst(s, Exchange, Walks(|c|));
    WalkHandsOverAll(Next(s, Exchange).value, c);
  }

  /** The steps of a loop thread that is woken by a byte in the pipe, up to the end of its walk. */
  function Collection(pipe: nat, offered: seq<Item>, n: nat): (r: seq<Step>) {
    ([Wake(true, offered)] + Reads((pipe + 7) / 8 + 1)) + ([Exchange] + Walks(n))
  }

  /** Whenever the loop thread waits and the pipe holds a byte, it can go on by itself until every
      listed task has been handed over, newest first, and the pipe and the list are empty. */
  lemma WokenLoopCollects(s: State, c: seq<Addr>, offered: seq<Item>)
    requires s.loop.Wait? && s.pipe > 0 && OwnItems(offered)
    requires Chain(s.heap, s.head, c) && AllIn(s.heap, c) && NoDuplicates(c)
    ensures var woken := s.(pipe := 0, head := 0, ready := Offered(s, offered));
            Play(s, Collection(s.pipe, offered, |c|)) == Some(Walked(woken, Tasks(s.heap, c), Elements(c)))
  {
    var top := s.(pipe := 0, loop := Top, ready := Offered(s, offered));
    WokenLoopDrains(s, offered);
    PlayOn(s, [Wake(true, offered)] + Reads((s.pipe + 7) / 8 + 1), [Exchange] + Walks(|c|));
    TopCollects(top, c);
  }

  /** So in every reachable state in which the loop thread waits and the pipe holds a byte. */
  lemma WakeUpIsEnough(producers: set<nat>, steps: seq<Step>)
    requires After(producers, steps).Some?
    requires After(producers, steps).value.loop.Wait? && After(producers, steps).value.pipe > 0
    ensures var s := After(producers, steps).value;
            exists c :: && Chain(s.heap, s.head, c) && AllIn(s.heap, c)
                        && Play(s, Collection(s.pipe, [], |c|)).Some?
                        && Play(s, Collection(s.pipe, [], |c|)).value.head == 0
                        && Play(s, Collection(s.pipe, [], |c|)).value.handed == s.handed + Tasks(s.heap, c)
  {
    var s, v := After(producers, steps).value, ViewAfter(producers, steps);
    forall i, j | 0 <= i < j < |v.listed| ensures v.listed[i] != v.listed[j] {
      assert (v.listed + v.walking)[i] == v.listed[i] && (v.listed + v.walking)[j] == v.listed[j];
    }
    WokenLoopCollects(s, v.listed, []);
    assert Chain(s.heap, s.head, v.listed) && AllIn(s.heap, v.listed);
  }
}
