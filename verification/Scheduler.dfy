/**
 The scheduler: a FIFO ready list and the loop `threadScheduleFunc` that runs it.

 Accepted entries are numbered, so that an entry keeps its identity when the same executor is
 queued several times.  A null executor pointer is None.
 */
module Scheduler {
  import opened Common

  type Executor = nat

  datatype Entry = Entry(ticket: nat, executor: Option<Executor>)

  datatype Sched = Sched(
    ready: seq<Entry>,
    stopping: bool,
    stopped: bool,
    exitWithTasks: bool,
    accepted: nat,              // entries accepted so far
    popped: seq<Entry>,         // entries taken from the front by the loop
    removed: set<nat>)          // tickets erased by removeExecutor

  /** What a callback does to its scheduler while it runs. */
  datatype Action = Add(executor: Option<Executor>) | Erase(executor: Option<Executor>) | Halt

  /** The surroundings of one iteration of the loop: what stop_pending_func_ would answer, what the
      remote list holds, what the executor does if one is run, and what block_pending_func_ adds. */
  datatype Round = Round(
    stopFunction: bool,
    remote: seq<Option<Executor>>,
    actions: seq<Action>,
    woken: seq<Option<Executor>>)

  const NEW := Sched([], false, false, true, 0, [], {})

  // ---------------------------------------------------------------------------
  // The operations
  // ---------------------------------------------------------------------------

  function AddExecutor(s: Sched, e: Option<Executor>): (r: Sched) {
    if s.stopping then s
    else s.(ready := s.ready + [Entry(s.accepted, e)], accepted := s.accepted + 1)
  }

  function AddAll(s: Sched, es: seq<Option<Executor>>): (r: Sched)
    decreases es
  {
    if es == [] then s else AddAll(AddExecutor(s, es[0]), es[1..])
  }

  /** Index of the first entry for `e`, or the length. */
  function Find(ready: seq<Entry>, e: Option<Executor>): (i: nat)
    ensures i <= |ready|
    ensures i < |ready| ==> ready[i].executor == e
    ensures forall j :: 0 <= j < i ==> ready[j].executor != e
  {
    if ready == [] || ready[0].executor == e then 0 else 1 + Find(ready[1..], e)
  }

  function RemoveExecutor(s: Sched, e: Option<Executor>): (r: Sched) {
    var i := Find(s.ready, e);
    if i == |s.ready| then s
    else s.(ready := s.ready[..i] + s.ready[i + 1..], removed := s.removed + {s.ready[i].ticket})
  }

  function StopRequest(s: Sched): (r: Sched) {
    if s.exitWithTasks then s.(stopping := true) else s.(stopped := true)
  }

  function Act(s: Sched, a: Action): (r: Sched) {
    match a
    case Add(e) => AddExecutor(s, e)
    case Erase(e) => RemoveExecutor(s, e)
    case Halt => StopRequest(s)
  }

  function ActAll(s: Sched, actions: seq<Action>): (r: Sched)
    decreases actions
  {
    if actions == [] then s else ActAll(Act(s, actions[0]), actions[1..])
  }

  function PopFront(s: Sched): (r: Sched) {
    if s.ready == [] then s else s.(ready := s.ready[1..], popped := s.popped + [s.ready[0]])
  }

  /** One iteration of threadScheduleFunc; the flag tells whether the loop was left. */
  function Iterate(s: Sched, round: Round): (r: (Sched, bool)) {
    if s.stopped && round.stopFunction then (s, true)
    else
      var s1 := AddAll(s, round.remote);
      var s2 := PopFront(s1);
      if s1.ready == [] || s1.ready[0].executor.None?
      then if s2.stopping then (s2, true) else (AddAll(s2, round.woken), false)
      else (ActAll(s2, round.actions), false)
  }

  /** The loop over the given rounds, until it is left. */
  function Loop(s: Sched, rounds: seq<Round>): (r: (Sched, bool))
    decreases rounds
  {
    if rounds == [] then (s, false)
    else
      var (s', left) := Iterate(s, rounds[0]);
      if left then (s', true) else Loop(s', rounds[1..])
  }

  // ---------------------------------------------------------------------------
  // First come, first served
  // ---------------------------------------------------------------------------

  predicate Increasing(s: seq<Entry>) {
    forall i, j :: 0 <= i < j < |s| ==> s[i].ticket < s[j].ticket
  }

  predicate Holds(s: seq<Entry>, t: nat) { exists i :: 0 <= i < |s| && s[i].ticket == t }

  /** Popped entries followed by waiting ones are exactly the accepted entries that were not
      removed, in the order of acceptance. */
  ghost predicate Ordered(s: Sched) {
    OrderedList(s.popped + s.ready, s.accepted, s.removed)
  }

  ghost predicate OrderedList(all: seq<Entry>, accepted: nat, removed: set<nat>) {
    && Increasing(all)
    && (forall i :: 0 <= i < |all| ==> all[i].ticket < accepted && all[i].ticket !in removed)
    && (forall t :: t in removed ==> t < accepted)
    && (forall t :: 0 <= t < accepted ==> t in removed || Holds(all, t))
  }

  lemma AppendingKeepsOrder(all: seq<Entry>, accepted: nat, removed: set<nat>, e: Option<Executor>)
    requires OrderedList(all, accepted, removed)
    ensures OrderedList(all + [Entry(accepted, e)], accepted + 1, removed)
  {
    var all' := all + [Entry(accepted, e)];
    forall t | 0 <= t < accepted + 1 && t !in removed ensures Holds(all', t) {
      if t == accepted { assert all'[|all|].ticket == t; }
      else {
        var i :| 0 <= i < |all| && all[i].ticket == t;
        assert all'[i].ticket == t;
      }
    }
  }

  lemma AddKeepsOrder(s: Sched, e: Option<Executor>)
    requires Ordered(s)
    ensures Ordered(AddExecutor(s, e))
  {
    if !s.stopping {
      AppendingKeepsOrder(s.popped + s.ready, s.accepted, s.removed, e);
      assert s.popped + (s.ready + [Entry(s.accepted, e)]) == s.popped + s.ready + [Entry(s.accepted, e)];
    }
  }

  /** `all'` is `all` without its entry `k`. */
  predicate Without(all: seq<Entry>, all': seq<Entry>, k: nat) {
    && k < |all| == |all'| + 1
    && all'[..k] == all[..k]
    && all'[k..] == all[k + 1..]
  }

  lemma WithoutAt(all: seq<Entry>, all': seq<Entry>, k: nat, j: nat)
    requires Without(all, all', k) && j < |all'|
    ensures all'[j] == all[if j < k then j else j + 1]
  {
    if j < k { assert all'[j] == all'[..k][j]; } else { assert all'[j] == all'[k..][j - k]; }
  }

  lemma ErasingKeepsIncreasing(all: seq<Entry>, all': seq<Entry>, k: nat)
    requires Increasing(all) && Without(all, all', k)
    ensures Increasing(all')
  {
    forall i, j | 0 <= i < j < |all'| ensures all'[i].ticket < all'[j].ticket {
      WithoutAt(all, all', k, i);
      WithoutAt(all, all', k, j);
    }
  }

  lemma ErasedTicketIsGone(all: seq<Entry>, all': seq<Entry>, k: nat, j: nat)
    requires Increasing(all) && Without(all, all', k) && j < |all'|
    ensures all'[j].ticket != all[k].ticket
    ensures exists i :: 0 <= i < |all| && all'[j] == all[i]
  {
    WithoutAt(all, all', k, j);
  }

  lemma OtherTicketsStay(all: seq<Entry>, all': seq<Entry>, k: nat, t: nat)
    requires Without(all, all', k) && Holds(all, t) && t != all[k].ticket
    ensures Holds(all', t)
  {
    var j :| 0 <= j < |all| && all[j].ticket == t;
    var j' := if j < k then j else j - 1;
    WithoutAt(all, all', k, j');
    assert all'[j'].ticket == t;
  }

  lemma ErasingKeepsOrder(all: seq<Entry>, all': seq<Entry>, accepted: nat, removed: set<nat>, k: nat)
    requires OrderedList(all, accepted, removed) && Without(all, all', k)
    ensures OrderedList(all', accepted, removed + {all[k].ticket})
  {
    ErasingKeepsIncreasing(all, all', k);
    forall j | 0 <= j < |all'|
      ensures all'[j].ticket < accepted && all'[j].ticket !in removed + {all[k].ticket}
    {
      ErasedTicketIsGone(all, all', k, j);
    }
    forall t | 0 <= t < accepted && t !in removed + {all[k].ticket} ensures Holds(all', t) {
      OtherTicketsStay(all, all', k, t);
    }
  }

  lemma EraseInConcat(a: seq<Entry>, b: seq<Entry>, i: nat)
    requires i < |b|
    ensures var k := |a| + i;
            var all' := a + (b[..i] + b[i + 1..]);
            all'[..k] == (a + b)[..k] && all'[k..] == (a + b)[k + 1..] && (a + b)[k] == b[i]
  {}

  lemma RemoveKeepsOrder(s: Sched, e: Option<Executor>)
    requires Ordered(s)
    ensures Ordered(RemoveExecutor(s, e))
  {
    var i := Find(s.ready, e);
    if i < |s.ready| {
      var s' := RemoveExecutor(s, e);
      EraseInConcat(s.popped, s.ready, i);
      ErasingKeepsOrder(s.popped + s.ready, s'.popped + s'.ready, s.accepted, s.removed, |s.popped| + i);
    }
  }

  lemma PopKeepsOrder(s: Sched)
    requires Ordered(s)
    ensures Ordered(PopFront(s))
  {
    if s.ready != [] {
      assert PopFront(s).popped + PopFront(s).ready == s.popped + s.ready;
    }
  }

  lemma {:induction false} AddAllKeepsOrder(s: Sched, es: seq<Option<Executor>>)
    requires Ordered(s)
    ensures Ordered(AddAll(s, es))
    decreases es
  {
    if es != [] {
      AddKeepsOrder(s, es[0]);
      AddAllKeepsOrder(AddExecutor(s, es[0]), es[1..]);
    }
  }

  lemma ActKeepsOrder(s: Sched, a: Action)
    requires Ordered(s)
    ensures Ordered(Act(s, a))
  {
    match a
    case Add(e) => AddKeepsOrder(s, e);
    case Erase(e) => RemoveKeepsOrder(s, e);
    case Halt =>
  }

  lemma {:induction false} ActAllKeepsOrder(s: Sched, actions: seq<Action>)
    requires Ordered(s)
    ensures Ordered(ActAll(s, actions))
    decreases actions
  {
    if actions != [] {
      ActKeepsOrder(s, actions[0]);
      ActAllKeepsOrder(Act(s, actions[0]), actions[1..]);
    }
  }

  lemma IterateKeepsOrder(s: Sched, round: Round)
    requires Ordered(s)
    ensures Ordered(Iterate(s, round).0)
  {
    AddAllKeepsOrder(s, round.remote);
    var s1 := AddAll(s, round.remote);
    PopKeepsOrder(s1);
    AddAllKeepsOrder(PopFront(s1), round.woken);
    ActAllKeepsOrder(PopFront(s1), round.actions);
  }

  /** In every run of the loop, whatever callbacks, producers and the poller do, entries are popped
      in the order in which they were accepted, minus the removed ones. */
  lemma {:induction false} LoopIsFifo(s: Sched, rounds: seq<Round>)
    requires Ordered(s)
    ensures Ordered(Loop(s, rounds).0)
    decreases rounds
  {
    if rounds != [] {
      IterateKeepsOrder(s, rounds[0]);
      LoopIsFifo(Iterate(s, rounds[0]).0, rounds[1..]);
    }
  }

  /** removeExecutor takes out the first entry of the executor and nothing else, and changes nothing
      iff there is none. */
  lemma RemovesTheFirstEntry(s: Sched, before: seq<Entry>, entry: Entry, behind: seq<Entry>)
    requires s.ready == before + [entry] + behind
    requires forall i :: 0 <= i < |before| ==> before[i].executor != entry.executor
    ensures RemoveExecutor(s, entry.executor)
            == s.(ready := before + behind, removed := s.removed + {entry.ticket})
  {
    var i := Find(s.ready, entry.executor);
    assert s.ready[|before|] == entry;
    assert forall j :: 0 <= j < |before| ==> s.ready[j] == before[j];
    assert i == |before|;
    assert s.ready[..i] == before && s.ready[i + 1..] == behind;
  }

  lemma RemovesNothingExactly(s: Sched, e: Option<Executor>)
    ensures RemoveExecutor(s, e) == s <==> forall i :: 0 <= i < |s.ready| ==> s.ready[i].executor != e
  {
    var i := Find(s.ready, e);
    if i < |s.ready| { assert |RemoveExecutor(s, e).ready| == |s.ready| - 1; }
  }

  /** stop() lets the loop drain when exit-with-tasks is on, and otherwise only marks the scheduler
      stopped; it leaves everything else alone. */
  lemma StopExactly(s: Sched)
    ensures s.exitWithTasks ==> StopRequest(s) == s.(stopping := true)
    ensures s.exitWithTasks && !s.stopped ==> Draining(StopRequest(s))
    ensures !s.exitWithTasks ==> StopRequest(s) == s.(stopped := true)
    ensures !s.exitWithTasks && !s.stopping ==> StoppedOnly(StopRequest(s))
  {}

  /** What a callback does takes effect in its order: an executor it adds is queued last unless the
      scheduler is stopping, one it removes is gone, and a stop counts for what it does afterwards. */
  lemma CallbackEffect(s: Sched, first: Action, rest: seq<Action>)
    ensures ActAll(s, [first] + rest) == ActAll(Act(s, first), rest)
    ensures first.Add? && !s.stopping ==>
              Act(s, first) == s.(ready := s.ready + [Entry(s.accepted, first.executor)], accepted := s.accepted + 1)
    ensures first.Add? && s.stopping ==> Act(s, first) == s
    ensures first.Erase? ==> Act(s, first) == RemoveExecutor(s, first.executor)
    ensures first.Halt? && s.exitWithTasks ==> Act(s, first) == s.(stopping := true)
    ensures first.Halt? && !s.exitWithTasks ==> Act(s, first) == s.(stopped := true)
  {
    assert ([first] + rest)[0] == first && ([first] + rest)[1..] == rest;
  }

  /** A round that finds an executor takes exactly that entry off the front, lets it act, and goes on. */
  lemma RunningRound(s: Sched, round: Round)
    requires !(s.stopped && round.stopFunction)
    requires AddAll(s, round.remote).ready != [] && AddAll(s, round.remote).ready[0].executor.Some?
    ensures var s1 := AddAll(s, round.remote);
            Iterate(s, round)
            == (ActAll(s1.(ready := s1.ready[1..], popped := s1.popped + [s1.ready[0]]), round.actions), false)
  {}

  /** A stop function that answers true ends the loop of a stopped scheduler at once. */
  lemma StopFunctionLeaves(s: Sched, round: Round)
    ensures s.stopped && round.stopFunction ==> Iterate(s, round) == (s, true)
  {}

  // --- every entry is served in its turn ------------------------------------------------

  /** Rounds that neither remove entries nor end the loop early. */
  predicate Steady(round: Round) { RemovesNothing(round) && !round.stopFunction }

  lemma {:induction false} OffersExtend(s: Sched, es: seq<Option<Executor>>)
    ensures s.ready <= AddAll(s, es).ready && AddAll(s, es).popped == s.popped
    decreases es
  {
    if es != [] { OffersExtend(AddExecutor(s, es[0]), es[1..]); }
  }

  lemma {:induction false} ActionsExtend(s: Sched, actions: seq<Action>)
    requires forall i :: 0 <= i < |actions| ==> !actions[i].Erase?
    ensures s.ready <= ActAll(s, actions).ready && ActAll(s, actions).popped == s.popped
    decreases actions
  {
    if actions != [] { ActionsExtend(Act(s, actions[0]), actions[1..]); }
  }

  lemma OneRoundServes(s: Sched, round: Round)
    requires Steady(round) && s.ready != [] && s.ready[0].executor.Some?
    ensures !Iterate(s, round).1
    ensures Iterate(s, round).0.popped == s.popped + [s.ready[0]]
    ensures s.ready[1..] <= Iterate(s, round).0.ready
  {
    OffersExtend(s, round.remote);
    var s1 := AddAll(s, round.remote);
    assert s1.ready[0] == s.ready[0] && s.ready[1..] <= s1.ready[1..];
    RunningRound(s, round);
    ActionsExtend(s1.(ready := s1.ready[1..], popped := s1.popped + [s1.ready[0]]), round.actions);
  }

  /** Service: when nothing is removed and the loop is not made to stop early, the first `n` entries,
      if none is null, are run in the next `n` rounds, one each and in their order. */
  lemma {:induction false} ServedInTurn(s: Sched, rounds: seq<Round>)
    requires |rounds| <= |s.ready|
    requires forall i :: 0 <= i < |rounds| ==> Steady(rounds[i]) && s.ready[i].executor.Some?
    ensures !Loop(s, rounds).1
    ensures Loop(s, rounds).0.popped == s.popped + s.ready[..|rounds|]
    ensures s.ready[|rounds|..] <= Loop(s, rounds).0.ready
    decreases rounds
  {
    if rounds == [] {
      assert s.ready[..0] == [] && s.popped + [] == s.popped && s.ready[0..] == s.ready;
    } else {
      OneRoundServes(s, rounds[0]);
      var s1, n := Iterate(s, rounds[0]).0, |rounds| - 1;
      forall i | 0 <= i < n ensures rounds[1..][i] == rounds[i + 1] && s1.ready[i] == s.ready[i + 1] {
        assert s1.ready[i] == s.ready[1..][i];
      }
      ServedInTurn(s1, rounds[1..]);
      ServedFirst(s.popped, s.ready, s1.ready, n);
    }
  }

  lemma ServedFirst(popped: seq<Entry>, ready: seq<Entry>, ready1: seq<Entry>, n: nat)
    requires n < |ready| && ready[1..] <= ready1
    ensures popped + [ready[0]] + ready1[..n] == popped + ready[..n + 1]
    ensures ready[n + 1..] <= ready1[n..]
  {
    assert ready1[..n] == ready[1..n + 1];
    assert [ready[0]] + ready[1..n + 1] == ready[..n + 1];
    assert ready[n + 1..] == ready[1..][n..];
  }

  // ---------------------------------------------------------------------------
  // Draining a stopping scheduler
  // ---------------------------------------------------------------------------

  lemma {:induction false} RefusesAll(s: Sched, es: seq<Option<Executor>>)
    requires s.stopping
    ensures AddAll(s, es) == s
    decreases es
  {
    if es != [] { RefusesAll(s, es[1..]); }
  }

  /** A round that reaches block_pending_func_: no executor to run and not stopping. */
  predicate Blocks(s: Sched, round: Round) {
    var s1 := AddAll(s, round.remote);
    && !(s.stopped && round.stopFunction)
    && (s1.ready == [] || s1.ready[0].executor.None?)
    && !s1.stopping
  }

  /** The loop blocks while entries are ready iff the entry it popped is null and not the only one. */
  lemma BlocksOverWorkExactly(s: Sched, round: Round)
    requires Blocks(s, round)
    ensures var s1 := AddAll(s, round.remote);
            PopFront(s1).ready != [] <==> |s1.ready| > 1 && s1.ready[0].executor.None?
  {}

  /** In every round that blocks, each addExecutor made inside block_pending_func_ succeeds, and what
      it adds is queued behind everything else in the order of the calls. */
  lemma BlockPendingNeverRefused(s: Sched, round: Round)
    requires Blocks(s, round)
    ensures var s2 := PopFront(AddAll(s, round.remote));
            var s' := Iterate(s, round).0;
            && !Iterate(s, round).1
            && s'.accepted == s2.accepted + |round.woken|
            && |s'.ready| == |s2.ready| + |round.woken|
            && s'.ready[..|s2.ready|] == s2.ready
            && forall i :: 0 <= i < |round.woken| ==>
                 s'.ready[|s2.ready| + i] == Entry(s2.accepted + i, round.woken[i])
  {
    QueuedInOrder(PopFront(AddAll(s, round.remote)), round.woken);
  }

  lemma {:induction false} QueuedInOrder(s: Sched, es: seq<Option<Executor>>)
    requires !s.stopping
    ensures var s' := AddAll(s, es);
            && s'.accepted == s.accepted + |es|
            && |s'.ready| == |s.ready| + |es|
            && s'.ready[..|s.ready|] == s.ready
            && forall i :: 0 <= i < |es| ==> s'.ready[|s.ready| + i] == Entry(s.accepted + i, es[i])
    decreases es
  {
    if es != [] {
      var s1 := AddExecutor(s, es[0]);
      QueuedInOrder(s1, es[1..]);
      var s' := AddAll(s, es);
      assert s'.ready[..|s.ready|] == s'.ready[..|s1.ready|][..|s.ready|];
      forall i | 0 <= i < |es| ensures s'.ready[|s.ready| + i] == Entry(s.accepted + i, es[i]) {
        if i == 0 { assert s'.ready[|s.ready|] == s'.ready[..|s1.ready|][|s.ready|]; }
        else { assert s'.ready[|s1.ready| + (i - 1)] == Entry(s1.accepted + (i - 1), es[1..][i - 1]); }
      }
    }
  }

  /** Callbacks of a stopping scheduler can only shorten the ready list. */
  lemma {:induction false} StoppingOnlyShrinks(s: Sched, actions: seq<Action>)
    requires s.stopping
    ensures var s' := ActAll(s, actions);
            && s'.stopping && s'.accepted == s.accepted && s'.popped == s.popped
            && |s'.ready| <= |s.ready|
            && (s.exitWithTasks ==> s'.stopped == s.stopped && s'.exitWithTasks)
            && forall i :: 0 <= i < |s'.ready| ==> s'.ready[i] in s.ready
    decreases actions
  {
    if actions != [] {
      var s1 := Act(s, actions[0]);
      assert forall i :: 0 <= i < |s1.ready| ==> s1.ready[i] in s.ready;
      StoppingOnlyShrinks(s1, actions[1..]);
      var s' := ActAll(s, actions);
      forall i | 0 <= i < |s'.ready| ensures s'.ready[i] in s.ready {
        assert s'.ready[i] in s1.ready;
      }
    }
  }

  /** A scheduler asked to stop with exit-with-tasks on. */
  predicate Draining(s: Sched) { s.stopping && s.exitWithTasks && !s.stopped }

  predicate NoNull(s: Sched) {
    forall i :: 0 <= i < |s.ready| ==> s.ready[i].executor.Some?
  }

  /** One iteration of a draining loop: it leaves exactly when nothing is ready, and otherwise the
      ready list gets shorter and nothing is accepted. */
  lemma DrainingStep(s: Sched, round: Round)
    requires Draining(s) && NoNull(s)
    ensures Iterate(s, round).1 <==> s.ready == []
    ensures Iterate(s, round).1 ==> Iterate(s, round).0 == s
    ensures var s' := Iterate(s, round).0; Draining(s') && NoNull(s') && s'.accepted == s.accepted
    ensures s.ready != [] ==> |Iterate(s, round).0.ready| < |s.ready|
  {
    RefusesAll(s, round.remote);
    var s2 := PopFront(s);
    StoppingOnlyShrinks(s2, round.actions);
    if s.ready != [] {
      var s' := ActAll(s2, round.actions);
      forall i | 0 <= i < |s'.ready| ensures s'.ready[i].executor.Some? {
        assert s'.ready[i] in s2.ready;
        var j :| 0 <= j < |s2.ready| && s2.ready[j] == s'.ready[i];
        assert s2.ready[j] == s.ready[j + 1];
      }
    }
  }

  /** Drain on stop: a draining loop accepts nothing more, leaves only with an empty ready list, and
      leaves within one round more than the list is long, whatever the callbacks do. */
  lemma {:induction false} DrainsOnStop(s: Sched, rounds: seq<Round>)
    requires Draining(s) && NoNull(s)
    ensures Loop(s, rounds).0.accepted == s.accepted
    ensures Loop(s, rounds).1 ==> Loop(s, rounds).0.ready == []
    ensures |rounds| > |s.ready| ==> Loop(s, rounds).1
    decreases rounds
  {
    if rounds != [] {
      DrainingStep(s, rounds[0]);
      if s.ready != [] { DrainsOnStop(Iterate(s, rounds[0]).0, rounds[1..]); }
    }
  }

  predicate RemovesNothing(round: Round) {
    forall i :: 0 <= i < |round.actions| ==> !round.actions[i].Erase?
  }

  lemma {:induction false} NothingRemoved(s: Sched, actions: seq<Action>)
    requires Draining(s) && forall i :: 0 <= i < |actions| ==> !actions[i].Erase?
    ensures ActAll(s, actions) == s
    decreases actions
  {
    if actions != [] {
      assert Act(s, actions[0]) == s;
      NothingRemoved(s, actions[1..]);
    }
  }

  /** A null entry ends the drain where it stands: when callbacks remove nothing, the loop leaves
      entries behind if and only if some entry but the last is null. */
  lemma {:induction false} DrainIsCompleteIffNoNull(s: Sched, rounds: seq<Round>)
    requires Draining(s) && |rounds| > |s.ready|
    requires forall i :: 0 <= i < |rounds| ==> RemovesNothing(rounds[i])
    ensures Loop(s, rounds).1
    ensures Loop(s, rounds).0.ready == []
            <==> forall i :: 0 <= i < |s.ready| - 1 ==> s.ready[i].executor.Some?
    decreases rounds
  {
    RefusesAll(s, rounds[0].remote);
    if s.ready != [] && s.ready[0].executor.Some? {
      var s2 := PopFront(s);
      NothingRemoved(s2, rounds[0].actions);
      assert Iterate(s, rounds[0]) == (s2, false);
      assert forall i :: 0 <= i < |rounds[1..]| ==> rounds[1..][i] == rounds[i + 1];
      DrainIsCompleteIffNoNull(s2, rounds[1..]);
      assert forall i :: 0 <= i < |s2.ready| ==> s2.ready[i] == s.ready[i + 1];
      assert (forall i :: 0 <= i < |s.ready| - 1 ==> s.ready[i].executor.Some?)
             <==> (forall i :: 0 <= i < |s2.ready| - 1 ==> s2.ready[i].executor.Some?) by {
        if forall i :: 0 <= i < |s2.ready| - 1 ==> s2.ready[i].executor.Some? {
          forall i | 0 <= i < |s.ready| - 1 ensures s.ready[i].executor.Some? {
            if i > 0 { assert s2.ready[i - 1] == s.ready[i]; }
          }
        }
      }
    }
  }

  lemma {:induction false} ActionsNeverDrain(s: Sched, actions: seq<Action>)
    requires !s.stopping && !s.exitWithTasks
    ensures !ActAll(s, actions).stopping && !ActAll(s, actions).exitWithTasks
    decreases actions
  {
    if actions != [] { ActionsNeverDrain(Act(s, actions[0]), actions[1..]); }
  }

  lemma {:induction false} OffersNeverDrain(s: Sched, es: seq<Option<Executor>>)
    requires !s.stopping && !s.exitWithTasks
    ensures !AddAll(s, es).stopping && !AddAll(s, es).exitWithTasks
    decreases es
  {
    if es != [] { OffersNeverDrain(AddExecutor(s, es[0]), es[1..]); }
  }

  /** With exit-with-tasks off, stop() alone does not end the loop: the loop is left only in a round
      whose stop function answers true, which the default one never does. */
  lemma {:induction false} StopAloneDoesNotLeave(s: Sched, rounds: seq<Round>)
    requires !s.stopping && !s.exitWithTasks
    ensures Loop(s, rounds).1 ==> exists i :: 0 <= i < |rounds| && rounds[i].stopFunction
    decreases rounds
  {
    if rounds != [] && !Iterate(s, rounds[0]).1 {
      var s1 := AddAll(s, rounds[0].remote);
      OffersNeverDrain(s, rounds[0].remote);
      OffersNeverDrain(PopFront(s1), rounds[0].woken);
      ActionsNeverDrain(PopFront(s1), rounds[0].actions);
      StopAloneDoesNotLeave(Iterate(s, rounds[0]).0, rounds[1..]);
      if Loop(s, rounds).1 {
        var i :| 0 <= i < |rounds[1..]| && rounds[1..][i].stopFunction;
        assert rounds[i + 1].stopFunction;
      }
    } else if rounds != [] {
      OffersNeverDrain(s, rounds[0].remote);
    }
  }

  predicate StoppedOnly(s: Sched) { s.stopped && !s.stopping && !s.exitWithTasks }

  lemma {:induction false} ActionsKeepStopped(s: Sched, actions: seq<Action>)
    requires StoppedOnly(s)
    ensures StoppedOnly(ActAll(s, actions))
    decreases actions
  {
    if actions != [] { ActionsKeepStopped(Act(s, actions[0]), actions[1..]); }
  }

  lemma StoppedIterates(s: Sched, round: Round)
    requires StoppedOnly(s)
    ensures Iterate(s, round).1 <==> round.stopFunction
    ensures StoppedOnly(Iterate(s, round).0)
  {
    OffersLeaveTheRest(s, round.remote);
    var s2 := PopFront(AddAll(s, round.remote));
    OffersLeaveTheRest(s2, round.woken);
    ActionsKeepStopped(s2, round.actions);
  }

  /** After stop() with exit-with-tasks off the loop is left iff a stop function answers true; the
      default one answers false, so the loop goes on for ever. */
  lemma {:induction false} StoppedLeavesExactly(s: Sched, rounds: seq<Round>)
    requires StoppedOnly(s)
    ensures Loop(s, rounds).1 <==> exists i :: 0 <= i < |rounds| && rounds[i].stopFunction
    decreases rounds
  {
    if rounds != [] {
      StoppedIterates(s, rounds[0]);
      if !rounds[0].stopFunction {
        StoppedLeavesExactly(Iterate(s, rounds[0]).0, rounds[1..]);
        if exists i :: 0 <= i < |rounds| && rounds[i].stopFunction {
          var i :| 0 <= i < |rounds| && rounds[i].stopFunction;
          assert rounds[1..][i - 1].stopFunction;
        }
        if Loop(s, rounds).1 {
          var i :| 0 <= i < |rounds[1..]| && rounds[1..][i].stopFunction;
          assert rounds[i + 1].stopFunction;
        }
      }
    }
  }

  /** A run from a new scheduler in which a null entry, such as an error event enqueues, ends the
      drain: the executor queued behind it is never run. */
  lemma NullEntryStrandsTheRest()
    ensures var poll := Round(false, [], [], [Some(1), None, Some(7)]);
            var halt := Round(false, [], [Halt], []);
            var idle := Round(false, [], [], []);
            && Loop(NEW, [poll, halt, idle]).1
            && Loop(NEW, [poll, halt, idle]).0.ready == [Entry(2, Some(7))]
  {
    var poll := Round(false, [], [], [Some(1), None, Some(7)]);
    var halt := Round(false, [], [Halt], []);
    var idle := Round(false, [], [], []);
    var s1 := NEW.(ready := [Entry(0, Some(1)), Entry(1, None), Entry(2, Some(7))], accepted := 3);
    QueuedInOrder(NEW, poll.woken);
    assert AddAll(NEW, poll.woken).ready == s1.ready;
    OffersLeaveTheRest(NEW, poll.woken);
    assert Iterate(NEW, poll) == (s1, false);
    var s2 := s1.(ready := [Entry(1, None), Entry(2, Some(7))], popped := [Entry(0, Some(1))], stopping := true);
    assert s1.ready[1..] == s2.ready && [] + [s1.ready[0]] == s2.popped;
    assert [Halt][1..] == [];
    assert ActAll(PopFront(s1), [Halt]) == s2;
    assert Iterate(s1, halt) == (s2, false);
    assert s2.ready[1..] == [Entry(2, Some(7))];
    assert Iterate(s2, idle).1;
    assert Loop(s2, [idle]) == Iterate(s2, idle);
    assert [halt, idle][1..] == [idle];
    assert Loop(s1, [halt, idle]) == Loop(s2, [idle]);
    assert [poll, halt, idle][1..] == [halt, idle];
    assert Loop(NEW, [poll, halt, idle]) == Loop(s1, [halt, idle]);
  }

  /** A run from a new scheduler in which the loop blocks with an executor ready: a poll queues an
      executor and a null entry, a remote executor arrives behind them, and the null is popped. */
  lemma NullEntryBlocksTheLoop()
    ensures var poll := Round(false, [], [], [Some(1), None]);
            var collect := Round(false, [Some(9)], [], []);
            var idle := Round(false, [], [], []);
            var s := Loop(NEW, [poll, collect]).0;
            && !Loop(NEW, [poll, collect]).1
            && Blocks(s, idle)
            && PopFront(AddAll(s, idle.remote)).ready == [Entry(2, Some(9))]
  {
    var poll := Round(false, [], [], [Some(1), None]);
    var collect := Round(false, [Some(9)], [], []);
    var s1 := NEW.(ready := [Entry(0, Some(1)), Entry(1, None)], accepted := 2);
    QueuedInOrder(NEW, poll.woken);
    assert AddAll(NEW, poll.woken).ready == s1.ready;
    OffersLeaveTheRest(NEW, poll.woken);
    assert Iterate(NEW, poll) == (s1, false);
    var s2 := s1.(ready := [Entry(1, None), Entry(2, Some(9))], accepted := 3, popped := [Entry(0, Some(1))]);
    assert [Some(9)][1..] == [];
    var collected := AddAll(s1, [Some(9)]);
    assert collected.ready == [Entry(0, Some(1)), Entry(1, None), Entry(2, Some(9))];
    assert collected.ready[1..] == s2.ready && [] + [collected.ready[0]] == s2.popped;
    assert Iterate(s1, collect) == (s2, false);
    assert Loop(s1, [collect]) == (s2, false);
    assert [poll, collect][1..] == [collect];
    assert Loop(NEW, [poll, collect]) == (s2, false);
    assert s2.ready[1..] == [Entry(2, Some(9))];
  }

  /** Offers change the ready list and the count of accepted entries only. */
  lemma {:induction false} OffersLeaveTheRest(s: Sched, es: seq<Option<Executor>>)
    ensures AddAll(s, es) == s.(ready := AddAll(s, es).ready, accepted := AddAll(s, es).accepted)
    decreases es
  {
    if es != [] { OffersLeaveTheRest(AddExecutor(s, es[0]), es[1..]); }
  }
}
