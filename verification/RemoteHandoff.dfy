/**
 The cross-thread hand-off: any number of producers run `IOManager::addRemoteTask`
 (publish a node on the lock-free list, then write a byte to the wake-up pipe) while the
 loop thread runs `threadScheduleFunc` and `blockPending`.

 Every atomic action is one step of a state machine, so every interleaving is a sequence of
 steps.  Nodes live in an explicit heap; `New` may pick any address that is not allocated,
 in particular one that was freed while another producer still remembers it.
 */
module RemoteHandoff {
  import opened Common

  /** Address of a list node; 0 is the null pointer. */
  type Addr = nat

  /** The executor passed by one particular `addRemoteTask` call (calls are numbered). */
  type Task = nat

  datatype Node = Node(task: Task, next: Addr)

  /** Program counter of one producer inside `addRemoteTask`. */
  datatype Producer =
    | Idle
    | Allocated(node: Addr, task: Task)               // new Node(executor, nullptr)
    | Loaded(node: Addr, task: Task, seen: Addr)       // old_head read, by load or by a failed CAS
    | Linked(node: Addr, task: Task, seen: Addr)       // new_node->next = old_head
    | Published(task: Task)                           // CAS succeeded, before the wake lock
    | Locked(task: Task)                              // wake lock held, before the pipe write
    | Written                                         // byte written, wake lock still held
  {
    predicate OwnsNode() { Allocated? || Loaded? || Linked? }
    predicate MustWake(t: Task) { this == Published(t) || this == Locked(t) }
  }

  /** Program counter of the loop thread. */
  datatype Loop =
    | Top                  // before head.exchange(nullptr)
    | Walk(cur: Addr)      // `_head` of scheduleAll, null when the walk is over
    | Added(cur: Addr)     // addExecutor(_head->value) done, node not yet deleted
    | Run                  // an executor popped from the ready list runs
    | Wait                 // inside epoll_wait
    | Drain                // inside the read loop on the pipe
    | Exit

  /** An entry of the ready list: an executor handed over, one queued by the loop thread itself, or
      a null pointer, such as an error event enqueues. */
  datatype Item = Remote(task: Task) | Local | Null

  datatype State = State(
    head: Addr,
    heap: map<Addr, Node>,
    producers: map<nat, Producer>,
    loop: Loop,
    pipe: nat,                 // bytes in the wake-up pipe
    lock: Option<nat>,         // holder of wake_lock_
    stopping: bool,
    ready: seq<Item>,
    issued: nat,               // addRemoteTask calls begun
    published: seq<Task>,      // in the order of the successful CASes
    handed: seq<Task>,         // in the order of the addExecutor calls of scheduleAll
    accepted: seq<Task>,
    refused: seq<Task>,
    started: seq<Task>,        // remote tasks popped from the ready list
    erased: set<Task>)         // remote tasks taken out of the ready list by removeExecutor

  datatype Step =
    | New(p: nat, at: Addr)
    | Load(p: nat)
    | Link(p: nat)
    | Cas(p: nat)
    | Lock(p: nat)
    | Write(p: nat)
    | Unlock(p: nat)
    | Exchange
    | Hand
    | Free
    | Pop
    | NoWork
    | Erase(at: nat)
    | Return(offered: seq<Item>)
    | Wake(pipeReady: bool, offered: seq<Item>)
    | Read
    | Quit
    | Stop

  const PIPE_CAPACITY := 65536
  const READ_CHUNK := 8

  function Start(producers: set<nat>): (s: State) {
    State(0, map[], map p | p in producers :: Idle, Top, 0, None, false, [], 0, [], [], [], [], [], {})
  }

  /** What the loop thread queues itself: no entry of the remote list. */
  predicate OwnItems(items: seq<Item>) { forall i :: 0 <= i < |items| ==> !items[i].Remote? }

  /** The ready list after such offers; a stopping scheduler refuses them. */
  function Offered(s: State, items: seq<Item>): (r: seq<Item>) {
    if s.stopping then s.ready else s.ready + items
  }

  function SetProducer(s: State, p: nat, pc: Producer): (r: State) {
    s.(producers := s.producers[p := pc])
  }

  /** One producer step, or None when it is not enabled. */
  function ProducerNext(s: State, step: Step): (r: Option<State>) {
    match step
    case New(p, at) =>
      if p in s.producers && s.producers[p].Idle? && at != 0 && at !in s.heap
      then Some(SetProducer(s, p, Allocated(at, s.issued))
                .(heap := s.heap[at := Node(s.issued, 0)], issued := s.issued + 1))
      else None
    case Load(p) =>
      if p in s.producers && s.producers[p].Allocated?
      then Some(SetProducer(s, p, Loaded(s.producers[p].node, s.producers[p].task, s.head)))
      else None
    case Link(p) =>
      if p in s.producers && s.producers[p].Loaded?
      then
        var pc := s.producers[p];
        Some(SetProducer(s, p, Linked(pc.node, pc.task, pc.seen))
             .(heap := s.heap[pc.node := Node(pc.task, pc.seen)]))
      else None
    case Cas(p) =>
      if p in s.producers && s.producers[p].Linked?
      then
        var pc := s.producers[p];
        if s.head == pc.seen
        then Some(SetProducer(s, p, Published(pc.task))
                  .(head := pc.node, published := s.published + [pc.task]))
        else Some(SetProducer(s, p, Loaded(pc.node, pc.task, s.head)))
      else None
    case Lock(p) =>
      if p in s.producers && s.producers[p].Published? && s.lock.None?
      then Some(SetProducer(s, p, Locked(s.producers[p].task)).(lock := Some(p)))
      else None
    case Write(p) =>
      if p in s.producers && s.producers[p].Locked? && s.pipe < PIPE_CAPACITY
      then Some(SetProducer(s, p, Written).(pipe := s.pipe + 1))
      else None
    case Unlock(p) =>
      if p in s.producers && s.producers[p].Written?
      then Some(SetProducer(s, p, Idle).(lock := None))
      else None
    case _ => None
  }

  /** One step of the loop thread (or a `stop()`), or None when it is not enabled. */
  function LoopNext(s: State, step: Step): (r: Option<State>) {
    match step
    case Exchange =>
      if s.loop.Top? then Some(s.(loop := Walk(s.head), head := 0)) else None
    case Hand =>
      if s.loop.Walk? && s.loop.cur in s.heap
      then
        var t := s.heap[s.loop.cur].task;
        var s1 := s.(loop := Added(s.loop.cur), handed := s.handed + [t]);
        Some(if s.stopping then s1.(refused := s.refused + [t])
             else s1.(accepted := s.accepted + [t], ready := s.ready + [Remote(t)]))
      else None
    case Free =>
      if s.loop.Added? && s.loop.cur in s.heap
      then Some(s.(loop := Walk(s.heap[s.loop.cur].next), heap := s.heap - {s.loop.cur}))
      else None
    case Pop =>
      if s.loop == Walk(0) && s.ready != [] && !s.ready[0].Null?
      then Some(s.(loop := Run, ready := s.ready[1..], started := s.started + TaskOf(s.ready[0])))
      else None
    case NoWork =>
      if s.loop == Walk(0) && (s.ready == [] || s.ready[0].Null?)
      then Some(s.(loop := if s.stopping then Exit else Wait,
                   ready := if s.ready == [] then [] else s.ready[1..]))
      else None
    case Erase(at) =>
      if s.loop.Run? && at < |s.ready|
      then Some(s.(ready := s.ready[..at] + s.ready[at + 1..],
                   erased := if s.ready[at].Remote? then s.erased + {s.ready[at].task} else s.erased))
      else None
    case Return(offered) =>
      if s.loop.Run? && OwnItems(offered) then Some(s.(loop := Top, ready := Offered(s, offered))) else None
    case Wake(pipeReady, offered) =>
      if s.loop.Wait? && (pipeReady ==> s.pipe > 0) && OwnItems(offered)
      then Some(s.(loop := if pipeReady then Drain else Top, ready := Offered(s, offered)))
      else None
    case Read =>
      if s.loop.Drain?
      then Some(if s.pipe == 0 then s.(loop := Top)
                else if s.pipe <= READ_CHUNK then s.(pipe := 0)
                else s.(pipe := s.pipe - READ_CHUNK))
      else None
    case Quit => if s.loop.Top? then Some(s.(loop := Exit)) else None  // stop_pending() answers true
    case Stop => Some(s.(stopping := true))
    case _ => None
  }

  function Next(s: State, step: Step): (r: Option<State>) {
    if step.New? || step.Load? || step.Link? || step.Cas? || step.Lock? || step.Write? || step.Unlock?
    then ProducerNext(s, step)
    else LoopNext(s, step)
  }

  /** The state after a sequence of steps; None when some step was not enabled. */
  function After(producers: set<nat>, steps: seq<Step>): (r: Option<State>) {
    if steps == [] then Some(Start(producers))
    else
      var before := After(producers, steps[..|steps| - 1]);
      if before.None? then None else Next(before.value, steps[|steps| - 1])
  }

  // ---------------------------------------------------------------------------
  // What the heap means
  // ---------------------------------------------------------------------------

  /** Following `next` from `first` visits exactly the addresses `c` and then null. */
  predicate Chain(heap: map<Addr, Node>, first: Addr, c: seq<Addr>)
    decreases c
  {
    if c == [] then first == 0
    else first == c[0] && first != 0 && first in heap && Chain(heap, heap[first].next, c[1..])
  }

  predicate AllIn(heap: map<Addr, Node>, c: seq<Addr>) {
    forall i :: 0 <= i < |c| ==> c[i] in heap
  }

  function Tasks(heap: map<Addr, Node>, c: seq<Addr>): (r: seq<Task>)
    requires AllIn(heap, c)
    ensures |r| == |c|
    ensures forall i :: 0 <= i < |c| ==> r[i] == heap[c[i]].task
  {
    seq(|c|, i requires 0 <= i < |c| => heap[c[i]].task)
  }

  function WalkPointer(l: Loop): (r: Addr) {
    if l.Walk? || l.Added? then l.cur else 0
  }

  /** What an observer reads off the heap: the published list, the detached list, and the
      batches that `exchange` has detached so far, each in list (newest first) order. */
  datatype View = View(listed: seq<Addr>, walking: seq<Addr>, batches: seq<seq<Task>>)

  /** Every batch oldest first, concatenated. */
  function PushOrder(batches: seq<seq<Task>>): (r: seq<Task>) {
    if batches == [] then [] else Reversed(batches[0]) + PushOrder(batches[1..])
  }

  function TaskOf(item: Item): (r: seq<Task>) {
    if item.Remote? then [item.task] else []
  }

  function Remotes(items: seq<Item>): (r: seq<Task>) {
    if items == [] then [] else TaskOf(items[0]) + Remotes(items[1..])
  }

  /** The tasks of `ts` that are not in `out`. */
  function Minus(ts: seq<Task>, out: set<Task>): (r: seq<Task>) {
    if ts == [] then [] else (if ts[0] in out then [] else [ts[0]]) + Minus(ts[1..], out)
  }

  /** The detached nodes whose task has not been handed over yet. */
  function Unhanded(s: State, v: View): (r: seq<Addr>) {
    if s.loop.Added? && v.walking != [] then v.walking[1..] else v.walking
  }

  predicate OwnedBySomeone(s: State, a: Addr) {
    exists p :: p in s.producers && s.producers[p].OwnsNode() && s.producers[p].node == a
  }

  predicate HeldBySomeone(s: State, t: Task) {
    exists p :: p in s.producers && s.producers[p].OwnsNode() && s.producers[p].task == t
  }

  /** The producer that published `t` has not yet written its byte to the pipe. */
  predicate WakeOutstanding(s: State, t: Task) {
    exists p :: p in s.producers && s.producers[p].MustWake(t)
  }

  // ---------------------------------------------------------------------------
  // The invariant, in seven parts
  // ---------------------------------------------------------------------------

  predicate Shape(s: State, v: View) {
    && Chain(s.heap, s.head, v.listed)
    && Chain(s.heap, WalkPointer(s.loop), v.walking)
    && AllIn(s.heap, v.listed)
    && AllIn(s.heap, v.walking)
    && NoDuplicates(v.listed + v.walking)
    && 0 !in s.heap
    && (s.loop.Added? ==> v.walking != [])
  }

  predicate Private(s: State, v: View) {
    && (forall p :: p in s.producers && s.producers[p].OwnsNode() ==>
          var pc := s.producers[p];
          && pc.node in s.heap
          && s.heap[pc.node].task == pc.task
          && (pc.Linked? ==> s.heap[pc.node].next == pc.seen)
          && pc.node !in v.listed
          && pc.node !in v.walking)
    && (forall p, q :: p in s.producers && q in s.producers && p != q
                       && s.producers[p].OwnsNode() && s.producers[q].OwnsNode() ==>
          s.producers[p].node != s.producers[q].node)
    && (forall a :: a in s.heap ==> a in v.listed || a in v.walking || OwnedBySomeone(s, a))
  }

  predicate Logged(s: State, v: View)
    requires Shape(s, v)
  {
    && s.published == PushOrder(v.batches) + Reversed(Tasks(s.heap, v.listed))
    && Flatten(v.batches) == s.handed + Tasks(s.heap, Unhanded(s, v))
  }

  predicate Numbered(s: State) {
    && NoDuplicates(s.published)
    && (forall t :: t in s.published ==> t < s.issued)
    && (forall p :: p in s.producers && s.producers[p].OwnsNode() ==>
          s.producers[p].task < s.issued && s.producers[p].task !in s.published)
    && (forall p, q :: p in s.producers && q in s.producers && p != q
                       && s.producers[p].OwnsNode() && s.producers[q].OwnsNode() ==>
          s.producers[p].task != s.producers[q].task)
    && (forall t :: 0 <= t < s.issued ==> t in s.published || HeldBySomeone(s, t))
  }

  predicate WakeUp(s: State, v: View)
    requires Shape(s, v)
  {
    !s.loop.Top? && !s.loop.Drain? && !s.loop.Exit? && s.pipe == 0 ==>
      forall i :: 0 <= i < |v.listed| ==> WakeOutstanding(s, s.heap[v.listed[i]].task)
  }

  predicate Exclusive(s: State) {
    forall p :: p in s.producers ==>
      ((s.producers[p].Locked? || s.producers[p].Written?) <==> s.lock == Some(p))
  }

  predicate ReadyList(s: State) {
    && multiset(s.handed) == multiset(s.accepted) + multiset(s.refused)
    && (forall t :: t in s.erased ==> t in s.accepted)
    && Minus(s.accepted, s.erased) == s.started + Remotes(s.ready)
  }

  predicate Inv(s: State, v: View) {
    && Shape(s, v)
    && Private(s, v)
    && Logged(s, v)
    && Numbered(s)
    && WakeUp(s, v)
    && Exclusive(s)
    && ReadyList(s)
  }

  /** How the observed view changes with a step. */
  function NextView(s: State, v: View, step: Step): (r: View)
    requires Shape(s, v)
  {
    if step.Cas? && step.p in s.producers && s.producers[step.p].Linked?
       && s.head == s.producers[step.p].seen
    then v.(listed := [s.producers[step.p].node] + v.listed)
    else if step.Exchange?
    then View([], v.listed, v.batches + [Tasks(s.heap, v.listed)])
    else if step.Free? && v.walking != []
    then v.(walking := v.walking[1..])
    else v
  }

  // ---------------------------------------------------------------------------
  // Each part is kept by every step
  // ---------------------------------------------------------------------------

  /** Changes away from the addresses of a chain keep the chain. */
  lemma {:induction false} ChainFrame(heap: map<Addr, Node>, heap': map<Addr, Node>, first: Addr, c: seq<Addr>)
    requires Chain(heap, first, c)
    requires forall i :: 0 <= i < |c| ==> c[i] in heap && c[i] in heap' && heap'[c[i]] == heap[c[i]]
    ensures Chain(heap', first, c)
    decreases c
  {
    if c != [] {
      assert c[0] in heap';
      ChainFrame(heap, heap', heap[first].next, c[1..]);
    }
  }

  /** The steps of a producer up to its CAS. */
  predicate Pushes(step: Step) { step.New? || step.Load? || step.Link? || step.Cas? }

  /** The steps of a producer inside `wakeup`. */
  predicate Signals(step: Step) { step.Lock? || step.Write? || step.Unlock? }

  lemma ShapeKeptByPreparing(s: State, v: View, step: Step)
    requires Shape(s, v) && Private(s, v)
    requires Pushes(step) && !step.Cas? && ProducerNext(s, step).Some?
    ensures Shape(ProducerNext(s, step).value, v)
  {
    var s' := ProducerNext(s, step).value;
    if !step.Load? {
      var n := if step.New? then step.at else s.producers[step.p].node;
      forall i | 0 <= i < |v.listed| ensures v.listed[i] != n {
        assert v.listed[i] in v.listed;
      }
      forall i | 0 <= i < |v.walking| ensures v.walking[i] != n {
        assert v.walking[i] in v.walking;
      }
      ChainFrame(s.heap, s'.heap, s.head, v.listed);
      ChainFrame(s.heap, s'.heap, WalkPointer(s.loop), v.walking);
    }
  }

  /** A CAS that succeeds links the current list behind the new node, whatever happened to
      the remembered address since it was read. */
  lemma ShapeKeptByCas(s: State, v: View, step: Step)
    requires Shape(s, v) && Private(s, v)
    requires step.Cas? && ProducerNext(s, step).Some?
    ensures Shape(ProducerNext(s, step).value, NextView(s, v, step))
  {
    var v' := NextView(s, v, step);
    if s.head == s.producers[step.p].seen {
      var n := s.producers[step.p].node;
      assert v'.listed == [n] + v.listed && v'.listed[1..] == v.listed;
      assert v'.listed + v'.walking == [n] + (v.listed + v.walking);
    }
  }

  lemma FirstIsDistinct(listed: seq<Addr>, walking: seq<Addr>)
    requires walking != [] && NoDuplicates(listed + walking)
    ensures NoDuplicates(listed + walking[1..])
    ensures forall i :: 0 <= i < |listed| ==> listed[i] != walking[0]
    ensures forall i :: 0 <= i < |walking| - 1 ==> walking[1..][i] != walking[0]
  {
    var all := listed + walking;
    assert all[|listed|] == walking[0];
    forall i | 0 <= i < |walking| - 1 ensures walking[1..][i] != walking[0] {
      assert walking[1..][i] == all[|listed| + 1 + i];
    }
    forall i | 0 <= i < |listed| ensures listed[i] != walking[0] {
      assert listed[i] == all[i];
    }
    assert listed + walking[1..] == all[..|listed|] + all[|listed| + 1..];
  }

  lemma ShapeKeptByFree(s: State, v: View)
    requires Shape(s, v) && LoopNext(s, Free).Some?
    ensures Shape(LoopNext(s, Free).value, NextView(s, v, Free))
  {
    var s' := LoopNext(s, Free).value;
    FirstIsDistinct(v.listed, v.walking);
    assert v.walking[0] == s.loop.cur;
    ChainFrame(s.heap, s'.heap, s.head, v.listed);
    ChainFrame(s.heap, s'.heap, WalkPointer(s'.loop), v.walking[1..]);
  }

  lemma ShapeKeptByLoop(s: State, v: View, step: Step)
    requires Shape(s, v) && !step.Free? && LoopNext(s, step).Some?
    ensures Shape(LoopNext(s, step).value, NextView(s, v, step))
  {
    if step.Exchange? {
      assert v.walking == [];
      assert v.listed + v.walking == v.listed;
      assert [] + v.listed == v.listed;
    }
  }

  lemma PrivateKeptByNew(s: State, v: View, step: Step)
    requires Shape(s, v) && Private(s, v)
    requires step.New? && ProducerNext(s, step).Some?
    ensures Private(ProducerNext(s, step).value, v)
  {
    var s' := ProducerNext(s, step).value;
    forall a | a in s.heap && a !in v.listed && a !in v.walking
      ensures OwnedBySomeone(s', a)
    {
      var p :| p in s.producers && s.producers[p].OwnsNode() && s.producers[p].node == a;
      assert p in s'.producers;
    }
    assert s'.producers[step.p].node == step.at;
    assert OwnedBySomeone(s', step.at);
  }

  lemma PrivateKeptByLink(s: State, v: View, step: Step)
    requires Shape(s, v) && Private(s, v)
    requires (step.Load? || step.Link?) && ProducerNext(s, step).Some?
    ensures Private(ProducerNext(s, step).value, v)
  {
    var s' := ProducerNext(s, step).value;
    forall a | a in s.heap && a !in v.listed && a !in v.walking
      ensures OwnedBySomeone(s', a)
    {
      var p :| p in s.producers && s.producers[p].OwnsNode() && s.producers[p].node == a;
      assert p in s'.producers;
    }
  }

  lemma PrivateKeptByRetry(s: State, v: View, step: Step)
    requires Shape(s, v) && Private(s, v)
    requires step.Cas? && ProducerNext(s, step).Some? && s.head != s.producers[step.p].seen
    ensures Private(ProducerNext(s, step).value, v)
  {
    var s' := ProducerNext(s, step).value;
    forall a | a in s.heap && a !in v.listed && a !in v.walking
      ensures OwnedBySomeone(s', a)
    {
      var p :| p in s.producers && s.producers[p].OwnsNode() && s.producers[p].node == a;
      assert p in s'.producers;
    }
  }

  lemma PrivateKeptByPublishing(s: State, v: View, step: Step)
    requires Shape(s, v) && Private(s, v)
    requires step.Cas? && ProducerNext(s, step).Some? && s.head == s.producers[step.p].seen
    ensures Private(ProducerNext(s, step).value, NextView(s, v, step))
  {
    var s' := ProducerNext(s, step).value;
    var v' := NextView(s, v, step);
    var n := s.producers[step.p].node;
    assert v'.listed[0] == n && v'.listed[1..] == v.listed;
    assert forall a :: a in v'.listed <==> a == n || a in v.listed;
    forall a | a in s.heap && a !in v'.listed && a !in v.walking
      ensures OwnedBySomeone(s', a)
    {
      var p :| p in s.producers && s.producers[p].OwnsNode() && s.producers[p].node == a;
      assert p in s'.producers;
    }
  }

  lemma PrivateKeptByPushing(s: State, v: View, step: Step)
    requires Shape(s, v) && Private(s, v)
    requires Pushes(step) && ProducerNext(s, step).Some?
    ensures Private(ProducerNext(s, step).value, NextView(s, v, step))
  {
    if step.New? { PrivateKeptByNew(s, v, step); }
    else if step.Cas? {
      if s.head == s.producers[step.p].seen { PrivateKeptByPublishing(s, v, step); }
      else { PrivateKeptByRetry(s, v, step); }
    }
    else { PrivateKeptByLink(s, v, step); }
  }

  lemma PrivateKeptByFree(s: State, v: View)
    requires Shape(s, v) && Private(s, v) && LoopNext(s, Free).Some?
    ensures Private(LoopNext(s, Free).value, NextView(s, v, Free))
  {
    var s' := LoopNext(s, Free).value;
    var v' := NextView(s, v, Free);
    assert v.walking == [s.loop.cur] + v'.walking;
    forall a | a in s'.heap
      ensures a in v'.listed || a in v'.walking || OwnedBySomeone(s', a)
    {
      if a !in v.listed && a !in v.walking {
        var p :| p in s.producers && s.producers[p].OwnsNode() && s.producers[p].node == a;
        assert p in s'.producers;
      }
    }
  }

  lemma NumberedKeptByNew(s: State, step: Step)
    requires Numbered(s) && step.New? && ProducerNext(s, step).Some?
    ensures Numbered(ProducerNext(s, step).value)
  {
    var s' := ProducerNext(s, step).value;
    assert s'.producers[step.p].task == s.issued;
    forall t | 0 <= t < s.issued && t !in s.published
      ensures HeldBySomeone(s', t)
    {
      var p :| p in s.producers && s.producers[p].OwnsNode() && s.producers[p].task == t;
      assert p in s'.producers;
    }
  }

  /** The same producers own nodes for the same tasks. */
  predicate SameHolders(s: State, s': State) {
    && s'.published == s.published
    && s'.issued == s.issued
    && s'.producers.Keys == s.producers.Keys
    && forall p :: p in s.producers && (s.producers[p].OwnsNode() || s'.producers[p].OwnsNode()) ==>
         s'.producers[p].OwnsNode() && s.producers[p].OwnsNode()
         && s'.producers[p].task == s.producers[p].task
  }

  lemma SameHoldersKeepNumbered(s: State, s': State)
    requires Numbered(s) && SameHolders(s, s')
    ensures Numbered(s')
  {
    forall t | 0 <= t < s'.issued && t !in s'.published
      ensures HeldBySomeone(s', t)
    {
      var p :| p in s.producers && s.producers[p].OwnsNode() && s.producers[p].task == t;
      assert p in s'.producers;
    }
  }

  lemma NumberedKeptByPublishing(s: State, step: Step)
    requires Numbered(s) && step.Cas? && ProducerNext(s, step).Some?
    requires s.head == s.producers[step.p].seen
    ensures Numbered(ProducerNext(s, step).value)
  {
    var s' := ProducerNext(s, step).value;
    var mine := s.producers[step.p].task;
    assert forall t :: t in s'.published <==> t in s.published || t == mine;
    forall t | 0 <= t < s.issued && t !in s'.published
      ensures HeldBySomeone(s', t)
    {
      var p :| p in s.producers && s.producers[p].OwnsNode() && s.producers[p].task == t;
      assert p in s'.producers;
    }
  }

  lemma NumberedKeptByCas(s: State, step: Step)
    requires Numbered(s) && step.Cas? && ProducerNext(s, step).Some?
    ensures Numbered(ProducerNext(s, step).value)
  {
    if s.head == s.producers[step.p].seen { NumberedKeptByPublishing(s, step); }
    else { SameHoldersKeepNumbered(s, ProducerNext(s, step).value); }
  }

  /** The same producers are at the same place of `insertFront`. */
  predicate SamePushers(s: State, s': State) {
    && s'.heap == s.heap
    && s'.producers.Keys == s.producers.Keys
    && forall p :: p in s.producers && (s.producers[p].OwnsNode() || s'.producers[p].OwnsNode()) ==>
         s'.producers[p] == s.producers[p]
  }

  lemma SamePushersKeepPrivate(s: State, s': State, v: View, v': View)
    requires Private(s, v) && SamePushers(s, s')
    requires forall a :: a in v'.listed || a in v'.walking <==> a in v.listed || a in v.walking
    ensures Private(s', v')
  {
    forall a | a in s'.heap && a !in v'.listed && a !in v'.walking
      ensures OwnedBySomeone(s', a)
    {
      var p :| p in s.producers && s.producers[p].OwnsNode() && s.producers[p].node == a;
      assert p in s'.producers;
    }
  }

  lemma ExclusiveKept(s: State, step: Step)
    requires Exclusive(s) && ProducerNext(s, step).Some?
    ensures Exclusive(ProducerNext(s, step).value)
  {}

  lemma ElsewhereKeptByLoop(s: State, step: Step)
    requires Exclusive(s) && Numbered(s) && LoopNext(s, step).Some?
    ensures Exclusive(LoopNext(s, step).value) && Numbered(LoopNext(s, step).value)
  {
    SameHoldersKeepNumbered(s, LoopNext(s, step).value);
  }

  lemma ElsewhereKeptByProducer(s: State, step: Step)
    requires Exclusive(s) && ReadyList(s) && ProducerNext(s, step).Some?
    ensures Exclusive(ProducerNext(s, step).value) && ReadyList(ProducerNext(s, step).value)
  {
    ExclusiveKept(s, step);
    ProducerLeavesReadyList(s, step);
  }

  lemma ProducerLeavesReadyList(s: State, step: Step)
    requires ReadyList(s) && ProducerNext(s, step).Some?
    ensures ReadyList(ProducerNext(s, step).value)
  {
    var s' := ProducerNext(s, step).value;
    assert s'.ready == s.ready && s'.started == s.started && s'.loop == s.loop;
    assert s'.handed == s.handed && s'.accepted == s.accepted && s'.refused == s.refused && s'.erased == s.erased;
  }

  // --- the logs -----------------------------------------------------------------

  lemma {:induction false} PushOrderAppend(batches: seq<seq<Task>>, last: seq<Task>)
    ensures PushOrder(batches + [last]) == PushOrder(batches) + Reversed(last)
  {
    if batches == [] {
      assert (batches + [last])[1..] == [];
    } else {
      assert (batches + [last])[1..] == batches[1..] + [last];
      PushOrderAppend(batches[1..], last);
    }
  }

  lemma ReversedFirst(t: Task, older: seq<Task>)
    ensures Reversed([t] + older) == Reversed(older) + [t]
  {
    assert ([t] + older)[1..] == older;
  }

  lemma LoggedKeptByCas(s: State, v: View, step: Step)
    requires Shape(s, v) && Private(s, v) && Logged(s, v)
    requires step.Cas? && ProducerNext(s, step).Some?
    requires Shape(ProducerNext(s, step).value, NextView(s, v, step))
    ensures Logged(ProducerNext(s, step).value, NextView(s, v, step))
  {
    var s' := ProducerNext(s, step).value;
    var v' := NextView(s, v, step);
    if s.head == s.producers[step.p].seen {
      var t := s.producers[step.p].task;
      var older := Tasks(s.heap, v.listed);
      assert s'.heap == s.heap && v'.listed == [s.producers[step.p].node] + v.listed;
      assert Tasks(s'.heap, v'.listed) == [t] + older;
      ReversedFirst(t, older);
      Regrouped(PushOrder(v.batches), Reversed(older), [t]);
      assert Unhanded(s', v') == Unhanded(s, v);
    }
  }

  lemma LoggedKeptByExchange(s: State, v: View)
    requires Shape(s, v) && Logged(s, v) && LoopNext(s, Exchange).Some?
    requires Shape(LoopNext(s, Exchange).value, NextView(s, v, Exchange))
    ensures Logged(LoopNext(s, Exchange).value, NextView(s, v, Exchange))
  {
    var s' := LoopNext(s, Exchange).value;
    var v' := NextView(s, v, Exchange);
    var batch := Tasks(s.heap, v.listed);
    PushOrderAppend(v.batches, batch);
    FlattenAppend(v.batches, batch);
    assert v.walking == [];
    assert Tasks(s.heap, Unhanded(s, v)) == [];
    assert Tasks(s'.heap, v'.listed) == [];
    assert Tasks(s'.heap, Unhanded(s', v')) == batch;
  }

  lemma LoggedKeptByHand(s: State, v: View)
    requires Shape(s, v) && Logged(s, v) && LoopNext(s, Hand).Some?
    requires Shape(LoopNext(s, Hand).value, v)
    ensures Logged(LoopNext(s, Hand).value, v)
  {
    var s' := LoopNext(s, Hand).value;
    assert v.walking != [] && v.walking[0] == s.loop.cur;
    var t := s.heap[s.loop.cur].task;
    var later := Tasks(s.heap, v.walking[1..]);
    assert Tasks(s.heap, v.walking) == [t] + later;
    Regrouped(s.handed, [t], later);
  }

  /** When the heap is the same on the two chains, the logged tasks are the same. */
  lemma LoggedKeptElsewhere(s: State, s': State, v: View, v': View)
    requires Shape(s, v) && Logged(s, v) && Shape(s', v')
    requires s'.published == s.published && s'.handed == s.handed
    requires v'.batches == v.batches && v'.listed == v.listed && Unhanded(s', v') == Unhanded(s, v)
    requires forall i :: 0 <= i < |v.listed| ==> s'.heap[v.listed[i]].task == s.heap[v.listed[i]].task
    requires forall i :: 0 <= i < |v.walking| && v.walking[i] in s'.heap ==>
               s'.heap[v.walking[i]].task == s.heap[v.walking[i]].task
    ensures Logged(s', v')
  {
    assert AllIn(s'.heap, Unhanded(s', v'));
    assert Tasks(s'.heap, v'.listed) == Tasks(s.heap, v.listed);
    assert Tasks(s'.heap, Unhanded(s', v')) == Tasks(s.heap, Unhanded(s, v));
  }

  // --- wake-ups -------------------------------------------------------------------

  lemma WakeUpKeptByProducer(s: State, v: View, step: Step)
    requires Shape(s, v) && Private(s, v) && WakeUp(s, v) && ProducerNext(s, step).Some?
    requires Shape(ProducerNext(s, step).value, NextView(s, v, step))
    ensures WakeUp(ProducerNext(s, step).value, NextView(s, v, step))
  {
    var s' := ProducerNext(s, step).value;
    var v' := NextView(s, v, step);
    if !s'.loop.Top? && !s'.loop.Drain? && !s'.loop.Exit? && s'.pipe == 0 {
      forall i | 0 <= i < |v'.listed|
        ensures WakeOutstanding(s', s'.heap[v'.listed[i]].task)
      {
        WakeOutstandingKept(s, v, step, i);
      }
    }
  }

  /** A task already listed that must still be signalled must still be signalled afterwards. */
  lemma OlderWakeKept(s: State, v: View, step: Step, i: nat)
    requires Shape(s, v) && Private(s, v) && WakeUp(s, v) && ProducerNext(s, step).Some?
    requires !step.Write? && !s.loop.Top? && !s.loop.Drain? && !s.loop.Exit? && s.pipe == 0 && i < |v.listed|
    ensures var s' := ProducerNext(s, step).value;
            v.listed[i] in s'.heap && WakeOutstanding(s', s'.heap[v.listed[i]].task)
  {
    var s' := ProducerNext(s, step).value;
    assert v.listed[i] in v.listed;
    var t := s.heap[v.listed[i]].task;
    assert v.listed[i] in s'.heap && s'.heap[v.listed[i]].task == t;
    var p :| p in s.producers && s.producers[p].MustWake(t);
    assert s'.producers[p].MustWake(t);
  }

  lemma WakeOutstandingKept(s: State, v: View, step: Step, i: nat)
    requires Shape(s, v) && Private(s, v) && WakeUp(s, v) && ProducerNext(s, step).Some?
    requires !step.Write? && !s.loop.Top? && !s.loop.Drain? && !s.loop.Exit? && s.pipe == 0
    requires i < |NextView(s, v, step).listed|
    requires AllIn(ProducerNext(s, step).value.heap, NextView(s, v, step).listed)
    ensures var s' := ProducerNext(s, step).value;
            WakeOutstanding(s', s'.heap[NextView(s, v, step).listed[i]].task)
  {
    var v' := NextView(s, v, step);
    if v'.listed == v.listed {
      OlderWakeKept(s, v, step, i);
    } else if i > 0 {
      assert v'.listed[i] == v.listed[i - 1];
      OlderWakeKept(s, v, step, i - 1);
    } else {
      assert ProducerNext(s, step).value.producers[step.p].MustWake(s.producers[step.p].task);
    }
  }

  lemma WakeUpKeptByLoop(s: State, v: View, step: Step)
    requires Shape(s, v) && WakeUp(s, v) && LoopNext(s, step).Some?
    requires Shape(LoopNext(s, step).value, NextView(s, v, step))
    ensures WakeUp(LoopNext(s, step).value, NextView(s, v, step))
  {
    var s' := LoopNext(s, step).value;
    var v' := NextView(s, v, step);
    if !s'.loop.Top? && !s'.loop.Drain? && !s'.loop.Exit? && s'.pipe == 0 && !step.Exchange? {
      forall i | 0 <= i < |v'.listed|
        ensures WakeOutstanding(s', s'.heap[v'.listed[i]].task)
      {
        var t := s.heap[v.listed[i]].task;
        var p :| p in s.producers && s.producers[p].MustWake(t);
        assert s'.producers[p].MustWake(t);
      }
    }
  }

  // --- the ready list ---------------------------------------------------------------

  lemma Regrouped(a: seq<Task>, b: seq<Task>, c: seq<Task>)
    ensures a + (b + c) == (a + b) + c
  {}

  lemma {:induction false} RemotesAppend(a: seq<Item>, b: seq<Item>)
    ensures Remotes(a + b) == Remotes(a) + Remotes(b)
  {
    if a == [] {
      assert a + b == b;
    } else {
      assert (a + b)[0] == a[0] && (a + b)[1..] == a[1..] + b;
      RemotesAppend(a[1..], b);
      Regrouped(TaskOf(a[0]), Remotes(a[1..]), Remotes(b));
    }
  }

  lemma {:induction false} OwnItemsHaveNoRemotes(items: seq<Item>)
    requires OwnItems(items)
    ensures Remotes(items) == []
    decreases items
  {
    if items != [] { OwnItemsHaveNoRemotes(items[1..]); }
  }

  lemma {:induction false} RemotesMember(items: seq<Item>, t: Task)
    ensures t in Remotes(items) <==> Remote(t) in items
    decreases items
  {
    if items != [] {
      assert items == [items[0]] + items[1..];
      RemotesMember(items[1..], t);
    }
  }

  lemma {:induction false} MinusAppend(a: seq<Task>, b: seq<Task>, out: set<Task>)
    ensures Minus(a + b, out) == Minus(a, out) + Minus(b, out)
    decreases a
  {
    if a == [] {
      assert a + b == b;
    } else {
      assert (a + b)[0] == a[0] && (a + b)[1..] == a[1..] + b;
      MinusAppend(a[1..], b, out);
      Regrouped(if a[0] in out then [] else [a[0]], Minus(a[1..], out), Minus(b, out));
    }
  }

  lemma {:induction false} MinusNothing(ts: seq<Task>, out: set<Task>)
    requires forall t :: t in ts ==> t !in out
    ensures Minus(ts, out) == ts
    decreases ts
  {
    if ts != [] {
      assert ts[0] in ts;
      MinusNothing(ts[1..], out);
    }
  }

  lemma {:induction false} MinusTwice(ts: seq<Task>, out: set<Task>, t: Task)
    ensures Minus(ts, out + {t}) == Minus(Minus(ts, out), {t})
    decreases ts
  {
    if ts != [] {
      MinusTwice(ts[1..], out, t);
      var first := if ts[0] in out then [] else [ts[0]];
      MinusAppend(first, Minus(ts[1..], out), {t});
      assert Minus(first, {t}) == if ts[0] in out + {t} then [] else [ts[0]];
    }
  }

  lemma {:induction false} MinusCount(ts: seq<Task>, out: set<Task>, t: Task)
    ensures multiset(Minus(ts, out))[t] == if t in out then 0 else multiset(ts)[t]
    decreases ts
  {
    if ts != [] {
      assert ts == [ts[0]] + ts[1..];
      MinusCount(ts[1..], out, t);
    }
  }

  /** Taking out the only occurrence of `t`. */
  lemma MinusOnly(a: seq<Task>, t: Task, b: seq<Task>)
    requires t !in a && t !in b
    ensures Minus(a + [t] + b, {t}) == a + b
  {
    MinusAppend(a + [t], b, {t});
    MinusAppend(a, [t], {t});
    MinusNothing(a, {t});
    MinusNothing(b, {t});
    assert Minus([t], {t}) == [] && a + [] == a;
  }

  lemma {:induction false} CountOfDistinct(ts: seq<Task>, t: Task)
    requires NoDuplicates(ts)
    ensures multiset(ts)[t] <= 1
    decreases ts
  {
    if ts != [] {
      assert ts == [ts[0]] + ts[1..];
      CountOfDistinct(ts[1..], t);
      if ts[0] == t { assert t !in ts[1..]; }
    }
  }

  lemma {:induction false} DistinctByCount(ts: seq<Task>)
    requires forall t :: multiset(ts)[t] <= 1
    ensures NoDuplicates(ts)
    decreases ts
  {
    if ts != [] {
      var rest := ts[1..];
      assert ts == [ts[0]] + rest;
      forall t ensures multiset(rest)[t] <= 1 { assert multiset(ts)[t] <= 1; }
      DistinctByCount(rest);
      assert multiset(ts)[ts[0]] <= 1;
      assert ts[0] !in rest;
      forall i, j | 0 <= i < j < |ts| ensures ts[i] != ts[j] {
        assert ts[j] == rest[j - 1];
        if i > 0 { assert ts[i] == rest[i - 1]; }
      }
    }
  }

  /** Every task is handed over at most once, and one still to be handed over has not been. */
  lemma HandedOnce(s: State, v: View, t: Task)
    requires Shape(s, v) && Logged(s, v) && Numbered(s)
    ensures multiset(s.handed)[t] + multiset(Tasks(s.heap, Unhanded(s, v)))[t] <= 1
    ensures multiset(s.published)[t]
            == multiset(s.handed)[t] + multiset(Tasks(s.heap, Unhanded(s, v)))[t] + multiset(Tasks(s.heap, v.listed))[t]
  {
    PushOrderMultiset(v.batches);
    ReversedMultiset(Tasks(s.heap, v.listed));
    CountOfDistinct(s.published, t);
  }

  lemma RemotesPushed(items: seq<Item>, t: Task)
    ensures Remotes(items + [Remote(t)]) == Remotes(items) + [t]
  {
    assert [Remote(t)][1..] == [];
    assert Remotes([Remote(t)]) == [t];
    RemotesAppend(items, [Remote(t)]);
  }

  lemma ReadyListKeptByHand(s: State, v: View)
    requires Shape(s, v) && Logged(s, v) && Numbered(s) && ReadyList(s) && LoopNext(s, Hand).Some?
    ensures ReadyList(LoopNext(s, Hand).value)
  {
    var t := s.heap[s.loop.cur].task;
    assert t !in s.erased by {
      HandedOnce(s, v, t);
      assert v.walking[0] == s.loop.cur && Tasks(s.heap, v.walking)[0] == t;
      assert multiset(s.handed)[t] == 0;
      assert t !in multiset(s.accepted);
    }
    RemotesPushed(s.ready, t);
    MinusAppend(s.accepted, [t], s.erased);
    MinusNothing([t], s.erased);
    Regrouped(s.started, Remotes(s.ready), [t]);
  }

  lemma ReadyListKeptByOffers(s: State, step: Step)
    requires ReadyList(s) && (step.Return? || step.Wake?) && LoopNext(s, step).Some?
    ensures ReadyList(LoopNext(s, step).value)
  {
    RemotesAppend(s.ready, step.offered);
    OwnItemsHaveNoRemotes(step.offered);
    assert Remotes(s.ready) + [] == Remotes(s.ready);
  }

  lemma RemotesOne(item: Item)
    ensures Remotes([item]) == TaskOf(item)
  {
    assert [item][1..] == [] && TaskOf(item) + [] == TaskOf(item);
  }

  lemma RemotesParts(a: seq<Item>, item: Item, b: seq<Item>)
    ensures Remotes(a + [item] + b) == Remotes(a) + TaskOf(item) + Remotes(b)
  {
    RemotesAppend(a + [item], b);
    RemotesAppend(a, [item]);
    RemotesOne(item);
  }

  /** Taking one more task out of a list that holds it at most once. */
  lemma MinusOneMore(ts: seq<Task>, out: set<Task>, a: seq<Task>, t: Task, b: seq<Task>)
    requires Minus(ts, out) == a + [t] + b && multiset(ts)[t] <= 1
    ensures t in ts && Minus(ts, out + {t}) == a + b
  {
    MinusCount(ts, out, t);
    assert multiset(a + [t] + b)[t] == multiset(a)[t] + 1 + multiset(b)[t];
    MinusTwice(ts, out, t);
    MinusOnly(a, t, b);
  }

  lemma AcceptedOnce(s: State, v: View, t: Task)
    requires Shape(s, v) && Logged(s, v) && Numbered(s) && ReadyList(s)
    ensures multiset(s.accepted)[t] <= 1
  {
    HandedOnce(s, v, t);
    assert multiset(s.handed)[t] == multiset(s.accepted)[t] + multiset(s.refused)[t];
  }

  lemma ErasingATask(accepted: seq<Task>, erased: set<Task>, started: seq<Task>, a: seq<Task>, t: Task, b: seq<Task>)
    requires Minus(accepted, erased) == started + (a + [t] + b) && multiset(accepted)[t] <= 1
    ensures t in accepted && Minus(accepted, erased + {t}) == started + (a + b)
  {
    Regrouped(started, a + [t], b);
    Regrouped(started, a, [t]);
    MinusOneMore(accepted, erased, started + a, t, b);
    Regrouped(started, a, b);
  }

  lemma ErasingAnEntry(s: State, v: View, a: seq<Task>, item: Item, b: seq<Task>)
    requires Shape(s, v) && Logged(s, v) && Numbered(s) && ReadyList(s)
    requires Remotes(s.ready) == a + TaskOf(item) + b
    ensures item.Remote? ==> item.task in s.accepted
    ensures Minus(s.accepted, if item.Remote? then s.erased + {item.task} else s.erased) == s.started + (a + b)
  {
    if item.Remote? {
      AcceptedOnce(s, v, item.task);
      ErasingATask(s.accepted, s.erased, s.started, a, item.task, b);
    } else {
      assert a + [] == a;
    }
  }

  lemma ReadyListKeptByErase(s: State, v: View, at: nat)
    requires Shape(s, v) && Logged(s, v) && Numbered(s) && ReadyList(s) && LoopNext(s, Erase(at)).Some?
    ensures ReadyList(LoopNext(s, Erase(at)).value)
  {
    var before, item, behind := s.ready[..at], s.ready[at], s.ready[at + 1..];
    var s' := LoopNext(s, Erase(at)).value;
    assert Remotes(s.ready) == Remotes(before) + TaskOf(item) + Remotes(behind) by {
      assert s.ready == before + [item] + behind;
      RemotesParts(before, item, behind);
    }
    ErasingAnEntry(s, v, Remotes(before), item, Remotes(behind));
    RemotesAppend(before, behind);
    assert s'.ready == before + behind;
    assert s'.handed == s.handed && s'.accepted == s.accepted && s'.refused == s.refused;
  }

  lemma ReadyListKeptByPop(s: State)
    requires ReadyList(s) && LoopNext(s, Pop).Some?
    ensures ReadyList(LoopNext(s, Pop).value)
  {
    var s' := LoopNext(s, Pop).value;
    var first := TaskOf(s.ready[0]);
    assert s'.started == s.started + first;
    Regrouped(s.started, first, Remotes(s'.ready));
  }

  lemma NullsHaveNoTask(items: seq<Item>)
    ensures items != [] && items[0].Null? ==> Remotes(items[1..]) == Remotes(items)
  {
    if items != [] && items[0].Null? { assert TaskOf(items[0]) + Remotes(items[1..]) == Remotes(items[1..]); }
  }

  lemma ReadyListKeptElsewhere(s: State, step: Step)
    requires ReadyList(s) && LoopNext(s, step).Some?
    requires step.Exchange? || step.Free? || step.NoWork? || step.Read? || step.Quit? || step.Stop?
    ensures ReadyList(LoopNext(s, step).value)
  {
    var s' := LoopNext(s, step).value;
    assert Remotes(s'.ready) == Remotes(s.ready) by {
      if step.NoWork? { NullsHaveNoTask(s.ready); } else { assert s'.ready == s.ready; }
    }
    assert s'.handed == s.handed && s'.accepted == s.accepted && s'.erased == s.erased;
    assert s'.refused == s.refused && s'.started == s.started;
  }

  lemma ReadyListKeptByLoop(s: State, v: View, step: Step)
    requires Shape(s, v) && Logged(s, v) && Numbered(s) && ReadyList(s) && LoopNext(s, step).Some?
    ensures ReadyList(LoopNext(s, step).value)
  {
    if step.Hand? { ReadyListKeptByHand(s, v); }
    else if step.Pop? { ReadyListKeptByPop(s); }
    else if step.Erase? { ReadyListKeptByErase(s, v, step.at); }
    else if step.Return? || step.Wake? { ReadyListKeptByOffers(s, step); }
    else { ReadyListKeptElsewhere(s, step); }
  }

  // ---------------------------------------------------------------------------
  // The whole invariant over every step and every run
  // ---------------------------------------------------------------------------

  lemma SignallingKeepsTheList(s: State, v: View, step: Step)
    requires Shape(s, v) && Private(s, v) && Numbered(s) && Logged(s, v)
    requires Signals(step) && ProducerNext(s, step).Some?
    ensures var s' := ProducerNext(s, step).value;
            Shape(s', v) && Private(s', v) && Numbered(s') && Logged(s', v)
  {
    var s' := ProducerNext(s, step).value;
    SignallingKeepsFields(s, step);
    assert Shape(s', v);
    SamePushersKeepPrivate(s, s', v, v);
    SameHoldersKeepNumbered(s, s');
    LoggedKeptElsewhere(s, s', v, v);
  }

  lemma SignallingKeepsFields(s: State, step: Step)
    requires Signals(step) && ProducerNext(s, step).Some?
    ensures var s' := ProducerNext(s, step).value;
            && SamePushers(s, s') && SameHolders(s, s')
            && s'.head == s.head && s'.loop == s.loop && s'.handed == s.handed
  {}

  lemma SignallingKeepsInv(s: State, v: View, step: Step)
    requires Inv(s, v) && Signals(step) && ProducerNext(s, step).Some?
    ensures Inv(ProducerNext(s, step).value, v)
  {
    SignallingKeepsTheList(s, v, step);
    WakeUpKeptByProducer(s, v, step);
    ElsewhereKeptByProducer(s, step);
  }

  lemma CasKeepsInv(s: State, v: View, step: Step)
    requires Inv(s, v) && step.Cas? && ProducerNext(s, step).Some?
    ensures Inv(ProducerNext(s, step).value, NextView(s, v, step))
  {
    ShapeKeptByCas(s, v, step);
    PrivateKeptByPushing(s, v, step);
    NumberedKeptByCas(s, step);
    LoggedKeptByCas(s, v, step);
    WakeUpKeptByProducer(s, v, step);
    ElsewhereKeptByProducer(s, step);
  }

  lemma PreparingKeepsTasks(s: State, v: View, step: Step)
    requires Shape(s, v) && Private(s, v)
    requires Pushes(step) && !step.Cas? && ProducerNext(s, step).Some?
    ensures var heap' := ProducerNext(s, step).value.heap;
            && (forall i :: 0 <= i < |v.listed| ==> v.listed[i] in heap' && heap'[v.listed[i]] == s.heap[v.listed[i]])
            && (forall i :: 0 <= i < |v.walking| ==>
                  v.walking[i] in heap' && heap'[v.walking[i]] == s.heap[v.walking[i]])
  {
    forall i | 0 <= i < |v.listed| ensures v.listed[i] in v.listed {}
    forall i | 0 <= i < |v.walking| ensures v.walking[i] in v.walking {}
  }

  lemma NumberedKeptByPreparing(s: State, step: Step)
    requires Numbered(s) && Pushes(step) && !step.Cas? && ProducerNext(s, step).Some?
    ensures Numbered(ProducerNext(s, step).value)
  {
    if step.New? { NumberedKeptByNew(s, step); }
    else { SameHoldersKeepNumbered(s, ProducerNext(s, step).value); }
  }

  lemma LoggedKeptByPreparing(s: State, v: View, step: Step)
    requires Shape(s, v) && Private(s, v) && Logged(s, v)
    requires Pushes(step) && !step.Cas? && ProducerNext(s, step).Some?
    requires Shape(ProducerNext(s, step).value, v)
    ensures Logged(ProducerNext(s, step).value, v)
  {
    PreparingKeepsTasks(s, v, step);
    LoggedKeptElsewhere(s, ProducerNext(s, step).value, v, v);
  }

  lemma PreparingKeepsInv(s: State, v: View, step: Step)
    requires Inv(s, v) && Pushes(step) && !step.Cas? && ProducerNext(s, step).Some?
    ensures Inv(ProducerNext(s, step).value, v)
  {
    ShapeKeptByPreparing(s, v, step);
    PrivateKeptByPushing(s, v, step);
    NumberedKeptByPreparing(s, step);
    LoggedKeptByPreparing(s, v, step);
    WakeUpKeptByProducer(s, v, step);
    ElsewhereKeptByProducer(s, step);
  }

  lemma FreeKeepsInv(s: State, v: View)
    requires Inv(s, v) && LoopNext(s, Free).Some?
    ensures Inv(LoopNext(s, Free).value, NextView(s, v, Free))
  {
    var s' := LoopNext(s, Free).value;
    var v' := NextView(s, v, Free);
    ShapeKeptByFree(s, v);
    PrivateKeptByFree(s, v);
    SameHoldersKeepNumbered(s, s');
    LoggedKeptElsewhere(s, s', v, v');
    WakeUpKeptByLoop(s, v, Free);
    ReadyListKeptByLoop(s, v, Free);
  }

  lemma LoggedKeptByLoop(s: State, v: View, step: Step)
    requires Shape(s, v) && Logged(s, v) && !step.Free? && LoopNext(s, step).Some?
    requires Shape(LoopNext(s, step).value, NextView(s, v, step))
    ensures Logged(LoopNext(s, step).value, NextView(s, v, step))
  {
    if step.Exchange? { LoggedKeptByExchange(s, v); }
    else if step.Hand? { LoggedKeptByHand(s, v); }
    else { LoggedKeptElsewhere(s, LoopNext(s, step).value, v, v); }
  }

  lemma PrivateKeptByLoop(s: State, v: View, step: Step)
    requires Shape(s, v) && Private(s, v) && !step.Free? && LoopNext(s, step).Some?
    ensures Private(LoopNext(s, step).value, NextView(s, v, step))
  {
    SamePushersKeepPrivate(s, LoopNext(s, step).value, v, NextView(s, v, step));
  }

  lemma LoopKeepsInv(s: State, v: View, step: Step)
    requires Inv(s, v) && !step.Free? && LoopNext(s, step).Some?
    ensures Inv(LoopNext(s, step).value, NextView(s, v, step))
  {
    ShapeKeptByLoop(s, v, step);
    PrivateKeptByLoop(s, v, step);
    ElsewhereKeptByLoop(s, step);
    LoggedKeptByLoop(s, v, step);
    WakeUpKeptByLoop(s, v, step);
    ReadyListKeptByLoop(s, v, step);
  }

  /** The view of the heap after a run. */
  function ViewAfter(producers: set<nat>, steps: seq<Step>): (v: View)
    requires After(producers, steps).Some?
    ensures Inv(After(producers, steps).value, v)
  {
    if steps == [] then View([], [], [])
    else
      var n := |steps| - 1;
      var s := After(producers, steps[..n]).value;
      var v := ViewAfter(producers, steps[..n]);
      KeepsInv(s, v, steps[n]);
      NextView(s, v, steps[n])
  }

  lemma KeepsInv(s: State, v: View, step: Step)
    requires Inv(s, v) && Next(s, step).Some?
    ensures Inv(Next(s, step).value, NextView(s, v, step))
  {
    if step.Cas? { CasKeepsInv(s, v, step); }
    else if Pushes(step) { PreparingKeepsInv(s, v, step); }
    else if Signals(step) { SignallingKeepsInv(s, v, step); }
    else if step.Free? { FreeKeepsInv(s, v); }
    else { LoopKeepsInv(s, v, step); }
  }

  lemma {:induction false} PushOrderMultiset(batches: seq<seq<Task>>)
    ensures multiset(PushOrder(batches)) == multiset(Flatten(batches))
  {
    if batches != [] {
      ReversedMultiset(batches[0]);
      PushOrderMultiset(batches[1..]);
    }
  }

  // ---------------------------------------------------------------------------
  // What every interleaving guarantees
  // ---------------------------------------------------------------------------

  /** The published list is acyclic and ends in null, the list being walked is disjoint from it,
      every producer's unpublished node is allocated and on neither list, every pointer about to
      be followed is allocated, and every allocated node is accounted for. */
  predicate MemorySafe(s: State, listed: seq<Addr>, walking: seq<Addr>) {
    && Chain(s.heap, s.head, listed)
    && Chain(s.heap, WalkPointer(s.loop), walking)
    && AllIn(s.heap, listed)
    && AllIn(s.heap, walking)
    && NoDuplicates(listed + walking)
    && (forall p :: p in s.producers && s.producers[p].OwnsNode() ==>
          && s.producers[p].node in s.heap
          && s.producers[p].node !in listed
          && s.producers[p].node !in walking)
    && (forall a :: a in s.heap ==> a in listed || a in walking || OwnedBySomeone(s, a))
    && (s.loop.Walk? && s.loop.cur != 0 ==> s.loop.cur in s.heap)
    && (s.loop.Added? ==> s.loop.cur in s.heap && walking != [])
  }

  /** What was pushed is exactly what is still listed, plus what is detached and not handed over,
      plus what was handed to addExecutor. */
  predicate Conserved(s: State, listed: seq<Addr>, walking: seq<Addr>)
    requires MemorySafe(s, listed, walking)
  {
    multiset(s.published)
    == multiset(Tasks(s.heap, listed))
       + multiset(Tasks(s.heap, if s.loop.Added? then walking[1..] else walking))
       + multiset(s.handed)
  }

  /** The pushes split into consecutive batches, one per exchange; each batch is handed over
      newest first, and a batch only after the batches before it. */
  predicate DeliveredInBatches(s: State, batches: seq<seq<Task>>) {
    && PushOrder(batches) <= s.published
    && s.handed <= Flatten(batches)
    && (s.loop.Wait? ==> s.handed == Flatten(batches))
  }

  /** Accepted tasks are different from each other; those that removeExecutor did not take out are
      started in the order of acceptance, and the others of them are still ready in that order. */
  predicate StartedInOrder(s: State) {
    && NoDuplicates(s.accepted)
    && NoDuplicates(s.started)
    && Minus(s.accepted, s.erased) == s.started + Remotes(s.ready)
  }

  lemma InvMeansStartedInOrder(s: State, v: View)
    requires Shape(s, v) && Logged(s, v) && Numbered(s) && ReadyList(s)
    ensures StartedInOrder(s)
  {
    forall t ensures multiset(s.accepted)[t] <= 1 && multiset(s.started)[t] <= 1 {
      AcceptedOnce(s, v, t);
      MinusCount(s.accepted, s.erased, t);
      assert multiset(s.started + Remotes(s.ready))[t] == multiset(s.started)[t] + multiset(Remotes(s.ready))[t];
    }
    DistinctByCount(s.accepted);
    DistinctByCount(s.started);
  }

  lemma InvMeansMemorySafe(s: State, v: View)
    requires Shape(s, v) && Private(s, v)
    ensures MemorySafe(s, v.listed, v.walking)
  {}

  lemma InvMeansConserved(s: State, v: View)
    requires Shape(s, v) && Private(s, v) && Logged(s, v)
    ensures MemorySafe(s, v.listed, v.walking) && Conserved(s, v.listed, v.walking)
  {
    InvMeansMemorySafe(s, v);
    PushOrderMultiset(v.batches);
    ReversedMultiset(Tasks(s.heap, v.listed));
    assert Unhanded(s, v) == if s.loop.Added? then v.walking[1..] else v.walking;
  }

  lemma InvMeansDelivered(s: State, v: View)
    requires Shape(s, v) && Logged(s, v)
    ensures DeliveredInBatches(s, v.batches)
  {
    assert s.loop.Wait? ==> v.walking == [];
  }

  /** Safety of every interleaving, also when a freed address is reallocated between a
      producer's load and its CAS. */
  lemma EveryInterleavingIsSafe(producers: set<nat>, steps: seq<Step>)
    requires After(producers, steps).Some?
    ensures var s := After(producers, steps).value;
            exists listed, walking :: MemorySafe(s, listed, walking) && Conserved(s, listed, walking)
    ensures var s := After(producers, steps).value;
            exists batches: seq<seq<Task>> :: DeliveredInBatches(s, batches)
    ensures var s := After(producers, steps).value;
            && NoDuplicates(s.published)
            && (forall t :: 0 <= t < s.issued ==> t in s.published || HeldBySomeone(s, t))
            && multiset(s.handed) == multiset(s.accepted) + multiset(s.refused)
    ensures StartedInOrder(After(producers, steps).value)
  {
    var s := After(producers, steps).value;
    var v := ViewAfter(producers, steps);
    InvMeansConserved(s, v);
    InvMeansDelivered(s, v);
    InvMeansStartedInOrder(s, v);
  }

  /** No lost wake-up: while the loop thread waits in epoll_wait and the pipe is empty, every
      listed task belongs to a producer that has not yet written to the pipe. */
  lemma NoLostWakeUp(producers: set<nat>, steps: seq<Step>)
    requires After(producers, steps).Some?
    ensures var s := After(producers, steps).value;
            s.loop.Wait? && s.pipe == 0 ==>
              exists listed :: Chain(s.heap, s.head, listed) && AllIn(s.heap, listed)
                               && forall i :: 0 <= i < |listed| ==> WakeOutstanding(s, s.heap[listed[i]].task)
  {
    var s := After(producers, steps).value;
    var v := ViewAfter(producers, steps);
    assert Chain(s.heap, s.head, v.listed) && AllIn(s.heap, v.listed);
  }

  /** What can have become of a task that was handed to addExecutor: started, refused by a stopping
      scheduler, taken out by removeExecutor, or still ready. */
  predicate Settled(s: State, t: Task) {
    t in s.started || t in s.refused || t in s.erased || Remote(t) in s.ready
  }

  lemma HandedMeansSettled(s: State, t: Task)
    requires ReadyList(s)
    ensures t in s.handed <==> Settled(s, t)
  {
    assert t in s.handed <==> t in multiset(s.handed);
    assert t in s.handed <==> t in s.accepted || t in s.refused;
    MinusCount(s.accepted, s.erased, t);
    RemotesMember(s.ready, t);
    assert t in Minus(s.accepted, s.erased) <==> t in s.started || t in Remotes(s.ready);
    assert t in Minus(s.accepted, s.erased) <==> t in multiset(Minus(s.accepted, s.erased));
  }

  lemma QuietStateIsDone(s: State, v: View, t: Task)
    requires Shape(s, v) && Logged(s, v) && WakeUp(s, v) && ReadyList(s)
    requires s.loop.Wait? && s.pipe == 0 && t in s.published
    requires forall p :: p in s.producers ==> s.producers[p].Idle?
    ensures Settled(s, t)
  {
    assert forall t0 :: !WakeOutstanding(s, t0);
    assert v.listed == [];
    assert v.walking == [] && Tasks(s.heap, v.walking) == [] && Tasks(s.heap, v.listed) == [];
    PushOrderMultiset(v.batches);
    assert s.published == PushOrder(v.batches) && Flatten(v.batches) == s.handed;
    assert t in multiset(s.published) && t in multiset(s.handed);
    HandedMeansSettled(s, t);
  }

  lemma QuietInvIsDone(s: State, v: View, t: Task)
    requires Inv(s, v) && s.loop.Wait? && s.pipe == 0 && t < s.issued
    requires forall p :: p in s.producers ==> s.producers[p].Idle?
    ensures Settled(s, t)
  {
    assert !HeldBySomeone(s, t);
    QuietStateIsDone(s, v, t);
  }

  /** End to end: once the loop thread waits on an empty pipe and no call is in progress, every
      task ever passed to addRemoteTask has been started, was refused or taken out, or is still
      ready. */
  lemma QuietMeansDone(producers: set<nat>, steps: seq<Step>, t: Task)
    requires After(producers, steps).Some?
    requires After(producers, steps).value.loop.Wait?
    requires After(producers, steps).value.pipe == 0
    requires t < After(producers, steps).value.issued
    requires forall p :: p in After(producers, steps).value.producers ==>
                           After(producers, steps).value.producers[p].Idle?
    ensures Settled(After(producers, steps).value, t)
  {
    QuietInvIsDone(After(producers, steps).value, ViewAfter(producers, steps), t);
  }

  /** The loop thread goes to wait, or exits, over ready entries iff it popped a null entry with
      others behind it. */
  lemma WaitsOverWorkExactly(s: State)
    requires LoopNext(s, NoWork).Some?
    ensures LoopNext(s, NoWork).value.ready != [] <==> |s.ready| > 1 && s.ready[0].Null?
  {}

  predicate OffersNoNull(step: Step) {
    step.Return? || step.Wake? ==> Null !in step.offered
  }

  /** Without null entries the loop thread only waits on an empty ready list. */
  predicate NeverIdleOverWork(s: State) {
    Null !in s.ready && (s.loop.Wait? ==> s.ready == [])
  }

  lemma NoNullKept(s: State, step: Step)
    requires NeverIdleOverWork(s) && OffersNoNull(step) && Next(s, step).Some?
    ensures NeverIdleOverWork(Next(s, step).value)
  {}

  lemma {:induction false} NoNullRun(producers: set<nat>, steps: seq<Step>)
    requires After(producers, steps).Some? && forall i :: 0 <= i < |steps| ==> OffersNoNull(steps[i])
    ensures NeverIdleOverWork(After(producers, steps).value)
  {
    if steps != [] {
      NoNullRun(producers, steps[..|steps| - 1]);
      NoNullKept(After(producers, steps[..|steps| - 1]).value, steps[|steps| - 1]);
    }
  }

  /** So when no null executor is ever queued, a quiet runtime has nothing left to do. */
  lemma QuietWithoutNullsMeansDone(producers: set<nat>, steps: seq<Step>, t: Task)
    requires After(producers, steps).Some? && forall i :: 0 <= i < |steps| ==> OffersNoNull(steps[i])
    requires After(producers, steps).value.loop.Wait?
    requires After(producers, steps).value.pipe == 0
    requires t < After(producers, steps).value.issued
    requires forall p :: p in After(producers, steps).value.producers ==>
                           After(producers, steps).value.producers[p].Idle?
    ensures var s := After(producers, steps).value; t in s.started || t in s.refused || t in s.erased
  {
    NoNullRun(producers, steps);
    QuietMeansDone(producers, steps, t);
  }

  lemma {:induction false} PushOrderLength(batches: seq<seq<Task>>)
    ensures |PushOrder(batches)| == |Flatten(batches)|
  {
    if batches != [] { PushOrderLength(batches[1..]); }
  }

  /** With no walk in progress, the list holds the tasks published since the last exchange. */
  lemma ListedSinceExchange(s: State, v: View)
    requires Shape(s, v) && Logged(s, v) && v.walking == []
    ensures |s.handed| <= |s.published|
    ensures s.published[|s.handed|..] == Reversed(Tasks(s.heap, v.listed))
    ensures multiset(s.published[..|s.handed|]) == multiset(s.handed)
  {
    assert Tasks(s.heap, Unhanded(s, v)) == [] && Flatten(v.batches) == s.handed;
    PushOrderLength(v.batches);
    PushOrderMultiset(v.batches);
    assert s.published[..|s.handed|] == PushOrder(v.batches);
  }

  lemma ExitStateAccounts(s: State, v: View, t: Task)
    requires Inv(s, v) && s.loop.Exit? && t < s.issued && |s.handed| <= |s.published|
    ensures Settled(s, t) <==> !HeldBySomeone(s, t) && t !in s.published[|s.handed|..]
  {
    ListedSinceExchange(s, v);
    HandedMeansSettled(s, t);
    var done: seq<Task>, tail: seq<Task> := s.published[..|s.handed|], s.published[|s.handed|..];
    assert s.published == done + tail;
    assert t in s.handed <==> t in multiset(done);
    assert t in s.published <==> t in done || t in tail;
    CountOfDistinct(s.published, t);
    assert multiset(s.published)[t] == multiset(done)[t] + multiset(tail)[t];
    assert t in done ==> t !in tail;
    assert HeldBySomeone(s, t) <==> t !in s.published;
  }

  /** When the loop thread has exited, the tasks stranded on the list are exactly those published
      since the last exchange, newest first; of the others, those are settled that no producer still
      holds before its CAS. */
  lemma ExitAccountsForEveryTask(producers: set<nat>, steps: seq<Step>)
    requires After(producers, steps).Some? && After(producers, steps).value.loop.Exit?
    ensures var s := After(producers, steps).value;
            && |s.handed| <= |s.published|
            && (exists listed :: Chain(s.heap, s.head, listed) && AllIn(s.heap, listed)
                                 && Reversed(Tasks(s.heap, listed)) == s.published[|s.handed|..])
            && forall t :: 0 <= t < s.issued ==>
                 (Settled(s, t) <==> !HeldBySomeone(s, t) && t !in s.published[|s.handed|..])
  {
    var s, v := After(producers, steps).value, ViewAfter(producers, steps);
    ListedSinceExchange(s, v);
    forall t | 0 <= t < s.issued
      ensures Settled(s, t) <==> !HeldBySomeone(s, t) && t !in s.published[|s.handed|..]
    {
      ExitStateAccounts(s, v, t);
    }
    assert Chain(s.heap, s.head, v.listed) && AllIn(s.heap, v.listed);
  }

  lemma ExitStays(s: State, step: Step)
    requires s.loop.Exit? && Next(s, step).Some?
    ensures var s' := Next(s, step).value;
            s'.loop.Exit? && s'.handed == s.handed && s'.started == s.started && s'.refused == s.refused
  {}

  /** After that nothing is handed over, started or refused any more: what is listed stays there. */
  lemma {:induction false} StrandedForever(producers: set<nat>, steps: seq<Step>, more: seq<Step>)
    requires After(producers, steps).Some? && After(producers, steps).value.loop.Exit?
    requires After(producers, steps + more).Some?
    ensures var s, s' := After(producers, steps).value, After(producers, steps + more).value;
            s'.loop.Exit? && s'.handed == s.handed && s'.started == s.started && s'.refused == s.refused
    decreases |more|
  {
    if more == [] {
      assert steps + more == steps;
    } else {
      assert (steps + more)[..|steps + more| - 1] == steps + more[..|more| - 1];
      StrandedForever(producers, steps, more[..|more| - 1]);
      ExitStays(After(producers, steps + more[..|more| - 1]).value, more[|more| - 1]);
    }
  }
}
