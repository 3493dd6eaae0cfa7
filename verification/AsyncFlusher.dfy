/**
 Asynchronous file logging: any number of clients push strings on a queue under a mutex, and one
 worker thread moves them to a buffered file, holding the same mutex.

 The step machine below interleaves the threads at every point where another thread could observe
 something; the class after it is the code of the two operations.
 */
module AsyncFlusher {
  import opened Common
  import opened FileStream
  import opened WritableFile

  type Text = seq<char>

  datatype Client = Idle | Calling(str: Text) | Holding(str: Text) | Pushed

  /** The worker was never started, waits on the condition variable, has been woken, is at the head of doFlush's loop,
      is inside an append that has not returned (begun on the file `before`, with the outcomes
      `script` of ::write so far), or is between append and pop. */
  datatype Worker =
    | Absent
    | Sleeping
    | Woken
    | Looping
    | InAppend(before: File, script: seq<SysWrite>)
    | Appended

  datatype Owner = ByClient(id: nat) | ByWorker

  datatype State = State(
    clients: map<nat, Client>,
    worker: Worker,
    lock: Option<Owner>,
    pool: seq<Text>,
    file: File,
    flushed: seq<Text>,        // every string pushed, in lock order
    origin: seq<nat>,          // the client that pushed each of them
    called: map<nat, seq<Text>>,  // the strings each client passed to flush, in call order
    failed: bool)              // some append has failed

  datatype Step =
    | Call(c: nat, str: Text)
    | Acquire(c: nat)
    | Push(c: nat)
    | Release(c: nat)
    | Wake
    | WorkerAcquire
    | WorkerAppend(script: seq<SysWrite>)
    | WorkerContinue(more: seq<SysWrite>)
    | WorkerPop
    | WorkerRelease

  function Start(clients: set<nat>): (s: State) {
    State(map c | c in clients :: Idle, Sleeping, None, [], File([], []), [], [], map c | c in clients :: [], false)
  }

  /** A flusher built from a String: that constructor does not start the worker. */
  function StartWithoutWorker(clients: set<nat>): (s: State) {
    Start(clients).(worker := Absent)
  }

  function SetClient(s: State, c: nat, pc: Client): (r: State) {
    s.(clients := s.clients[c := pc])
  }

  /** The append of the first pooled string to `before`, as far as `script` carries it. */
  function Appending(s: State, before: File, script: seq<SysWrite>): (r: State)
    requires s.pool != [] && |before.buffer| <= CAPACITY
  {
    var (file, status) := Append(before, s.pool[0], script);
    s.(file := file,
       worker := if status == Pending then InAppend(before, script) else Appended,
       failed := s.failed || status == Failed)
  }

  function Next(s: State, step: Step): (r: Option<State>) {
    match step
    case Call(c, str) =>
      if c in s.clients && s.clients[c].Idle? && c in s.called
      then Some(SetClient(s, c, Calling(str)).(called := s.called[c := s.called[c] + [str]])) else None
    case Acquire(c) =>
      if c in s.clients && s.clients[c].Calling? && s.lock.None?
      then Some(SetClient(s, c, Holding(s.clients[c].str)).(lock := Some(ByClient(c)))) else None
    case Push(c) =>
      if c in s.clients && s.clients[c].Holding?
      then Some(SetClient(s, c, Pushed).(pool := s.pool + [s.clients[c].str],
                                         flushed := s.flushed + [s.clients[c].str],
                                         origin := s.origin + [c])) else None
    case Release(c) =>
      if c in s.clients && s.clients[c].Pushed? then Some(SetClient(s, c, Idle).(lock := None)) else None
    case Wake =>
      if s.worker.Sleeping? then Some(s.(worker := Woken)) else None
    case WorkerAcquire =>
      if s.worker.Woken? && s.lock.None? then Some(s.(worker := Looping, lock := Some(ByWorker))) else None
    case WorkerAppend(script) =>
      if s.worker.Looping? && s.pool != [] && |s.file.buffer| <= CAPACITY
      then Some(Appending(s, s.file, script)) else None
    case WorkerContinue(more) =>
      if s.worker.InAppend? && s.pool != [] && |s.worker.before.buffer| <= CAPACITY
      then Some(Appending(s, s.worker.before, s.worker.script + more)) else None
    case WorkerPop =>
      if s.worker.Appended? && s.pool != [] then Some(s.(worker := Looping, pool := s.pool[1..])) else None
    case WorkerRelease =>
      if s.worker.Looping? && s.pool == [] then Some(s.(worker := Sleeping, lock := None)) else None
  }

  function After(start: State, steps: seq<Step>): (r: Option<State>) {
    if steps == [] then Some(start)
    else
      var s := After(start, steps[..|steps| - 1]);
      if s.None? then None else Next(s.value, steps[|steps| - 1])
  }

  /** The strings that are in the pool and not in the file. */
  function Unwritten(s: State): (r: seq<Text>) {
    if s.worker.Appended? && s.pool != [] then s.pool[1..] else s.pool
  }

  predicate Exclusive(s: State) {
    && (forall c :: c in s.clients ==>
          ((s.clients[c].Holding? || s.clients[c].Pushed?) <==> s.lock == Some(ByClient(c))))
    && ((s.worker.Looping? || s.worker.InAppend? || s.worker.Appended?) <==> s.lock == Some(ByWorker))
    && (s.worker.Appended? || s.worker.InAppend? ==> s.pool != [])
  }

  /** Disk, file buffer and pool together are everything flushed, in lock order; inside an append
      that has not returned, the disk is a prefix of it. */
  predicate InOrder(s: State) {
    && |s.file.buffer| <= CAPACITY
    && (!s.failed && !s.worker.InAppend? ==> Stream(s.file) + Flatten(Unwritten(s)) == Flatten(s.flushed))
    && (!s.failed ==> s.file.disk <= Flatten(s.flushed))
    && (s.worker.InAppend? && s.pool != [] ==>
          && |s.worker.before.buffer| <= CAPACITY
          && s.file == Append(s.worker.before, s.pool[0], s.worker.script).0
          && (!s.failed ==> Stream(s.worker.before) + Flatten(s.pool) == Flatten(s.flushed)))
  }

  lemma ExclusiveKept(s: State, step: Step)
    requires Exclusive(s) && Next(s, step).Some?
    ensures Exclusive(Next(s, step).value)
  {}

  lemma FlattenFirst(pool: seq<Text>)
    requires pool != []
    ensures Flatten(pool) == pool[0] + Flatten(pool[1..])
  {}

  lemma InOrderKeptByPush(s: State, c: nat)
    requires Exclusive(s) && InOrder(s) && Next(s, Push(c)).Some?
    ensures InOrder(Next(s, Push(c)).value)
  {
    var str := s.clients[c].str;
    assert s.lock == Some(ByClient(c));
    assert Unwritten(s) == s.pool;
    FlattenAppend(s.pool, str);
    FlattenAppend(s.flushed, str);
    assert Stream(s.file) + (Flatten(s.pool) + str) == (Stream(s.file) + Flatten(s.pool)) + str;
  }

  lemma AppendingKeepsOrder(s: State, before: File, script: seq<SysWrite>)
    requires s.pool != [] && |before.buffer| <= CAPACITY
    requires !s.failed ==> Stream(before) + Flatten(s.pool) == Flatten(s.flushed)
    ensures InOrder(Appending(s, before, script))
  {
    AppendRefinesStream(before, s.pool[0], script);
    FlattenFirst(s.pool);
    var s' := Appending(s, before, script);
    assert Stream(before) + (s.pool[0] + Flatten(s.pool[1..])) == (Stream(before) + s.pool[0]) + Flatten(s.pool[1..]);
    assert !s.failed ==> s'.file.disk <= Flatten(s.flushed);
  }

  /** Nothing that is on disk is ever taken back, also when an append goes on after a pause. */
  lemma DiskOnlyGrows(s: State, step: Step)
    requires Exclusive(s) && InOrder(s) && Next(s, step).Some?
    ensures s.file.disk <= Next(s, step).value.file.disk
  {
    match step
    case WorkerAppend(script) => AppendRefinesStream(s.file, s.pool[0], script);
    case WorkerContinue(more) => AppendContinues(s.worker.before, s.pool[0], s.worker.script, more);
    case _ =>
  }

  lemma InOrderKept(s: State, step: Step)
    requires Exclusive(s) && InOrder(s) && Next(s, step).Some?
    ensures InOrder(Next(s, step).value)
  {
    match step
    case Push(c) => InOrderKeptByPush(s, c);
    case WorkerAppend(script) => AppendingKeepsOrder(s, s.file, script);
    case WorkerContinue(more) => AppendingKeepsOrder(s, s.worker.before, s.worker.script + more);
    case _ =>
      var s' := Next(s, step).value;
      assert Unwritten(s') == Unwritten(s);
  }

  /** End to end order: in every interleaving of clients and worker, while no write has failed, the
      disk followed by the file buffer and the pool is the concatenation of all flushed strings in
      lock order. */
  lemma {:induction false} EveryInterleavingKeepsOrder(clients: set<nat>, steps: seq<Step>)
    requires After(Start(clients), steps).Some?
    ensures Exclusive(After(Start(clients), steps).value) && InOrder(After(Start(clients), steps).value)
  {
    if steps != [] {
      var before := steps[..|steps| - 1];
      EveryInterleavingKeepsOrder(clients, before);
      ExclusiveKept(After(Start(clients), before).value, steps[|steps| - 1]);
      InOrderKept(After(Start(clients), before).value, steps[|steps| - 1]);
    }
  }

  // ---------------------------------------------------------------------------
  // Nothing but what clients asked for
  // ---------------------------------------------------------------------------

  /** The strings of `ts` that came from client `c`. */
  function FromClient(ts: seq<Text>, origin: seq<nat>, c: nat): (r: seq<Text>)
    requires |ts| == |origin|
  {
    if ts == [] then []
    else FromClient(ts[..|ts| - 1], origin[..|ts| - 1], c) + (if origin[|ts| - 1] == c then [ts[|ts| - 1]] else [])
  }

  /** The string a client has passed to flush and not pushed yet. */
  function InFlight(pc: Client): (r: seq<Text>) {
    if pc.Calling? || pc.Holding? then [pc.str] else []
  }

  /** For every client, what it passed to flush is what was pushed for it, in its order, and then the
      string still in flight. */
  predicate Faithful(s: State) {
    && |s.origin| == |s.flushed|
    && (forall c :: c in s.clients ==> c in s.called)
    && forall c :: c in s.clients ==>
         s.called[c] == FromClient(s.flushed, s.origin, c) + InFlight(s.clients[c])
  }

  lemma PushIsFaithful(s: State, c: nat)
    requires Faithful(s) && Next(s, Push(c)).Some?
    ensures Faithful(Next(s, Push(c)).value)
  {
    var s' := Next(s, Push(c)).value;
    assert s'.flushed[..|s.flushed|] == s.flushed && s'.origin[..|s.flushed|] == s.origin;
    forall d | d in s'.clients
      ensures s'.called[d] == FromClient(s'.flushed, s'.origin, d) + InFlight(s'.clients[d])
    {
      var pushed := FromClient(s.flushed, s.origin, d);
      assert FromClient(s'.flushed, s'.origin, d) == pushed + (if c == d then [s.clients[c].str] else []);
      assert pushed + [] == pushed;
      assert d == c ==> pushed + [s.clients[c].str] + [] == pushed + [s.clients[c].str];
    }
  }

  lemma FaithfulKept(s: State, step: Step)
    requires Faithful(s) && Next(s, step).Some?
    ensures Faithful(Next(s, step).value)
  {
    if step.Push? {
      PushIsFaithful(s, step.c);
    } else {
      var s' := Next(s, step).value;
      forall d | d in s'.clients
        ensures s'.called[d] == FromClient(s'.flushed, s'.origin, d) + InFlight(s'.clients[d])
      {
        assert FromClient(s.flushed, s.origin, d) + [] == FromClient(s.flushed, s.origin, d);
      }
    }
  }

  /** In every interleaving the strings flushed are the ones clients passed, each once, and in the order
      of the calls of every client. */
  lemma {:induction false} EveryInterleavingIsFaithful(clients: set<nat>, steps: seq<Step>)
    requires After(Start(clients), steps).Some?
    ensures Faithful(After(Start(clients), steps).value)
  {
    if steps != [] {
      EveryInterleavingIsFaithful(clients, steps[..|steps| - 1]);
      FaithfulKept(After(Start(clients), steps[..|steps| - 1]).value, steps[|steps| - 1]);
    }
  }

  /** The worker keeps the mutex until the pool is empty: it goes on with the first string while there
      is one, and lets go exactly when there is none. */
  lemma WorkerEmptiesThePool(s: State, script: seq<SysWrite>)
    requires s.worker.Looping? && |s.file.buffer| <= CAPACITY
    ensures Next(s, WorkerRelease).Some? <==> s.pool == []
    ensures Next(s, WorkerAppend(script)).Some? <==> s.pool != []
    ensures s.pool != [] && Append(s.file, s.pool[0], script).1 != Pending ==>
              var s' := Next(s, WorkerAppend(script)).value;
              && Next(s', WorkerPop).Some? && Next(s', WorkerPop).value.worker == Looping
              && Next(s', WorkerPop).value.pool == s.pool[1..]
  {}

  /** Without its worker a flusher keeps everything in its pool and writes nothing, whatever the
      clients do. */
  lemma {:induction false} NothingWrittenWithoutWorker(clients: set<nat>, steps: seq<Step>)
    requires After(StartWithoutWorker(clients), steps).Some?
    ensures var s := After(StartWithoutWorker(clients), steps).value;
            s.worker.Absent? && s.file == File([], []) && s.pool == s.flushed
  {
    if steps != [] { NothingWrittenWithoutWorker(clients, steps[..|steps| - 1]); }
  }

  /** The two operations as code; both run with the mutex held. */
  class AsyncFileFlusher {
    var pool: seq<Text>
    const file: Writer

    ghost predicate Valid()
      reads this, file
    {
      file.Valid()
    }

    constructor (script: seq<SysWrite>)
      ensures Valid() && fresh(file) && fresh(file.buf) && pool == []
    {
      pool := [];
      file := new Writer(script);
    }

    method PushText(str: Text)
      modifies this`pool
      ensures pool == old(pool) + [str]
    {
      pool := pool + [str];
    }

    /** Move the whole pool to the file. The status of an append is not looked at; `clean` records
        that none failed, and `returned` that all of them returned. */
    method DoFlush() returns (clean: bool, returned: bool)
      requires Valid()
      modifies this`pool, file`disk, file`script, file`pos, file.buf
      ensures Valid()
      ensures returned ==> pool == []
      ensures clean ==> file.disk <= Stream(old(file.View())) + Flatten(old(pool))
      ensures clean && returned ==> Stream(file.View()) == Stream(old(file.View())) + Flatten(old(pool))
      ensures NoError(old(file.script)) ==> clean
      ensures !returned ==> file.script == []
      ensures old(file.pos) + |Flatten(old(pool))| <= 65535 ==> clean && returned && file.disk == old(file.disk)
    {
      clean, returned := true, true;
      ghost var fits := file.pos + |Flatten(pool)| <= CAPACITY;
      while pool != []
        invariant Valid()
        invariant NoError(old(file.script)) ==> clean && NoError(file.script)
        invariant fits ==> clean && file.pos + |Flatten(pool)| <= CAPACITY && file.disk == old(file.disk)
        invariant clean ==> Stream(file.View()) + Flatten(pool) == Stream(old(file.View())) + Flatten(old(pool))
        decreases |pool|
      {
        ghost var before := file.View();
        AppendRefinesStream(before, pool[0], file.script);
        AppendWithoutError(before, pool[0], file.script);
        FlattenFirst(pool);
        if fits { FittingAppendSucceeds(before, pool[0], file.script); }
        var status := file.AppendData(pool[0]);
        assert Stream(before) + Flatten(pool) == (Stream(before) + pool[0]) + Flatten(pool[1..]);
        if status == Pending { return clean, false; }
        clean := clean && status == Ok;
        pool := pool[1..];
      }
    }
  }
}
