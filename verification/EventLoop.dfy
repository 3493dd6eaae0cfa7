/**
 The epoll bookkeeping of IOManager: a vector of per-descriptor registrations in user space that
 must agree with the interest set of the kernel.

 A registration is known by its ticket, the number of the registerEvent call that made it, so that
 "the same registration" is meaningful even when one executor is registered many times.
 */
module EventLoop {
  import opened Common

  /** The bits of an epoll event mask that the code uses: EPOLLIN, EPOLLOUT, EPOLLERR, EPOLLHUP
      and EPOLLET. */
  datatype Bits = Bits(rd: bool, wr: bool, err: bool, hup: bool, et: bool) {
    /** this | b */
    function Or(b: Bits): (r: Bits) {
      Bits(rd || b.rd, wr || b.wr, err || b.err, hup || b.hup, et || b.et)
    }
    /** this & b */
    function And(b: Bits): (r: Bits) {
      Bits(rd && b.rd, wr && b.wr, err && b.err, hup && b.hup, et && b.et)
    }
    /** this & ~b */
    function Minus(b: Bits): (r: Bits) {
      Bits(rd && !b.rd, wr && !b.wr, err && !b.err, hup && !b.hup, et && !b.et)
    }
    /** (this & b) != 0 */
    predicate Meets(b: Bits) { And(b) != ZERO }
  }

  const ZERO := Bits(false, false, false, false, false)
  const IN := Bits(true, false, false, false, false)
  const OUT := Bits(false, true, false, false, false)
  const ERR := Bits(false, false, true, false, false)
  const HUP := Bits(false, false, false, true, false)
  const ET := Bits(false, false, false, false, true)

  type Ticket = nat

  datatype EventType = Read | Write | Other

  datatype FdEvents = FdEvents(
    registered: Bits,
    readOnce: bool,
    writeOnce: bool,
    reader: Option<Ticket>,
    writer: Option<Ticket>)

  const NO_EVENTS := FdEvents(ZERO, true, true, None, None)

  /** What became of a registration. */
  datatype Fate = Armed(fd: nat, kind: EventType) | Enqueued | Replaced

  datatype Io = Io(
    fds: seq<FdEvents>,
    kernel: map<nat, Bits>,             // epoll interest set
    pipe: nat,                          // read end of the wake-up pipe
    stopped: bool,
    enqueued: seq<Option<Ticket>>,      // arguments of addExecutor, in call order; None is a null pointer
    issued: nat,
    fates: map<Ticket, Fate>)

  datatype Polled = Polled(fd: nat, events: Bits)

  // ---------------------------------------------------------------------------
  // The kernel
  // ---------------------------------------------------------------------------

  datatype Ctl = Add | Mod | Del

  /** epoll_ctl; None is the error that the code turns into a failed assertion. */
  function EpollCtl(kernel: map<nat, Bits>, ctl: Ctl, fd: nat, events: Bits): (r: Option<map<nat, Bits>>) {
    match ctl
    case Add => if fd in kernel then None else Some(kernel[fd := events])
    case Mod => if fd in kernel then Some(kernel[fd := events]) else None
    case Del => if fd in kernel then Some(kernel - {fd}) else None
  }

  // ---------------------------------------------------------------------------
  // registerEvent
  // ---------------------------------------------------------------------------

  function Blank(n: nat): (r: seq<FdEvents>)
    ensures |r| == n && forall i :: 0 <= i < n ==> r[i] == NO_EVENTS
  {
    seq(n, i => NO_EVENTS)
  }

  /** The vector after making room for `fd`: it grows to fd * 1.5 entries. */
  function Grown(fds: seq<FdEvents>, fd: nat): (r: seq<FdEvents>)
    ensures |r| >= |fds|
  {
    if fd < |fds| then fds else fds + Blank(fd * 3 / 2 - |fds|)
  }

  function Mask(kind: EventType): (r: Bits) {
    match kind case Read => IN case Write => OUT case Other => ZERO
  }

  function Slot(e: FdEvents, kind: EventType): (r: Option<Ticket>) {
    match kind case Read => e.reader case Write => e.writer case Other => None
  }

  function Arm(e: FdEvents, kind: EventType, ticket: Ticket, once: bool): (r: FdEvents) {
    match kind
    case Read => e.(reader := Some(ticket), readOnce := once)
    case Write => e.(writer := Some(ticket), writeOnce := once)
    case Other => e
  }

  /** Store the executor of a new registration, replacing the one in its slot. */
  function SetExecutor(io: Io, fd: nat, kind: EventType, once: bool): (r: Io)
    requires fd < |io.fds|
  {
    var replaced := Slot(io.fds[fd], kind);
    var fates := if replaced.Some? then io.fates[replaced.value := Replaced] else io.fates;
    io.(fds := io.fds[fd := Arm(io.fds[fd], kind, io.issued, once)],
        issued := io.issued + 1,
        fates := fates[io.issued := Armed(fd, kind)])
  }

  /** The epAdd closure: widen the mask of `fd` in the kernel, then in user space. */
  function EpAdd(io: Io, fd: nat, mask: Bits): (r: Option<Io>)
    requires fd < |io.fds|
  {
    var before := io.fds[fd].registered;
    var after := before.Or(mask);
    var k := if before != ZERO then EpollCtl(io.kernel, Mod, fd, after)
             else EpollCtl(io.kernel, Add, fd, after.Or(ET));
    if k.None? then None
    else Some(io.(kernel := k.value, fds := io.fds[fd := io.fds[fd].(registered := after)]))
  }

  /** registerEvent for `fd`; None is an index outside the vector or a failed epoll_ctl. The second
      component is the value returned to the caller. */
  function Register(io: Io, fd: nat, kind: EventType, once: bool): (r: Option<(Io, bool)>) {
    if io.stopped then Some((io, false))
    else
      var grown := io.(fds := Grown(io.fds, fd));
      if kind.Other? then Some((grown, false))
      else if fd >= |grown.fds| then None
      else
        var io' := EpAdd(SetExecutor(grown, fd, kind, once), fd, Mask(kind));
        if io'.None? then None else Some((io'.value, true))
  }

  // ---------------------------------------------------------------------------
  // blockPending
  // ---------------------------------------------------------------------------

  /** Hand the reader (or writer) of `fd` to addExecutor and forget it when it is call-once. */
  function Enqueue(io: Io, fd: nat, kind: EventType): (r: Io)
    requires fd < |io.fds| && !kind.Other?
  {
    var e := io.fds[fd];
    var t := Slot(e, kind);
    var e' := if kind.Read? then (if e.readOnce then e.(reader := None) else e)
              else (if e.writeOnce then e.(writer := None) else e);
    io.(enqueued := io.enqueued + [t],
        fds := io.fds[fd := e'],
        fates := if t.Some? then io.fates[t.value := Enqueued] else io.fates)
  }

  /** The interest left after `events`; the call-once flags consulted are those of `first`, the
      descriptor of the first event of the batch. */
  function LeftEvents(registered: Bits, events: Bits, first: FdEvents): (r: Bits) {
    var l1 := if events.Meets(IN) && first.readOnce then registered.Minus(IN) else registered;
    if events.Meets(OUT) && first.writeOnce then l1.Minus(OUT) else l1
  }

  /** The flags of `first` can be read, and an executor that is reused is not null. */
  predicate FlagsReadable(io: Io, first: nat, events: Bits) {
    events.Meets(IN.Or(OUT)) ==>
      && first < |io.fds|
      && (events.Meets(IN) && !io.fds[first].readOnce ==> io.fds[first].reader.Some?)
      && (events.Meets(OUT) && !io.fds[first].writeOnce ==> io.fds[first].writer.Some?)
  }

  function Withdraw(io: Io, first: nat, ev: Polled): (r: Option<Io>)
    requires ev.fd < |io.fds|
  {
    if !FlagsReadable(io, first, ev.events) then None
    else
      var before := io.fds[ev.fd].registered;
      var left := if first < |io.fds| then LeftEvents(before, ev.events, io.fds[first]) else before;
      if left == before then Some(io)
      else
        var k := if left != ZERO then EpollCtl(io.kernel, Mod, ev.fd, left) else EpollCtl(io.kernel, Del, ev.fd, ET);
        if k.None? then None
        else Some(io.(kernel := k.value, fds := io.fds[ev.fd := io.fds[ev.fd].(registered := left)]))
  }

  function Deliver(io: Io, ev: Polled): (r: Io)
    requires ev.fd < |io.fds|
  {
    var io1 := if ev.events.Meets(IN.Or(ERR).Or(HUP)) then Enqueue(io, ev.fd, Read) else io;
    if ev.events.Meets(OUT.Or(ERR).Or(HUP)) then Enqueue(io1, ev.fd, Write) else io1
  }

  function PollEvent(io: Io, first: nat, ev: Polled): (r: Option<Io>) {
    if ev.fd == io.pipe then Some(io)
    else if ev.fd >= |io.fds| then None
    else
      var io1 := Withdraw(io, first, ev);
      if io1.None? then None else Some(Deliver(io1.value, ev))
  }

  /** The loop over the events of one epoll_wait, all consulting the flags of `first`. */
  function PollAll(io: Io, first: nat, batch: seq<Polled>): (r: Option<Io>)
    decreases batch
  {
    if batch == [] then Some(io)
    else
      var io1 := PollEvent(io, first, batch[0]);
      if io1.None? then None else PollAll(io1.value, first, batch[1..])
  }

  function Poll(io: Io, batch: seq<Polled>): (r: Option<Io>) {
    if batch == [] then Some(io) else PollAll(io, batch[0].fd, batch)
  }

  // ---------------------------------------------------------------------------
  // Agreement of the two masks
  // ---------------------------------------------------------------------------

  predicate AgreesAt(io: Io, fd: nat)
    requires fd < |io.fds|
  {
    var registered := io.fds[fd].registered;
    && registered.Minus(IN.Or(OUT)) == ZERO
    && (fd in io.kernel <==> registered != ZERO)
    && (fd in io.kernel ==> io.kernel[fd].Minus(ET) == registered)
  }

  /** The kernel watches a descriptor iff its user-space mask is not zero, and then with exactly
      that mask, EPOLLET aside. */
  predicate Agrees(io: Io) {
    && (forall fd :: 0 <= fd < |io.fds| && fd != io.pipe ==> AgreesAt(io, fd))
    && (forall fd :: fd in io.kernel ==> fd < |io.fds| || fd == io.pipe)
  }

  /** What the kernel may report: each descriptor once, watched, and besides error conditions only
      bits that are asked for. */
  predicate Reportable(io: Io, ev: Polled) {
    && ev.fd in io.kernel
    && !ev.events.et
    && ev.events.And(IN.Or(OUT)).Minus(io.kernel[ev.fd]) == ZERO
  }

  predicate ValidBatch(io: Io, batch: seq<Polled>) {
    && (forall i :: 0 <= i < |batch| ==> Reportable(io, batch[i]))
    && (forall i, j :: 0 <= i < j < |batch| ==> batch[i].fd != batch[j].fd)
  }

  lemma MaskBits(registered: Bits, kind: EventType)
    requires registered.Minus(IN.Or(OUT)) == ZERO && !kind.Other?
    ensures var after := registered.Or(Mask(kind));
            && after != ZERO && after.Minus(IN.Or(OUT)) == ZERO
            && after.Minus(ET) == after && after.Or(ET).Minus(ET) == after
            && after.Meets(Mask(kind))
            && (kind.Read? ==> after.wr == registered.wr)
            && (kind.Write? ==> after.rd == registered.rd)
  {}

  lemma LeftBits(registered: Bits, events: Bits, first: FdEvents)
    requires registered.Minus(IN.Or(OUT)) == ZERO
    ensures var left := LeftEvents(registered, events, first);
            && left.Minus(IN.Or(OUT)) == ZERO
            && left.Minus(ET) == left
            && left.Minus(registered) == ZERO
  {}

  lemma GrowingAgrees(io: Io, fd: nat)
    requires Agrees(io)
    ensures Agrees(io.(fds := Grown(io.fds, fd)))
  {
    var io' := io.(fds := Grown(io.fds, fd));
    forall f | 0 <= f < |io'.fds| && f != io'.pipe ensures AgreesAt(io', f) {
      if f < |io.fds| { assert AgreesAt(io, f); }
    }
  }

  lemma SetExecutorAgrees(io: Io, fd: nat, kind: EventType, once: bool)
    requires Agrees(io) && fd < |io.fds|
    ensures Agrees(SetExecutor(io, fd, kind, once))
  {
    var io' := SetExecutor(io, fd, kind, once);
    forall f | 0 <= f < |io'.fds| && f != io'.pipe ensures AgreesAt(io', f) {
      assert AgreesAt(io, f);
    }
  }

  lemma EpAddAgrees(io: Io, fd: nat, kind: EventType)
    requires Agrees(io) && fd < |io.fds| && fd != io.pipe && !kind.Other?
    ensures EpAdd(io, fd, Mask(kind)).Some?
    ensures Agrees(EpAdd(io, fd, Mask(kind)).value)
  {
    assert AgreesAt(io, fd);
    MaskBits(io.fds[fd].registered, kind);
    var io' := EpAdd(io, fd, Mask(kind)).value;
    forall f | 0 <= f < |io'.fds| && f != io'.pipe ensures AgreesAt(io', f) {
      if f != fd { assert AgreesAt(io, f); }
    }
  }

  /** registerEvent on a descriptor is defined iff it returns early or finds an entry after growing,
      and then it keeps the two masks in agreement; its epoll_ctl call cannot fail. */
  lemma RegisterAgrees(io: Io, fd: nat, kind: EventType, once: bool)
    requires Agrees(io) && fd != io.pipe
    ensures Register(io, fd, kind, once).Some? <==> io.stopped || kind.Other? || fd < |io.fds| || fd >= 2
    ensures Register(io, fd, kind, once).Some? ==> Agrees(Register(io, fd, kind, once).value.0)
  {
    GrowingAgrees(io, fd);
    var grown := io.(fds := Grown(io.fds, fd));
    if !io.stopped && !kind.Other? && fd < |grown.fds| {
      SetExecutorAgrees(grown, fd, kind, once);
      EpAddAgrees(SetExecutor(grown, fd, kind, once), fd, kind);
    }
  }

  /** The vector has an entry for `fd` after growing iff it had one before or fd >= 2. */
  lemma GrowthCoversExactly(fds: seq<FdEvents>, fd: nat)
    ensures fd < |Grown(fds, fd)| <==> fd < |fds| || fd >= 2
  {}

  lemma WithdrawAgrees(io: Io, first: nat, ev: Polled)
    requires Agrees(io) && ev.fd < |io.fds| && ev.fd != io.pipe
    requires ev.fd in io.kernel && FlagsReadable(io, first, ev.events)
    ensures Withdraw(io, first, ev).Some?
    ensures Agrees(Withdraw(io, first, ev).value)
  {
    assert AgreesAt(io, ev.fd);
    if first < |io.fds| { LeftBits(io.fds[ev.fd].registered, ev.events, io.fds[first]); }
    var io' := Withdraw(io, first, ev).value;
    forall f | 0 <= f < |io'.fds| && f != io'.pipe ensures AgreesAt(io', f) {
      if f != ev.fd { assert AgreesAt(io, f); }
    }
  }

  lemma EnqueueAgrees(io: Io, fd: nat, kind: EventType)
    requires Agrees(io) && fd < |io.fds| && !kind.Other?
    ensures Agrees(Enqueue(io, fd, kind))
  {
    var io' := Enqueue(io, fd, kind);
    forall f | 0 <= f < |io'.fds| && f != io'.pipe ensures AgreesAt(io', f) {
      assert AgreesAt(io, f);
    }
  }

  /** One delivered event keeps the agreement, whatever its bits and flags. */
  lemma PollEventAgrees(io: Io, first: nat, ev: Polled)
    requires Agrees(io) && ev.fd in io.kernel
    requires ev.fd != io.pipe ==> FlagsReadable(io, first, ev.events)
    ensures PollEvent(io, first, ev).Some?
    ensures Agrees(PollEvent(io, first, ev).value)
  {
    if ev.fd != io.pipe {
      WithdrawAgrees(io, first, ev);
      var io1 := Withdraw(io, first, ev).value;
      if ev.events.Meets(IN.Or(ERR).Or(HUP)) {
        EnqueueAgrees(io1, ev.fd, Read);
      }
      var io2 := if ev.events.Meets(IN.Or(ERR).Or(HUP)) then Enqueue(io1, ev.fd, Read) else io1;
      EnqueueAgrees(io2, ev.fd, Write);
    }
  }

  // ---------------------------------------------------------------------------
  // Persistent executors are never null
  // ---------------------------------------------------------------------------

  predicate HeldAt(e: FdEvents) {
    (!e.readOnce ==> e.reader.Some?) && (!e.writeOnce ==> e.writer.Some?)
  }

  /** The executor that a persistent registration reuses is not null. */
  predicate Held(io: Io) {
    forall fd :: 0 <= fd < |io.fds| ==> HeldAt(io.fds[fd])
  }

  lemma RegisterKeepsHeld(io: Io, fd: nat, kind: EventType, once: bool)
    requires Held(io) && Register(io, fd, kind, once).Some?
    ensures Held(Register(io, fd, kind, once).value.0)
  {
    var grown := io.(fds := Grown(io.fds, fd));
    assert Held(grown);
    if !io.stopped && !kind.Other? {
      assert HeldAt(grown.fds[fd]);
      assert Held(SetExecutor(grown, fd, kind, once));
    }
  }

  lemma WithdrawKeepsHeld(io: Io, first: nat, ev: Polled)
    requires Held(io) && ev.fd < |io.fds| && Withdraw(io, first, ev).Some?
    ensures Held(Withdraw(io, first, ev).value) && |Withdraw(io, first, ev).value.fds| == |io.fds|
  {
    assert HeldAt(io.fds[ev.fd]);
  }

  lemma EnqueueKeepsHeld(io: Io, fd: nat, kind: EventType)
    requires Held(io) && fd < |io.fds| && !kind.Other?
    ensures Held(Enqueue(io, fd, kind)) && |Enqueue(io, fd, kind).fds| == |io.fds|
  {
    assert HeldAt(io.fds[fd]);
  }

  lemma PollEventKeepsHeld(io: Io, first: nat, ev: Polled)
    requires Held(io) && PollEvent(io, first, ev).Some?
    ensures Held(PollEvent(io, first, ev).value)
  {
    if ev.fd != io.pipe {
      WithdrawKeepsHeld(io, first, ev);
      var io1 := Withdraw(io, first, ev).value;
      EnqueueKeepsHeld(io1, ev.fd, Read);
      var io2 := if ev.events.Meets(IN.Or(ERR).Or(HUP)) then Enqueue(io1, ev.fd, Read) else io1;
      EnqueueKeepsHeld(io2, ev.fd, Write);
    }
  }

  lemma {:induction false} PollAllKeepsHeld(io: Io, first: nat, batch: seq<Polled>)
    requires Held(io) && PollAll(io, first, batch).Some?
    ensures Held(PollAll(io, first, batch).value)
    decreases batch
  {
    if batch != [] {
      PollEventKeepsHeld(io, first, batch[0]);
      PollAllKeepsHeld(PollEvent(io, first, batch[0]).value, first, batch[1..]);
    }
  }

  /** An event of a watched descriptor is handled without undefined behaviour or failed call iff it
      carries neither IN nor OUT or the vector has an entry for the first event of the batch. */
  lemma PollEventDefinedExactly(io: Io, first: nat, ev: Polled)
    requires Agrees(io) && Held(io) && ev.fd in io.kernel && ev.fd != io.pipe
    ensures PollEvent(io, first, ev).Some? <==> (ev.events.Meets(IN.Or(OUT)) ==> first < |io.fds|)
  {
    if ev.events.Meets(IN.Or(OUT)) ==> first < |io.fds| {
      if first < |io.fds| { assert HeldAt(io.fds[first]); }
      PollEventAgrees(io, first, ev);
    }
  }

  /** What handling an event of `fd` leaves alone. */
  predicate OnlyAt(io: Io, io': Io, fd: nat) {
    && |io'.fds| == |io.fds| && io'.pipe == io.pipe && io'.stopped == io.stopped
    && (forall f :: f in io.kernel && f != fd ==> f in io'.kernel && io'.kernel[f] == io.kernel[f])
    && (forall f :: 0 <= f < |io.fds| && f != fd ==> io'.fds[f] == io.fds[f])
    && (forall f :: 0 <= f < |io.fds| ==>
          && io'.fds[f].readOnce == io.fds[f].readOnce
          && io'.fds[f].writeOnce == io.fds[f].writeOnce
          && (!io.fds[f].readOnce ==> io'.fds[f].reader == io.fds[f].reader)
          && (!io.fds[f].writeOnce ==> io'.fds[f].writer == io.fds[f].writer))
  }

  lemma WithdrawFrame(io: Io, first: nat, ev: Polled)
    requires ev.fd < |io.fds| && Withdraw(io, first, ev).Some?
    ensures OnlyAt(io, Withdraw(io, first, ev).value, ev.fd)
  {}

  lemma EnqueueFrame(io: Io, fd: nat, kind: EventType)
    requires fd < |io.fds| && !kind.Other?
    ensures OnlyAt(io, Enqueue(io, fd, kind), fd)
  {}

  lemma PollEventFrame(io: Io, first: nat, ev: Polled)
    requires PollEvent(io, first, ev).Some?
    ensures OnlyAt(io, PollEvent(io, first, ev).value, ev.fd)
  {
    if ev.fd != io.pipe {
      WithdrawFrame(io, first, ev);
      var io1 := Withdraw(io, first, ev).value;
      EnqueueFrame(io1, ev.fd, Read);
      var io2 := if ev.events.Meets(IN.Or(ERR).Or(HUP)) then Enqueue(io1, ev.fd, Read) else io1;
      EnqueueFrame(io2, ev.fd, Write);
    }
  }

  /** The batch can be processed: descriptors watched and different, flags readable. */
  predicate Processable(io: Io, first: nat, batch: seq<Polled>) {
    && (forall i :: 0 <= i < |batch| ==>
          && batch[i].fd in io.kernel
          && (batch[i].fd != io.pipe ==> FlagsReadable(io, first, batch[i].events)))
    && (forall i, j :: 0 <= i < j < |batch| ==> batch[i].fd != batch[j].fd)
  }

  lemma ProcessableRest(io: Io, first: nat, batch: seq<Polled>)
    requires batch != [] && Processable(io, first, batch) && PollEvent(io, first, batch[0]).Some?
    ensures Processable(PollEvent(io, first, batch[0]).value, first, batch[1..])
  {
    PollEventFrame(io, first, batch[0]);
    var io' := PollEvent(io, first, batch[0]).value;
    var rest := batch[1..];
    forall i | 0 <= i < |rest|
      ensures rest[i].fd in io'.kernel
      ensures rest[i].fd != io'.pipe ==> FlagsReadable(io', first, rest[i].events)
    {
      assert rest[i] == batch[i + 1];
    }
  }

  lemma {:induction false} PollAllAgrees(io: Io, first: nat, batch: seq<Polled>)
    requires Agrees(io) && Processable(io, first, batch)
    ensures PollAll(io, first, batch).Some?
    ensures Agrees(PollAll(io, first, batch).value)
    ensures PollAll(io, first, batch).value.pipe == io.pipe
    decreases batch
  {
    if batch != [] {
      PollEventAgrees(io, first, batch[0]);
      PollEventFrame(io, first, batch[0]);
      ProcessableRest(io, first, batch);
      PollAllAgrees(PollEvent(io, first, batch[0]).value, first, batch[1..]);
    }
  }

  // ---------------------------------------------------------------------------
  // Runs
  // ---------------------------------------------------------------------------

  datatype Op =
    | RegisterOp(fd: nat, kind: EventType, once: bool)
    | PollOp(batch: seq<Polled>)
    | StopOp

  function Apply(io: Io, op: Op): (r: Option<Io>) {
    match op
    case RegisterOp(fd, kind, once) =>
      var r := Register(io, fd, kind, once);
      if r.None? then None else Some(r.value.0)
    case PollOp(batch) => Poll(io, batch)
    case StopOp => Some(io.(stopped := true))
  }

  /** What callers and the kernel observe: the pipe is not registered, reports are valid. */
  predicate Allowed(io: Io, op: Op) {
    match op
    case RegisterOp(fd, _, _) => fd != io.pipe
    case PollOp(batch) => ValidBatch(io, batch)
    case StopOp => true
  }

  /** The batch starts with the pipe's event, the vector has no entry for the pipe, and a later event
      carries IN or OUT. */
  predicate ConsultsPipeEntry(io: Io, batch: seq<Polled>) {
    && batch != []
    && batch[0].fd == io.pipe >= |io.fds|
    && exists i :: 0 <= i < |batch| && batch[i].fd != io.pipe && batch[i].events.Meets(IN.Or(OUT))
  }

  /** The operations that index outside the vector. */
  predicate Hazard(io: Io, op: Op) {
    match op
    case RegisterOp(fd, kind, _) => !io.stopped && !kind.Other? && |io.fds| <= fd < 2
    case PollOp(batch) => ConsultsPipeEntry(io, batch)
    case StopOp => false
  }

  /** IOManager after initEpoll and initPipe. */
  function Start(pipe: nat): (io: Io) {
    Io([], map[pipe := IN.Or(OUT)], pipe, false, [], 0, map[])
  }

  function After(pipe: nat, ops: seq<Op>): (r: Option<Io>) {
    if ops == [] then Some(Start(pipe))
    else
      var io := After(pipe, ops[..|ops| - 1]);
      if io.None? then None else Apply(io.value, ops[|ops| - 1])
  }

  predicate AllowedRun(pipe: nat, ops: seq<Op>) {
    ops != [] ==>
      var before := ops[..|ops| - 1];
      && AllowedRun(pipe, before)
      && (After(pipe, before).Some? ==> Allowed(After(pipe, before).value, ops[|ops| - 1]))
  }

  /** No operation of the run was a hazard when it was its turn. */
  predicate HazardFree(pipe: nat, ops: seq<Op>) {
    ops != [] ==>
      var before := ops[..|ops| - 1];
      && HazardFree(pipe, before)
      && (After(pipe, before).Some? ==> !Hazard(After(pipe, before).value, ops[|ops| - 1]))
  }

  lemma {:induction false} PollAllUndefined(io: Io, first: nat, batch: seq<Polled>, i: nat)
    requires first >= |io.fds| && i < |batch| && batch[i].fd != io.pipe && batch[i].events.Meets(IN.Or(OUT))
    ensures PollAll(io, first, batch).None?
    decreases batch
  {
    if i > 0 && PollEvent(io, first, batch[0]).Some? {
      PollEventFrame(io, first, batch[0]);
      PollAllUndefined(PollEvent(io, first, batch[0]).value, first, batch[1..], i - 1);
    }
  }

  lemma BatchIsProcessable(io: Io, batch: seq<Polled>)
    requires Agrees(io) && Held(io) && batch != [] && ValidBatch(io, batch) && !ConsultsPipeEntry(io, batch)
    ensures Processable(io, batch[0].fd, batch)
  {
    var first := batch[0].fd;
    forall i | 0 <= i < |batch|
      ensures batch[i].fd in io.kernel
      ensures batch[i].fd != io.pipe ==> FlagsReadable(io, first, batch[i].events)
    {
      assert Reportable(io, batch[i]) && Reportable(io, batch[0]);
      if first < |io.fds| { assert HeldAt(io.fds[first]); }
    }
  }

  /** A poll of valid reports is undefined iff its batch starts with the pipe's event, the vector has
      no entry for the pipe, and a later event carries IN or OUT. */
  lemma PollDefinedExactly(io: Io, batch: seq<Polled>)
    requires Agrees(io) && Held(io) && ValidBatch(io, batch)
    ensures Poll(io, batch).None? <==> ConsultsPipeEntry(io, batch)
    ensures Poll(io, batch).Some? ==> Agrees(Poll(io, batch).value) && Held(Poll(io, batch).value)
  {
    if ConsultsPipeEntry(io, batch) {
      var i :| 0 <= i < |batch| && batch[i].fd != io.pipe && batch[i].events.Meets(IN.Or(OUT));
      PollAllUndefined(io, batch[0].fd, batch, i);
    } else if batch != [] {
      BatchIsProcessable(io, batch);
      PollAllAgrees(io, batch[0].fd, batch);
      PollAllKeepsHeld(io, batch[0].fd, batch);
    }
  }

  lemma ApplyAgrees(io: Io, op: Op)
    requires Agrees(io) && Held(io) && Allowed(io, op)
    ensures Apply(io, op).None? <==> Hazard(io, op)
    ensures Apply(io, op).Some? ==> Agrees(Apply(io, op).value) && Held(Apply(io, op).value)
  {
    match op
    case RegisterOp(fd, kind, once) =>
      RegisterAgrees(io, fd, kind, once);
      if Register(io, fd, kind, once).Some? { RegisterKeepsHeld(io, fd, kind, once); }
    case PollOp(batch) => PollDefinedExactly(io, batch);
    case StopOp =>
      var io' := io.(stopped := true);
      forall f | 0 <= f < |io'.fds| && f != io'.pipe ensures AgreesAt(io', f) { assert AgreesAt(io, f); }
  }

  /** Over every run of registrations and polls the user-space masks equal the kernel's interest
      set, no ADD meets a present descriptor, no MOD or DEL an absent one, and no executor that is
      reused is null; the run is undefined iff it meets a hazard. */
  lemma {:induction false} EveryRunAgrees(pipe: nat, ops: seq<Op>)
    requires AllowedRun(pipe, ops)
    ensures After(pipe, ops).Some? <==> HazardFree(pipe, ops)
    ensures After(pipe, ops).Some? ==> Agrees(After(pipe, ops).value) && Held(After(pipe, ops).value)
  {
    if ops != [] {
      var before := After(pipe, ops[..|ops| - 1]);
      EveryRunAgrees(pipe, ops[..|ops| - 1]);
      if before.Some? { ApplyAgrees(before.value, ops[|ops| - 1]); }
    }
  }

  // ---------------------------------------------------------------------------
  // Delivery of call-once registrations
  // ---------------------------------------------------------------------------

  predicate ArmedAt(e: FdEvents) {
    && e.readOnce && e.writeOnce
    && (e.registered.Meets(IN) <==> e.reader.Some?)
    && (e.registered.Meets(OUT) <==> e.writer.Some?)
  }

  /** Every registration is call-once, and a bit is registered iff its executor is not null. */
  predicate ArmedMatches(io: Io) {
    forall fd :: 0 <= fd < |io.fds| ==> ArmedAt(io.fds[fd])
  }

  predicate SlotHolds(io: Io, fd: nat, kind: EventType)
    requires fd < |io.fds|
  {
    var t := Slot(io.fds[fd], kind);
    t.Some? ==> t.value in io.fates && io.fates[t.value] == Armed(fd, kind)
  }

  predicate InItsSlot(io: Io, t: Ticket)
    requires t in io.fates && io.fates[t].Armed?
  {
    io.fates[t].fd < |io.fds| && Slot(io.fds[io.fates[t].fd], io.fates[t].kind) == Some(t)
  }

  /** A slot holds exactly the registrations recorded as armed there. */
  ghost predicate SlotTickets(io: Io) {
    && (forall fd, kind :: 0 <= fd < |io.fds| ==> SlotHolds(io, fd, kind))
    && (forall t :: t in io.fates && io.fates[t].Armed? ==> InItsSlot(io, t))
  }

  /** The enqueued list holds exactly the registrations recorded as enqueued, each once. */
  ghost predicate LogTickets(io: Io) {
    && (forall i :: 0 <= i < |io.enqueued| && io.enqueued[i].Some? ==>
          io.enqueued[i].value in io.fates && io.fates[io.enqueued[i].value] == Enqueued)
    && (forall t :: t in io.fates && io.fates[t] == Enqueued ==> Some(t) in io.enqueued)
    && (forall i, j :: 0 <= i < j < |io.enqueued| && io.enqueued[i].Some? ==> io.enqueued[i] != io.enqueued[j])
  }

  /** Every registration is in exactly one place: its slot, the enqueued list once, or replaced. */
  ghost predicate Tickets(io: Io) {
    && (forall t :: t in io.fates <==> 0 <= t < io.issued)
    && SlotTickets(io)
    && LogTickets(io)
  }

  lemma EnqueueKeepsSlots(io: Io, fd: nat, kind: EventType)
    requires SlotTickets(io) && fd < |io.fds| && !kind.Other?
    requires io.fds[fd].readOnce && io.fds[fd].writeOnce
    ensures SlotTickets(Enqueue(io, fd, kind))
  {
    var io' := Enqueue(io, fd, kind);
    assert SlotHolds(io, fd, kind);
    forall f, k | 0 <= f < |io'.fds| ensures SlotHolds(io', f, k) {
      assert SlotHolds(io, f, k);
    }
    forall t | t in io'.fates && io'.fates[t].Armed? ensures InItsSlot(io', t) {
      assert InItsSlot(io, t);
    }
  }

  lemma EnqueueKeepsLog(io: Io, fd: nat, kind: EventType)
    requires SlotTickets(io) && LogTickets(io) && fd < |io.fds| && !kind.Other?
    ensures LogTickets(Enqueue(io, fd, kind))
  {
    var io' := Enqueue(io, fd, kind);
    var t := Slot(io.fds[fd], kind);
    assert SlotHolds(io, fd, kind);
    assert io'.enqueued[|io.enqueued|] == t;
    forall u | u in io'.fates && io'.fates[u] == Enqueued ensures Some(u) in io'.enqueued {
      if t != Some(u) { assert Some(u) in io.enqueued; }
    }
  }

  lemma EnqueueKeepsTickets(io: Io, fd: nat, kind: EventType)
    requires Tickets(io) && fd < |io.fds| && !kind.Other?
    requires io.fds[fd].readOnce && io.fds[fd].writeOnce
    ensures Tickets(Enqueue(io, fd, kind))
  {
    assert SlotHolds(io, fd, kind);
    EnqueueKeepsSlots(io, fd, kind);
    EnqueueKeepsLog(io, fd, kind);
  }

  lemma SetExecutorKeepsSlots(io: Io, fd: nat, kind: EventType, once: bool)
    requires Tickets(io) && fd < |io.fds| && !kind.Other?
    ensures SlotTickets(SetExecutor(io, fd, kind, once))
  {
    var io' := SetExecutor(io, fd, kind, once);
    assert io.issued !in io.fates;
    assert SlotHolds(io, fd, kind);
    forall f, k | 0 <= f < |io'.fds| ensures SlotHolds(io', f, k) {
      assert SlotHolds(io, f, k);
    }
    forall t | t in io'.fates && io'.fates[t].Armed? ensures InItsSlot(io', t) {
      if t != io.issued { assert InItsSlot(io, t); }
    }
  }

  lemma SetExecutorKeepsLog(io: Io, fd: nat, kind: EventType, once: bool)
    requires Tickets(io) && fd < |io.fds| && !kind.Other?
    ensures LogTickets(SetExecutor(io, fd, kind, once))
  {
    var io' := SetExecutor(io, fd, kind, once);
    assert SlotHolds(io, fd, kind);
    forall u | u in io'.fates && io'.fates[u] == Enqueued ensures Some(u) in io'.enqueued {
      assert u in io.fates && io.fates[u] == Enqueued;
    }
  }

  lemma SetExecutorKeepsTickets(io: Io, fd: nat, kind: EventType, once: bool)
    requires Tickets(io) && fd < |io.fds| && !kind.Other?
    ensures Tickets(SetExecutor(io, fd, kind, once))
  {
    assert SlotHolds(io, fd, kind);
    SetExecutorKeepsSlots(io, fd, kind, once);
    SetExecutorKeepsLog(io, fd, kind, once);
  }

  /** The three invariants of call-once runs. */
  ghost predicate Once(io: Io) {
    Agrees(io) && ArmedMatches(io) && Tickets(io)
  }

  lemma SameSlotsKeepTickets(io: Io, io': Io)
    requires Tickets(io) && |io'.fds| >= |io.fds|
    requires io'.fates == io.fates && io'.issued == io.issued && io'.enqueued == io.enqueued
    requires forall f :: 0 <= f < |io.fds| ==>
               io'.fds[f].reader == io.fds[f].reader && io'.fds[f].writer == io.fds[f].writer
    requires forall f :: |io.fds| <= f < |io'.fds| ==> io'.fds[f].reader.None? && io'.fds[f].writer.None?
    ensures Tickets(io')
  {
    forall f, k | 0 <= f < |io'.fds| ensures SlotHolds(io', f, k) {
      if f < |io.fds| { assert SlotHolds(io, f, k); }
    }
    forall t | t in io'.fates && io'.fates[t].Armed? ensures InItsSlot(io', t) {
      assert InItsSlot(io, t);
    }
  }

  lemma RegisterKeepsOnce(io: Io, fd: nat, kind: EventType)
    requires Once(io) && fd != io.pipe && Register(io, fd, kind, true).Some?
    ensures Once(Register(io, fd, kind, true).value.0)
  {
    RegisterAgrees(io, fd, kind, true);
    var grown := io.(fds := Grown(io.fds, fd));
    SameSlotsKeepTickets(io, grown);
    assert ArmedMatches(grown);
    if !io.stopped && !kind.Other? {
      var set' := SetExecutor(grown, fd, kind, true);
      var io' := EpAdd(set', fd, Mask(kind)).value;
      SetExecutorKeepsTickets(grown, fd, kind, true);
      SameSlotsKeepTickets(set', io');
      GrowingAgrees(io, fd);
      assert AgreesAt(grown, fd);
      MaskBits(grown.fds[fd].registered, kind);
      assert ArmedAt(grown.fds[fd]);
      assert ArmedAt(io'.fds[fd]);
    }
  }

  /** Without error bits, an event finds exactly the executors its bits ask for. */
  lemma QuietBits(registered: Bits, kernel: Bits, events: Bits, first: FdEvents)
    requires registered.Minus(IN.Or(OUT)) == ZERO && kernel.Minus(ET) == registered
    requires events.Minus(IN.Or(OUT)) == ZERO && events.And(IN.Or(OUT)).Minus(kernel) == ZERO
    requires first.readOnce && first.writeOnce
    ensures var left := LeftEvents(registered, events, first);
            && (events.Meets(IN) ==> registered.Meets(IN))
            && (events.Meets(OUT) ==> registered.Meets(OUT))
            && (left.Meets(IN) <==> registered.Meets(IN) && !events.Meets(IN))
            && (left.Meets(OUT) <==> registered.Meets(OUT) && !events.Meets(OUT))
            && (events.Meets(IN.Or(ERR).Or(HUP)) <==> events.Meets(IN))
            && (events.Meets(OUT.Or(ERR).Or(HUP)) <==> events.Meets(OUT))
  {}

  predicate NoErrors(ev: Polled) { !ev.events.Meets(ERR.Or(HUP)) }

  ghost predicate OnlyNewExecutors(io: Io, io': Io) {
    && |io.enqueued| <= |io'.enqueued|
    && io'.enqueued[..|io.enqueued|] == io.enqueued
    && forall i :: |io.enqueued| <= i < |io'.enqueued| ==> io'.enqueued[i].Some?
  }

  /** Delivering empties exactly the slots whose bits are set, and enqueues what they held. */
  lemma DeliverQuietly(io: Io, ev: Polled)
    requires ev.fd < |io.fds| && io.fds[ev.fd].readOnce && io.fds[ev.fd].writeOnce && NoErrors(ev)
    requires ev.events.Meets(IN) ==> io.fds[ev.fd].reader.Some?
    requires ev.events.Meets(OUT) ==> io.fds[ev.fd].writer.Some?
    ensures var e := io.fds[ev.fd];
            Deliver(io, ev).fds == io.fds[ev.fd := e.(reader := if ev.events.Meets(IN) then None else e.reader,
                                                      writer := if ev.events.Meets(OUT) then None else e.writer)]
    ensures OnlyNewExecutors(io, Deliver(io, ev))
  {}

  lemma PollEventKeepsArmed(io: Io, first: nat, ev: Polled)
    requires Agrees(io) && ArmedMatches(io) && Reportable(io, ev) && NoErrors(ev) && ev.fd != io.pipe
    requires PollEvent(io, first, ev).Some?
    ensures ArmedMatches(PollEvent(io, first, ev).value)
    ensures OnlyNewExecutors(io, PollEvent(io, first, ev).value)
  {
    var f := io.fds[if first < |io.fds| then first else ev.fd];
    assert AgreesAt(io, ev.fd) && ArmedAt(f) && ArmedAt(io.fds[ev.fd]);
    assert ev.events.Minus(IN.Or(OUT)) == ZERO;
    QuietBits(io.fds[ev.fd].registered, io.kernel[ev.fd], ev.events, f);
    WithdrawResult(io, first, ev);
    DeliverQuietly(Withdraw(io, first, ev).value, ev);
    assert ArmedAt(PollEvent(io, first, ev).value.fds[ev.fd]);
  }

  lemma DeliverKeepsTickets(io: Io, ev: Polled)
    requires Tickets(io) && ev.fd < |io.fds| && io.fds[ev.fd].readOnce && io.fds[ev.fd].writeOnce
    ensures Tickets(Deliver(io, ev))
  {
    EnqueueKeepsTickets(io, ev.fd, Read);
    var io1 := if ev.events.Meets(IN.Or(ERR).Or(HUP)) then Enqueue(io, ev.fd, Read) else io;
    EnqueueKeepsTickets(io1, ev.fd, Write);
  }

  lemma WithdrawKeepsTickets(io: Io, first: nat, ev: Polled)
    requires Tickets(io) && ev.fd < |io.fds| && Withdraw(io, first, ev).Some?
    ensures Tickets(Withdraw(io, first, ev).value)
    ensures |Withdraw(io, first, ev).value.fds| == |io.fds|
    ensures Withdraw(io, first, ev).value.fds[ev.fd].readOnce == io.fds[ev.fd].readOnce
    ensures Withdraw(io, first, ev).value.fds[ev.fd].writeOnce == io.fds[ev.fd].writeOnce
  {
    SameSlotsKeepTickets(io, Withdraw(io, first, ev).value);
  }

  lemma PollEventKeepsTickets(io: Io, first: nat, ev: Polled)
    requires ArmedMatches(io) && Tickets(io) && ev.fd != io.pipe
    requires PollEvent(io, first, ev).Some?
    ensures Tickets(PollEvent(io, first, ev).value)
  {
    assert ArmedAt(io.fds[ev.fd]);
    WithdrawKeepsTickets(io, first, ev);
    DeliverKeepsTickets(Withdraw(io, first, ev).value, ev);
  }

  lemma PollEventKeepsOnce(io: Io, first: nat, ev: Polled)
    requires Once(io) && Reportable(io, ev) && NoErrors(ev)
    requires ev.fd != io.pipe ==> FlagsReadable(io, first, ev.events)
    ensures PollEvent(io, first, ev).Some?
    ensures Once(PollEvent(io, first, ev).value)
    ensures OnlyNewExecutors(io, PollEvent(io, first, ev).value)
  {
    PollEventAgrees(io, first, ev);
    if ev.fd != io.pipe {
      PollEventKeepsArmed(io, first, ev);
      PollEventKeepsTickets(io, first, ev);
    }
  }

  lemma ReportableRest(io: Io, first: nat, batch: seq<Polled>)
    requires batch != [] && ValidBatch(io, batch) && PollEvent(io, first, batch[0]).Some?
    ensures ValidBatch(PollEvent(io, first, batch[0]).value, batch[1..])
  {
    PollEventFrame(io, first, batch[0]);
    var io' := PollEvent(io, first, batch[0]).value;
    forall i | 0 <= i < |batch[1..]| ensures Reportable(io', batch[1..][i]) {
      assert batch[1..][i] == batch[i + 1] && Reportable(io, batch[i + 1]);
    }
  }

  lemma {:induction false} PollAllKeepsOnce(io: Io, first: nat, batch: seq<Polled>)
    requires Once(io) && ValidBatch(io, batch) && Processable(io, first, batch)
    requires forall i :: 0 <= i < |batch| ==> NoErrors(batch[i])
    ensures PollAll(io, first, batch).Some?
    ensures Once(PollAll(io, first, batch).value)
    ensures OnlyNewExecutors(io, PollAll(io, first, batch).value)
    decreases batch
  {
    if batch != [] {
      PollEventKeepsOnce(io, first, batch[0]);
      ProcessableRest(io, first, batch);
      ReportableRest(io, first, batch);
      var io1 := PollEvent(io, first, batch[0]).value;
      PollAllKeepsOnce(io1, first, batch[1..]);
      var io' := PollAll(io, first, batch).value;
      assert io'.enqueued[..|io.enqueued|] == io'.enqueued[..|io1.enqueued|][..|io.enqueued|];
      forall i | |io.enqueued| <= i < |io'.enqueued| ensures io'.enqueued[i].Some? {
        if i < |io1.enqueued| { assert io'.enqueued[i] == io'.enqueued[..|io1.enqueued|][i] == io1.enqueued[i]; }
      }
    }
  }

  /** Registrations are call-once and polls report no error conditions. */
  predicate CallOnce(op: Op) {
    match op
    case RegisterOp(_, _, once) => once
    case PollOp(batch) => forall i :: 0 <= i < |batch| ==> NoErrors(batch[i])
    case StopOp => true
  }

  lemma ApplyKeepsOnce(io: Io, op: Op)
    requires Once(io) && Allowed(io, op) && CallOnce(op) && Apply(io, op).Some?
    ensures Once(Apply(io, op).value)
    ensures OnlyNewExecutors(io, Apply(io, op).value)
  {
    OnceIsHeld(io);
    ApplyAgrees(io, op);
    match op
    case RegisterOp(fd, kind, _) => RegisterKeepsOnce(io, fd, kind);
    case PollOp(batch) =>
      if batch != [] {
        BatchIsProcessable(io, batch);
        PollAllKeepsOnce(io, batch[0].fd, batch);
      }
    case StopOp => SameSlotsKeepTickets(io, io.(stopped := true));
  }

  /** Over every run of call-once registrations and error-free polls: a bit is registered iff its
      executor is not null, every registration has exactly one fate and is enqueued at most once, and
      no null executor is ever enqueued. */
  lemma {:induction false} EveryRunDeliversOnce(pipe: nat, ops: seq<Op>)
    requires AllowedRun(pipe, ops) && After(pipe, ops).Some?
    requires forall i :: 0 <= i < |ops| ==> CallOnce(ops[i])
    ensures Once(After(pipe, ops).value)
    ensures forall i :: 0 <= i < |After(pipe, ops).value.enqueued| ==> After(pipe, ops).value.enqueued[i].Some?
  {
    if ops != [] {
      var before := ops[..|ops| - 1];
      EveryRunDeliversOnce(pipe, before);
      var io := After(pipe, before).value;
      ApplyKeepsOnce(io, ops[|ops| - 1]);
      var io' := After(pipe, ops).value;
      forall i | 0 <= i < |io'.enqueued| ensures io'.enqueued[i].Some? {
        if i < |io.enqueued| { assert io'.enqueued[i] == io'.enqueued[..|io.enqueued|][i]; }
      }
    }
  }

  // ---------------------------------------------------------------------------
  // What every call does
  // ---------------------------------------------------------------------------

  /** The executors an event hands to addExecutor, in terms of its own bits. */
  function Deliveries(e: FdEvents, events: Bits): (r: seq<Option<Ticket>>) {
    (if events.rd || events.err || events.hup then [e.reader] else [])
    + (if events.wr || events.err || events.hup then [e.writer] else [])
  }

  lemma MeetsFields(events: Bits)
    ensures events.Meets(IN) <==> events.rd
    ensures events.Meets(OUT) <==> events.wr
    ensures events.Meets(IN.Or(OUT)) <==> events.rd || events.wr
    ensures events.Meets(IN.Or(ERR).Or(HUP)) <==> events.rd || events.err || events.hup
    ensures events.Meets(OUT.Or(ERR).Or(HUP)) <==> events.wr || events.err || events.hup
  {}

  /** Every handled event, in any state: a side that is reported, or an error condition, enqueues the
      executor of that side, call-once or persistent; the executor is forgotten iff it is call-once. */
  lemma DeliverEffect(io: Io, ev: Polled)
    requires ev.fd < |io.fds|
    ensures var e, io', ev' := io.fds[ev.fd], Deliver(io, ev), ev.events;
            && io'.enqueued == io.enqueued + Deliveries(e, ev')
            && |io'.fds| == |io.fds|
            && io'.fds[ev.fd].reader == (if (ev'.rd || ev'.err || ev'.hup) && e.readOnce then None else e.reader)
            && io'.fds[ev.fd].writer == (if (ev'.wr || ev'.err || ev'.hup) && e.writeOnce then None else e.writer)
            && io'.fds[ev.fd].registered == e.registered
            && io'.kernel == io.kernel
  {
    MeetsFields(ev.events);
  }

  /** What stays registered: a reported side is withdrawn iff the first event's descriptor is call-once
      on that side, and nothing else is.  The kernel keeps the descriptor edge-triggered iff nothing
      was withdrawn. */
  lemma WithdrawEffect(io: Io, first: nat, ev: Polled)
    requires Agrees(io) && ev.fd < |io.fds| && ev.fd != io.pipe && ev.fd in io.kernel
    requires Withdraw(io, first, ev).Some?
    ensures var e, io' := io.fds[ev.fd], Withdraw(io, first, ev).value;
            && |io'.fds| == |io.fds| && io'.enqueued == io.enqueued
            && io'.fds[ev.fd].reader == e.reader && io'.fds[ev.fd].writer == e.writer
            && io'.fds[ev.fd].readOnce == e.readOnce && io'.fds[ev.fd].writeOnce == e.writeOnce
            && (ev.events.rd || ev.events.wr ==> first < |io.fds|)
            && (io'.fds[ev.fd].registered.rd <==> e.registered.rd && !(ev.events.rd && io.fds[first].readOnce))
            && (io'.fds[ev.fd].registered.wr <==> e.registered.wr && !(ev.events.wr && io.fds[first].writeOnce))
            && (ev.fd in io'.kernel ==>
                  io'.kernel[ev.fd].et == (io.kernel[ev.fd].et && io'.fds[ev.fd].registered == e.registered))
  {
    assert AgreesAt(io, ev.fd);
    MeetsFields(ev.events);
    WithdrawResult(io, first, ev);
  }

  /** One event as a whole. */
  lemma PollEventEnqueues(io: Io, first: nat, ev: Polled)
    requires ev.fd != io.pipe && PollEvent(io, first, ev).Some?
    ensures PollEvent(io, first, ev).value.enqueued == io.enqueued + Deliveries(io.fds[ev.fd], ev.events)
  {
    WithdrawResult(io, first, ev);
    DeliverEffect(Withdraw(io, first, ev).value, ev);
  }

  /** The executors one event of a batch hands over: none for the pipe. */
  function EventDeliveries(io: Io, ev: Polled): (r: seq<Option<Ticket>>) {
    if ev.fd == io.pipe || ev.fd >= |io.fds| then [] else Deliveries(io.fds[ev.fd], ev.events)
  }

  /** The executors a whole batch hands over, event by event, as they were stored before it. */
  function BatchDeliveries(io: Io, batch: seq<Polled>): (r: seq<Option<Ticket>>)
    decreases batch
  {
    if batch == [] then [] else EventDeliveries(io, batch[0]) + BatchDeliveries(io, batch[1..])
  }

  lemma EventEnqueues(io: Io, first: nat, ev: Polled)
    requires PollEvent(io, first, ev).Some?
    ensures PollEvent(io, first, ev).value.enqueued == io.enqueued + EventDeliveries(io, ev)
  {
    if ev.fd == io.pipe { assert io.enqueued + [] == io.enqueued; } else { PollEventEnqueues(io, first, ev); }
  }

  lemma {:induction false} BatchDeliveriesFrame(io: Io, io': Io, batch: seq<Polled>)
    requires io'.pipe == io.pipe && |io'.fds| == |io.fds|
    requires forall i :: 0 <= i < |batch| && batch[i].fd < |io.fds| ==> io'.fds[batch[i].fd] == io.fds[batch[i].fd]
    ensures BatchDeliveries(io', batch) == BatchDeliveries(io, batch)
    decreases batch
  {
    if batch != [] {
      assert batch[0].fd < |io.fds| ==> io'.fds[batch[0].fd] == io.fds[batch[0].fd];
      forall i | 0 <= i < |batch[1..]| && batch[1..][i].fd < |io.fds|
        ensures io'.fds[batch[1..][i].fd] == io.fds[batch[1..][i].fd]
      {
        assert batch[1..][i] == batch[i + 1];
      }
      BatchDeliveriesFrame(io, io', batch[1..]);
    }
  }

  predicate DistinctDescriptors(batch: seq<Polled>) {
    forall i, j :: 0 <= i < j < |batch| ==> batch[i].fd != batch[j].fd
  }

  lemma RestIsUntouched(io: Io, first: nat, batch: seq<Polled>)
    requires batch != [] && DistinctDescriptors(batch) && PollEvent(io, first, batch[0]).Some?
    ensures BatchDeliveries(PollEvent(io, first, batch[0]).value, batch[1..]) == BatchDeliveries(io, batch[1..])
    ensures DistinctDescriptors(batch[1..])
  {
    var io1 := PollEvent(io, first, batch[0]).value;
    PollEventFrame(io, first, batch[0]);
    forall i | 0 <= i < |batch[1..]| && batch[1..][i].fd < |io.fds|
      ensures io1.fds[batch[1..][i].fd] == io.fds[batch[1..][i].fd]
    {
      assert batch[1..][i] == batch[i + 1] && batch[0].fd != batch[i + 1].fd;
    }
    BatchDeliveriesFrame(io, io1, batch[1..]);
  }

  lemma Queued(a: seq<Option<Ticket>>, b: seq<Option<Ticket>>, c: seq<Option<Ticket>>)
    ensures (a + b) + c == a + (b + c)
    ensures a + [] == a
  {}

  lemma {:induction false} PollAllEnqueues(io: Io, first: nat, batch: seq<Polled>)
    requires PollAll(io, first, batch).Some? && DistinctDescriptors(batch)
    ensures PollAll(io, first, batch).value.enqueued == io.enqueued + BatchDeliveries(io, batch)
    decreases batch
  {
    if batch == [] {
      Queued(io.enqueued, [], []);
    } else {
      EventEnqueues(io, first, batch[0]);
      RestIsUntouched(io, first, batch);
      PollAllEnqueues(PollEvent(io, first, batch[0]).value, first, batch[1..]);
      Queued(io.enqueued, EventDeliveries(io, batch[0]), BatchDeliveries(io, batch[1..]));
    }
  }

  /** A poll hands over exactly the executors its events report, in the order of the batch, reader
      before writer, whether call-once or persistent. */
  lemma PollEnqueuesExactly(io: Io, batch: seq<Polled>)
    requires ValidBatch(io, batch) && Poll(io, batch).Some?
    ensures Poll(io, batch).value.enqueued == io.enqueued + BatchDeliveries(io, batch)
  {
    if batch == [] { assert io.enqueued + [] == io.enqueued; } else { PollAllEnqueues(io, batch[0].fd, batch); }
  }

  /** registerEvent returns true iff the manager is not stopped and the kind is read or write; then the
      slot of that kind holds the new registration with the given flag, the other side is untouched,
      its bit is registered, and the kernel watches the descriptor edge-triggered iff it did not
      watch it before. */
  lemma RegisterEffect(io: Io, fd: nat, kind: EventType, once: bool)
    requires Agrees(io) && fd != io.pipe && Register(io, fd, kind, once).Some?
    ensures var (io', ok) := Register(io, fd, kind, once).value;
            && (ok <==> !io.stopped && (kind == Read || kind == Write))
            && (io.stopped ==> io' == io)
            && (!ok ==> io'.kernel == io.kernel && io'.enqueued == io.enqueued && io'.issued == io.issued)
            && (ok ==>
                  var e := if fd < |io.fds| then io.fds[fd] else NO_EVENTS;
                  && fd < |io'.fds| && fd in io'.kernel && io'.issued == io.issued + 1
                  && io'.enqueued == io.enqueued
                  && io'.fds[fd] == (if kind == Read
                                     then e.(reader := Some(io.issued), readOnce := once,
                                             registered := e.registered.(rd := true))
                                     else e.(writer := Some(io.issued), writeOnce := once,
                                             registered := e.registered.(wr := true)))
                  && (io'.kernel[fd].et <==> fd !in io.kernel))
  {
    if !io.stopped && !kind.Other? {
      var grown := io.(fds := Grown(io.fds, fd));
      GrowingAgrees(io, fd);
      assert AgreesAt(grown, fd);
      EpAddResult(SetExecutor(grown, fd, kind, once), fd, Mask(kind));
    }
  }

  // ---------------------------------------------------------------------------
  // Fates are final
  // ---------------------------------------------------------------------------

  /** A registration that was enqueued or replaced in `io` has the same fate in `io'`. */
  ghost predicate FatesFinal(io: Io, io': Io) {
    forall t :: t in io.fates && !io.fates[t].Armed? ==> t in io'.fates && io'.fates[t] == io.fates[t]
  }

  lemma EnqueueIsFinal(io: Io, fd: nat, kind: EventType)
    requires SlotTickets(io) && fd < |io.fds| && !kind.Other?
    ensures FatesFinal(io, Enqueue(io, fd, kind))
  {
    assert SlotHolds(io, fd, kind);
  }

  lemma PollEventIsFinal(io: Io, first: nat, ev: Polled)
    requires ArmedMatches(io) && Tickets(io) && PollEvent(io, first, ev).Some?
    ensures FatesFinal(io, PollEvent(io, first, ev).value)
  {
    if ev.fd != io.pipe {
      assert ArmedAt(io.fds[ev.fd]);
      WithdrawKeepsTickets(io, first, ev);
      WithdrawResult(io, first, ev);
      var io1 := Withdraw(io, first, ev).value;
      EnqueueIsFinal(io1, ev.fd, Read);
      EnqueueKeepsTickets(io1, ev.fd, Read);
      var io2 := if ev.events.Meets(IN.Or(ERR).Or(HUP)) then Enqueue(io1, ev.fd, Read) else io1;
      EnqueueIsFinal(io2, ev.fd, Write);
    }
  }

  lemma {:induction false} PollAllIsFinal(io: Io, first: nat, batch: seq<Polled>)
    requires Once(io) && ValidBatch(io, batch) && Processable(io, first, batch)
    requires forall i :: 0 <= i < |batch| ==> NoErrors(batch[i])
    ensures PollAll(io, first, batch).Some? && FatesFinal(io, PollAll(io, first, batch).value)
    decreases batch
  {
    if batch != [] {
      PollEventKeepsOnce(io, first, batch[0]);
      PollEventIsFinal(io, first, batch[0]);
      ProcessableRest(io, first, batch);
      ReportableRest(io, first, batch);
      PollAllIsFinal(PollEvent(io, first, batch[0]).value, first, batch[1..]);
    }
  }

  lemma RegisterIsFinal(io: Io, fd: nat, kind: EventType)
    requires Once(io) && Register(io, fd, kind, true).Some?
    ensures FatesFinal(io, Register(io, fd, kind, true).value.0)
  {
    if !io.stopped && !kind.Other? {
      var grown := io.(fds := Grown(io.fds, fd));
      SameSlotsKeepTickets(io, grown);
      assert SlotHolds(grown, fd, kind);
      EpAddResult(SetExecutor(grown, fd, kind, true), fd, Mask(kind));
    }
  }

  lemma OnceIsHeld(io: Io)
    requires Once(io)
    ensures Held(io)
  {
    forall fd | 0 <= fd < |io.fds| ensures HeldAt(io.fds[fd]) { assert ArmedAt(io.fds[fd]); }
  }

  lemma ApplyIsFinal(io: Io, op: Op)
    requires Once(io) && Allowed(io, op) && CallOnce(op) && Apply(io, op).Some?
    ensures FatesFinal(io, Apply(io, op).value)
  {
    match op
    case RegisterOp(fd, kind, _) => RegisterIsFinal(io, fd, kind);
    case PollOp(batch) =>
      if batch != [] {
        OnceIsHeld(io);
        ApplyAgrees(io, op);
        BatchIsProcessable(io, batch);
        PollAllIsFinal(io, batch[0].fd, batch);
      }
    case StopOp =>
  }

  lemma {:induction false} AllowedPrefix(pipe: nat, ops: seq<Op>, more: seq<Op>)
    requires AllowedRun(pipe, ops + more) && After(pipe, ops + more).Some?
    ensures AllowedRun(pipe, ops) && After(pipe, ops).Some?
    decreases |more|
  {
    if more == [] {
      assert ops + more == ops;
    } else {
      assert (ops + more)[..|ops + more| - 1] == ops + more[..|more| - 1];
      AllowedPrefix(pipe, ops, more[..|more| - 1]);
    }
  }

  /** Whatever follows in a run of call-once registrations and error-free polls, a registration that
      was replaced is never enqueued, and one that was enqueued stays so and is never replaced. */
  lemma {:induction false} FatesAreFinal(pipe: nat, ops: seq<Op>, more: seq<Op>)
    requires AllowedRun(pipe, ops + more) && After(pipe, ops + more).Some?
    requires forall i :: 0 <= i < |ops + more| ==> CallOnce((ops + more)[i])
    ensures After(pipe, ops).Some? && FatesFinal(After(pipe, ops).value, After(pipe, ops + more).value)
    decreases |more|
  {
    AllowedPrefix(pipe, ops, more);
    if more == [] {
      assert ops + more == ops;
    } else {
      var all := ops + more;
      var before := ops + more[..|more| - 1];
      assert all[..|all| - 1] == before;
      assert forall i :: 0 <= i < |before| ==> before[i] == all[i];
      FatesAreFinal(pipe, ops, more[..|more| - 1]);
      EveryRunDeliversOnce(pipe, before);
      ApplyIsFinal(After(pipe, before).value, all[|all| - 1]);
    }
  }

  // ---------------------------------------------------------------------------
  // Exactly where the code departs from the intent
  // ---------------------------------------------------------------------------

  /** With an error condition both executors are handed over, and a slot is emptied iff it is
      call-once. */
  lemma ErrorDelivery(io: Io, ev: Polled)
    requires ev.fd < |io.fds| && !NoErrors(ev)
    ensures var e, io' := io.fds[ev.fd], Deliver(io, ev);
            && io'.enqueued == io.enqueued + [e.reader, e.writer]
            && io'.fds == io.fds[ev.fd := e.(reader := if e.readOnce then None else e.reader,
                                             writer := if e.writeOnce then None else e.writer)]
  {}

  /** With call-once flags everything the event carries is withdrawn. */
  lemma ErrorWithdrawal(io: Io, first: nat, ev: Polled)
    requires ev.fd < |io.fds| && Withdraw(io, first, ev).Some?
    requires first < |io.fds| ==> io.fds[first].readOnce && io.fds[first].writeOnce
    requires io.fds[ev.fd].registered.Minus(IN.Or(OUT)) == ZERO
    ensures var io' := Withdraw(io, first, ev).value;
            io'.fds == io.fds[ev.fd := io.fds[ev.fd].(registered := io.fds[ev.fd].registered.Minus(ev.events))]
  {
    var before := io.fds[ev.fd].registered;
    if first < |io.fds| {
      assert LeftEvents(before, ev.events, io.fds[first]) == before.Minus(ev.events);
    } else {
      assert !ev.events.Meets(IN.Or(OUT));
      assert before.Minus(ev.events) == before;
    }
    WithdrawResult(io, first, ev);
  }

  /** Every event with an error condition that is handled at all enqueues both executors of its
      descriptor, null ones included. */
  lemma ErrorEnqueuesBoth(io: Io, first: nat, ev: Polled)
    requires !NoErrors(ev) && ev.fd != io.pipe && PollEvent(io, first, ev).Some?
    ensures PollEvent(io, first, ev).value.enqueued
            == io.enqueued + [io.fds[ev.fd].reader, io.fds[ev.fd].writer]
  {
    WithdrawResult(io, first, ev);
    ErrorDelivery(Withdraw(io, first, ev).value, ev);
  }

  /** An event with an error condition, in any reachable state: it is handled iff it carries neither IN
      nor OUT or the first event has an entry, and then both executors are enqueued.  Where bits and
      executors matched they still match iff the event carried every registered bit. */
  lemma ErrorEventExactly(io: Io, first: nat, ev: Polled)
    requires Agrees(io) && Held(io) && Reportable(io, ev) && !NoErrors(ev) && ev.fd != io.pipe
    ensures PollEvent(io, first, ev).Some? <==> (ev.events.Meets(IN.Or(OUT)) ==> first < |io.fds|)
    ensures PollEvent(io, first, ev).Some? ==>
              && PollEvent(io, first, ev).value.enqueued
                 == io.enqueued + [io.fds[ev.fd].reader, io.fds[ev.fd].writer]
              && (ArmedMatches(io) ==>
                    (ArmedMatches(PollEvent(io, first, ev).value)
                     <==> io.fds[ev.fd].registered.Minus(ev.events) == ZERO))
  {
    PollEventDefinedExactly(io, first, ev);
    if PollEvent(io, first, ev).Some? {
      ErrorEnqueuesBoth(io, first, ev);
      if ArmedMatches(io) { ErrorEventEffect(io, first, ev); }
    }
  }

  lemma ErrorEventEffect(io: Io, first: nat, ev: Polled)
    requires Agrees(io) && ArmedMatches(io) && Reportable(io, ev) && !NoErrors(ev) && ev.fd != io.pipe
    requires PollEvent(io, first, ev).Some?
    ensures ArmedMatches(PollEvent(io, first, ev).value)
            <==> io.fds[ev.fd].registered.Minus(ev.events) == ZERO
  {
    assert ArmedAt(io.fds[ev.fd]) && AgreesAt(io, ev.fd);
    if first < |io.fds| { assert ArmedAt(io.fds[first]); }
    ErrorWithdrawal(io, first, ev);
    ErrorDelivery(Withdraw(io, first, ev).value, ev);
    var io' := PollEvent(io, first, ev).value;
    assert io'.fds[ev.fd] == io.fds[ev.fd].(registered := io.fds[ev.fd].registered.Minus(ev.events),
                                            reader := None, writer := None);
    assert ArmedAt(io'.fds[ev.fd]) <==> io.fds[ev.fd].registered.Minus(ev.events) == ZERO;
  }

  lemma KeepBits(registered: Bits, events: Bits, first: FdEvents)
    ensures var left := LeftEvents(registered, events, first);
            && (registered.Meets(IN) && events.Meets(IN) ==> (left.Meets(IN) <==> !first.readOnce))
            && (registered.Meets(OUT) && events.Meets(OUT) ==> (left.Meets(OUT) <==> !first.writeOnce))
  {}

  /** What delivering leaves in the slots: a reported side keeps its executor iff it is persistent. */
  lemma DeliveredSlots(io: Io, ev: Polled)
    requires ev.fd < |io.fds| && HeldAt(io.fds[ev.fd])
    ensures var e, e' := io.fds[ev.fd], Deliver(io, ev).fds[ev.fd];
            && |Deliver(io, ev).fds| == |io.fds| && e'.registered == e.registered
            && (ev.events.Meets(IN) ==> (e'.reader.Some? <==> !e.readOnce))
            && (ev.events.Meets(OUT) ==> (e'.writer.Some? <==> !e.writeOnce))
  {}

  /** A delivered event stays registered iff the registration of the first event of the batch is
      persistent.  So bit and executor still match iff both flags are equal: a call-once registration
      behind a persistent one keeps its bit and loses its executor, and a persistent one behind a
      call-once one keeps its executor and loses its bit. */
  lemma PersistenceFollowsTheFirstEvent(io: Io, first: nat, ev: Polled)
    requires Agrees(io) && Held(io) && Reportable(io, ev) && ev.fd != io.pipe && PollEvent(io, first, ev).Some?
    ensures ev.events.Meets(IN) ==>
              var e, e' := io.fds[ev.fd], PollEvent(io, first, ev).value.fds[ev.fd];
              && (e'.registered.Meets(IN) <==> !io.fds[first].readOnce)
              && ((e'.registered.Meets(IN) <==> e'.reader.Some?) <==> e.readOnce == io.fds[first].readOnce)
    ensures ev.events.Meets(OUT) ==>
              var e, e' := io.fds[ev.fd], PollEvent(io, first, ev).value.fds[ev.fd];
              && (e'.registered.Meets(OUT) <==> !io.fds[first].writeOnce)
              && ((e'.registered.Meets(OUT) <==> e'.writer.Some?) <==> e.writeOnce == io.fds[first].writeOnce)
  {
    assert AgreesAt(io, ev.fd) && HeldAt(io.fds[ev.fd]);
    ReportedBits(io.fds[ev.fd].registered, io.kernel[ev.fd], ev.events);
    if first < |io.fds| { KeepBits(io.fds[ev.fd].registered, ev.events, io.fds[first]); }
    WithdrawResult(io, first, ev);
    DeliveredSlots(Withdraw(io, first, ev).value, ev);
  }

  lemma ReportedBits(registered: Bits, kernel: Bits, events: Bits)
    requires kernel.Minus(ET) == registered && events.And(IN.Or(OUT)).Minus(kernel) == ZERO
    ensures (events.Meets(IN) ==> registered.Meets(IN)) && (events.Meets(OUT) ==> registered.Meets(OUT))
  {}

  /** removeEvent as written: it asks the kernel for the bits of `events` that are not registered
      and never stores the user-space mask. */
  function Remove(io: Io, fd: nat, events: Bits): (r: Option<Io>) {
    if fd >= |io.fds| || !io.fds[fd].registered.Meets(events) then Some(io)
    else
      var dst := events.Minus(io.fds[fd].registered);
      var k := if dst != ZERO then EpollCtl(io.kernel, Mod, fd, dst) else EpollCtl(io.kernel, Del, fd, ET);
      if k.None? then None
      else
        var e := io.fds[fd];
        var e1 := if !dst.Meets(IN) then e.(reader := None) else e;
        var e2 := if !dst.Meets(OUT) then e1.(writer := None) else e1;
        Some(io.(kernel := k.value, fds := io.fds[fd := e2]))
  }

  lemma RemoveBits(registered: Bits, events: Bits)
    requires registered.Minus(IN.Or(OUT)) == ZERO && registered.Meets(events)
    ensures registered != ZERO && events.Minus(registered).Minus(ET) != registered
  {}

  /** removeEvent keeps the masks in agreement iff none of the given events is registered, that is,
      iff it has nothing to do. */
  lemma RemoveAgreesOnlyWhenIdle(io: Io, fd: nat, events: Bits)
    requires Agrees(io) && fd != io.pipe
    ensures Remove(io, fd, events).Some?
    ensures Agrees(Remove(io, fd, events).value) <==> fd >= |io.fds| || !io.fds[fd].registered.Meets(events)
  {
    if fd < |io.fds| && io.fds[fd].registered.Meets(events) {
      assert AgreesAt(io, fd);
      RemoveBits(io.fds[fd].registered, events);
      assert !AgreesAt(Remove(io, fd, events).value, fd);
    }
  }

  /** What removeEvent does, in terms of bits: with nothing to remove, nothing; otherwise it asks the
      kernel for the given bits that are not registered, so that removing registered events stops all
      of them, keeps the user-space mask, and forgets both executors unless an unregistered bit was
      given for them. */
  lemma RemoveEffect(io: Io, fd: nat, events: Bits)
    requires Agrees(io) && fd != io.pipe && fd < |io.fds|
    ensures Remove(io, fd, events).Some?
    ensures var e, io' := io.fds[fd], Remove(io, fd, events).value;
            if !(e.registered.rd && events.rd) && !(e.registered.wr && events.wr) then io' == io
            else && |io'.fds| == |io.fds| && io'.fds[fd].registered == e.registered
                 && (events.Minus(e.registered) == ZERO ==> fd !in io'.kernel)
                 && (events.Minus(e.registered) != ZERO ==>
                       fd in io'.kernel && io'.kernel[fd] == events.Minus(e.registered))
                 && io'.fds[fd].reader == (if events.rd && !e.registered.rd then e.reader else None)
                 && io'.fds[fd].writer == (if events.wr && !e.registered.wr then e.writer else None)
  {
    assert AgreesAt(io, fd);
    RemoveMeets(io.fds[fd].registered, events);
    MeetsFields(events.Minus(io.fds[fd].registered));
  }

  lemma RemoveMeets(registered: Bits, events: Bits)
    requires registered.Minus(IN.Or(OUT)) == ZERO
    ensures registered.Meets(events) <==> (registered.rd && events.rd) || (registered.wr && events.wr)
  {}

  /** The results of EpAdd and Withdraw with the kernel call spelled out. */
  lemma EpAddResult(io: Io, fd: nat, mask: Bits)
    requires fd < |io.fds| && EpAdd(io, fd, mask).Some?
    ensures io.fds[fd].registered != ZERO <==> fd in io.kernel
    ensures var dst := io.fds[fd].registered.Or(mask);
            EpAdd(io, fd, mask).value
            == io.(kernel := io.kernel[fd := if io.fds[fd].registered != ZERO then dst else dst.Or(ET)],
                   fds := io.fds[fd := io.fds[fd].(registered := dst)])
  {}

  lemma WithdrawResult(io: Io, first: nat, ev: Polled)
    requires ev.fd < |io.fds| && Withdraw(io, first, ev).Some?
    ensures var before := io.fds[ev.fd].registered;
            var left := if first < |io.fds| then LeftEvents(before, ev.events, io.fds[first]) else before;
            && (left == before ==> Withdraw(io, first, ev).value == io)
            && (left != before ==>
                  && ev.fd in io.kernel
                  && Withdraw(io, first, ev).value
                     == io.(kernel := if left != ZERO then io.kernel[ev.fd := left] else io.kernel - {ev.fd},
                            fds := io.fds[ev.fd := io.fds[ev.fd].(registered := left)]))
  {}

  // ---------------------------------------------------------------------------
  // Runs that meet the departures
  // ---------------------------------------------------------------------------

  lemma AfterNext(pipe: nat, ops: seq<Op>, op: Op)
    requires After(pipe, ops).Some?
    ensures After(pipe, ops + [op]) == Apply(After(pipe, ops).value, op)
    ensures AllowedRun(pipe, ops) && Allowed(After(pipe, ops).value, op) ==> AllowedRun(pipe, ops + [op])
  {
    assert (ops + [op])[..|ops|] == ops;
  }

  lemma PollOne(io: Io, first: nat, ev: Polled)
    ensures PollAll(io, first, [ev]) == PollEvent(io, first, ev)
  {
    assert [ev][0] == ev && [ev][1..] == [];
  }

  /** The manager after a first registration of `fd` for reading. */
  function Registered(pipe: nat, fd: nat, once: bool): (io: Io)
    requires fd >= 2
  {
    Start(pipe).(fds := Blank(fd * 3 / 2)[fd := FdEvents(IN, once, true, Some(0), None)],
                 kernel := map[pipe := IN.Or(OUT), fd := IN.Or(ET)],
                 issued := 1,
                 fates := map[0 := Armed(fd, Read)])
  }

  lemma RegisteredIsReachable(pipe: nat, fd: nat, once: bool)
    requires fd >= 2 && pipe >= fd * 3 / 2
    ensures AllowedRun(pipe, [RegisterOp(fd, Read, once)])
    ensures After(pipe, [RegisterOp(fd, Read, once)]) == Some(Registered(pipe, fd, once))
    ensures Agrees(Registered(pipe, fd, once)) && Held(Registered(pipe, fd, once))
  {
    var op := RegisterOp(fd, Read, once);
    AfterNext(pipe, [], op);
    assert [] + [op] == [op];
    var grown := Start(pipe).(fds := Blank(fd * 3 / 2));
    assert Grown([], fd) == Blank(fd * 3 / 2);
    var set' := SetExecutor(grown, fd, Read, once);
    assert EpAdd(set', fd, IN).value == Registered(pipe, fd, once);
    EveryRunAgrees(pipe, [op]);
  }

  /** A descriptor below 2 registered first indexes outside the vector. */
  lemma LowDescriptorIsUndefined(pipe: nat, fd: nat)
    requires fd < 2 && fd != pipe
    ensures AllowedRun(pipe, [RegisterOp(fd, Read, true)]) && After(pipe, [RegisterOp(fd, Read, true)]).None?
  {
    AfterNext(pipe, [], RegisterOp(fd, Read, true));
    assert [] + [RegisterOp(fd, Read, true)] == [RegisterOp(fd, Read, true)];
  }

  /** Removing the event of a registered descriptor breaks the agreement. */
  lemma RemovingBreaksAgreement(pipe: nat, fd: nat)
    requires fd >= 2 && pipe >= fd * 3 / 2
    ensures After(pipe, [RegisterOp(fd, Read, true)]) == Some(Registered(pipe, fd, true))
    ensures Remove(Registered(pipe, fd, true), fd, IN).Some?
    ensures !Agrees(Remove(Registered(pipe, fd, true), fd, IN).value)
  {
    RegisteredIsReachable(pipe, fd, true);
    RemoveAgreesOnlyWhenIdle(Registered(pipe, fd, true), fd, IN);
  }

  /** A wake-up and a read event in one poll, the wake-up first: the flags are read outside the
      vector. */
  lemma PipeFirstIsUndefined(pipe: nat, fd: nat)
    requires fd >= 2 && pipe >= fd * 3 / 2
    ensures var ops := [RegisterOp(fd, Read, true), PollOp([Polled(pipe, IN), Polled(fd, IN)])];
            AllowedRun(pipe, ops) && After(pipe, ops).None?
  {
    var op, batch := RegisterOp(fd, Read, true), [Polled(pipe, IN), Polled(fd, IN)];
    var io := Registered(pipe, fd, true);
    RegisteredIsReachable(pipe, fd, true);
    AfterNext(pipe, [op], PollOp(batch));
    assert [op] + [PollOp(batch)] == [op, PollOp(batch)];
    assert ValidBatch(io, batch);
    assert batch[1].fd != io.pipe && batch[1].events.Meets(IN.Or(OUT));
    PollDefinedExactly(io, batch);
  }

  /** A bare error on a descriptor registered for reading enqueues a null executor, and leaves the
      descriptor registered without executor. */
  lemma ErrorEnqueuesNull(pipe: nat, fd: nat)
    requires fd >= 2 && pipe >= fd * 3 / 2
    ensures var ops := [RegisterOp(fd, Read, true), PollOp([Polled(fd, ERR)])];
            && AllowedRun(pipe, ops) && After(pipe, ops).Some?
            && After(pipe, ops).value.enqueued == [Some(0), None]
            && !ArmedMatches(After(pipe, ops).value)
  {
    var op, ev := RegisterOp(fd, Read, true), Polled(fd, ERR);
    var io := Registered(pipe, fd, true);
    RegisteredIsReachable(pipe, fd, true);
    EveryRunDeliversOnce(pipe, [op]);
    AfterNext(pipe, [op], PollOp([ev]));
    assert [op] + [PollOp([ev])] == [op, PollOp([ev])];
    assert ValidBatch(io, [ev]);
    ErrorEventExactly(io, fd, ev);
    PollOne(io, fd, ev);
  }

  /** A call-once registration polled together with a persistent one that is reported first: the
      call-once one is enqueued and stays registered without executor. */
  lemma CallOnceBehindPersistent(pipe: nat, fd: nat, other: nat)
    requires fd >= 2 && pipe >= fd * 3 / 2 && other < fd
    ensures var ops := [RegisterOp(fd, Read, false), RegisterOp(other, Read, true),
                        PollOp([Polled(fd, IN), Polled(other, IN)])];
            && AllowedRun(pipe, ops) && After(pipe, ops).Some?
            && other < |After(pipe, ops).value.fds|
            && After(pipe, ops).value.fds[other].registered.Meets(IN)
            && After(pipe, ops).value.fds[other].reader.None?
  {
    var a, b := RegisterOp(fd, Read, false), RegisterOp(other, Read, true);
    var e, f := Polled(fd, IN), Polled(other, IN);
    RegisteredIsReachable(pipe, fd, false);
    AfterNext(pipe, [a], b);
    assert [a] + [b] == [a, b];
    EveryRunAgrees(pipe, [a, b]);
    var io := After(pipe, [a, b]).value;
    AfterNext(pipe, [a, b], PollOp([e, f]));
    assert [a, b] + [PollOp([e, f])] == [a, b, PollOp([e, f])];
    assert ValidBatch(io, [e, f]);
    PollDefinedExactly(io, [e, f]);
    PollEventAgrees(io, fd, e);
    PollEventKeepsHeld(io, fd, e);
    PollEventFrame(io, fd, e);
    var io1 := PollEvent(io, fd, e).value;
    PollOne(io1, fd, f);
    assert [e, f][1..] == [f];
    assert Poll(io, [e, f]) == PollEvent(io1, fd, f);
    PersistenceFollowsTheFirstEvent(io1, fd, f);
  }
}
