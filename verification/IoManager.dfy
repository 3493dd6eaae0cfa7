/** IOManager's operations on its fields, proved against the functions of EventLoop. */
module IoManager {
  import opened Common
  import opened EventLoop

  class IOManager {
    var fdEvents: seq<FdEvents>
    var kernel: map<nat, Bits>
    var pipe: nat
    var stopped: bool
    var enqueued: seq<Option<Ticket>>
    var issued: nat
    ghost var fates: map<Ticket, Fate>

    ghost function View(): (io: Io)
      reads this
    {
      Io(fdEvents, kernel, pipe, stopped, enqueued, issued, fates)
    }

    constructor (pipe: nat)
      ensures View() == Start(pipe) && Agrees(View()) && Held(View())
    {
      this.fdEvents, this.kernel, this.pipe := [], map[pipe := IN.Or(OUT)], pipe;
      this.stopped, this.enqueued, this.issued, this.fates := false, [], 0, map[];
    }

    method EpollAdd(fd: nat, events: Bits)
      requires fd !in kernel
      modifies this`kernel
      ensures kernel == old(kernel)[fd := events]
    {
      kernel := kernel[fd := events];
    }

    method EpollMod(fd: nat, events: Bits)
      requires fd in kernel
      modifies this`kernel
      ensures kernel == old(kernel)[fd := events]
    {
      kernel := kernel[fd := events];
    }

    method EpollDel(fd: nat)
      requires fd in kernel
      modifies this`kernel
      ensures kernel == old(kernel) - {fd}
    {
      kernel := kernel - {fd};
    }

    /** Record `mask` as the registered events of `fd`. */
    method StoreMask(fd: nat, mask: Bits)
      requires fd < |fdEvents|
      modifies this`fdEvents
      ensures fdEvents == old(fdEvents)[fd := old(fdEvents)[fd].(registered := mask)]
    {
      fdEvents := fdEvents[fd := fdEvents[fd].(registered := mask)];
    }

    /** The epAdd closure; the preconditions of EpollAdd and EpollMod are the kernel's. */
    method WidenInterest(fd: nat, mask: Bits)
      requires fd < |fdEvents| && (fd in kernel <==> fdEvents[fd].registered != ZERO)
      modifies this`kernel, this`fdEvents
      ensures fdEvents == old(fdEvents)[fd := old(fdEvents)[fd].(registered := old(fdEvents)[fd].registered.Or(mask))]
      ensures kernel == old(kernel)[fd := if old(fdEvents)[fd].registered != ZERO
                                          then old(fdEvents)[fd].registered.Or(mask)
                                          else old(fdEvents)[fd].registered.Or(mask).Or(ET)]
    {
      var before := fdEvents[fd].registered;
      var dst := before.Or(mask);
      if before != ZERO {
        EpollMod(fd, dst);
      } else {
        EpollAdd(fd, dst.Or(ET));
      }
      StoreMask(fd, dst);
    }

    /** Put a new registration in its slot. */
    method StoreExecutor(fd: nat, kind: EventType, once: bool)
      requires fd < |fdEvents| && !kind.Other?
      modifies this`fdEvents, this`issued, this`fates
      ensures View() == SetExecutor(old(View()), fd, kind, once)
    {
      ghost var replaced := Slot(fdEvents[fd], kind);
      if kind.Read? {
        fdEvents := fdEvents[fd := fdEvents[fd].(reader := Some(issued), readOnce := once)];
      } else {
        fdEvents := fdEvents[fd := fdEvents[fd].(writer := Some(issued), writeOnce := once)];
      }
      fates := (if replaced.Some? then fates[replaced.value := Replaced] else fates)[issued := Armed(fd, kind)];
      issued := issued + 1;
    }

    method RegisterEvent(fd: nat, kind: EventType, once: bool) returns (ok: bool)
      requires Agrees(View()) && Held(View()) && fd != pipe && !Hazard(View(), RegisterOp(fd, kind, once))
      modifies this
      ensures Agrees(View()) && Held(View())
      ensures Register(old(View()), fd, kind, once) == Some((View(), ok))
    {
      RegisterAgrees(View(), fd, kind, once);
      RegisterKeepsHeld(View(), fd, kind, once);
      if stopped { return false; }
      if fd >= |fdEvents| {
        fdEvents := fdEvents + Blank(fd * 3 / 2 - |fdEvents|);
      }
      if kind.Other? { return false; }
      StoreExecutor(fd, kind, once);
      EpAddResult(View(), fd, Mask(kind));
      WidenInterest(fd, Mask(kind));
      return true;
    }

    /** True exactly when the kernel watches `fd` for that kind of event. */
    method HasEvent(fd: nat, kind: EventType) returns (r: bool)
      requires Agrees(View()) && fd != pipe && !kind.Other?
      ensures r <==> fd in kernel && kernel[fd].Meets(Mask(kind))
    {
      if fd >= |fdEvents| { return false; }
      assert AgreesAt(View(), fd);
      r := fdEvents[fd].registered.Meets(Mask(kind));
      if fd in kernel { MaskIgnoresEt(kernel[fd], kind); }
    }

    method HandOver(fd: nat, kind: EventType)
      requires fd < |fdEvents| && !kind.Other?
      modifies this`fdEvents, this`enqueued, this`fates
      ensures View() == Enqueue(old(View()), fd, kind)
    {
      var e := fdEvents[fd];
      var executor := Slot(e, kind);
      enqueued := enqueued + [executor];
      if kind.Read? && e.readOnce {
        fdEvents := fdEvents[fd := e.(reader := None)];
      } else if kind.Write? && e.writeOnce {
        fdEvents := fdEvents[fd := e.(writer := None)];
      }
      assert fdEvents == Enqueue(old(View()), fd, kind).fds;
      fates := if executor.Some? then fates[executor.value := Enqueued] else fates;
    }

    /** The interest that remains, by the flags of `first`. */
    method RemainingInterest(first: nat, ev: Polled) returns (left: Bits)
      requires ev.fd < |fdEvents|
      ensures left == if first < |fdEvents|
                      then LeftEvents(fdEvents[ev.fd].registered, ev.events, fdEvents[first])
                      else fdEvents[ev.fd].registered
    {
      left := fdEvents[ev.fd].registered;
      if first < |fdEvents| {
        if ev.events.Meets(IN) && fdEvents[first].readOnce {
          left := left.Minus(IN);
        }
        if ev.events.Meets(OUT) && fdEvents[first].writeOnce {
          left := left.Minus(OUT);
        }
      }
    }

    method WithdrawInterest(first: nat, ev: Polled)
      requires ev.fd < |fdEvents| && Withdraw(View(), first, ev).Some?
      modifies this`fdEvents, this`kernel
      ensures Some(View()) == Withdraw(old(View()), first, ev)
    {
      WithdrawResult(View(), first, ev);
      var left := RemainingInterest(first, ev);
      if left != fdEvents[ev.fd].registered {
        if left != ZERO { EpollMod(ev.fd, left); } else { EpollDel(ev.fd); }
        StoreMask(ev.fd, left);
      }
    }

    method HandleEvent(first: nat, ev: Polled)
      requires PollEvent(View(), first, ev).Some?
      modifies this`fdEvents, this`enqueued, this`fates, this`kernel
      ensures Some(View()) == PollEvent(old(View()), first, ev)
    {
      if ev.fd == pipe { return; }
      WithdrawInterest(first, ev);
      if ev.events.Meets(IN.Or(ERR).Or(HUP)) { HandOver(ev.fd, Read); }
      if ev.events.Meets(OUT.Or(ERR).Or(HUP)) { HandOver(ev.fd, Write); }
    }

    /** The event loop of blockPending over the events epoll_wait returned. */
    method BlockPending(batch: seq<Polled>)
      requires Agrees(View()) && Held(View()) && ValidBatch(View(), batch) && !ConsultsPipeEntry(View(), batch)
      modifies this
      ensures Agrees(View()) && Held(View())
      ensures Some(View()) == Poll(old(View()), batch)
    {
      PollDefinedExactly(View(), batch);
      if batch == [] { return; }
      var first := batch[0].fd;
      for i := 0 to |batch|
        invariant PollAll(View(), first, batch[i..]) == PollAll(old(View()), first, batch)
        invariant PollAll(old(View()), first, batch).Some?
      {
        assert batch[i..][0] == batch[i] && batch[i..][1..] == batch[i + 1..];
        HandleEvent(first, batch[i]);
      }
      assert batch[|batch|..] == [];
    }
  }

  lemma MaskIgnoresEt(k: Bits, kind: EventType)
    ensures k.Minus(ET).And(Mask(kind)) == k.And(Mask(kind))
  {}
}
