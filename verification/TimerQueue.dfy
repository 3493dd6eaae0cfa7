/** TimerManager's methods on its ordered list, proved against the functions of Timers. */
module TimerQueue {
  import opened Common
  import opened Timers

  class TimerManager {
    var timers: seq<Timer>
    var inserted: nat

    ghost function View(): (s: TimerSet)
      reads this
    {
      TimerSet(timers, inserted)
    }

    constructor ()
      ensures View() == EMPTY && Ordered(View())
    {
      timers, inserted := [], 0;
    }

    /** multiset::upper_bound: where an equal timer is inserted. */
    method FindUpperBound(d: Stamp) returns (i: nat)
      ensures i == UpperBound(timers, d)
    {
      i := 0;
      while i < |timers| && timers[i].deadline <= d
        invariant 0 <= i <= |timers|
        invariant UpperBound(timers, d) == i + UpperBound(timers[i..], d)
      {
        assert timers[i..][1..] == timers[i + 1..];
        i := i + 1;
      }
    }

    method AddTimer(t: Timer)
      requires Ordered(View())
      modifies this
      ensures View() == Insert(old(View()), t) && Ordered(View())
    {
      InsertKeepsOrder(View(), t);
      var i := FindUpperBound(t.deadline);
      timers := timers[..i] + [t.(serial := inserted)] + timers[i..];
      inserted := inserted + 1;
    }

    /** multiset::lower_bound. */
    method FindLowerBound(d: Stamp) returns (i: nat)
      ensures i == LowerBound(timers, d)
    {
      i := 0;
      while i < |timers| && timers[i].deadline < d
        invariant 0 <= i <= |timers|
        invariant LowerBound(timers, d) == i + LowerBound(timers[i..], d)
      {
        assert timers[i..][1..] == timers[i + 1..];
        i := i + 1;
      }
    }

    /** lower_bound of `now`, then past the timers equal to it. */
    method EndOfExpired(now: Stamp) returns (iter: nat)
      ensures iter == ExpiredCount(timers, now)
    {
      iter := FindLowerBound(now);
      ghost var lower := iter;
      while iter < |timers| && timers[iter].deadline == now
        invariant lower <= iter <= |timers|
        invariant ExpiredCount(timers, now) == iter + EqualRun(timers[iter..], now)
      {
        assert timers[iter..][1..] == timers[iter + 1..];
        iter := iter + 1;
      }
    }

    /** Sweep at `now`; `clock` gives the readings taken while repeating timers are rebuilt. */
    method TakeExpiredTimers(now: Stamp, clock: nat -> Stamp) returns (result: seq<Timer>)
      requires Ordered(View())
      modifies this
      ensures |result| == ExpiredCount(old(timers), now)
      ensures (result, View()) == TakeExpired(old(View()), now, Readings(clock, |result|))
      ensures Ordered(View())
    {
      var iter := EndOfExpired(now);
      SweepIsExact(View(), now, Readings(clock, iter));
      result := timers[..iter];
      timers := timers[iter..];
      RearmLoop(result, clock);
    }

    method RearmLoop(taken: seq<Timer>, clock: nat -> Stamp)
      requires Ordered(View())
      modifies this
      ensures View() == RearmAll(old(View()), taken, Readings(clock, |taken|)) && Ordered(View())
    {
      var readings := Readings(clock, |taken|);
      for i := 0 to |taken|
        invariant Ordered(View())
        invariant RearmAll(View(), taken[i..], readings[i..]) == RearmAll(old(View()), taken, readings)
      {
        assert taken[i..][1..] == taken[i + 1..] && readings[i..][1..] == readings[i + 1..];
        ReadingAt(clock, |taken|, i);
        if taken[i].repeating {
          AddTimer(Rearmed(taken[i], clock(i)));
        }
      }
      assert taken[|taken|..] == [];
    }

    method TakeFirstIfExpired(now: Stamp, clock: Stamp) returns (taken: Option<Timer>)
      requires Ordered(View())
      modifies this
      ensures (taken, View()) == TakeFirst(old(View()), now, clock) && Ordered(View())
    {
      TakeFirstIsExact(View(), now, clock);
      if timers == [] { return None; }
      if timers[0].deadline <= now {
        var t := DropFirst();
        RearmOne(t, clock);
        return Some(t);
      }
      return None;
    }

    /** Erase timers_.begin(). */
    method DropFirst() returns (t: Timer)
      requires Ordered(View()) && timers != []
      modifies this`timers
      ensures t == old(timers)[0] && timers == old(timers)[1..] && Ordered(View())
    {
      ErasingKeepsOrder(View(), 0);
      assert timers[..0] + timers[1..] == timers[1..];
      t := timers[0];
      timers := timers[1..];
    }

    method RearmOne(t: Timer, clock: Stamp)
      requires Ordered(View())
      modifies this
      ensures View() == (if t.repeating then Insert(old(View()), Rearmed(t, clock)) else old(View())) && Ordered(View())
    {
      if t.repeating {
        AddTimer(Rearmed(t, clock));
      }
    }

    /** Erase the first timer with the deadline of the one to cancel; the caller must know that there
        is one. */
    method RemoveTimer(deadline: Stamp)
      requires Ordered(View()) && exists t :: t in timers && t.deadline == deadline
      modifies this`timers
      ensures Some(View()) == Remove(old(View()), deadline) && Ordered(View())
    {
      RemoveDefinedExactly(View(), deadline);
      var _ := RemoveErasesTheFirst(View(), deadline);
      var i := FindLowerBound(deadline);
      timers := timers[..i] + timers[i + 1..];
    }

    method GetNextInterval(first: Stamp, second: Stamp) returns (r: Stamp)
      ensures r == NextInterval(View(), first, second)
      ensures timers == [] ==> r == MAX_STAMP
      ensures timers != [] ==>
                var d := timers[0].deadline;
                (r == Remaining(View(), second) <==> !(first <= d < second) && !(second < d < first))
    {
      if timers == [] { return MAX_STAMP; }
      IntervalIsRemainingTimeExactly(View(), first, second);
      if timers[0].deadline < first { return 0; }
      return (timers[0].deadline - second) % (MAX_STAMP + 1);
    }
  }

  lemma {:induction false} ReadingAt(clock: nat -> Stamp, n: nat, i: nat)
    requires i < n
    ensures Readings(clock, n)[i] == clock(i)
  {
    if i < n - 1 { ReadingAt(clock, n - 1, i); }
  }
}
