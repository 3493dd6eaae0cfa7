/**
 Timers: a multiset ordered by deadline, the sweep that takes the expired ones, and the epoll
 timeout computed from the earliest deadline.

 Time stamps are 64-bit unsigned milliseconds.  A multiset keeps equal keys in the order of
 insertion; every timer carries the serial number of its insertion so that this order is visible.
 */
module Timers {
  import opened Common

  const MAX_STAMP: nat := 0xFFFF_FFFF_FFFF_FFFF

  type Stamp = x: nat | x <= MAX_STAMP

  datatype Timer = Timer(callback: nat, deadline: Stamp, interval: Stamp, repeating: bool, serial: nat)

  datatype TimerSet = TimerSet(timers: seq<Timer>, inserted: nat)

  const EMPTY := TimerSet([], 0)

  // ---------------------------------------------------------------------------
  // The code
  // ---------------------------------------------------------------------------

  /** The Timer constructor: the deadline saturates instead of wrapping. */
  function Deadline(now: Stamp, interval: Stamp): (d: Stamp)
    ensures now <= d && d <= now + interval
    ensures now + interval <= MAX_STAMP <==> d == now + interval
    ensures now + interval > MAX_STAMP ==> d == MAX_STAMP
  {
    if interval > MAX_STAMP - now then MAX_STAMP else interval + now
  }

  /** Index of the first timer with a deadline of at least `d`. */
  function LowerBound(ts: seq<Timer>, d: Stamp): (i: nat)
    ensures i <= |ts|
    ensures forall j :: 0 <= j < i ==> ts[j].deadline < d
    ensures i < |ts| ==> ts[i].deadline >= d
  {
    if ts == [] || ts[0].deadline >= d then 0 else 1 + LowerBound(ts[1..], d)
  }

  /** Index of the first timer with a deadline later than `d`. */
  function UpperBound(ts: seq<Timer>, d: Stamp): (i: nat)
    ensures i <= |ts|
    ensures forall j :: 0 <= j < i ==> ts[j].deadline <= d
    ensures i < |ts| ==> ts[i].deadline > d
  {
    if ts == [] || ts[0].deadline > d then 0 else 1 + UpperBound(ts[1..], d)
  }

  /** multiset::insert: behind every timer with the same deadline. */
  function Insert(s: TimerSet, t: Timer): (r: TimerSet) {
    var i := UpperBound(s.timers, t.deadline);
    TimerSet(s.timers[..i] + [t.(serial := s.inserted)] + s.timers[i..], s.inserted + 1)
  }

  function Rearmed(t: Timer, now: Stamp): (r: Timer) {
    t.(deadline := Deadline(now, t.interval))
  }

  /** Insert a fresh copy of every repeating timer of `taken`; `clock[i]` is the reading of the
      clock when the copy of `taken[i]` is built. */
  function RearmAll(s: TimerSet, taken: seq<Timer>, clock: seq<Stamp>): (r: TimerSet)
    requires |clock| == |taken|
    decreases taken
  {
    if taken == [] then s
    else
      var s1 := if taken[0].repeating then Insert(s, Rearmed(taken[0], clock[0])) else s;
      RearmAll(s1, taken[1..], clock[1..])
  }

  /** How many timers a sweep at `now` takes: those before the lower bound of `now` and those equal
      to it. */
  function ExpiredCount(ts: seq<Timer>, now: Stamp): (n: nat)
    ensures n <= |ts|
  {
    var i := LowerBound(ts, now);
    i + EqualRun(ts[i..], now)
  }

  function EqualRun(ts: seq<Timer>, now: Stamp): (n: nat)
    ensures n <= |ts|
    ensures forall j :: 0 <= j < n ==> ts[j].deadline == now
    ensures n < |ts| ==> ts[n].deadline != now
  {
    if ts == [] || ts[0].deadline != now then 0 else 1 + EqualRun(ts[1..], now)
  }

  /** takeExpiredTimers: what is returned and what remains. */
  function TakeExpired(s: TimerSet, now: Stamp, clock: seq<Stamp>): (r: (seq<Timer>, TimerSet))
    requires |clock| == ExpiredCount(s.timers, now)
  {
    var n := ExpiredCount(s.timers, now);
    (s.timers[..n], RearmAll(s.(timers := s.timers[n..]), s.timers[..n], clock))
  }

  function TakeFirst(s: TimerSet, now: Stamp, clock: Stamp): (r: (Option<Timer>, TimerSet)) {
    if s.timers == [] || s.timers[0].deadline > now then (None, s)
    else
      var t := s.timers[0];
      var rest := s.(timers := s.timers[1..]);
      (Some(t), if t.repeating then Insert(rest, Rearmed(t, clock)) else rest)
  }

  /** getNextInterval, with the two readings of the clock it makes; size_t subtraction wraps. */
  function NextInterval(s: TimerSet, first: Stamp, second: Stamp): (r: Stamp) {
    if s.timers == [] then MAX_STAMP
    else if s.timers[0].deadline < first then 0
    else (s.timers[0].deadline - second) % (MAX_STAMP + 1)
  }

  /** static_cast<int> of a size_t. */
  function ToInt(x: Stamp): (r: int)
    ensures -0x8000_0000 <= r < 0x8000_0000
  {
    var low := x % 0x1_0000_0000;
    if low < 0x8000_0000 then low else low - 0x1_0000_0000
  }

  // ---------------------------------------------------------------------------
  // Order
  // ---------------------------------------------------------------------------

  predicate Before(a: Timer, b: Timer) {
    a.deadline < b.deadline || (a.deadline == b.deadline && a.serial < b.serial)
  }

  /** Sorted by deadline and, among equal deadlines, by insertion. */
  predicate Ordered(s: TimerSet) {
    && (forall i, j :: 0 <= i < j < |s.timers| ==> Before(s.timers[i], s.timers[j]))
    && (forall i :: 0 <= i < |s.timers| ==> s.timers[i].serial < s.inserted)
  }

  /** The item at position `b` of `ts` with `x` inserted at `i`. */
  lemma InsertedAt(ts: seq<Timer>, i: nat, x: Timer, b: nat)
    requires i <= |ts| && b <= |ts|
    ensures var r := ts[..i] + [x] + ts[i..];
            |r| == |ts| + 1 && r[b] == if b < i then ts[b] else if b == i then x else ts[b - 1]
  {}

  lemma InsertedPair(ts: seq<Timer>, i: nat, x: Timer, a: nat, b: nat)
    requires i <= |ts| && a < b <= |ts|
    requires forall i, j :: 0 <= i < j < |ts| ==> Before(ts[i], ts[j])
    requires forall j :: 0 <= j < i ==> Before(ts[j], x)
    requires forall j :: i <= j < |ts| ==> Before(x, ts[j])
    ensures var r := ts[..i] + [x] + ts[i..]; Before(r[a], r[b])
  {
    InsertedAt(ts, i, x, a);
    InsertedAt(ts, i, x, b);
  }

  lemma InsertKeepsOrder(s: TimerSet, t: Timer)
    requires Ordered(s)
    ensures Ordered(Insert(s, t))
  {
    var ts, x := s.timers, t.(serial := s.inserted);
    var i := UpperBound(ts, t.deadline);
    var r := Insert(s, t).timers;
    forall j | i <= j < |ts| ensures Before(x, ts[j]) {
      assert i == j || Before(ts[i], ts[j]);
    }
    forall a, b | 0 <= a < b < |r| ensures Before(r[a], r[b]) {
      InsertedPair(ts, i, x, a, b);
    }
    forall b | 0 <= b < |r| ensures r[b].serial < s.inserted + 1 {
      InsertedAt(ts, i, x, b);
    }
  }

  /** In an ordered set the sweep takes exactly the timers whose deadline has passed. */
  lemma ExpiredExactly(s: TimerSet, now: Stamp)
    requires Ordered(s)
    ensures var n := ExpiredCount(s.timers, now);
            && (forall i :: 0 <= i < n ==> s.timers[i].deadline <= now)
            && (forall i :: n <= i < |s.timers| ==> s.timers[i].deadline > now)
  {
    var i := LowerBound(s.timers, now);
    var n := ExpiredCount(s.timers, now);
    forall j | i <= j < n ensures s.timers[j].deadline == now {
      assert s.timers[j] == s.timers[i..][j - i];
    }
    if n < |s.timers| {
      assert s.timers[n] == s.timers[i..][n - i];
      assert s.timers[n].deadline != now;
      assert s.timers[i].deadline >= now;
      assert i == n || Before(s.timers[i], s.timers[n]);
      forall j | n <= j < |s.timers| ensures s.timers[j].deadline > now {
        assert j == n || Before(s.timers[n], s.timers[j]);
      }
    }
  }

  /** The repeating timers of `taken`, each with its new deadline and serial number. */
  function Copies(taken: seq<Timer>, clock: seq<Stamp>, serial: nat): (r: seq<Timer>)
    requires |clock| == |taken|
    decreases taken
  {
    if taken == [] then []
    else if taken[0].repeating
    then [Rearmed(taken[0], clock[0]).(serial := serial)] + Copies(taken[1..], clock[1..], serial + 1)
    else Copies(taken[1..], clock[1..], serial)
  }

  /** `c` is a timer armed again at `at`: the same callback and interval, repeating, and due one
      interval after `at`, or never when that overflows. */
  predicate IsCopy(c: Timer, t: Timer, at: Stamp) {
    && c.callback == t.callback && c.interval == t.interval && c.repeating
    && c.deadline == if at + t.interval > 0xFFFF_FFFF_FFFF_FFFF then 0xFFFF_FFFF_FFFF_FFFF else at + t.interval
  }

  function CountRepeating(ts: seq<Timer>): (n: nat) {
    if ts == [] then 0 else (if ts[0].repeating then 1 else 0) + CountRepeating(ts[1..])
  }

  /** `copies` are the repeating timers of `taken`, one each and in their order, armed again. */
  predicate AreCopies(copies: seq<Timer>, taken: seq<Timer>, clock: seq<Stamp>)
    requires |clock| == |taken|
  {
    && |copies| == CountRepeating(taken)
    && forall i :: 0 <= i < |taken| && taken[i].repeating ==>
         CountRepeating(taken[..i]) < |copies| && IsCopy(copies[CountRepeating(taken[..i])], taken[i], clock[i])
  }

  lemma {:induction false} CopiesExactly(taken: seq<Timer>, clock: seq<Stamp>, serial: nat)
    requires |clock| == |taken|
    ensures AreCopies(Copies(taken, clock, serial), taken, clock)
    decreases taken
  {
    if taken != [] {
      var rest := Copies(taken[1..], clock[1..], if taken[0].repeating then serial + 1 else serial);
      CopiesExactly(taken[1..], clock[1..], if taken[0].repeating then serial + 1 else serial);
      var copies := Copies(taken, clock, serial);
      forall i | 0 <= i < |taken| && taken[i].repeating
        ensures CountRepeating(taken[..i]) < |copies|
        ensures IsCopy(copies[CountRepeating(taken[..i])], taken[i], clock[i])
      {
        if i > 0 {
          assert taken[..i][1..] == taken[1..][..i - 1];
          assert taken[i] == taken[1..][i - 1] && clock[i] == clock[1..][i - 1];
          assert IsCopy(rest[CountRepeating(taken[1..][..i - 1])], taken[i], clock[i]);
        }
      }
    }
  }

  lemma {:induction false} RearmAllKeepsOrder(s: TimerSet, taken: seq<Timer>, clock: seq<Stamp>)
    requires Ordered(s) && |clock| == |taken|
    ensures Ordered(RearmAll(s, taken, clock))
    decreases taken
  {
    if taken != [] {
      InsertKeepsOrder(s, Rearmed(taken[0], clock[0]));
      var s1 := if taken[0].repeating then Insert(s, Rearmed(taken[0], clock[0])) else s;
      RearmAllKeepsOrder(s1, taken[1..], clock[1..]);
    }
  }

  lemma InsertContents(s: TimerSet, t: Timer)
    ensures multiset(Insert(s, t).timers) == multiset(s.timers) + multiset{t.(serial := s.inserted)}
  {
    var i := UpperBound(s.timers, t.deadline);
    assert s.timers == s.timers[..i] + s.timers[i..];
  }

  lemma {:induction false} RearmAllContents(s: TimerSet, taken: seq<Timer>, clock: seq<Stamp>)
    requires |clock| == |taken|
    ensures multiset(RearmAll(s, taken, clock).timers)
            == multiset(s.timers) + multiset(Copies(taken, clock, s.inserted))
    decreases taken
  {
    if taken != [] {
      if taken[0].repeating {
        var t := Rearmed(taken[0], clock[0]);
        InsertContents(s, t);
        RearmAllContents(Insert(s, t), taken[1..], clock[1..]);
        assert Copies(taken, clock, s.inserted)
               == [t.(serial := s.inserted)] + Copies(taken[1..], clock[1..], s.inserted + 1);
      } else {
        RearmAllContents(s, taken[1..], clock[1..]);
      }
    }
  }

  /** A sweep returns exactly the timers with a deadline of at most `now`, by deadline and first in
      first out among equal deadlines; all others stay, each repeating one comes back exactly once
      with its saturated deadline, and the set stays ordered. */
  lemma SweepIsExact(s: TimerSet, now: Stamp, clock: seq<Stamp>)
    requires Ordered(s) && |clock| == ExpiredCount(s.timers, now)
    ensures var (taken, s') := TakeExpired(s, now, clock);
            && |taken| <= |s.timers|
            && taken == s.timers[..|taken|]
            && (forall i :: 0 <= i < |taken| ==> taken[i].deadline <= now)
            && (forall i, j :: 0 <= i < j < |taken| ==> Before(taken[i], taken[j]))
            && (forall i :: |taken| <= i < |s.timers| ==> s.timers[i].deadline > now)
            && multiset(s'.timers)
               == multiset(s.timers[|taken|..]) + multiset(Copies(taken, clock, s.inserted))
            && AreCopies(Copies(taken, clock, s.inserted), taken, clock)
            && Ordered(s')
  {
    var n := ExpiredCount(s.timers, now);
    CopiesExactly(s.timers[..n], clock, s.inserted);
    var kept := s.(timers := s.timers[n..]);
    ExpiredExactly(s, now);
    assert Ordered(kept);
    RearmAllKeepsOrder(kept, s.timers[..n], clock);
    RearmAllContents(kept, s.timers[..n], clock);
  }

  lemma FirstIsEarliest(s: TimerSet, t: Timer)
    requires Ordered(s) && t in s.timers
    ensures t == s.timers[0] || Before(s.timers[0], t)
  {
    var i :| 0 <= i < |s.timers| && s.timers[i] == t;
  }

  lemma TakeFirstContents(s: TimerSet, now: Stamp, clock: Stamp)
    requires Ordered(s) && s.timers != [] && s.timers[0].deadline <= now
    ensures var s' := TakeFirst(s, now, clock).1;
            && Ordered(s')
            && multiset(s'.timers) + multiset{s.timers[0]}
               == multiset(s.timers) + multiset(Copies([s.timers[0]], [clock], s.inserted))
  {
    var t, rest := s.timers[0], s.(timers := s.timers[1..]);
    RearmAllKeepsOrder(rest, [t], [clock]);
    RearmAllContents(rest, [t], [clock]);
    assert s.timers == [t] + rest.timers;
    assert [t][1..] == [] && [clock][1..] == [];
    assert RearmAll(rest, [t], [clock]) == TakeFirst(s, now, clock).1;
  }

  /** takeFirstIfExpired takes nothing iff nothing has expired, and otherwise the earliest timer, which
      comes back exactly once if it repeats. */
  lemma TakeFirstIsExact(s: TimerSet, now: Stamp, clock: Stamp)
    requires Ordered(s)
    ensures var (taken, s') := TakeFirst(s, now, clock);
            && Ordered(s')
            && (taken.None? ==> s' == s && forall t :: t in s.timers ==> t.deadline > now)
            && (taken.Some? ==>
                  && taken.value in s.timers && taken.value.deadline <= now
                  && (forall t :: t in s.timers && t != taken.value ==> Before(taken.value, t))
                  && multiset(s'.timers) + multiset{taken.value}
                     == multiset(s.timers) + multiset(Copies([taken.value], [clock], s.inserted))
                  && AreCopies(Copies([taken.value], [clock], s.inserted), [taken.value], [clock]))
  {
    if s.timers != [] { CopiesExactly([s.timers[0]], [clock], s.inserted); }
    forall t | t in s.timers ensures t == s.timers[0] || Before(s.timers[0], t) { FirstIsEarliest(s, t); }
    if s.timers != [] && s.timers[0].deadline <= now { TakeFirstContents(s, now, clock); }
  }

  // ---------------------------------------------------------------------------
  // removeTimer
  // ---------------------------------------------------------------------------

  /** removeTimer as written: it looks a timer up by its deadline alone, erases the first one that
      matches, and has no check for the case that none does (None: the end iterator is erased). */
  function Remove(s: TimerSet, deadline: Stamp): (r: Option<TimerSet>) {
    var i := LowerBound(s.timers, deadline);
    if i == |s.timers| || s.timers[i].deadline != deadline then None
    else Some(s.(timers := s.timers[..i] + s.timers[i + 1..]))
  }

  /** removeTimer erases the end iterator iff no timer of the set has the given deadline. */
  lemma RemoveDefinedExactly(s: TimerSet, deadline: Stamp)
    requires Ordered(s)
    ensures Remove(s, deadline).Some? <==> exists t :: t in s.timers && t.deadline == deadline
  {
    var i := LowerBound(s.timers, deadline);
    if exists t :: t in s.timers && t.deadline == deadline {
      var t :| t in s.timers && t.deadline == deadline;
      var k :| 0 <= k < |s.timers| && s.timers[k] == t;
      assert k == i || Before(s.timers[i], s.timers[k]);
    } else if i < |s.timers| {
      assert s.timers[i] in s.timers;
    }
  }

  /** The item at position `a` of `ts` without its item `i`. */
  lemma ErasedAt(ts: seq<Timer>, i: nat, a: nat)
    requires i < |ts| && a < |ts| - 1
    ensures var r := ts[..i] + ts[i + 1..]; |r| == |ts| - 1 && r[a] == ts[if a < i then a else a + 1]
  {}

  lemma ErasingKeepsOrder(s: TimerSet, i: nat)
    requires Ordered(s) && i < |s.timers|
    ensures Ordered(s.(timers := s.timers[..i] + s.timers[i + 1..]))
  {
    var r := s.timers[..i] + s.timers[i + 1..];
    forall a, b | 0 <= a < b < |r| ensures Before(r[a], r[b]) {
      ErasedAt(s.timers, i, a);
      ErasedAt(s.timers, i, b);
    }
    forall a | 0 <= a < |r| ensures r[a].serial < s.inserted {
      ErasedAt(s.timers, i, a);
    }
  }

  /** What it erases is the first timer with that deadline, and the rest keeps its order. */
  lemma RemoveErasesTheFirst(s: TimerSet, deadline: Stamp) returns (i: nat)
    requires Ordered(s) && Remove(s, deadline).Some?
    ensures i < |s.timers| && s.timers[i].deadline == deadline
    ensures forall j :: 0 <= j < i ==> s.timers[j].deadline < deadline
    ensures var s' := Remove(s, deadline).value;
            && s' == s.(timers := s.timers[..i] + s.timers[i + 1..])
            && multiset(s.timers) == multiset(s'.timers) + multiset{s.timers[i]}
            && Ordered(s')
  {
    i := LowerBound(s.timers, deadline);
    ErasingKeepsOrder(s, i);
    assert s.timers == s.timers[..i] + [s.timers[i]] + s.timers[i + 1..];
  }

  /** Cancelling any timer, whether it is still in the set or not, erases exactly that timer iff it
      is in the set and no earlier one has the same deadline. */
  lemma RemovesTheTimerExactly(s: TimerSet, t: Timer)
    requires Ordered(s)
    ensures (Remove(s, t.deadline).Some?
             && multiset(s.timers) == multiset(Remove(s, t.deadline).value.timers) + multiset{t})
            <==> exists k :: 0 <= k < |s.timers| && s.timers[k] == t
                             && (k == 0 || s.timers[k - 1].deadline != t.deadline)
  {
    RemoveDefinedExactly(s, t.deadline);
    if Remove(s, t.deadline).Some? {
      var i := RemoveErasesTheFirst(s, t.deadline);
      var e, rest := s.timers[i], multiset(Remove(s, t.deadline).value.timers);
      SameRest(rest, e, t);
      if e == t {
        assert i == 0 || s.timers[i - 1].deadline < t.deadline;
      } else {
        forall k | 0 <= k < |s.timers| && s.timers[k] == t
          ensures k > 0 && s.timers[k - 1].deadline == t.deadline
        {
          assert i < k;
          assert i == k - 1 || Before(s.timers[i], s.timers[k - 1]);
          assert Before(s.timers[k - 1], s.timers[k]);
        }
      }
    } else {
      forall k | 0 <= k < |s.timers| ensures s.timers[k] != t { assert s.timers[k] in s.timers; }
    }
  }

  lemma SameRest(rest: multiset<Timer>, a: Timer, b: Timer)
    ensures rest + multiset{a} == rest + multiset{b} <==> a == b
  {
    if a != b { assert (rest + multiset{a})[a] == rest[a] + 1 && (rest + multiset{b})[a] == rest[a]; }
  }

  /** Cancelling a timer that was taken before is undefined, or erases somebody else's timer. */
  lemma CancellingATakenTimer(s: TimerSet, t: Timer)
    requires Ordered(s) && t !in s.timers && Remove(s, t.deadline).Some?
    ensures exists other :: other in s.timers && other != t && other.deadline == t.deadline
                            && multiset(s.timers)
                               == multiset(Remove(s, t.deadline).value.timers) + multiset{other}
  {
    var i := RemoveErasesTheFirst(s, t.deadline);
    assert s.timers[i] in s.timers;
  }

  // ---------------------------------------------------------------------------
  // Runs
  // ---------------------------------------------------------------------------

  datatype Op =
    | AddOp(timer: Timer)
    | SweepOp(now: Stamp, clock: nat -> Stamp)
    | FirstOp(now: Stamp, at: Stamp)
    | RemoveOp(deadline: Stamp)

  /** The first `n` readings of a clock. */
  function Readings(clock: nat -> Stamp, n: nat): (r: seq<Stamp>)
    ensures |r| == n
  {
    if n == 0 then [] else Readings(clock, n - 1) + [clock(n - 1)]
  }

  function Apply(s: TimerSet, op: Op): (r: Option<TimerSet>) {
    match op
    case AddOp(t) => Some(Insert(s, t))
    case SweepOp(now, clock) => Some(TakeExpired(s, now, Readings(clock, ExpiredCount(s.timers, now))).1)
    case FirstOp(now, at) => Some(TakeFirst(s, now, at).1)
    case RemoveOp(deadline) => Remove(s, deadline)
  }

  /** The set after a run; None once an end iterator was erased. */
  function After(ops: seq<Op>): (r: Option<TimerSet>) {
    if ops == [] then Some(EMPTY)
    else
      var s := After(ops[..|ops| - 1]);
      if s.None? then None else Apply(s.value, ops[|ops| - 1])
  }

  lemma ApplyKeepsOrder(s: TimerSet, op: Op)
    requires Ordered(s)
    ensures Apply(s, op).Some? ==> Ordered(Apply(s, op).value)
    ensures Apply(s, op).None?
            <==> op.RemoveOp? && forall t :: t in s.timers ==> t.deadline != op.deadline
  {
    match op
    case AddOp(t) => InsertKeepsOrder(s, t);
    case SweepOp(now, clock) => SweepIsExact(s, now, Readings(clock, ExpiredCount(s.timers, now)));
    case FirstOp(now, at) => TakeFirstIsExact(s, now, at);
    case RemoveOp(deadline) =>
      RemoveDefinedExactly(s, deadline);
      if Remove(s, deadline).Some? { var _ := RemoveErasesTheFirst(s, deadline); }
  }

  /** The set stays ordered over every run of insertions, sweeps and removals at any clock readings,
      and the run goes on unless a removal finds no timer with its deadline. */
  lemma {:induction false} EveryRunIsOrdered(ops: seq<Op>)
    ensures After(ops).Some? ==> Ordered(After(ops).value)
    ensures ops != [] && After(ops[..|ops| - 1]).Some? ==>
              (After(ops).None? <==>
               && ops[|ops| - 1].RemoveOp?
               && forall t :: t in After(ops[..|ops| - 1]).value.timers ==> t.deadline != ops[|ops| - 1].deadline)
  {
    if ops != [] {
      EveryRunIsOrdered(ops[..|ops| - 1]);
      var s := After(ops[..|ops| - 1]);
      if s.Some? { ApplyKeepsOrder(s.value, ops[|ops| - 1]); }
    }
  }

  /** One more operation of a run. */
  lemma AfterNext(ops: seq<Op>, op: Op)
    requires After(ops).Some?
    ensures After(ops + [op]) == Apply(After(ops).value, op)
  {
    assert (ops + [op])[..|ops|] == ops;
  }

  /** Two timers with one deadline: cancelling the second erases the first. */
  lemma CancellingErasesTheEarlierTimer(d: Stamp)
    ensures var a, b := Timer(1, d, 0, false, 0), Timer(2, d, 0, false, 1);
            && After([AddOp(a), AddOp(b)]) == Some(TimerSet([a, b], 2))
            && After([AddOp(a), AddOp(b), RemoveOp(b.deadline)]) == Some(TimerSet([b], 2))
  {
    var a, b := Timer(1, d, 0, false, 0), Timer(2, d, 0, false, 1);
    AfterNext([], AddOp(a));
    assert [] + [AddOp(a)] == [AddOp(a)];
    assert Insert(EMPTY, a).timers == [a];
    AfterNext([AddOp(a)], AddOp(b));
    assert UpperBound([a], d) == 1;
    assert Insert(TimerSet([a], 1), b).timers == [a, b];
    AfterNext([AddOp(a), AddOp(b)], RemoveOp(d));
    assert [AddOp(a), AddOp(b)] + [RemoveOp(d)] == [AddOp(a), AddOp(b), RemoveOp(d)];
    assert LowerBound([a, b], d) == 0;
    assert [a, b][..0] + [a, b][1..] == [b];
  }

  /** A timer that was swept and is then cancelled: the end iterator is erased. */
  lemma CancellingAfterTheSweep(d: Stamp, clock: nat -> Stamp)
    ensures After([AddOp(Timer(1, d, 0, false, 0)), SweepOp(d, clock)]) == Some(TimerSet([], 1))
    ensures After([AddOp(Timer(1, d, 0, false, 0)), SweepOp(d, clock), RemoveOp(d)]).None?
  {
    var a := Timer(1, d, 0, false, 0);
    AfterNext([], AddOp(a));
    assert [] + [AddOp(a)] == [AddOp(a)];
    var s := TimerSet([a], 1);
    assert Insert(EMPTY, a) == s;
    AfterNext([AddOp(a)], SweepOp(d, clock));
    assert LowerBound([a], d) == 0 && [a][0..] == [a];
    assert [a][1..] == [] && EqualRun([a], d) == 1;
    var r := Readings(clock, 1);
    assert [a][..1] == [a] && s.(timers := []) == TimerSet([], 1);
    assert TakeExpired(s, d, r).1 == RearmAll(TimerSet([], 1), [a], r);
    assert RearmAll(TimerSet([], 1), [a], r) == TimerSet([], 1);
    AfterNext([AddOp(a), SweepOp(d, clock)], RemoveOp(d));
    assert [AddOp(a), SweepOp(d, clock)] + [RemoveOp(d)] == [AddOp(a), SweepOp(d, clock), RemoveOp(d)];
  }

  /** The same cancellation when another timer with that deadline was added after the sweep: that
      other timer is erased. */
  lemma CancellingErasesAnotherTimer(d: Stamp, clock: nat -> Stamp)
    ensures var a, b := Timer(1, d, 0, false, 0), Timer(2, d, 0, false, 1);
            var ops := [AddOp(a), SweepOp(d, clock), AddOp(b)];
            && After(ops) == Some(TimerSet([b], 2))
            && After(ops + [RemoveOp(a.deadline)]) == Some(TimerSet([], 2))
  {
    var a, b := Timer(1, d, 0, false, 0), Timer(2, d, 0, false, 1);
    var ops := [AddOp(a), SweepOp(d, clock)];
    CancellingAfterTheSweep(d, clock);
    AfterNext(ops, AddOp(b));
    assert ops + [AddOp(b)] == [AddOp(a), SweepOp(d, clock), AddOp(b)];
    assert Insert(TimerSet([], 1), b).timers == [b];
    AfterNext(ops + [AddOp(b)], RemoveOp(d));
    assert LowerBound([b], d) == 0 && [b][..0] + [b][1..] == [];
  }

  // ---------------------------------------------------------------------------
  // Poll progress
  // ---------------------------------------------------------------------------

  /** Time left until the earliest deadline. */
  function Remaining(s: TimerSet, now: Stamp): (r: nat)
    requires s.timers != []
  {
    if s.timers[0].deadline <= now then 0 else s.timers[0].deadline - now
  }

  /** With its two readings of the clock the interval is the time remaining at the second one, unless
      the earliest deadline lies between them: passed between the readings the subtraction wraps, and
      passed only at a first reading ahead of the second the answer is zero. */
  lemma IntervalIsRemainingTimeExactly(s: TimerSet, first: Stamp, second: Stamp)
    requires s.timers != []
    ensures var d := s.timers[0].deadline;
            NextInterval(s, first, second) == Remaining(s, second)
            <==> !(first <= d < second) && !(second < d < first)
  {}

  const INT_RANGE := 0x1_0000_0000
  const HALF_RANGE := 0x8000_0000

  /** When epoll_wait gets a negative timeout: the deadline passes between the two readings, by an
      amount whose low 32 bits are 1 to 2^31, or bit 31 of the remaining time is set. */
  predicate Blocks(d: Stamp, first: Stamp, second: Stamp) {
    && first <= d
    && if d < second then 1 <= (second - d) % INT_RANGE <= HALF_RANGE else (d - second) % INT_RANGE >= HALF_RANGE
  }

  lemma WrappedLowBits(x: nat)
    requires 0 < x <= MAX_STAMP
    ensures (MAX_STAMP + 1 - x) % INT_RANGE == if x % INT_RANGE == 0 then 0 else INT_RANGE - x % INT_RANGE
  {
    var q, r := x / INT_RANGE, x % INT_RANGE;
    assert x == q * INT_RANGE + r;
    assert MAX_STAMP + 1 == INT_RANGE * INT_RANGE;
    assert MAX_STAMP + 1 - x == (INT_RANGE - q) * INT_RANGE - r;
  }

  /** The interval, when the deadline has not passed at the first reading. */
  lemma IntervalLowBits(s: TimerSet, first: Stamp, second: Stamp)
    requires s.timers != [] && first <= s.timers[0].deadline
    ensures var d := s.timers[0].deadline;
            NextInterval(s, first, second) % INT_RANGE
            == if d >= second then (d - second) % INT_RANGE
               else if (second - d) % INT_RANGE == 0 then 0 else INT_RANGE - (second - d) % INT_RANGE
  {
    var d := s.timers[0].deadline;
    if d < second {
      WrappedLowBits(second - d);
      assert NextInterval(s, first, second) == MAX_STAMP + 1 - (second - d);
    } else {
      assert NextInterval(s, first, second) == d - second;
    }
  }

  /** A pending timer makes epoll_wait block without limit iff, for the two readings made. */
  lemma BlocksWithPendingTimerExactly(s: TimerSet, first: Stamp, second: Stamp)
    requires s.timers != []
    ensures ToInt(NextInterval(s, first, second)) < 0 <==> Blocks(s.timers[0].deadline, first, second)
  {
    if first <= s.timers[0].deadline { IntervalLowBits(s, first, second); }
  }

  /** The timeout handed to epoll_wait: -1 without timers; otherwise it is negative or longer than the
      time left at the second reading iff the deadline passes between the readings (and not by a
      multiple of 2^32 ms) or bit 31 of the remaining time is set; and it is the time left exactly
      when that is below 2^31 ms and the deadline does not lie between the readings. */
  lemma TimeoutOversleepsExactly(s: TimerSet, first: Stamp, second: Stamp)
    ensures s.timers == [] ==> ToInt(NextInterval(s, first, second)) == -1
    ensures s.timers != [] ==>
              var d, timeout := s.timers[0].deadline, ToInt(NextInterval(s, first, second));
              (timeout < 0 || timeout > Remaining(s, second)
               <==> first <= d && if d < second then (second - d) % INT_RANGE != 0
                                  else (d - second) % INT_RANGE >= HALF_RANGE)
    ensures s.timers != [] && !(first <= s.timers[0].deadline < second) && !(second < s.timers[0].deadline < first) ==>
              (ToInt(NextInterval(s, first, second)) == Remaining(s, second)
               <==> Remaining(s, second) < HALF_RANGE)
  {
    if s.timers != [] {
      IntervalIsRemainingTimeExactly(s, first, second);
      if first <= s.timers[0].deadline { IntervalLowBits(s, first, second); }
    }
  }

  /** The shortest timer that blocks without a race: 2^31 ms ahead. */
  lemma TwentyFiveDaysBlockForever()
    ensures var s := Insert(EMPTY, Timer(0, 0x8000_0000, 0, false, 0));
            s.timers != [] && ToInt(NextInterval(s, 0, 0)) < 0
  {
    var s := Insert(EMPTY, Timer(0, 0x8000_0000, 0, false, 0));
    assert s.timers == [Timer(0, 0x8000_0000, 0, false, 0)];
    BlocksWithPendingTimerExactly(s, 0, 0);
  }

  /** The race: a deadline that passes between the two readings, one millisecond apart, makes
      epoll_wait block without limit on a timer that has expired. */
  lemma ExpiringBetweenReadingsBlocksForever(d: Stamp)
    requires d < MAX_STAMP
    ensures var s := Insert(EMPTY, Timer(0, d, 0, false, 0));
            && s.timers != [] && Remaining(s, d + 1) == 0
            && NextInterval(s, d, d + 1) == MAX_STAMP && ToInt(NextInterval(s, d, d + 1)) == -1
  {
    var s := Insert(EMPTY, Timer(0, d, 0, false, 0));
    assert s.timers == [Timer(0, d, 0, false, 0)];
  }

  /** After sleeping a whole timeout that is not negative, the next sweep returns something iff the
      deadline had passed at the second reading, or had not passed at the first one and was less than
      2^31 ms away. */
  lemma FullSleepExpiresSomething(s: TimerSet, first: Stamp, second: Stamp, later: Stamp, clock: seq<Stamp>)
    requires Ordered(s) && s.timers != [] && ToInt(NextInterval(s, first, second)) >= 0
    requires later == second + ToInt(NextInterval(s, first, second))
    requires |clock| == ExpiredCount(s.timers, later)
    ensures var d := s.timers[0].deadline;
            TakeExpired(s, later, clock).0 != []
            <==> d <= second || (first <= d && d - second < HALF_RANGE)
  {
    ExpiredExactly(s, later);
    if first <= s.timers[0].deadline { IntervalLowBits(s, first, second); }
  }
}
