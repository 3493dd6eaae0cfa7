/** The round-robin balancer: the n-th call goes to worker n modulo the number of threads. */
module Balancer {
  /** The worker chosen by each of `k` consecutive calls, the first one with counter `start`. */
  function Window(start: nat, k: nat, workers: nat): (r: seq<nat>)
    requires workers > 0
    ensures |r| == k
  {
    if k == 0 then [] else Window(start, k - 1, workers) + [(start + k - 1) % workers]
  }

  function Count(s: seq<nat>, w: nat): (r: nat) {
    if s == [] then 0 else Count(s[..|s| - 1], w) + (if s[|s| - 1] == w then 1 else 0)
  }

  /** Calls for worker `w` among those with counters below `c`. */
  function Below(c: nat, w: nat, workers: nat): (r: nat)
    requires w < workers
  {
    if c <= w then 0 else 1 + (if c - w - 1 < workers then 0 else Below(c - workers, w, workers))
  }

  lemma {:induction false} BelowStep(c: nat, w: nat, workers: nat)
    requires w < workers
    ensures Below(c + 1, w, workers) == Below(c, w, workers) + (if c % workers == w then 1 else 0)
    decreases c
  {
    if c < workers {
      ModSmall(c, workers);
    } else {
      BelowStep(c - workers, w, workers);
      ModDrop(c, workers);
    }
  }

  lemma ModSmall(c: nat, n: nat)
    requires c < n
    ensures c % n == c
  {}

  lemma ModDrop(c: nat, n: nat)
    requires 0 < n <= c
    ensures (c - n) % n == c % n
  {
    var q, r := c / n, c % n;
    assert c == q * n + r;
    DivUnique(c - n, n, q - 1, r);
  }

  lemma DivUnique(x: nat, n: nat, q: int, r: nat)
    requires 0 < n && r < n && x == q * n + r
    ensures x % n == r
  {
    var q2, r2 := x / n, x % n;
    assert q2 * n + r2 == q * n + r;
    assert (q2 - q) * n == r - r2;
    if q2 - q >= 1 { MulBound(q2 - q, n); assert false; }
    if q2 - q <= -1 { MulBound(q - q2, n); assert false; }
  }

  lemma MulBound(a: int, n: nat)
    requires a >= 1
    ensures a * n >= n
  {}

  lemma {:induction false} CountIsDifference(start: nat, k: nat, w: nat, workers: nat)
    requires w < workers
    ensures Count(Window(start, k, workers), w) == Below(start + k, w, workers) - Below(start, w, workers)
    decreases k
  {
    if k > 0 {
      var s := Window(start, k, workers);
      assert s[..|s| - 1] == Window(start, k - 1, workers);
      CountIsDifference(start, k - 1, w, workers);
      BelowStep(start + k - 1, w, workers);
    }
  }

  /** Any window as long as there are workers calls each of them once. */
  lemma BelowBlock(c: nat, w: nat, workers: nat)
    requires w < workers
    ensures Below(c + workers, w, workers) == Below(c, w, workers) + 1
  {}

  lemma {:induction false} BelowMonotone(c: nat, k: nat, w: nat, workers: nat)
    requires w < workers
    ensures Below(c, w, workers) <= Below(c + k, w, workers)
    decreases k
  {
    if k > 0 {
      BelowMonotone(c, k - 1, w, workers);
      BelowStep(c + k - 1, w, workers);
    }
  }

  lemma DivDrop(k: nat, n: nat)
    requires 0 < n <= k
    ensures k / n == (k - n) / n + 1
  {
    ModDrop(k, n);
    var a, b := k / n, (k - n) / n;
    assert k == a * n + k % n && k - n == b * n + (k - n) % n;
    assert (a - b - 1) * n == 0;
    if a - b - 1 >= 1 { MulBound(a - b - 1, n); }
    if a - b - 1 <= -1 { MulBound(b + 1 - a, n); }
  }

  lemma {:induction false} ShareOfWindow(start: nat, k: nat, w: nat, workers: nat)
    requires w < workers
    ensures var share := Below(start + k, w, workers) - Below(start, w, workers);
            k / workers <= share <= k / workers + (if k % workers == 0 then 0 else 1)
    decreases k
  {
    if k < workers {
      ModSmall(k, workers);
      BelowMonotone(start, k, w, workers);
      BelowMonotone(start + k, workers - k, w, workers);
      BelowBlock(start, w, workers);
      assert k / workers == 0 by { DivSmall(k, workers); }
    } else {
      ShareOfWindow(start, k - workers, w, workers);
      BelowBlock(start + k - workers, w, workers);
      ModDrop(k, workers);
      DivDrop(k, workers);
    }
  }

  lemma DivSmall(k: nat, n: nat)
    requires k < n
    ensures k / n == 0
  {}

  /** Fairness: of any `k` consecutive calls every worker gets floor(k / n) or ceil(k / n). */
  lemma RoundRobinIsFair(start: nat, k: nat, w: nat, workers: nat)
    requires w < workers
    ensures var share := Count(Window(start, k, workers), w);
            k / workers <= share <= k / workers + (if k % workers == 0 then 0 else 1)
  {
    CountIsDifference(start, k, w, workers);
    ShareOfWindow(start, k, w, workers);
  }

  // ---------------------------------------------------------------------------
  // When the counter wraps
  // ---------------------------------------------------------------------------

  /** The choices of `k` consecutive calls when the counter wraps at `wrap`. */
  function WrappedWindow(start: nat, k: nat, wrap: nat, workers: nat): (r: seq<nat>)
    requires workers > 0 && wrap > 0
    ensures |r| == k
  {
    if k == 0 then [] else WrappedWindow(start, k - 1, wrap, workers) + [(start + k - 1) % wrap % workers]
  }

  predicate Fair(share: nat, k: nat, workers: nat)
    requires workers > 0
  {
    k / workers <= share <= k / workers + (if k % workers == 0 then 0 else 1)
  }

  lemma {:induction false} WrappedAt(start: nat, k: nat, wrap: nat, workers: nat, i: nat)
    requires workers > 0 && wrap > 0 && i < k
    ensures WrappedWindow(start, k, wrap, workers)[i] == (start + i) % wrap % workers
    decreases k
  {
    if i < k - 1 { WrappedAt(start, k - 1, wrap, workers, i); }
  }

  lemma {:induction false} ModOfMultiple(c: nat, wrap: nat, n: nat)
    requires 0 < n && 0 < wrap && wrap % n == 0
    ensures c % wrap % n == c % n
    decreases c
  {
    if c < wrap {
      ModSmall(c, wrap);
    } else {
      ModDrop(c, wrap);
      ModOfMultiple(c - wrap, wrap, n);
      var q, r := (c - wrap) / n, (c - wrap) % n;
      assert wrap == wrap / n * n;
      assert c == (q + wrap / n) * n + r;
      DivUnique(c, n, q + wrap / n, r);
    }
  }

  lemma {:induction false} WrapIsInvisible(start: nat, k: nat, wrap: nat, workers: nat)
    requires workers > 0 && wrap > 0 && (start + k <= wrap || wrap % workers == 0)
    ensures WrappedWindow(start, k, wrap, workers) == Window(start, k, workers)
    decreases k
  {
    if k > 0 {
      WrapIsInvisible(start, k - 1, wrap, workers);
      if start + k <= wrap { ModSmall(start + k - 1, wrap); } else { ModOfMultiple(start + k - 1, wrap, workers); }
    }
  }

  /** A window is fair when the counter does not wrap in it, or wraps at a multiple of the number of
      workers. */
  lemma WindowIsFair(start: nat, k: nat, wrap: nat, w: nat, workers: nat)
    requires w < workers && wrap > 0 && (start + k <= wrap || wrap % workers == 0)
    ensures Fair(Count(WrappedWindow(start, k, wrap, workers), w), k, workers)
  {
    WrapIsInvisible(start, k, wrap, workers);
    RoundRobinIsFair(start, k, w, workers);
  }

  lemma {:induction false} CountOccurs(s: seq<nat>, w: nat, i: nat)
    requires i < |s| && s[i] == w
    ensures Count(s, w) >= 1
    decreases s
  {
    if i < |s| - 1 { CountOccurs(s[..|s| - 1], w, i); }
  }

  lemma CountTwice(s: seq<nat>, w: nat)
    requires |s| >= 2 && s[0] == w && s[|s| - 1] == w
    ensures Count(s, w) >= 2
  {
    CountOccurs(s[..|s| - 1], w, 0);
  }

  lemma BeforeTheWrap(wrap: nat, n: nat)
    requires n > 0 && wrap > 0 && wrap % n != 0
    ensures (wrap - 1) % wrap % n == wrap % n - 1
  {
    var q, r := wrap / n, wrap % n;
    assert wrap == q * n + r;
    ModSmall(wrap - 1, wrap);
    DivUnique(wrap - 1, n, q, r - 1);
  }

  lemma AfterTheWrap(wrap: nat, n: nat)
    requires n > 0 && wrap > 0 && wrap % n != 0
    ensures (wrap - 1 + wrap % n) % wrap % n == wrap % n - 1
  {
    var r := wrap % n;
    RemainderIsSmaller(wrap, n);
    DivUnique(wrap - 1 + r, wrap, 1, r - 1);
    ModSmall(r - 1, n);
  }

  lemma TwoAreTooMany(share: nat, k: nat, workers: nat)
    requires 0 < k <= workers && share >= 2
    ensures !Fair(share, k, workers)
  {
    if k < workers { DivSmall(k, workers); } else { DivUnique(k, workers, 1, 0); DivDrop(k, workers); }
  }

  /** Otherwise the window that starts with the last call before the wrap gives one worker two of at
      most n calls. */
  lemma UnfairWindow(wrap: nat, workers: nat)
    requires workers > 0 && wrap > 0 && wrap % workers != 0
    ensures var r := wrap % workers;
            !Fair(Count(WrappedWindow(wrap - 1, r + 1, wrap, workers), r - 1), r + 1, workers)
  {
    var r := wrap % workers;
    var s := WrappedWindow(wrap - 1, r + 1, wrap, workers);
    WrappedAt(wrap - 1, r + 1, wrap, workers, 0);
    WrappedAt(wrap - 1, r + 1, wrap, workers, r);
    BeforeTheWrap(wrap, workers);
    AfterTheWrap(wrap, workers);
    CountTwice(s, r - 1);
    TwoAreTooMany(Count(s, r - 1), r + 1, workers);
  }

  lemma RemainderIsSmaller(x: nat, n: nat)
    requires n > 0
    ensures x % n <= x
  {
    if x < n { ModSmall(x, n); }
  }

  ghost predicate AlwaysFair(wrap: nat, workers: nat)
    requires workers > 0 && wrap > 0
  {
    forall start: nat, k: nat, w: nat :: start < wrap && w < workers ==>
      Fair(Count(WrappedWindow(start, k, wrap, workers), w), k, workers)
  }

  /** Every window is fair, across the wrap of the counter too, iff the number of workers divides the
      number of counter values. */
  lemma FairAcrossWrapExactly(wrap: nat, workers: nat)
    requires workers > 0 && wrap > 0
    ensures AlwaysFair(wrap, workers) <==> wrap % workers == 0
  {
    if wrap % workers == 0 {
      forall start: nat, k: nat, w: nat | start < wrap && w < workers
        ensures Fair(Count(WrappedWindow(start, k, wrap, workers), w), k, workers)
      {
        WindowIsFair(start, k, wrap, w, workers);
      }
    } else {
      UnfairWindow(wrap, workers);
    }
  }

  /** Values of the size_t counter. */
  const COUNTER_RANGE: nat := 0x1_0000_0000_0000_0000

  class SequenceBalancer {
    const threads: nat
    var count: nat                     // the static size_t counter
    ghost var start: nat
    ghost var chosen: seq<nat>         // workers chosen since `start`

    ghost predicate Valid()
      reads this
    {
      && threads > 0
      && start < COUNTER_RANGE
      && count == (start + |chosen|) % COUNTER_RANGE
      && chosen == WrappedWindow(start, |chosen|, COUNTER_RANGE, threads)
    }

    /** `count` is shared by all balancers, so a new one starts at any value of it. */
    constructor (threads: nat, count: nat)
      requires threads > 0 && count < COUNTER_RANGE
      ensures Valid() && chosen == [] && start == count && this.threads == threads
    {
      this.threads, this.count, start, chosen := threads, count, count, [];
    }

    /** Choose the worker of one call. */
    method Schedule() returns (worker: nat)
      requires Valid()
      modifies this`count, this`chosen
      ensures Valid() && worker < threads && chosen == old(chosen) + [worker]
      ensures start + |chosen| <= COUNTER_RANGE || COUNTER_RANGE % threads == 0 ==>
                forall w :: 0 <= w < threads ==> Fair(Count(chosen, w), |chosen|, threads)
    {
      worker := count % threads;
      NextCount(start + |chosen|);
      count := (count + 1) % COUNTER_RANGE;
      chosen := chosen + [worker];
      if start + |chosen| <= COUNTER_RANGE || COUNTER_RANGE % threads == 0 {
        forall w | 0 <= w < threads ensures Fair(Count(chosen, w), |chosen|, threads) {
          WindowIsFair(start, |chosen|, COUNTER_RANGE, w, threads);
        }
      }
    }
  }

  lemma NextCount(c: nat)
    ensures (c % COUNTER_RANGE + 1) % COUNTER_RANGE == (c + 1) % COUNTER_RANGE
  {}
}
