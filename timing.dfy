/**
  The fixed-step accumulator of src/main.ts (`createTimer`).

  Each call adds the elapsed time `dt` to an accumulator and then, while the
  accumulator is STRICTLY greater than the interval, subtracts one interval and
  fires the callback once. Time is modelled as exact `real` milliseconds.
*/
module Timing {

  /** The time covered by `n` whole intervals, n * interval, written by repeated
      addition so that the proofs about the timer stay in linear arithmetic. */
  function Span(n: nat, interval: real): (r: real)
    ensures interval >= 0.0 ==> r >= 0.0
  {
    if n == 0 then 0.0 else Span(n - 1, interval) + interval
  }

  /** Span is the product n * interval. */
  lemma {:induction false} SpanIsProduct(n: nat, interval: real)
    ensures Span(n, interval) == n as real * interval
  {
    if n > 0 {
      SpanIsProduct(n - 1, interval);
    }
  }

  /** More intervals cover strictly more time. */
  lemma {:induction false} SpanStrictlyIncreasing(a: nat, b: nat, interval: real)
    requires a < b && interval > 0.0
    ensures Span(a, interval) < Span(b, interval)
  {
    if a < b - 1 {
      SpanStrictlyIncreasing(a, b - 1, interval);
    }
  }

  /** Comparing spans compares the interval counts. */
  lemma SpanOrder(a: nat, b: nat, interval: real)
    requires interval > 0.0 && Span(a, interval) < Span(b, interval)
    ensures a < b
  {
    if b <= a {
      if b < a {
        SpanStrictlyIncreasing(b, a, interval);
      }
      assert false;
    }
  }

  /** `n` firings are consistent with a cumulative time `total`: none before any
      time has passed, and otherwise `total` lies in (n*interval, (n+1)*interval],
      because the loop keeps firing only while MORE than one interval remains. */
  ghost predicate Brackets(total: real, interval: real, n: nat)
  {
    if total == 0.0 then n == 0
    else Span(n, interval) < total <= Span(n + 1, interval)
  }

  /** A count bracketing `total` exists: ceil(total/interval) - 1 for a positive total. */
  lemma BracketExists(total: real, interval: real)
    requires total >= 0.0 && interval > 0.0
    ensures exists n: nat :: Brackets(total, interval, n)
  {
    if total == 0.0 {
      assert Brackets(total, interval, 0);
    } else {
      var q := total / interval;
      var f := (-q).Floor;
      assert q * interval == total;
      assert f as real <= -q < f as real + 1.0;
      var n: nat := -f - 1;
      assert n as real * interval < total by {
        assert n as real < q;
        ScaleStrict(n as real, q, interval);
      }
      assert total <= (n + 1) as real * interval by {
        assert q <= (n + 1) as real;
        ScaleWeak(q, (n + 1) as real, interval);
      }
      SpanIsProduct(n, interval);
      SpanIsProduct(n + 1, interval);
      assert Brackets(total, interval, n);
    }
  }

  /** Multiplying both sides of `a < b` by a positive interval. */
  lemma ScaleStrict(a: real, b: real, interval: real)
    requires a < b && interval > 0.0
    ensures a * interval < b * interval
  {
  }

  /** Multiplying both sides of `a <= b` by a positive interval. */
  lemma ScaleWeak(a: real, b: real, interval: real)
    requires a <= b && interval > 0.0
    ensures a * interval <= b * interval
  {
  }

  /** How many times a timer with the given interval has fired once a cumulative
      time `total` has been fed to it, however that time was split across calls.
      Because the loop guard is `>` rather than `>=`, this is ceil(total/interval) - 1
      for a positive total (and 0 for no time at all): a total that is an exact
      multiple of the interval leaves one full interval in the accumulator. */
  ghost function FireCount(total: real, interval: real): (n: nat)
    requires total >= 0.0 && interval > 0.0
    ensures total == 0.0 ==> n == 0
    ensures total > 0.0 ==> Span(n, interval) < total <= Span(n, interval) + interval
  {
    BracketExists(total, interval);
    var n: nat :| Brackets(total, interval, n);
    n
  }

  /** Any count that satisfies the firing bounds for `total` is FireCount(total): the
      number of firings is determined by the cumulative time alone. */
  lemma FireCountUnique(total: real, interval: real, n: nat)
    requires total >= 0.0 && interval > 0.0
    requires total == 0.0 ==> n == 0
    requires total > 0.0 ==> Span(n, interval) < total <= Span(n, interval) + interval
    ensures n == FireCount(total, interval)
  {
    var m := FireCount(total, interval);
    if total > 0.0 {
      SpanOrder(m, n + 1, interval);
      SpanOrder(n, m + 1, interval);
    }
  }

  /** A cumulative time of exactly n + 1 intervals fires only n times: a timer fed
      exactly one interval has not fired yet. */
  lemma ExactMultipleFiresOneLess(n: nat, interval: real)
    requires interval > 0.0
    ensures FireCount(Span(n + 1, interval), interval) == n
  {
    FireCountUnique(Span(n + 1, interval), interval, n);
  }

  /** Feeding more time never lowers the firing count. */
  lemma FireCountMonotone(a: real, b: real, interval: real)
    requires 0.0 <= a <= b && interval > 0.0
    ensures FireCount(a, interval) <= FireCount(b, interval)
  {
    var m, n := FireCount(a, interval), FireCount(b, interval);
    if a > 0.0 {
      SpanOrder(m, n + 1, interval);
    }
  }

  /** The closure returned by `createTimer`: its captured `accumulator` becomes a
      field. The ghost fields `elapsed` (all time fed so far) and `ticks` (all
      firings so far) record the history that the invariant relates. */
  class Timer {
    const interval: real
    var accumulator: real
    ghost var elapsed: real
    ghost var ticks: nat

    ghost predicate Valid()
      reads this
    {
      && interval > 0.0
      && elapsed >= 0.0
      && 0.0 <= accumulator <= interval
      && accumulator == elapsed - Span(ticks, interval)
      && (elapsed > 0.0 ==> accumulator > 0.0)
      && ticks == FireCount(elapsed, interval)
    }

    constructor (interval: real)
      requires interval > 0.0
      ensures Valid() && this.interval == interval
      ensures accumulator == 0.0 && elapsed == 0.0 && ticks == 0
    {
      this.interval := interval;
      accumulator := 0.0;
      elapsed := 0.0;
      ticks := 0;
    }

    /** Feeds `dt` milliseconds to the timer and returns how many times the
        callback fired; each firing passes exactly `interval` to the callback.
        The source does not guard negative `dt`; frame deltas are differences of
        monotone timestamps, so `dt >= 0` is required. */
    method Advance(dt: real) returns (fired: nat)
      requires Valid() && dt >= 0.0
      modifies this
      ensures Valid()
      ensures accumulator == old(accumulator) + dt - Span(fired, interval)
      ensures elapsed == old(elapsed) + dt && ticks == old(ticks) + fired
      ensures dt == 0.0 ==> fired == 0
    {
      accumulator := accumulator + dt;
      elapsed := elapsed + dt;
      fired := 0;
      FireCountMonotone(old(elapsed), elapsed, interval);
      while accumulator > interval
        invariant elapsed == old(elapsed) + dt
        invariant ticks == old(ticks) + fired
        invariant accumulator == elapsed - Span(ticks, interval)
        invariant accumulator == old(accumulator) + dt - Span(fired, interval)
        invariant accumulator > 0.0 || elapsed == 0.0
        invariant ticks <= FireCount(elapsed, interval)
        invariant dt == 0.0 ==> fired == 0
        decreases FireCount(elapsed, interval) - ticks
      {
        SpanOrder(ticks + 1, FireCount(elapsed, interval) + 1, interval);
        accumulator := accumulator - interval;
        ticks := ticks + 1;
        fired := fired + 1;
      }
      FireCountUnique(elapsed, interval, ticks);
    }
  }

  /** The total of a list of frame deltas. */
  function Total(dts: seq<real>): (t: real)
    ensures (forall i :: 0 <= i < |dts| ==> dts[i] >= 0.0) ==> t >= 0.0
  {
    if dts == [] then 0.0 else Total(dts[..|dts| - 1]) + dts[|dts| - 1]
  }

  /** However a cumulative time is split into non-negative deltas, a fresh timer
      fed them one call at a time fires FireCount(total) times in all: the same
      count as feeding the total in one call. */
  method FeedAll(interval: real, dts: seq<real>) returns (fired: nat)
    requires interval > 0.0
    requires forall i :: 0 <= i < |dts| ==> dts[i] >= 0.0
    ensures fired == FireCount(Total(dts), interval)
  {
    var timer := new Timer(interval);
    fired := 0;
    var i := 0;
    while i < |dts|
      invariant 0 <= i <= |dts|
      invariant timer.Valid() && timer.interval == interval
      invariant timer.elapsed == Total(dts[..i]) && timer.ticks == fired
    {
      assert dts[..i + 1][..i] == dts[..i];
      var n := timer.Advance(dts[i]);
      fired := fired + n;
      i := i + 1;
    }
    assert dts[..i] == dts;
  }
}
