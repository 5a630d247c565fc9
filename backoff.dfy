/** The backoff ladder of the daily poll: `dynaInterval` starts at 6000 ms and
    `onNext` replaces it when the attempt number is a key of `intervalMap`. */
module Backoff {

  const InitialInterval: nat := 6000

  /** `intervalMap`: attempt number to the interval (ms) used from then on. */
  const IntervalMap: map<int, nat> := map[60 := 60000, 100 := 120000, 200 := 300000]

  /** The captured variable `dynaInterval` and the `onNext` callback. */
  class IntervalLadder {
    var interval: nat

    constructor ()
      ensures interval == InitialInterval
    {
      interval := InitialInterval;
    }

    /** Switches to the mapped interval when `attempt` is a key of
        IntervalMap, keeps the current one otherwise, and returns the
        interval now in force. */
    method OnNext(attempt: int) returns (next: nat)
      modifies this
      ensures interval == if attempt in IntervalMap then IntervalMap[attempt] else old(interval)
      ensures next == interval
    {
      if attempt in IntervalMap {
        interval := IntervalMap[attempt];
      }
      next := interval;
    }
  }

  /** `dynaInterval` once `onNext` has run for attempts 1 to n in order. */
  function IntervalAfter(n: nat): (r: nat)
    ensures r == InitialInterval || r in IntervalMap.Values
  {
    if n == 0 then InitialInterval
    else if n in IntervalMap then IntervalMap[n]
    else IntervalAfter(n - 1)
  }

  /** The ladder as bands of attempt numbers. */
  function Tier(n: nat): nat
  {
    if n < 60 then 6000
    else if n < 100 then 60000
    else if n < 200 then 120000
    else 300000
  }

  /** Running onNext over attempts 1..n lands on the band of attempt n. */
  lemma {:induction false} IntervalAfterIsTier(n: nat)
    ensures IntervalAfter(n) == Tier(n)
  {
    if n > 0 {
      IntervalAfterIsTier(n - 1);
    }
  }

  /** The interval never decreases as the attempts go on. */
  lemma {:induction false} IntervalMonotone(m: nat, n: nat)
    requires m <= n
    ensures IntervalAfter(m) <= IntervalAfter(n)
  {
    IntervalAfterIsTier(m);
    IntervalAfterIsTier(n);
  }

  /** Attempt n changes the interval exactly when n is 60, 100 or 200. */
  lemma IntervalChangesOnlyAtThresholds(n: nat)
    requires n > 0
    ensures IntervalAfter(n) != IntervalAfter(n - 1) <==> n in IntervalMap
  {
    IntervalAfterIsTier(n);
    IntervalAfterIsTier(n - 1);
  }

  /** Drives the ladder over attempts 1..n, collecting what onNext returns
      after each attempt: the delay before the attempt that follows. */
  method RunLadder(n: nat) returns (intervals: seq<nat>)
    ensures |intervals| == n
    ensures forall i :: 0 <= i < n ==> intervals[i] == Tier(i + 1)
    ensures forall i, j :: 0 <= i <= j < n ==> intervals[i] <= intervals[j]
  {
    var ladder := new IntervalLadder();
    intervals := [];
    for attempt := 1 to n + 1
      invariant ladder.interval == IntervalAfter(attempt - 1)
      invariant |intervals| == attempt - 1
      invariant forall i :: 0 <= i < attempt - 1 ==> intervals[i] == IntervalAfter(i + 1)
    {
      var next := ladder.OnNext(attempt);
      intervals := intervals + [next];
    }
    forall i | 0 <= i < n
      ensures intervals[i] == Tier(i + 1)
    {
      IntervalAfterIsTier(i + 1);
    }
  }
}
