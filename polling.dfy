/** One polling session of the daily job, run sequentially over the `updated`
    markers that successive fetches return: the rotation detector decides
    whether to stop, and the backoff ladder chooses the delay before the next
    attempt. Attempts are numbered from 1; `updates[k]` is the marker of
    attempt k + 1. */
module Polling {
  import opened Values
  import opened Rotation
  import opened Backoff

  /** Returns the position in `updates` of the attempt that saw the rotation
      (None when the markers run out first) and the delays chosen after each
      attempt that did not stop the session. */
  method PollSession<M(==)>(updates: seq<M>) returns (stop: Option<nat>, delays: seq<nat>)
    ensures stop == FirstRotation(updates)
    ensures |delays| == if stop.Some? then stop.value else |updates|
    ensures forall i :: 0 <= i < |delays| ==> delays[i] == Tier(i + 1)
  {
    var detector := new RotationDetector<M>();
    var ladder := new IntervalLadder();
    stop, delays := None, [];
    var k := 0;
    while k < |updates| && stop.None?
      invariant 0 <= k <= |updates|
      invariant stop.None? ==> detector.lastUpdated == if k == 0 then None else Some(updates[k - 1])
      invariant forall j :: 0 < j < k ==> updates[j] == updates[j - 1]
      invariant stop.Some? ==> 0 < stop.value == k < |updates| && updates[k] != updates[k - 1]
      invariant ladder.interval == IntervalAfter(k)
      invariant |delays| == k
      invariant forall i :: 0 <= i < k ==> delays[i] == IntervalAfter(i + 1)
      decreases |updates| - k, if stop.None? then 1 else 0
    {
      var done := detector.Until(updates[k]);
      if done {
        stop := Some(k);
      } else {
        var next := ladder.OnNext(k + 1);
        delays := delays + [next];
        k := k + 1;
      }
    }
    forall i | 0 <= i < |delays|
      ensures delays[i] == Tier(i + 1)
    {
      IntervalAfterIsTier(i + 1);
    }
  }
}
