/** The `until` predicate of the daily poll: it remembers the `updated`
    marker of the previous response in `lastUpdated` and reports the rotation
    of the cycle once a later response carries a different marker. */
module Rotation {
  import opened Values

  /** The state the closure captures. `lastUpdated == None` is the initial
      state (nothing observed yet); `Some(m)` is watching for a marker other
      than `m`. The session is over once Until has returned true. */
  class RotationDetector<M(==)> {
    var lastUpdated: Option<M>

    constructor ()
      ensures lastUpdated == None
    {
      lastUpdated := None;
    }

    /** Reports true only when a marker was recorded and the new one differs
        from it, leaving the record as it was; otherwise records the new
        marker and reports false. */
    method Until(updated: M) returns (done: bool)
      modifies this
      ensures done <==> old(lastUpdated).Some? && updated != old(lastUpdated).value
      ensures lastUpdated == if done then old(lastUpdated) else Some(updated)
    {
      if lastUpdated.Some? && updated != lastUpdated.value {
        return true;
      }
      lastUpdated := Some(updated);
      return false;
    }
  }

  /** The position, in a sequence of markers seen on successive attempts, of
      the first marker that differs from the one before it: the attempt on
      which the poll stops. The first attempt never qualifies. */
  function FirstRotation<M(==)>(updates: seq<M>): (r: Option<nat>)
    ensures r.Some? ==> 0 < r.value < |updates|
                        && updates[r.value] != updates[r.value - 1]
                        && forall j :: 0 < j < r.value ==> updates[j] == updates[j - 1]
    ensures r.None? ==> forall j :: 0 < j < |updates| ==> updates[j] == updates[j - 1]
  {
    if |updates| < 2 then None
    else
      var n := |updates|;
      match FirstRotation(updates[..n - 1])
      case Some(k) => Some(k)
      case None => if updates[n - 1] != updates[n - 2] then Some(n - 1) else None
  }
}
