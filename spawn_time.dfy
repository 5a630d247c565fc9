/** The spawn-time resolver `getStaticSpawnTS`: for every item of the
    occurrence table, the timestamp of its listed cycle that lies closest to
    the current cycle's start. */
module SpawnTime {
  import opened Values

  /** What `nextCycleT.jewelry[`cycle_${offset}`]` yields: a number, or
      `undefined` when the endpoint sent no entry for that offset. The map
      `jewelry` is keyed by the offset itself. */
  datatype Stamp = Undefined | At(ts: int)

  function Lookup(jewelry: map<int, int>, offset: int): Stamp
  {
    if offset in jewelry then At(jewelry[offset]) else Undefined
  }

  /** `Math.abs(ts - currCycleST)` */
  function Distance(anchor: int, ts: int): nat
  {
    if ts < anchor then anchor - ts else ts - anchor
  }

  /** `Math.abs(candidate - anchor) < Math.abs(nearest - anchor)`. An
      `undefined` operand makes its side NaN, and a comparison with NaN is
      false. */
  predicate Closer(anchor: int, candidate: Stamp, nearest: Stamp)
  {
    candidate.At? && nearest.At? && Distance(anchor, candidate.ts) < Distance(anchor, nearest.ts)
  }

  /** The callback given to `reduce`: the candidate replaces the running
      nearest only when it is strictly closer. */
  function Reducer(anchor: int, jewelry: map<int, int>, nearest: Stamp, offset: int): Stamp
  {
    var candidate := Lookup(jewelry, offset);
    if Closer(anchor, candidate, nearest) then candidate else nearest
  }

  /** `offsets.reduce(Reducer, seed)`: a left fold that visits the offsets in
      list order, so the last offset is the one applied last. An `undefined`
      seed is never replaced, since every comparison against it is with NaN;
      a numeric seed only gives way to timestamps closer to the anchor. */
  function Reduce(anchor: int, jewelry: map<int, int>, offsets: seq<int>, seed: Stamp): (r: Stamp)
    ensures seed.Undefined? ==> r == Undefined
    ensures seed.At? ==> r.At? && Distance(anchor, r.ts) <= Distance(anchor, seed.ts)
  {
    if offsets == [] then seed
    else Reducer(anchor, jewelry, Reduce(anchor, jewelry, offsets[..|offsets| - 1], seed), offsets[|offsets| - 1])
  }

  /** The value stored for one item: `null` (None) for an empty offset list,
      otherwise the reduction seeded with the first offset's timestamp. */
  function NearestTS(anchor: int, jewelry: map<int, int>, offsets: seq<int>): (r: Option<Stamp>)
    ensures r.None? <==> offsets == []
  {
    if |offsets| > 0 then Some(Reduce(anchor, jewelry, offsets, Lookup(jewelry, offsets[0]))) else None
  }

  /** Position `i` holds the earliest-listed timestamp among those nearest to
      the anchor: no listed timestamp is strictly closer, and every listed
      timestamp before position `i` is strictly farther. Offsets the endpoint
      did not send take no part. */
  ghost predicate EarliestNearest(anchor: int, jewelry: map<int, int>, offsets: seq<int>, i: int)
  {
    && 0 <= i < |offsets|
    && offsets[i] in jewelry
    && (forall j :: 0 <= j < |offsets| && offsets[j] in jewelry ==>
          Distance(anchor, jewelry[offsets[i]]) <= Distance(anchor, jewelry[offsets[j]]))
    && (forall j :: 0 <= j < i && offsets[j] in jewelry ==>
          Distance(anchor, jewelry[offsets[i]]) < Distance(anchor, jewelry[offsets[j]]))
  }

  /** At most one position meets EarliestNearest, so it pins the result down. */
  lemma EarliestNearestIsUnique(anchor: int, jewelry: map<int, int>, offsets: seq<int>, i: int, k: int)
    requires EarliestNearest(anchor, jewelry, offsets, i)
    requires EarliestNearest(anchor, jewelry, offsets, k)
    ensures i == k
  {
  }

  /** For a non-empty list whose first offset the endpoint sent, the result is
      the timestamp of a listed offset that no listed timestamp beats, and ties
      go to the earliest position in the list; the lemma returns that position. */
  lemma {:induction false} NearestAt(anchor: int, jewelry: map<int, int>, offsets: seq<int>) returns (i: int)
    requires |offsets| > 0 && offsets[0] in jewelry
    ensures EarliestNearest(anchor, jewelry, offsets, i)
    ensures NearestTS(anchor, jewelry, offsets) == Some(At(jewelry[offsets[i]]))
  {
    var n := |offsets|;
    if n == 1 {
      i := 0;
      assert offsets[..0] == [];
      assert Reduce(anchor, jewelry, offsets, At(jewelry[offsets[0]])) == At(jewelry[offsets[0]]);
    } else {
      var init := offsets[..n - 1];
      assert init[0] == offsets[0];
      var k := NearestAt(anchor, jewelry, init);
      var seed := Lookup(jewelry, offsets[0]);
      var last := offsets[n - 1];
      assert Reduce(anchor, jewelry, offsets, seed) == Reducer(anchor, jewelry, Reduce(anchor, jewelry, init, seed), last);
      assert Reduce(anchor, jewelry, init, seed) == At(jewelry[init[k]]);
      if Closer(anchor, Lookup(jewelry, last), At(jewelry[init[k]])) {
        i := n - 1;
      } else {
        i := k;
      }
      assert Reduce(anchor, jewelry, offsets, seed) == At(jewelry[offsets[i]]);
    }
  }

  /** A non-empty item comes out `undefined` exactly when the endpoint sent no
      timestamp for its first offset; a missing later offset is only skipped. */
  lemma UndefinedIffFirstOffsetMissing(anchor: int, jewelry: map<int, int>, offsets: seq<int>)
    requires |offsets| > 0
    ensures NearestTS(anchor, jewelry, offsets) == Some(Undefined) <==> offsets[0] !in jewelry
  {
    if offsets[0] in jewelry {
      var i := NearestAt(anchor, jewelry, offsets);
    }
  }

  /** `getStaticSpawnTS`: fills a fresh object with one entry per item of the
      occurrence table, in whatever order the keys are visited. The anchor is
      the current cycle's start time (the caller passes `cycles[1].startTime`). */
  method GetStaticSpawnTS(table: map<string, seq<int>>, anchor: int, jewelry: map<int, int>)
    returns (spawn: map<string, Option<Stamp>>)
    ensures spawn.Keys == table.Keys
    ensures forall item :: item in table ==> spawn[item] == NearestTS(anchor, jewelry, table[item])
  {
    spawn := map[];
    var pending := table.Keys;
    while pending != {}
      invariant pending <= table.Keys
      invariant spawn.Keys == table.Keys - pending
      invariant forall item :: item in spawn ==> spawn[item] == NearestTS(anchor, jewelry, table[item])
      decreases pending
    {
      var item :| item in pending;
      spawn := spawn[item := NearestTS(anchor, jewelry, table[item])];
      pending := pending - {item};
    }
  }
}
