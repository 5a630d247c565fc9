/** The daily history job: find today's cycle, rename its category fields,
    stamp it with today's date, and roll it into the persisted history by
    dropping the oldest entry and appending the new one. */
module CycleHistory {
  import opened Values

  /** `keyMappings`, in the order its keys are visited: old field name to new. */
  const KeyMappings: seq<(string, string)> :=
    [("jewelry", "lost_jewelry"), ("card", "tarot_cards"), ("fossil", "fossils"), ("heirloom", "heirlooms")]

  /** Renames that do not interfere: no old name twice, no new name twice, and
      no new name that is also an old name. */
  ghost predicate DistinctRenames(renames: seq<(string, string)>)
  {
    && (forall i, j :: 0 <= i < j < |renames| ==> renames[i].0 != renames[j].0 && renames[i].1 != renames[j].1)
    && (forall i, j :: 0 <= i < |renames| && 0 <= j < |renames| ==> renames[i].1 != renames[j].0)
  }

  /** A field name that no rename mentions. */
  predicate Unmapped(key: string, renames: seq<(string, string)>)
  {
    forall i :: 0 <= i < |renames| ==> key != renames[i].0 && key != renames[i].1
  }

  lemma KeyMappingsDistinct()
    ensures DistinctRenames(KeyMappings)
  {
  }

  /** One pass of the loop body: when the record has its own field `oldKey`,
      copy it to `newKey` and delete `oldKey`. */
  function RenameKey(record: Record, oldKey: string, newKey: string): (out: Record)
    ensures oldKey !in out
    ensures oldKey in record && oldKey != newKey ==> newKey in out && out[newKey] == record[oldKey]
    ensures oldKey !in record ==> out == record
    ensures forall key :: key != oldKey && key != newKey ==> KeptAs(out, record, key)
  {
    if oldKey in record then record[newKey := record[oldKey]] - {oldKey} else record
  }

  /** The renames applied one after the other, in list order. Whatever the
      renames, a field none of them mentions is kept, and the last rename's
      old name is gone. */
  function RenameAll(record: Record, renames: seq<(string, string)>): (out: Record)
    ensures forall key :: Unmapped(key, renames) ==> KeptAs(out, record, key)
    ensures |renames| > 0 ==> renames[|renames| - 1].0 !in out
  {
    if renames == [] then record
    else
      var n := |renames|;
      assert forall key :: Unmapped(key, renames) ==>
        Unmapped(key, renames[..n - 1]) && key != renames[n - 1].0 && key != renames[n - 1].1;
      RenameKey(RenameAll(record, renames[..n - 1]), renames[n - 1].0, renames[n - 1].1)
  }

  /** Every old name is gone. */
  ghost predicate OldNamesGone(out: Record, renames: seq<(string, string)>)
  {
    forall i :: 0 <= i < |renames| ==> renames[i].0 !in out
  }

  /** The value of each present old name now sits under its new name. */
  ghost predicate ValuesMoved(out: Record, record: Record, renames: seq<(string, string)>)
  {
    forall i :: 0 <= i < |renames| && renames[i].0 in record ==>
      renames[i].1 in out && out[renames[i].1] == record[renames[i].0]
  }

  /** A field is kept as it was: present in both with the same value, or absent from both. */
  ghost predicate KeptAs(out: Record, record: Record, key: string)
  {
    (key in out <==> key in record) && (key in record ==> out[key] == record[key])
  }

  /** A new name whose old name was absent keeps what it had. */
  ghost predicate IdleNewNamesKept(out: Record, record: Record, renames: seq<(string, string)>)
  {
    forall i :: 0 <= i < |renames| && renames[i].0 !in record ==> KeptAs(out, record, renames[i].1)
  }

  /** Every field the renames do not mention is kept. */
  ghost predicate OthersKept(out: Record, record: Record, renames: seq<(string, string)>)
  {
    forall key :: Unmapped(key, renames) ==> KeptAs(out, record, key)
  }

  /** What the rename loop does to a record, field by field. */
  ghost predicate RenamedFrom(out: Record, record: Record, renames: seq<(string, string)>)
  {
    && OldNamesGone(out, renames)
    && ValuesMoved(out, record, renames)
    && IdleNewNamesKept(out, record, renames)
    && OthersKept(out, record, renames)
  }

  /** One more rename, whose names the earlier renames do not mention, extends
      the field-by-field effect to the longer list. */
  lemma RenameKeyStep(record: Record, mid: Record, init: seq<(string, string)>, oldKey: string, newKey: string)
    requires RenamedFrom(mid, record, init)
    requires oldKey != newKey
    requires Unmapped(oldKey, init) && Unmapped(newKey, init)
    ensures RenamedFrom(RenameKey(mid, oldKey, newKey), record, init + [(oldKey, newKey)])
  {
    var out := RenameKey(mid, oldKey, newKey);
    var renames := init + [(oldKey, newKey)];
    var n := |renames|;
    assert KeptAs(mid, record, oldKey) && KeptAs(mid, record, newKey);
    forall i | 0 <= i < n - 1
      ensures renames[i] == init[i]
      ensures KeptAs(out, mid, renames[i].0) && KeptAs(out, mid, renames[i].1)
    {
    }
    assert renames[n - 1] == (oldKey, newKey);
    forall key | Unmapped(key, renames)
      ensures KeptAs(out, record, key)
    {
      assert key != renames[n - 1].0 && key != renames[n - 1].1;
      assert Unmapped(key, init);
      assert KeptAs(mid, record, key);
    }
  }

  /** Applying non-interfering renames one at a time has the field-by-field
      effect RenamedFrom. */
  lemma {:induction false} RenameAllRenames(record: Record, renames: seq<(string, string)>)
    requires DistinctRenames(renames)
    ensures RenamedFrom(RenameAll(record, renames), record, renames)
  {
    if renames != [] {
      var n := |renames|;
      var init := renames[..n - 1];
      var (oldKey, newKey) := renames[n - 1];
      assert DistinctRenames(init);
      RenameAllRenames(record, init);
      assert Unmapped(oldKey, init) && Unmapped(newKey, init) by {
        forall i | 0 <= i < n - 1
          ensures init[i].0 != oldKey && init[i].1 != oldKey && init[i].0 != newKey && init[i].1 != newKey
        {
          assert init[i] == renames[i];
        }
      }
      assert renames == init + [(oldKey, newKey)];
      RenameKeyStep(record, RenameAll(record, init), init, oldKey, newKey);
    }
  }

  /** The matched cycle after the rename loop and `matchingCycle.date = currentDate`. */
  function Prepared(record: Record, today: string): (out: Record)
    ensures "date" in out && out["date"] == Str(today)
  {
    RenameAll(record, KeyMappings)["date" := Str(today)]
  }

  /** The prepared record: `jewelry`, `card`, `fossil` and `heirloom` are gone,
      each present one's value sits under `lost_jewelry`, `tarot_cards`,
      `fossils` or `heirlooms`, `date` holds today's date, and every field the
      mapping does not name is untouched. */
  lemma PreparedRecord(record: Record, today: string)
    ensures var out := Prepared(record, today);
      && (forall i :: 0 <= i < |KeyMappings| ==> KeyMappings[i].0 !in out)
      && (forall i :: 0 <= i < |KeyMappings| && KeyMappings[i].0 in record ==>
            KeyMappings[i].1 in out && out[KeyMappings[i].1] == record[KeyMappings[i].0])
      && (forall i :: 0 <= i < |KeyMappings| && KeyMappings[i].0 !in record ==> KeptAs(out, record, KeyMappings[i].1))
      && (forall key :: key != "date" && Unmapped(key, KeyMappings) ==> KeptAs(out, record, key))
  {
    KeyMappingsDistinct();
    RenameAllRenames(record, KeyMappings);
  }

  /** `cycles.find(...)`: the position of the first cycle whose date is today. */
  function FindFirst(cycles: seq<Record>, cycleDate: Record -> string, today: string): (r: Option<nat>)
    ensures r.Some? ==> r.value < |cycles| && cycleDate(cycles[r.value]) == today
                        && forall j :: 0 <= j < r.value ==> cycleDate(cycles[j]) != today
    ensures r.None? ==> forall j :: 0 <= j < |cycles| ==> cycleDate(cycles[j]) != today
  {
    if cycles == [] then None
    else
      var n := |cycles|;
      match FindFirst(cycles[..n - 1], cycleDate, today)
      case Some(i) => Some(i)
      case None => if cycleDate(cycles[n - 1]) == today then Some(n - 1) else None
  }

  /** `shift` then `push`: the oldest entry (if any) leaves and `record`
      becomes the newest. */
  function Rolled(history: seq<Record>, record: Record): (r: seq<Record>)
    ensures |r| == if |history| > 0 then |history| else 1
    ensures r[|r| - 1] == record
    ensures forall i :: 0 <= i < |r| - 1 ==> r[i] == history[i + 1]
  {
    (if |history| > 0 then history[1..] else []) + [record]
  }

  /** The daily job between reading and writing the history file: `existing`
      is the parsed history; the result is the array written back, or None
      when no cycle falls on today and nothing is written. */
  method UpdateHistory(cycles: seq<Record>, cycleDate: Record -> string, today: string, existing: seq<Record>)
    returns (written: Option<seq<Record>>)
    ensures written.None? <==> FindFirst(cycles, cycleDate, today).None?
    ensures written.Some? ==> written.value == Rolled(existing, Prepared(cycles[FindFirst(cycles, cycleDate, today).value], today))
  {
    var found := FindFirst(cycles, cycleDate, today);
    if found.None? {
      return None;
    }
    var matching := cycles[found.value];
    for i := 0 to |KeyMappings|
      invariant matching == RenameAll(cycles[found.value], KeyMappings[..i])
    {
      var (oldKey, newKey) := KeyMappings[i];
      if oldKey in matching {
        matching := matching[newKey := matching[oldKey]];
        matching := matching - {oldKey};
      }
      assert KeyMappings[..i + 1][..i] == KeyMappings[..i];
    }
    assert KeyMappings[..|KeyMappings|] == KeyMappings;
    matching := matching["date" := Str(today)];
    var history := existing;
    if |history| > 0 {
      history := history[1..];
    }
    history := history + [matching];
    written := Some(history);
  }
}
