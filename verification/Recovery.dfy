/** The interleaved model and the maintenance pass put together: what a pass makes of any history. */
module Recovery {
  import opened Common
  import opened Shares
  import opened ShareProperties
  import opened ObjectStore
  import opened Maintenance
  import L = Lifecycle
  import LifecycleProofs

  /** What an interleaved state says of the two stores: the keys of the rows, the files and their times. */
  ghost predicate Represents(s: L.State, t: Tables, root: Root) {
    && s.rows == ReferencedKeys(t)
    && (forall key :: ObjectAt(root, key) == if key in s.objects then Some(s.objects[key]) else None)
    && (forall name :: StageAt(root, name).Some? ==>
          exists key :: key in s.stages && s.stages[key] == StageAt(root, name).value)
  }

  ghost predicate Quiet(s: L.State, staleBefore: Time) {
    && (forall key :: key in s.objects ==> s.objects[key] <= staleBefore)
    && (forall key :: key in s.stages ==> s.stages[key] <= staleBefore)
  }

  /**
  Recovery. Take any history of uploads, deletions, maintenance passes and stops in
  which commits came in time, however it was interleaved, whatever removals failed
  and wherever it was cut off. One pass over the quiet stores it has left ends with
  exactly one object for every unexpired file row, no stage file and no backlog.
  */
  lemma RecoveryFromAnyHistory(
    clock: Time, steps: seq<L.Step>, t0: Tables, root0: Root,
    now: Instant, deleteFails: set<string>, t: Tables, root: Root, r: RunResult)
    requires L.Exec(L.Init(clock), steps).Some? && LifecycleProofs.Timely(L.Init(clock), steps)
    requires Represents(L.Exec(L.Init(clock), steps).value, t0, root0) && Shape(t0)
    requires Quiet(L.Exec(L.Init(clock), steps).value, now - L.GRACE)
    requires |ExpiredIds(t0, now)| <= 2048
    requires PassCompleted(t0, root0, now, deleteFails, t, root, r)
    ensures forall key :: ObjectAt(root, key).Some? <==>
      exists id :: id in t0.files && id !in ExpiredIds(t0, now) && t0.files[id].key == key
    ensures forall key :: ObjectAt(root, key).Some? <==> key in ReferencedKeys(t)
    ensures forall name :: StageAt(root, name) == None
    ensures !r.backlog && r.reconciled.missingReferenced == 0
  {
    hide L.Exec, PassCompleted, ExpiredIds, Shape, ObjectAt, StageAt, LifecycleProofs.Timely;
    var s := L.Exec(L.Init(clock), steps).value;
    LifecycleProofs.EveryRowHasItsObject(clock, steps);
    LifecycleProofs.TimelyRunsAreNeverLate(L.Init(clock), steps);
    assert s.late == {};
    assert forall id :: id in t0.files ==> t0.files[id].key in s.rows;
    Convergence(t0, root0, now, deleteFails, t, root, r);
    ReferencesAreUnexpired(t0, now, t);
  }

  lemma ReferencesAreUnexpired(t0: Tables, now: Instant, t: Tables)
    requires forall id :: id in t.files <==> id in t0.files && id !in ExpiredIds(t0, now)
    requires forall id :: id in t.files ==> t.files[id] == t0.files[id]
    ensures forall key :: key in ReferencedKeys(t) <==>
      exists id :: id in t0.files && id !in ExpiredIds(t0, now) && t0.files[id].key == key
  {
    hide ExpiredIds;
  }
}
