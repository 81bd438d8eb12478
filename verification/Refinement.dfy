/**
The classes refine the interleaved model: whatever fails during an upload or a
deletion, what it does to the tables and the directory is what some steps of one
process do to the interleaved state.
*/
module Refinement {
  import opened Common
  import opened Faults
  import opened Shares
  import opened ShareProperties
  import opened ObjectStore
  import opened ShareService
  import opened Uploads
  import opened Maintenance
  import opened Recovery
  import L = Lifecycle
  import LifecycleLeftovers

  /** Steps of this process only, and of the clock. */
  predicate StepsOf(steps: seq<L.Step>, p: L.Pid) {
    forall step :: step in steps ==> step.Tick? || (!step.Crash? && step.p == p)
  }

  /** The process is new, the key is fresh, and no transaction is open. */
  ghost predicate MayUpload(s: L.State, p: L.Pid, key: string, at: Time) {
    L.Known(s) && p !in s.procs && key !in s.used && s.writer.None? && s.clock <= at
  }

  /** The state part way through an upload. */
  function Midway(s: L.State, p: L.Pid, key: string, at: Time, phase: L.Phase, staged: bool, linked: bool, inTx: bool)
    : L.State
  {
    s.(clock := at, used := s.used + {key},
       stages := if staged then s.stages[key := at] else s.stages,
       objects := if linked then s.objects[key := at] else s.objects,
       writer := if inTx then Some(p) else None,
       procs := s.procs[p := L.Creating(key, phase, at)])
  }

  /** The steps up to the publication, one by one, first without the transaction. */
  lemma UploadHops(s: L.State, p: L.Pid, key: string, at: Time)
    requires MayUpload(s, p, key, at)
    ensures L.Next(s, L.Tick(at)) == Some(s.(clock := at))
    ensures L.Next(s.(clock := at), L.BeginStage(p, key)) == Some(Midway(s, p, key, at, L.Staging, true, false, false))
    ensures L.Next(Midway(s, p, key, at, L.Staging, true, false, false), L.FinishStage(p))
         == Some(Midway(s, p, key, at, L.Ready, true, false, false))
  {
    var staging := Midway(s, p, key, at, L.Staging, true, false, false);
    var ready := Midway(s, p, key, at, L.Ready, true, false, false);
    LifecycleLeftovers.SameState(L.Next(s.(clock := at), L.BeginStage(p, key)).value, staging);
    LifecycleLeftovers.SameState(L.Next(staging, L.FinishStage(p)).value, ready);
  }

  lemma LinkHops(s: L.State, p: L.Pid, key: string, at: Time)
    requires MayUpload(s, p, key, at)
    ensures L.Next(Midway(s, p, key, at, L.Ready, true, false, false), L.BeginTx(p))
         == Some(Midway(s, p, key, at, L.InTx, true, false, true))
    ensures L.Next(Midway(s, p, key, at, L.InTx, true, false, true), L.Link(p))
         == Some(Midway(s, p, key, at, L.Linked, true, true, true))
  {
    var ready := Midway(s, p, key, at, L.Ready, true, false, false);
    var inTx := Midway(s, p, key, at, L.InTx, true, false, true);
    LifecycleLeftovers.SameState(L.Next(ready, L.BeginTx(p)).value, inTx);
    LifecycleLeftovers.SameState(L.Next(inTx, L.Link(p)).value, Midway(s, p, key, at, L.Linked, true, true, true));
  }

  /** The rows and files that a state says are there. */
  ghost predicate Holds(s: L.State, rows: set<string>, objects: map<string, Time>, stages: map<string, Time>) {
    s.rows == rows && s.objects == objects && s.stages == stages
  }

  lemma Then(s: L.State, steps: seq<L.Step>, before: L.State, step: L.Step, after: L.State, p: L.Pid)
    returns (longer: seq<L.Step>)
    requires L.Exec(s, steps) == Some(before) && L.Next(before, step) == Some(after)
    requires StepsOf(steps, p) && (step.Tick? || (!step.Crash? && step.p == p))
    ensures L.Exec(s, longer) == Some(after) && StepsOf(longer, p)
  {
    LifecycleLeftovers.ExecThen(s, steps, step);
    longer := steps + [step];
  }

  lemma ReachStaging(s: L.State, p: L.Pid, key: string, at: Time) returns (steps: seq<L.Step>)
    requires MayUpload(s, p, key, at)
    ensures L.Exec(s, steps) == Some(Midway(s, p, key, at, L.Staging, true, false, false)) && StepsOf(steps, p)
  {
    UploadHops(s, p, key, at);
    assert L.Exec(s, []) == Some(s);
    hide L.Exec, L.Next, Midway;
    steps := Then(s, [], s, L.Tick(at), s.(clock := at), p);
    steps := Then(s, steps, s.(clock := at), L.BeginStage(p, key),
      Midway(s, p, key, at, L.Staging, true, false, false), p);
  }

  lemma ReachLinked(s: L.State, p: L.Pid, key: string, at: Time) returns (steps: seq<L.Step>)
    requires MayUpload(s, p, key, at)
    ensures L.Exec(s, steps) == Some(Midway(s, p, key, at, L.Linked, true, true, true)) && StepsOf(steps, p)
  {
    steps := ReachStaging(s, p, key, at);
    UploadHops(s, p, key, at);
    LinkHops(s, p, key, at);
    hide L.Exec, L.Next, Midway;
    var ready := Midway(s, p, key, at, L.Ready, true, false, false);
    var inTx := Midway(s, p, key, at, L.InTx, true, false, true);
    steps := Then(s, steps, Midway(s, p, key, at, L.Staging, true, false, false), L.FinishStage(p), ready, p);
    steps := Then(s, steps, ready, L.BeginTx(p), inTx, p);
    steps := Then(s, steps, inTx, L.Link(p), Midway(s, p, key, at, L.Linked, true, true, true), p);
  }

  lemma ReachPlaced(s: L.State, p: L.Pid, key: string, at: Time) returns (steps: seq<L.Step>)
    requires MayUpload(s, p, key, at)
    ensures L.Exec(s, steps) == Some(Midway(s, p, key, at, L.Placed, false, true, true)) && StepsOf(steps, p)
  {
    steps := ReachLinked(s, p, key, at);
    var linked := Midway(s, p, key, at, L.Linked, true, true, true);
    var placed := Midway(s, p, key, at, L.Placed, false, true, true);
    assert s.stages[key := at] - {key} == s.stages;
    LifecycleLeftovers.SameState(L.Next(linked, L.DropStageName(p, true)).value, placed);
    hide L.Exec, L.Next, Midway;
    steps := Then(s, steps, linked, L.DropStageName(p, true), placed, p);
  }

  /** Committed: the row, the object, and no stage file. */
  lemma ReachCommitted(s: L.State, p: L.Pid, key: string, at: Time) returns (steps: seq<L.Step>)
    requires MayUpload(s, p, key, at)
    ensures L.Exec(s, steps).Some? && StepsOf(steps, p)
    ensures Holds(L.Exec(s, steps).value, s.rows + {key}, s.objects[key := at], s.stages)
  {
    steps := ReachPlaced(s, p, key, at);
    var placed := Midway(s, p, key, at, L.Placed, false, true, true);
    var inserted := Midway(s, p, key, at, L.Inserted, false, true, true);
    LifecycleLeftovers.SameState(L.Next(placed, L.InsertPayload(p)).value, inserted);
    var end := L.Next(inserted, L.CommitTx(p)).value;
    assert Holds(end, s.rows + {key}, s.objects[key := at], s.stages);
    hide L.Exec, L.Next, Midway, Holds;
    steps := Then(s, steps, placed, L.InsertPayload(p), inserted, p);
    steps := Then(s, steps, inserted, L.CommitTx(p), end, p);
  }

  lemma GivenUpHops(s: L.State, p: L.Pid, key: string, at: Time, staged: bool) returns (end: L.State)
    requires MayUpload(s, p, key, at)
    ensures L.Next(Midway(s, p, key, at, L.Staging, true, false, false), L.GiveUp(p, false))
         == Some(Midway(s, p, key, at, L.Aborting, true, false, false))
    ensures L.Next(Midway(s, p, key, at, L.Aborting, true, false, false), L.Abort(p, !staged)) == Some(end)
    ensures Holds(end, s.rows, s.objects, if staged then s.stages[key := at] else s.stages)
  {
    var aborting := Midway(s, p, key, at, L.Aborting, true, false, false);
    LifecycleLeftovers.SameState(
      L.Next(Midway(s, p, key, at, L.Staging, true, false, false), L.GiveUp(p, false)).value, aborting);
    end := L.Next(aborting, L.Abort(p, !staged)).value;
    assert s.stages[key := at] - {key} == s.stages;
  }

  /** Given up before the transaction: at most the stage file is left. */
  lemma ReachGivenUp(s: L.State, p: L.Pid, key: string, at: Time, staged: bool) returns (steps: seq<L.Step>)
    requires MayUpload(s, p, key, at)
    ensures L.Exec(s, steps).Some? && StepsOf(steps, p)
    ensures Holds(L.Exec(s, steps).value, s.rows, s.objects, if staged then s.stages[key := at] else s.stages)
  {
    steps := ReachStaging(s, p, key, at);
    var staging := Midway(s, p, key, at, L.Staging, true, false, false);
    var aborting := Midway(s, p, key, at, L.Aborting, true, false, false);
    hide L.Exec, L.Next, Midway, Holds;
    var end := GivenUpHops(s, p, key, at, staged);
    steps := Then(s, steps, staging, L.GiveUp(p, false), aborting, p);
    steps := Then(s, steps, aborting, L.Abort(p, !staged), end, p);
  }

  /** The compensation has failed. */
  function Strayed(s: L.State, p: L.Pid, key: string, at: Time, staged: bool): L.State {
    Midway(s, p, key, at, L.Aborting, staged, true, false).(strays := s.strays + {key})
  }

  lemma CompensateHop(s: L.State, p: L.Pid, key: string, at: Time, staged: bool)
    ensures L.Next(Midway(s, p, key, at, L.Compensating, staged, true, false), L.Compensate(p, false))
         == Some(Strayed(s, p, key, at, staged))
  {
    LifecycleLeftovers.SameState(
      L.Next(Midway(s, p, key, at, L.Compensating, staged, true, false), L.Compensate(p, false)).value,
      Strayed(s, p, key, at, staged));
  }

  lemma AbortHop(s: L.State, p: L.Pid, key: string, at: Time, staged: bool) returns (end: L.State)
    requires MayUpload(s, p, key, at)
    ensures L.Next(Strayed(s, p, key, at, staged), L.Abort(p, !staged)) == Some(end)
    ensures Holds(end, s.rows, s.objects[key := at], if staged then s.stages[key := at] else s.stages)
  {
    end := L.Next(Strayed(s, p, key, at, staged), L.Abort(p, !staged)).value;
    assert s.stages - {key} == s.stages;
  }

  /** Rolled back after the publication, the compensation having failed: the object is left, without its stage file. */
  lemma ReachStray(s: L.State, p: L.Pid, key: string, at: Time) returns (steps: seq<L.Step>)
    requires MayUpload(s, p, key, at)
    ensures L.Exec(s, steps).Some? && StepsOf(steps, p)
    ensures Holds(L.Exec(s, steps).value, s.rows, s.objects[key := at], s.stages)
  {
    steps := ReachPlaced(s, p, key, at);
    var placed := Midway(s, p, key, at, L.Placed, false, true, true);
    var back := Midway(s, p, key, at, L.Compensating, false, true, false);
    LifecycleLeftovers.SameState(L.Next(placed, L.GiveUp(p, true)).value, back);
    CompensateHop(s, p, key, at, false);
    var end := AbortHop(s, p, key, at, false);
    hide L.Exec, L.Next, Midway, Holds, Strayed;
    steps := Then(s, steps, placed, L.GiveUp(p, true), back, p);
    steps := Then(s, steps, back, L.Compensate(p, false), Strayed(s, p, key, at, false), p);
    steps := Then(s, steps, Strayed(s, p, key, at, false), L.Abort(p, true), end, p);
  }

  lemma UnlinkingHops(s: L.State, p: L.Pid, key: string, at: Time)
    ensures L.Next(Midway(s, p, key, at, L.Linked, true, true, true), L.DropStageName(p, false))
         == Some(Midway(s, p, key, at, L.Unlinking, true, true, true))
    ensures L.Next(Midway(s, p, key, at, L.Unlinking, true, true, true), L.TakeBackLink(p, false))
         == Some(Midway(s, p, key, at, L.Compensating, true, true, false))
  {
    var unlinking := Midway(s, p, key, at, L.Unlinking, true, true, true);
    LifecycleLeftovers.SameState(
      L.Next(Midway(s, p, key, at, L.Linked, true, true, true), L.DropStageName(p, false)).value, unlinking);
    LifecycleLeftovers.SameState(
      L.Next(unlinking, L.TakeBackLink(p, false)).value, Midway(s, p, key, at, L.Compensating, true, true, false));
  }

  /** The stage name would not go and nothing could be taken back: object and stage file are left. */
  lemma ReachStrayAndStage(s: L.State, p: L.Pid, key: string, at: Time) returns (steps: seq<L.Step>)
    requires MayUpload(s, p, key, at)
    ensures L.Exec(s, steps).Some? && StepsOf(steps, p)
    ensures Holds(L.Exec(s, steps).value, s.rows, s.objects[key := at], s.stages[key := at])
  {
    steps := ReachLinked(s, p, key, at);
    UnlinkingHops(s, p, key, at);
    CompensateHop(s, p, key, at, true);
    var end := AbortHop(s, p, key, at, true);
    hide L.Exec, L.Next, Midway, Holds, Strayed;
    var linked := Midway(s, p, key, at, L.Linked, true, true, true);
    var unlinking := Midway(s, p, key, at, L.Unlinking, true, true, true);
    var back := Midway(s, p, key, at, L.Compensating, true, true, false);
    steps := Then(s, steps, linked, L.DropStageName(p, false), unlinking, p);
    steps := Then(s, steps, unlinking, L.TakeBackLink(p, false), back, p);
    steps := Then(s, steps, back, L.Compensate(p, false), Strayed(s, p, key, at, true), p);
    steps := Then(s, steps, Strayed(s, p, key, at, true), L.Abort(p, false), end, p);
  }

  /** A state that holds what an upload has left represents the stores after it. */
  lemma RepresentsUpload(
    s: L.State, s': L.State, t0: Tables, root0: Root, t: Tables, root: Root,
    draws: Draws, fails: set<Call>, created: bool)
    requires Represents(s, t0, root0) && L.Known(s) && draws.key !in s.used
    requires UploadedFiles(root0, root, draws, fails, created)
    requires if created then CreatedTables(t0, t, draws.id, draws.key) else t == t0
    requires Holds(s',
      if created then s.rows + {draws.key} else s.rows,
      if ObjectAt(root, draws.key).Some? then s.objects[draws.key := draws.uploadedAt] else s.objects,
      if StageAt(root, FirstFree(root0, draws.temps)).Some? then s.stages[draws.key := draws.uploadedAt] else s.stages)
    ensures Represents(s', t, root)
  {
    hide ObjectAt, StageAt, FirstFree;
    if created {
      assert ReferencedKeys(t) == ReferencedKeys(t0) + {draws.key} by {
        assert forall id :: id in t.files <==> id in t0.files || id == draws.id;
      }
    }
    var temp := FirstFree(root0, draws.temps);
    forall name | StageAt(root, name).Some?
      ensures exists key :: key in s'.stages && s'.stages[key] == StageAt(root, name).value
    {
      if name == temp {
        assert draws.key in s'.stages;
      } else {
        assert StageAt(root, name) == StageAt(root0, name);
        var key :| key in s.stages && s.stages[key] == StageAt(root0, name).value;
        assert key in s'.stages;
      }
    }
  }

  /**
  Every outcome of an upload request, whatever its parts and whatever fails, is the
  outcome of steps of one process of the interleaved model.
  */
  lemma UploadIsARun(
    s: L.State, p: L.Pid, t0: Tables, root0: Root, t: Tables, root: Root, draws: Draws, fails: set<Call>, created: bool)
    returns (steps: seq<L.Step>)
    requires Represents(s, t0, root0) && MayUpload(s, p, draws.key, draws.uploadedAt)
    requires UploadedFiles(root0, root, draws, fails, created)
    requires if created then CreatedTables(t0, t, draws.id, draws.key) else t == t0
    ensures L.Exec(s, steps).Some? && StepsOf(steps, p)
    ensures Represents(L.Exec(s, steps).value, t, root)
  {
    var key, at := draws.key, draws.uploadedAt;
    hide ObjectAt, StageAt, FirstFree, L.Exec, Represents, CreatedTables;
    var linked := ObjectAt(root, key).Some?;
    var stage := StageAt(root, FirstFree(root0, draws.temps)).Some?;
    if created {
      steps := ReachCommitted(s, p, key, at);
    } else if !linked {
      steps := ReachGivenUp(s, p, key, at, stage);
    } else if !stage {
      steps := ReachStray(s, p, key, at);
    } else {
      steps := ReachStrayAndStage(s, p, key, at);
    }
    RepresentsUpload(s, L.Exec(s, steps).value, t0, root0, t, root, draws, fails, created);
  }

  // ----- deletions ------------------------------------------------------------------

  lemma DeletionHops(s: L.State, p: L.Pid, key: string, ok: bool)
    returns (deleting: L.State, done: L.State, end: L.State)
    requires p !in s.procs && s.writer.None? && key in s.rows
    ensures L.Next(s, L.DeleteRow(p, key)) == Some(deleting)
    ensures L.Next(deleting, L.DeleteObject(p, key, ok)) == Some(done)
    ensures L.Next(done, L.EndDelete(p)) == Some(end)
    ensures Holds(end, s.rows - {key}, if ok then s.objects - {key} else s.objects, s.stages)
  {
    deleting := L.Next(s, L.DeleteRow(p, key)).value;
    done := L.Next(deleting, L.DeleteObject(p, key, ok)).value;
    assert {key} - {key} == {};
    end := L.Next(done, L.EndDelete(p)).value;
  }

  lemma KeysAfterDeletion(t: Tables, id: string)
    requires Shape(t) && id in t.shares
    ensures ReferencedKeys(DeleteShare(t, id))
         == if id in t.files then ReferencedKeys(t) - {t.files[id].key} else ReferencedKeys(t)
  {
    hide RowShape;
    var after := DeleteShare(t, id);
    forall key ensures key in ReferencedKeys(after) <==>
      key in ReferencedKeys(t) && !(id in t.files && key == t.files[id].key)
    {
      if key in ReferencedKeys(t) && !(id in t.files && key == t.files[id].key) {
        var other :| other in t.files && t.files[other].key == key;
        assert other in after.files && after.files[other].key == key;
      }
    }
  }

  lemma ReachDeleted(s: L.State, p: L.Pid, key: string, ok: bool) returns (steps: seq<L.Step>)
    requires p !in s.procs && s.writer.None? && key in s.rows
    ensures L.Exec(s, steps).Some? && StepsOf(steps, p)
    ensures Holds(L.Exec(s, steps).value, s.rows - {key}, if ok then s.objects - {key} else s.objects, s.stages)
  {
    assert L.Exec(s, []) == Some(s);
    hide L.Exec, L.Next, Holds;
    var deleting, done, end := DeletionHops(s, p, key, ok);
    steps := Then(s, [], s, L.DeleteRow(p, key), deleting, p);
    steps := Then(s, steps, deleting, L.DeleteObject(p, key, ok), done, p);
    steps := Then(s, steps, done, L.EndDelete(p), end, p);
  }

  /** Every outcome of a deletion that has deleted the row is the outcome of steps of one process. */
  lemma DeletionIsARun(s: L.State, p: L.Pid, t0: Tables, root0: Root, t: Tables, root: Root, id: string)
    returns (steps: seq<L.Step>)
    requires Represents(s, t0, root0) && Shape(t0) && p !in s.procs && s.writer.None?
    requires DeletedShare(t0, root0, t, root, id)
    ensures L.Exec(s, steps).Some? && StepsOf(steps, p)
    ensures Represents(L.Exec(s, steps).value, t, root)
  {
    KeysAfterDeletion(t0, id);
    hide L.Exec, L.Next, Holds, Shape, ObjectDropped, ObjectAt, StageAt;
    if id in t0.files {
      var key := t0.files[id].key;
      assert key in ReferencedKeys(t0) && key in s.rows;
      hide Represents, ReferencedKeys, DeleteShare;
      steps := ReachDeleted(s, p, key, root != root0);
      RepresentsDeletion(s, L.Exec(s, steps).value, t0, root0, t, root, key, root != root0);
    } else {
      steps := [];
      NoSteps(s);
    }
  }

  lemma NoSteps(s: L.State)
    ensures L.Exec(s, []) == Some(s)
  {
  }

  lemma RepresentsDeletion(
    s: L.State, s': L.State, t0: Tables, root0: Root, t: Tables, root: Root, key: string, ok: bool)
    requires Represents(s, t0, root0) && ReferencedKeys(t) == ReferencedKeys(t0) - {key}
    requires if ok then ObjectDropped(root0, root, Some(key)) else root == root0
    requires Holds(s', s.rows - {key}, if ok then s.objects - {key} else s.objects, s.stages)
    ensures Represents(s', t, root)
  {
    hide ObjectAt, StageAt;
  }
}
