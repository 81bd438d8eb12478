/**
Nothing is left behind but what a failed removal or a stop leaves; the two stores
agree after a clean run; and the time limit on commits is needed.
*/
module LifecycleLeftovers {
  import opened Common
  import opened Lifecycle
  import opened LifecycleProofs

  /** A process that will still remove, or commit, the final object of the key. */
  predicate AnswersForObject(proc: Proc, key: Key) {
    match proc
    case Creating(k, phase, _) => k == key && (MayCommit(phase) || phase == Unlinking || phase == Compensating)
    case Deleting(pending) => key in pending
    case Maintaining(_, _, pending) => key in pending
    case Reconciling(_, _, _) => false
  }

  /** A process that will still remove the stage file of the key. */
  predicate AnswersForStage(proc: Proc, key: Key) {
    proc.Creating? && proc.key == key && proc.phase != Placed && proc.phase != Inserted
  }

  ghost predicate ObjectsAccounted(s: State) {
    forall k :: k in s.objects && k !in s.rows && k !in s.strays
      ==> exists p :: p in s.procs && AnswersForObject(s.procs[p], k)
  }

  ghost predicate StagesAccounted(s: State) {
    forall k :: k in s.stages && k !in s.litter ==> exists p :: p in s.procs && AnswersForStage(s.procs[p], k)
  }

  // The process that answers for a file keeps answering until the file is gone, referenced or recorded.

  lemma StagingKeepsAnswers(s: State, step: Step, p: Pid, k: Key)
    requires StagingStep(s, step).Some? && p in s.procs
    ensures var s' := StagingStep(s, step).value;
      && (AnswersForObject(s.procs[p], k) && k in s'.objects && k !in s'.rows && k !in s'.strays ==>
            p in s'.procs && AnswersForObject(s'.procs[p], k))
      && (AnswersForStage(s.procs[p], k) && k in s'.stages && k !in s'.litter ==>
            p in s'.procs && AnswersForStage(s'.procs[p], k))
  {
  }

  lemma PublishingKeepsAnswers(s: State, step: Step, p: Pid, k: Key)
    requires PublishingStep(s, step).Some? && p in s.procs
    ensures var s' := PublishingStep(s, step).value;
      && (AnswersForObject(s.procs[p], k) && k in s'.objects && k !in s'.rows && k !in s'.strays ==>
            p in s'.procs && AnswersForObject(s'.procs[p], k))
      && (AnswersForStage(s.procs[p], k) && k in s'.stages && k !in s'.litter ==>
            p in s'.procs && AnswersForStage(s'.procs[p], k))
  {
  }

  lemma EndingKeepsAnswers(s: State, step: Step, p: Pid, k: Key)
    requires EndingStep(s, step).Some? && p in s.procs
    ensures var s' := EndingStep(s, step).value;
      && (AnswersForObject(s.procs[p], k) && k in s'.objects && k !in s'.rows && k !in s'.strays ==>
            p in s'.procs && AnswersForObject(s'.procs[p], k))
      && (AnswersForStage(s.procs[p], k) && k in s'.stages && k !in s'.litter ==>
            p in s'.procs && AnswersForStage(s'.procs[p], k))
  {
  }

  lemma RemovalKeepsAnswers(s: State, step: Step, p: Pid, k: Key)
    requires RemovalStep(s, step).Some? && p in s.procs
    ensures var s' := RemovalStep(s, step).value;
      && (AnswersForObject(s.procs[p], k) && k in s'.objects && k !in s'.rows && k !in s'.strays ==>
            p in s'.procs && AnswersForObject(s'.procs[p], k))
      && (AnswersForStage(s.procs[p], k) && k in s'.stages && k !in s'.litter ==>
            p in s'.procs && AnswersForStage(s'.procs[p], k))
  {
  }

  lemma ReconcileKeepsAnswers(s: State, step: Step, p: Pid, k: Key)
    requires ReconcileStep(s, step).Some? && p in s.procs
    ensures var s' := ReconcileStep(s, step).value;
      && (AnswersForObject(s.procs[p], k) && k in s'.objects && k !in s'.rows && k !in s'.strays ==>
            p in s'.procs && AnswersForObject(s'.procs[p], k))
      && (AnswersForStage(s.procs[p], k) && k in s'.stages && k !in s'.litter ==>
            p in s'.procs && AnswersForStage(s'.procs[p], k))
  {
  }

  lemma CrashRecordsAnswers(s: State, p: Pid, k: Key)
    requires p in s.procs
    ensures AnswersForObject(s.procs[p], k) ==> k in Next(s, Crash).value.strays
    ensures AnswersForStage(s.procs[p], k) ==> k in Next(s, Crash).value.litter
  {
    assert k in Held(s.procs[p]) ==> k in HeldKeys(s.procs);
  }

  /** A file that is new, or newly without a row, is in the hands of the process that took the step. */
  ghost predicate MadeAnswered(s: State, step: Step, s': State, k: Key) {
    && (k in s'.objects && k !in s'.rows && (k !in s.objects || k in s.rows) ==>
          !step.Tick? && !step.Crash? && step.p in s'.procs && AnswersForObject(s'.procs[step.p], k))
    && (k in s'.stages && k !in s.stages ==>
          !step.Tick? && !step.Crash? && step.p in s'.procs && AnswersForStage(s'.procs[step.p], k))
  }

  lemma StagingMakesAnswered(s: State, step: Step, k: Key)
    requires StagingStep(s, step).Some?
    ensures MadeAnswered(s, step, StagingStep(s, step).value, k)
  {
  }

  lemma PublishingMakesAnswered(s: State, step: Step, k: Key)
    requires PublishingStep(s, step).Some?
    ensures MadeAnswered(s, step, PublishingStep(s, step).value, k)
  {
  }

  lemma EndingMakesAnswered(s: State, step: Step, k: Key)
    requires EndingStep(s, step).Some?
    ensures MadeAnswered(s, step, EndingStep(s, step).value, k)
  {
  }

  lemma RemovalMakesAnswered(s: State, step: Step, k: Key)
    requires RemovalStep(s, step).Some?
    ensures MadeAnswered(s, step, RemovalStep(s, step).value, k)
  {
  }

  lemma ReconcileMakesAnswered(s: State, step: Step, k: Key)
    requires ReconcileStep(s, step).Some?
    ensures MadeAnswered(s, step, ReconcileStep(s, step).value, k)
  {
  }

  lemma NewFilesHaveAnAnswer(s: State, step: Step, k: Key)
    requires Next(s, step).Some?
    ensures MadeAnswered(s, step, Next(s, step).value, k)
  {
    hide StagingStep, PublishingStep, EndingStep, RemovalStep, ReconcileStep, MadeAnswered;
    if step.Tick? || step.Crash? {
      assert MadeAnswered(s, step, Next(s, step).value, k) by {
        WorldMakesNothing(s, step, k);
      }
    } else if StagingStep(s, step).Some? {
      StagingMakesAnswered(s, step, k);
    } else if PublishingStep(s, step).Some? {
      PublishingMakesAnswered(s, step, k);
    } else if EndingStep(s, step).Some? {
      EndingMakesAnswered(s, step, k);
    } else if RemovalStep(s, step).Some? {
      RemovalMakesAnswered(s, step, k);
    } else {
      ReconcileMakesAnswered(s, step, k);
    }
  }

  lemma WorldMakesNothing(s: State, step: Step, k: Key)
    requires (step.Tick? || step.Crash?) && Next(s, step).Some?
    ensures MadeAnswered(s, step, Next(s, step).value, k)
  {
  }

  lemma NextKeepsAnswers(s: State, step: Step, p: Pid, k: Key)
    requires Next(s, step).Some? && p in s.procs
    ensures var s' := Next(s, step).value;
      && (AnswersForObject(s.procs[p], k) && k in s'.objects && k !in s'.rows && k !in s'.strays ==>
            p in s'.procs && AnswersForObject(s'.procs[p], k))
      && (AnswersForStage(s.procs[p], k) && k in s'.stages && k !in s'.litter ==>
            p in s'.procs && AnswersForStage(s'.procs[p], k))
  {
    hide StagingStep, PublishingStep, EndingStep, RemovalStep, ReconcileStep;
    hide AnswersForObject, AnswersForStage;
    if step.Crash? {
      CrashRecordsAnswers(s, p, k);
    } else if step.Tick? {
    } else if StagingStep(s, step).Some? {
      StagingKeepsAnswers(s, step, p, k);
    } else if PublishingStep(s, step).Some? {
      PublishingKeepsAnswers(s, step, p, k);
    } else if EndingStep(s, step).Some? {
      EndingKeepsAnswers(s, step, p, k);
    } else if RemovalStep(s, step).Some? {
      RemovalKeepsAnswers(s, step, p, k);
    } else {
      ReconcileKeepsAnswers(s, step, p, k);
    }
  }

  lemma NextKeepsAccounted(s: State, step: Step)
    requires ObjectsAccounted(s) && StagesAccounted(s) && Next(s, step).Some?
    ensures ObjectsAccounted(Next(s, step).value) && StagesAccounted(Next(s, step).value)
  {
    hide Next, AnswersForObject, AnswersForStage;
    var s' := Next(s, step).value;
    StrayRecordsOnlyGrow(s, step);
    forall k | k in s'.objects && k !in s'.rows && k !in s'.strays
      ensures exists p :: p in s'.procs && AnswersForObject(s'.procs[p], k)
    {
      NewFilesHaveAnAnswer(s, step, k);
      if k in s.objects && k !in s.rows {
        var p :| p in s.procs && AnswersForObject(s.procs[p], k);
        NextKeepsAnswers(s, step, p, k);
      }
    }
    forall k | k in s'.stages && k !in s'.litter
      ensures exists p :: p in s'.procs && AnswersForStage(s'.procs[p], k)
    {
      NewFilesHaveAnAnswer(s, step, k);
      if k in s.stages {
        var p :| p in s.procs && AnswersForStage(s.procs[p], k);
        NextKeepsAnswers(s, step, p, k);
      }
    }
  }

  /** Steps that do not stop the process, and whose removals succeed. */
  predicate Clean(step: Step) {
    match step
    case Compensate(_, ok) => ok
    case Abort(_, ok) => ok
    case DeleteObject(_, _, ok) => ok
    case Crash => false
    case _ => true
  }

  /** Only a failed removal or a stop adds to the record of leftovers. */
  lemma StrayRecordsOnlyGrow(s: State, step: Step)
    requires Next(s, step).Some?
    ensures s.strays <= Next(s, step).value.strays && s.litter <= Next(s, step).value.litter
    ensures Clean(step) ==> Next(s, step).value.strays == s.strays && Next(s, step).value.litter == s.litter
  {
  }

  lemma {:induction false} RunKeepsAccounted(s: State, steps: seq<Step>)
    requires ObjectsAccounted(s) && StagesAccounted(s) && Exec(s, steps).Some?
    ensures ObjectsAccounted(Exec(s, steps).value) && StagesAccounted(Exec(s, steps).value)
    ensures (forall step :: step in steps ==> Clean(step))
      ==> Exec(s, steps).value.strays == s.strays && Exec(s, steps).value.litter == s.litter
    decreases |steps|
  {
    hide Next, ObjectsAccounted, StagesAccounted, Clean;
    if steps != [] {
      assert steps[0] in steps;
      NextKeepsAccounted(s, steps[0]);
      StrayRecordsOnlyGrow(s, steps[0]);
      RunKeepsAccounted(Next(s, steps[0]).value, steps[1..]);
    }
  }

  /**
  In every reachable state a final object without a row, or a stage file, is still
  in the hands of an upload or a deletion, or was left by a failed removal or a stop.
  */
  lemma NothingElseIsLeftBehind(clock: Time, steps: seq<Step>)
    requires Exec(Init(clock), steps).Some?
    ensures ObjectsAccounted(Exec(Init(clock), steps).value) && StagesAccounted(Exec(Init(clock), steps).value)
  {
    RunKeepsAccounted(Init(clock), steps);
  }

  /**
  All or nothing over whole runs: when every commit was in time, no removal failed
  and the process did not stop, then whenever no operation is under way the object
  directory holds exactly the objects of the committed rows, and no stage file.
  */
  lemma QuietStoresAgree(clock: Time, steps: seq<Step>)
    requires Exec(Init(clock), steps).Some? && Timely(Init(clock), steps)
    requires forall step :: step in steps ==> Clean(step)
    requires Exec(Init(clock), steps).value.procs == map[]
    ensures var s := Exec(Init(clock), steps).value;
      s.objects.Keys == s.rows && s.stages == map[]
  {
    EveryRowHasItsObject(clock, steps);
    TimelyRunsAreNeverLate(Init(clock), steps);
    RunKeepsAccounted(Init(clock), steps);
  }

  // ----- the time limit is needed ----------------------------------------------

  lemma {:induction false} WithinThen(s: State, steps: seq<Step>, step: Step, limit: Time)
    requires Exec(s, steps).Some? && Within(s, steps, limit) && Next(Exec(s, steps).value, step).Some?
    requires var end := Exec(s, steps).value; step.CommitTx? ==> end.clock < end.procs[step.p].written + limit
    ensures Exec(s, steps + [step]).Some? && Within(s, steps + [step], limit)
    decreases |steps|
  {
    ExecThen(s, steps, step);
    if steps != [] {
      assert (steps + [step])[0] == steps[0] && (steps + [step])[1..] == steps[1..] + [step];
      WithinThen(Next(s, steps[0]).value, steps[1..], step, limit);
    } else {
      assert steps + [step] == [step] && [step][1..] == [];
    }
  }

  lemma {:induction false} ExecThen(s: State, steps: seq<Step>, step: Step)
    requires Exec(s, steps).Some? && Next(Exec(s, steps).value, step).Some?
    ensures Exec(s, steps + [step]) == Next(Exec(s, steps).value, step)
    decreases |steps|
  {
    if steps != [] {
      assert (steps + [step])[1..] == steps[1..] + [step];
      ExecThen(Next(s, steps[0]).value, steps[1..], step);
    } else {
      assert steps + [step] == [step];
    }
  }

  /** An upload that a maintenance pass overtakes, GRACE after its last write. */
  function Overtaken(key: Key, phase: Phase, maintenance: Proc, present: bool): State {
    State(GRACE, {key}, {},
      if phase == Ready || phase == InTx || phase == Linked then map[key := 0] else map[],
      if present then map[key := 0] else map[],
      if phase == Ready then None else Some(0),
      map[0 := Creating(key, phase, 0), 1 := maintenance], {}, {}, {})
  }

  function Received(key: Key, phase: Phase, clock: Time): State {
    State(clock, {key}, {}, map[key := 0], map[], None, map[0 := Creating(key, phase, 0)], {}, {}, {})
  }

  lemma SameState(a: State, b: State)
    requires a.clock == b.clock && a.used == b.used && a.rows == b.rows && a.stages == b.stages
    requires a.objects == b.objects && a.writer == b.writer && a.procs == b.procs
    requires a.late == b.late && a.strays == b.strays && a.litter == b.litter
    ensures a == b
  {
  }

  lemma HopTick(key: Key)
    ensures Next(Received(key, Ready, 0), Tick(GRACE)) == Some(Received(key, Ready, GRACE))
  {
  }

  lemma HopBegin(key: Key)
    ensures Next(Init(0), BeginStage(0, key))
         == Some(Received(key, Staging, 0))
  {
    SameState(Next(Init(0), BeginStage(0, key)).value,
              Received(key, Staging, 0));
  }

  lemma HopFinish(key: Key)
    ensures Next(Received(key, Staging, 0), FinishStage(0))
         == Some(Received(key, Ready, 0))
  {
    SameState(Next(Received(key, Staging, 0), FinishStage(0)).value,
              Received(key, Ready, 0));
  }

  lemma HopMaintain(key: Key)
    ensures Next(Received(key, Ready, GRACE), BeginMaintenance(1))
         == Some(Overtaken(key, Ready, Maintaining(GRACE, 0, {}), false))
  {
    SameState(Next(Received(key, Ready, GRACE), BeginMaintenance(1)).value,
              Overtaken(key, Ready, Maintaining(GRACE, 0, {}), false));
  }

  lemma HopPurge(key: Key)
    ensures Next(Overtaken(key, Ready, Maintaining(GRACE, 0, {}), false), PurgeBatch(1, {}))
         == Some(Overtaken(key, Ready, Maintaining(GRACE, 1, {}), false))
  {
    SameState(Next(Overtaken(key, Ready, Maintaining(GRACE, 0, {}), false), PurgeBatch(1, {})).value,
              Overtaken(key, Ready, Maintaining(GRACE, 1, {}), false));
  }

  lemma HopTx(key: Key, m: Proc)
    ensures Next(Overtaken(key, Ready, m, false), BeginTx(0))
         == Some(Overtaken(key, InTx, m, false))
  {
    SameState(Next(Overtaken(key, Ready, m, false), BeginTx(0)).value,
              Overtaken(key, InTx, m, false));
  }

  lemma HopLink(key: Key, m: Proc)
    ensures Next(Overtaken(key, InTx, m, false), Link(0))
         == Some(Overtaken(key, Linked, m, true))
  {
    SameState(Next(Overtaken(key, InTx, m, false), Link(0)).value,
              Overtaken(key, Linked, m, true));
  }

  lemma HopDrop(key: Key, m: Proc)
    ensures Next(Overtaken(key, Linked, m, true), DropStageName(0, true))
         == Some(Overtaken(key, Placed, m, true))
  {
    SameState(Next(Overtaken(key, Linked, m, true), DropStageName(0, true)).value,
              Overtaken(key, Placed, m, true));
  }

  lemma HopInsert(key: Key, m: Proc)
    ensures Next(Overtaken(key, Placed, m, true), InsertPayload(0))
         == Some(Overtaken(key, Inserted, m, true))
  {
    SameState(Next(Overtaken(key, Placed, m, true), InsertPayload(0)).value,
              Overtaken(key, Inserted, m, true));
  }

  lemma HopSnapshot(key: Key)
    ensures Next(Overtaken(key, Inserted, Maintaining(GRACE, 1, {}), true), TakeSnapshot(1))
         == Some(Overtaken(key, Inserted, Reconciling({}, 0, None), true))
  {
    SameState(Next(Overtaken(key, Inserted, Maintaining(GRACE, 1, {}), true), TakeSnapshot(1)).value,
              Overtaken(key, Inserted, Reconciling({}, 0, None), true));
  }

  lemma HopInspect(key: Key)
    ensures Next(Overtaken(key, Inserted, Reconciling({}, 0, None), true), Inspect(1, FinalObject(key)))
         == Some(Overtaken(key, Inserted, Reconciling({}, 0, Some(FinalObject(key))), true))
  {
    SameState(Next(Overtaken(key, Inserted, Reconciling({}, 0, None), true), Inspect(1, FinalObject(key))).value,
              Overtaken(key, Inserted, Reconciling({}, 0, Some(FinalObject(key))), true));
  }

  lemma HopRemove(key: Key)
    ensures Next(Overtaken(key, Inserted, Reconciling({}, 0, Some(FinalObject(key))), true), RemoveTarget(1, true))
         == Some(Overtaken(key, Inserted, Reconciling({}, 0, None), false))
  {
    SameState(
      Next(Overtaken(key, Inserted, Reconciling({}, 0, Some(FinalObject(key))), true), RemoveTarget(1, true)).value,
              Overtaken(key, Inserted, Reconciling({}, 0, None), false));
  }

  lemma HopCommit(key: Key)
    ensures var before := Overtaken(key, Inserted, Reconciling({}, 0, None), false);
      var end := Next(before, CommitTx(0));
      && end.Some? && end.value.rows == {key} && end.value.objects == map[] && end.value.clock == GRACE
      && before.clock == GRACE && before.procs[0].Creating? && before.procs[0].written == 0
  {
  }

  /** A run so far, no commit of which has come as late as `limit`. */
  ghost predicate Reaches(steps: seq<Step>, s: State, limit: Time) {
    Exec(Init(0), steps) == Some(s) && Within(Init(0), steps, limit)
  }

  lemma Extend(steps: seq<Step>, s: State, step: Step, s': State, limit: Time) returns (longer: seq<Step>)
    requires Reaches(steps, s, limit) && Next(s, step) == Some(s')
    requires step.CommitTx? ==> s.clock < s.procs[step.p].written + limit
    ensures Reaches(longer, s', limit)
  {
    ExecThen(Init(0), steps, step);
    WithinThen(Init(0), steps, step, limit);
    longer := steps + [step];
  }

  lemma ReachReady(key: Key, limit: Time) returns (steps: seq<Step>)
    ensures Reaches(steps, Overtaken(key, Ready, Maintaining(GRACE, 1, {}), false), limit)
  {
    HopTick(key);
    assert Reaches([], Init(0), limit);
    hide Next, Reaches, Overtaken, Received;
    HopBegin(key);
    steps := Extend([], Init(0), BeginStage(0, key), Received(key, Staging, 0), limit);
    HopFinish(key);
    steps := Extend(steps, Received(key, Staging, 0), FinishStage(0), Received(key, Ready, 0), limit);
    steps := Extend(steps, Received(key, Ready, 0), Tick(GRACE), Received(key, Ready, GRACE), limit);
    var begun := Overtaken(key, Ready, Maintaining(GRACE, 0, {}), false);
    HopMaintain(key);
    steps := Extend(steps, Received(key, Ready, GRACE), BeginMaintenance(1), begun, limit);
    HopPurge(key);
    steps := Extend(steps, begun, PurgeBatch(1, {}), Overtaken(key, Ready, Maintaining(GRACE, 1, {}), false), limit);
  }

  lemma ReachInserted(key: Key, limit: Time) returns (steps: seq<Step>)
    ensures Reaches(steps, Overtaken(key, Inserted, Maintaining(GRACE, 1, {}), true), limit)
  {
    hide Next, Reaches, Overtaken;
    var m := Maintaining(GRACE, 1, {});
    steps := ReachReady(key, limit);
    HopTx(key, m);
    steps := Extend(steps, Overtaken(key, Ready, m, false), BeginTx(0), Overtaken(key, InTx, m, false), limit);
    HopLink(key, m);
    steps := Extend(steps, Overtaken(key, InTx, m, false), Link(0), Overtaken(key, Linked, m, true), limit);
    HopDrop(key, m);
    steps := Extend(steps, Overtaken(key, Linked, m, true), DropStageName(0, true),
      Overtaken(key, Placed, m, true), limit);
    HopInsert(key, m);
    steps := Extend(steps, Overtaken(key, Placed, m, true), InsertPayload(0), Overtaken(key, Inserted, m, true), limit);
  }

  /**
  A maintenance pass can take its snapshot while an upload has its transaction open,
  and a commit exactly GRACE after the last write, the only one of the run, then
  leaves a committed row without its object.
  */
  lemma LateCommitCanLoseItsObject(key: Key, limit: Time) returns (steps: seq<Step>)
    requires GRACE < limit
    ensures var end := Exec(Init(0), steps);
      && end.Some? && end.value.rows == {key} && end.value.objects == map[] && end.value.clock == GRACE
      && Within(Init(0), steps, limit)
  {
    hide Next, Exec, Overtaken;
    var idle, aimed := Reconciling({}, 0, None), Reconciling({}, 0, Some(FinalObject(key)));
    var placed := Overtaken(key, Inserted, idle, true);
    var marked := Overtaken(key, Inserted, aimed, true);
    var removed := Overtaken(key, Inserted, idle, false);
    steps := ReachInserted(key, limit);
    HopSnapshot(key);
    steps := Extend(steps, Overtaken(key, Inserted, Maintaining(GRACE, 1, {}), true), TakeSnapshot(1), placed, limit);
    HopInspect(key);
    steps := Extend(steps, placed, Inspect(1, FinalObject(key)), marked, limit);
    HopRemove(key);
    steps := Extend(steps, marked, RemoveTarget(1, true), removed, limit);
    HopCommit(key);
    steps := Extend(steps, removed, CommitTx(0), Next(removed, CommitTx(0)).value, limit);
  }

  /** In every run whose commits come within the limit, every committed row has its object. */
  ghost predicate Safe(limit: Time) {
    forall clock, steps ::
      Exec(Init(clock), steps).Some? && Within(Init(clock), steps, limit) ==>
        Exec(Init(clock), steps).value.rows <= Exec(Init(clock), steps).value.objects.Keys
  }

  /** The grace period is exactly the limit that commits have to keep. */
  lemma GraceIsTheLimit(limit: Time)
    ensures Safe(limit) <==> limit <= GRACE
  {
    hide Exec, Next;
    if limit <= GRACE {
      forall clock, steps | Exec(Init(clock), steps).Some? && Within(Init(clock), steps, limit)
        ensures Exec(Init(clock), steps).value.rows <= Exec(Init(clock), steps).value.objects.Keys
      {
        WithinMore(Init(clock), steps, limit, GRACE);
        EveryRowHasItsObject(clock, steps);
        TimelyRunsAreNeverLate(Init(clock), steps);
      }
    } else {
      var steps := LateCommitCanLoseItsObject("", limit);
      assert "" in Exec(Init(0), steps).value.rows;
    }
  }

  /**
  The upload's own limits are enough: every run in which an upload commits within the
  transfer deadline and the busy timeout of its last write keeps an object for every
  committed row.
  */
  lemma UploadLimitsAreSafe(clock: Time, steps: seq<Step>)
    requires Exec(Init(clock), steps).Some?
    requires Within(Init(clock), steps, TRANSFER_DEADLINE + BUSY_TIMEOUT + 1)
    ensures Exec(Init(clock), steps).value.rows <= Exec(Init(clock), steps).value.objects.Keys
  {
    GraceIsTheLimit(TRANSFER_DEADLINE + BUSY_TIMEOUT + 1);
    hide Exec, Within;
    assert Safe(TRANSFER_DEADLINE + BUSY_TIMEOUT + 1);
  }
}
