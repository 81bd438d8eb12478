/**
The two stores of a File share under interleaving: database rows, and files in the
object directory. Any number of uploads, deletions and maintenance passes run at
once, one step at a time, and the process can stop at any step. Only committed
rows and the directory survive a stop.

Assumed of the world: storage keys are fresh, the clock does not go back, and a
transaction whose commit reports failure did not commit.
*/
module Lifecycle {
  import opened Common

  type Time = int
  type Key = string
  type Pid = nat

  /** Unreferenced files younger than this are left alone. */
  const GRACE := 30 * MINUTE
  /** How long a transfer may take, and how long a transaction may wait to begin. */
  const TRANSFER_DEADLINE := 10 * MINUTE
  const BUSY_TIMEOUT := 5 * SECOND
  const BATCH_SIZE := 256
  const MAX_BATCHES := 8

  datatype Phase =
    | Staging       // the stage file is being written
    | Ready         // written and closed
    | InTx          // write transaction open, metadata inserted
    | Linked        // the final name exists, the stage name too
    | Unlinking     // the stage name would not go: the final name is taken back
    | Placed        // the stage name is gone
    | Inserted      // the file payload is inserted
    | Compensating  // rolled back; the final object is to be deleted
    | Aborting      // the stage file is to be removed

  datatype Target = StageFile(key: Key) | FinalObject(key: Key)

  datatype Proc =
    | Creating(key: Key, phase: Phase, written: Time)
    | Deleting(pending: set<Key>)
    | Maintaining(now: Time, batches: nat, pending: set<Key>)
    | Reconciling(refs: set<Key>, staleBefore: Time, target: Option<Target>)

  /**
  `rows` are the keys of the committed file rows. The last three components record
  the run and are read by no step: `late` the keys committed GRACE or more after
  the last write to their stage file, `strays` and `litter` the final objects and
  stage files that a failed removal or a stop may have left behind.
  */
  datatype State = State(
    clock: Time,
    used: set<Key>,
    rows: set<Key>,
    stages: map<Key, Time>,
    objects: map<Key, Time>,
    writer: Option<Pid>,
    procs: map<Pid, Proc>,
    late: set<Key>,
    strays: set<Key>,
    litter: set<Key>)

  function Init(clock: Time): State {
    State(clock, {}, {}, map[], map[], None, map[], {}, {}, {})
  }

  datatype Step =
    | Tick(clock: Time)
    // creation: Stage, CreateFile and localStaged.Commit
    | BeginStage(p: Pid, key: Key)
    | WriteStage(p: Pid)
    | FinishStage(p: Pid)
    | BeginTx(p: Pid)
    | Link(p: Pid)
    | DropStageName(p: Pid, ok: bool)
    | TakeBackLink(p: Pid, ok: bool)
    | InsertPayload(p: Pid)
    | CommitTx(p: Pid)
    | GiveUp(p: Pid, compensate: bool)
    | Compensate(p: Pid, ok: bool)
    | Abort(p: Pid, ok: bool)
    // Delete, AdminDelete, and the maintenance pass
    | DeleteRow(p: Pid, key: Key)
    | BeginMaintenance(p: Pid)
    | PurgeBatch(p: Pid, keys: set<Key>)
    | DeleteObject(p: Pid, key: Key, ok: bool)
    | EndDelete(p: Pid)
    | TakeSnapshot(p: Pid)
    | Inspect(p: Pid, target: Target)
    | RemoveTarget(p: Pid, ok: bool)
    | EndReconcile(p: Pid)
    // the process stops
    | Crash

  predicate InPhase(s: State, p: Pid, phase: Phase) {
    p in s.procs && s.procs[p].Creating? && s.procs[p].phase == phase
  }

  function At(s: State, p: Pid, phase: Phase): State
    requires p in s.procs && s.procs[p].Creating?
  {
    s.(procs := s.procs[p := s.procs[p].(phase := phase)])
  }

  predicate HasPending(s: State, p: Pid) {
    p in s.procs && (s.procs[p].Deleting? || s.procs[p].Maintaining?)
  }

  /** Phases in which an upload can fail with its transaction open. */
  predicate MayFailInTx(phase: Phase) {
    phase == InTx || phase == Placed || phase == Inserted
  }

  /** Keys for which some process still has a removal or a creation in hand. */
  function Held(proc: Proc): set<Key> {
    match proc
    case Creating(key, _, _) => {key}
    case Deleting(pending) => pending
    case Maintaining(_, _, pending) => pending
    case Reconciling(_, _, _) => {}
  }

  function HeldKeys(procs: map<Pid, Proc>): set<Key> {
    set p, k | p in procs && k in Held(procs[p]) :: k
  }

  /** Receiving an upload, and opening its transaction. */
  function StagingStep(s: State, step: Step): Option<State> {
    match step
    case BeginStage(p, key) =>
      if p !in s.procs && key !in s.used then
        Some(s.(used := s.used + {key}, stages := s.stages[key := s.clock],
                procs := s.procs[p := Creating(key, Staging, s.clock)]))
      else None
    case WriteStage(p) =>
      if InPhase(s, p, Staging) then
        var c := s.procs[p];
        Some(s.(stages := if c.key in s.stages then s.stages[c.key := s.clock] else s.stages,
                procs := s.procs[p := c.(written := s.clock)]))
      else None
    case FinishStage(p) =>
      if InPhase(s, p, Staging) then Some(At(s, p, Ready)) else None
    case BeginTx(p) =>
      if InPhase(s, p, Ready) && s.writer.None? then Some(At(s, p, InTx).(writer := Some(p))) else None
    case _ => None
  }

  /** localStaged.Commit: the final name, the stage name, and the payload row after it. */
  function PublishingStep(s: State, step: Step): Option<State> {
    match step
    case Link(p) =>
      if InPhase(s, p, InTx) && s.procs[p].key in s.stages && s.procs[p].key !in s.objects then
        var k := s.procs[p].key;
        Some(At(s, p, Linked).(objects := s.objects[k := s.stages[k]]))
      else None
    case DropStageName(p, ok) =>
      if InPhase(s, p, Linked) && (ok ==> s.procs[p].key in s.stages) then
        if ok then Some(At(s, p, Placed).(stages := s.stages - {s.procs[p].key}))
        else Some(At(s, p, Unlinking))
      else None
    case TakeBackLink(p, ok) =>
      if InPhase(s, p, Unlinking) then
        var s1 := At(s, p, Compensating).(writer := None);
        Some(if ok then s1.(objects := s1.objects - {s.procs[p].key}) else s1)
      else None
    case InsertPayload(p) =>
      if InPhase(s, p, Placed) then Some(At(s, p, Inserted)) else None
    case _ => None
  }

  /** How an upload ends: committed, or rolled back, compensated and aborted. */
  function EndingStep(s: State, step: Step): Option<State> {
    match step
    case CommitTx(p) =>
      if InPhase(s, p, Inserted) then
        var c := s.procs[p];
        Some(s.(rows := s.rows + {c.key}, writer := None, procs := s.procs - {p},
                late := if s.clock < c.written + GRACE then s.late else s.late + {c.key}))
      else None
    case GiveUp(p, compensate) =>
      if InPhase(s, p, Staging) && !compensate then Some(At(s, p, Aborting))
      else if InPhase(s, p, Ready) then Some(At(s, p, if compensate then Compensating else Aborting))
      else if p in s.procs && s.procs[p].Creating? && MayFailInTx(s.procs[p].phase) && compensate then
        Some(At(s, p, Compensating).(writer := None))
      else None
    case Compensate(p, ok) =>
      if InPhase(s, p, Compensating) then
        var k := s.procs[p].key;
        Some(if ok then At(s, p, Aborting).(objects := s.objects - {k})
             else At(s, p, Aborting).(strays := s.strays + {k}))
      else None
    case Abort(p, ok) =>
      if InPhase(s, p, Aborting) then
        var k := s.procs[p].key;
        var s1 := s.(procs := s.procs - {p});
        Some(if ok then s1.(stages := s.stages - {k}) else s1.(litter := s.litter + {k}))
      else None
    case _ => None
  }

  /** Deleting rows, then their objects: Delete, AdminDelete, and the purge of a maintenance pass. */
  function RemovalStep(s: State, step: Step): Option<State> {
    match step
    case DeleteRow(p, key) =>
      if p !in s.procs && s.writer.None? && key in s.rows then
        Some(s.(rows := s.rows - {key}, procs := s.procs[p := Deleting({key})]))
      else None
    case BeginMaintenance(p) =>
      if p !in s.procs then Some(s.(procs := s.procs[p := Maintaining(s.clock, 0, {})])) else None
    case PurgeBatch(p, keys) =>
      if p in s.procs && s.procs[p].Maintaining? && s.procs[p].pending == {} && s.writer.None?
         && s.procs[p].batches < MAX_BATCHES && keys <= s.rows && |keys| <= BATCH_SIZE then
        var m := s.procs[p];
        Some(s.(rows := s.rows - keys, procs := s.procs[p := Maintaining(m.now, m.batches + 1, keys)]))
      else None
    case DeleteObject(p, key, ok) =>
      if HasPending(s, p) && key in s.procs[p].pending then
        var s1 := s.(procs := s.procs[p := s.procs[p].(pending := s.procs[p].pending - {key})]);
        Some(if ok then s1.(objects := s.objects - {key}) else s1.(strays := s.strays + {key}))
      else None
    case EndDelete(p) =>
      if HasPending(s, p) && s.procs[p].pending == {} then Some(s.(procs := s.procs - {p})) else None
    case _ => None
  }

  /** The reference snapshot, and the removals Reconcile makes with it. */
  function ReconcileStep(s: State, step: Step): Option<State> {
    match step
    case TakeSnapshot(p) =>
      if p in s.procs && s.procs[p].Maintaining? && s.procs[p].pending == {} && s.procs[p].batches > 0 then
        Some(s.(procs := s.procs[p := Reconciling(s.rows, s.procs[p].now - GRACE, None)]))
      else None
    case Inspect(p, target) =>
      if p in s.procs && s.procs[p].Reconciling? && IsStale(s, s.procs[p].refs, s.procs[p].staleBefore, target) then
        Some(s.(procs := s.procs[p := s.procs[p].(target := Some(target))]))
      else None
    case RemoveTarget(p, ok) =>
      if p in s.procs && s.procs[p].Reconciling? && s.procs[p].target.Some? then
        var s1 := s.(procs := s.procs[p := s.procs[p].(target := None)]);
        if !ok then Some(s1)
        else
          match s.procs[p].target.value
          case StageFile(k) => Some(s1.(stages := s.stages - {k}))
          case FinalObject(k) => Some(s1.(objects := s.objects - {k}))
      else None
    case EndReconcile(p) =>
      if p in s.procs && s.procs[p].Reconciling? then Some(s.(procs := s.procs - {p})) else None
    case _ => None
  }

  /** The state after a step, if the step can be taken. */
  function Next(s: State, step: Step): Option<State> {
    match step
    case Tick(clock) =>
      if s.clock <= clock then Some(s.(clock := clock)) else None
    case Crash =>
      Some(s.(writer := None, procs := map[],
              strays := s.strays + HeldKeys(s.procs), litter := s.litter + HeldKeys(s.procs)))
    case _ =>
      if StagingStep(s, step).Some? then StagingStep(s, step)
      else if PublishingStep(s, step).Some? then PublishingStep(s, step)
      else if EndingStep(s, step).Some? then EndingStep(s, step)
      else if RemovalStep(s, step).Some? then RemovalStep(s, step)
      else ReconcileStep(s, step)
  }

  /** What Reconcile tests before it removes a file. */
  predicate IsStale(s: State, refs: set<Key>, staleBefore: Time, target: Target) {
    match target
    case StageFile(k) => k in s.stages && s.stages[k] <= staleBefore
    case FinalObject(k) => k in s.objects && k !in refs && s.objects[k] <= staleBefore
  }

  /** The state after a run, if every step of it could be taken. */
  function Exec(s: State, steps: seq<Step>): Option<State>
    decreases |steps|
  {
    if steps == [] then Some(s)
    else
      match Next(s, steps[0])
      case None => None
      case Some(s1) => Exec(s1, steps[1..])
  }

  // ----- the invariant --------------------------------------------------------

  /** Before the link, after it, and where an upload can no longer commit. */
  predicate BeforeLink(phase: Phase) {
    phase == Staging || phase == Ready || phase == InTx
  }

  predicate MayCommit(phase: Phase) {
    phase == Linked || phase == Placed || phase == Inserted
  }

  ghost predicate Known(s: State) {
    && s.rows <= s.used && s.stages.Keys <= s.used && s.objects.Keys <= s.used
    && (forall p :: p in s.procs ==> Held(s.procs[p]) <= s.used)
    && (forall p :: p in s.procs && s.procs[p].Reconciling? ==> s.procs[p].refs <= s.used)
    && (forall p :: p in s.procs && s.procs[p].Reconciling? && s.procs[p].target.Some?
          ==> s.procs[p].target.value.key in s.used)
  }

  /** The key of an upload in progress is in no row, no snapshot and no other process's hands. */
  ghost predicate Exclusive(s: State) {
    && (forall p :: p in s.procs && s.procs[p].Creating? ==> s.procs[p].key !in s.rows)
    && (forall p, q :: p in s.procs && q in s.procs && p != q && s.procs[p].Creating?
          ==> s.procs[p].key !in Held(s.procs[q]))
  }

  /** A key that a deletion has in hand has lost its row. */
  ghost predicate Detached(s: State) {
    forall p :: p in s.procs && HasPending(s, p) ==> s.procs[p].pending !! s.rows
  }

  /** An upload that may still commit has its object, unless it has taken GRACE or longer. */
  ghost predicate UploadHasObject(s: State, c: Proc)
    requires c.Creating?
  {
    && c.written <= s.clock
    && (BeforeLink(c.phase) ==> c.key !in s.objects && (c.key in s.stages ==> s.stages[c.key] == c.written))
    && (MayCommit(c.phase) ==>
          (c.key in s.objects && s.objects[c.key] == c.written) || c.written + GRACE <= s.clock)
  }

  ghost predicate Uploads(s: State) {
    forall p :: p in s.procs && s.procs[p].Creating? ==> UploadHasObject(s, s.procs[p])
  }

  /** No file that a reconciler could still remove belongs to a row committed in time. */
  ghost predicate ReconcilerIsHarmless(s: State, r: Proc)
    requires r.Reconciling?
  {
    && r.staleBefore + GRACE <= s.clock
    && (forall k :: k in s.rows && k !in r.refs && k !in s.late && k in s.objects ==> r.staleBefore < s.objects[k])
    && (r.target.Some? && r.target.value.FinalObject? ==>
          r.target.value.key !in r.refs
          && (r.target.value.key in s.objects ==> s.objects[r.target.value.key] <= r.staleBefore))
  }

  ghost predicate Reconcilers(s: State) {
    && (forall p :: p in s.procs && s.procs[p].Reconciling? ==> ReconcilerIsHarmless(s, s.procs[p]))
    && (forall p :: p in s.procs && s.procs[p].Maintaining? ==> s.procs[p].now <= s.clock)
  }

  /** No reconciler has singled out an object whose upload has not published it yet. */
  ghost predicate NotYetTargets(s: State) {
    forall p, q :: p in s.procs && q in s.procs && s.procs[q].Reconciling?
                   && s.procs[p].Creating? && BeforeLink(s.procs[p].phase)
      ==> s.procs[q].target != Some(FinalObject(s.procs[p].key))
  }

  /** The property itself. */
  ghost predicate RowsHaveObjects(s: State) {
    forall k :: k in s.rows && k !in s.late ==> k in s.objects
  }

  ghost predicate Inv(s: State) {
    && Known(s) && Exclusive(s) && Detached(s) && Uploads(s)
    && Reconcilers(s) && NotYetTargets(s) && RowsHaveObjects(s)
  }
}
