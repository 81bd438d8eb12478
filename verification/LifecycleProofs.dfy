/** Safety of the two stores in every reachable state, and what can be left behind. */
module LifecycleProofs {
  import opened Common
  import opened Lifecycle

  // ----- each family of steps keeps each part of the invariant ------------------

  lemma StagingKeepsKnown(s: State, step: Step)
    requires Known(s) && StagingStep(s, step).Some?
    ensures Known(StagingStep(s, step).value)
  {
  }

  lemma PublishingKeepsKnown(s: State, step: Step)
    requires Known(s) && PublishingStep(s, step).Some?
    ensures Known(PublishingStep(s, step).value)
  {
  }

  lemma EndingKeepsKnown(s: State, step: Step)
    requires Known(s) && EndingStep(s, step).Some?
    ensures Known(EndingStep(s, step).value)
  {
  }

  lemma RemovalKeepsKnown(s: State, step: Step)
    requires Known(s) && RemovalStep(s, step).Some?
    ensures Known(RemovalStep(s, step).value)
  {
  }

  lemma ReconcileKeepsKnown(s: State, step: Step)
    requires Known(s) && ReconcileStep(s, step).Some?
    ensures Known(ReconcileStep(s, step).value)
  {
  }

  lemma StagingKeepsExclusive(s: State, step: Step)
    requires Known(s) && Exclusive(s) && StagingStep(s, step).Some?
    ensures Exclusive(StagingStep(s, step).value)
  {
  }

  lemma PublishingKeepsExclusive(s: State, step: Step)
    requires Known(s) && Exclusive(s) && PublishingStep(s, step).Some?
    ensures Exclusive(PublishingStep(s, step).value)
  {
  }

  /** Uploads that go on with their keys stay alone with them when others hold no more than before. */
  lemma ExclusiveStays(s: State, s': State)
    requires Exclusive(s) && s'.procs.Keys <= s.procs.Keys
    requires forall p :: p in s'.procs ==>
      Held(s'.procs[p]) <= Held(s.procs[p]) && (s'.procs[p].Creating? ==> s.procs[p].Creating?)
    requires forall p :: p in s'.procs && s'.procs[p].Creating? ==>
      s'.procs[p].key == s.procs[p].key && s'.procs[p].key !in s'.rows
    ensures Exclusive(s')
  {
  }

  lemma EndingKeepsExclusive(s: State, step: Step)
    requires Known(s) && Exclusive(s) && EndingStep(s, step).Some?
    ensures Exclusive(EndingStep(s, step).value)
  {
    assert step.CommitTx? ==> Held(s.procs[step.p]) == {s.procs[step.p].key};
    ExclusiveStays(s, EndingStep(s, step).value);
  }

  lemma RemovalKeepsExclusive(s: State, step: Step)
    requires Known(s) && Exclusive(s) && RemovalStep(s, step).Some?
    ensures Exclusive(RemovalStep(s, step).value)
  {
  }

  lemma ReconcileKeepsExclusive(s: State, step: Step)
    requires Known(s) && Exclusive(s) && ReconcileStep(s, step).Some?
    ensures Exclusive(ReconcileStep(s, step).value)
  {
  }

  lemma StagingKeepsDetached(s: State, step: Step)
    requires Exclusive(s) && Detached(s) && StagingStep(s, step).Some?
    ensures Detached(StagingStep(s, step).value)
  {
  }

  lemma PublishingKeepsDetached(s: State, step: Step)
    requires Exclusive(s) && Detached(s) && PublishingStep(s, step).Some?
    ensures Detached(PublishingStep(s, step).value)
  {
  }

  lemma EndingKeepsDetached(s: State, step: Step)
    requires Exclusive(s) && Detached(s) && EndingStep(s, step).Some?
    ensures Detached(EndingStep(s, step).value)
  {
  }

  lemma RemovalKeepsDetached(s: State, step: Step)
    requires Exclusive(s) && Detached(s) && RemovalStep(s, step).Some?
    ensures Detached(RemovalStep(s, step).value)
  {
  }

  lemma ReconcileKeepsDetached(s: State, step: Step)
    requires Exclusive(s) && Detached(s) && ReconcileStep(s, step).Some?
    ensures Detached(ReconcileStep(s, step).value)
  {
  }

  lemma StagingKeepsUploads(s: State, step: Step)
    requires Known(s) && Exclusive(s) && Uploads(s) && StagingStep(s, step).Some?
    ensures Uploads(StagingStep(s, step).value)
  {
  }

  lemma PublishingKeepsUploads(s: State, step: Step)
    requires Exclusive(s) && Uploads(s) && PublishingStep(s, step).Some?
    ensures Uploads(PublishingStep(s, step).value)
  {
  }

  lemma EndingKeepsUploads(s: State, step: Step)
    requires Exclusive(s) && Uploads(s) && EndingStep(s, step).Some?
    ensures Uploads(EndingStep(s, step).value)
  {
  }

  lemma RemovalKeepsUploads(s: State, step: Step)
    requires Exclusive(s) && Uploads(s) && RemovalStep(s, step).Some?
    ensures Uploads(RemovalStep(s, step).value)
  {
  }

  lemma ReconcileKeepsUploads(s: State, step: Step)
    requires Uploads(s) && Reconcilers(s) && ReconcileStep(s, step).Some?
    ensures Uploads(ReconcileStep(s, step).value)
  {
  }

  lemma StagingKeepsRowsHaveObjects(s: State, step: Step)
    requires RowsHaveObjects(s) && StagingStep(s, step).Some?
    ensures RowsHaveObjects(StagingStep(s, step).value)
  {
  }

  lemma PublishingKeepsRowsHaveObjects(s: State, step: Step)
    requires Exclusive(s) && RowsHaveObjects(s) && PublishingStep(s, step).Some?
    ensures RowsHaveObjects(PublishingStep(s, step).value)
  {
  }

  lemma EndingKeepsRowsHaveObjects(s: State, step: Step)
    requires Exclusive(s) && Uploads(s) && RowsHaveObjects(s) && EndingStep(s, step).Some?
    ensures RowsHaveObjects(EndingStep(s, step).value)
  {
  }

  lemma RemovalKeepsRowsHaveObjects(s: State, step: Step)
    requires Detached(s) && RowsHaveObjects(s) && RemovalStep(s, step).Some?
    ensures RowsHaveObjects(RemovalStep(s, step).value)
  {
  }

  lemma ReconcileKeepsRowsHaveObjects(s: State, step: Step)
    requires Reconcilers(s) && RowsHaveObjects(s) && ReconcileStep(s, step).Some?
    ensures RowsHaveObjects(ReconcileStep(s, step).value)
  {
  }

  lemma StagingKeepsReconcilers(s: State, step: Step)
    requires Reconcilers(s) && StagingStep(s, step).Some?
    ensures Reconcilers(StagingStep(s, step).value)
  {
  }

  lemma PublishingKeepsReconcilers(s: State, step: Step)
    requires Exclusive(s) && Uploads(s) && NotYetTargets(s) && Reconcilers(s) && PublishingStep(s, step).Some?
    ensures Reconcilers(PublishingStep(s, step).value)
  {
  }

  /** Reconcilers stay harmless when files only go, and new rows are late or have young objects. */
  lemma ReconcilersStay(s: State, s': State)
    requires Reconcilers(s) && s'.clock == s.clock && s.late <= s'.late
    requires forall p :: p in s'.procs && !s'.procs[p].Creating? ==> p in s.procs && s'.procs[p] == s.procs[p]
    requires forall k :: k in s'.objects ==> k in s.objects && s'.objects[k] == s.objects[k]
    requires forall k :: k in s'.rows && k !in s.rows ==>
      k in s'.late || (k in s'.objects ==> s.clock < s'.objects[k] + GRACE)
    ensures Reconcilers(s')
  {
  }

  lemma EndingKeepsReconcilers(s: State, step: Step)
    requires Uploads(s) && Reconcilers(s) && EndingStep(s, step).Some?
    ensures Reconcilers(EndingStep(s, step).value)
  {
    assert step.CommitTx? ==> UploadHasObject(s, s.procs[step.p]);
    hide Reconcilers;
    ReconcilersStay(s, EndingStep(s, step).value);
  }

  lemma RemovalKeepsReconcilers(s: State, step: Step)
    requires Reconcilers(s) && RemovalStep(s, step).Some?
    ensures Reconcilers(RemovalStep(s, step).value)
  {
  }

  lemma ReconcileKeepsReconcilers(s: State, step: Step)
    requires Reconcilers(s) && ReconcileStep(s, step).Some?
    ensures Reconcilers(ReconcileStep(s, step).value)
  {
  }

  lemma StagingKeepsNotYetTargets(s: State, step: Step)
    requires Known(s) && NotYetTargets(s) && StagingStep(s, step).Some?
    ensures NotYetTargets(StagingStep(s, step).value)
  {
  }

  lemma PublishingKeepsNotYetTargets(s: State, step: Step)
    requires NotYetTargets(s) && PublishingStep(s, step).Some?
    ensures NotYetTargets(PublishingStep(s, step).value)
  {
  }

  lemma EndingKeepsNotYetTargets(s: State, step: Step)
    requires NotYetTargets(s) && EndingStep(s, step).Some?
    ensures NotYetTargets(EndingStep(s, step).value)
  {
  }

  lemma RemovalKeepsNotYetTargets(s: State, step: Step)
    requires NotYetTargets(s) && RemovalStep(s, step).Some?
    ensures NotYetTargets(RemovalStep(s, step).value)
  {
  }

  lemma ReconcileKeepsNotYetTargets(s: State, step: Step)
    requires Uploads(s) && NotYetTargets(s) && ReconcileStep(s, step).Some?
    ensures NotYetTargets(ReconcileStep(s, step).value)
  {
  }

  lemma WorldKeepsInv(s: State, step: Step)
    requires Inv(s) && (step.Tick? || step.Crash?) && Next(s, step).Some?
    ensures Inv(Next(s, step).value)
  {
  }

  lemma NextKeepsInv(s: State, step: Step)
    requires Inv(s) && Next(s, step).Some?
    ensures Inv(Next(s, step).value)
  {
    hide StagingStep, PublishingStep, EndingStep, RemovalStep, ReconcileStep;
    hide Known, Exclusive, Detached, Uploads, Reconcilers, NotYetTargets, RowsHaveObjects;
    if step.Tick? || step.Crash? {
      WorldKeepsInv(s, step);
    } else if StagingStep(s, step).Some? {
      StagingKeepsKnown(s, step);
      StagingKeepsExclusive(s, step);
      StagingKeepsDetached(s, step);
      StagingKeepsUploads(s, step);
      StagingKeepsRowsHaveObjects(s, step);
      StagingKeepsReconcilers(s, step);
      StagingKeepsNotYetTargets(s, step);
    } else if PublishingStep(s, step).Some? {
      PublishingKeepsKnown(s, step);
      PublishingKeepsExclusive(s, step);
      PublishingKeepsDetached(s, step);
      PublishingKeepsUploads(s, step);
      PublishingKeepsRowsHaveObjects(s, step);
      PublishingKeepsReconcilers(s, step);
      PublishingKeepsNotYetTargets(s, step);
    } else if EndingStep(s, step).Some? {
      EndingKeepsKnown(s, step);
      EndingKeepsExclusive(s, step);
      EndingKeepsDetached(s, step);
      EndingKeepsUploads(s, step);
      EndingKeepsRowsHaveObjects(s, step);
      EndingKeepsReconcilers(s, step);
      EndingKeepsNotYetTargets(s, step);
    } else if RemovalStep(s, step).Some? {
      RemovalKeepsKnown(s, step);
      RemovalKeepsExclusive(s, step);
      RemovalKeepsDetached(s, step);
      RemovalKeepsUploads(s, step);
      RemovalKeepsRowsHaveObjects(s, step);
      RemovalKeepsReconcilers(s, step);
      RemovalKeepsNotYetTargets(s, step);
    } else {
      ReconcileKeepsKnown(s, step);
      ReconcileKeepsExclusive(s, step);
      ReconcileKeepsDetached(s, step);
      ReconcileKeepsUploads(s, step);
      ReconcileKeepsRowsHaveObjects(s, step);
      ReconcileKeepsReconcilers(s, step);
      ReconcileKeepsNotYetTargets(s, step);
    }
  }

  lemma {:induction false} RunKeepsInv(s: State, steps: seq<Step>)
    requires Inv(s) && Exec(s, steps).Some?
    ensures Inv(Exec(s, steps).value)
    decreases |steps|
  {
    hide Next, Inv;
    if steps != [] {
      NextKeepsInv(s, steps[0]);
      RunKeepsInv(Next(s, steps[0]).value, steps[1..]);
    }
  }

  // ----- safety ----------------------------------------------------------------

  /**
  In every reachable state a committed File row has its object, unless the row was
  committed GRACE or more after the last write to its stage file.
  */
  lemma EveryRowHasItsObject(clock: Time, steps: seq<Step>)
    requires Exec(Init(clock), steps).Some?
    ensures RowsHaveObjects(Exec(Init(clock), steps).value)
  {
    RunKeepsInv(Init(clock), steps);
  }

  /** Every commit of the run comes less than `limit` after the last write of its upload. */
  ghost predicate Within(s: State, steps: seq<Step>, limit: Time)
    requires Exec(s, steps).Some?
    decreases |steps|
  {
    steps != [] ==>
      && (steps[0].CommitTx? ==> s.clock < s.procs[steps[0].p].written + limit)
      && Within(Next(s, steps[0]).value, steps[1..], limit)
  }

  ghost predicate Timely(s: State, steps: seq<Step>)
    requires Exec(s, steps).Some?
  {
    Within(s, steps, GRACE)
  }

  lemma {:induction false} WithinMore(s: State, steps: seq<Step>, limit: Time, more: Time)
    requires Exec(s, steps).Some? && Within(s, steps, limit) && limit <= more
    ensures Within(s, steps, more)
    decreases |steps|
  {
    hide Next;
    if steps != [] {
      WithinMore(Next(s, steps[0]).value, steps[1..], limit, more);
    }
  }

  lemma StepLateness(s: State, step: Step)
    requires Next(s, step).Some?
    ensures !step.CommitTx? ==> Next(s, step).value.late == s.late
    ensures step.CommitTx? ==> step.p in s.procs && s.procs[step.p].Creating?
    ensures step.CommitTx? && s.clock < s.procs[step.p].written + GRACE ==> Next(s, step).value.late == s.late
  {
  }

  lemma {:induction false} TimelyRunsAreNeverLate(s: State, steps: seq<Step>)
    requires Exec(s, steps).Some? && Timely(s, steps)
    ensures Exec(s, steps).value.late == s.late
    decreases |steps|
  {
    hide Next;
    if steps != [] {
      StepLateness(s, steps[0]);
      TimelyRunsAreNeverLate(Next(s, steps[0]).value, steps[1..]);
    }
  }
}
