/**
 Which answers of the backend, the window and the allocator become the error of the
 presenter, and that it comes from nowhere else.  The cases are spelled out here,
 over the steps of PresenterThread and over its runs.
 */
module PresenterErrors {
  import opened PresenterThread

  /** A failed draw is counted and forgotten; a draw that finds the window closed, and
      whatever else fails, stops the presenter. */
  predicate Stops(kind: Kind, error: Error) { error == Closed || (error != Ok && kind != Draw) }

  /** A record that is run and then settled, with the owner's steps in between, leaves
      the status as it was exactly for a draw that failed without the window closing, for
      a success, or when there already was an error; otherwise its error is the status. */
  lemma StatusAfterRecord(s: State, error: Error, s': State, t: State, t': State)
    requires WellFormed(s) && WorkerStep(s, RunRecord(error), s')
    requires WellFormed(t) && t.worker == s'.worker && WorkerStep(t, SettleResult, t')
    ensures s'.status == s.status && s.worker.Run?
    ensures var kind := Front(s)[s.worker.i].kind;
      && (t'.status == t.status <==> t.status != Ok || error == Ok || (kind == Draw && error != Closed))
      && (t'.status != t.status ==> t'.status == error)
  {
  }

  /** What is raised while all is well is the status from then on. */
  lemma RaisedNow(s: State, step: Step, s': State)
    requires WellFormed(s) && s.status == Ok
    ensures WorkerStep(s, step, s') && (step.PumpMessages? || step.WaitFails?) ==> s'.status == step.error
    ensures OwnerStep(s, step, s') && step.RaiseReport? ==> s'.status == s.owner.error
  {
  }

  // --------------------------------------------------------------- over runs

  /** A step that has this error as its outcome, and is one that stops the presenter. */
  ghost predicate Causes(s: State, s': State, e: Error)
    requires WellFormed(s)
  {
    || WorkerStep(s, PumpMessages(e), s')
    || WorkerStep(s, WaitFails(e), s')
    || (WorkerStep(s, RunRecord(e), s') && s.worker.i < |Front(s)| && Stops(Front(s)[s.worker.i].kind, e))
    || (OwnerStep(s, AddFails(e), s') && s.owner.r.kind == Report)
  }

  ghost predicate CausedBefore(run: seq<State>, k: nat, e: Error) {
    exists j: nat :: j < k && j + 1 < |run| && WellFormed(run[j]) && Causes(run[j], run[j + 1], e)
  }

  /** An error that is the status, or is about to be, has a cause. */
  ghost predicate Explained(run: seq<State>, k: nat)
    requires k < |run|
  {
    var s := run[k];
    && (s.status != Ok ==> CausedBefore(run, k, s.status))
    && (s.worker.Settle? && s.worker.error != Ok ==> CausedBefore(run, k, s.worker.error))
    && (s.owner.ReportFailed? && s.owner.error != Ok ==> CausedBefore(run, k, s.owner.error))
  }

  lemma CauseStays(run: seq<State>, k: nat, e: Error)
    requires CausedBefore(run, k, e)
    ensures CausedBefore(run, k + 1, e)
  {
  }

  lemma CausedNow(run: seq<State>, k: nat, e: Error)
    requires k + 1 < |run| && WellFormed(run[k]) && Causes(run[k], run[k + 1], e)
    ensures CausedBefore(run, k + 1, e)
  {
  }

  /** One step: what is new has its cause in this step. */
  lemma NewError(s: State, s': State, e: Error)
    requires Next(s, s') && e != Ok
    requires s'.status == e || (s'.worker.Settle? && s'.worker.error == e) || (s'.owner.ReportFailed? && s'.owner.error == e)
    ensures Causes(s, s', e) || s.status == e || (s.worker.Settle? && s.worker.error == e)
      || (s.owner.ReportFailed? && s.owner.error == e)
  {
    var step :| OwnerStep(s, step, s') || WorkerStep(s, step, s');
    if OwnerStep(s, step, s') { NewOwnerError(s, step, s', e); } else { NewWorkerError(s, step, s', e); }
  }

  lemma NewOwnerError(s: State, step: Step, s': State, e: Error)
    requires WellFormed(s) && OwnerStep(s, step, s') && e != Ok
    requires s'.status == e || (s'.worker.Settle? && s'.worker.error == e) || (s'.owner.ReportFailed? && s'.owner.error == e)
    ensures Causes(s, s', e) || s.status == e || (s.worker.Settle? && s.worker.error == e)
      || (s.owner.ReportFailed? && s.owner.error == e)
  {
  }

  lemma NewWorkerError(s: State, step: Step, s': State, e: Error)
    requires WellFormed(s) && WorkerStep(s, step, s') && e != Ok
    requires s'.status == e || (s'.worker.Settle? && s'.worker.error == e) || (s'.owner.ReportFailed? && s'.owner.error == e)
    ensures Causes(s, s', e) || s.status == e || (s.worker.Settle? && s.worker.error == e)
      || (s.owner.ReportFailed? && s.owner.error == e)
  {
  }

  lemma ExplainedOn(run: seq<State>, k: nat, e: Error)
    requires k + 1 < |run| && Next(run[k], run[k + 1]) && Explained(run, k) && e != Ok
    requires var s' := run[k + 1];
      s'.status == e || (s'.worker.Settle? && s'.worker.error == e) || (s'.owner.ReportFailed? && s'.owner.error == e)
    ensures CausedBefore(run, k + 1, e)
  {
    NewError(run[k], run[k + 1], e);
    if Causes(run[k], run[k + 1], e) { CausedNow(run, k, e); } else { CauseStays(run, k, e); }
  }

  lemma ExplainedNext(run: seq<State>, k: nat)
    requires k + 1 < |run| && Next(run[k], run[k + 1]) && Explained(run, k)
    ensures Explained(run, k + 1)
  {
    var s := run[k + 1];
    if s.status != Ok { ExplainedOn(run, k, s.status); }
    if s.worker.Settle? && s.worker.error != Ok { ExplainedOn(run, k, s.worker.error); }
    if s.owner.ReportFailed? && s.owner.error != Ok { ExplainedOn(run, k, s.owner.error); }
  }

  lemma StartExplained(run: seq<State>)
    requires |run| > 0 && run[0] == START
    ensures Explained(run, 0)
  {
  }

  lemma {:induction false} RunsExplained(run: seq<State>, k: nat)
    requires IsRun(run) && k < |run|
    ensures Explained(run, k)
  {
    if k == 0 {
      StartExplained(run);
    } else {
      RunsExplained(run, k - 1);
      assert NextAt(run, k - 1);
      ExplainedNext(run, k - 1);
    }
  }

  /** Over every run, the error of the presenter has a cause: the window, a failed wait,
      a report that could not be added, or a record whose failure stops it; never a draw
      that failed for another reason than the window closing. */
  lemma ErrorsHaveCauses(run: seq<State>, k: nat)
    requires IsRun(run) && k < |run| && run[k].status != Ok
    ensures CausedBefore(run, k, run[k].status)
  {
    RunsExplained(run, k);
  }
}
