/** Why a 304 never throws away an enrichment under the fill lock. */
module Revalidation {
  import opened Wrappers
  import opened TimedStore
  import opened ProjectKeys
  import opened Enrichment
  import opened Overwrites
  import KeyLocker

  /** One process: the protocol, and the locks by key that its jobs take. */
  datatype Locked = Locked(inner: State, locker: KeyLocker.State)

  const START := Locked(INITIAL, KeyLocker.INITIAL)

  function FillKey(project: string): string {
    "simple:" + project + ":fill"
  }

  datatype LockedStep =
    | Work(step: Step)
    | Lock(lockStep: KeyLocker.Step)

  predicate HoldsFillLock(s: Locked, job: nat, project: string) {
    KeyLocker.InPhase(s.locker, job, KeyLocker.Holding) && s.locker.tasks[job].key == FillKey(project)
  }

  /** Between its first read of the store and its last write a job has its project's lock. */
  predicate Critical(j: Job) {
    j.Revalidating? || (j.Committing? && !j.commitStage.Reading?)
  }

  /** A commit reads under the lock, a 304 reads the stale bodies under it. */
  predicate HasLock(s: Locked, step: Step)
    requires Enabled(s.inner, step)
  {
    match step
    case StartRevalidation(job, project, _, _) => HoldsFillLock(s, job, project)
    case ReadForCommit(job) => HoldsFillLock(s, job, s.inner.jobs[job].project)
    case _ => true
  }

  /** The lock is not let go before the work is done or abandoned. */
  predicate LockedEnabled(s: Locked, step: LockedStep) {
    match step
    case Work(work) => Enabled(s.inner, work) && HasLock(s, work)
    case Lock(lockStep) =>
      && KeyLocker.Enabled(s.locker, lockStep)
      && (lockStep.Release? && lockStep.task in s.inner.jobs ==> !Critical(s.inner.jobs[lockStep.task]))
  }

  function LockedApply(s: Locked, step: LockedStep): Locked
    requires LockedEnabled(s, step)
  {
    match step
    case Work(work) => s.(inner := Apply(s.inner, work))
    case Lock(lockStep) => s.(locker := KeyLocker.Apply(s.locker, lockStep))
  }

  ghost predicate LockedRun(s: Locked, steps: seq<LockedStep>, end: Locked)
    decreases |steps|
  {
    if steps == [] then end == s
    else LockedEnabled(s, steps[0]) && LockedRun(LockedApply(s, steps[0]), steps[1..], end)
  }

  /** No enrichment of the project has been logged from `since` on. */
  ghost predicate NoneSince(log: seq<CopyWrite>, project: string, since: nat) {
    forall i :: since <= i < |log| ==> !(log[i].key.project == project && log[i].cause.Enriched?)
  }

  ghost predicate Guarded(s: Locked) {
    forall job :: job in s.inner.jobs && Critical(s.inner.jobs[job]) ==> HoldsFillLock(s, job, s.inner.jobs[job].project)
  }

  ghost predicate Undisturbed(s: State) {
    forall job :: job in s.jobs && s.jobs[job].Revalidating? ==> NoneSince(s.log, s.jobs[job].project, s.jobs[job].since)
  }

  ghost predicate LockedInv(s: Locked) {
    KeyLocker.Inv(s.locker) && Guarded(s) && Undisturbed(s.inner)
  }

  /** Only a commit's write logs an enrichment, and one of its own project. */
  lemma OnlyCommitsEnrich(s: State, step: Step, project: string)
    requires Enabled(s, step) && !(step.WriteCommit? && s.jobs[step.job].project == project)
    ensures s.log <= Apply(s, step).log && NoneSince(Apply(s, step).log, project, |s.log|)
  {
    StepLogs(s, step);
    hide Apply;
  }

  lemma LockStepKeepsGuard(s: Locked, step: KeyLocker.Step)
    requires Guarded(s) && LockedEnabled(s, Lock(step))
    ensures Guarded(LockedApply(s, Lock(step)))
  {
  }

  /** Work never makes a job critical that does not have the lock. */
  lemma WorkKeepsGuard(s: Locked, step: Step)
    requires Guarded(s) && LockedEnabled(s, Work(step))
    ensures Guarded(LockedApply(s, Work(step)))
  {
    forall job | job in Apply(s.inner, step).jobs && Critical(Apply(s.inner, step).jobs[job])
      ensures HoldsFillLock(s, job, Apply(s.inner, step).jobs[job].project)
    {
      CriticalBefore(s.inner, step, job);
    }
    hide Apply;
  }

  lemma CriticalBefore(s: State, step: Step, job: nat)
    requires Enabled(s, step) && job in Apply(s, step).jobs && Critical(Apply(s, step).jobs[job])
    ensures (job in s.jobs && Critical(s.jobs[job]) && s.jobs[job].project == Apply(s, step).jobs[job].project)
      || (step.StartRevalidation? && step.job == job && step.project == Apply(s, step).jobs[job].project)
      || (step == ReadForCommit(job) && s.jobs[job].project == Apply(s, step).jobs[job].project)
  {
    hide WriteAll;
    hide BoundOf;
    hide SampleOf;
    hide TextAt;
  }

  /** The 304s in flight after a step: those before it, and one that starts now. */
  lemma RevalidatingBefore(s: State, step: Step, job: nat)
    requires Enabled(s, step) && job in Apply(s, step).jobs && Apply(s, step).jobs[job].Revalidating?
    ensures var j := Apply(s, step).jobs[job];
      (job in s.jobs && s.jobs[job].Revalidating? && s.jobs[job].project == j.project && s.jobs[job].since == j.since)
      || (step.StartRevalidation? && j.since == |s.log| && Apply(s, step).log == s.log)
  {
    hide WriteAll;
    hide BoundOf;
    hide SampleOf;
    hide TextAt;
  }

  /** No commit of the project is under way beside a 304. */
  lemma NoCommitBeside(s: Locked, job: nat, other: nat)
    requires LockedInv(s) && job in s.inner.jobs && s.inner.jobs[job].Revalidating?
    requires other in s.inner.jobs && s.inner.jobs[other].Committing? && Critical(s.inner.jobs[other])
    ensures s.inner.jobs[other].project != s.inner.jobs[job].project
  {
    if s.inner.jobs[other].project == s.inner.jobs[job].project {
      KeyLocker.HolderIsUnique(s.locker, job, other);
    }
  }

  lemma WorkLeavesUndisturbed(s: Locked, step: Step)
    requires LockedInv(s) && LockedEnabled(s, Work(step))
    ensures Undisturbed(Apply(s.inner, step))
  {
    var s' := Apply(s.inner, step);
    forall job | job in s'.jobs && s'.jobs[job].Revalidating?
      ensures NoneSince(s'.log, s'.jobs[job].project, s'.jobs[job].since)
    {
      RevalidatingBefore(s.inner, step, job);
      if step.WriteCommit? {
        NoCommitBeside(s, job, step.job);
      }
      OnlyCommitsEnrich(s.inner, step, s'.jobs[job].project);
    }
  }

  lemma LockedInvPreserved(s: Locked, step: LockedStep)
    requires LockedInv(s) && LockedEnabled(s, step)
    ensures LockedInv(LockedApply(s, step))
  {
    match step {
      case Work(work) =>
        WorkKeepsGuard(s, work);
        WorkLeavesUndisturbed(s, work);
      case Lock(lockStep) =>
        LockStepKeepsGuard(s, lockStep);
        KeyLocker.InvPreserved(s.locker, lockStep);
    }
    hide KeyLocker.Inv;
    hide Guarded;
    hide Undisturbed;
    hide Apply;
  }

  lemma {:induction false} LockedRunKeepsInv(s: Locked, steps: seq<LockedStep>, end: Locked)
    requires LockedInv(s) && LockedRun(s, steps, end)
    ensures LockedInv(end)
    decreases |steps|
  {
    if steps != [] {
      LockedInvPreserved(s, steps[0]);
      hide LockedInv;
      hide LockedApply;
      LockedRunKeepsInv(LockedApply(s, steps[0]), steps[1..], end);
    }
  }

  /** In one process, where commits and 304s of a project run under its fill lock, no
      step of a 304 ever discards an enrichment made since it read the stale bodies,
      whatever the rest of the process, expiry and eviction do in between. */
  lemma LockedRevalidationDiscardsNothing(steps: seq<LockedStep>, end: Locked, job: nat, after: Shared, k: Key, i: int)
    requires LockedRun(START, steps, end)
    requires job in end.inner.jobs && end.inner.jobs[job].Revalidating? && k.project == end.inner.jobs[job].project
    requires end.inner.jobs[job].since <= i
    ensures !Discards(end.inner, after, k, i)
  {
    assert KeyLocker.Inv(KeyLocker.INITIAL);
    assert LockedInv(START);
    hide LockedInv;
    LockedRunKeepsInv(START, steps, end);
    hide LockedRun;
    LockedSees(end, job);
  }

  lemma LockedSees(s: Locked, job: nat)
    requires LockedInv(s) && job in s.inner.jobs && s.inner.jobs[job].Revalidating?
    ensures NoneSince(s.inner.log, s.inner.jobs[job].project, s.inner.jobs[job].since)
  {
  }
}
