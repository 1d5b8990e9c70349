/**
 * Exactly when a destructive configuration is released for a job that still runs under its lease:
 * unless an operator has failed the job between the lease and the release.
 */
module InstallerReleases {
  import opened Common
  import opened DeploymentTypes
  import opened RepositorySpec
  import opened InstallerSessions
  import opened InstallerProtocol
  import opened InstallerSafety
  import opened InstallerLeases
  import Runs = RepositoryRuns

  predicate RunsUnder(s: System, job: Uuid, lease: Uuid) {
    Runs.RunningUnder(RepoOf(s), job, lease)
  }

  /** An operator fails the job, and the repository accepts it. */
  predicate FailsJob(s: System, tick: Tick, job: Uuid) {
    tick.move.Operate? && tick.move.action == Runs.DoTransition(job, Failed) && JobsAfter(s, tick).1
  }

  // ----- one step -----

  /** What can take a running installer job out of its run: an operator's failure, or a completion under its lease. */
  lemma EditLeavesRunning(step: Runs.Step, a: Job, b: Job, lease: Uuid)
    requires Runs.EditedBy(step, a, b)
    requires a.operation == InstallLinux && a.state == Running && a.leaseId == Some(lease)
    requires b.state != Running || b.leaseId != Some(lease)
    ensures step.action == Runs.DoTransition(a.id, Failed)
            || (step.action.DoCompleteInstaller? && step.action.lease == lease)
  {
  }

  /** No thread presents a lease under which nothing has been released yet. */
  lemma UnreleasedIsNotPresented(s: System, tick: Tick, lease: Uuid)
    requires Inv(s) && Enabled(s, tick) && LeaseUnused(s.trace, lease) && JobStepOf(s, tick).Some?
    ensures var action := JobStepOf(s, tick).value.action;
            action.DoCompleteInstaller? ==> action.lease != lease
  {
    hide Runs.Inv, TraceOk, SessionOk, ThreadsApart, CountOk, ChoiceOk, BoundToSession, OwnsSession;
    match tick.move
    case Advance(env) =>
      var p := s.threads[tick.t];
      assert ThreadOk(s, p);
    case _ =>
  }

  lemma JobStepIsPerformed(s: System, tick: Tick)
    requires Enabled(s, tick) && JobStepOf(s, tick).Some?
    ensures JobsAfter(s, tick) == Runs.Perform(s.jobs, JobStepOf(s, tick).value)
    ensures JobStepOf(s, tick).value.action.DoTransition? ==>
              tick.move.Operate? && tick.move.action == JobStepOf(s, tick).value.action
  {
    hide Runs.Perform;
  }

  lemma StaysRunning(s: System, tick: Tick, job: Uuid, lease: Uuid)
    requires Inv(s) && Enabled(s, tick) && RunsUnder(s, job, lease) && LeaseUnused(s.trace, lease)
    requires !FailsJob(s, tick, job)
    ensures RunsUnder(Next(s, tick), job, lease)
  {
    hide Next, JobStepOf, JobsAfter, Runs.Perform, Runs.Inv, Lookup, Runs.EditedBy, Enabled, LeaseUnused, TraceOk,
         SessionOk, ThreadOk, ThreadsApart, CountOk;
    NextJobs(s, tick);
    if JobStepOf(s, tick).Some? {
      var step := JobStepOf(s, tick).value;
      JobStepEnabled(s, tick);
      JobStepIsPerformed(s, tick);
      Runs.StepMovesRecord(RepoOf(s), step, job);
      Runs.StoredJobOk(RepoOf(s), job);
      var a, b := Lookup(s.jobs, job), Lookup(Next(s, tick).jobs, job);
      if b.Some? && a != b {
        Runs.EditKeepsIdentity(step, a.value, b.value);
        ChangedIsAccepted(s, step, job);
        UnreleasedIsNotPresented(s, tick, lease);
        if b.value.state != Running || b.value.leaseId != Some(lease) {
          EditLeavesRunning(step, a.value, b.value, lease);
          assert false;
        }
      }
    }
  }

  lemma ChangedIsAccepted(s: System, step: Runs.Step, job: Uuid)
    requires Runs.Inv(RepoOf(s)) && Lookup(s.jobs, job) != Lookup(Runs.After(RepoOf(s), step).jobs, job)
    ensures Runs.Perform(s.jobs, step).1
  {
    hide Runs.Inv, Runs.Perform, Lookup;
    if !Runs.Accepted(RepoOf(s), step) {
      Runs.FailureChangesNothing(RepoOf(s), step);
    }
  }

  lemma HandoffTakesNewId(step: Runs.Step, a: Job, b: Job)
    requires Runs.EditedBy(step, a, b)
    ensures step.action.DoLeaseInstaller? ==> b.leaseId == Some(step.action.newId)
  {
  }

  /** A job that has stopped running under a lease never runs under it again. */
  lemma StaysStopped(s: System, tick: Tick, job: Uuid, lease: Uuid)
    requires Inv(s) && Enabled(s, tick) && lease in s.issued && !RunsUnder(s, job, lease)
    ensures !RunsUnder(Next(s, tick), job, lease)
  {
    hide Next, JobStepOf, JobsAfter, Runs.Perform, Runs.Inv, Lookup, Runs.EditedBy, Enabled, Runs.Enabled, TraceOk,
         SessionOk, ThreadOk, ThreadsApart, CountOk;
    NextJobs(s, tick);
    if JobStepOf(s, tick).Some? {
      var step := JobStepOf(s, tick).value;
      JobStepEnabled(s, tick);
      Runs.StepMovesRecord(RepoOf(s), step, job);
      var a, b := Lookup(s.jobs, job), Lookup(Next(s, tick).jobs, job);
      if a.Some? && b.Some? && a != b {
        Runs.StoredJobOk(RepoOf(s), job);
        Runs.EditIsLegal(step, a.value, b.value);
        Runs.EditKeepsIdentity(step, a.value, b.value);
        HandoffTakesNewId(step, a.value, b.value);
        StepIsFresh(RepoOf(s), step, lease);
      }
    }
  }

  lemma FailureStops(s: System, tick: Tick, job: Uuid, lease: Uuid)
    requires Inv(s) && Enabled(s, tick) && FailsJob(s, tick, job)
    ensures !RunsUnder(Next(s, tick), job, lease)
    ensures Lookup(Next(s, tick).jobs, job).Some? && Lookup(Next(s, tick).jobs, job).value.state == Failed
  {
    hide Runs.Inv, Next, TraceOk, SessionOk, ThreadOk, ThreadsApart, CountOk;
    NextJobs(s, tick);
    NextKeepsRepoInv(s, tick);
    Runs.InvGivesDistinctIds(RepoOf(s));
    var i := IndexOf(s.jobs, job).value;
    Runs.EditedRecord(s.jobs, i, Next(s, tick).jobs[i], job, Next(s, tick).jobs);
  }

  // ----- between the lease and the release -----

  /** Step `i` releases `e`. */
  predicate ReleasesAt(states: seq<System>, ticks: seq<Tick>, i: nat, e: Event) {
    IsRun(states, ticks) && i < |ticks| && e.Released? && states[i + 1].trace == states[i].trace + [e]
  }

  lemma {:induction false} TraceOnlyGrows(states: seq<System>, ticks: seq<Tick>, n: nat, i: nat)
    requires IsRun(states, ticks) && n <= i < |states|
    ensures states[n].trace <= states[i].trace
  {
    hide Next, Enabled;
    if n < i {
      TraceOnlyGrows(states, ticks, n, i - 1);
      TraceIsKept(states[i - 1], ticks[i - 1]);
    }
  }

  /** Before its release, nothing has been released under a lease. */
  lemma NotYetReleased(states: seq<System>, ticks: seq<Tick>, n: nat, i: nat, e: Event)
    requires ReleasesAt(states, ticks, i, e) && n <= i
    ensures LeaseUnused(states[n].trace, e.lease)
  {
    hide Next, Enabled, Runs.Inv, SessionOk, ThreadOk, ThreadsApart, CountOk, UniquelyMatchingDisk, IsRun, EventOk;
    ReleaseHasStates(states, ticks, i, e);
    TraceOnlyGrows(states, ticks, n, i);
    RunKeepsInv(states, ticks, i + 1);
    var trace := states[i + 1].trace;
    forall d | d in states[n].trace && d.Released?
      ensures d.lease != e.lease
    {
      var k :| 0 <= k < |states[n].trace| && states[n].trace[k] == d;
      assert trace[k] == d && trace[|trace| - 1] == e;
      assert EventsApart(trace[k], trace[|trace| - 1]);
    }
  }

  lemma ReleaseHasStates(states: seq<System>, ticks: seq<Tick>, i: nat, e: Event)
    requires ReleasesAt(states, ticks, i, e)
    ensures IsRun(states, ticks) && i + 1 < |states| && e.Released? && states[i + 1].trace == states[i].trace + [e]
  {
  }

  lemma RunLength(states: seq<System>, ticks: seq<Tick>)
    requires IsRun(states, ticks)
    ensures |states| == |ticks| + 1
  {
    hide Enabled, Next;
  }

  lemma RunStep(states: seq<System>, ticks: seq<Tick>, n: nat)
    requires IsRun(states, ticks) && n < |ticks|
    ensures n + 1 < |states| && Inv(states[n]) && Enabled(states[n], ticks[n])
              && states[n + 1] == Next(states[n], ticks[n])
  {
    hide Inv, Next, Enabled;
    RunKeepsInv(states, ticks, n);
  }

  /** The job runs under its lease for as long as no operator fails it. */
  lemma {:induction false} RunsUntilFailed(states: seq<System>, ticks: seq<Tick>, m: nat, k: nat, i: nat, e: Event)
    requires ReleasesAt(states, ticks, i, e) && m < k <= i && RunsUnder(states[m + 1], e.job, e.lease)
    requires forall n :: m < n < k ==> !FailsJob(states[n], ticks[n], e.job)
    ensures RunsUnder(states[k], e.job, e.lease)
  {
    hide *;
    ReleaseHasStates(states, ticks, i, e);
    RunLength(states, ticks);
    if k > m + 1 {
      ReleaseHasStates(states, ticks, i, e);
      RunsUntilFailed(states, ticks, m, k - 1, i, e);
      RunStep(states, ticks, k - 1);
      NotYetReleased(states, ticks, k - 1, i, e);
      StaysRunning(states[k - 1], ticks[k - 1], e.job, e.lease);
    }
  }

  lemma {:induction false} StoppedUntil(states: seq<System>, ticks: seq<Tick>, n: nat, k: nat, job: Uuid, lease: Uuid)
    requires IsRun(states, ticks) && n <= k < |states| && lease in states[n].issued && !RunsUnder(states[n], job, lease)
    ensures !RunsUnder(states[k], job, lease) && lease in states[k].issued
  {
    hide *;
    RunLength(states, ticks);
    if n < k {
      StoppedUntil(states, ticks, n, k - 1, job, lease);
      RunStep(states, ticks, k - 1);
      IssuedStays(states, ticks, k - 1);
      StaysStopped(states[k - 1], ticks[k - 1], job, lease);
    }
  }

  /** The step that releases changes no job. */
  lemma ReleaseStepKeepsJobs(s: System, tick: Tick, e: Event)
    requires Enabled(s, tick) && e.Released? && Next(s, tick).trace == s.trace + [e]
    ensures Next(s, tick).jobs == s.jobs && !FailsJob(s, tick, e.job)
  {
    hide JobsAfter, Runs.Perform, Renderable, UniquelyMatchingDisk, Started, Given, Continued, SessionsAfter;
    var n := Next(s, tick);
    assert n.trace != s.trace && n.trace[|s.trace|] == e;
    OnlyAdvancesRelease(s, tick, e);
    AdvanceGives(s, tick);
    CommitKeepsJobs(s, tick);
  }

  lemma OnlyAdvancesRelease(s: System, tick: Tick, e: Event)
    requires Enabled(s, tick) && e.Released? && Next(s, tick).trace == s.trace + [e]
    ensures tick.move.Advance?
  {
    hide JobsAfter, Started, Given, Continued, SessionsAfter;
    assert Next(s, tick).trace[|s.trace|] == e;
  }

  lemma CommitKeepsJobs(s: System, tick: Tick)
    requires Enabled(s, tick) && tick.move.Advance? && s.threads[tick.t].GuardCommit?
    ensures Next(s, tick).jobs == s.jobs
  {
    hide Given, Continued, SessionsAfter;
  }

  /** The lease of a release was given out at an earlier step, and is one of the ids in use from then on. */
  lemma ReleaseWasLeased(states: seq<System>, ticks: seq<Tick>, i: nat, e: Event) returns (m: nat)
    requires ReleasesAt(states, ticks, i, e)
    ensures m < i && HandedOver(states[m], states[m + 1], e.job, e.lease, e.target)
    ensures e.lease in states[m + 1].issued
  {
    hide Next, Enabled, Runs.Inv, SessionOk, ThreadOk, ThreadsApart, CountOk, UniquelyMatchingDisk, IsRun, HandedOver;
    ReleaseHasStates(states, ticks, i, e);
    RunKeepsInv(states, ticks, i + 1);
    var leased := Leased(e.job, e.lease, e.target);
    assert e in states[i + 1].trace;
    assert EventOk(states[i + 1].trace, states[i + 1].issued, e);
    assert leased in states[i].trace;
    m := LeaseTracesToHandoff(states, ticks, i, leased);
    RunKeepsInv(states, ticks, m + 1);
    HandedLeaseIsIssued(states[m], states[m + 1], e.job, e.lease, e.target);
  }

  lemma HandedLeaseIsIssued(s: System, n: System, job: Uuid, lease: Uuid, target: DeploymentTarget)
    requires HandedOver(s, n, job, lease, target) && Inv(n)
    ensures lease in n.issued
  {
    hide Runs.Inv, TraceOk, SessionOk, ThreadOk, ThreadsApart, CountOk, Lookup;
    Runs.StoredJobOk(RepoOf(n), job);
  }

  /**
   * Every first release, in every run: let `m` be the step that handed the job over. After the release
   * the job runs under the released lease exactly when no operator's failure of it was accepted
   * between the two.
   */
  lemma ReleasedJobRunsUnlessFailed(states: seq<System>, ticks: seq<Tick>, i: nat, e: Event) returns (m: nat)
    requires ReleasesAt(states, ticks, i, e)
    ensures m < i && HandedOver(states[m], states[m + 1], e.job, e.lease, e.target)
    ensures RunsUnder(states[i + 1], e.job, e.lease) <==> !exists n :: m < n < i && FailsJob(states[n], ticks[n], e.job)
  {
    hide Inv, Next, Enabled, IsRun, FailsJob, Lookup;
    ReleaseHasStates(states, ticks, i, e);
    m := ReleaseWasLeased(states, ticks, i, e);
    RunStep(states, ticks, i);
    ReleaseStepKeepsJobs(states[i], ticks[i], e);
    assert RunsUnder(states[m + 1], e.job, e.lease);
    if n :| m < n < i && FailsJob(states[n], ticks[n], e.job) {
      RunStep(states, ticks, n);
      FailureStops(states[n], ticks[n], e.job, e.lease);
      LeaseStaysIssued(states, ticks, m + 1, n + 1, e.lease);
      StoppedUntil(states, ticks, n + 1, i, e.job, e.lease);
    } else {
      RunsUntilFailed(states, ticks, m, i, i, e);
    }
  }

  lemma LeaseStaysIssued(states: seq<System>, ticks: seq<Tick>, i: nat, j: nat, lease: Uuid)
    requires IsRun(states, ticks) && i <= j < |states| && lease in states[i].issued
    ensures lease in states[j].issued
  {
    hide IsRun;
    IdStaysIssued(states, ticks, i, j, lease);
  }

  /**
   * Wherever a thread has taken a lease and its session is still there, an operator's failure of the
   * running job is accepted, and the thread then releases the configuration for the failed job.
   */
  lemma PendingReleaseIsNotStopped(s: System, t: nat, env: Env)
    requires Inv(s) && t in s.threads && s.threads[t].GuardCommit? && s.threads[t].b.session in s.sessions
    requires RunsUnder(s, s.threads[t].b.job, s.threads[t].held)
    requires env.freshId !in s.issued && env.calledAt <= s.clock
    ensures var p := s.threads[t];
            var fail := Tick(t, Operate(Runs.DoTransition(p.b.job, Failed), true), s.clock);
            var release := Tick(t, Advance(env), s.clock);
            var failed := Next(s, fail);
            && Enabled(s, fail) && FailsJob(s, fail, p.b.job) && Enabled(failed, release)
            && var e := Released(p.b.session, p.b.job, p.held, p.target, p.request.disks, p.disk.path);
               && Next(failed, release).trace == s.trace + [e]
               && Lookup(Next(failed, release).jobs, p.b.job).Some?
               && Lookup(Next(failed, release).jobs, p.b.job).value.state == Failed
  {
    hide Runs.Inv, TraceOk, SessionOk, ChoiceOk, ThreadsApart, CountOk, BoundToSession, ActsUnderLease, NeverReleased,
         UniquelyMatchingDisk;
    var p := s.threads[t];
    assert ThreadOk(s, p);
    var fail := Tick(t, Operate(Runs.DoTransition(p.b.job, Failed), true), s.clock);
    FailureIsAccepted(s, fail, p.b.job, p.held);
    FailureStops(s, fail, p.b.job, p.held);
    hide Lookup, Runs.Perform;
  }

  lemma FailureIsAccepted(s: System, fail: Tick, job: Uuid, lease: Uuid)
    requires RunsUnder(s, job, lease) && fail.move == Operate(Runs.DoTransition(job, Failed), true)
              && fail.now == s.clock
    ensures Enabled(s, fail) && FailsJob(s, fail, job)
    ensures Next(s, fail).issued == s.issued && Next(s, fail).sessions == s.sessions
              && Next(s, fail).threads == s.threads
    ensures Next(s, fail).trace == s.trace && Next(s, fail).clock == s.clock
  {
  }
}
