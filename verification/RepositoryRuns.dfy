/**
 * Whole runs of the job repository: any number of callers, each operation one atomic step.
 *
 * The safety statements are about every run from the empty repository, over every choice of
 * callers, arguments, clock readings and failed writes.
 */
module RepositoryRuns {
  import opened Common
  import opened DeploymentTypes
  import opened RepositorySpec

  datatype Action =
    | DoInsert(request: CreateRequest, initial: JobState, newId: Uuid)
    | DoRemove(job: Uuid)
    | DoTransition(job: Uuid, next: JobState)
    | DoClaim(device: Uuid, duration: int, eligible: Job -> bool, newId: Uuid)
    | DoMarkBooting(job: Uuid, device: Uuid, image: Uuid)
    | DoLeaseInstaller(job: Uuid, device: Uuid, image: Uuid, newId: Uuid, duration: int)
    | DoReportInstaller(job: Uuid, device: Uuid, lease: Uuid, until: Time, stage: DeploymentStage, progress: nat)
    | DoCompleteInstaller(job: Uuid, device: Uuid, lease: Uuid, succeeded: bool)
    | DoReportAgent(job: Uuid, device: Uuid, lease: Uuid, until: Time, stage: DeploymentStage, progress: nat)
    | DoCompleteAgent(job: Uuid, device: Uuid, lease: Uuid, succeeded: bool)
    | DoRenewControl(job: Uuid, device: Uuid, lease: Uuid, duration: int)
    | DoAuthorize(job: Uuid, device: Uuid, lease: Uuid)

  datatype Step = Step(action: Action, now: Time, persisted: bool)

  /** `issued` is every id handed out so far, `clock` the last reading of the clock. */
  datatype Repo = Repo(jobs: seq<Job>, issued: set<Uuid>, clock: Time)

  function NewIds(action: Action): set<Uuid> {
    match action
    case DoInsert(_, _, id) => {id}
    case DoClaim(_, _, _, id) => {id}
    case DoLeaseInstaller(_, _, _, id, _) => {id}
    case _ => {}
  }

  /** New ids are fresh, the clock never runs back, and jobs start as drafts or queued. */
  predicate Enabled(s: Repo, step: Step) {
    && s.clock <= step.now
    && NewIds(step.action) !! s.issued
    && (step.action.DoInsert? ==> step.action.initial in {Draft, Waiting})
  }

  /** The list after a step and whether the caller got an answer rather than an error. */
  function Perform(jobs: seq<Job>, step: Step): (seq<Job>, bool) {
    var now, ok := step.now, step.persisted;
    match step.action
    case DoInsert(request, initial, id) =>
      var o := Insert(jobs, request, initial, id, now, ok); (o.jobs, o.result.Ok?)
    case DoRemove(job) =>
      var o := Remove(jobs, job, ok); (o.jobs, o.result.Ok?)
    case DoTransition(job, next) =>
      var o := Transition(jobs, job, next, now, ok); (o.jobs, o.result.Ok?)
    case DoClaim(device, duration, eligible, lease) =>
      var o := Claim(jobs, device, duration, eligible, lease, now, ok); (o.jobs, o.result.Ok?)
    case DoMarkBooting(job, device, image) =>
      var o := MarkBooting(jobs, job, device, image, now, ok); (o.jobs, o.result.Ok?)
    case DoLeaseInstaller(job, device, image, lease, duration) =>
      var o := LeaseInstaller(jobs, job, device, image, lease, duration, now, ok); (o.jobs, o.result.Ok?)
    case DoReportInstaller(job, device, lease, until, stage, progress) =>
      var o := ReportInstaller(jobs, job, device, lease, until, stage, progress, now, ok); (o.jobs, o.result.Ok?)
    case DoCompleteInstaller(job, device, lease, succeeded) =>
      var o := CompleteInstaller(jobs, job, device, lease, succeeded, now, ok); (o.jobs, o.result.Ok?)
    case DoReportAgent(job, device, lease, until, stage, progress) =>
      var o := ReportAgent(jobs, job, device, lease, until, stage, progress, now, ok); (o.jobs, o.result.Ok?)
    case DoCompleteAgent(job, device, lease, succeeded) =>
      var o := CompleteAgent(jobs, job, device, lease, succeeded, now, ok); (o.jobs, o.result.Ok?)
    case DoRenewControl(job, device, lease, duration) =>
      var o := RenewControl(jobs, job, device, lease, duration, now, ok); (o.jobs, o.result.Ok?)
    case DoAuthorize(job, device, lease) =>
      (jobs, AuthorizedLease(jobs, job, device, lease, now).Ok?)
  }

  predicate Accepted(s: Repo, step: Step) {
    Perform(s.jobs, step).1
  }

  function After(s: Repo, step: Step): Repo {
    Repo(Perform(s.jobs, step).0, s.issued + NewIds(step.action), step.now)
  }

  /** `states` visits every state of a run that performs `steps` from an empty repository. */
  predicate IsRun(states: seq<Repo>, steps: seq<Step>) {
    && |states| == |steps| + 1
    && states[0].jobs == [] && states[0].issued == {}
    && forall i :: 0 <= i < |steps| ==> Enabled(states[i], steps[i]) && states[i + 1] == After(states[i], steps[i])
  }

  // ----- one job, one step -----

  /** The edit a step makes to job `a` when it touches it: `b` is the job afterwards. */
  predicate EditedBy(step: Step, a: Job, b: Job) {
    var now := step.now;
    match step.action
    case DoTransition(id, next) => id == a.id && EditTransition(a, next, now) == Ok(b)
    case DoClaim(device, duration, eligible, lease) =>
      Claimable(a, device, now) && eligible(a) && EditClaim(a, lease, duration, now) == Ok(b)
    case DoMarkBooting(id, device, image) => id == a.id && EditBooting(a, device, image, now) == Ok(b)
    case DoLeaseInstaller(id, device, image, lease, duration) =>
      id == a.id && EditInstallerLease(a, device, image, lease, duration, now) == Ok(b)
    case DoReportInstaller(id, device, lease, until, stage, progress) =>
      id == a.id && progress <= 99 && EditInstallerProgress(a, device, lease, until, stage, progress, now) == Ok(b)
    case DoCompleteInstaller(id, device, lease, succeeded) =>
      id == a.id && EditInstallerCompletion(a, device, lease, succeeded, now) == Ok(b)
    case DoReportAgent(id, device, lease, until, stage, progress) =>
      id == a.id && progress <= 100 && EditAgentProgress(a, device, lease, until, stage, progress, now) == Ok(b)
    case DoCompleteAgent(id, device, lease, succeeded) =>
      id == a.id && EditAgentCompletion(a, device, lease, succeeded, now) == Ok(b)
    case DoRenewControl(id, device, lease, duration) =>
      id == a.id && RenewGuard(a, device, lease).None? && !RenewalIdle(a, duration, now)
      && b == a.(leaseExpiresAt := Some(now + duration))
    case DoInsert(_, _, _) => false
    case DoRemove(_) => false
    case DoAuthorize(_, _, _) => false
  }

  /** How a step changes the list as a whole. */
  datatype Change = Nothing | Added(job: Job) | Removed(id: Uuid) | Edited(at: nat, job: Job)

  predicate Makes(change: Change, before: seq<Job>, after: seq<Job>, step: Step) {
    match change
    case Nothing => after == before
    case Added(job) =>
      && after == before + [job]
      && step.action.DoInsert?
      && CheckRequest(step.action.request).None? && |step.action.request.targets| == 1
      && job == NewJob(step.action.request, step.action.initial, step.action.newId, step.now)
      && !HoldsDevice(before, job.targets[0].deviceId)
    case Removed(id) =>
      && after == Without(before, id)
      && step.action == DoRemove(id)
      && Lookup(before, id).Some? && Lookup(before, id).value.state in {Succeeded, Failed, Cancelled}
    case Edited(at, job) =>
      && at < |before|
      && after == before[at := job]
      && IndexOf(before, before[at].id) == Some(at)
      && EditedBy(step, before[at], job)
  }

  lemma EditKeepsIdentity(step: Step, a: Job, b: Job)
    requires EditedBy(step, a, b)
    ensures b.id == a.id && b.operation == a.operation && b.imageId == a.imageId && b.targets == a.targets
    ensures b.options == a.options && b.createdAt == a.createdAt && b.name == a.name
  {
  }

  lemma FirstWhereUnique(jobs: seq<Job>, i: nat)
    requires i < |jobs|
    requires forall k, l :: 0 <= k < l < |jobs| ==> jobs[k].id != jobs[l].id
    ensures IndexOf(jobs, jobs[i].id) == Some(i)
  {
  }

  predicate DistinctIds(jobs: seq<Job>) {
    forall k, l :: 0 <= k < l < |jobs| ==> jobs[k].id != jobs[l].id
  }

  /** Every step is one of four changes: nothing, one new job, one removal or one permitted edit. */
  lemma StepMakesOneChange(jobs: seq<Job>, step: Step) returns (change: Change)
    requires DistinctIds(jobs)
    ensures Makes(change, jobs, Perform(jobs, step).0, step)
    ensures !Perform(jobs, step).1 ==> change == Nothing
  {
    hide EditTransition, EditClaim, EditBooting, EditInstallerLease, EditInstallerProgress, EditInstallerCompletion,
         EditAgentProgress, EditAgentCompletion, RenewGuard, RenewalIdle, CheckRequest, Claimable, Without,
         AgentGuard;
    var after := Perform(jobs, step).0;
    if after == jobs {
      return Nothing;
    }
    match step.action {
      case DoInsert(request, initial, id) =>
        return Added(NewJob(request, initial, id, step.now));
      case DoRemove(id) =>
        return Removed(id);
      case DoClaim(device, duration, eligible, lease) =>
        var i := FirstWhere(jobs, (j: Job) => Claimable(j, device, step.now) && eligible(j)).value;
        FirstWhereUnique(jobs, i);
        return Edited(i, after[i]);
      case DoAuthorize(_, _, _) =>
        assert false;
      case _ =>
        var i := IndexOf(jobs, step.action.job).value;
        return Edited(i, after[i]);
    }
  }

  // ----- the invariant -----

  /** What every stored job satisfies by itself. */
  predicate JobOk(j: Job) {
    && |j.targets| == 1
    && (j.leaseId.Some? <==> j.leaseExpiresAt.Some?)
    && j.progress <= 100
    && (j.state == Succeeded ==> j.progress == 100)
    && (j.operation == InstallLinux ==>
          && j.state != Paused
          && (j.state == Running ==> j.leaseId.Some?)
          && (j.progress == 100 <==> j.state == Succeeded))
  }

  predicate Apart(a: Job, b: Job) {
    && a.id != b.id
    && (a.leaseId.Some? ==> a.leaseId != b.leaseId)
    && (!a.state.IsTerminal() && !b.state.IsTerminal() ==>
          |a.targets| == 1 && |b.targets| == 1 ==> a.targets[0].deviceId != b.targets[0].deviceId)
  }

  predicate IdsIssued(j: Job, issued: set<Uuid>) {
    j.id in issued && (j.leaseId.Some? ==> j.leaseId.value in issued)
  }

  /** Jobs are well formed, hold distinct ids and leases, and no device has two unfinished jobs. */
  predicate Inv(s: Repo) {
    && (forall k :: 0 <= k < |s.jobs| ==> JobOk(s.jobs[k]) && IdsIssued(s.jobs[k], s.issued))
    && (forall k, l :: 0 <= k < l < |s.jobs| ==> Apart(s.jobs[k], s.jobs[l]))
  }

  lemma InvGivesDistinctIds(s: Repo)
    requires Inv(s)
    ensures DistinctIds(s.jobs)
  {
    forall k, l | 0 <= k < l < |s.jobs|
      ensures s.jobs[k].id != s.jobs[l].id
    {
      assert Apart(s.jobs[k], s.jobs[l]);
    }
  }

  lemma EditKeepsJobOk(step: Step, a: Job, b: Job)
    requires JobOk(a) && EditedBy(step, a, b)
    ensures JobOk(b)
    ensures !a.state.IsTerminal()
    ensures b.leaseId.Some? && b.leaseId != a.leaseId ==> NewIds(step.action) == {b.leaseId.value}
  {
  }

  lemma EditKeepsInv(s: Repo, step: Step, i: nat, b: Job)
    requires Inv(s) && Enabled(s, step)
    requires i < |s.jobs| && EditedBy(step, s.jobs[i], b)
    ensures Inv(Repo(s.jobs[i := b], s.issued + NewIds(step.action), step.now))
  {
    hide EditedBy, JobOk;
    var a := s.jobs[i];
    EditKeepsIdentity(step, a, b);
    EditKeepsJobOk(step, a, b);
    var after := s.jobs[i := b];
    assert IdsIssued(a, s.issued);
    forall k, l | 0 <= k < l < |after|
      ensures Apart(after[k], after[l])
    {
      assert Apart(s.jobs[k], s.jobs[l]);
      assert IdsIssued(s.jobs[k], s.issued) && IdsIssued(s.jobs[l], s.issued);
    }
  }

  lemma InsertKeepsInv(s: Repo, step: Step, job: Job)
    requires Inv(s) && Enabled(s, step)
    requires Makes(Added(job), s.jobs, s.jobs + [job], step)
    ensures Inv(Repo(s.jobs + [job], s.issued + NewIds(step.action), step.now))
  {
    hide CheckRequest;
    forall k | 0 <= k < |s.jobs|
      ensures Apart(s.jobs[k], job)
    {
      var other := s.jobs[k];
      assert JobOk(other) && IdsIssued(other, s.issued);
      assert other.targets[0] in other.targets;
    }
  }

  lemma WithoutKeepsInv(jobs: seq<Job>, issued: set<Uuid>, clock: Time, id: Uuid)
    requires Inv(Repo(jobs, issued, clock))
    ensures Inv(Repo(Without(jobs, id), issued, clock))
  {
    hide JobOk, Apart, IdsIssued;
    if jobs != [] {
      var rest := jobs[1..];
      WithoutKeepsInv(rest, issued, clock, id);
      var kept := Without(rest, id);
      if jobs[0].id != id {
        forall l | 0 <= l < |kept|
          ensures Apart(jobs[0], kept[l])
        {
          assert kept[l] in kept;
          var m :| 0 <= m < |rest| && rest[m] == kept[l];
          assert Apart(jobs[0], jobs[m + 1]);
        }
      }
    }
  }

  lemma InvMonotone(s: Repo, more: set<Uuid>, clock: Time)
    requires Inv(s)
    ensures Inv(Repo(s.jobs, s.issued + more, clock))
  {
  }

  /** Every operation keeps the invariant, whoever calls it and whether or not its write succeeds. */
  lemma StepKeepsInv(s: Repo, step: Step)
    requires Inv(s) && Enabled(s, step)
    ensures Inv(After(s, step))
  {
    hide Inv, EditedBy, Perform, CheckRequest;
    InvGivesDistinctIds(s);
    var change := StepMakesOneChange(s.jobs, step);
    match change {
      case Nothing => InvMonotone(s, NewIds(step.action), step.now);
      case Added(job) => InsertKeepsInv(s, step, job);
      case Removed(id) =>
        WithoutKeepsInv(s.jobs, s.issued, s.clock, id);
        InvMonotone(Repo(Without(s.jobs, id), s.issued, s.clock), NewIds(step.action), step.now);
      case Edited(at, job) => EditKeepsInv(s, step, at, job);
    }
  }

  lemma {:induction false} RunKeepsInv(states: seq<Repo>, steps: seq<Step>, i: nat)
    requires IsRun(states, steps) && i < |states|
    ensures Inv(states[i])
  {
    if i > 0 {
      RunKeepsInv(states, steps, i - 1);
      StepKeepsInv(states[i - 1], steps[i - 1]);
    }
  }

  // ----- one job over time -----

  lemma LookupIndex(jobs: seq<Job>, i: nat)
    requires i < |jobs| && DistinctIds(jobs)
    ensures Lookup(jobs, jobs[i].id) == Some(jobs[i])
  {
    FirstWhereUnique(jobs, i);
  }

  lemma LookupMember(jobs: seq<Job>, id: Uuid)
    requires DistinctIds(jobs)
    ensures Lookup(jobs, id).Some? ==> Lookup(jobs, id).value in jobs && Lookup(jobs, id).value.id == id
    ensures forall j :: j in jobs && j.id == id ==> Lookup(jobs, id) == Some(j)
  {
    forall j | j in jobs && j.id == id
      ensures Lookup(jobs, id) == Some(j)
    {
      var i :| 0 <= i < |jobs| && jobs[i] == j;
      LookupIndex(jobs, i);
    }
  }

  /** What one step can do to the record stored under an id. */
  predicate RecordMoves(step: Step, a: Option<Job>, b: Option<Job>, id: Uuid) {
    || a == b
    || (a.None? && b.Some? && step.action.DoInsert? && step.action.newId == id
        && b.value == NewJob(step.action.request, step.action.initial, id, step.now))
    || (a.Some? && b.None? && step.action == DoRemove(id) && a.value.state in {Succeeded, Failed, Cancelled})
    || (a.Some? && b.Some? && EditedBy(step, a.value, b.value))
  }

  lemma StepMovesRecord(s: Repo, step: Step, id: Uuid)
    requires Inv(s) && Enabled(s, step)
    ensures RecordMoves(step, Lookup(s.jobs, id), Lookup(After(s, step).jobs, id), id)
  {
    hide Inv, EditedBy, Perform, CheckRequest, Lookup;
    var t := After(s, step);
    StepKeepsInv(s, step);
    InvGivesDistinctIds(s);
    InvGivesDistinctIds(t);
    LookupMember(s.jobs, id);
    LookupMember(t.jobs, id);
    var change := StepMakesOneChange(s.jobs, step);
    match change {
      case Nothing =>
      case Added(job) => AddedRecord(s.jobs, job, id, t.jobs);
      case Removed(gone) => RemovedRecord(s.jobs, gone, id, t.jobs);
      case Edited(at, job) =>
        EditKeepsIdentity(step, s.jobs[at], job);
        EditedRecord(s.jobs, at, job, id, t.jobs);
    }
  }

  lemma AddedRecord(before: seq<Job>, job: Job, id: Uuid, after: seq<Job>)
    requires DistinctIds(before) && DistinctIds(after) && after == before + [job]
    ensures job.id == id ==> Lookup(before, id) == None && Lookup(after, id) == Some(job)
    ensures job.id != id ==> Lookup(before, id) == Lookup(after, id)
  {
    LookupMember(before, id);
    LookupMember(after, id);
    assert after[|before|] == job;
    forall k | 0 <= k < |before|
      ensures after[k] == before[k]
    {
    }
    if Lookup(after, id).Some? && job.id != id {
      assert Lookup(after, id).value in before;
    }
    if Lookup(before, id).Some? {
      assert Lookup(before, id).value in after;
    }
  }

  lemma RemovedRecord(before: seq<Job>, gone: Uuid, id: Uuid, after: seq<Job>)
    requires DistinctIds(before) && DistinctIds(after) && after == Without(before, gone)
    ensures Lookup(after, id) == if gone == id then None else Lookup(before, id)
  {
    LookupMember(before, id);
    LookupMember(after, id);
  }

  lemma EditedRecord(before: seq<Job>, at: nat, job: Job, id: Uuid, after: seq<Job>)
    requires DistinctIds(before) && at < |before| && job.id == before[at].id && after == before[at := job]
    ensures Lookup(after, id) == if id == job.id then Some(job) else Lookup(before, id)
    ensures id == job.id ==> Lookup(before, id) == Some(before[at])
  {
    assert DistinctIds(after);
    LookupIndex(before, at);
    LookupIndex(after, at);
    LookupMember(before, id);
    LookupMember(after, id);
    if Lookup(after, id).Some? && id != job.id {
      var k :| 0 <= k < |after| && after[k] == Lookup(after, id).value;
      assert before[k] == after[k];
      LookupIndex(before, k);
    }
    if Lookup(before, id).Some? && id != job.id {
      var k :| 0 <= k < |before| && before[k] == Lookup(before, id).value;
      assert before[k] == after[k];
      LookupIndex(after, k);
    }
  }

  // ----- failures change nothing -----

  /** An operation that answers with an error has left the repository as it was. */
  lemma FailureChangesNothing(s: Repo, step: Step)
    requires Inv(s) && !Accepted(s, step)
    ensures After(s, step).jobs == s.jobs
  {
    InvGivesDistinctIds(s);
    var change := StepMakesOneChange(s.jobs, step);
  }

  // ----- life cycle -----

  /** The legal moves of a stored record; `step` is the only action that can have made them. */
  predicate LegalMove(step: Step, a: Job, b: Job) {
    && (a.state == b.state || Allowed(a.state, b.state))
    && (b.state == Succeeded ==> b.progress == 100)
    // A lease changes hands only from a queue or from an expired run, and only to a new id.
    && (b.leaseId.Some? && b.leaseId != a.leaseId ==>
          && NewIds(step.action) == {b.leaseId.value}
          && b.state == Running
          && (a.state == Waiting || (a.state == Running && Expired(a, step.now) && a.operation != InstallLinux)))
    // A lease ends only when its holder completes the job in time.
    && (a.leaseId.Some? && b.leaseId.None? ==>
          && (step.action.DoCompleteAgent? || step.action.DoCompleteInstaller?)
          && HoldsLease(a, step.action.lease, step.now)
          && b.state in {Succeeded, Failed})
    && (a.operation == InstallLinux ==>
          // Running is entered only through the guarded handoff, success only through its lease.
          && (a.state != Running && b.state == Running ==> step.action.DoLeaseInstaller?)
          && (b.state == Succeeded ==>
                && step.action.DoCompleteInstaller? && step.action.succeeded
                && a.state == Running && HoldsLease(a, step.action.lease, step.now))
          // While it runs, an installer never moves backwards.
          && (a.state == Running && b.state == Running ==>
                RankOf(a.stage) <= RankOf(b.stage) && a.progress <= b.progress && a.leaseId == b.leaseId))
  }

  /** Every edit of a well-formed job is a legal move. */
  lemma EditIsLegal(step: Step, a: Job, b: Job)
    requires JobOk(a) && EditedBy(step, a, b)
    ensures LegalMove(step, a, b)
  {
  }

  lemma RunMovesRecord(states: seq<Repo>, steps: seq<Step>, i: nat, id: Uuid)
    requires IsRun(states, steps) && i < |steps|
    ensures Inv(states[i]) && Enabled(states[i], steps[i]) && Inv(states[i + 1])
    ensures RecordMoves(steps[i], Lookup(states[i].jobs, id), Lookup(states[i + 1].jobs, id), id)
    ensures var a, b := Lookup(states[i].jobs, id), Lookup(states[i + 1].jobs, id);
            a.Some? && b.Some? && a != b ==> LegalMove(steps[i], a.value, b.value) && Accepted(states[i], steps[i])
  {
    hide Inv, EditedBy, Perform, LegalMove;
    RunKeepsInv(states, steps, i);
    RunKeepsInv(states, steps, i + 1);
    StepMovesRecord(states[i], steps[i], id);
    var a, b := Lookup(states[i].jobs, id), Lookup(states[i + 1].jobs, id);
    if a.Some? && b.Some? && a != b {
      StoredJobOk(states[i], id);
      EditIsLegal(steps[i], a.value, b.value);
      if !Accepted(states[i], steps[i]) {
        FailureChangesNothing(states[i], steps[i]);
      }
    }
  }

  lemma StoredJobOk(s: Repo, id: Uuid)
    requires Inv(s) && Lookup(s.jobs, id).Some?
    ensures JobOk(Lookup(s.jobs, id).value) && Lookup(s.jobs, id).value.id == id
    ensures IdsIssued(Lookup(s.jobs, id).value, s.issued)
  {
  }

  lemma IssuedGrows(states: seq<Repo>, steps: seq<Step>, i: nat)
    requires IsRun(states, steps) && i < |steps|
    ensures states[i + 1].issued == states[i].issued + NewIds(steps[i].action)
  {
    hide Perform;
  }

  lemma RunLength(states: seq<Repo>, steps: seq<Step>)
    requires IsRun(states, steps)
    ensures |states| == |steps| + 1
  {
  }

  lemma StepNeverRestores(states: seq<Repo>, steps: seq<Step>, i: nat, id: Uuid)
    requires IsRun(states, steps) && i < |steps|
    requires id in states[i].issued && Lookup(states[i].jobs, id) == None
    ensures id in states[i + 1].issued && Lookup(states[i + 1].jobs, id) == None
  {
    hide IsRun, Inv, EditedBy, Lookup, LegalMove, After, Accepted, NewJob;
    IssuedGrows(states, steps, i);
    RunMovesRecord(states, steps, i, id);
  }

  /** An id that has been used for a job never names a new one. */
  lemma {:induction false} RemovedIdsStayGone(states: seq<Repo>, steps: seq<Step>, i: nat, j: nat, id: Uuid)
    requires IsRun(states, steps) && i <= j < |states|
    requires id in states[i].issued && Lookup(states[i].jobs, id) == None
    ensures id in states[j].issued && Lookup(states[j].jobs, id) == None
  {
    if i < j {
      hide *;
      RunLength(states, steps);
      RemovedIdsStayGone(states, steps, i, j - 1, id);
      StepNeverRestores(states, steps, j - 1, id);
    }
  }

  /** A succeeded or cancelled record never changes; it can only be removed, and then for good. */
  lemma {:induction false} FinishedJobsAreFinal(states: seq<Repo>, steps: seq<Step>, i: nat, j: nat, id: Uuid)
    requires IsRun(states, steps) && i <= j < |states|
    requires Lookup(states[i].jobs, id).Some? && Lookup(states[i].jobs, id).value.state.IsTerminal()
    ensures Lookup(states[j].jobs, id) in {None, Lookup(states[i].jobs, id)}
    ensures id in states[j].issued
  {
    hide Inv, EditedBy, Perform, Lookup, LegalMove;
    if i == j {
      RunKeepsInv(states, steps, i);
      StoredJobOk(states[i], id);
    } else {
      FinishedJobsAreFinal(states, steps, i, j - 1, id);
      RunMovesRecord(states, steps, j - 1, id);
      var a, b := Lookup(states[j - 1].jobs, id), Lookup(states[j].jobs, id);
      if a.Some? && b.Some? && a != b {
        StoredJobOk(states[j - 1], id);
        EditKeepsJobOk(steps[j - 1], a.value, b.value);
      }
    }
  }

  // ----- leases -----

  /** The lease a step presents, if it is one of the lease-checked operations. */
  function Presented(action: Action): Option<(Uuid, Uuid)> {
    match action
    case DoReportInstaller(job, _, lease, _, _, _) => Some((job, lease))
    case DoCompleteInstaller(job, _, lease, _) => Some((job, lease))
    case DoReportAgent(job, _, lease, _, _, _) => Some((job, lease))
    case DoCompleteAgent(job, _, lease, _) => Some((job, lease))
    case DoRenewControl(job, _, lease, _) => Some((job, lease))
    case DoAuthorize(job, _, lease) => Some((job, lease))
    case _ => None
  }

  /** Only the lease a job currently carries is ever accepted for it. */
  lemma AcceptedLeaseIsCurrent(s: Repo, step: Step)
    requires Accepted(s, step) && Presented(step.action).Some?
    ensures var (job, lease) := Presented(step.action).value;
            && Lookup(s.jobs, job).Some?
            && Lookup(s.jobs, job).value.leaseId == Some(lease)
            && Lookup(s.jobs, job).value.state in {Running, Paused}
            && (!step.action.DoRenewControl? ==> HoldsLease(Lookup(s.jobs, job).value, lease, step.now))
  {
  }

  predicate Carried(s: Repo, lease: Uuid) {
    exists j :: j in s.jobs && j.leaseId == Some(lease)
  }

  lemma StepBringsOnlyNewLeases(s: Repo, step: Step, lease: Uuid)
    requires Inv(s) && Enabled(s, step)
    requires lease in s.issued && !Carried(s, lease)
    ensures !Carried(After(s, step), lease)
  {
    hide Inv, EditedBy, Perform, CheckRequest, Lookup;
    var t := After(s, step);
    StepKeepsInv(s, step);
    InvGivesDistinctIds(s);
    InvGivesDistinctIds(t);
    forall j | j in t.jobs
      ensures j.leaseId != Some(lease)
    {
      LookupMember(t.jobs, j.id);
      LookupMember(s.jobs, j.id);
      StepMovesRecord(s, step, j.id);
      var a := Lookup(s.jobs, j.id);
      if a.Some? && a.value != j {
        StoredJobOk(s, j.id);
        EditKeepsJobOk(step, a.value, j);
      }
    }
  }

  /**
   * A lease id that no job carries any more, because it was reclaimed or its job completed or was
   * removed, is refused by every lease-checked operation for the rest of the run.
   */
  lemma {:induction false} RetiredLeaseIsNeverAccepted(
    states: seq<Repo>, steps: seq<Step>, i: nat, j: nat, lease: Uuid)
    requires IsRun(states, steps) && i <= j < |states|
    requires lease in states[i].issued && !Carried(states[i], lease)
    ensures !Carried(states[j], lease) && lease in states[j].issued
    ensures j < |steps| && Presented(steps[j].action).Some? && Presented(steps[j].action).value.1 == lease ==>
              !Accepted(states[j], steps[j])
  {
    hide Inv, EditedBy, Perform, Accepted;
    if i < j {
      RetiredLeaseIsNeverAccepted(states, steps, i, j - 1, lease);
      RunKeepsInv(states, steps, j - 1);
      StepBringsOnlyNewLeases(states[j - 1], steps[j - 1], lease);
    }
    if j < |steps| && Presented(steps[j].action).Some? && Accepted(states[j], steps[j]) {
      AcceptedLeaseIsCurrent(states[j], steps[j]);
    }
  }

  /** A lease is carried by one job only, so replacing it on its job retires it. */
  lemma ReplacedLeaseIsRetired(s: Repo, step: Step, id: Uuid, lease: Uuid)
    requires Inv(s) && Enabled(s, step)
    requires Lookup(s.jobs, id).Some? && Lookup(s.jobs, id).value.leaseId == Some(lease)
    requires Lookup(After(s, step).jobs, id).None? || Lookup(After(s, step).jobs, id).value.leaseId != Some(lease)
    ensures lease in After(s, step).issued && !Carried(After(s, step), lease)
  {
    hide EditedBy, Perform, CheckRequest, Lookup, JobOk;
    var t := After(s, step);
    var held := Lookup(s.jobs, id).value;
    StepKeepsInv(s, step);
    InvGivesDistinctIds(s);
    InvGivesDistinctIds(t);
    LookupMember(s.jobs, id);
    StoredJobOk(s, id);
    forall j | j in t.jobs
      ensures j.leaseId != Some(lease)
    {
      LookupMember(t.jobs, j.id);
      LookupMember(s.jobs, j.id);
      StepMovesRecord(s, step, j.id);
      var a := Lookup(s.jobs, j.id);
      if a.Some? && j.id != id {
        CarriersApart(s, held, a.value);
        StoredJobOk(s, j.id);
        if a.value != j {
          EditKeepsJobOk(step, a.value, j);
        }
      }
    }
  }

  lemma CarriersApart(s: Repo, a: Job, b: Job)
    requires Inv(s) && a in s.jobs && b in s.jobs && a.id != b.id
    ensures a.leaseId.Some? ==> a.leaseId != b.leaseId
  {
    var k :| 0 <= k < |s.jobs| && s.jobs[k] == a;
    var l :| 0 <= l < |s.jobs| && s.jobs[l] == b;
    if k < l {
      assert Apart(s.jobs[k], s.jobs[l]);
    } else {
      assert Apart(s.jobs[l], s.jobs[k]);
    }
  }

  /** With a non-negative duration a renewal never shortens a lease and leaves at least half of it. */
  lemma RenewalsExtend(s: Repo, step: Step, id: Uuid)
    requires Inv(s) && Enabled(s, step) && Accepted(s, step)
    requires step.action.DoRenewControl? && step.action.job == id && step.action.duration >= 0
    ensures var a, b := Lookup(s.jobs, id), Lookup(After(s, step).jobs, id);
            && a.Some? && b.Some? && a.value.leaseExpiresAt.Some? && b.value.leaseExpiresAt.Some?
            && a.value.leaseExpiresAt.value <= b.value.leaseExpiresAt.value
            && step.now + Half(step.action.duration) <= b.value.leaseExpiresAt.value
            && b.value == a.value.(leaseExpiresAt := b.value.leaseExpiresAt)
  {
    hide Inv;
    StoredJobOk(s, id);
    StepKeepsInv(s, step);
    InvGivesDistinctIds(s);
    InvGivesDistinctIds(After(s, step));
    var i := IndexOf(s.jobs, id).value;
    if After(s, step).jobs != s.jobs {
      EditedRecord(s.jobs, i, s.jobs[i].(leaseExpiresAt := Some(step.now + step.action.duration)), id,
          After(s, step).jobs);
    }
  }

  /** Progress reports never shorten a lease either, whatever instant they ask for. */
  lemma ReportsNeverShorten(step: Step, a: Job, b: Job)
    requires JobOk(a) && EditedBy(step, a, b)
    requires step.action.DoReportAgent? || step.action.DoReportInstaller?
    ensures a.leaseExpiresAt.Some? && b.leaseExpiresAt.Some?
    ensures b.leaseExpiresAt.value == Max(a.leaseExpiresAt.value, step.action.until)
    ensures b.leaseId == a.leaseId && b.state == a.state
  {
  }

  // ----- installers -----

  predicate RunningUnder(s: Repo, id: Uuid, lease: Uuid) {
    var j := Lookup(s.jobs, id);
    j.Some? && j.value.operation == InstallLinux && j.value.state == Running && j.value.leaseId == Some(lease)
  }

  /**
   * A running installer traces back to one accepted handoff that issued its lease, and it has been
   * running under that lease ever since.
   */
  lemma {:induction false} RunningTracesToHandoff(
    states: seq<Repo>, steps: seq<Step>, i: nat, id: Uuid, lease: Uuid) returns (m: nat)
    requires IsRun(states, steps) && i < |states| && RunningUnder(states[i], id, lease)
    ensures m < i
    ensures steps[m].action.DoLeaseInstaller? && steps[m].action.job == id && steps[m].action.newId == lease
    ensures Accepted(states[m], steps[m])
    ensures forall k :: m < k <= i ==> RunningUnder(states[k], id, lease)
  {
    hide Inv, Perform, Lookup, Accepted;
    if i == 0 {
      EmptyHasNoJobs(states[0].jobs, id);
      assert false;
    } else {
      RunMovesRecord(states, steps, i - 1, id);
      var a, b := Lookup(states[i - 1].jobs, id), Lookup(states[i].jobs, id);
      if a.Some? && a.value.operation == InstallLinux && a.value.state == Running {
        m := RunningTracesToHandoff(states, steps, i - 1, id, lease);
      } else {
        if a.Some? {
          StoredJobOk(states[i - 1], id);
        }
        m := i - 1;
      }
    }
  }

  lemma EmptyHasNoJobs(jobs: seq<Job>, id: Uuid)
    requires jobs == []
    ensures Lookup(jobs, id) == None
  {
  }

  /**
   * An installer job that has succeeded was handed off once, kept running under that handoff's
   * lease, and was completed by a caller that presented the lease before it ran out.
   */
  lemma {:induction false} SuccessTracesToHandoff(states: seq<Repo>, steps: seq<Step>, i: nat, id: Uuid)
    returns (m: nat, k: nat, lease: Uuid)
    requires IsRun(states, steps) && i < |states|
    requires Lookup(states[i].jobs, id).Some?
    requires Lookup(states[i].jobs, id).value.operation == InstallLinux
              && Lookup(states[i].jobs, id).value.state == Succeeded
    ensures m < k < i
    ensures steps[m].action.DoLeaseInstaller? && steps[m].action.job == id && steps[m].action.newId == lease
    ensures Accepted(states[m], steps[m])
    ensures forall n :: m < n <= k ==> RunningUnder(states[n], id, lease)
    ensures steps[k].action.DoCompleteInstaller? && steps[k].action.job == id
    ensures steps[k].action.lease == lease && steps[k].action.succeeded
    ensures Lookup(states[k].jobs, id).Some? && HoldsLease(Lookup(states[k].jobs, id).value, lease, steps[k].now)
  {
    hide Inv, Perform, Lookup, Accepted;
    if i == 0 {
      EmptyHasNoJobs(states[0].jobs, id);
      assert false;
    } else {
      RunMovesRecord(states, steps, i - 1, id);
      var a := Lookup(states[i - 1].jobs, id);
      if a == Lookup(states[i].jobs, id) {
        m, k, lease := SuccessTracesToHandoff(states, steps, i - 1, id);
      } else {
        if a.Some? {
          StoredJobOk(states[i - 1], id);
        }
        k, lease := i - 1, steps[i - 1].action.lease;
        m := RunningTracesToHandoff(states, steps, i - 1, id, lease);
      }
    }
  }

  predicate RunningThroughout(states: seq<Repo>, i: nat, j: nat, id: Uuid)
    requires j < |states|
  {
    forall k :: i <= k <= j ==> Lookup(states[k].jobs, id).Some? && Lookup(states[k].jobs, id).value.state == Running
  }

  /** For as long as an installer job runs, its stage rank and its percentage never fall. */
  lemma {:induction false} RunningInstallersNeverMoveBack(
    states: seq<Repo>, steps: seq<Step>, i: nat, j: nat, id: Uuid)
    requires IsRun(states, steps) && i <= j < |states| && RunningThroughout(states, i, j, id)
    requires Lookup(states[i].jobs, id).value.operation == InstallLinux
    ensures Lookup(states[j].jobs, id).value.operation == InstallLinux
    ensures RankOf(Lookup(states[i].jobs, id).value.stage) <= RankOf(Lookup(states[j].jobs, id).value.stage)
    ensures Lookup(states[i].jobs, id).value.progress <= Lookup(states[j].jobs, id).value.progress
    ensures Lookup(states[i].jobs, id).value.leaseId == Lookup(states[j].jobs, id).value.leaseId
  {
    hide Inv, Perform, Lookup, Accepted;
    if i < j {
      RunningInstallersNeverMoveBack(states, steps, i, j - 1, id);
      RunMovesRecord(states, steps, j - 1, id);
    }
  }

  // ----- agents -----

  /** The source's `expect`: a job whose lease is accepted can always be completed, either way. */
  lemma LeasedJobsComplete(job: Job, device: Uuid, lease: Uuid, now: Time)
    requires AgentGuard(job, device, lease, now).None?
    ensures Allowed(job.state, Succeeded) && Allowed(job.state, Failed)
  {
  }

  /**
   * A successful claim leases the device's only unfinished job, and a claim finds it whenever it is
   * claimable and eligible.
   */
  lemma ClaimLeasesTheOneJob(
    s: Repo, device: Uuid, duration: int, eligible: Job -> bool, lease: Uuid, now: Time, persisted: bool)
    requires Inv(s)
    ensures var r := Claim(s.jobs, device, duration, eligible, lease, now, persisted).result;
            r.Ok? && r.value.Some? ==>
              && r.value.value.state == Running && r.value.value.leaseId == Some(lease)
              && TargetsOnly(r.value.value, device)
              && forall j :: j in s.jobs && !j.state.IsTerminal() && TargetsOnly(j, device) ==> j.id == r.value.value.id
    ensures (exists j :: j in s.jobs && Claimable(j, device, now) && eligible(j)) && persisted ==>
              var r := Claim(s.jobs, device, duration, eligible, lease, now, persisted).result;
              r.Ok? && r.value.Some?
  {
  }
}
