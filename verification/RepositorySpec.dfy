/**
 * What each lock-protected operation of crates/service/src/job_repository.rs does to the job list.
 *
 * Every operation takes the write lock, edits a copy, persists it and only then installs it, so an
 * operation is one step on a value: the old list in, the new list and the answer out. `persisted`
 * is whether the manifest write succeeded; `now` and fresh ids come from the environment.
 */
module RepositorySpec {
  import opened Common
  import opened TextRules
  import opened DeploymentTypes
  import PartitionPlans

  datatype RepositoryError =
    | MissingName
    | MissingTargets
    | RequiresSingleTarget
    | TargetAlreadyHasJob(device: Uuid)
    | InvalidImageIndex
    | IncompleteDiskFingerprint(diskId: string)
    | InvalidPartitionPlan(planError: PartitionPlans.PlanError)
    | NotFound(job: Uuid)
    | NotTerminal
    | InvalidLease
    | WrongDevice(device: Uuid)
    | InvalidProgress
    | WrongExecutionProtocol
    | MissingLinuxInstallOptions
    | UnexpectedLinuxInstallOptions
    | MissingLinuxTargetSerial
    | InvalidLinuxInstallOptions
    | InstallerHandoffUnavailable
    | InstallerControlUnavailable
    | InstallerProgressRegression
    | InvalidTransition(from: JobState, to: JobState)
    | WriteFailed

  datatype Outcome<T> = Outcome(jobs: seq<Job>, result: Result<T, RepositoryError>)

  // ----- looking jobs up -----

  /** The position of the first job with this id. */
  function IndexOf(jobs: seq<Job>, id: Uuid): (i: Option<nat>)
    ensures i.None? ==> forall k :: 0 <= k < |jobs| ==> jobs[k].id != id
    ensures i.Some? ==> i.value < |jobs| && jobs[i.value].id == id && forall k :: 0 <= k < i.value ==> jobs[k].id != id
  {
    if jobs == [] then None
    else if jobs[0].id == id then Some(0)
    else
      var rest := IndexOf(jobs[1..], id);
      if rest.None? then None else Some(rest.value + 1)
  }

  lemma IndexStays(jobs: seq<Job>, i: nat, b: Job)
    requires IndexOf(jobs, b.id) == Some(i)
    ensures IndexOf(jobs[i := b], b.id) == Some(i)
  {
    if i > 0 {
      assert jobs[i := b][1..] == jobs[1..][i - 1 := b];
      IndexStays(jobs[1..], i - 1, b);
    }
  }

  function Lookup(jobs: seq<Job>, id: Uuid): Option<Job> {
    var i := IndexOf(jobs, id);
    if i.None? then None else Some(jobs[i.value])
  }

  /** The position of the first job that meets a condition. */
  function FirstWhere(jobs: seq<Job>, accept: Job -> bool): (i: Option<nat>)
    ensures i.None? ==> forall k :: 0 <= k < |jobs| ==> !accept(jobs[k])
    ensures i.Some? ==> i.value < |jobs| && accept(jobs[i.value]) && forall k :: 0 <= k < i.value ==> !accept(jobs[k])
  {
    if jobs == [] then None
    else if accept(jobs[0]) then Some(0)
    else
      var rest := FirstWhere(jobs[1..], accept);
      if rest.None? then None else Some(rest.value + 1)
  }

  // ----- admission -----

  predicate IncompleteFingerprint(t: DeploymentTarget) {
    Trim(t.diskId) == "" || Trim(t.diskModel) == "" || t.diskSizeBytes == 0
  }

  function FirstIncomplete(ts: seq<DeploymentTarget>): Option<DeploymentTarget> {
    if ts == [] then None
    else if IncompleteFingerprint(ts[0]) then Some(ts[0])
    else FirstIncomplete(ts[1..])
  }

  predicate MissingSerial(t: DeploymentTarget) {
    t.diskSerial.None? || Trim(t.diskSerial.value) == ""
  }

  function CheckOptions(request: CreateRequest): Option<RepositoryError> {
    if request.operation == InstallLinux then
      if request.options.linuxInstall.None? then Some(MissingLinuxInstallOptions)
      else if !request.options.linuxInstall.value.wellFormed then Some(InvalidLinuxInstallOptions)
      else None
    else if request.options.linuxInstall.Some? then Some(UnexpectedLinuxInstallOptions)
    else if request.options.imageIndex == 0 then Some(InvalidImageIndex)
    else
      var plan := PartitionPlans.Validate(request.options.partitionPlan);
      if plan.Some? then Some(InvalidPartitionPlan(plan.value)) else None
  }

  /** `validate_request`: the first rule a request breaks. */
  function CheckRequest(request: CreateRequest): Option<RepositoryError> {
    if Trim(request.name) == "" then Some(MissingName)
    else if request.targets == [] then Some(MissingTargets)
    else if CheckOptions(request).Some? then CheckOptions(request)
    else if FirstIncomplete(request.targets).Some?
    then Some(IncompleteDiskFingerprint(FirstIncomplete(request.targets).value.diskId))
    else if request.operation == InstallLinux && (exists t :: t in request.targets && MissingSerial(t))
    then Some(MissingLinuxTargetSerial)
    else None
  }

  function NewJob(request: CreateRequest, initial: JobState, id: Uuid, now: Time): Job {
    Job(id, Trim(request.name), request.operation, request.imageId, request.targets, request.options,
        initial, None, 0, None, None, now, now)
  }

  predicate HoldsDevice(jobs: seq<Job>, device: Uuid) {
    exists j :: j in jobs && !j.state.IsTerminal() && Targets(j, device)
  }

  function Insert(jobs: seq<Job>, request: CreateRequest, initial: JobState, id: Uuid, now: Time, persisted: bool)
    : Outcome<Job>
  {
    if CheckRequest(request).Some? then Outcome(jobs, Err(CheckRequest(request).value))
    else if |request.targets| != 1 then Outcome(jobs, Err(RequiresSingleTarget))
    else
      var job := NewJob(request, initial, id, now);
      var device := job.targets[0].deviceId;
      if HoldsDevice(jobs, device) then Outcome(jobs, Err(TargetAlreadyHasJob(device)))
      else if !persisted then Outcome(jobs, Err(WriteFailed))
      else Outcome(jobs + [job], Ok(job))
  }

  function Without(jobs: seq<Job>, id: Uuid): (rest: seq<Job>)
    ensures forall j :: j in rest <==> j in jobs && j.id != id
    ensures |rest| <= |jobs|
  {
    if jobs == [] then []
    else if jobs[0].id == id then Without(jobs[1..], id)
    else [jobs[0]] + Without(jobs[1..], id)
  }

  function Remove(jobs: seq<Job>, id: Uuid, persisted: bool): Outcome<bool> {
    var job := Lookup(jobs, id);
    if job.None? then Outcome(jobs, Ok(false))
    else if job.value.state !in {Succeeded, Failed, Cancelled} then Outcome(jobs, Err(NotTerminal))
    else if !persisted then Outcome(jobs, Err(WriteFailed))
    else Outcome(Without(jobs, id), Ok(true))
  }

  // ----- edits of one job -----

  type Edited = Result<Job, RepositoryError>

  /** Persists an edit of the job at `i`, or reports why there is none. */
  function Commit(jobs: seq<Job>, i: nat, edited: Edited, persisted: bool): Outcome<Job>
    requires i < |jobs|
  {
    if edited.Err? then Outcome(jobs, edited)
    else if !persisted then Outcome(jobs, Err(WriteFailed))
    else Outcome(jobs[i := edited.value], edited)
  }

  function EditTransition(job: Job, next: JobState, now: Time): Edited {
    if job.operation == InstallLinux
       && ((job.state == Waiting && next == Running) || (job.state in {Running, Paused} && next != Failed))
    then Err(InstallerControlUnavailable)
    else if !Allowed(job.state, next) then Err(InvalidTransition(job.state, next))
    else Ok(job.(state := next, updatedAt := now, progress := if next == Succeeded then 100 else job.progress))
  }

  predicate Expired(job: Job, now: Time) {
    job.leaseExpiresAt.Some? && job.leaseExpiresAt.value < now
  }

  /** The jobs an agent of `device` may lease. */
  predicate Claimable(job: Job, device: Uuid, now: Time) {
    && job.operation != InstallLinux
    && (job.state == Waiting || (job.state == Running && Expired(job, now)))
    && TargetsOnly(job, device)
  }

  function EditClaim(job: Job, lease: Uuid, duration: int, now: Time): Edited {
    if job.state == Waiting && !Allowed(job.state, Running) then Err(InvalidTransition(job.state, Running))
    else Ok(job.(state := if job.state == Waiting then Running else job.state, stage := Some(Preflight), progress := 0,
                 leaseId := Some(lease), leaseExpiresAt := Some(now + duration), updatedAt := now))
  }

  function HandoffGuard(job: Job, device: Uuid, image: Uuid): Option<RepositoryError> {
    if job.operation != InstallLinux then Some(WrongExecutionProtocol)
    else if job.state != Waiting || job.imageId != image || !TargetsOnly(job, device)
    then Some(InstallerHandoffUnavailable)
    else None
  }

  function EditBooting(job: Job, device: Uuid, image: Uuid, now: Time): Edited {
    var refused := HandoffGuard(job, device, image);
    if refused.Some? then Err(refused.value)
    else Ok(job.(stage := Some(BootingInstaller), updatedAt := now))
  }

  function EditInstallerLease(job: Job, device: Uuid, image: Uuid, lease: Uuid, duration: int, now: Time): Edited {
    var refused := HandoffGuard(job, device, image);
    if refused.Some? then Err(refused.value)
    else if !Allowed(job.state, Running) then Err(InvalidTransition(job.state, Running))
    else Ok(job.(state := Running, stage := Some(ValidatingTarget), progress := 1,
                 leaseId := Some(lease), leaseExpiresAt := Some(now + duration), updatedAt := now))
  }

  /** The lease is the job's current one and has not run out. */
  predicate HoldsLease(job: Job, lease: Uuid, now: Time) {
    job.leaseId == Some(lease) && job.leaseExpiresAt.Some? && !(job.leaseExpiresAt.value < now)
  }

  /** `update_installer_job`'s checks. */
  function InstallerGuard(job: Job, device: Uuid, lease: Uuid, now: Time): Option<RepositoryError> {
    if job.operation != InstallLinux then Some(WrongExecutionProtocol)
    else if !TargetsOnly(job, device) then Some(WrongDevice(device))
    else if job.state != Running || !HoldsLease(job, lease, now) then Some(InvalidLease)
    else None
  }

  /** `update_leased_job`'s checks. */
  function AgentGuard(job: Job, device: Uuid, lease: Uuid, now: Time): Option<RepositoryError> {
    if job.operation == InstallLinux then Some(WrongExecutionProtocol)
    else if !Targets(job, device) then Some(WrongDevice(device))
    else if job.state !in {Running, Paused} || !HoldsLease(job, lease, now) then Some(InvalidLease)
    else None
  }

  function Renewed(expiry: Option<Time>, until: Time): Time {
    if expiry.Some? then Max(expiry.value, until) else until
  }

  function EditInstallerProgress(
    job: Job, device: Uuid, lease: Uuid, until: Time, stage: DeploymentStage, progress: nat, now: Time): Edited
  {
    var refused := InstallerGuard(job, device, lease, now);
    if refused.Some? then Err(refused.value)
    else if StageRank(stage) < RankOf(job.stage) || progress < job.progress then Err(InstallerProgressRegression)
    else Ok(job.(stage := Some(stage), progress := progress,
                 leaseExpiresAt := Some(Renewed(job.leaseExpiresAt, until)), updatedAt := now))
  }

  function EditInstallerCompletion(job: Job, device: Uuid, lease: Uuid, succeeded: bool, now: Time): Edited {
    var refused := InstallerGuard(job, device, lease, now);
    var next := if succeeded then Succeeded else Failed;
    if refused.Some? then Err(refused.value)
    else if !Allowed(job.state, next) then Err(InvalidTransition(job.state, next))
    else
      var ended := job.(state := next, leaseId := None, leaseExpiresAt := None, updatedAt := now);
      Ok(if succeeded then ended.(stage := Some(Finalizing), progress := 100) else ended)
  }

  function EditAgentProgress(
    job: Job, device: Uuid, lease: Uuid, until: Time, stage: DeploymentStage, progress: nat, now: Time): Edited
  {
    var refused := AgentGuard(job, device, lease, now);
    if refused.Some? then Err(refused.value)
    else Ok(job.(stage := Some(stage), progress := progress,
                 leaseExpiresAt := Some(Renewed(job.leaseExpiresAt, until)), updatedAt := now))
  }

  /** The source asserts, with `expect`, that a leased job may always complete; see `LeasedJobsComplete`. */
  function EditAgentCompletion(job: Job, device: Uuid, lease: Uuid, succeeded: bool, now: Time): Edited {
    var refused := AgentGuard(job, device, lease, now);
    if refused.Some? then Err(refused.value)
    else
      var ended := job.(state := if succeeded then Succeeded else Failed,
                        leaseId := None, leaseExpiresAt := None, updatedAt := now);
      Ok(if succeeded then ended.(progress := 100) else ended)
  }

  /** Half of a duration, truncated towards zero. */
  function Half(duration: int): int {
    if duration >= 0 then duration / 2 else -((-duration) / 2)
  }

  function RenewGuard(job: Job, device: Uuid, lease: Uuid): Option<RepositoryError> {
    if job.operation == InstallLinux then Some(WrongExecutionProtocol)
    else if !Targets(job, device) then Some(WrongDevice(device))
    else if job.state !in {Running, Paused} || job.leaseId != Some(lease) then Some(InvalidLease)
    else None
  }

  /** A lease with at least half its duration left is left alone, without a write. */
  predicate RenewalIdle(job: Job, duration: int, now: Time) {
    job.leaseExpiresAt.Some? && job.leaseExpiresAt.value >= now + Half(duration)
  }

  // ----- the operations -----

  function Transition(jobs: seq<Job>, id: Uuid, next: JobState, now: Time, persisted: bool): Outcome<Job> {
    var i := IndexOf(jobs, id);
    if i.None? then Outcome(jobs, Err(NotFound(id)))
    else Commit(jobs, i.value, EditTransition(jobs[i.value], next, now), persisted)
  }

  function Claim(
    jobs: seq<Job>, device: Uuid, duration: int, eligible: Job -> bool, lease: Uuid, now: Time, persisted: bool)
    : Outcome<Option<Job>>
  {
    var i := FirstWhere(jobs, (j: Job) => Claimable(j, device, now) && eligible(j));
    if i.None? then Outcome(jobs, Ok(None))
    else
      var done := Commit(jobs, i.value, EditClaim(jobs[i.value], lease, duration, now), persisted);
      Outcome(done.jobs, if done.result.Ok? then Ok(Some(done.result.value)) else Err(done.result.error))
  }

  function MarkBooting(jobs: seq<Job>, id: Uuid, device: Uuid, image: Uuid, now: Time, persisted: bool): Outcome<Job> {
    var i := IndexOf(jobs, id);
    if i.None? then Outcome(jobs, Err(NotFound(id)))
    else Commit(jobs, i.value, EditBooting(jobs[i.value], device, image, now), persisted)
  }

  function LeaseInstaller(
    jobs: seq<Job>, id: Uuid, device: Uuid, image: Uuid, lease: Uuid, duration: int, now: Time, persisted: bool)
    : Outcome<Job>
  {
    var i := IndexOf(jobs, id);
    if i.None? then Outcome(jobs, Err(NotFound(id)))
    else Commit(jobs, i.value, EditInstallerLease(jobs[i.value], device, image, lease, duration, now), persisted)
  }

  function ReportInstaller(
    jobs: seq<Job>, id: Uuid, device: Uuid, lease: Uuid, until: Time, stage: DeploymentStage, progress: nat,
    now: Time, persisted: bool)
    : Outcome<Job>
  {
    var i := IndexOf(jobs, id);
    if progress > 99 then Outcome(jobs, Err(InvalidProgress))
    else if i.None? then Outcome(jobs, Err(NotFound(id)))
    else Commit(jobs, i.value, EditInstallerProgress(jobs[i.value], device, lease, until, stage, progress, now),
        persisted)
  }

  function CompleteInstaller(
    jobs: seq<Job>, id: Uuid, device: Uuid, lease: Uuid, succeeded: bool, now: Time, persisted: bool): Outcome<Job>
  {
    var i := IndexOf(jobs, id);
    if i.None? then Outcome(jobs, Err(NotFound(id)))
    else Commit(jobs, i.value, EditInstallerCompletion(jobs[i.value], device, lease, succeeded, now), persisted)
  }

  function ReportAgent(
    jobs: seq<Job>, id: Uuid, device: Uuid, lease: Uuid, until: Time, stage: DeploymentStage, progress: nat,
    now: Time, persisted: bool)
    : Outcome<Job>
  {
    var i := IndexOf(jobs, id);
    if progress > 100 then Outcome(jobs, Err(InvalidProgress))
    else if i.None? then Outcome(jobs, Err(NotFound(id)))
    else Commit(jobs, i.value, EditAgentProgress(jobs[i.value], device, lease, until, stage, progress, now), persisted)
  }

  function CompleteAgent(
    jobs: seq<Job>, id: Uuid, device: Uuid, lease: Uuid, succeeded: bool, now: Time, persisted: bool): Outcome<Job>
  {
    var i := IndexOf(jobs, id);
    if i.None? then Outcome(jobs, Err(NotFound(id)))
    else Commit(jobs, i.value, EditAgentCompletion(jobs[i.value], device, lease, succeeded, now), persisted)
  }

  function RenewControl(
    jobs: seq<Job>, id: Uuid, device: Uuid, lease: Uuid, duration: int, now: Time, persisted: bool): Outcome<JobState>
  {
    var i := IndexOf(jobs, id);
    if i.None? then Outcome(jobs, Err(NotFound(id)))
    else
      var job := jobs[i.value];
      var refused := RenewGuard(job, device, lease);
      if refused.Some? then Outcome(jobs, Err(refused.value))
      else if RenewalIdle(job, duration, now) then Outcome(jobs, Ok(job.state))
      else if !persisted then Outcome(jobs, Err(WriteFailed))
      else Outcome(jobs[i.value := job.(leaseExpiresAt := Some(now + duration))], Ok(job.state))
  }

  /** `authorized_lease`, a read. */
  function AuthorizedLease(
    jobs: seq<Job>, id: Uuid, device: Uuid, lease: Uuid, now: Time): Result<Job, RepositoryError> {
    var job := Lookup(jobs, id);
    if job.None? then Err(NotFound(id))
    else if AgentGuard(job.value, device, lease, now).Some? then Err(AgentGuard(job.value, device, lease, now).value)
    else Ok(job.value)
  }
}
