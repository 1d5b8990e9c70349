/**
 * The repository itself, from crates/service/src/job_repository.rs: an object whose job list each
 * operation edits in a copy, persists and then installs. `Valid()` is the invariant of
 * `RepositoryRuns`, which every method keeps; what every method does to the list is the function of
 * `RepositorySpec` it names, and the clauses beside it say what that means for the caller.
 */
module JobRepositories {
  import opened Common
  import opened TextRules
  import opened DeploymentTypes
  import opened RepositorySpec
  import PartitionPlans
  import Runs = RepositoryRuns

  // ----- what the operations ask of a job, field by field -----

  /** The thirteen moves of a job's state. */
  const MOVES: set<(JobState, JobState)> := {
    (Draft, Waiting), (Draft, Cancelled), (Waiting, Running), (Waiting, Cancelled),
    (Running, Paused), (Running, Succeeded), (Running, Failed), (Running, Cancelled),
    (Paused, Running), (Paused, Succeeded), (Paused, Failed), (Paused, Cancelled), (Failed, Waiting)
  }

  /** What an operator may not do to an installer job. */
  predicate InstallerOwns(was: Job, next: JobState) {
    && was.operation == InstallLinux
    && ((was.state == Waiting && next == Running) || ((was.state == Running || was.state == Paused) && next != Failed))
  }

  /** A request a job may be made from. */
  predicate SoundRequest(q: CreateRequest) {
    && Trim(q.name) != "" && |q.targets| == 1
    && var t := q.targets[0];
       && Trim(t.diskId) != "" && Trim(t.diskModel) != "" && t.diskSizeBytes > 0
       && if q.operation == InstallLinux then
            && q.options.linuxInstall != None && q.options.linuxInstall.value.wellFormed
            && t.diskSerial != None && Trim(t.diskSerial.value) != ""
          else
            && q.options.linuxInstall == None && q.options.imageIndex > 0
            && PartitionPlans.Validate(q.options.partitionPlan).None?
  }

  lemma SoundRequestsPass(q: CreateRequest)
    ensures CheckRequest(q).None? && |q.targets| == 1 <==> SoundRequest(q)
  {
    hide Trim, PartitionPlans.Validate;
    if |q.targets| == 1 {
      OneTarget(q.targets);
      hide FirstIncomplete;
    }
  }

  lemma OneTarget(targets: seq<DeploymentTarget>)
    requires |targets| == 1
    ensures FirstIncomplete(targets).None? <==> !IncompleteFingerprint(targets[0])
    ensures (exists t :: t in targets && MissingSerial(t)) <==> MissingSerial(targets[0])
  {
    assert targets[1..] == [];
    assert targets[0] in targets;
  }

  lemma MovesAreAllowed(from: JobState, to: JobState)
    ensures Allowed(from, to) <==> (from, to) in MOVES
  {
  }

  /** Whether a lease that runs until `expiry` has at least half of a duration left. */
  predicate HalfLeft(expiry: Time, now: Time, duration: int) {
    2 * (expiry - now) + 1 >= duration
  }

  lemma HalfIsLeft(expiry: Time, now: Time, duration: int)
    requires duration >= 0
    ensures expiry >= now + Half(duration) <==> HalfLeft(expiry, now, duration)
  {
  }

  /** A job an agent of the device may lease. */
  predicate Leasable(j: Job, device: Uuid, now: Time) {
    && j.operation != InstallLinux && |j.targets| == 1 && j.targets[0].deviceId == device
    && (j.state == Waiting || (j.state == Running && j.leaseExpiresAt != None && j.leaseExpiresAt.value < now))
  }

  /** A queued installer job of this device and image. */
  predicate Queued(j: Job, device: Uuid, image: Uuid) {
    && j.operation == InstallLinux && j.state == Waiting && j.imageId == image
    && |j.targets| == 1 && j.targets[0].deviceId == device
  }

  predicate LeaseHeld(j: Job, lease: Uuid, now: Time) {
    j.leaseId == Some(lease) && j.leaseExpiresAt != None && now <= j.leaseExpiresAt.value
  }

  /** An installer job that runs for the device under the lease. */
  predicate Installs(j: Job, device: Uuid, lease: Uuid, now: Time) {
    && j.operation == InstallLinux && |j.targets| == 1 && j.targets[0].deviceId == device
    && j.state == Running && LeaseHeld(j, lease, now)
  }

  /** Any other job that is under way for the device. */
  predicate UnderWay(j: Job, device: Uuid) {
    && j.operation != InstallLinux && (j.state == Running || j.state == Paused)
    && exists k :: 0 <= k < |j.targets| && j.targets[k].deviceId == device
  }

  /** The lease runs to the later of the two instants. */
  predicate ExtendedTo(was: Option<Time>, until: Time, after: Option<Time>) {
    && was != None && after != None
    && was.value <= after.value && until <= after.value && (after.value == was.value || after.value == until)
  }

  /** No job but the one with this id has changed, and it is still there under its id. */
  predicate OnlyChanges(before: seq<Job>, after: seq<Job>, id: Uuid) {
    && |after| == |before|
    && forall k :: 0 <= k < |before| ==>
         after[k].id == before[k].id && (before[k].id != id ==> after[k] == before[k])
  }

  /** The invariant speaks of jobs and issued ids only, so it holds at any reading of the clock. */
  ghost predicate Sound(jobs: seq<Job>, issued: set<Uuid>) {
    Runs.Inv(Runs.Repo(jobs, issued, 0))
  }

  lemma StepKeepsSound(jobs: seq<Job>, issued: set<Uuid>, step: Runs.Step)
    requires Sound(jobs, issued) && Runs.NewIds(step.action) !! issued
    requires step.action.DoInsert? ==> step.action.initial in {Draft, Waiting}
    ensures Sound(Runs.Perform(jobs, step).0, issued + Runs.NewIds(step.action))
  {
    hide Runs.Inv, Runs.Perform;
    var s := Runs.Repo(jobs, issued, 0);
    Runs.InvMonotone(s, {}, step.now);
    assert issued + {} == issued;
    var at := Runs.Repo(jobs, issued, step.now);
    Runs.StepKeepsInv(at, step);
    var next := Runs.After(at, step);
    Runs.InvMonotone(next, {}, 0);
    assert next.issued + {} == next.issued;
  }

  /** What the invariant says of one device: two unfinished jobs that target it are the same. */
  lemma OneUnfinished(jobs: seq<Job>, issued: set<Uuid>, i: nat, device: Uuid)
    requires Sound(jobs, issued) && i < |jobs| && !jobs[i].state.IsTerminal() && TargetsOnly(jobs[i], device)
    ensures forall k :: 0 <= k < |jobs| && !jobs[k].state.IsTerminal() && TargetsOnly(jobs[k], device) ==> k == i
  {
    hide Runs.JobOk, Runs.IdsIssued;
    assert forall p, q :: 0 <= p < q < |jobs| ==> Runs.Apart(jobs[p], jobs[q]);
  }

  class JobRepository {
    var jobs: seq<Job>
    ghost var issued: set<Uuid>

    ghost predicate Valid()
      reads this
    {
      Sound(jobs, issued)
    }

    constructor ()
      ensures Valid() && jobs == [] && issued == {}
    {
      jobs := [];
      issued := {};
    }

    method Find(id: Uuid) returns (i: Option<nat>)
      ensures i == IndexOf(jobs, id)
    {
      for k := 0 to |jobs|
        invariant forall l :: 0 <= l < k ==> jobs[l].id != id
      {
        if jobs[k].id == id {
          return Some(k);
        }
      }
      return None;
    }

    method AnyTarget(job: Job, device: Uuid) returns (found: bool)
      ensures found == Targets(job, device)
    {
      for k := 0 to |job.targets|
        invariant forall l :: 0 <= l < k ==> job.targets[l].deviceId != device
      {
        if job.targets[k].deviceId == device {
          return true;
        }
      }
      return false;
    }

    method FindClaimable(device: Uuid, eligible: Job -> bool, now: Time) returns (i: Option<nat>)
      ensures i == FirstWhere(jobs, (j: Job) => Claimable(j, device, now) && eligible(j))
    {
      ghost var accept := (j: Job) => Claimable(j, device, now) && eligible(j);
      for k := 0 to |jobs|
        invariant forall l :: 0 <= l < k ==> !accept(jobs[l])
      {
        var job := jobs[k];
        if job.operation != InstallLinux
           && (job.state == Waiting
               || (job.state == Running && job.leaseExpiresAt.Some? && job.leaseExpiresAt.value < now))
           && |job.targets| == 1 && job.targets[0].deviceId == device && eligible(job)
        {
          assert accept(jobs[k]);
          return Some(k);
        }
      }
      return None;
    }

    /** The list without one job, as `filter` collects it. */
    method Others(id: Uuid) returns (next: seq<Job>)
      ensures next == Without(jobs, id)
    {
      next := [];
      for k := |jobs| downto 0
        invariant next == Without(jobs[k..], id)
      {
        assert jobs[k..][1..] == jobs[k + 1..];
        if jobs[k].id != id {
          next := [jobs[k]] + next;
        }
      }
      assert jobs[0..] == jobs;
    }

    /** Writes the manifest; only a written list is installed. */
    method Install(next: seq<Job>, persisted: bool) returns (written: bool)
      modifies this`jobs
      ensures written == persisted
      ensures jobs == if persisted then next else old(jobs)
    {
      if persisted {
        jobs := next;
      }
      written := persisted;
    }

    /** The head of `update_installer_job`: the job this device's installer may update under its lease. */
    method FindInstalling(id: Uuid, device: Uuid, lease: Uuid, now: Time) returns (r: Result<nat, RepositoryError>)
      ensures IndexOf(jobs, id).None? ==> r == Err(NotFound(id))
      ensures IndexOf(jobs, id).Some? ==>
                var refused := InstallerGuard(jobs[IndexOf(jobs, id).value], device, lease, now);
                r == if refused.Some? then Err(refused.value) else Ok(IndexOf(jobs, id).value)
      ensures r.Ok? ==> jobs[r.value].state == Running && HoldsLease(jobs[r.value], lease, now)
    {
      var i := Find(id);
      if i.None? {
        return Err(NotFound(id));
      }
      var job := jobs[i.value];
      if job.operation != InstallLinux {
        return Err(WrongExecutionProtocol);
      }
      if |job.targets| != 1 || job.targets[0].deviceId != device {
        return Err(WrongDevice(device));
      }
      if job.state != Running || job.leaseId != Some(lease) || job.leaseExpiresAt.None?
          || job.leaseExpiresAt.value < now {
        return Err(InvalidLease);
      }
      return Ok(i.value);
    }

    /** The head of `update_leased_job`: the job this device's agent may update under its lease. */
    method FindLeased(id: Uuid, device: Uuid, lease: Uuid, now: Time) returns (r: Result<nat, RepositoryError>)
      ensures IndexOf(jobs, id).None? ==> r == Err(NotFound(id))
      ensures IndexOf(jobs, id).Some? ==>
                var refused := AgentGuard(jobs[IndexOf(jobs, id).value], device, lease, now);
                r == if refused.Some? then Err(refused.value) else Ok(IndexOf(jobs, id).value)
      ensures r.Ok? ==> jobs[r.value].state in {Running, Paused} && HoldsLease(jobs[r.value], lease, now)
    {
      var i := Find(id);
      if i.None? {
        return Err(NotFound(id));
      }
      var job := jobs[i.value];
      if job.operation == InstallLinux {
        return Err(WrongExecutionProtocol);
      }
      var targeted := AnyTarget(job, device);
      if !targeted {
        return Err(WrongDevice(device));
      }
      if (job.state != Running && job.state != Paused)
         || job.leaseId != Some(lease) || job.leaseExpiresAt.None? || job.leaseExpiresAt.value < now
      {
        return Err(InvalidLease);
      }
      return Ok(i.value);
    }

    /** The checks both handoff operations begin with. */
    method FindWaiting(id: Uuid, device: Uuid, image: Uuid) returns (r: Result<nat, RepositoryError>)
      ensures IndexOf(jobs, id).None? ==> r == Err(NotFound(id))
      ensures IndexOf(jobs, id).Some? ==>
                var refused := HandoffGuard(jobs[IndexOf(jobs, id).value], device, image);
                r == if refused.Some? then Err(refused.value) else Ok(IndexOf(jobs, id).value)
      ensures r.Ok? ==> jobs[r.value].state == Waiting && jobs[r.value].imageId == image
      ensures r.Ok? ==> TargetsOnly(jobs[r.value], device)
    {
      var i := Find(id);
      if i.None? {
        return Err(NotFound(id));
      }
      var job := jobs[i.value];
      if job.operation != InstallLinux {
        return Err(WrongExecutionProtocol);
      }
      if job.state != Waiting || job.imageId != image || |job.targets| != 1 || job.targets[0].deviceId != device {
        return Err(InstallerHandoffUnavailable);
      }
      return Ok(i.value);
    }

    /** A new job joins the list only if its device has no unfinished one. */
    method InsertJob(request: CreateRequest, initial: JobState, newId: Uuid, now: Time, persisted: bool)
      returns (r: Result<Job, RepositoryError>)
      requires Valid() && newId !in issued && initial in {Draft, Waiting}
      modifies this
      ensures Valid() && issued == old(issued) + {newId}
      ensures Outcome(jobs, r) == Insert(old(jobs), request, initial, newId, now, persisted)
      ensures r.Err? ==> jobs == old(jobs)
      ensures r.Ok? ==>
                && jobs == old(jobs) + [r.value] && r.value.id == newId && r.value.state == initial
                && forall j :: j in old(jobs) && !j.state.IsTerminal() ==> !Targets(j, r.value.targets[0].deviceId)
      ensures r.Ok? <==>
                && SoundRequest(request) && persisted
                && forall j :: j in old(jobs) && j.state != Succeeded && j.state != Cancelled ==>
                     forall k :: 0 <= k < |j.targets| ==> j.targets[k].deviceId != request.targets[0].deviceId
      ensures r.Ok? ==>
                r.value == Job(newId, Trim(request.name), request.operation, request.imageId, request.targets,
                               request.options, initial, None, 0, None, None, now, now)
    {
      SoundRequestsPass(request);
      hide SoundRequest, Trim;
      hide CheckRequest, Runs.Inv;
      StepKeepsSound(jobs, issued, Runs.Step(Runs.DoInsert(request, initial, newId), now, persisted));
      issued := issued + {newId};
      ghost var before := jobs;
      var refused := CheckRequest(request);
      if refused.Some? {
        return Err(refused.value);
      }
      if |request.targets| != 1 {
        return Err(RequiresSingleTarget);
      }
      var job := NewJob(request, initial, newId, now);
      var device := job.targets[0].deviceId;
      var taken := false;
      for k := 0 to |jobs|
        invariant jobs == before && issued == old(issued) + {newId}
        invariant taken <==> exists l :: 0 <= l < k && !jobs[l].state.IsTerminal() && Targets(jobs[l], device)
      {
        var targeted := AnyTarget(jobs[k], device);
        if jobs[k].state != Succeeded && jobs[k].state != Cancelled && targeted {
          taken := true;
        }
      }
      if taken {
        return Err(TargetAlreadyHasJob(device));
      }
      assert !HoldsDevice(jobs, device);
      var written := Install(jobs + [job], persisted);
      r := if written then Ok(job) else Err(WriteFailed);
    }

    /** Only a finished or failed job goes, and nothing else does. */
    method RemoveJob(id: Uuid, persisted: bool) returns (r: Result<bool, RepositoryError>)
      requires Valid()
      modifies this`jobs
      ensures Valid()
      ensures Outcome(jobs, r) == Remove(old(jobs), id, persisted)
      ensures r != Ok(true) ==> jobs == old(jobs)
      ensures r == Ok(true) ==> forall j :: j in jobs <==> j in old(jobs) && j.id != id
      ensures r == Ok(true) <==>
                && persisted && Lookup(old(jobs), id) != None
                && var state := Lookup(old(jobs), id).value.state;
                   state == Succeeded || state == Failed || state == Cancelled
    {
      hide Runs.Inv;
      StepKeepsSound(jobs, issued, Runs.Step(Runs.DoRemove(id), 0, persisted));
      assert issued + {} == issued;
      var i := Find(id);
      if i.None? {
        return Ok(false);
      }
      var state := jobs[i.value].state;
      if state != Succeeded && state != Failed && state != Cancelled {
        return Err(NotTerminal);
      }
      var next := Others(id);
      var written := Install(next, persisted);
      r := if written then Ok(true) else Err(WriteFailed);
    }

    /** An operator moves one job along the table, but never starts, pauses, cancels or finishes an installer. */
    method TransitionJob(id: Uuid, next: JobState, now: Time, persisted: bool) returns (r: Result<Job, RepositoryError>)
      requires Valid()
      modifies this`jobs
      ensures Valid()
      ensures Outcome(jobs, r) == Transition(old(jobs), id, next, now, persisted)
      ensures OnlyChanges(old(jobs), jobs, id) && (r.Err? ==> jobs == old(jobs))
      ensures r.Ok? ==>
                var was := Lookup(old(jobs), id);
                && was.Some? && Allowed(was.value.state, next) && r.value.state == next
                && (was.value.operation == InstallLinux && was.value.state == Running ==> next == Failed)
      ensures r.Ok? <==>
                && persisted && Lookup(old(jobs), id) != None
                && var was := Lookup(old(jobs), id).value; (was.state, next) in MOVES && !InstallerOwns(was, next)
      ensures r.Ok? ==>
                && r.value in jobs
                && r.value == Lookup(old(jobs), id).value.(
                     state := next, updatedAt := now,
                     progress := if next == Succeeded then 100 else Lookup(old(jobs), id).value.progress)
    {
      hide Runs.Inv;
      StepKeepsSound(jobs, issued, Runs.Step(Runs.DoTransition(id, next), now, persisted));
      assert issued + {} == issued;
      var i := Find(id);
      if i.None? {
        return Err(NotFound(id));
      }
      var job := jobs[i.value];
      MovesAreAllowed(job.state, next);
      hide Allowed, MOVES;
      if job.operation == InstallLinux {
        if job.state == Waiting && next == Running {
          return Err(InstallerControlUnavailable);
        }
        if job.state in {Running, Paused} && next != Failed {
          return Err(InstallerControlUnavailable);
        }
      }
      if !Allowed(job.state, next) {
        return Err(InvalidTransition(job.state, next));
      }
      job := job.(state := next);
      job := job.(updatedAt := now);
      if next == Succeeded {
        job := job.(progress := 100);
      }
      var written := Install(jobs[i.value := job], persisted);
      r := if written then Ok(job) else Err(WriteFailed);
    }

    /** A claim leases the device's only unfinished job afresh. */
    method LeaseForDeviceIf(
      device: Uuid, duration: int, eligible: Job -> bool, newLease: Uuid, now: Time, persisted: bool)
      returns (r: Result<Option<Job>, RepositoryError>)
      requires Valid() && newLease !in issued
      modifies this
      ensures Valid() && issued == old(issued) + {newLease}
      ensures Outcome(jobs, r) == Claim(old(jobs), device, duration, eligible, newLease, now, persisted)
      ensures r.Err? || r.value.None? ==> jobs == old(jobs)
      ensures r.Ok? && r.value.Some? ==>
                var leased := r.value.value;
                && OnlyChanges(old(jobs), jobs, leased.id)
                && leased in jobs && leased.state == Running && leased.leaseId == Some(newLease)
                && TargetsOnly(leased, device)
                && forall j :: j in jobs && !j.state.IsTerminal() && TargetsOnly(j, device) ==> j == leased
      ensures r == Ok(None) <==> forall j :: j in old(jobs) ==> !(Leasable(j, device, now) && eligible(j))
      ensures r.Ok? && r.value.Some? ==>
                exists was ::
                  && was in old(jobs) && Leasable(was, device, now) && eligible(was)
                  && r.value.value == was.(state := Running, stage := Some(Preflight), progress := 0,
                                           leaseId := Some(newLease), leaseExpiresAt := Some(now + duration),
                                           updatedAt := now)
    {
      hide Runs.Inv;
      StepKeepsSound(jobs, issued, Runs.Step(Runs.DoClaim(device, duration, eligible, newLease), now, persisted));
      issued := issued + {newLease};
      var i := FindClaimable(device, eligible, now);
      if i.None? {
        return Ok(None);
      }
      var job := jobs[i.value];
      if job.state == Waiting {
        assert Allowed(job.state, Running);
        job := job.(state := Running);
      }
      job := job.(stage := Some(Preflight), progress := 0);
      job := job.(leaseId := Some(newLease), leaseExpiresAt := Some(now + duration));
      job := job.(updatedAt := now);
      var written := Install(jobs[i.value := job], persisted);
      if written {
        OneUnfinished(jobs, issued, i.value, device);
      }
      r := if written then Ok(Some(job)) else Err(WriteFailed);
    }

    /** A queued installer job shows that it boots; it is neither leased nor started. */
    method MarkInstallerBooting(id: Uuid, device: Uuid, image: Uuid, now: Time, persisted: bool)
      returns (r: Result<Job, RepositoryError>)
      requires Valid()
      modifies this`jobs
      ensures Valid()
      ensures Outcome(jobs, r) == MarkBooting(old(jobs), id, device, image, now, persisted)
      ensures OnlyChanges(old(jobs), jobs, id) && (r.Err? ==> jobs == old(jobs))
      ensures r.Ok? ==> r.value.state == Waiting && Lookup(old(jobs), id).Some?
      ensures r.Ok? ==> r.value.leaseId == Lookup(old(jobs), id).value.leaseId
      ensures r.Ok? <==>
                persisted && Lookup(old(jobs), id) != None && Queued(Lookup(old(jobs), id).value, device, image)
      ensures r.Ok? ==>
                && r.value in jobs
                && r.value == Lookup(old(jobs), id).value.(stage := Some(BootingInstaller), updatedAt := now)
    {
      hide Runs.Inv;
      StepKeepsSound(jobs, issued, Runs.Step(Runs.DoMarkBooting(id, device, image), now, persisted));
      assert issued + {} == issued;
      var i := FindWaiting(id, device, image);
      if i.Err? {
        return Err(i.error);
      }
      var job := jobs[i.value].(stage := Some(BootingInstaller), updatedAt := now);
      var written := Install(jobs[i.value := job], persisted);
      r := if written then Ok(job) else Err(WriteFailed);
    }

    /** The one-way handoff: a queued installer job of this device and image starts running under a new lease. */
    method LeaseInstallerJob(
      id: Uuid, device: Uuid, image: Uuid, newLease: Uuid, duration: int, now: Time, persisted: bool)
      returns (r: Result<Job, RepositoryError>)
      requires Valid() && newLease !in issued
      modifies this
      ensures Valid() && issued == old(issued) + {newLease}
      ensures Outcome(jobs, r) == LeaseInstaller(old(jobs), id, device, image, newLease, duration, now, persisted)
      ensures OnlyChanges(old(jobs), jobs, id) && (r.Err? ==> jobs == old(jobs))
      ensures r.Ok? ==>
                && Lookup(old(jobs), id).Some? && Lookup(old(jobs), id).value.state == Waiting
                && r.value.state == Running && r.value.leaseId == Some(newLease)
                && HoldsLease(r.value, newLease, now + duration) && r.value in jobs
      ensures r.Ok? <==>
                persisted && Lookup(old(jobs), id) != None && Queued(Lookup(old(jobs), id).value, device, image)
      ensures r.Ok? ==>
                r.value == Lookup(old(jobs), id).value.(
                  state := Running, stage := Some(ValidatingTarget), progress := 1, leaseId := Some(newLease),
                  leaseExpiresAt := Some(now + duration), updatedAt := now)
    {
      hide Runs.Inv;
      StepKeepsSound(jobs, issued, Runs.Step(Runs.DoLeaseInstaller(id, device, image, newLease, duration), now,
          persisted));
      issued := issued + {newLease};
      var i := FindWaiting(id, device, image);
      if i.Err? {
        return Err(i.error);
      }
      var job := jobs[i.value];
      assert Allowed(job.state, Running);
      job := job.(state := Running);
      job := job.(stage := Some(ValidatingTarget), progress := 1);
      job := job.(leaseId := Some(newLease), leaseExpiresAt := Some(now + duration));
      job := job.(updatedAt := now);
      var written := Install(jobs[i.value := job], persisted);
      r := if written then Ok(job) else Err(WriteFailed);
    }

    /** An installer reports under its lease; neither its stage's rank, its percentage nor its expiry falls. */
    method ReportInstallerProgress(
      id: Uuid, device: Uuid, lease: Uuid, until: Time, stage: DeploymentStage, progress: nat, now: Time,
      persisted: bool)
      returns (r: Result<Job, RepositoryError>)
      requires Valid()
      modifies this`jobs
      ensures Valid()
      ensures Outcome(jobs, r) == ReportInstaller(old(jobs), id, device, lease, until, stage, progress, now, persisted)
      ensures OnlyChanges(old(jobs), jobs, id) && (r.Err? ==> jobs == old(jobs))
      ensures r.Ok? ==>
                var was := Lookup(old(jobs), id);
                && was.Some? && HoldsLease(was.value, lease, now)
                && HoldsLease(r.value, lease, was.value.leaseExpiresAt.value)
                && RankOf(was.value.stage) <= RankOf(r.value.stage) && was.value.progress <= r.value.progress <= 99
      ensures r.Ok? <==>
                && persisted && progress <= 99 && Lookup(old(jobs), id) != None
                && var was := Lookup(old(jobs), id).value;
                   && Installs(was, device, lease, now) && was.progress <= progress
                   && (was.stage != None ==> StageRank(was.stage.value) <= StageRank(stage))
      ensures r.Ok? ==>
                && r.value in jobs && ExtendedTo(Lookup(old(jobs), id).value.leaseExpiresAt, until,
                       r.value.leaseExpiresAt)
                && r.value == Lookup(old(jobs), id).value.(
                     stage := Some(stage), progress := progress, leaseExpiresAt := r.value.leaseExpiresAt,
                     updatedAt := now)
    {
      hide Runs.Inv;
      StepKeepsSound(jobs, issued, Runs.Step(Runs.DoReportInstaller(id, device, lease, until, stage, progress), now,
          persisted));
      assert issued + {} == issued;
      if progress > 99 {
        return Err(InvalidProgress);
      }
      var i := FindInstalling(id, device, lease, now);
      if i.Err? {
        return Err(i.error);
      }
      var job := jobs[i.value];
      var currentRank := if job.stage.Some? then StageRank(job.stage.value) else 0;
      if StageRank(stage) < currentRank || progress < job.progress {
        return Err(InstallerProgressRegression);
      }
      job := job.(stage := Some(stage), progress := progress);
      var current := job.leaseExpiresAt;
      job := job.(leaseExpiresAt := Some(if current.Some? && current.value > until then current.value else until));
      job := job.(updatedAt := now);
      var written := Install(jobs[i.value := job], persisted);
      r := if written then Ok(job) else Err(WriteFailed);
    }

    /** The lease's holder ends a running installer job, and the lease with it. */
    method CompleteInstallerJob(id: Uuid, device: Uuid, lease: Uuid, succeeded: bool, now: Time, persisted: bool)
      returns (r: Result<Job, RepositoryError>)
      requires Valid()
      modifies this`jobs
      ensures Valid()
      ensures Outcome(jobs, r) == CompleteInstaller(old(jobs), id, device, lease, succeeded, now, persisted)
      ensures OnlyChanges(old(jobs), jobs, id) && (r.Err? ==> jobs == old(jobs))
      ensures r.Ok? ==>
                && Lookup(old(jobs), id).Some? && Lookup(old(jobs), id).value.state == Running
                && HoldsLease(Lookup(old(jobs), id).value, lease, now)
                && r.value.leaseId.None? && (r.value.progress == 100 <==> succeeded)
      ensures r.Ok? <==>
                persisted && Lookup(old(jobs), id) != None && Installs(Lookup(old(jobs), id).value, device, lease, now)
      ensures r.Ok? ==>
                && r.value in jobs
                && var was := Lookup(old(jobs), id).value;
                   r.value == if succeeded then
                                was.(state := Succeeded, stage := Some(Finalizing), progress := 100, leaseId := None,
                                     leaseExpiresAt := None, updatedAt := now)
                              else was.(state := Failed, leaseId := None, leaseExpiresAt := None, updatedAt := now)
    {
      hide Runs.Inv;
      StepKeepsSound(jobs, issued, Runs.Step(Runs.DoCompleteInstaller(id, device, lease, succeeded), now, persisted));
      assert issued + {} == issued;
      var i := FindInstalling(id, device, lease, now);
      if i.Err? {
        return Err(i.error);
      }
      var job := jobs[i.value];
      NotYetComplete(jobs, issued, i.value);
      var next := if succeeded then Succeeded else Failed;
      assert Allowed(job.state, next);
      job := job.(state := next);
      if succeeded {
        job := job.(stage := Some(Finalizing), progress := 100);
      }
      job := job.(leaseId := None, leaseExpiresAt := None);
      job := job.(updatedAt := now);
      var written := Install(jobs[i.value := job], persisted);
      r := if written then Ok(job) else Err(WriteFailed);
    }

    /** An agent reports under its lease, which the report never shortens. */
    method ReportProgress(
      id: Uuid, device: Uuid, lease: Uuid, until: Time, stage: DeploymentStage, progress: nat, now: Time,
      persisted: bool)
      returns (r: Result<Job, RepositoryError>)
      requires Valid()
      modifies this`jobs
      ensures Valid()
      ensures Outcome(jobs, r) == ReportAgent(old(jobs), id, device, lease, until, stage, progress, now, persisted)
      ensures OnlyChanges(old(jobs), jobs, id) && (r.Err? ==> jobs == old(jobs))
      ensures r.Ok? ==>
                var was := Lookup(old(jobs), id);
                && was.Some? && HoldsLease(was.value, lease, now)
                && HoldsLease(r.value, lease, was.value.leaseExpiresAt.value)
                && r.value.state == was.value.state && r.value.progress <= 100
      ensures r.Ok? <==>
                && persisted && progress <= 100 && Lookup(old(jobs), id) != None
                && UnderWay(Lookup(old(jobs), id).value, device) && LeaseHeld(Lookup(old(jobs), id).value, lease, now)
      ensures r.Ok? ==>
                && r.value in jobs && ExtendedTo(Lookup(old(jobs), id).value.leaseExpiresAt, until,
                       r.value.leaseExpiresAt)
                && r.value == Lookup(old(jobs), id).value.(
                     stage := Some(stage), progress := progress, leaseExpiresAt := r.value.leaseExpiresAt,
                     updatedAt := now)
    {
      hide Runs.Inv;
      StepKeepsSound(jobs, issued, Runs.Step(Runs.DoReportAgent(id, device, lease, until, stage, progress), now,
          persisted));
      assert issued + {} == issued;
      if progress > 100 {
        return Err(InvalidProgress);
      }
      var i := FindLeased(id, device, lease, now);
      if i.Err? {
        return Err(i.error);
      }
      var job := jobs[i.value];
      job := job.(stage := Some(stage), progress := progress);
      var current := job.leaseExpiresAt;
      job := job.(leaseExpiresAt := Some(if current.Some? && current.value > until then current.value else until));
      job := job.(updatedAt := now);
      var written := Install(jobs[i.value := job], persisted);
      r := if written then Ok(job) else Err(WriteFailed);
    }

    /** An agent ends its job under its lease; the transition is always allowed. */
    method Complete(id: Uuid, device: Uuid, lease: Uuid, succeeded: bool, now: Time, persisted: bool)
      returns (r: Result<Job, RepositoryError>)
      requires Valid()
      modifies this`jobs
      ensures Valid()
      ensures Outcome(jobs, r) == CompleteAgent(old(jobs), id, device, lease, succeeded, now, persisted)
      ensures OnlyChanges(old(jobs), jobs, id) && (r.Err? ==> jobs == old(jobs))
      ensures r.Ok? ==>
                && Lookup(old(jobs), id).Some? && HoldsLease(Lookup(old(jobs), id).value, lease, now)
                && r.value.leaseId.None? && r.value.state == (if succeeded then Succeeded else Failed)
                && (succeeded ==> r.value.progress == 100)
      ensures r.Ok? <==>
                && persisted && Lookup(old(jobs), id) != None
                && UnderWay(Lookup(old(jobs), id).value, device) && LeaseHeld(Lookup(old(jobs), id).value, lease, now)
      ensures r.Ok? ==>
                && r.value in jobs
                && var was := Lookup(old(jobs), id).value;
                   r.value == was.(state := if succeeded then Succeeded else Failed, leaseId := None,
                                   leaseExpiresAt := None, updatedAt := now,
                                   progress := if succeeded then 100 else was.progress)
    {
      hide Runs.Inv;
      StepKeepsSound(jobs, issued, Runs.Step(Runs.DoCompleteAgent(id, device, lease, succeeded), now, persisted));
      assert issued + {} == issued;
      var i := FindLeased(id, device, lease, now);
      if i.Err? {
        return Err(i.error);
      }
      var job := jobs[i.value];
      var next := if succeeded then Succeeded else Failed;
      assert Allowed(job.state, next);
      job := job.(state := next);
      if succeeded {
        job := job.(progress := 100);
      }
      job := job.(leaseId := None, leaseExpiresAt := None);
      job := job.(updatedAt := now);
      var written := Install(jobs[i.value := job], persisted);
      r := if written then Ok(job) else Err(WriteFailed);
    }

    /** A renewal with a non-negative duration leaves at least half of it, and never shortens the lease. */
    method RenewControlLease(id: Uuid, device: Uuid, lease: Uuid, duration: int, now: Time, persisted: bool)
      returns (r: Result<JobState, RepositoryError>)
      requires Valid()
      modifies this`jobs
      ensures Valid()
      ensures Outcome(jobs, r) == RenewControl(old(jobs), id, device, lease, duration, now, persisted)
      ensures OnlyChanges(old(jobs), jobs, id) && (r.Err? ==> jobs == old(jobs))
      ensures r.Ok? && duration >= 0 ==>
                var was, after := Lookup(old(jobs), id), Lookup(jobs, id);
                && was.Some? && after.Some? && was.value.leaseExpiresAt.Some? && after.value.leaseExpiresAt.Some?
                && was.value.leaseExpiresAt.value <= after.value.leaseExpiresAt.value
                && now + Half(duration) <= after.value.leaseExpiresAt.value
      ensures duration >= 0 ==>
                (r.Ok? <==>
                   && Lookup(old(jobs), id) != None
                   && var was := Lookup(old(jobs), id).value;
                      && UnderWay(was, device) && was.leaseId == Some(lease) && was.leaseExpiresAt != None
                      && (HalfLeft(was.leaseExpiresAt.value, now, duration) || persisted))
      ensures r.Ok? && duration >= 0 ==>
                && r.value == Lookup(old(jobs), id).value.state
                && var was := Lookup(old(jobs), id).value;
                   if HalfLeft(was.leaseExpiresAt.value, now, duration) then jobs == old(jobs)
                   else Lookup(jobs, id) == Some(was.(leaseExpiresAt := Some(now + duration)))
    {
      hide Runs.Inv;
      StepKeepsSound(jobs, issued, Runs.Step(Runs.DoRenewControl(id, device, lease, duration), now, persisted));
      assert issued + {} == issued;
      var i := Find(id);
      if i.None? {
        return Err(NotFound(id));
      }
      var job := jobs[i.value];
      if job.operation == InstallLinux {
        return Err(WrongExecutionProtocol);
      }
      var targeted := AnyTarget(job, device);
      if !targeted {
        return Err(WrongDevice(device));
      }
      if (job.state != Running && job.state != Paused) || job.leaseId != Some(lease) {
        return Err(InvalidLease);
      }
      LeasesExpire(jobs, issued, i.value);
      if duration >= 0 {
        HalfIsLeft(job.leaseExpiresAt.value, now, duration);
      }
      hide Half, HalfLeft;
      if job.leaseExpiresAt.Some? && job.leaseExpiresAt.value >= now + Half(duration) {
        return Ok(job.state);
      }
      job := job.(leaseExpiresAt := Some(now + duration));
      IndexStays(jobs, i.value, job);
      var written := Install(jobs[i.value := job], persisted);
      r := if written then Ok(job.state) else Err(WriteFailed);
    }

    /** The read that agents are authorized by: the job, exactly when its current lease is presented in time. */
    method Authorized(id: Uuid, device: Uuid, lease: Uuid, now: Time) returns (r: Result<Job, RepositoryError>)
      ensures r == AuthorizedLease(jobs, id, device, lease, now)
      ensures r.Ok? ==> Lookup(jobs, id) == Some(r.value) && HoldsLease(r.value, lease, now) && Targets(r.value, device)
      ensures r.Ok? <==>
                && Lookup(jobs, id) != None
                && UnderWay(Lookup(jobs, id).value, device) && LeaseHeld(Lookup(jobs, id).value, lease, now)
    {
      var i := FindLeased(id, device, lease, now);
      r := if i.Ok? then Ok(jobs[i.value]) else Err(i.error);
    }
  }

  /** A running installer job is not at 100 percent. */
  lemma NotYetComplete(jobs: seq<Job>, issued: set<Uuid>, i: nat)
    requires Sound(jobs, issued) && i < |jobs| && jobs[i].operation == InstallLinux && jobs[i].state == Running
    ensures jobs[i].progress < 100
  {
    assert Runs.JobOk(jobs[i]);
  }

  /** Whoever holds a lease has an expiry. */
  lemma LeasesExpire(jobs: seq<Job>, issued: set<Uuid>, i: nat)
    requires Sound(jobs, issued) && i < |jobs| && jobs[i].leaseId.Some?
    ensures jobs[i].leaseExpiresAt.Some?
  {
    assert Runs.JobOk(jobs[i]);
  }
}
