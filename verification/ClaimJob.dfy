/**
 * How an agent gets its job, from crates/service/src/control_plane.rs: candidates are picked from a
 * snapshot, their images validated without any lock, and only then is one of them leased.
 */
module ClaimJob {
  import opened Common
  import opened DeploymentTypes
  import opened RepositorySpec
  import opened RepositoryRuns

  const SECOND: int := 1_000_000_000
  const JOB_LEASE: int := 120 * 60 * SECOND

  /** Whether the image of a job can be deployed: by image, image index and operation. */
  type Validation = (Uuid, U32, Operation) -> bool

  predicate AgentOperation(operation: Operation) {
    operation == DeployWim || operation == DeployGho
  }

  /** Some disk carries the fingerprint, character by character. */
  predicate CarriedBySome(t: DeploymentTarget, disks: seq<Disk>) {
    exists d :: d in disks && Carries(d, t)
  }

  lemma MatchedIsCarried(job: Job, disks: seq<Disk>)
    requires OnSomeDisk(job, disks)
    ensures |job.targets| == 1 && CarriedBySome(job.targets[0], disks)
  {
    hide MatchesDisk, Carries;
    var d :| d in disks && MatchesDisk(job.targets[0], d);
    MatchingIsCarrying(job.targets[0], d);
  }

  predicate OnSomeDisk(job: Job, disks: seq<Disk>) {
    |job.targets| == 1 && exists d :: d in disks && MatchesDisk(job.targets[0], d)
  }

  /** What the snapshot must show of a candidate. */
  predicate Candidate(job: Job, device: Uuid, disks: seq<Disk>, now: Time) {
    && (job.state == Waiting || (job.state == Running && Expired(job, now)))
    && TargetsOnly(job, device) && OnSomeDisk(job, disks) && AgentOperation(job.operation)
  }

  predicate Validated(job: Job, valid: Validation) {
    AgentOperation(job.operation) && valid(job.imageId, job.options.imageIndex, job.operation)
  }

  /** The ids of the candidates whose image was validated. */
  function EligibleIds(jobs: seq<Job>, device: Uuid, disks: seq<Disk>, now: Time, valid: Validation): set<Uuid> {
    set j | j in jobs && Candidate(j, device, disks, now) && Validated(j, valid) :: j.id
  }

  /** The condition the lease is taken under, evaluated with the registry locked. */
  function Rule(ids: set<Uuid>, device: Uuid, disks: seq<Disk>): Job -> bool {
    (job: Job) => job.id in ids && AgentOperation(job.operation) && TargetsOnly(job, device) && OnSomeDisk(job, disks)
  }

  /** `claim_job` with nothing happening in between. */
  function ClaimNow(
    jobs: seq<Job>, device: Uuid, disks: seq<Disk>, valid: Validation, lease: Uuid, now: Time, persisted: bool)
    : Outcome<Option<Job>>
  {
    if disks == [] then Outcome(jobs, Ok(None))
    else
      var rule := Rule(EligibleIds(jobs, device, disks, now, valid), device, disks);
      Claim(jobs, device, JOB_LEASE, rule, lease, now, persisted)
  }

  // ----- what may happen in between -----

  /** A job's request is fixed for as long as the job is stored. */
  predicate SameRequest(a: Job, b: Job) {
    && a.id == b.id && a.operation == b.operation && a.imageId == b.imageId
    && a.targets == b.targets && a.options == b.options
  }

  lemma OneStepKeepsRequest(states: seq<Repo>, steps: seq<Step>, i: nat, id: Uuid)
    requires IsRun(states, steps) && i < |steps|
    requires Lookup(states[i].jobs, id).Some? && Lookup(states[i + 1].jobs, id).Some?
    ensures SameRequest(Lookup(states[i].jobs, id).value, Lookup(states[i + 1].jobs, id).value)
  {
    hide IsRun, Inv, EditedBy, Lookup, LegalMove, After, Accepted, NewJob, RepositoryRuns.Enabled;
    RunLength(states, steps);
    RunMovesRecord(states, steps, i, id);
    var a, b := Lookup(states[i].jobs, id).value, Lookup(states[i + 1].jobs, id).value;
    if a != b {
      EditKeepsIdentity(steps[i], a, b);
    }
  }

  lemma IdIsIssued(states: seq<Repo>, steps: seq<Step>, i: nat, id: Uuid)
    requires IsRun(states, steps) && i < |states| && Lookup(states[i].jobs, id).Some?
    ensures id in states[i].issued
  {
    hide IsRun, Inv;
    RunKeepsInv(states, steps, i);
    StoredJobOk(states[i], id);
  }

  lemma SameRequestChains(a: Job, b: Job, c: Job)
    requires SameRequest(a, b) && SameRequest(b, c)
    ensures SameRequest(a, c)
  {
  }

  predicate SameOrGone(jobs: seq<Job>, a: Job) {
    Lookup(jobs, a.id).None? || SameRequest(a, Lookup(jobs, a.id).value)
  }

  lemma StepKeepsSameOrGone(states: seq<Repo>, steps: seq<Step>, i: nat, a: Job)
    requires IsRun(states, steps) && i < |steps|
    requires a.id in states[i].issued && SameOrGone(states[i].jobs, a)
    ensures a.id in states[i + 1].issued && SameOrGone(states[i + 1].jobs, a)
  {
    hide IsRun, Inv, Lookup, SameRequest;
    RunLength(states, steps);
    IssuedGrows(states, steps, i);
    var was, later := Lookup(states[i].jobs, a.id), Lookup(states[i + 1].jobs, a.id);
    if was.None? {
      StepNeverRestores(states, steps, i, a.id);
    } else if later.Some? {
      OneStepKeepsRequest(states, steps, i, a.id);
      SameRequestChains(a, was.value, later.value);
    }
  }

  /** Ids are never reused, so whatever is stored under an id later is still the same request. */
  lemma {:induction false} RequestsAreFixed(states: seq<Repo>, steps: seq<Step>, i: nat, j: nat, a: Job)
    requires IsRun(states, steps) && i <= j < |states| && Lookup(states[i].jobs, a.id) == Some(a)
    ensures a.id in states[j].issued && SameOrGone(states[j].jobs, a)
  {
    if i == j {
      hide IsRun, Lookup;
      IdIsIssued(states, steps, i, a.id);
    } else {
      hide *;
      RunLength(states, steps);
      RequestsAreFixed(states, steps, i, j - 1, a);
      StepKeepsSameOrGone(states, steps, j - 1, a);
    }
  }

  /** The step that ends a claim begun in state `i` with the disks then known. */
  ghost predicate EndsClaim(
    states: seq<Repo>, step: Step, i: nat, device: Uuid, before: seq<Disk>, now: Time, valid: Validation,
    after: seq<Disk>)
    requires i < |states|
  {
    && step.action.DoClaim? && step.action.device == device && step.action.duration == JOB_LEASE
    && step.action.eligible == Rule(EligibleIds(states[i].jobs, device, before, now, valid), device, after)
  }

  /**
   * Whatever other callers do between the snapshot and the lease, a job that is handed out is the
   * device's own, was a candidate in the snapshot, has the very image, index and operation that were
   * validated there, and matches a disk of the device both in the snapshot and when it is leased.
   */
  lemma ClaimedJobWasValidated(
    states: seq<Repo>, steps: seq<Step>, i: nat, j: nat,
    device: Uuid, before: seq<Disk>, now: Time, valid: Validation, after: seq<Disk>)
    requires IsRun(states, steps) && i <= j < |steps|
    requires EndsClaim(states, steps[j], i, device, before, now, valid, after)
    ensures var a := steps[j].action;
            var r := Claim(states[j].jobs, device, JOB_LEASE, a.eligible, a.newId, steps[j].now,
                steps[j].persisted).result;
            r.Ok? && r.value.Some? ==>
              var leased := r.value.value;
              && TargetsOnly(leased, device) && AgentOperation(leased.operation)
              && valid(leased.imageId, leased.options.imageIndex, leased.operation)
              && OnSomeDisk(leased, before) && OnSomeDisk(leased, after)
              && leased.leaseExpiresAt == Some(steps[j].now + 120 * 60 * 1_000_000_000)
              && |leased.targets| == 1 && leased.targets[0].deviceId == device
              && (leased.operation == DeployWim || leased.operation == DeployGho)
              && CarriedBySome(leased.targets[0], before) && CarriedBySome(leased.targets[0], after)
              && exists was ::
                   was in states[i].jobs && Candidate(was, device, before, now) && SameRequest(was, leased)
  {
    hide IsRun, Inv, Perform;
    RunLength(states, steps);
    var a := steps[j].action;
    var jobs := states[j].jobs;
    var at := FirstWhere(jobs, (q: Job) => Claimable(q, device, steps[j].now) && a.eligible(q));
    if at.Some? {
      var chosen := jobs[at.value];
      var was := SnapshotOf(states[i].jobs, device, before, now, valid, chosen.id);
      StoredUnder(states, steps, i, was);
      StoredUnder(states, steps, j, chosen);
      RequestsAreFixed(states, steps, i, j, was);
      if steps[j].persisted {
        var leased := EditClaim(chosen, a.newId, JOB_LEASE, steps[j].now).value;
        MatchedIsCarried(leased, before);
        MatchedIsCarried(leased, after);
      }
    }
  }

  lemma SnapshotOf(
    jobs: seq<Job>, device: Uuid, disks: seq<Disk>, now: Time, valid: Validation, id: Uuid) returns (was: Job)
    requires id in EligibleIds(jobs, device, disks, now, valid)
    ensures was in jobs && was.id == id && Candidate(was, device, disks, now) && Validated(was, valid)
  {
    hide Candidate, Validated;
    was :| was in jobs && was.id == id && Candidate(was, device, disks, now) && Validated(was, valid);
  }

  lemma StoredUnder(states: seq<Repo>, steps: seq<Step>, i: nat, job: Job)
    requires IsRun(states, steps) && i < |states| && job in states[i].jobs
    ensures Lookup(states[i].jobs, job.id) == Some(job)
  {
    hide IsRun, Inv;
    RunKeepsInv(states, steps, i);
    InvGivesDistinctIds(states[i]);
    LookupMember(states[i].jobs, job.id);
    var k :| 0 <= k < |states[i].jobs| && states[i].jobs[k] == job;
    FirstWhereUnique(states[i].jobs, k);
    LookupIndex(states[i].jobs, k);
  }

  /** A job that the device may be given: queued or overdue, its own, for a disk it has, with a valid image. */
  predicate Ready(q: Job, device: Uuid, disks: seq<Disk>, now: Time, valid: Validation) {
    && (q.state == Waiting || (q.state == Running && q.leaseExpiresAt != None && q.leaseExpiresAt.value < now))
    && |q.targets| == 1 && q.targets[0].deviceId == device && CarriedBySome(q.targets[0], disks)
    && (q.operation == DeployWim || q.operation == DeployGho)
    && valid(q.imageId, q.options.imageIndex, q.operation)
  }

  const AnyImage: Validation := (image, index, operation) => true

  lemma CandidatesAreReady(q: Job, device: Uuid, disks: seq<Disk>, now: Time, valid: Validation)
    ensures Candidate(q, device, disks, now) && Validated(q, valid) <==> Ready(q, device, disks, now, valid)
  {
    hide MatchesDisk, Carries;
    if |q.targets| == 1 {
      forall d | d in disks
        ensures MatchesDisk(q.targets[0], d) <==> Carries(d, q.targets[0])
      {
        MatchingIsCarrying(q.targets[0], d);
      }
    }
  }

  /**
   * With nobody in between, a claim hands out a job exactly when one is ready. It is then one of the
   * device's queued or overdue jobs for its disks,
       running under the new lease for two hours and at the beginning of its work.
   */
  lemma UndisturbedClaim(jobs: seq<Job>, device: Uuid, disks: seq<Disk>, valid: Validation, lease: Uuid, now: Time)
    ensures var r := ClaimNow(jobs, device, disks, valid, lease, now, true).result;
            && r.Ok?
            && (r.value.Some? <==> exists q :: q in jobs && Ready(q, device, disks, now, valid))
            && (r.value.Some? ==> exists q ::
                  && q in jobs && Ready(q, device, disks, now, AnyImage)
                  && r.value.value == q.(state := Running, stage := Some(Preflight), progress := 0,
                                         leaseId := Some(lease), leaseExpiresAt := Some(now + 7_200_000_000_000),
                                         updatedAt := now))
  {
    hide Candidate, Validated, Ready, OnSomeDisk;
    ReadyMeansADisk(jobs, device, disks, now, valid);
    forall q
      ensures Candidate(q, device, disks, now) && Validated(q, valid) <==> Ready(q, device, disks, now, valid)
    {
      CandidatesAreReady(q, device, disks, now, valid);
    }
    forall q | Claimable(q, device, now) && AgentOperation(q.operation) && OnSomeDisk(q, disks)
      ensures Ready(q, device, disks, now, AnyImage)
    {
      CandidatesAreReady(q, device, disks, now, AnyImage);
      CandidateWithout(q, device, disks, now);
    }
    if disks != [] {
      EligibleAreClaimed(jobs, device, disks, now, valid);
    }
  }

  lemma CandidateWithout(q: Job, device: Uuid, disks: seq<Disk>, now: Time)
    requires Claimable(q, device, now) && AgentOperation(q.operation) && OnSomeDisk(q, disks)
    ensures Candidate(q, device, disks, now) && Validated(q, AnyImage)
  {
  }

  lemma ReadyMeansADisk(jobs: seq<Job>, device: Uuid, disks: seq<Disk>, now: Time, valid: Validation)
    ensures forall q :: q in jobs && Ready(q, device, disks, now, valid) ==> disks != []
  {
  }

  /** Whoever the rule accepts is a validated candidate, and the first one found is claimed. */
  lemma EligibleAreClaimed(jobs: seq<Job>, device: Uuid, disks: seq<Disk>, now: Time, valid: Validation)
    ensures var rule := Rule(EligibleIds(jobs, device, disks, now, valid), device, disks);
            FirstWhere(jobs, (j: Job) => Claimable(j, device, now) && rule(j)).Some?
            <==> exists q :: q in jobs && Candidate(q, device, disks, now) && Validated(q, valid)
  {
  }
}

/** Finding the disk of a lease on the agent's side, from crates/agent/src/deployment.rs. */
module AgentDisks {
  import opened Common
  import opened TextRules
  import opened DeploymentTypes

  datatype DiskError = NotPresent | FingerprintChanged

  function FirstNamed(disks: seq<Disk>, id: string): (i: nat)
    ensures i <= |disks|
    ensures i < |disks| ==> EqIgnoreAsciiCase(disks[i].id, id)
    ensures forall k :: 0 <= k < i ==> !EqIgnoreAsciiCase(disks[k].id, id)
  {
    if disks == [] || EqIgnoreAsciiCase(disks[0].id, id) then 0 else 1 + FirstNamed(disks[1..], id)
  }

  /** `matching_disk`: the first disk with the target's id, if its fingerprint still matches. */
  function MatchingDisk(target: DeploymentTarget, disks: seq<Disk>): Result<Disk, DiskError> {
    var i := FirstNamed(disks, target.diskId);
    if i == |disks| then Err(NotPresent)
    else if !MatchesDisk(target, disks[i]) then Err(FingerprintChanged)
    else Ok(disks[i])
  }

  predicate DistinctNames(disks: seq<Disk>) {
    forall i, j :: 0 <= i < j < |disks| ==> !EqIgnoreAsciiCase(disks[i].id, disks[j].id)
  }

  /**
   * Which disk the agent finds, character by character: the first with the target's id as it stands,
   * and only if that id has no blanks around it and the disk has the recorded model, a size at most
   * one MiB off, and the recorded serial number if one is recorded.
   */
  lemma FoundDiskCarriesTarget(t: DeploymentTarget, disks: seq<Disk>, d: Disk)
    ensures MatchingDisk(t, disks) == Ok(d)
            <==> Trim(t.diskId) == t.diskId && Carries(d, t)
                 && exists i ::
                      && 0 <= i < |disks| && disks[i] == d
                      && forall k :: 0 <= k < i ==> !SameText(disks[k].id, t.diskId)
    ensures MatchingDisk(t, disks) == Err(NotPresent)
            <==> forall k :: 0 <= k < |disks| ==> !SameText(disks[k].id, t.diskId)
  {
    hide Trim, EqIgnoreAsciiCase, SameText, MatchesDisk, Carries;
    forall k | 0 <= k < |disks|
      ensures EqIgnoreAsciiCase(disks[k].id, t.diskId) <==> SameText(disks[k].id, t.diskId)
    {
      EqualUpToCase(disks[k].id, t.diskId);
    }
    var i := FirstNamed(disks, t.diskId);
    if i < |disks| {
      MatchingIsCarrying(t, disks[i]);
      if MatchesDisk(t, disks[i]) {
        IdIsTrimmed(disks[i], t);
      }
    }
    if Carries(d, t) && Trim(t.diskId) == t.diskId {
      CarriedId(d, t);
    }
  }

  lemma CarriedId(d: Disk, t: DeploymentTarget)
    requires Carries(d, t)
    ensures SameText(d.id, Trim(t.diskId))
  {
  }

  lemma IdIsTrimmed(d: Disk, t: DeploymentTarget)
    requires SameText(d.id, t.diskId) && Carries(d, t)
    ensures Trim(t.diskId) == t.diskId
  {
    hide Trim;
    TrimShortens(t.diskId);
  }

  /**
   * The agent only ever writes to a disk that carries the target's fingerprint. With distinct disk
   * ids, it finds the disk the server matched exactly when the target's id has no surrounding
   * whitespace: the fingerprint trims that id, the agent's own lookup does not.
   */
  lemma AgentFindsTheMatchedDisk(target: DeploymentTarget, disks: seq<Disk>, at: nat)
    requires at < |disks| && MatchesDisk(target, disks[at]) && DistinctNames(disks)
    ensures MatchingDisk(target, disks).Ok? ==> MatchingDisk(target, disks).value == disks[at]
    ensures MatchingDisk(target, disks).Ok? <==> Trim(target.diskId) == target.diskId
    ensures Carries(disks[at], target)
  {
    hide Trim;
    MatchingIsCarrying(target, disks[at]);
    TrimShortens(target.diskId);
    var i := FirstNamed(disks, target.diskId);
    if i < |disks| && MatchesDisk(target, disks[i]) && i != at {
      SameName(disks[i].id, disks[at].id, Trim(target.diskId));
    }
  }

  lemma SameName(a: string, b: string, id: string)
    requires EqIgnoreAsciiCase(a, id) && EqIgnoreAsciiCase(b, id)
    ensures EqIgnoreAsciiCase(a, b) && EqIgnoreAsciiCase(b, a)
  {
  }

  /** A disk id with a blank in front matches on the server and is not found by the agent. */
  lemma PaddedIdIsLost(d: Disk)
    requires d.id == "D" && d.serial == None
    ensures var target := DeploymentTarget(0, " D", d.model, None, d.sizeBytes);
            MatchesDisk(target, d) && MatchingDisk(target, [d]) == Err(NotPresent)
  {
  }
}
