/**
 * The installer service as an object, for calls that nothing interrupts: a session table beside the
 * job repository. The interleaved behaviour of the same regions is in `InstallerProtocol`.
 */
module InstallerDeployments {
  import opened Common
  import opened TextRules
  import opened DeploymentTypes
  import opened RepositorySpec
  import opened InstallerSessions
  import opened InstallerCalls
  import opened JobRepositories

  /** The disk a destructive configuration was rendered for, and the job it was rendered under. */
  datatype Authorization = Authorization(path: string, job: Job)

  /** The path is that of the only observed disk carrying the fingerprint of the job's target. */
  ghost predicate RenderedFor(job: Job, disks: seq<ObservedDisk>, path: string) {
    job.targets != [] && exists i :: OnlyObserved(job.targets[0], disks, i) && disks[i].path == path
  }

  predicate PlainText(s: string) {
    && Trim(s) != "" && Utf8Length(s) <= 256
    && forall k :: 0 <= k < |s| ==> s[k] as int != 0 && s[k] as int != 10 && s[k] as int != 13
  }

  /** A disk as a guard request may report it. */
  predicate PlausibleDisk(d: ObservedDisk) {
    && 6 <= |d.path| <= 133 && d.path[..5] == "/dev/" && d.path != "/dev/." && d.path != "/dev/.."
    && (forall k :: 5 <= k < |d.path| ==>
          var c := d.path[k];
          '0' <= c <= '9' || 'A' <= c <= 'Z' || 'a' <= c <= 'z' || c in {'.', '_', '-'})
    && PlainText(d.path) && PlainText(d.model) && (d.serial != None ==> PlainText(d.serial.value)) && d.sizeBytes > 0
  }

  /** A guard request that is looked at any further. */
  predicate Plausible(r: GuardRequest) {
    && |r.imageSha| == 64
    && (forall k :: 0 <= k < 64 ==>
          var c := r.imageSha[k]; '0' <= c <= '9' || 'A' <= c <= 'F' || 'a' <= c <= 'f')
    && 1 <= |r.disks| <= 128 && (forall k :: 0 <= k < |r.disks| ==> PlausibleDisk(r.disks[k]))
    && forall j, k :: 0 <= j < |r.disks| && 0 <= k < |r.disks| && r.disks[j].path == r.disks[k].path ==> j == k
  }

  lemma PlainTextIsValid(s: string)
    ensures ValidText(s, 256) <==> PlainText(s)
  {
    hide Trim, Utf8Length;
    assert forall k :: 0 <= k < |s| ==> s[k] in s;
  }

  lemma PlausibleDiskIsValid(d: ObservedDisk)
    ensures ValidDisk(d) <==> PlausibleDisk(d)
  {
    hide Trim, Utf8Length, ValidText, PlainText;
    PlainTextIsValid(d.path);
    PlainTextIsValid(d.model);
    if d.serial.Some? {
      PlainTextIsValid(d.serial.value);
    }
    if |d.path| >= 6 && d.path[..5] == "/dev/" {
      PathNames(d.path);
    }
  }

  lemma PathNames(path: string)
    requires |path| >= 6 && path[..5] == "/dev/"
    ensures "/dev/" <= path
    ensures path[5..] == "." <==> path == "/dev/."
    ensures path[5..] == ".." <==> path == "/dev/.."
    ensures (forall c :: c in path[5..] ==> NameCharacter(c))
            <==> forall k :: 5 <= k < |path| ==> NameCharacter(path[k])
  {
    var name := path[5..];
    assert path == "/dev/" + name;
    assert "/dev/."[5..] == "." && "/dev/.."[5..] == "..";
    assert forall k :: 5 <= k < |path| ==> path[k] == name[k - 5] && path[k] in name;
  }

  lemma PlausibleIsValid(r: GuardRequest)
    ensures ValidRequest(r) <==> Plausible(r)
  {
    hide ValidDisk, PlausibleDisk;
    forall k | 0 <= k < |r.disks|
      ensures ValidDisk(r.disks[k]) <==> PlausibleDisk(r.disks[k])
    {
      PlausibleDiskIsValid(r.disks[k]);
    }
    assert forall k :: 0 <= k < |r.disks| ==> r.disks[k] in r.disks;
    assert forall k :: 0 <= k < |r.imageSha| ==> r.imageSha[k] in r.imageSha;
  }

  /** The caller knows the session's secret, and the session has not expired. */
  predicate Presented(sessions: Sessions, id: Uuid, token: Uuid, now: Time) {
    id in sessions && sessions[id].token == token && now <= sessions[id].expiresAt
  }

  /** The prepared medium is the one that was asked for, and is made from the session's image. */
  predicate MediumOf(prepared: Option<Prepared>, request: GuardRequest, image: Uuid) {
    prepared != None && SameText(prepared.value.isoSha, request.imageSha) && prepared.value.artifact == image
  }

  /** The job of a session, queued for the session's device alone. */
  predicate QueuedFor(jobs: seq<Job>, x: Session, was: Job) {
    && was in jobs && was.id == x.job && was.operation == InstallLinux && was.imageId == x.image && was.state == Waiting
    && |was.targets| == 1 && was.targets[0].deviceId == x.device
  }

  /** One of the disks has the path and is large enough. */
  predicate RoomOn(disks: seq<ObservedDisk>, path: string, minimumBytes: U64) {
    exists i :: 0 <= i < |disks| && disks[i].path == path && minimumBytes <= disks[i].sizeBytes
  }

  /** What a handoff at `now` makes of the queued job, field by field. */
  function Handed(was: Job, lease: Uuid, now: Time): Job {
    was.(state := Running, stage := Some(ValidatingTarget), progress := 1, leaseId := Some(lease),
         leaseExpiresAt := Some(now + 4 * 3_600_000_000_000), updatedAt := now)
  }

  /** What an initial authorization has checked, and what it hands out. */
  ghost predicate Granted(
    jobs: seq<Job>, x: Session, request: GuardRequest, prepared: Option<Prepared>, lease: Uuid, now: Time, job: Job,
    path: string)
  {
    && MediumOf(prepared, request, x.image)
    && RenderedFor(job, request.disks, path) && RoomOn(request.disks, path, prepared.value.minimumDiskBytes)
    && exists was :: QueuedFor(jobs, x, was) && job == Handed(was, lease, now)
  }

  /** What a repeated authorization has checked. */
  ghost predicate Repeated(
    jobs: seq<Job>, x: Session, request: GuardRequest, prepared: Option<Prepared>, job: Job, path: string)
  {
    && prepared != None && SameText(prepared.value.isoSha, request.imageSha)
    && job in jobs && job.id == x.job && job.operation == InstallLinux && job.imageId == x.image
    && job.state == Running && job.leaseId == x.lease && |job.targets| == 1 && job.targets[0].deviceId == x.device
    && RenderedFor(job, request.disks, path)
  }

  lemma QueuedIsHanded(jobs: seq<Job>, b: Binding, x: Session, lease: Uuid, now: Time, persisted: bool)
    requires SameSession(b, x) && BoundJob(jobs, b, Waiting).Ok? && HandOff(jobs, b, lease, now, persisted).result.Ok?
    ensures QueuedFor(jobs, x, BoundJob(jobs, b, Waiting).value)
    ensures HandOff(jobs, b, lease, now, persisted).result.value
            == Handed(BoundJob(jobs, b, Waiting).value, lease, now)
  {
  }

  /** Everything an initial authorization needs, in terms of the stored job, the medium and the disks. */
  ghost predicate Grants(jobs: seq<Job>, x: Session, request: GuardRequest, prepared: Option<Prepared>) {
    && MediumOf(prepared, request, x.image)
    && Lookup(jobs, x.job) != None
    && var was := Lookup(jobs, x.job).value;
       && QueuedFor(jobs, x, was) && was.options.linuxInstall != None && was.options.linuxInstall.value.wellFormed
       && exists i ::
            && OnlyObserved(was.targets[0], request.disks, i)
            && prepared.value.minimumDiskBytes <= request.disks[i].sizeBytes
  }

  /** Everything a repeated one needs: neither the medium's image, the disk's size nor the options are checked again. */
  ghost predicate Repeats(jobs: seq<Job>, x: Session, request: GuardRequest, prepared: Option<Prepared>) {
    && prepared != None && SameText(prepared.value.isoSha, request.imageSha)
    && Lookup(jobs, x.job) != None
    && var was := Lookup(jobs, x.job).value;
       && was.operation == InstallLinux && was.imageId == x.image && was.state == Running && was.leaseId == x.lease
       && |was.targets| == 1 && was.targets[0].deviceId == x.device && was.options.linuxInstall != None
       && exists i :: OnlyObserved(was.targets[0], request.disks, i)
  }

  /** For a valid request, exactly those are what the checks in front of the lease ask for. */
  lemma GrantsAreGrantable(
    jobs: seq<Job>, id: Uuid, x: Session, request: GuardRequest, prepared: Option<Prepared>)
    requires ValidRequest(request)
    ensures Grantable(jobs, BindingOf(id, x), request, prepared) <==> Grants(jobs, x, request, prepared)
    ensures Replayable(jobs, BindingOf(id, x), request, prepared) <==> Repeats(jobs, x, request, prepared)
  {
    hide ValidRequest, UniquelyMatchingDisk, OnlyObserved, Renderable, EqIgnoreAsciiCase, SameText;
    if prepared.Some? {
      EqualUpToCase(prepared.value.isoSha, request.imageSha);
    }
    var job := Lookup(jobs, x.job);
    if job.Some? && job.value.targets != [] {
      var target := job.value.targets[0];
      SelectionIsTheOnlyObserved(target, request.disks);
      if UniquelyMatchingDisk(target, request.disks).Some? {
        ValidDisksRender(request, target);
      }
    }
  }

  lemma GrantableIsHanded(
    jobs: seq<Job>, b: Binding, request: GuardRequest, prepared: Option<Prepared>, lease: Uuid, now: Time,
    persisted: bool)
    requires Grantable(jobs, b, request, prepared)
    ensures HandOff(jobs, b, lease, now, persisted).result.Ok? <==> persisted
  {
    hide ChooseDisk, MediaChecked;
  }

  /** The session's job runs for the session's device, under the session's lease, which has not run out. */
  predicate Held(jobs: seq<Job>, x: Session, now: Time) {
    && x.phase in {HandedOff, AwaitingBoot} && x.lease != None && Lookup(jobs, x.job) != None
    && var was := Lookup(jobs, x.job).value;
       && was.operation == InstallLinux && |was.targets| == 1 && was.targets[0].deviceId == x.device
       && was.state == Running && was.leaseId == x.lease
       && was.leaseExpiresAt != None && now <= was.leaseExpiresAt.value
  }

  /** The stage and the percentage an event stands for. */
  predicate StandsAt(job: Job, kind: EventKind) {
    && (kind == Partition ==> job.stage == Some(Partitioning) && job.progress == 10)
    && (kind == InstallSystem ==> job.stage == Some(InstallingSystem) && job.progress == 45)
    && (kind == ConfigureBoot ==> job.stage == Some(ConfiguringBoot) && job.progress == 75)
    && (kind == Finalize ==> job.stage == Some(Finalizing) && job.progress == 90)
    && (kind == AwaitBoot ==> job.stage == Some(AwaitingFirstBoot) && job.progress == 99)
  }

  /** What an accepted event makes of the job: a failure ends it, any other one moves it and extends its lease. */
  predicate Moved(was: Job, job: Job, kind: EventKind, calledAt: Time, now: Time) {
    if kind == Fail then
      job == was.(state := Failed, leaseId := None, leaseExpiresAt := None, updatedAt := now)
    else
      && StandsAt(job, kind) && job.progress >= was.progress && was.leaseExpiresAt != None
      && (was.stage != None ==> StageRank(was.stage.value) <= StageRank(job.stage.value))
      && var until := calledAt + 4 * 3_600_000_000_000;
         && job.leaseExpiresAt != None
         && job.leaseExpiresAt.value == (if was.leaseExpiresAt.value > until then was.leaseExpiresAt.value else until)
         && job == was.(stage := job.stage, progress := job.progress, leaseExpiresAt := job.leaseExpiresAt,
                        updatedAt := now)
  }

  lemma ReportedIsHeld(jobs: seq<Job>, id: Uuid, x: Session, e: Sent, persisted: bool)
    requires x.phase in {HandedOff, AwaitingBoot} && x.lease.Some?
    ensures var r := Reported(jobs, BindingOf(id, x), e, persisted).result;
            && (r.Ok? ==> Held(jobs, x, e.now) && Moved(Lookup(jobs, x.job).value, r.value, e.kind, e.calledAt, e.now))
            && (Held(jobs, x, e.now) && e.kind == Fail && persisted ==> r.Ok?)
  {
    hide StageRank;
    if e.kind != Fail {
      EventsRankAlike(e.kind);
    }
  }

  lemma ConfirmedIsHeld(jobs: seq<Job>, id: Uuid, x: Session, now: Time, persisted: bool)
    requires x.phase in {HandedOff, AwaitingBoot} && x.lease.Some?
    ensures var r := Confirmed(jobs, BindingOf(id, x), now, persisted).result;
            && (r.Ok? <==> Held(jobs, x, now) && persisted)
            && (r.Ok? ==> r.value == Lookup(jobs, x.job).value.(state := Succeeded, stage := Some(Finalizing),
                                                                progress := 100, leaseId := None,
                                                                leaseExpiresAt := None, updatedAt := now))
  {
  }

  /** A session has a lease exactly from its handoff on. */
  predicate SessionsOk(sessions: Sessions) {
    forall id :: id in sessions ==> (sessions[id].lease.Some? <==> PastHandoff(sessions[id].phase))
  }

  class InstallerDeployment {
    const repository: JobRepository
    var sessions: Sessions

    ghost predicate Valid()
      reads this, repository
    {
      repository.Valid() && SessionsOk(sessions)
    }

    constructor (repository: JobRepository)
      requires repository.Valid()
      ensures Valid() && this.repository == repository && sessions == map[]
    {
      this.repository := repository;
      sessions := map[];
    }

    method AuthenticateSession(id: Uuid, token: Uuid, now: Time) returns (r: Result<Binding, InstallerError>)
      ensures r == Authenticate(sessions, id, token, now)
    {
      if id !in sessions {
        return Err(Unauthorized);
      }
      var session := sessions[id];
      if session.token != token {
        return Err(Unauthorized);
      }
      if session.expiresAt < now {
        return Err(Expired);
      }
      return Ok(BindingOf(id, session));
    }

    method SetSessionPhase(id: Uuid, expected: Phase, next: Phase) returns (r: Result<(), InstallerError>)
      modifies this
      ensures SessionOutcome(sessions, r) == SetPhase(old(sessions), id, expected, next)
    {
      if id !in sessions {
        return Err(Unauthorized);
      }
      if sessions[id].phase != expected {
        return Err(InvalidSessionState);
      }
      sessions := sessions[id := sessions[id].(phase := next)];
      return Ok(());
    }

    method MarkSessionCompleted(id: Uuid) returns (r: Result<(), InstallerError>)
      modifies this
      ensures SessionOutcome(sessions, r) == InstallerSessions.MarkCompleted(old(sessions), id)
    {
      if id !in sessions {
        return Err(Unauthorized);
      }
      sessions := sessions[id := sessions[id].(phase := Completed)];
      return Ok(());
    }

    /** The last region of `discover`: drops expired sessions and the job's older ones, then offers a new one. */
    method OfferSession(id: Uuid, session: Session, now: Time) returns (r: Result<(), InstallerError>)
      requires Valid() && session.phase == Offered && session.lease.None?
      modifies this
      ensures Valid()
      ensures SessionOutcome(sessions, r) == Offer(old(sessions), id, session, now)
      ensures forall k :: k in sessions && k != id ==>
                k in old(sessions) && sessions[k] == old(sessions)[k] && now <= sessions[k].expiresAt
      ensures r.Ok? ==> id in sessions && forall k :: k in sessions && sessions[k].job == session.job ==> k == id
      ensures forall k :: k in old(sessions) && k != id ==>
                (k in sessions <==> now <= old(sessions)[k].expiresAt && old(sessions)[k].job != session.job)
      ensures r.Ok? ==> sessions[id] == session && |sessions| <= 4096
      ensures r.Err? ==> r == Err(SessionCapacity) && |sessions| >= 4096
    {
      sessions := map k | k in sessions && sessions[k].expiresAt >= now :: sessions[k];
      sessions := map k | k in sessions && sessions[k].job != session.job :: sessions[k];
      assert sessions == Retained(old(sessions), session.job, now);
      if |sessions| >= MAX_INSTALLER_SESSIONS {
        return Err(SessionCapacity);
      }
      sessions := sessions[id := session];
      return Ok(());
    }

    /** `perform_initial_guard_authorization`, after the session has been claimed. */
    method PerformInitialGuard(
      b: Binding, request: GuardRequest, prepared: Option<Prepared>, newLease: Uuid, now: Time, persisted: bool)
      returns (r: Result<Authorization, InstallerError>)
      requires Valid() && newLease !in repository.issued
      modifies this, repository
      ensures Valid()
      ensures r.Ok? ==>
                r.value.job in repository.jobs && RenderedFor(r.value.job, request.disks, r.value.path)
      ensures r.Ok? ==>
                forall x :: SameSession(b, x) ==>
                  Granted(old(repository.jobs), x, request, prepared, newLease, now, r.value.job, r.value.path)
      ensures r.Err? && b.session in old(sessions) && old(sessions)[b.session].phase == Authorizing ==>
                sessions == old(sessions) && repository.jobs == old(repository.jobs)
      ensures r.Ok? <==>
                && Grantable(old(repository.jobs), b, request, prepared)
                && HandOff(old(repository.jobs), b, newLease, now, persisted).result.Ok?
                && TakeLease(old(sessions), b.session, newLease, now + INSTALLER_LEASE).result.Ok?
      ensures r.Ok? ==>
                && RenderedFor(BoundJob(old(repository.jobs), b, Waiting).value, request.disks, r.value.path)
                && Outcome(repository.jobs, Ok(r.value.job)) ==
                       HandOff(old(repository.jobs), b, newLease, now, persisted)
                && sessions == TakeLease(old(sessions), b.session, newLease, now + INSTALLER_LEASE).sessions
    {
      if !MediaChecked(prepared, request.imageSha) || prepared.value.artifact != b.image {
        return Err(MediaIntegrity);
      }
      var job := BoundJob(repository.jobs, b, Waiting);
      if job.Err? {
        return Err(job.error);
      }
      var disk := ChooseDisk(job.value, request.disks, prepared.value.minimumDiskBytes);
      if disk.Err? {
        return Err(disk.error);
      }
      SelectedIsObserved(job.value.targets[0], request.disks, disk.value);
      ghost var before := repository.jobs;
      var leased := repository.LeaseInstallerJob(b.job, b.device, b.image, newLease, INSTALLER_LEASE, now, persisted);
      if leased.Err? {
        return Err(Jobs(leased.error));
      }
      forall x | SameSession(b, x)
        ensures Granted(before, x, request, prepared, newLease, now, leased.value, disk.value.path)
      {
        EqualUpToCase(prepared.value.isoSha, request.imageSha);
        QueuedIsHanded(before, b, x, newLease, now, persisted);
      }
      if leased.value.leaseId.None? || leased.value.leaseExpiresAt.None? {
        return Err(InvalidSessionState);
      }
      if b.session !in sessions {
        return Err(Unauthorized);
      }
      if sessions[b.session].phase != Authorizing {
        return Err(InvalidSessionState);
      }
      sessions := sessions[b.session := sessions[b.session].(phase := HandedOff, lease := leased.value.leaseId,
                                                             expiresAt := leased.value.leaseExpiresAt.value)];
      return Ok(Authorization(disk.value.path, leased.value));
    }

    method ReplayGuard(b: Binding, request: GuardRequest, prepared: Option<Prepared>)
      returns (r: Result<Authorization, InstallerError>)
      ensures r.Ok? <==> Replayable(repository.jobs, b, request, prepared)
      ensures r.Ok? ==>
                && BoundJob(repository.jobs, b, Running) == Ok(r.value.job)
                && r.value.job.leaseId == b.lease
                && RenderedFor(r.value.job, request.disks, r.value.path)
      ensures r.Ok? ==>
                forall x :: SameSession(b, x) && b.lease == x.lease ==>
                  Repeated(repository.jobs, x, request, prepared, r.value.job, r.value.path)
    {
      if !MediaChecked(prepared, request.imageSha) {
        return Err(MediaIntegrity);
      }
      var job := BoundJob(repository.jobs, b, Running);
      if job.Err? {
        return Err(job.error);
      }
      if job.value.leaseId != b.lease {
        return Err(InvalidSessionState);
      }
      var disk := ChooseDiskAgain(job.value, request.disks);
      if disk.Err? {
        return Err(disk.error);
      }
      SelectedIsObserved(job.value.targets[0], request.disks, disk.value);
      EqualUpToCase(prepared.value.isoSha, request.imageSha);
      return Ok(Authorization(disk.value.path, job.value));
    }

    /**
     * `authorize_guard` without interruption: a refusal leaves sessions and jobs as they were, even
     * though the session is claimed and given back on the way; an initial authorization hands the
     * session and the waiting job over to one new lease; a repeated one changes nothing.
     */
    method AuthorizeGuard(
      id: Uuid, token: Uuid, request: GuardRequest, prepared: Option<Prepared>, newLease: Uuid, now: Time,
      persisted: bool)
      returns (r: Result<Authorization, InstallerError>)
      requires Valid() && newLease !in repository.issued
      modifies this, repository
      ensures Valid()
      ensures r.Err? ==> sessions == old(sessions) && repository.jobs == old(repository.jobs)
      ensures r.Ok? <==>
                && Plausible(request) && Presented(old(sessions), id, token, now)
                && var x := old(sessions)[id];
                   || (x.phase == Offered && Grants(old(repository.jobs), x, request, prepared) && persisted)
                   || (x.phase in {HandedOff, AwaitingBoot} && Repeats(old(repository.jobs), x, request, prepared))
      ensures r.Ok? && old(sessions)[id].phase == Offered ==>
                && Outcome(repository.jobs, Ok(r.value.job))
                   == HandOff(old(repository.jobs), BindingOf(id, old(sessions)[id]), newLease, now, persisted)
                && sessions == old(sessions)[id := old(sessions)[id].(phase := HandedOff, lease := Some(newLease),
                                                                      expiresAt := now + INSTALLER_LEASE)]
                && RenderedFor(r.value.job, request.disks, r.value.path)
      ensures r.Ok? && old(sessions)[id].phase != Offered ==>
                && sessions == old(sessions) && repository.jobs == old(repository.jobs)
                && old(sessions)[id].phase in {HandedOff, AwaitingBoot}
                && r.value.job.leaseId == old(sessions)[id].lease
                && RenderedFor(r.value.job, request.disks, r.value.path)
      ensures r.Ok? ==> Presented(old(sessions), id, token, now)
      ensures !Plausible(request) ==> r == Err(InvalidRequest)
      ensures Plausible(request) && !(id in old(sessions) && old(sessions)[id].token == token) ==>
                r == Err(Unauthorized)
      ensures r.Ok? && old(sessions)[id].phase == Offered ==>
                && Granted(old(repository.jobs), old(sessions)[id], request, prepared, newLease, now, r.value.job,
                           r.value.path)
                && r.value.job in repository.jobs
      ensures r.Ok? && old(sessions)[id].phase != Offered ==>
                Repeated(old(repository.jobs), old(sessions)[id], request, prepared, r.value.job, r.value.path)
    {
      hide ValidRequest, HandOff, Granted, Repeated, RenderedFor, Grantable, Replayable, Sound, BoundJob, Grants,
           Repeats, Plausible;
      PlausibleIsValid(request);
      if !ValidRequest(request) {
        return Err(InvalidRequest);
      }
      var authenticated := AuthenticateSession(id, token, now);
      if authenticated.Err? {
        return Err(authenticated.error);
      }
      var b := authenticated.value;
      GrantsAreGrantable(repository.jobs, id, sessions[id], request, prepared);
      if Grantable(repository.jobs, b, request, prepared) {
        GrantableIsHanded(repository.jobs, b, request, prepared, newLease, now, persisted);
      }
      if b.phase == Authorizing {
        return Err(AuthorizationInProgress);
      }
      if b.phase == Completed {
        return Err(InvalidSessionState);
      }
      if b.phase in {HandedOff, AwaitingBoot} {
        r := ReplayGuard(b, request, prepared);
        return;
      }
      var claimed := SetSessionPhase(id, Offered, Authorizing);
      assert claimed.Ok?;
      r := PerformInitialGuard(b, request, prepared, newLease, now, persisted);
      if r.Err? {
        var undone := SetSessionPhase(id, Authorizing, Offered);
        assert sessions == old(sessions);
      }
    }

    /** `report_event` without interruption; only the session's own secret gets an event through. */
    method ReportEvent(id: Uuid, token: Uuid, kind: EventKind, calledAt: Time, now: Time, persisted: bool)
      returns (r: Result<Job, InstallerError>)
      requires Valid()
      modifies this, repository
      ensures Valid()
      ensures r.Err? ==> sessions == old(sessions) && repository.jobs == old(repository.jobs)
      ensures var called := EventCall(Service(old(sessions), old(repository.jobs)), id, token,
                Sent(kind, calledAt, now), persisted);
              && (r.Ok? <==> called.Some?)
              && (r.Ok? ==> called == Some(Service(sessions, repository.jobs)))
      ensures r.Ok? ==>
                var x := old(sessions)[id];
                && Outcome(repository.jobs, Ok(r.value))
                   == Reported(old(repository.jobs), BindingOf(id, x), Sent(kind, calledAt, now), persisted)
                && sessions == old(sessions)[id := x.(phase := PhaseAfter(x.phase, kind))]
      ensures r.Ok? ==>
                && Presented(old(sessions), id, token, now) && Held(old(repository.jobs), old(sessions)[id], now)
                && Moved(Lookup(old(repository.jobs), old(sessions)[id].job).value, r.value, kind, calledAt, now)
                && id in sessions
                && sessions[id].phase == (if kind == Fail then Completed
                                          else if kind == AwaitBoot then AwaitingBoot
                                          else old(sessions)[id].phase)
      ensures !(id in old(sessions) && old(sessions)[id].token == token) ==> r == Err(Unauthorized)
    {
      hide CompleteInstaller, ReportInstaller, EventProgress, OnlyChanges, Sound, Lookup;
      var authenticated := AuthenticateSession(id, token, now);
      if authenticated.Err? {
        return Err(authenticated.error);
      }
      var b := authenticated.value;
      if b.phase !in {HandedOff, AwaitingBoot} || b.lease.None? {
        return Err(InvalidSessionState);
      }
      ReportedIsHeld(repository.jobs, id, sessions[id], Sent(kind, calledAt, now), persisted);
      hide Held, Moved;
      if kind == Fail {
        var ended := repository.CompleteInstallerJob(b.job, b.device, b.lease.value, false, now, persisted);
        if ended.Err? {
          return Err(Jobs(ended.error));
        }
        var marked := MarkSessionCompleted(id);
        return Ok(ended.value);
      }
      var (stage, progress) := EventProgress(kind);
      var updated := repository.ReportInstallerProgress(
        b.job, b.device, b.lease.value, calledAt + INSTALLER_LEASE, stage, progress, now, persisted);
      if updated.Err? {
        return Err(Jobs(updated.error));
      }
      if kind == AwaitBoot && b.phase == HandedOff {
        var moved := SetSessionPhase(id, HandedOff, AwaitingBoot);
      }
      assert sessions == old(sessions)[id := old(sessions)[id].(phase := PhaseAfter(old(sessions)[id].phase, kind))];
      return Ok(updated.value);
    }

    /** `complete_first_boot` without interruption; a repeated confirmation is accepted and changes nothing. */
    method CompleteFirstBoot(id: Uuid, token: Uuid, attempt: Uuid, now: Time, persisted: bool)
      returns (r: Result<Option<Job>, InstallerError>)
      requires Valid()
      modifies this, repository
      ensures Valid()
      ensures r.Err? || r.value.None? ==> sessions == old(sessions) && repository.jobs == old(repository.jobs)
      ensures var called := BootCall(Service(old(sessions), old(repository.jobs)), id, token, attempt, now, persisted);
              && (r.Ok? <==> called.Some?)
              && (r.Ok? ==> called == Some(Service(sessions, repository.jobs)))
      ensures r.Ok? ==> (r.value.None? <==> old(sessions)[id].phase == Completed)
      ensures r.Ok? && r.value.Some? ==>
                var b := BindingOf(id, old(sessions)[id]);
                && Outcome(repository.jobs, Ok(r.value.value)) == Confirmed(old(repository.jobs), b, now, persisted)
                && sessions == old(sessions)[id := old(sessions)[id].(phase := Completed)]
      ensures r.Ok? <==>
                && Presented(old(sessions), id, token, now) && old(sessions)[id].attempt == attempt
                && (old(sessions)[id].phase == Completed
                    || (Held(old(repository.jobs), old(sessions)[id], now) && persisted))
      ensures r.Ok? && r.value.Some? ==>
                r.value.value
                == Lookup(old(repository.jobs), old(sessions)[id].job).value.(
                     state := Succeeded, stage := Some(Finalizing), progress := 100, leaseId := None,
                     leaseExpiresAt := None, updatedAt := now)
      ensures !(id in old(sessions) && old(sessions)[id].token == token) ==> r == Err(Unauthorized)
    {
      var authenticated := AuthenticateSession(id, token, now);
      if authenticated.Err? {
        return Err(authenticated.error);
      }
      var b := authenticated.value;
      if b.attempt != attempt {
        return Err(InvalidSessionState);
      }
      if b.phase == Completed {
        return Ok(None);
      }
      if b.phase !in {HandedOff, AwaitingBoot} || b.lease.None? {
        return Err(InvalidSessionState);
      }
      ConfirmedIsHeld(repository.jobs, id, sessions[id], now, persisted);
      hide Held;
      var ended := repository.CompleteInstallerJob(b.job, b.device, b.lease.value, true, now, persisted);
      if ended.Err? {
        return Err(Jobs(ended.error));
      }
      var marked := MarkSessionCompleted(id);
      return Ok(Some(ended.value));
    }
  }
}
