/**
 * Installer sessions and the checks around them, from crates/service/src/installer_deployment.rs.
 *
 * Each function below is one region the source runs under the session lock, or one pure check.
 */
module InstallerSessions {
  import opened Common
  import opened Slices
  import opened TextRules
  import opened DeploymentTypes
  import opened RepositorySpec

  const MINUTE: int := 60_000_000_000
  const OFFER_TTL: int := 120 * MINUTE
  const INSTALLER_LEASE: int := 240 * MINUTE
  const MAX_INSTALLER_SESSIONS: nat := 4096
  const DISK_SIZE_TOLERANCE_BYTES: nat := 0x10_0000

  datatype Phase = Offered | Authorizing | HandedOff | AwaitingBoot | Completed

  /** `token` identifies the secret whose digest the source stores. */
  datatype Session = Session(
    token: Uuid,
    attempt: Uuid,
    device: Uuid,
    job: Uuid,
    image: Uuid,
    expiresAt: Time,
    phase: Phase,
    lease: Option<Uuid>)

  type Sessions = map<Uuid, Session>

  /** What a caller learns about a session at the moment it authenticates. */
  datatype Binding = Binding(
    session: Uuid,
    attempt: Uuid,
    device: Uuid,
    job: Uuid,
    image: Uuid,
    phase: Phase,
    lease: Option<Uuid>)

  datatype InstallerError =
    | InvalidRequest
    | Unauthorized
    | Expired
    | InvalidSessionState
    | AuthorizationInProgress
    | MediaIntegrity
    | TargetDiskMismatch
    | SessionCapacity
    | Configuration
    | Jobs(cause: RepositoryError)

  datatype ObservedDisk = ObservedDisk(path: string, model: string, serial: Option<string>, sizeBytes: U64)

  datatype GuardRequest = GuardRequest(imageSha: string, disks: seq<ObservedDisk>)

  /** A Linux ISO the image library has checked and prepared. */
  datatype Prepared = Prepared(artifact: Uuid, isoSha: string, minimumDiskBytes: U64)

  datatype EventKind = Partition | InstallSystem | ConfigureBoot | Finalize | AwaitBoot | Fail

  /** Sessions that have been given a lease. */
  predicate PastHandoff(phase: Phase) {
    phase in {HandedOff, AwaitingBoot, Completed}
  }

  // ----- the guard request -----

  function Utf8Length(s: string): nat {
    if s == [] then 0
    else
      var u := s[0] as int;
      (if u < 0x80 then 1 else if u < 0x800 then 2 else if u < 0x1_0000 then 3 else 4) + Utf8Length(s[1..])
  }

  predicate ValidText(s: string, limit: nat) {
    Trim(s) != "" && Utf8Length(s) <= limit && forall c :: c in s ==> c != '\r' && c != '\n' && c != '\0'
  }

  predicate NameCharacter(c: char) {
    'a' <= c <= 'z' || 'A' <= c <= 'Z' || '0' <= c <= '9' || c == '.' || c == '_' || c == '-'
  }

  /** The part after `/dev/`. */
  function DeviceName(path: string): Option<string> {
    if "/dev/" <= path then Some(path[5..]) else None
  }

  predicate ValidDisk(d: ObservedDisk) {
    var name := DeviceName(d.path);
    && name.Some?
    && 1 <= |name.value| <= 128
    && name.value != "." && name.value != ".."
    && (forall c :: c in name.value ==> NameCharacter(c))
    && ValidText(d.path, 256)
    && ValidText(d.model, 256)
    && (d.serial.Some? ==> ValidText(d.serial.value, 256))
    && d.sizeBytes > 0
  }

  predicate HexDigit(c: char) {
    '0' <= c <= '9' || 'a' <= c <= 'f' || 'A' <= c <= 'F'
  }

  predicate ValidRequest(r: GuardRequest) {
    && |r.imageSha| == 64 && (forall c :: c in r.imageSha ==> HexDigit(c))
    && 1 <= |r.disks| <= 128
    && (forall d :: d in r.disks ==> ValidDisk(d))
    && forall i, j :: 0 <= i < j < |r.disks| ==> r.disks[i].path != r.disks[j].path
  }

  // ----- choosing the disk -----

  predicate FingerprintMatches(target: DeploymentTarget, serial: string, d: ObservedDisk) {
    && EqIgnoreAsciiCase(Trim(d.model), Trim(target.diskModel))
    && AbsDiff(d.sizeBytes, target.diskSizeBytes) <= DISK_SIZE_TOLERANCE_BYTES
    && d.serial.Some? && EqIgnoreAsciiCase(Trim(d.serial.value), serial)
  }

  function Matching(target: DeploymentTarget, serial: string, disks: seq<ObservedDisk>): seq<ObservedDisk> {
    if disks == [] then []
    else
      (if FingerprintMatches(target, serial, disks[0]) then [disks[0]] else [])
      + Matching(target, serial, disks[1..])
  }

  /** `uniquely_matching_disk`. */
  function UniquelyMatchingDisk(target: DeploymentTarget, disks: seq<ObservedDisk>): Option<ObservedDisk> {
    if target.diskSerial.None? || Trim(target.diskSerial.value) == "" then None
    else
      var found := Matching(target, Trim(target.diskSerial.value), disks);
      if |found| == 1 then Some(found[0]) else None
  }

  predicate OnlyAt(target: DeploymentTarget, serial: string, disks: seq<ObservedDisk>, i: int) {
    && 0 <= i < |disks|
    && forall k :: 0 <= k < |disks| ==> (FingerprintMatches(target, serial, disks[k]) <==> k == i)
  }

  /** Disk `i` is the only one of those observed that carries the target's fingerprint. */
  predicate OnlyMatch(target: DeploymentTarget, disks: seq<ObservedDisk>, i: int) {
    && target.diskSerial.Some? && Trim(target.diskSerial.value) != ""
    && OnlyAt(target, Trim(target.diskSerial.value), disks, i)
  }

  lemma NothingMatches(target: DeploymentTarget, serial: string, disks: seq<ObservedDisk>)
    ensures Matching(target, serial, disks) == []
            <==> forall k :: 0 <= k < |disks| ==> !FingerprintMatches(target, serial, disks[k])
  {
    hide FingerprintMatches;
    if disks != [] {
      NothingMatches(target, serial, disks[1..]);
      assert forall k :: 0 < k < |disks| ==> disks[k] == disks[1..][k - 1];
    }
  }

  lemma OneMatches(target: DeploymentTarget, serial: string, disks: seq<ObservedDisk>, i: int)
    requires OnlyAt(target, serial, disks, i)
    ensures Matching(target, serial, disks) == [disks[i]]
  {
    hide FingerprintMatches;
    var rest := disks[1..];
    assert forall k :: 0 <= k < |rest| ==> rest[k] == disks[k + 1];
    assert FingerprintMatches(target, serial, disks[i]);
    if i == 0 {
      NothingMatches(target, serial, rest);
    } else {
      assert !FingerprintMatches(target, serial, disks[0]);
      OneMatches(target, serial, rest, i - 1);
    }
  }

  lemma MatchIsAt(target: DeploymentTarget, serial: string, disks: seq<ObservedDisk>) returns (i: int)
    requires |Matching(target, serial, disks)| == 1
    ensures OnlyAt(target, serial, disks, i)
  {
    hide FingerprintMatches;
    var rest := disks[1..];
    assert forall k :: 0 < k < |disks| ==> disks[k] == rest[k - 1];
    if FingerprintMatches(target, serial, disks[0]) {
      NothingMatches(target, serial, rest);
      i := 0;
    } else {
      var k := MatchIsAt(target, serial, rest);
      i := k + 1;
    }
  }

  /** The selection succeeds exactly when one observed disk matches, and then it is that disk. */
  lemma SelectionIsTheOnlyMatch(target: DeploymentTarget, disks: seq<ObservedDisk>)
    ensures UniquelyMatchingDisk(target, disks).Some? <==> exists i :: OnlyMatch(target, disks, i)
    ensures forall i :: OnlyMatch(target, disks, i) ==> UniquelyMatchingDisk(target, disks) == Some(disks[i])
  {
    if UniquelyMatchingDisk(target, disks).Some? {
      var i := MatchIsAt(target, Trim(target.diskSerial.value), disks);
      assert OnlyMatch(target, disks, i);
    }
    forall i | OnlyMatch(target, disks, i)
      ensures UniquelyMatchingDisk(target, disks) == Some(disks[i])
    {
      OneMatches(target, Trim(target.diskSerial.value), disks, i);
    }
  }

  /**
   * What it is for an observed disk to carry a target's fingerprint, character by character: the
   * recorded serial number, which must not be blank, the recorded model, and a size at most one MiB off.
   */
  predicate Observed(t: DeploymentTarget, d: ObservedDisk) {
    && t.diskSerial != None && Trim(t.diskSerial.value) != ""
    && d.serial != None && SameText(Trim(d.serial.value), Trim(t.diskSerial.value))
    && SameText(Trim(d.model), Trim(t.diskModel))
    && t.diskSizeBytes - 0x10_0000 <= d.sizeBytes <= t.diskSizeBytes + 0x10_0000
  }

  /** Disk `i` carries it and no other observed disk does. */
  predicate OnlyObserved(t: DeploymentTarget, disks: seq<ObservedDisk>, i: int) {
    0 <= i < |disks| && forall k :: 0 <= k < |disks| ==> (Observed(t, disks[k]) <==> k == i)
  }

  lemma MatchingIsObserving(t: DeploymentTarget, d: ObservedDisk)
    requires t.diskSerial.Some? && Trim(t.diskSerial.value) != ""
    ensures FingerprintMatches(t, Trim(t.diskSerial.value), d) <==> Observed(t, d)
  {
    hide Trim, EqIgnoreAsciiCase, SameText;
    EqualUpToCase(Trim(d.model), Trim(t.diskModel));
    if d.serial.Some? {
      EqualUpToCase(Trim(d.serial.value), Trim(t.diskSerial.value));
    }
  }

  lemma OnlyMatchIsObserved(t: DeploymentTarget, disks: seq<ObservedDisk>, i: int)
    ensures OnlyMatch(t, disks, i) <==> OnlyObserved(t, disks, i)
  {
    hide FingerprintMatches, Observed, Trim;
    if t.diskSerial.Some? && Trim(t.diskSerial.value) != "" {
      forall k | 0 <= k < |disks|
        ensures FingerprintMatches(t, Trim(t.diskSerial.value), disks[k]) <==> Observed(t, disks[k])
      {
        MatchingIsObserving(t, disks[k]);
      }
    } else if 0 <= i < |disks| {
      NotObserved(t, disks[i]);
    }
  }

  lemma NotObserved(t: DeploymentTarget, d: ObservedDisk)
    requires t.diskSerial.None? || Trim(t.diskSerial.value) == ""
    ensures !Observed(t, d)
  {
  }

  /** The selected disk, character by character: the only one observed that carries the fingerprint. */
  lemma SelectedIsObserved(t: DeploymentTarget, disks: seq<ObservedDisk>, d: ObservedDisk)
    ensures UniquelyMatchingDisk(t, disks) == Some(d) <==> exists i :: OnlyObserved(t, disks, i) && disks[i] == d
  {
    hide UniquelyMatchingDisk, OnlyMatch, OnlyObserved;
    SelectionIsTheOnlyMatch(t, disks);
    forall i
      ensures OnlyMatch(t, disks, i) <==> OnlyObserved(t, disks, i)
    {
      OnlyMatchIsObserved(t, disks, i);
    }
    ObservedIsInRange(t, disks);
  }

  lemma SelectionIsTheOnlyObserved(t: DeploymentTarget, disks: seq<ObservedDisk>)
    ensures UniquelyMatchingDisk(t, disks).Some? <==> exists i :: OnlyObserved(t, disks, i)
    ensures forall i :: OnlyObserved(t, disks, i) ==>
              0 <= i < |disks| && UniquelyMatchingDisk(t, disks) == Some(disks[i])
  {
    hide UniquelyMatchingDisk, OnlyMatch, OnlyObserved;
    SelectionIsTheOnlyMatch(t, disks);
    ObservedIsInRange(t, disks);
    forall i
      ensures OnlyMatch(t, disks, i) <==> OnlyObserved(t, disks, i)
    {
      OnlyMatchIsObserved(t, disks, i);
    }
  }

  lemma ObservedIsInRange(t: DeploymentTarget, disks: seq<ObservedDisk>)
    ensures forall i :: OnlyObserved(t, disks, i) ==> 0 <= i < |disks|
  {
  }

  lemma {:induction false} MatchingOfConcat(
    target: DeploymentTarget, serial: string, xs: seq<ObservedDisk>, ys: seq<ObservedDisk>)
    ensures Matching(target, serial, xs + ys) == Matching(target, serial, xs) + Matching(target, serial, ys)
  {
    hide FingerprintMatches;
    if xs == [] {
      assert xs + ys == ys;
    } else {
      assert (xs + ys)[1..] == xs[1..] + ys;
      MatchingOfConcat(target, serial, xs[1..], ys);
    }
  }

  lemma MatchingAround(
    target: DeploymentTarget, serial: string, front: seq<ObservedDisk>, d: ObservedDisk, back: seq<ObservedDisk>)
    ensures multiset(Matching(target, serial, front + [d] + back))
         == multiset(Matching(target, serial, front + back)) + multiset(Matching(target, serial, [d]))
  {
    hide Matching;
    MatchingOfConcat(target, serial, front + [d], back);
    MatchingOfConcat(target, serial, front, [d]);
    MatchingOfConcat(target, serial, front, back);
  }

  lemma {:induction false} MatchingOfPermutation(
    target: DeploymentTarget, serial: string, xs: seq<ObservedDisk>, ys: seq<ObservedDisk>)
    requires multiset(xs) == multiset(ys)
    ensures multiset(Matching(target, serial, xs)) == multiset(Matching(target, serial, ys))
    decreases |xs|
  {
    hide Matching;
    assert |xs| == |multiset(xs)| && |ys| == |multiset(ys)|;
    if xs == [] {
      assert ys == [];
    } else {
      var d := xs[0];
      assert d in multiset(ys);
      var at :| 0 <= at < |ys| && ys[at] == d;
      TakeOut(ys, at);
      TakeOut(xs, 0);
      MatchingOfPermutation(target, serial, xs[..0] + xs[1..], ys[..at] + ys[at + 1..]);
      MatchingAround(target, serial, ys[..at], d, ys[at + 1..]);
      MatchingAround(target, serial, xs[..0], d, xs[1..]);
    }
  }

  /** In whatever order the disks are observed, the same one is selected. */
  lemma SelectionIgnoresOrder(target: DeploymentTarget, xs: seq<ObservedDisk>, ys: seq<ObservedDisk>)
    requires multiset(xs) == multiset(ys)
    ensures UniquelyMatchingDisk(target, xs) == UniquelyMatchingDisk(target, ys)
  {
    hide Matching;
    if target.diskSerial.Some? {
      var serial := Trim(target.diskSerial.value);
      MatchingOfPermutation(target, serial, xs, ys);
      SameSingleton(Matching(target, serial, xs), Matching(target, serial, ys));
    }
  }

  lemma SameSingleton(xs: seq<ObservedDisk>, ys: seq<ObservedDisk>)
    requires multiset(xs) == multiset(ys)
    ensures |xs| == |ys| && (|xs| == 1 ==> xs[0] == ys[0])
  {
    assert |xs| == |multiset(xs)| && |ys| == |multiset(ys)|;
    if |xs| == 1 {
      assert xs[0] in multiset(ys);
    }
  }

  /** The device paths `render_final_autoinstall` accepts. */
  predicate Renderable(path: string) {
    var name := DeviceName(path);
    name.Some? && 1 <= |name.value| <= 128 && forall c :: c in name.value ==> NameCharacter(c)
  }

  lemma ValidDisksRender(r: GuardRequest, target: DeploymentTarget)
    requires ValidRequest(r) && UniquelyMatchingDisk(target, r.disks).Some?
    ensures Renderable(UniquelyMatchingDisk(target, r.disks).value.path)
  {
    SelectionIsTheOnlyMatch(target, r.disks);
    var i :| OnlyMatch(target, r.disks, i);
    assert r.disks[i] in r.disks;
  }

  // ----- session regions -----

  /** A binding learnt from this session, whatever has happened to the session since. */
  predicate SameSession(b: Binding, x: Session) {
    b.attempt == x.attempt && b.device == x.device && b.job == x.job && b.image == x.image
  }

  function BindingOf(id: Uuid, s: Session): Binding {
    Binding(id, s.attempt, s.device, s.job, s.image, s.phase, s.lease)
  }

  function Authenticate(sessions: Sessions, id: Uuid, token: Uuid, now: Time): Result<Binding, InstallerError> {
    if id !in sessions || sessions[id].token != token then Err(Unauthorized)
    else if sessions[id].expiresAt < now then Err(Expired)
    else Ok(BindingOf(id, sessions[id]))
  }

  datatype SessionOutcome = SessionOutcome(sessions: Sessions, result: Result<(), InstallerError>)

  function SetPhase(sessions: Sessions, id: Uuid, expected: Phase, next: Phase): SessionOutcome {
    if id !in sessions then SessionOutcome(sessions, Err(Unauthorized))
    else if sessions[id].phase != expected then SessionOutcome(sessions, Err(InvalidSessionState))
    else SessionOutcome(sessions[id := sessions[id].(phase := next)], Ok(()))
  }

  function MarkCompleted(sessions: Sessions, id: Uuid): SessionOutcome {
    if id !in sessions then SessionOutcome(sessions, Err(Unauthorized))
    else SessionOutcome(sessions[id := sessions[id].(phase := Completed)], Ok(()))
  }

  /** The last region of the guard: the session takes the lease it was authorized under. */
  function TakeLease(sessions: Sessions, id: Uuid, lease: Uuid, expiresAt: Time): SessionOutcome {
    if id !in sessions then SessionOutcome(sessions, Err(Unauthorized))
    else if sessions[id].phase != Authorizing then SessionOutcome(sessions, Err(InvalidSessionState))
    else
      var handed := sessions[id].(phase := HandedOff, lease := Some(lease), expiresAt := expiresAt);
      SessionOutcome(sessions[id := handed], Ok(()))
  }

  /** Sessions that survive a new offer for `job`: unexpired, and for other jobs. */
  function Retained(sessions: Sessions, job: Uuid, now: Time): Sessions {
    map id | id in sessions && sessions[id].expiresAt >= now && sessions[id].job != job :: sessions[id]
  }

  function Offer(sessions: Sessions, id: Uuid, session: Session, now: Time): SessionOutcome {
    var kept := Retained(sessions, session.job, now);
    if |kept| >= MAX_INSTALLER_SESSIONS then SessionOutcome(kept, Err(SessionCapacity))
    else SessionOutcome(kept[id := session], Ok(()))
  }

  // ----- reading the job -----

  /** `require_bound_job`. */
  function BoundJob(jobs: seq<Job>, b: Binding, state: JobState): Result<Job, InstallerError> {
    var job := Lookup(jobs, b.job);
    if job.None? then Err(InvalidSessionState)
    else if job.value.operation != InstallLinux || job.value.imageId != b.image || job.value.state != state
            || !TargetsOnly(job.value, b.device)
    then Err(InvalidSessionState)
    else Ok(job.value)
  }

  /** The checks between reading a waiting job and leasing it: the disk to install on. */
  function ChooseDisk(job: Job, disks: seq<ObservedDisk>, minimumBytes: U64): Result<ObservedDisk, InstallerError> {
    if job.targets == [] then Err(InvalidSessionState)
    else
      var disk := UniquelyMatchingDisk(job.targets[0], disks);
      if disk.None? || disk.value.sizeBytes < minimumBytes then Err(TargetDiskMismatch)
      else if job.options.linuxInstall.None? || !job.options.linuxInstall.value.wellFormed then Err(Configuration)
      else if !Renderable(disk.value.path) then Err(Configuration)
      else Ok(disk.value)
  }

  /** The same choice when a configuration is handed out again; neither size nor options are rechecked. */
  function ChooseDiskAgain(job: Job, disks: seq<ObservedDisk>): Result<ObservedDisk, InstallerError> {
    if job.targets == [] then Err(InvalidSessionState)
    else
      var disk := UniquelyMatchingDisk(job.targets[0], disks);
      if disk.None? then Err(TargetDiskMismatch)
      else if job.options.linuxInstall.None? || !Renderable(disk.value.path) then Err(Configuration)
      else Ok(disk.value)
  }

  function MediaChecked(prepared: Option<Prepared>, sha: string): bool {
    prepared.Some? && EqIgnoreAsciiCase(prepared.value.isoSha, sha)
  }

  /** `installer_event_progress`. */
  function EventProgress(kind: EventKind): (DeploymentStage, nat) {
    match kind
    case Partition => (Partitioning, 10)
    case InstallSystem => (InstallingSystem, 45)
    case ConfigureBoot => (ConfiguringBoot, 75)
    case Finalize => (Finalizing, 90)
    case AwaitBoot => (AwaitingFirstBoot, 99)
    case Fail => (Finalizing, 99)
  }

  // ----- a sequence of events -----

  function Percent(kind: EventKind): nat {
    EventProgress(kind).1
  }

  /** The job runs for this device under this lease, and its stage and percentage rank every event alike. */
  predicate Reporting(job: Job, device: Uuid, lease: Uuid) {
    && job.operation == InstallLinux && TargetsOnly(job, device) && job.state == Running
    && job.leaseId == Some(lease) && job.leaseExpiresAt.Some?
    && forall kind: EventKind :: kind != Fail ==>
         (RankOf(job.stage) <= StageRank(EventProgress(kind).0) <==> job.progress <= Percent(kind))
  }

  /** A job that was just handed over is ready to report. */
  lemma HandedOverReports(job: Job, device: Uuid, image: Uuid, lease: Uuid, duration: int, now: Time)
    requires EditInstallerLease(job, device, image, lease, duration, now).Ok?
    ensures var b := EditInstallerLease(job, device, image, lease, duration, now).value;
            Reporting(b, device, lease) && b.progress == 1 && b.leaseExpiresAt == Some(now + duration)
  {
  }

  /** An event: when the call was made, and when the repository handled it. */
  datatype Sent = Sent(kind: EventKind, calledAt: Time, now: Time)

  function Report(jobs: seq<Job>, id: Uuid, device: Uuid, lease: Uuid, e: Sent): Outcome<Job> {
    var until := e.calledAt + INSTALLER_LEASE;
    ReportInstaller(jobs, id, device, lease, until, EventProgress(e.kind).0, Percent(e.kind), e.now, true)
  }

  function EditReport(job: Job, device: Uuid, lease: Uuid, e: Sent): Edited {
    var until := e.calledAt + INSTALLER_LEASE;
    EditInstallerProgress(job, device, lease, until, EventProgress(e.kind).0, Percent(e.kind), e.now)
  }

  /** The rank of an event's stage never decides otherwise than its percentage. */
  lemma EventsRankAlike(kind: EventKind)
    requires kind != Fail
    ensures Percent(kind) <= 99
    ensures forall other: EventKind :: other != Fail ==>
              (StageRank(EventProgress(kind).0) <= StageRank(EventProgress(other).0) <==>
                  Percent(kind) <= Percent(other))
  {
  }

  lemma EditIsAccepted(job: Job, device: Uuid, lease: Uuid, e: Sent)
    requires Reporting(job, device, lease) && e.kind != Fail
    ensures var r := EditReport(job, device, lease, e);
            && (r.Ok? <==> e.now <= job.leaseExpiresAt.value && job.progress <= Percent(e.kind))
            && (r.Ok? ==>
                  && r.value.id == job.id && Reporting(r.value, device, lease) && r.value.progress == Percent(e.kind)
                  && r.value.leaseExpiresAt == Some(Max(job.leaseExpiresAt.value, e.calledAt + INSTALLER_LEASE)))
  {
    EventsRankAlike(e.kind);
    hide EventProgress, StageRank, Percent;
  }

  /**
   * A report is accepted exactly when the lease is still held and the event's percentage is not
   * below the job's. Afterwards the job is at that event.
   */
  lemma ReportIsAccepted(jobs: seq<Job>, id: Uuid, device: Uuid, lease: Uuid, e: Sent)
    requires Lookup(jobs, id).Some? && Reporting(Lookup(jobs, id).value, device, lease) && e.kind != Fail
    ensures var a, r := Lookup(jobs, id).value, Report(jobs, id, device, lease, e);
            && (r.result.Ok? <==> e.now <= a.leaseExpiresAt.value && a.progress <= Percent(e.kind))
            && (r.result.Ok? ==>
                  var b := r.result.value;
                  && Lookup(r.jobs, id) == Some(b) && Reporting(b, device, lease) && b.progress == Percent(e.kind)
                  && b.leaseExpiresAt == Some(Max(a.leaseExpiresAt.value, e.calledAt + INSTALLER_LEASE)))
  {
    var i := IndexOf(jobs, id).value;
    EventsRankAlike(e.kind);
    EditIsAccepted(jobs[i], device, lease, e);
    hide EditInstallerProgress, Reporting, EventProgress, Percent, IndexOf;
    var r := Report(jobs, id, device, lease, e);
    if r.result.Ok? {
      IndexStays(jobs, i, r.result.value);
    }
  }

  /** The jobs after all events have been reported, unless one of the reports was refused. */
  function AfterReports(jobs: seq<Job>, id: Uuid, device: Uuid, lease: Uuid, events: seq<Sent>): Option<seq<Job>>
    decreases |events|
  {
    if events == [] then Some(jobs)
    else
      var r := Report(jobs, id, device, lease, events[0]);
      if r.result.Err? then None else AfterReports(r.jobs, id, device, lease, events[1..])
  }

  /** Every event comes before the lease, which each of them renews, has run out. */
  predicate InTime(events: seq<Sent>, expiry: Time) {
    events != [] ==>
      events[0].now <= expiry && InTime(events[1..], Max(expiry, events[0].calledAt + INSTALLER_LEASE))
  }

  /** The events come in the order an installation proceeds, repetitions allowed. */
  predicate InOrder(events: seq<Sent>) {
    forall i, j :: 0 <= i < j < |events| ==> Percent(events[i].kind) <= Percent(events[j].kind)
  }

  /**
   * The repository accepts a sequence of reports to its end exactly when every one arrives under the
   * lease, which the earlier ones have renewed, and they come in the order of an installation. Whether
   * the calls that make the reports get so far is another matter; see `InstallerCalls`.
   */
  lemma {:induction false} ReportsInOrderAreAccepted(
    jobs: seq<Job>, id: Uuid, device: Uuid, lease: Uuid, events: seq<Sent>)
    requires Lookup(jobs, id).Some? && Reporting(Lookup(jobs, id).value, device, lease)
    requires forall e :: e in events ==> e.kind != Fail
    ensures AfterReports(jobs, id, device, lease, events).Some?
            <==> InTime(events, Lookup(jobs, id).value.leaseExpiresAt.value) && InOrder(events)
                 && (events != [] ==> Lookup(jobs, id).value.progress <= Percent(events[0].kind))
    decreases |events|
  {
    if events != [] {
      hide Report, Reporting, Percent, Lookup;
      assert events[0] in events;
      ReportIsAccepted(jobs, id, device, lease, events[0]);
      OrderOfFirst(events);
      var r := Report(jobs, id, device, lease, events[0]);
      if r.result.Ok? {
        ReportsInOrderAreAccepted(r.jobs, id, device, lease, events[1..]);
      }
    }
  }

  lemma OrderOfFirst(events: seq<Sent>)
    requires events != []
    ensures InOrder(events)
            <==> InOrder(events[1..]) && (|events| > 1 ==> Percent(events[0].kind) <= Percent(events[1].kind))
  {
    hide Percent;
    var rest := events[1..];
    assert forall i :: 0 < i < |events| ==> events[i] == rest[i - 1];
    if InOrder(rest) && |events| > 1 && Percent(events[0].kind) <= Percent(events[1].kind) {
      forall i, j | 0 <= i < j < |events|
        ensures Percent(events[i].kind) <= Percent(events[j].kind)
      {
        assert events[j] == rest[j - 1] && events[1] == rest[0];
        assert j > 1 ==> Percent(rest[0].kind) <= Percent(rest[j - 1].kind);
        if i > 0 {
          assert events[i] == rest[i - 1];
        }
      }
    }
    if InOrder(events) {
      forall i, j | 0 <= i < j < |rest|
        ensures Percent(rest[i].kind) <= Percent(rest[j].kind)
      {
        assert rest[i] == events[i + 1] && rest[j] == events[j + 1];
      }
    }
  }
}
