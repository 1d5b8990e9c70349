/**
 * A run, for any installation that could be carried out, in which an operator fails the job after it was
 * leased and its destructive configuration is released all the same.
 */
module InstallerWitness {
  import opened Common
  import opened DeploymentTypes
  import opened RepositorySpec
  import opened InstallerSessions
  import opened InstallerProtocol
  import opened InstallerSafety
  import opened InstallerReleases
  import opened TextRules
  import PartitionPlans
  import Runs = RepositoryRuns

  /** A request, what the installer sends to the guard, and the media the service has prepared. */
  datatype Case = Case(request: CreateRequest, guard: GuardRequest, prepared: Prepared)

  predicate Installable(c: Case) {
    && CheckRequest(c.request).None? && c.request.operation == InstallLinux && |c.request.targets| == 1
    && ValidRequest(c.guard)
    && MediaChecked(Some(c.prepared), c.guard.imageSha) && c.prepared.artifact == c.request.imageId
    && ChooseDisk(Queued(c), c.guard.disks, c.prepared.minimumDiskBytes).Ok?
  }

  // ----- the ids of the run, in the order they are issued -----

  const JOB: Uuid := 0
  const SESSION: Uuid := 2
  const TOKEN: Uuid := 7
  const LEASE: Uuid := 6

  function Queued(c: Case): Job {
    NewJob(c.request, Waiting, JOB, 0)
  }

  function Device(c: Case): Uuid
    requires |c.request.targets| == 1
  {
    c.request.targets[0].deviceId
  }

  function Booting(c: Case): Job {
    Queued(c).(stage := Some(BootingInstaller), updatedAt := 0)
  }

  function UnderLease(c: Case): Job {
    Booting(c).(state := Running, stage := Some(ValidatingTarget), progress := 1,
                leaseId := Some(LEASE), leaseExpiresAt := Some(0 + INSTALLER_LEASE), updatedAt := 0)
  }

  function Stopped(c: Case): Job {
    UnderLease(c).(state := Failed, updatedAt := 0)
  }

  function OfferedSession(c: Case): Session
    requires |c.request.targets| == 1
  {
    Session(TOKEN, 0, Device(c), JOB, c.request.imageId, 0 + OFFER_TTL, Offered, None)
  }

  function GuardBinding(c: Case): Binding
    requires |c.request.targets| == 1
  {
    Binding(SESSION, 0, Device(c), JOB, c.request.imageId, Offered, None)
  }

  function ChosenDisk(c: Case): ObservedDisk
    requires Installable(c)
  {
    ChooseDisk(Queued(c), c.guard.disks, c.prepared.minimumDiskBytes).value
  }

  function EnvOf(id: Uuid, prepared: Option<Prepared>): Env {
    Env(prepared, id, 0, TOKEN, 0, true)
  }

  function TickAt(c: Case, k: nat): Tick
    requires Installable(c) && k < 11
  {
    var move :=
      if k == 0 then Operate(Runs.DoInsert(c.request, Waiting, JOB), true)
      else if k == 1 then StartDiscover(Device(c), true)
      else if k == 2 then Advance(EnvOf(1, None))
      else if k == 3 then Advance(EnvOf(SESSION, None))
      else if k == 4 then StartGuard(SESSION, TOKEN, c.guard)
      else if k == 5 then Advance(EnvOf(3, None))
      else if k == 6 then Advance(EnvOf(4, Some(c.prepared)))
      else if k == 7 then Advance(EnvOf(5, None))
      else if k == 8 then Advance(EnvOf(LEASE, None))
      else if k == 9 then Operate(Runs.DoTransition(JOB, Failed), true)
      else Advance(EnvOf(8, None));
    Tick(0, move, 0)
  }

  function JobsAt(c: Case, k: nat): seq<Job> {
    if k == 0 then []
    else if k <= 2 then [Queued(c)]
    else if k <= 8 then [Booting(c)]
    else if k == 9 then [UnderLease(c)]
    else [Stopped(c)]
  }

  function IssuedAt(k: nat): set<Uuid> {
    (if k >= 1 then {JOB} else {}) + (if k >= 3 then {1} else {}) + (if k >= 4 then {SESSION} else {})
    + (if k >= 6 then {3} else {}) + (if k >= 7 then {4} else {}) + (if k >= 8 then {5} else {})
    + (if k >= 9 then {LEASE} else {}) + (if k >= 11 then {8} else {})
  }

  function SessionsAt(c: Case, k: nat): Sessions
    requires |c.request.targets| == 1
  {
    if k <= 3 then map[]
    else if k <= 5 then map[SESSION := OfferedSession(c)]
    else if k <= 10 then map[SESSION := OfferedSession(c).(phase := Authorizing)]
    else map[SESSION := OfferedSession(c).(phase := HandedOff, lease := Some(LEASE), expiresAt := 0 + INSTALLER_LEASE)]
  }

  function ThreadAt(c: Case, k: nat): Option<Program>
    requires Installable(c)
  {
    var target := c.request.targets[0];
    if k == 2 then Some(DiscoverMark(Device(c), Queued(c)))
    else if k == 3 then Some(DiscoverOffer(Device(c), Queued(c)))
    else if k == 5 then Some(GuardClaim(GuardBinding(c), c.guard))
    else if k == 6 then Some(GuardPrepare(GuardBinding(c), c.guard))
    else if k == 7 then Some(GuardRead(GuardBinding(c), c.guard, c.prepared))
    else if k == 8 then Some(GuardLease(GuardBinding(c), c.guard, target, ChosenDisk(c)))
    else if k == 9 || k == 10 then
      Some(GuardCommit(GuardBinding(c), c.guard, target, ChosenDisk(c), LEASE, 0 + INSTALLER_LEASE))
    else None
  }

  function TraceAt(c: Case, k: nat): seq<Event>
    requires Installable(c)
  {
    var target := c.request.targets[0];
    if k <= 8 then []
    else if k <= 10 then [Leased(JOB, LEASE, target)]
    else [Leased(JOB, LEASE, target), Released(SESSION, JOB, LEASE, target, c.guard.disks, ChosenDisk(c).path)]
  }

  function StateAt(c: Case, k: nat): System
    requires Installable(c) && k < 12
  {
    System(JobsAt(c, k), IssuedAt(k), SessionsAt(c, k),
           if ThreadAt(c, k).Some? then map[0 := ThreadAt(c, k).value] else map[], 0, TraceAt(c, k))
  }

  // ----- its steps -----

  /** One thread's region, in terms of what the region itself computes. */
  lemma Advances(s: System, tick: Tick, jobs: seq<Job>, sessions: Sessions)
    requires tick.move.Advance? && tick.t in s.threads && JobsAfter(s, tick) == (jobs, true)
    requires SessionsAfter(s.sessions, s.threads[tick.t], tick.move.env, tick.now) == SessionOutcome(sessions, Ok(()))
    ensures var p, env := s.threads[tick.t], tick.move.env;
            Next(s, tick) == System(jobs, s.issued + {env.freshId}, sessions,
                                    WithThread(s.threads, tick.t, Continued(s, p, env, tick.now, true)), tick.now,
                                    s.trace + Given(s, p, env, true))
  {
    hide JobsAfter, SessionsAfter, Continued, Given, WithThread;
  }

  lemma LeaseGoesOn(s: System, p: Program, env: Env, now: Time)
    requires p.GuardLease?
    ensures Continued(s, p, env, now, true)
            == Some(GuardCommit(p.b, p.request, p.target, p.disk, env.freshId, now + INSTALLER_LEASE))
    ensures Given(s, p, env, true) == [Leased(p.b.job, env.freshId, p.target)]
    ensures SessionsAfter(s.sessions, p, env, now) == SessionOutcome(s.sessions, Ok(()))
    ensures var lease := Runs.DoLeaseInstaller(p.b.job, p.b.device, p.b.image, env.freshId, INSTALLER_LEASE);
            ThreadJobStep(p, env, now) == Some(Runs.Step(lease, now, env.persisted))
  {
  }

  lemma CommitGoesOn(s: System, p: Program, env: Env, now: Time)
    requires p.GuardCommit?
    ensures Continued(s, p, env, now, true) == None && ThreadJobStep(p, env, now) == None
    ensures Given(s, p, env, true) == [Released(p.b.session, p.b.job, p.held, p.target, p.request.disks, p.disk.path)]
    ensures SessionsAfter(s.sessions, p, env, now) == TakeLease(s.sessions, p.b.session, p.held, p.expiresAt)
  {
  }

  lemma StepInserts(c: Case)
    requires Installable(c)
    ensures Enabled(StateAt(c, 0), TickAt(c, 0)) && Next(StateAt(c, 0), TickAt(c, 0)) == StateAt(c, 1)
  {
    hide CheckRequest, ValidRequest, ChooseDisk;
  }

  lemma StepDiscovers(c: Case)
    requires Installable(c)
    ensures Enabled(StateAt(c, 1), TickAt(c, 1)) && Next(StateAt(c, 1), TickAt(c, 1)) == StateAt(c, 2)
  {
    hide CheckRequest, ValidRequest, ChooseDisk;
    var jobs := StateAt(c, 1).jobs;
    assert jobs[1..] == [];
    assert ActiveInstallers(jobs, Device(c)) == [Queued(c)];
  }

  lemma StepMarks(c: Case)
    requires Installable(c)
    ensures Enabled(StateAt(c, 2), TickAt(c, 2)) && Next(StateAt(c, 2), TickAt(c, 2)) == StateAt(c, 3)
  {
    hide CheckRequest, ValidRequest, ChooseDisk;
  }

  lemma StepOffers(c: Case)
    requires Installable(c)
    ensures Enabled(StateAt(c, 3), TickAt(c, 3)) && Next(StateAt(c, 3), TickAt(c, 3)) == StateAt(c, 4)
  {
    FirstOffer(c);
    QueuedIs(c);
    AroundOffer(c);
    hide Installable, StateAt, TickAt, Offer, Queued, Started, IsRetry, Runs.Perform, MediaChecked, BoundJob;
    assert NewSession(Device(c), Queued(c), EnvOf(SESSION, None), 0) == OfferedSession(c);
  }

  /** The step that offers the session, and the states around it. */
  lemma AroundOffer(c: Case)
    requires Installable(c)
    ensures TickAt(c, 3) == Tick(0, Advance(EnvOf(SESSION, None)), 0)
    ensures StateAt(c, 3) == System([Booting(c)], {JOB, 1}, map[], map[0 := DiscoverOffer(Device(c), Queued(c))], 0, [])
    ensures StateAt(c, 4) == System([Booting(c)], {JOB, 1} + {SESSION}, map[SESSION := OfferedSession(c)], map[], 0, [])
  {
    hide Installable, Queued, Booting, OfferedSession, GuardBinding, ChosenDisk;
  }

  lemma QueuedIs(c: Case)
    ensures Queued(c).id == JOB && Queued(c).imageId == c.request.imageId
  {
  }

  lemma FirstOffer(c: Case)
    requires Installable(c)
    ensures Offer(map[], SESSION, OfferedSession(c), 0) == SessionOutcome(map[SESSION := OfferedSession(c)], Ok(()))
  {
    hide Installable;
    assert Retained(map[], JOB, 0) == map[];
  }

  lemma StepAuthenticates(c: Case)
    requires Installable(c)
    ensures Enabled(StateAt(c, 4), TickAt(c, 4)) && Next(StateAt(c, 4), TickAt(c, 4)) == StateAt(c, 5)
  {
    hide CheckRequest, ValidRequest, ChooseDisk;
  }

  lemma StepClaims(c: Case)
    requires Installable(c)
    ensures Enabled(StateAt(c, 5), TickAt(c, 5)) && Next(StateAt(c, 5), TickAt(c, 5)) == StateAt(c, 6)
  {
    hide CheckRequest, ValidRequest, ChooseDisk;
  }

  lemma StepPrepares(c: Case)
    requires Installable(c)
    ensures Enabled(StateAt(c, 6), TickAt(c, 6)) && Next(StateAt(c, 6), TickAt(c, 6)) == StateAt(c, 7)
  {
    hide CheckRequest, ValidRequest, ChooseDisk;
  }

  lemma StepReads(c: Case)
    requires Installable(c)
    ensures Enabled(StateAt(c, 7), TickAt(c, 7)) && Next(StateAt(c, 7), TickAt(c, 7)) == StateAt(c, 8)
  {
    hide CheckRequest, ValidRequest, UniquelyMatchingDisk, Renderable;
  }

  lemma AroundLease(c: Case)
    requires Installable(c)
    ensures TickAt(c, 8) == Tick(0, Advance(EnvOf(LEASE, None)), 0)
    ensures var b, target, disk := GuardBinding(c), c.request.targets[0], ChosenDisk(c);
            var claimed := map[SESSION := OfferedSession(c).(phase := Authorizing)];
            var issued := {JOB, 1, SESSION, 3, 4, 5};
            && StateAt(c, 8)
               == System([Booting(c)], issued, claimed, map[0 := GuardLease(b, c.guard, target, disk)], 0, [])
            && StateAt(c, 9) == System([UnderLease(c)], issued + {LEASE}, claimed,
                                       map[0 := GuardCommit(b, c.guard, target, disk, LEASE, 0 + INSTALLER_LEASE)], 0,
                                       [Leased(JOB, LEASE, target)])
  {
    hide Queued, Booting, UnderLease, OfferedSession, GuardBinding, ChosenDisk, CheckRequest, ValidRequest, ChooseDisk;
  }

  lemma PerformsLease(jobs: seq<Job>, id: Uuid, device: Uuid, image: Uuid, lease: Uuid, now: Time)
    ensures var o := LeaseInstaller(jobs, id, device, image, lease, INSTALLER_LEASE, now, true);
            Runs.Perform(jobs, Runs.Step(Runs.DoLeaseInstaller(id, device, image, lease, INSTALLER_LEASE), now, true))
            == (o.jobs, o.result.Ok?)
  {
    hide LeaseInstaller;
  }

  lemma JobIsLeased(c: Case)
    requires Installable(c)
    ensures LeaseInstaller([Booting(c)], JOB, Device(c), c.request.imageId, LEASE, INSTALLER_LEASE, 0, true)
            == Outcome([UnderLease(c)], Ok(UnderLease(c)))
  {
    hide CheckRequest, ValidRequest, ChooseDisk;
  }

  lemma JobsAfterLease(c: Case)
    requires Installable(c)
    ensures JobsAfter(StateAt(c, 8), TickAt(c, 8)) == ([UnderLease(c)], true)
  {
    AroundLease(c);
    JobIsLeased(c);
    PerformsLease([Booting(c)], JOB, Device(c), c.request.imageId, LEASE, 0);
    LeaseGoesOn(StateAt(c, 8), StateAt(c, 8).threads[0], TickAt(c, 8).move.env, 0);
    hide Installable, StateAt, TickAt, Booting, UnderLease, OfferedSession, ChosenDisk, LeaseInstaller, Runs.Perform,
         ThreadJobStep;
  }

  lemma StepLeases(c: Case)
    requires Installable(c)
    ensures Enabled(StateAt(c, 8), TickAt(c, 8)) && Next(StateAt(c, 8), TickAt(c, 8)) == StateAt(c, 9)
  {
    AroundLease(c);
    JobsAfterLease(c);
    var s, tick := StateAt(c, 8), TickAt(c, 8);
    hide Installable, StateAt, TickAt, Booting, UnderLease, OfferedSession, ChosenDisk, Next, Continued, Given,
         SessionsAfter, JobsAfter, GuardBinding, Runs.Perform, Runs.Enabled, Started, IsRetry, ThreadJobStep, JobStepOf,
         LeaseInstaller, ForOperators;
    LeaseGoesOn(s, s.threads[0], tick.move.env, 0);
    Advances(s, tick, [UnderLease(c)], s.sessions);
  }

  lemma AroundFailure(c: Case)
    requires Installable(c)
    ensures TickAt(c, 9) == Tick(0, Operate(Runs.DoTransition(JOB, Failed), true), 0)
    ensures StateAt(c, 9).jobs == [UnderLease(c)] && StateAt(c, 9).clock == 0
    ensures StateAt(c, 10) == StateAt(c, 9).(jobs := [Stopped(c)])
  {
    hide Queued, Booting, UnderLease, Stopped, OfferedSession, GuardBinding, ChosenDisk, CheckRequest, ValidRequest,
         ChooseDisk;
  }

  lemma JobIsFailed(c: Case)
    requires Installable(c)
    ensures Transition([UnderLease(c)], JOB, Failed, 0, true) == Outcome([Stopped(c)], Ok(Stopped(c)))
    ensures Lookup([UnderLease(c)], JOB) == Some(UnderLease(c)) && UnderLease(c).state == Running
    ensures Lookup([Stopped(c)], JOB) == Some(Stopped(c)) && Stopped(c).state == Failed
  {
    hide CheckRequest, ValidRequest, ChooseDisk;
  }

  lemma StepFails(c: Case)
    requires Installable(c)
    ensures Enabled(StateAt(c, 9), TickAt(c, 9)) && Next(StateAt(c, 9), TickAt(c, 9)) == StateAt(c, 10)
    ensures FailsJob(StateAt(c, 9), TickAt(c, 9), JOB)
  {
    AroundFailure(c);
    JobIsFailed(c);
    hide Installable, StateAt, TickAt, UnderLease, Stopped, Transition, Lookup, Started, Given, Continued,
         SessionsAfter, ThreadJobStep;
  }

  lemma AroundRelease(c: Case)
    requires Installable(c)
    ensures TickAt(c, 10) == Tick(0, Advance(EnvOf(8, None)), 0)
    ensures var b, target, disk := GuardBinding(c), c.request.targets[0], ChosenDisk(c);
            var issued := {JOB, 1, SESSION, 3, 4, 5, LEASE};
            var leased := [Leased(JOB, LEASE, target)];
            var released := Released(SESSION, JOB, LEASE, target, c.guard.disks, disk.path);
            && StateAt(c, 10) == System([Stopped(c)], issued, map[SESSION := OfferedSession(c).(phase := Authorizing)],
                                        map[0 := GuardCommit(b, c.guard, target, disk, LEASE, 0 + INSTALLER_LEASE)],
                                        0, leased)
            && StateAt(c, 11) == System([Stopped(c)], issued + {8}, SessionsAt(c, 11), map[], 0, leased + [released])
  {
    hide Queued, Booting, UnderLease, Stopped, OfferedSession, GuardBinding, ChosenDisk, CheckRequest, ValidRequest,
         ChooseDisk;
  }

  lemma StepReleases(c: Case)
    requires Installable(c)
    ensures Enabled(StateAt(c, 10), TickAt(c, 10)) && Next(StateAt(c, 10), TickAt(c, 10)) == StateAt(c, 11)
  {
    AroundRelease(c);
    LeaseIsTaken(c);
    var s, tick := StateAt(c, 10), TickAt(c, 10);
    hide Installable, StateAt, TickAt, Stopped, ChosenDisk, Next, Continued, Given, SessionsAfter, ThreadJobStep,
         TakeLease, OfferedSession, SessionsAt, GuardBinding, Runs.Perform, Runs.Enabled, Started, IsRetry,
         ForOperators;
    CommitGoesOn(s, s.threads[0], tick.move.env, 0);
    assert JobsAfter(s, tick) == ([Stopped(c)], true);
    Advances(s, tick, [Stopped(c)], SessionsAt(c, 11));
  }

  lemma LeaseIsTaken(c: Case)
    requires Installable(c)
    ensures var claimed := map[SESSION := OfferedSession(c).(phase := Authorizing)];
            TakeLease(claimed, SESSION, LEASE, 0 + INSTALLER_LEASE) == SessionOutcome(SessionsAt(c, 11), Ok(()))
  {
    hide Installable;
  }

  lemma StepsFollow(c: Case, k: nat)
    requires Installable(c) && k < 11
    ensures Enabled(StateAt(c, k), TickAt(c, k)) && Next(StateAt(c, k), TickAt(c, k)) == StateAt(c, k + 1)
  {
    hide Enabled, Next, StateAt, TickAt, Installable;
    match k
    case 0 => StepInserts(c);
    case 1 => StepDiscovers(c);
    case 2 => StepMarks(c);
    case 3 => StepOffers(c);
    case 4 => StepAuthenticates(c);
    case 5 => StepClaims(c);
    case 6 => StepPrepares(c);
    case 7 => StepReads(c);
    case 8 => StepLeases(c);
    case 9 => StepFails(c);
    case _ => StepReleases(c);
  }

  /**
   * For any installation that could be carried out there is a run in which an operator's failure of the
   * job is accepted between its lease and its release: the configuration is released, and the job has failed.
   */
  lemma FailedJobIsReleased(c: Case) returns (states: seq<System>, ticks: seq<Tick>, e: Event)
    requires Installable(c)
    ensures ReleasesAt(states, ticks, 10, e) && FailsJob(states[9], ticks[9], e.job)
    ensures Lookup(states[11].jobs, e.job).Some? && Lookup(states[11].jobs, e.job).value.state == Failed
  {
    hide Installable, Enabled, Next, StateAt, TickAt, Lookup, FailsJob;
    states := seq(12, k requires 0 <= k < 12 => StateAt(c, k));
    ticks := seq(11, k requires 0 <= k < 11 => TickAt(c, k));
    e := ReleaseOf(c);
    FailedRunEnds(c);
    StepFails(c);
    forall k | 0 <= k < 11
      ensures Enabled(states[k], ticks[k]) && states[k + 1] == Next(states[k], ticks[k])
    {
      StepsFollow(c, k);
    }
  }

  function ReleaseOf(c: Case): (e: Event)
    requires Installable(c)
    ensures e.Released? && e.job == JOB
  {
    Released(SESSION, JOB, LEASE, c.request.targets[0], c.guard.disks, ChosenDisk(c).path)
  }

  lemma FailedRunEnds(c: Case)
    requires Installable(c)
    ensures StateAt(c, 11).trace == StateAt(c, 10).trace + [ReleaseOf(c)]
    ensures StateAt(c, 0) == System([], {}, map[], map[], 0, [])
    ensures Lookup(StateAt(c, 11).jobs, JOB) == Some(Stopped(c)) && Stopped(c).state == Failed
  {
    JobIsFailed(c);
    AroundRelease(c);
    hide CheckRequest, ValidRequest, ChooseDisk, Lookup;
  }

  // ----- one such installation -----

  /** A plan is not looked at for an installer job. */
  const NO_PLAN: PartitionPlans.PartitionPlan := PartitionPlans.PartitionPlan(PartitionPlans.Gpt, [])

  function Digits(): (s: string)
    ensures |s| == 64 && forall c :: c in s ==> c == '0'
  {
    seq(64, _ => '0')
  }

  const SIZE: U64 := 0x1000_0000

  const TARGET: DeploymentTarget := DeploymentTarget(1, "d", "m", Some("n"), SIZE)

  const DISK: ObservedDisk := ObservedDisk("/dev/a", "m", Some("n"), SIZE)

  function OneCase(): Case {
    Case(CreateRequest("job", InstallLinux, 2, [TARGET],
        DeploymentOptions(1, NO_PLAN, Some(LinuxInstallOptions(true, "h")))),
         GuardRequest(Digits(), [DISK]), Prepared(2, Digits(), SIZE))
  }

  lemma OneRequestIsValid()
    ensures CheckRequest(OneCase().request).None?
  {
    var request := OneCase().request;
    assert Trim("job") == "job" && Trim("d") == "d" && Trim("m") == "m" && Trim("n") == "n";
    assert !IncompleteFingerprint(TARGET) && !MissingSerial(TARGET);
    assert request.targets[1..] == [];
    hide Trim;
  }

  lemma OnePathIsPlain()
    ensures DeviceName("/dev/a") == Some("a") && "a" != "." && "a" != ".."
    ensures forall x :: x in "a" ==> NameCharacter(x)
    ensures forall x :: x in "/dev/a" || x in "m" || x in "n" ==> x != '\r' && x != '\n' && x != '\0'
  {
    assert "/dev/a"[5..] == "a";
    assert "a"[0] != "."[0];
  }

  lemma OneTextIsTrimmed()
    ensures Trim("/dev/a") == "/dev/a" && Trim("m") == "m" && Trim("n") == "n"
    ensures Utf8Length("m") == 1 && Utf8Length("n") == 1
  {
  }

  lemma OneDiskIsValid()
    ensures ValidDisk(DISK) && Renderable(DISK.path)
  {
    OnePathIsPlain();
    OneTextIsTrimmed();
    LengthOfPath();
    hide Trim, Utf8Length, DeviceName, NameCharacter;
  }

  lemma LengthOfPath()
    ensures Utf8Length("/dev/a") == 6
  {
    var s := "/dev/a";
    assert s[1..] == "dev/a" && "dev/a"[1..] == "ev/a" && "ev/a"[1..] == "v/a" && "v/a"[1..] == "/a"
        && "/a"[1..] == "a";
    assert Utf8Length("a") == 1;
    assert Utf8Length("/a") == 2;
    assert Utf8Length("v/a") == 3;
    assert Utf8Length("ev/a") == 4;
    assert Utf8Length("dev/a") == 5;
  }

  lemma OneGuardIsValid()
    ensures ValidRequest(OneCase().guard) && MediaChecked(Some(OneCase().prepared), OneCase().guard.imageSha)
  {
    OneDiskIsValid();
    hide ValidDisk;
  }

  lemma OneDiskMatches()
    ensures UniquelyMatchingDisk(TARGET, [DISK]) == Some(DISK)
  {
    assert Trim("m") == "m" && Trim("n") == "n";
    assert FingerprintMatches(TARGET, "n", DISK);
    assert [DISK][1..] == [];
    assert Matching(TARGET, "n", [DISK]) == [DISK];
  }

  /** So the run above is one of a service that runs. */
  lemma OneIsInstallable()
    ensures Installable(OneCase())
  {
    OneRequestIsValid();
    OneGuardIsValid();
    OneDiskMatches();
    OneDiskIsValid();
    hide CheckRequest, ValidRequest, UniquelyMatchingDisk, Renderable, MediaChecked;
  }
}
