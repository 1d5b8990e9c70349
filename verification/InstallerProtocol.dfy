/**
 * The Linux installer handoff as a concurrent protocol.
 *
 * A call to `discover`, `authorize_guard`, `report_event` or `complete_first_boot` is a thread that
 * takes one lock-protected region at a time; between two regions any other thread, the operator, an
 * agent or a restart of the service may run. The trace records what the service gave out.
 */
module InstallerProtocol {
  import opened Common
  import opened DeploymentTypes
  import opened RepositorySpec
  import opened InstallerSessions
  import Runs = RepositoryRuns

  /** What is left of a call that has begun. */
  datatype Program =
    | DiscoverMark(device: Uuid, found: Job)
    | DiscoverOffer(device: Uuid, found: Job)
    | GuardClaim(b: Binding, request: GuardRequest)
    | GuardPrepare(b: Binding, request: GuardRequest)
    | GuardRead(b: Binding, request: GuardRequest, prepared: Prepared)
    | GuardLease(b: Binding, request: GuardRequest, target: DeploymentTarget, disk: ObservedDisk)
    | GuardCommit(b: Binding, request: GuardRequest, target: DeploymentTarget, disk: ObservedDisk,
                  held: Uuid, expiresAt: Time)
    | GuardUndo(b: Binding)
    | ReplayPrepare(b: Binding, request: GuardRequest)
    | ReplayRead(b: Binding, request: GuardRequest)
    | EventReport(b: Binding, kind: EventKind)
    | EventAwait(b: Binding)
    | BootComplete(b: Binding)
    | Finish(b: Binding)

  /** What the service has handed out: leases, destructive configurations, repeats of them, retries. */
  datatype Event =
    | Leased(job: Uuid, lease: Uuid, target: DeploymentTarget)
    | Released(session: Uuid, job: Uuid, lease: Uuid, target: DeploymentTarget, disks: seq<ObservedDisk>, path: string)
    | Replayed(session: Uuid, job: Uuid, repeated: Option<Uuid>, target: DeploymentTarget, disks: seq<ObservedDisk>,
        path: string)
    | Retried(job: Uuid)

  datatype System = System(
    jobs: seq<Job>,
    issued: set<Uuid>,
    sessions: Sessions,
    threads: map<nat, Program>,
    clock: Time,
    trace: seq<Event>)

  /** What the surroundings supply to one region: media, fresh ids, earlier clock readings, disk writes. */
  datatype Env = Env(
    prepared: Option<Prepared>,
    freshId: Uuid,
    attempt: Uuid,
    token: Uuid,
    calledAt: Time,
      persisted: bool)

  datatype Move =
    | StartDiscover(device: Uuid, suitable: bool)
    | StartGuard(session: Uuid, token: Uuid, request: GuardRequest)
    | StartEvent(session: Uuid, token: Uuid, kind: EventKind)
    | StartFirstBoot(session: Uuid, token: Uuid, attempt: Uuid)
    | Advance(env: Env)
    | Operate(action: Runs.Action, persisted: bool)
    | Restart

  /** One atomic step: thread `t` makes a move at instant `now`. Operators and restarts ignore `t`. */
  datatype Tick = Tick(t: nat, move: Move, now: Time)

  function RepoOf(s: System): Runs.Repo {
    Runs.Repo(s.jobs, s.issued, s.clock)
  }

  /** The installer operations of the repository are called by the protocol only. */
  predicate ForOperators(action: Runs.Action) {
    !action.DoMarkBooting? && !action.DoLeaseInstaller? && !action.DoReportInstaller? && !action.DoCompleteInstaller?
  }

  predicate Enabled(s: System, tick: Tick) {
    && s.clock <= tick.now
    && match tick.move
       case Advance(env) => tick.t in s.threads && env.freshId !in s.issued && env.calledAt <= tick.now
       case Operate(action, persisted) =>
         ForOperators(action) && Runs.Enabled(RepoOf(s), Runs.Step(action, tick.now, persisted))
       case Restart => true
       case _ => tick.t !in s.threads
  }

  // ----- starting a call: the first region -----

  function ActiveInstallers(jobs: seq<Job>, device: Uuid): seq<Job> {
    if jobs == [] then []
    else (if jobs[0].operation == InstallLinux && !jobs[0].state.IsTerminal() && TargetsOnly(jobs[0], device)
          then [jobs[0]] else []) + ActiveInstallers(jobs[1..], device)
  }

  /** `suitable` is the outcome of the device, option and media checks, which read no shared state. */
  function Discovered(jobs: seq<Job>, device: Uuid, suitable: bool): Option<Program> {
    var active := ActiveInstallers(jobs, device);
    if |active| == 1 && active[0].state == Waiting && suitable then Some(DiscoverMark(device, active[0])) else None
  }

  /** `None` is a call that answers with an error at once. */
  function Started(s: System, move: Move, now: Time): Option<Program> {
    match move
    case StartDiscover(device, suitable) => Discovered(s.jobs, device, suitable)
    case StartGuard(session, token, request) =>
      var b := Authenticate(s.sessions, session, token, now);
      if !ValidRequest(request) || b.Err? then None
      else if b.value.phase in {HandedOff, AwaitingBoot} then Some(ReplayPrepare(b.value, request))
      else if b.value.phase == Offered then Some(GuardClaim(b.value, request))
      else None
    case StartEvent(session, token, kind) =>
      var b := Authenticate(s.sessions, session, token, now);
      if b.Ok? && b.value.phase in {HandedOff, AwaitingBoot} && b.value.lease.Some?
      then Some(EventReport(b.value, kind)) else None
    case StartFirstBoot(session, token, attempt) =>
      var b := Authenticate(s.sessions, session, token, now);
      if b.Ok? && b.value.attempt == attempt && b.value.phase in {HandedOff, AwaitingBoot} && b.value.lease.Some?
      then Some(BootComplete(b.value)) else None
    case _ => None
  }

  // ----- the later regions -----

  /** The repository operation a thread's next region performs, if it performs one. */
  function ThreadJobStep(p: Program, env: Env, now: Time): Option<Runs.Step> {
    match p
    case DiscoverMark(device, found) =>
      Some(Runs.Step(Runs.DoMarkBooting(found.id, device, found.imageId), now, env.persisted))
    case GuardLease(b, _, _, _) =>
      Some(Runs.Step(Runs.DoLeaseInstaller(b.job, b.device, b.image, env.freshId, INSTALLER_LEASE), now, env.persisted))
    case EventReport(b, kind) =>
      if b.lease.None? then None
      else if kind == Fail then
        Some(Runs.Step(Runs.DoCompleteInstaller(b.job, b.device, b.lease.value, false), now, env.persisted))
      else
        var (stage, progress) := EventProgress(kind);
        var until := env.calledAt + INSTALLER_LEASE;
        Some(Runs.Step(Runs.DoReportInstaller(b.job, b.device, b.lease.value, until, stage, progress),
                       now, env.persisted))
    case BootComplete(b) =>
      if b.lease.None? then None
      else Some(Runs.Step(Runs.DoCompleteInstaller(b.job, b.device, b.lease.value, true), now, env.persisted))
    case _ => None
  }

  function JobStepOf(s: System, tick: Tick): Option<Runs.Step> {
    match tick.move
    case Operate(action, persisted) => Some(Runs.Step(action, tick.now, persisted))
    case Advance(env) => if tick.t in s.threads then ThreadJobStep(s.threads[tick.t], env, tick.now) else None
    case _ => None
  }

  function JobsAfter(s: System, tick: Tick): (seq<Job>, bool) {
    var step := JobStepOf(s, tick);
    if step.None? then (s.jobs, true) else Runs.Perform(s.jobs, step.value)
  }

  function NewSession(device: Uuid, found: Job, env: Env, now: Time): Session {
    Session(env.token, env.attempt, device, found.id, found.imageId, now + OFFER_TTL, Offered, None)
  }

  /** Sessions after a thread's next region. */
  function SessionsAfter(sessions: Sessions, p: Program, env: Env, now: Time): SessionOutcome {
    match p
    case DiscoverOffer(device, found) => Offer(sessions, env.freshId, NewSession(device, found, env, env.calledAt), now)
    case GuardClaim(b, _) => SetPhase(sessions, b.session, Offered, Authorizing)
    case GuardCommit(b, _, _, _, held, expiresAt) => TakeLease(sessions, b.session, held, expiresAt)
    case GuardUndo(b) => SetPhase(sessions, b.session, Authorizing, Offered)
    case EventAwait(b) => SetPhase(sessions, b.session, HandedOff, AwaitingBoot)
    case Finish(b) => InstallerSessions.MarkCompleted(sessions, b.session)
    case _ => SessionOutcome(sessions, Ok(()))
  }

  /** What the thread does next, given what its region found; `None` ends the call. */
  function Continued(s: System, p: Program, env: Env, now: Time, done: bool): Option<Program> {
    match p
    case DiscoverMark(device, found) => if done then Some(DiscoverOffer(device, found)) else None
    case DiscoverOffer(_, _) => None
    case GuardClaim(b, request) => if done then Some(GuardPrepare(b, request)) else None
    case GuardPrepare(b, request) =>
      if MediaChecked(env.prepared, request.imageSha) && env.prepared.value.artifact == b.image
      then Some(GuardRead(b, request, env.prepared.value)) else Some(GuardUndo(b))
    case GuardRead(b, request, prepared) =>
      var job := BoundJob(s.jobs, b, Waiting);
      if job.Err? then Some(GuardUndo(b))
      else
        var disk := ChooseDisk(job.value, request.disks, prepared.minimumDiskBytes);
        if disk.Err? then Some(GuardUndo(b)) else Some(GuardLease(b, request, job.value.targets[0], disk.value))
    case GuardLease(b, request, target, disk) =>
      if done then Some(GuardCommit(b, request, target, disk, env.freshId, now + INSTALLER_LEASE))
          else Some(GuardUndo(b))
    case GuardCommit(b, _, _, _, _, _) => if done then None else Some(GuardUndo(b))
    case GuardUndo(_) => None
    case ReplayPrepare(b, request) =>
      if MediaChecked(env.prepared, request.imageSha) then Some(ReplayRead(b, request)) else None
    case ReplayRead(_, _) => None
    case EventReport(b, kind) =>
      if !done then None
      else if kind == Fail then Some(Finish(b))
      else if kind == AwaitBoot && b.phase == HandedOff then Some(EventAwait(b))
      else None
    case EventAwait(_) => None
    case BootComplete(b) => if done then Some(Finish(b)) else None
    case Finish(_) => None
  }

  /** What a thread's next region gives out. */
  function Given(s: System, p: Program, env: Env, done: bool): seq<Event> {
    match p
    case GuardLease(b, _, target, _) => if done then [Leased(b.job, env.freshId, target)] else []
    case GuardCommit(b, request, target, disk, held, _) =>
      if done then [Released(b.session, b.job, held, target, request.disks, disk.path)] else []
    case ReplayRead(b, request) =>
      var job := BoundJob(s.jobs, b, Running);
      if job.Err? || job.value.leaseId != b.lease then []
      else
        var disk := ChooseDiskAgain(job.value, request.disks);
        if disk.Err? then []
        else [Replayed(b.session, b.job, b.lease, job.value.targets[0], request.disks, disk.value.path)]
    case _ => []
  }

  function WithThread(threads: map<nat, Program>, t: nat, p: Option<Program>): map<nat, Program> {
    if p.Some? then threads[t := p.value] else threads - {t}
  }

  /** Whether an operator's step puts a failed job back into the queue. */
  predicate IsRetry(s: System, tick: Tick) {
    && tick.move.Operate? && tick.move.action.DoTransition? && tick.move.action.next == Waiting
    && JobsAfter(s, tick).1
    && Lookup(s.jobs, tick.move.action.job).Some? && Lookup(s.jobs, tick.move.action.job).value.state == Failed
  }

  function Next(s: System, tick: Tick): System {
    var (jobs, done) := JobsAfter(s, tick);
    match tick.move
    case Advance(env) =>
      if tick.t !in s.threads then s
      else
        var p := s.threads[tick.t];
        var o := SessionsAfter(s.sessions, p, env, tick.now);
        var ok := done && o.result.Ok?;
        System(jobs, s.issued + {env.freshId}, o.sessions,
               WithThread(s.threads, tick.t, Continued(s, p, env, tick.now, ok)), tick.now,
               s.trace + Given(s, p, env, ok))
    case Operate(action, persisted) =>
      System(jobs, s.issued + Runs.NewIds(action), s.sessions, s.threads, tick.now,
             s.trace + if IsRetry(s, tick) then [Retried(action.job)] else [])
    case Restart => System(s.jobs, s.issued, map[], map[], tick.now, s.trace)
    case _ => s.(threads := WithThread(s.threads, tick.t, Started(s, tick.move, tick.now)), clock := tick.now)
  }

  predicate IsRun(states: seq<System>, ticks: seq<Tick>) {
    && |states| == |ticks| + 1
    && states[0] == System([], {}, map[], map[], states[0].clock, [])
    && forall i :: 0 <= i < |ticks| ==> Enabled(states[i], ticks[i]) && states[i + 1] == Next(states[i], ticks[i])
  }
}
