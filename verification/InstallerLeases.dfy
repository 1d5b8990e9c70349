/**
 * Leases and sessions over whole runs of the interleaved installer service: a lease outlives the
 * session it was given to, and exactly when a configuration is released for a job still running.
 */
module InstallerLeases {
  import opened Common
  import opened DeploymentTypes
  import opened RepositorySpec
  import opened InstallerSessions
  import opened InstallerProtocol
  import opened InstallerSafety
  import opened InstallerCalls
  import Runs = RepositoryRuns

  // ----- a lease outlives its session -----

  /** As long as the job carries the lease, it is the device's installer job and the lease lasts until `expiry`. */
  predicate Serves(jobs: seq<Job>, job: Uuid, lease: Uuid, device: Uuid, expiry: Time) {
    var j := Lookup(jobs, job);
    j.Some? && j.value.leaseId == Some(lease) ==>
      && j.value.operation == InstallLinux && TargetsOnly(j.value, device)
      && j.value.leaseExpiresAt.Some? && expiry <= j.value.leaseExpiresAt.value
  }

  /** A running installer job stands at the handoff or at an event. */
  predicate AtEvent(j: Job) {
    || (j.stage == Some(ValidatingTarget) && j.progress == 1)
    || exists kind: EventKind :: kind != Fail && j.stage == Some(EventProgress(kind).0) && j.progress == Percent(kind)
  }

  predicate StandsAtEvent(jobs: seq<Job>, id: Uuid) {
    var j := Lookup(jobs, id);
    j.Some? && j.value.operation == InstallLinux && j.value.state == Running ==> AtEvent(j.value)
  }

  predicate SessionServed(s: System, x: Session) {
    x.lease.Some? ==> Serves(s.jobs, x.job, x.lease.value, x.device, x.expiresAt)
  }

  predicate ThreadServed(s: System, p: Program) {
    p.GuardCommit? ==> Serves(s.jobs, p.b.job, p.held, p.b.device, p.expiresAt)
  }

  ghost predicate LeasesServe(s: System) {
    && (forall id :: id in s.sessions ==> SessionServed(s, s.sessions[id]))
    && (forall t :: t in s.threads ==> ThreadServed(s, s.threads[t]))
    && (forall id: Uuid :: StandsAtEvent(s.jobs, id))
  }

  /** No edit of an installer job shortens the lease it leaves in place. */
  lemma EditKeepsExpiry(step: Runs.Step, a: Job, b: Job)
    requires Runs.EditedBy(step, a, b) && a.operation == InstallLinux
    requires a.leaseId.Some? && b.leaseId == a.leaseId && a.leaseExpiresAt.Some?
    requires Runs.NewIds(step.action) !! {a.leaseId.value}
    ensures b.leaseExpiresAt.Some? && a.leaseExpiresAt.value <= b.leaseExpiresAt.value
  {
  }

  lemma EditServes(s: Runs.Repo, step: Runs.Step, a: Job, b: Job, lease: Uuid)
    requires Runs.Enabled(s, step) && lease in s.issued && Runs.JobOk(a) && Runs.EditedBy(step, a, b)
    requires b.leaseId == Some(lease)
    ensures a.leaseId == Some(lease)
  {
    hide Runs.EditedBy;
    Runs.EditIsLegal(step, a, b);
  }

  lemma NextKeepsServes(s: System, tick: Tick, job: Uuid, lease: Uuid, device: Uuid, expiry: Time)
    requires Runs.Inv(RepoOf(s)) && Enabled(s, tick)
    requires job in s.issued && lease in s.issued && Serves(s.jobs, job, lease, device, expiry)
    ensures Serves(Next(s, tick).jobs, job, lease, device, expiry)
  {
    hide Next, JobStepOf, Runs.Perform, Runs.Inv, Lookup, Runs.EditedBy, Enabled, Runs.Enabled, Runs.JobOk;
    NextJobs(s, tick);
    if JobStepOf(s, tick).Some? {
      var step := JobStepOf(s, tick).value;
      JobStepEnabled(s, tick);
      Runs.StepMovesRecord(RepoOf(s), step, job);
      var a, b := Lookup(s.jobs, job), Lookup(Next(s, tick).jobs, job);
      if a.Some? && b.Some? && a != b && b.value.leaseId == Some(lease) {
        Runs.StoredJobOk(RepoOf(s), job);
        EditServes(RepoOf(s), step, a.value, b.value, lease);
        Runs.EditKeepsIdentity(step, a.value, b.value);
        StepIsFresh(RepoOf(s), step, lease);
        EditKeepsExpiry(step, a.value, b.value);
      }
    }
  }

  lemma StepIsFresh(s: Runs.Repo, step: Runs.Step, lease: Uuid)
    requires Runs.Enabled(s, step) && lease in s.issued
    ensures Runs.NewIds(step.action) !! {lease}
  {
  }

  // ----- where a running job stands -----

  /** The only reports an installer job gets are the events of the protocol. */
  predicate ReportsAnEvent(action: Runs.Action) {
    action.DoReportInstaller? ==>
      exists kind: EventKind :: kind != Fail && action.stage == EventProgress(kind).0
          && action.progress == Percent(kind)
  }

  lemma JobStepReportsAnEvent(s: System, tick: Tick)
    requires Enabled(s, tick) && JobStepOf(s, tick).Some?
    ensures ReportsAnEvent(JobStepOf(s, tick).value.action)
  {
    hide EventProgress;
    match tick.move
    case Advance(env) =>
      var p := s.threads[tick.t];
      if p.EventReport? && p.kind != Fail {
        assert EventProgress(p.kind) == (EventProgress(p.kind).0, Percent(p.kind));
      }
    case _ =>
  }

  lemma EditStandsAtEvent(step: Runs.Step, a: Job, b: Job)
    requires Runs.EditedBy(step, a, b) && ReportsAnEvent(step.action)
    requires a.operation == InstallLinux && (a.state == Running ==> AtEvent(a))
    ensures b.state == Running ==> AtEvent(b)
  {
    hide EventProgress, Percent;
  }

  lemma NextKeepsStand(s: System, tick: Tick, id: Uuid)
    requires Runs.Inv(RepoOf(s)) && Enabled(s, tick) && StandsAtEvent(s.jobs, id)
    ensures StandsAtEvent(Next(s, tick).jobs, id)
  {
    hide Next, JobStepOf, Runs.Perform, Runs.Inv, Lookup, Runs.EditedBy, AtEvent, ReportsAnEvent;
    NextJobs(s, tick);
    if JobStepOf(s, tick).Some? {
      var step := JobStepOf(s, tick).value;
      JobStepEnabled(s, tick);
      JobStepReportsAnEvent(s, tick);
      Runs.StepMovesRecord(RepoOf(s), step, id);
      var a, b := Lookup(s.jobs, id), Lookup(Next(s, tick).jobs, id);
      if a.Some? && b.Some? && a != b {
        Runs.EditKeepsIdentity(step, a.value, b.value);
        if a.value.operation == InstallLinux {
          EditStandsAtEvent(step, a.value, b.value);
        }
      }
    }
  }

  lemma EventsStandAlike(j: Job)
    requires AtEvent(j)
    ensures forall kind: EventKind :: kind != Fail ==>
              (RankOf(j.stage) <= StageRank(EventProgress(kind).0) <==> j.progress <= Percent(kind))
  {
    if kind: EventKind :| kind != Fail && j.stage == Some(EventProgress(kind).0) && j.progress == Percent(kind) {
      EventsRankAlike(kind);
    }
  }

  // ----- every step keeps it -----

  lemma SessionLeaseIsIssued(s: System, id: Uuid)
    requires Inv(s) && id in s.sessions && s.sessions[id].lease.Some?
    ensures s.sessions[id].lease.Some? && s.sessions[id].lease.value in s.issued && s.sessions[id].job in s.issued
  {
    hide Runs.Inv, ThreadOk, ThreadsApart, CountOk, UniquelyMatchingDisk;
    assert SessionOk(s, id, s.sessions[id]);
    var e :| e in s.trace && e.Released? && e.session == id && e.job == s.sessions[id].job
        && e.lease == s.sessions[id].lease.value;
    assert EventOk(s.trace, s.issued, e);
  }

  lemma CommitLeaseIsIssued(s: System, t: nat)
    requires Inv(s) && t in s.threads && s.threads[t].GuardCommit?
    ensures s.threads[t].held in s.issued && s.threads[t].b.job in s.issued
  {
    hide Runs.Inv, SessionOk, ThreadsApart, CountOk, UniquelyMatchingDisk;
    var p := s.threads[t];
    assert ThreadOk(s, p);
    assert EventOk(s.trace, s.issued, Leased(p.b.job, p.held, p.target));
  }

  lemma KeptSessionIsServed(s: System, tick: Tick, id: Uuid)
    requires Inv(s) && LeasesServe(s) && Enabled(s, tick) && id in s.sessions && s.sessions[id].lease.Some?
    ensures var x := s.sessions[id];
            Serves(Next(s, tick).jobs, x.job, x.lease.value, x.device, x.expiresAt)
  {
    hide Next, Enabled, Runs.Inv, TraceOk, SessionOk, ThreadOk, ThreadsApart, CountOk, Serves, StandsAtEvent,
         ThreadServed;
    SessionLeaseIsIssued(s, id);
    var x := s.sessions[id];
    assert SessionServed(s, x);
    NextKeepsServes(s, tick, x.job, x.lease.value, x.device, x.expiresAt);
  }

  lemma KeptThreadIsServed(s: System, tick: Tick, t: nat)
    requires Inv(s) && LeasesServe(s) && Enabled(s, tick) && t in s.threads
    ensures ThreadServed(Next(s, tick), s.threads[t])
  {
    hide Next, Enabled, Runs.Inv, TraceOk, SessionOk, ThreadOk, ThreadsApart, CountOk, Serves, StandsAtEvent,
         SessionServed;
    var p := s.threads[t];
    if p.GuardCommit? {
      CommitLeaseIsIssued(s, t);
      assert ThreadServed(s, p);
      NextKeepsServes(s, tick, p.b.job, p.held, p.b.device, p.expiresAt);
    }
  }

  lemma AdvancedSessionIsServed(s: System, tick: Tick, id: Uuid)
    requires Inv(s) && LeasesServe(s) && Enabled(s, tick) && tick.move.Advance? && id in Next(s, tick).sessions
    ensures SessionServed(Next(s, tick), Next(s, tick).sessions[id])
  {
    hide Next, Runs.Inv, TraceOk, SessionOk, ChoiceOk, ThreadsApart, CountOk, Serves, StandsAtEvent, OwnsSession,
         ActsUnderLease;
    AdvanceMovesSessions(s, tick, id);
    AdvanceIssues(s, tick);
    var p := s.threads[tick.t];
    assert ThreadOk(s, p);
    if id in s.sessions && s.sessions[id].lease.Some? {
      KeptSessionIsServed(s, tick, id);
    }
    KeptThreadIsServed(s, tick, tick.t);
    if p.GuardCommit? {
      LeaseIsNotTaken(s, tick.t);
    }
  }

  /** A session about to be given a lease has none yet. */
  lemma LeaseIsNotTaken(s: System, t: nat)
    requires Inv(s) && t in s.threads && s.threads[t].GuardCommit?
    ensures var id := s.threads[t].b.session; id in s.sessions ==> s.sessions[id].lease.None?
  {
    hide Runs.Inv, TraceOk, ChoiceOk, ThreadsApart, CountOk, ActsUnderLease, BoundToSession, ReleasedTo;
    var id := s.threads[t].b.session;
    assert ThreadOk(s, s.threads[t]);
    if id in s.sessions {
      assert SessionOk(s, id, s.sessions[id]);
    }
  }

  /** A thread that has just taken a lease knows when that runs out. */
  lemma NewCommitIsServed(s: System, tick: Tick)
    requires Inv(s) && Enabled(s, tick) && tick.move.Advance? && tick.t in Next(s, tick).threads
    requires s.threads[tick.t].GuardLease? && Next(s, tick).threads[tick.t].GuardCommit?
    ensures ThreadServed(Next(s, tick), Next(s, tick).threads[tick.t])
  {
    hide Next, Runs.Inv, TraceOk, SessionOk, ThreadOk, ThreadsApart, CountOk, UniquelyMatchingDisk, JobsAfter, Lookup;
    AdvanceBecomes(s, tick);
    AdvanceGives(s, tick);
    HandoffConsumesQueue(s, tick, s.threads[tick.t].b.job);
  }

  lemma AdvanceKeepsLeases(s: System, tick: Tick)
    requires Inv(s) && LeasesServe(s) && Enabled(s, tick) && tick.move.Advance?
    ensures LeasesServe(Next(s, tick))
  {
    hide Next, Inv, SessionServed, ThreadServed, StandsAtEvent, Enabled, Becomes;
    var n := Next(s, tick);
    AdvanceBecomes(s, tick);
    InvGivesRepoInv(s);
    forall id | id in n.sessions
      ensures SessionServed(n, n.sessions[id])
    {
      AdvancedSessionIsServed(s, tick, id);
    }
    forall t | t in n.threads
      ensures ThreadServed(n, n.threads[t])
    {
      if t == tick.t {
        AdvancedThreadIsServed(s, tick);
      } else {
        KeptThreadIsServed(s, tick, t);
      }
    }
    forall id: Uuid
      ensures StandsAtEvent(n.jobs, id)
    {
      NextKeepsStand(s, tick, id);
    }
  }

  lemma AdvancedThreadIsServed(s: System, tick: Tick)
    requires Inv(s) && LeasesServe(s) && Enabled(s, tick) && tick.move.Advance? && tick.t in Next(s, tick).threads
    ensures ThreadServed(Next(s, tick), Next(s, tick).threads[tick.t])
  {
    hide Next, Inv, Enabled, UniquelyMatchingDisk, Lookup, Serves;
    AdvanceBecomes(s, tick);
    if Next(s, tick).threads[tick.t].GuardCommit? {
      NewCommitIsServed(s, tick);
    }
  }

  /**
   * A call that begins takes no lease, and operators and restarts leave what sessions and threads
   * remain as they were.
   */
  lemma OtherMovesKeepThreads(s: System, tick: Tick)
    requires Enabled(s, tick) && !tick.move.Advance?
    ensures forall id :: id in Next(s, tick).sessions ==>
              id in s.sessions && Next(s, tick).sessions[id] == s.sessions[id]
    ensures forall t :: t in Next(s, tick).threads && Next(s, tick).threads[t].GuardCommit? ==>
                        t in s.threads && Next(s, tick).threads[t] == s.threads[t]
  {
    hide JobsAfter, Authenticate, ActiveInstallers, ValidRequest;
  }

  lemma NextKeepsLeases(s: System, tick: Tick)
    requires Inv(s) && LeasesServe(s) && Enabled(s, tick)
    ensures LeasesServe(Next(s, tick))
  {
    hide Next, Inv, StandsAtEvent, Enabled, Serves;
    if tick.move.Advance? {
      AdvanceKeepsLeases(s, tick);
    } else {
      var n := Next(s, tick);
      OtherMovesKeepThreads(s, tick);
      InvGivesRepoInv(s);
      forall id | id in n.sessions
        ensures SessionServed(n, n.sessions[id])
      {
        if n.sessions[id].lease.Some? {
          KeptSessionIsServed(s, tick, id);
        }
      }
      forall t | t in n.threads
        ensures ThreadServed(n, n.threads[t])
      {
        if n.threads[t].GuardCommit? {
          KeptThreadIsServed(s, tick, t);
        }
      }
      forall id: Uuid
        ensures StandsAtEvent(n.jobs, id)
      {
        NextKeepsStand(s, tick, id);
      }
    }
  }

  lemma {:induction false} RunKeepsLeases(states: seq<System>, ticks: seq<Tick>, i: nat)
    requires IsRun(states, ticks) && i < |states|
    ensures LeasesServe(states[i])
  {
    hide Inv, Next, Enabled, SessionServed, ThreadServed;
    if i > 0 {
      RunKeepsLeases(states, ticks, i - 1);
      RunKeepsInv(states, ticks, i - 1);
      NextKeepsLeases(states[i - 1], ticks[i - 1]);
    }
  }

  /**
   * In every reachable state, a session that has been handed its job, as long as the job runs under the
   * session's lease, is ready for the calls of an installation: the lease is held at least until the
   * session expires, for the session's device, and the job stands at an event.
   */
  lemma HandedSessionsAreReady(states: seq<System>, ticks: seq<Tick>, i: nat, id: Uuid)
    requires IsRun(states, ticks) && i < |states| && id in states[i].sessions
    requires states[i].sessions[id].phase in {HandedOff, AwaitingBoot}
    requires states[i].sessions[id].lease.Some?
    requires Runs.RunningUnder(RepoOf(states[i]), states[i].sessions[id].job, states[i].sessions[id].lease.value)
    ensures HandedTo(Service(states[i].sessions, states[i].jobs), id, states[i].sessions[id].token)
  {
    hide IsRun, Lookup, AtEvent, EventProgress, Percent;
    RunKeepsLeases(states, ticks, i);
    var s, x := states[i], states[i].sessions[id];
    assert SessionServed(s, x);
    assert StandsAtEvent(s.jobs, x.job);
    EventsStandAlike(Lookup(s.jobs, x.job).value);
  }

  /** So a call that still authenticates never finds the lease of its running job run out. */
  lemma AuthenticatedHoldsLease(states: seq<System>, ticks: seq<Tick>, i: nat, id: Uuid, token: Uuid, now: Time)
    requires IsRun(states, ticks) && i < |states| && Authenticate(states[i].sessions, id, token, now).Ok?
    requires states[i].sessions[id].lease.Some?
    requires Runs.RunningUnder(RepoOf(states[i]), states[i].sessions[id].job, states[i].sessions[id].lease.value)
    ensures var x := states[i].sessions[id];
            HoldsLease(Lookup(states[i].jobs, x.job).value, x.lease.value, now)
  {
    hide IsRun, Lookup, StandsAtEvent;
    RunKeepsLeases(states, ticks, i);
    assert SessionServed(states[i], states[i].sessions[id]);
  }

  // ----- the session's expiry -----

  lemma SessionIdIsIssued(s: System, id: Uuid)
    requires Inv(s) && id in s.sessions
    ensures id in s.issued
  {
    hide Runs.Inv, TraceOk, ThreadOk, ThreadsApart, CountOk;
    assert SessionOk(s, id, s.sessions[id]);
  }

  /** A session past its handoff changes in nothing but its phase, and an id in use never names a new one. */
  lemma NextKeepsHandedSession(s: System, tick: Tick, id: Uuid)
    requires Inv(s) && Enabled(s, tick) && id in s.issued && id in Next(s, tick).sessions
    ensures id in s.sessions
    ensures s.sessions[id].lease.Some? ==> SameButPhase(s.sessions[id], Next(s, tick).sessions[id])
  {
    hide Next, Runs.Inv, TraceOk, SessionOk, ThreadOk, ThreadsApart, CountOk;
    if tick.move.Advance? {
      AdvanceIssues(s, tick);
      AdvanceMovesSessions(s, tick, id);
      if s.threads[tick.t].GuardCommit? {
        LeaseIsNotTaken(s, tick.t);
      }
    } else {
      OtherMovesKeepThreads(s, tick);
    }
  }

  lemma {:induction false} IdStaysIssued(states: seq<System>, ticks: seq<Tick>, i: nat, j: nat, id: Uuid)
    requires IsRun(states, ticks) && i <= j < |states| && id in states[i].issued
    ensures id in states[j].issued
  {
    hide Next, Enabled;
    if i < j {
      IdStaysIssued(states, ticks, i, j - 1, id);
      IssuedStays(states, ticks, j - 1);
    }
  }

  /** The instant a session expires at is fixed at its handoff. */
  lemma {:induction false} HandedOffExpiryIsFixed(states: seq<System>, ticks: seq<Tick>, i: nat, j: nat, id: Uuid)
    requires IsRun(states, ticks) && i <= j < |states| && id in states[i].sessions && states[i].sessions[id].lease.Some?
    requires id in states[j].sessions
    ensures SameButPhase(states[i].sessions[id], states[j].sessions[id])
  {
    hide Inv, Next, Enabled;
    if i < j {
      RunKeepsInv(states, ticks, i);
      SessionIdIsIssued(states[i], id);
      IdStaysIssued(states, ticks, i, j - 1, id);
      RunKeepsInv(states, ticks, j - 1);
      NextKeepsHandedSession(states[j - 1], ticks[j - 1], id);
      HandedOffExpiryIsFixed(states, ticks, i, j - 1, id);
    }
  }

  lemma {:induction false} ClockNeverRunsBack(states: seq<System>, ticks: seq<Tick>, i: nat, j: nat)
    requires IsRun(states, ticks) && i <= j < |states|
    ensures states[i].clock <= states[j].clock
  {
    if i < j {
      ClockNeverRunsBack(states, ticks, i, j - 1);
      ClockFollows(states[j - 1], ticks[j - 1]);
    }
  }

  lemma ClockFollows(s: System, tick: Tick)
    requires Enabled(s, tick)
    ensures s.clock <= tick.now == Next(s, tick).clock
  {
    hide JobsAfter, SessionsAfter, Given, Continued, Started, IsRetry;
  }

  /** Whose session a call presents. */
  function SessionOf(move: Move): Option<Uuid> {
    match move
    case StartGuard(session, _, _) => Some(session)
    case StartEvent(session, _, _) => Some(session)
    case StartFirstBoot(session, _, _) => Some(session)
    case _ => None
  }

  /** Once a handed-off session has expired, no call that presents it ever gets past its first region again. */
  lemma ExpiredSessionsStayShut(states: seq<System>, ticks: seq<Tick>, i: nat, j: nat, id: Uuid)
    requires IsRun(states, ticks) && i <= j < |ticks| && id in states[i].sessions && states[i].sessions[id].lease.Some?
    requires states[i].sessions[id].expiresAt < states[i].clock && SessionOf(ticks[j].move) == Some(id)
    ensures Started(states[j], ticks[j].move, ticks[j].now) == None
  {
    hide Inv, Next;
    ClockNeverRunsBack(states, ticks, i, j);
    assert Enabled(states[j], ticks[j]);
    if id in states[j].sessions {
      HandedOffExpiryIsFixed(states, ticks, i, j, id);
    }
  }
}
