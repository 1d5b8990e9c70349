/**
 * Who gets a configuration, over every interleaving of the installer service in
 * crates/service/src/installer_deployment.rs: the secret a call presents, and what was checked between
 * that call's first region and the release.
 */
module InstallerTokens {
  import opened Common
  import opened TextRules
  import opened DeploymentTypes
  import opened RepositorySpec
  import opened InstallerSessions
  import opened InstallerProtocol
  import opened InstallerSafety
  import opened InstallerCalls
  import opened InstallerLeases
  import Runs = RepositoryRuns

  /** The secret a call presents. */
  function TokenOf(move: Move): Option<Uuid> {
    match move
    case StartGuard(_, token, _) => Some(token)
    case StartEvent(_, token, _) => Some(token)
    case StartFirstBoot(_, token, _) => Some(token)
    case _ => None
  }

  /** A call for a session gets past its first region only with the session's secret, before the session expires. */
  lemma StartedCallsAreAuthentic(s: System, move: Move, now: Time, id: Uuid)
    requires Started(s, move, now).Some? && SessionOf(move) == Some(id)
    ensures id in s.sessions && TokenOf(move) == Some(s.sessions[id].token) && now <= s.sessions[id].expiresAt
    ensures var x := s.sessions[id];
            && (move.StartGuard? ==> x.phase == Offered || x.phase == HandedOff || x.phase == AwaitingBoot)
            && (move.StartEvent? || move.StartFirstBoot? ==>
                  (x.phase == HandedOff || x.phase == AwaitingBoot) && x.lease != None)
            && (move.StartFirstBoot? ==> x.attempt == move.attempt)
  {
    hide ValidRequest;
  }

  /** And with any other secret it ends there, with an error. */
  lemma OtherSecretsAreRefused(s: System, tick: Tick, id: Uuid)
    requires Enabled(s, tick) && SessionOf(tick.move) == Some(id)
    requires id !in s.sessions || TokenOf(tick.move) != Some(s.sessions[id].token)
    ensures Next(s, tick) == s.(clock := tick.now)
  {
    hide ValidRequest;
    assert s.threads - {tick.t} == s.threads;
  }

  // ----- the regions are the calls' -----

  /**
   * The region of a thread that hands a job over, reports an event or confirms the first boot does to
   * the jobs what the call does that nothing interrupts.
   */
  lemma RegionsAreTheCalls(s: System, tick: Tick)
    requires Enabled(s, tick) && tick.move.Advance?
    ensures var p, env := s.threads[tick.t], tick.move.env;
            && (p.GuardLease? ==>
                  var o := HandOff(s.jobs, p.b, env.freshId, tick.now, env.persisted);
                  JobsAfter(s, tick) == (o.jobs, o.result.Ok?))
            && (p.EventReport? && p.b.lease.Some? ==>
                  var o := Reported(s.jobs, p.b, Sent(p.kind, env.calledAt, tick.now), env.persisted);
                  JobsAfter(s, tick) == (o.jobs, o.result.Ok?))
            && (p.BootComplete? && p.b.lease.Some? ==>
                  var o := Confirmed(s.jobs, p.b, tick.now, env.persisted);
                  JobsAfter(s, tick) == (o.jobs, o.result.Ok?))
            && (p.DiscoverMark? ==>
                  var o := MarkBooting(s.jobs, p.found.id, p.device, p.found.imageId, tick.now, env.persisted);
                  JobsAfter(s, tick) == (o.jobs, o.result.Ok?))
            && (!p.GuardLease? && !p.EventReport? && !p.BootComplete? && !p.DiscoverMark? ==>
                  JobsAfter(s, tick) == (s.jobs, true))
  {
    hide LeaseInstaller, ReportInstaller, CompleteInstaller, MarkBooting;
  }

  /** What an accepted event leads to: a failure ends the session, and waiting for the boot is noted in it. */
  lemma EventsMoveSessions(s: System, tick: Tick)
    requires Enabled(s, tick) && tick.move.Advance? && s.threads[tick.t].EventReport?
    ensures var p, n := s.threads[tick.t], Next(s, tick);
            && n.sessions == s.sessions && n.trace == s.trace
            && (tick.t in n.threads ==>
                  JobsAfter(s, tick).1
                  && n.threads[tick.t] == if p.kind == Fail then Finish(p.b) else EventAwait(p.b))
            && (JobsAfter(s, tick).1 && (p.kind == Fail || (p.kind == AwaitBoot && p.b.phase == HandedOff)) <==>
                  tick.t in n.threads)
  {
    hide JobsAfter;
  }

  // ----- how a device finds its job -----

  /** An installer job of the device that is not over. */
  predicate UnfinishedInstaller(j: Job, device: Uuid) {
    && j.operation == InstallLinux && j.state != Succeeded && j.state != Cancelled
    && |j.targets| == 1 && j.targets[0].deviceId == device
  }

  predicate OnlyUnfinished(jobs: seq<Job>, device: Uuid, i: int) {
    0 <= i < |jobs| && forall k :: 0 <= k < |jobs| ==> (UnfinishedInstaller(jobs[k], device) <==> k == i)
  }

  lemma {:induction false} NoneActive(jobs: seq<Job>, device: Uuid)
    ensures ActiveInstallers(jobs, device) == []
            <==> forall k :: 0 <= k < |jobs| ==> !UnfinishedInstaller(jobs[k], device)
  {
    if jobs != [] {
      NoneActive(jobs[1..], device);
      assert forall k :: 0 < k < |jobs| ==> jobs[k] == jobs[1..][k - 1];
    }
  }

  lemma {:induction false} OneActive(jobs: seq<Job>, device: Uuid)
    ensures |ActiveInstallers(jobs, device)| == 1 <==> exists i :: OnlyUnfinished(jobs, device, i)
    ensures forall i :: OnlyUnfinished(jobs, device, i) ==>
              0 <= i < |jobs| && ActiveInstallers(jobs, device) == [jobs[i]]
  {
    if jobs != [] {
      var rest := jobs[1..];
      NoneActive(rest, device);
      OneActive(rest, device);
      assert forall k :: 0 < k < |jobs| ==> jobs[k] == rest[k - 1];
      var own := ActiveInstallers(jobs, device);
      assert own == (if UnfinishedInstaller(jobs[0], device) then [jobs[0]] else []) + ActiveInstallers(rest, device);
      hide ActiveInstallers, UnfinishedInstaller;
      forall i | OnlyUnfinished(jobs, device, i)
        ensures own == [jobs[i]]
      {
        if i > 0 {
          assert OnlyUnfinished(rest, device, i - 1);
        } else {
          assert forall k :: 0 <= k < |rest| ==> rest[k] == jobs[k + 1];
        }
      }
      if |own| == 1 {
        if UnfinishedInstaller(jobs[0], device) {
          assert OnlyUnfinished(jobs, device, 0);
        } else {
          var i :| OnlyUnfinished(rest, device, i);
          assert OnlyUnfinished(jobs, device, i + 1);
        }
      }
    }
  }

  /** A device that asks is offered a job exactly when it has one unfinished installer job, which is queued. */
  lemma DiscoveredMeans(jobs: seq<Job>, device: Uuid, suitable: bool, p: Program)
    ensures Discovered(jobs, device, suitable) == Some(p)
            <==> suitable && exists i :: OnlyUnfinished(jobs, device, i) && jobs[i].state == Waiting
                                         && p == DiscoverMark(device, jobs[i])
  {
    hide ActiveInstallers, OnlyUnfinished;
    OneActive(jobs, device);
  }

  // ----- from the first region to the release -----

  /** The guard request a thread is working on. */
  function RequestOf(p: Program): Option<GuardRequest> {
    match p
    case GuardClaim(_, request) => Some(request)
    case GuardPrepare(_, request) => Some(request)
    case GuardRead(_, request, _) => Some(request)
    case GuardLease(_, request, _, _) => Some(request)
    case GuardCommit(_, request, _, _, _, _) => Some(request)
    case ReplayPrepare(_, request) => Some(request)
    case ReplayRead(_, request) => Some(request)
    case _ => None
  }

  /** The tick began a guard call, with the session's secret and before the session expired. */
  predicate BeganGuard(s: System, tick: Tick, session: Uuid, image: Uuid, request: GuardRequest) {
    && tick.move.StartGuard? && tick.move.session == session && tick.move.request == request
    && session in s.sessions && s.sessions[session].image == image
    && s.sessions[session].token == tick.move.token && tick.now <= s.sessions[session].expiresAt
  }

  /** What one step does to a thread that is then at work on a guard request. */
  lemma GuardThreadGoesBack(s: System, tick: Tick, t: nat)
    requires Enabled(s, tick) && t in Next(s, tick).threads && RequestOf(Next(s, tick).threads[t]).Some?
    ensures var p := Next(s, tick).threads[t];
            || (t in s.threads && HasBinding(s.threads[t]) && s.threads[t].b == p.b
                && RequestOf(s.threads[t]) == RequestOf(p))
            || BeganGuard(s, tick, p.b.session, p.b.image, RequestOf(p).value)
  {
    if tick.move.Advance? {
      hide Next, Lookup, UniquelyMatchingDisk;
      AdvanceBecomes(s, tick);
    } else {
      hide JobsAfter, ActiveInstallers, ValidRequest, IsRetry;
    }
  }

  /** Every thread at work on a guard request goes back to a call that presented its session's secret. */
  lemma {:induction false} GuardThreadBegan(states: seq<System>, ticks: seq<Tick>, i: nat, t: nat) returns (m: nat)
    requires IsRun(states, ticks) && i < |states| && t in states[i].threads && RequestOf(states[i].threads[t]).Some?
    ensures var p := states[i].threads[t];
            && HasBinding(p) && m < i
            && BeganGuard(states[m], ticks[m], p.b.session, p.b.image, RequestOf(p).value)
  {
    hide Next, Enabled, BeganGuard;
    var p := states[i].threads[t];
    GuardThreadGoesBack(states[i - 1], ticks[i - 1], t);
    if BeganGuard(states[i - 1], ticks[i - 1], p.b.session, p.b.image, RequestOf(p).value) {
      m := i - 1;
    } else {
      m := GuardThreadBegan(states, ticks, i - 1, t);
    }
  }

  /** The event of one step that gives a configuration out, and the thread that gave it. */
  lemma GivenByGuard(s: System, tick: Tick, e: Event)
    requires Enabled(s, tick) && (e.Released? || e.Replayed?) && Next(s, tick).trace == s.trace + [e]
    ensures tick.t in s.threads && (s.threads[tick.t].GuardCommit? || s.threads[tick.t].ReplayRead?)
    ensures s.threads[tick.t].b.session == e.session && RequestOf(s.threads[tick.t]).Some?
    ensures RequestOf(s.threads[tick.t]).value.disks == e.disks
    ensures e.Released? ==>
              var p := s.threads[tick.t];
              && p.GuardCommit? && p.disk.path == e.path && p.target == e.target
  {
    hide JobsAfter, UniquelyMatchingDisk;
    assert Next(s, tick).trace[|s.trace|] == e;
    OnlyAdvancesGive(s, tick, e);
    AdvanceGives(s, tick);
    hide Next;
  }

  lemma OnlyAdvancesGive(s: System, tick: Tick, e: Event)
    requires Enabled(s, tick) && (e.Released? || e.Replayed?) && Next(s, tick).trace == s.trace + [e]
    ensures tick.move.Advance?
  {
    hide JobsAfter, Started, Given, Continued, SessionsAfter;
    assert Next(s, tick).trace[|s.trace|] == e;
  }

  /**
   * In every run, each configuration that is handed out, for the first time or again, goes back to a
   * guard call that presented the secret of its session before the session expired, and names a disk
   * among those that very call reported.
   */
  lemma HandedOutToTheSession(states: seq<System>, ticks: seq<Tick>, i: nat, e: Event) returns (m: nat, image: Uuid)
    requires IsRun(states, ticks) && i < |ticks| && (e.Released? || e.Replayed?)
    requires states[i + 1].trace == states[i].trace + [e]
    ensures m < i && ticks[m].move.StartGuard?
    ensures BeganGuard(states[m], ticks[m], e.session, image, ticks[m].move.request)
    ensures ticks[m].move.request.disks == e.disks
  {
    hide Next, Enabled, BeganGuard;
    GivenByGuard(states[i], ticks[i], e);
    m := GuardThreadBegan(states, ticks, i, ticks[i].t);
    var p := states[i].threads[ticks[i].t];
    image := p.b.image;
    BeganWith(states[m], ticks[m], p.b.session, p.b.image, RequestOf(p).value);
  }

  lemma BeganWith(s: System, tick: Tick, session: Uuid, image: Uuid, request: GuardRequest)
    requires BeganGuard(s, tick, session, image, request)
    ensures tick.move.StartGuard? && tick.move.request == request
  {
  }

  // ----- what was checked in between -----

  /** The tick prepared a medium that is the one asked for, made from the session's image. */
  predicate PreparedMedium(tick: Tick, request: GuardRequest, image: Uuid, prepared: Prepared) {
    && tick.move.Advance? && tick.move.env.prepared == Some(prepared)
    && SameText(prepared.isoSha, request.imageSha) && prepared.artifact == image
  }

  predicate MediumKnown(p: Program) {
    p.GuardRead? || p.GuardLease? || p.GuardCommit?
  }

  predicate RoomFor(p: Program, prepared: Prepared) {
    && (p.GuardRead? ==> p.prepared == prepared)
    && (p.GuardLease? || p.GuardCommit? ==> prepared.minimumDiskBytes <= p.disk.sizeBytes)
  }

  lemma MediumThreadGoesBack(s: System, tick: Tick, t: nat)
    requires Enabled(s, tick) && t in Next(s, tick).threads && MediumKnown(Next(s, tick).threads[t])
    ensures var p := Next(s, tick).threads[t];
            && t in s.threads && HasBinding(s.threads[t]) && s.threads[t].b == p.b
            && RequestOf(s.threads[t]) == RequestOf(p) && RequestOf(p).Some?
            && if p.GuardRead? && s.threads[t].GuardPrepare? then
                 PreparedMedium(tick, p.request, p.b.image, p.prepared)
               else
                 && MediumKnown(s.threads[t])
                 && forall prepared :: RoomFor(s.threads[t], prepared) ==> RoomFor(p, prepared)
  {
  }

  lemma {:induction false} MediumWasPrepared(states: seq<System>, ticks: seq<Tick>, i: nat, t: nat)
    returns (m: nat, prepared: Prepared)
    requires IsRun(states, ticks) && i < |states| && t in states[i].threads && MediumKnown(states[i].threads[t])
    ensures var p := states[i].threads[t];
            m < i && PreparedMedium(ticks[m], p.request, p.b.image, prepared) && RoomFor(p, prepared)
  {
    hide Next, Enabled, PreparedMedium;
    var p := states[i].threads[t];
    MediumThreadGoesBack(states[i - 1], ticks[i - 1], t);
    if p.GuardRead? && states[i - 1].threads[t].GuardPrepare? {
      m, prepared := i - 1, p.prepared;
    } else {
      m, prepared := MediumWasPrepared(states, ticks, i - 1, t);
    }
  }

  /** The path is that of the only disk that carries the target's fingerprint, and it is large enough. */
  ghost predicate ChosenDisk(e: Event, minimumBytes: U64)
    requires e.Released?
  {
    exists k ::
      OnlyObserved(e.target, e.disks, k) && e.disks[k].path == e.path && minimumBytes <= e.disks[k].sizeBytes
  }

  lemma CommittedDisk(s: System, t: nat, e: Event, prepared: Prepared)
    requires Inv(s) && t in s.threads && s.threads[t].GuardCommit? && RoomFor(s.threads[t], prepared) && e.Released?
    requires var p := s.threads[t];
             p.disk.path == e.path && p.target == e.target && p.request.disks == e.disks
    ensures ChosenDisk(e, prepared.minimumDiskBytes)
  {
    hide Runs.Inv, TraceOk, SessionOk, ThreadsApart, CountOk, UniquelyMatchingDisk, OnlyObserved, BoundToSession,
         OwnsSession, ActsUnderLease, LeaseUnused, TargetIs;
    var p := s.threads[t];
    assert ThreadOk(s, p);
    SelectedIsObserved(p.target, p.request.disks, p.disk);
  }

  /**
   * In every run, between the call and each first release a medium was prepared that is the one the
   * call asked for, made from the session's image, and the disk the configuration names is the only
   * one the call reported that carries the target's fingerprint, and large enough for that medium.
   */
  lemma ReleaseWasChecked(states: seq<System>, ticks: seq<Tick>, i: nat, e: Event)
    returns (m: nat, n: nat, image: Uuid, prepared: Prepared)
    requires IsRun(states, ticks) && i < |ticks| && e.Released? && states[i + 1].trace == states[i].trace + [e]
    ensures m < i && n < i && ticks[m].move.StartGuard? && ticks[m].move.request.disks == e.disks
    ensures BeganGuard(states[m], ticks[m], e.session, image, ticks[m].move.request)
    ensures PreparedMedium(ticks[n], ticks[m].move.request, image, prepared)
    ensures ChosenDisk(e, prepared.minimumDiskBytes)
  {
    hide Next, Enabled, BeganGuard, PreparedMedium, ChosenDisk, Inv, RoomFor;
    GivenByGuard(states[i], ticks[i], e);
    var t := ticks[i].t;
    var p := states[i].threads[t];
    m := GuardThreadBegan(states, ticks, i, t);
    BeganWith(states[m], ticks[m], p.b.session, p.b.image, RequestOf(p).value);
    n, prepared := MediumWasPrepared(states, ticks, i, t);
    image := p.b.image;
    RunKeepsInv(states, ticks, i);
    CommittedDisk(states[i], t, e, prepared);
  }

  // ----- a session's secret -----

  /** What no call and no operator ever changes about a session. */
  predicate SameSecret(x: Session, y: Session) {
    && y.token == x.token && y.attempt == x.attempt && y.device == x.device && y.job == x.job && y.image == x.image
  }

  lemma NextKeepsSecret(s: System, tick: Tick, id: Uuid)
    requires Inv(s) && Enabled(s, tick) && id in s.issued && id in Next(s, tick).sessions
    ensures id in s.sessions && SameSecret(s.sessions[id], Next(s, tick).sessions[id])
  {
    hide Next, Inv, JobsAfter;
    if tick.move.Advance? {
      AdvanceIssues(s, tick);
      AdvanceMovesSessions(s, tick, id);
    } else {
      OtherMovesKeepThreads(s, tick);
    }
  }

  /** An id names one session, with one secret, for as long as a run lasts. */
  lemma {:induction false} SecretsAreFixed(states: seq<System>, ticks: seq<Tick>, i: nat, j: nat, id: Uuid)
    requires IsRun(states, ticks) && i <= j < |states| && id in states[i].sessions && id in states[j].sessions
    ensures SameSecret(states[i].sessions[id], states[j].sessions[id])
  {
    hide Inv, Next, Enabled;
    if i < j {
      RunKeepsInv(states, ticks, i);
      SessionIdIsIssued(states[i], id);
      IdStaysIssued(states, ticks, i, j - 1, id);
      RunKeepsInv(states, ticks, j - 1);
      NextKeepsSecret(states[j - 1], ticks[j - 1], id);
      SecretsAreFixed(states, ticks, i, j - 1, id);
    }
  }

  /** A session that appears is a new one: offered, for two hours, with the secret the surroundings drew for it. */
  lemma NewSessionsAreOffered(s: System, tick: Tick, id: Uuid)
    requires Enabled(s, tick) && id !in s.sessions && id in Next(s, tick).sessions
    ensures tick.move.Advance? && id == tick.move.env.freshId && id !in s.issued
    ensures tick.t in s.threads && s.threads[tick.t].DiscoverOffer?
    ensures var x, env, p := Next(s, tick).sessions[id], tick.move.env, s.threads[tick.t];
            && x.token == env.token && x.attempt == env.attempt && x.phase == Offered && x.lease == None
            && x.expiresAt == env.calledAt + 2 * 3_600_000_000_000
            && x.device == p.device && x.job == p.found.id && x.image == p.found.imageId
  {
    if tick.move.Advance? {
      hide Next, JobsAfter;
      AdvanceMovesSessions(s, tick, id);
    } else {
      OtherMovesKeepThreads(s, tick);
    }
  }
}
