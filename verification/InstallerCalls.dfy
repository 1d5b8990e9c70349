/**
 * What the installer's calls do as a whole when nothing interrupts them, and which sequences of calls
 * get through, from crates/service/src/installer_deployment.rs.
 */
module InstallerCalls {
  import opened Common
  import opened DeploymentTypes
  import opened RepositorySpec
  import opened InstallerSessions

  datatype Service = Service(sessions: Sessions, jobs: seq<Job>)

  // ----- authorize_guard -----

  /** Everything an initial authorization needs before it leases the job. */
  predicate Grantable(jobs: seq<Job>, b: Binding, request: GuardRequest, prepared: Option<Prepared>) {
    && MediaChecked(prepared, request.imageSha) && prepared.value.artifact == b.image
    && BoundJob(jobs, b, Waiting).Ok?
    && ChooseDisk(BoundJob(jobs, b, Waiting).value, request.disks, prepared.value.minimumDiskBytes).Ok?
  }

  /** Everything a repeated authorization needs. */
  predicate Replayable(jobs: seq<Job>, b: Binding, request: GuardRequest, prepared: Option<Prepared>) {
    && MediaChecked(prepared, request.imageSha)
    && BoundJob(jobs, b, Running).Ok? && BoundJob(jobs, b, Running).value.leaseId == b.lease
    && ChooseDiskAgain(BoundJob(jobs, b, Running).value, request.disks).Ok?
  }

  function HandOff(jobs: seq<Job>, b: Binding, lease: Uuid, now: Time, persisted: bool): Outcome<Job> {
    LeaseInstaller(jobs, b.job, b.device, b.image, lease, INSTALLER_LEASE, now, persisted)
  }

  // ----- report_event and complete_first_boot -----

  /** What a reported event does to the job. */
  function Reported(jobs: seq<Job>, b: Binding, e: Sent, persisted: bool): Outcome<Job>
    requires b.lease.Some?
  {
    if e.kind == Fail then CompleteInstaller(jobs, b.job, b.device, b.lease.value, false, e.now, persisted)
    else ReportInstaller(jobs, b.job, b.device, b.lease.value, e.calledAt + INSTALLER_LEASE,
                         EventProgress(e.kind).0, Percent(e.kind), e.now, persisted)
  }

  function Confirmed(jobs: seq<Job>, b: Binding, now: Time, persisted: bool): Outcome<Job>
    requires b.lease.Some?
  {
    CompleteInstaller(jobs, b.job, b.device, b.lease.value, true, now, persisted)
  }

  predicate Installing(b: Binding) {
    b.phase in {HandedOff, AwaitingBoot} && b.lease.Some?
  }

  function PhaseAfter(phase: Phase, kind: EventKind): Phase {
    if kind == Fail then Completed else if kind == AwaitBoot then AwaitingBoot else phase
  }

  /** `report_event`: the service afterwards, or nothing when the call is refused. */
  function EventCall(s: Service, id: Uuid, token: Uuid, e: Sent, persisted: bool): Option<Service> {
    var b := Authenticate(s.sessions, id, token, e.now);
    if b.Err? || !Installing(b.value) then None
    else
      var r := Reported(s.jobs, b.value, e, persisted);
      var x := s.sessions[id];
      if r.result.Err? then None else Some(Service(s.sessions[id := x.(phase := PhaseAfter(x.phase, e.kind))], r.jobs))
  }

  /** `complete_first_boot`: the same; a completed session is confirmed again without a change. */
  function BootCall(s: Service, id: Uuid, token: Uuid, attempt: Uuid, now: Time, persisted: bool): Option<Service> {
    var b := Authenticate(s.sessions, id, token, now);
    if b.Err? || b.value.attempt != attempt then None
    else if b.value.phase == Completed then Some(s)
    else if !Installing(b.value) then None
    else
      var r := Confirmed(s.jobs, b.value, now, persisted);
      if r.result.Err? then None
      else Some(Service(s.sessions[id := s.sessions[id].(phase := Completed)], r.jobs))
  }

  // ----- which calls get through -----

  /**
   * The session has been handed its job, which runs under the session's lease, and the lease lasts at
   * least as long as the session. `InstallerLeases` shows the last of every run.
   */
  predicate HandedTo(s: Service, id: Uuid, token: Uuid) {
    && id in s.sessions && s.sessions[id].token == token
    && s.sessions[id].phase in {HandedOff, AwaitingBoot} && s.sessions[id].lease.Some?
    && Lookup(s.jobs, s.sessions[id].job).Some?
    && var job := Lookup(s.jobs, s.sessions[id].job).value;
       && Reporting(job, s.sessions[id].device, s.sessions[id].lease.value)
       && s.sessions[id].expiresAt <= job.leaseExpiresAt.value
  }

  function ProgressOf(s: Service, id: Uuid, token: Uuid): nat
    requires HandedTo(s, id, token)
  {
    Lookup(s.jobs, s.sessions[id].job).value.progress
  }

  /** Everything about a session but its phase. */
  predicate SameButPhase(x: Session, y: Session) {
    y == x.(phase := y.phase)
  }

  /**
   * One event: the session's own expiry, which no event renews, and the order of events decide. The
   * lease, which every event renews, never does.
   */
  lemma EventIsAccepted(s: Service, id: Uuid, token: Uuid, e: Sent)
    requires HandedTo(s, id, token) && e.kind != Fail
    ensures var r := EventCall(s, id, token, e, true);
            && (r.Some? <==> e.now <= s.sessions[id].expiresAt && ProgressOf(s, id, token) <= Percent(e.kind))
            && (r.Some? ==>
                  && HandedTo(r.value, id, token) && SameButPhase(s.sessions[id], r.value.sessions[id])
                  && ProgressOf(r.value, id, token) == Percent(e.kind))
  {
    hide ReportInstaller, Reporting, Lookup, EventProgress, Percent;
    var x := s.sessions[id];
    ReportIsAccepted(s.jobs, x.job, x.device, x.lease.value, e);
  }

  /** The service after all events have been sent, unless one of the calls was refused. */
  function AfterCalls(s: Service, id: Uuid, token: Uuid, events: seq<Sent>): Option<Service>
    decreases |events|
  {
    if events == [] then Some(s)
    else
      var r := EventCall(s, id, token, events[0], true);
      if r.None? then None else AfterCalls(r.value, id, token, events[1..])
  }

  predicate AllBy(events: seq<Sent>, deadline: Time) {
    forall e :: e in events ==> e.now <= deadline
  }

  /**
   * A sequence of events gets through exactly when all of them come before the session expires, at the
   * instant fixed at its handoff, and in the order of an installation.
   */
  lemma {:induction false} EventsInOrderAreAccepted(s: Service, id: Uuid, token: Uuid, events: seq<Sent>)
    requires HandedTo(s, id, token) && forall e :: e in events ==> e.kind != Fail
    ensures var r := AfterCalls(s, id, token, events);
            && (r.Some? <==> AllBy(events, s.sessions[id].expiresAt) && InOrder(events)
                             && (events != [] ==> ProgressOf(s, id, token) <= Percent(events[0].kind)))
            && (r.Some? ==> HandedTo(r.value, id, token) && SameButPhase(s.sessions[id], r.value.sessions[id]))
    decreases |events|
  {
    if events != [] {
      hide EventCall, HandedTo, Percent, ProgressOf, InOrder;
      HandedIsThere(s, id, token);
      assert events[0] in events;
      EventIsAccepted(s, id, token, events[0]);
      OrderOfFirst(events);
      FirstBy(events, s.sessions[id].expiresAt);
      var r := EventCall(s, id, token, events[0], true);
      if r.Some? {
        HandedIsThere(r.value, id, token);
        EventsInOrderAreAccepted(r.value, id, token, events[1..]);
      }
    }
  }

  lemma HandedIsThere(s: Service, id: Uuid, token: Uuid)
    requires HandedTo(s, id, token)
    ensures id in s.sessions
  {
  }

  lemma FirstBy(events: seq<Sent>, deadline: Time)
    requires events != []
    ensures AllBy(events, deadline) <==> events[0].now <= deadline && AllBy(events[1..], deadline)
  {
    assert forall e :: e in events <==> e == events[0] || e in events[1..];
  }

  /** A confirmation gets through exactly when it comes before the session expires, and then the job has succeeded. */
  lemma ConfirmationIsAccepted(s: Service, id: Uuid, token: Uuid, attempt: Uuid, now: Time)
    requires HandedTo(s, id, token)
    ensures var r := BootCall(s, id, token, attempt, now, true);
            && (r.Some? <==> s.sessions[id].attempt == attempt && now <= s.sessions[id].expiresAt)
            && (r.Some? ==>
                  && r.value.sessions[id] == s.sessions[id].(phase := Completed)
                  && Lookup(r.value.jobs, s.sessions[id].job).Some?
                  && Lookup(r.value.jobs, s.sessions[id].job).value.state == Succeeded)
  {
    var x := s.sessions[id];
    var i := IndexOf(s.jobs, x.job).value;
    var edited := EditInstallerCompletion(s.jobs[i], x.device, x.lease.value, true, now);
    if edited.Ok? {
      IndexStays(s.jobs, i, edited.value);
    }
  }

  // ----- from the handoff to the end -----

  /** The service after `b`'s session has been given the job of its binding under a new lease. */
  function Handed(s: Service, b: Binding, lease: Uuid, now: Time): Service {
    Service(TakeLease(s.sessions, b.session, lease, now + INSTALLER_LEASE).sessions,
        HandOff(s.jobs, b, lease, now, true).jobs)
  }

  predicate HandsOver(s: Service, b: Binding, lease: Uuid, now: Time) {
    && b.session in s.sessions && SameSession(b, s.sessions[b.session])
    && HandOff(s.jobs, b, lease, now, true).result.Ok?
    && TakeLease(s.sessions, b.session, lease, now + INSTALLER_LEASE).result.Ok?
  }

  lemma HandoffHands(s: Service, b: Binding, lease: Uuid, now: Time)
    requires HandsOver(s, b, lease, now)
    ensures var h := Handed(s, b, lease, now);
            && b.session in h.sessions && h.sessions[b.session].expiresAt == now + INSTALLER_LEASE
            && h.sessions[b.session].token == s.sessions[b.session].token
            && h.sessions[b.session].attempt == b.attempt && h.sessions[b.session].job == b.job
            && h.sessions[b.session].device == b.device && h.sessions[b.session].lease == Some(lease)
            && HandedTo(h, b.session, s.sessions[b.session].token)
            && ProgressOf(h, b.session, s.sessions[b.session].token) == 1
            && Lookup(h.jobs, b.job).Some? && Lookup(h.jobs, b.job).value.leaseExpiresAt == Some(now + INSTALLER_LEASE)
  {
    hide Reporting, EditInstallerLease;
    var i := IndexOf(s.jobs, b.job).value;
    HandedOverReports(s.jobs[i], b.device, b.image, lease, INSTALLER_LEASE, now);
    KeepsId(s.jobs[i], b.device, b.image, lease, now);
    IndexStays(s.jobs, i, HandOff(s.jobs, b, lease, now, true).result.value);
  }

  lemma KeepsId(job: Job, device: Uuid, image: Uuid, lease: Uuid, now: Time)
    requires EditInstallerLease(job, device, image, lease, INSTALLER_LEASE, now).Ok?
    ensures EditInstallerLease(job, device, image, lease, INSTALLER_LEASE, now).value.id == job.id
  {
  }

  lemma OnePercentIsBelow(kind: EventKind)
    requires kind != Fail
    ensures 1 <= Percent(kind)
  {
  }

  /** From the handoff on, events get through exactly when they come in order and within four hours of it. */
  lemma EventsAfterHandoffAreAccepted(s: Service, b: Binding, lease: Uuid, now: Time, events: seq<Sent>)
    requires HandsOver(s, b, lease, now) && forall e :: e in events ==> e.kind != Fail
    ensures AfterCalls(Handed(s, b, lease, now), b.session, s.sessions[b.session].token, events).Some?
            <==> AllBy(events, now + INSTALLER_LEASE) && InOrder(events)
  {
    hide HandsOver, Handed, HandedTo, AfterCalls, InOrder, AllBy, Percent, ProgressOf;
    assert b.session in s.sessions by {
      HandsIsThere(s, b, lease, now);
    }
    HandoffHands(s, b, lease, now);
    EventsInOrderAreAccepted(Handed(s, b, lease, now), b.session, s.sessions[b.session].token, events);
    if events != [] {
      assert events[0] in events;
      OnePercentIsBelow(events[0].kind);
    }
  }

  lemma HandsIsThere(s: Service, b: Binding, lease: Uuid, now: Time)
    requires HandsOver(s, b, lease, now)
    ensures b.session in s.sessions
  {
  }

  /**
   * A whole installation, its events and then its confirmation, gets through exactly when the events
   * come in order and all of it within four hours of the handoff.
   */
  lemma InstallationsEndInTime(s: Service, b: Binding, lease: Uuid, now: Time, events: seq<Sent>, confirmedAt: Time)
    requires HandsOver(s, b, lease, now) && forall e :: e in events ==> e.kind != Fail
    ensures var token := s.sessions[b.session].token;
            var reached := AfterCalls(Handed(s, b, lease, now), b.session, token, events);
            (reached.Some? && BootCall(reached.value, b.session, token, b.attempt, confirmedAt, true).Some?)
            <==> AllBy(events, now + INSTALLER_LEASE) && InOrder(events) && confirmedAt <= now + INSTALLER_LEASE
  {
    hide HandsOver, Handed, HandedTo, AfterCalls, InOrder, AllBy, BootCall, ProgressOf, Percent;
    HandsIsThere(s, b, lease, now);
    var token := s.sessions[b.session].token;
    var h := Handed(s, b, lease, now);
    HandoffHands(s, b, lease, now);
    EventsAfterHandoffAreAccepted(s, b, lease, now, events);
    EventsInOrderAreAccepted(h, b.session, token, events);
    var reached := AfterCalls(h, b.session, token, events);
    if reached.Some? {
      HandedIsThere(reached.value, b.session, token);
      ConfirmationIsAccepted(reached.value, b.session, token, b.attempt, confirmedAt);
    }
  }

  /** An expired session gets nothing through, however long its lease has been renewed for. */
  lemma ExpiredSessionIsShut(s: Service, id: Uuid, token: Uuid, e: Sent, attempt: Uuid, persisted: bool)
    requires id in s.sessions && s.sessions[id].token == token && s.sessions[id].expiresAt < e.now
    ensures Authenticate(s.sessions, id, token, e.now) == Err(Expired)
    ensures EventCall(s, id, token, e, persisted).None? && BootCall(s, id, token, attempt, e.now, persisted).None?
  {
  }

  /**
   * An event 200 minutes after the handoff is accepted and renews the lease to 440 minutes. The next
   * one, at 300 minutes, comes under a held lease and in order, and the repository would accept it; the
   * call is refused, because its session expired at 240 minutes. So is a confirmation.
   */
  lemma LateEventIsRefused(s: Service, b: Binding, lease: Uuid, now: Time)
    requires HandsOver(s, b, lease, now)
    ensures var token := s.sessions[b.session].token;
            var h := Handed(s, b, lease, now);
            var first := Sent(Partition, now + 200 * MINUTE, now + 200 * MINUTE);
            var second := Sent(InstallSystem, now + 300 * MINUTE, now + 300 * MINUTE);
            && AfterReports(h.jobs, b.job, b.device, lease, [first, second]).Some?
            && AfterCalls(h, b.session, token, [first]).Some?
            && AfterCalls(h, b.session, token, [first, second]).None?
            && Authenticate(h.sessions, b.session, token, now + 300 * MINUTE) == Err(Expired)
            && BootCall(h, b.session, token, b.attempt, now + 300 * MINUTE, true).None?
  {
    hide HandsOver, Handed, HandedTo, AfterCalls, AfterReports, InOrder, InTime, BootCall, ProgressOf, EventCall,
         Authenticate;
    HandsIsThere(s, b, lease, now);
    var token := s.sessions[b.session].token;
    var h := Handed(s, b, lease, now);
    var first := Sent(Partition, now + 200 * MINUTE, now + 200 * MINUTE);
    var second := Sent(InstallSystem, now + 300 * MINUTE, now + 300 * MINUTE);
    HandoffHands(s, b, lease, now);
    EventsAfterHandoffAreAccepted(s, b, lease, now, [first]);
    EventsAfterHandoffAreAccepted(s, b, lease, now, [first, second]);
    ExpiredSessionIsShut(h, b.session, token, second, b.attempt, true);
    LateEventsAreInOrder(first, second, now + INSTALLER_LEASE);
    HandedReports(h, b.session, token);
    ReportsInOrderAreAccepted(h.jobs, b.job, b.device, lease, [first, second]);
  }

  lemma HandedReports(s: Service, id: Uuid, token: Uuid)
    requires HandedTo(s, id, token)
    ensures id in s.sessions && s.sessions[id].lease.Some? && Lookup(s.jobs, s.sessions[id].job).Some?
    ensures Reporting(Lookup(s.jobs, s.sessions[id].job).value, s.sessions[id].device, s.sessions[id].lease.value)
    ensures ProgressOf(s, id, token) == Lookup(s.jobs, s.sessions[id].job).value.progress
  {
    hide Reporting, Lookup;
  }

  lemma LateEventsAreInOrder(first: Sent, second: Sent, expiry: Time)
    requires first.kind == Partition && second.kind == InstallSystem
    requires first.now <= expiry < second.now <= first.calledAt + INSTALLER_LEASE
    ensures InOrder([first]) && InOrder([first, second]) && InTime([first, second], expiry)
    ensures AllBy([first], expiry) && !AllBy([first, second], expiry)
  {
    assert second in [first, second];
    assert [first, second][1..] == [second] && [second][1..] == [];
  }
}
