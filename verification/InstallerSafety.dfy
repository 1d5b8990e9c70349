/** Safety of the installer handoff over every interleaving. */
module InstallerSafety {
  import opened Common
  import opened DeploymentTypes
  import opened RepositorySpec
  import opened InstallerSessions
  import opened InstallerProtocol
  import Runs = RepositoryRuns

  // ----- invariants -----

  /** Threads between claiming a session and giving it up. */
  predicate Owner(p: Program) {
    p.GuardPrepare? || p.GuardRead? || p.GuardLease? || p.GuardCommit? || p.GuardUndo?
  }

  /** Threads that act under a session's lease. */
  predicate Bound(p: Program) {
    p.ReplayPrepare? || p.ReplayRead? || p.EventReport? || p.EventAwait? || p.BootComplete? || p.Finish?
  }

  predicate HasBinding(p: Program) {
    p.GuardClaim? || Owner(p) || Bound(p)
  }

  predicate ReleasedTo(trace: seq<Event>, session: Uuid, job: Uuid, lease: Uuid) {
    exists e :: e in trace && e.Released? && e.session == session && e.job == job && e.lease == lease
  }

  predicate NeverReleased(trace: seq<Event>, session: Uuid) {
    forall e :: e in trace && e.Released? ==> e.session != session
  }

  predicate LeaseUnused(trace: seq<Event>, lease: Uuid) {
    forall e :: e in trace && e.Released? ==> e.lease != lease
  }

  /** The stored job, if there still is one, has exactly this target. */
  predicate TargetIs(jobs: seq<Job>, id: Uuid, target: DeploymentTarget) {
    Lookup(jobs, id).Some? ==> Lookup(jobs, id).value.targets == [target]
  }

  predicate BoundToSession(s: System, p: Program) {
    && (HasBinding(p) ==>
          && p.b.session in s.issued && p.b.job in s.issued
          && (p.b.session in s.sessions ==> SameSession(p.b, s.sessions[p.b.session])))
    && (p.DiscoverOffer? || p.DiscoverMark? ==> p.found.id in s.issued)
  }

  predicate OwnsSession(s: System, p: Program) {
    Owner(p) ==>
      && NeverReleased(s.trace, p.b.session)
      && (p.b.session in s.sessions ==> s.sessions[p.b.session].phase == Authorizing)
  }

  predicate ActsUnderLease(s: System, p: Program) {
    Bound(p) ==>
      && p.b.lease.Some?
      && ReleasedTo(s.trace, p.b.session, p.b.job, p.b.lease.value)
      && (p.b.session in s.sessions ==>
            PastHandoff(s.sessions[p.b.session].phase) && s.sessions[p.b.session].lease == p.b.lease)
  }

  /** What a thread knows of the session it is bound to. */
  predicate BindingOk(s: System, p: Program) {
    BoundToSession(s, p) && OwnsSession(s, p) && ActsUnderLease(s, p)
  }

  /** What a thread knows of the disk it has chosen and the lease it has taken. */
  predicate ChoiceOk(s: System, p: Program) {
    && (p.GuardLease? || p.GuardCommit? ==>
          && UniquelyMatchingDisk(p.target, p.request.disks) == Some(p.disk)
          && TargetIs(s.jobs, p.b.job, p.target))
    && (p.GuardCommit? ==>
          Leased(p.b.job, p.held, p.target) in s.trace && LeaseUnused(s.trace, p.held))
  }

  predicate ThreadOk(s: System, p: Program) {
    BindingOk(s, p) && ChoiceOk(s, p)
  }

  predicate ThreadsApart(p: Program, q: Program) {
    && (Owner(p) && Owner(q) ==> p.b.session != q.b.session)
    && (p.GuardCommit? && q.GuardCommit? ==> p.held != q.held)
  }

  predicate SessionOk(s: System, id: Uuid, x: Session) {
    && id in s.issued && x.job in s.issued
    && (x.lease.Some? <==> PastHandoff(x.phase))
    && (x.lease.Some? ==> ReleasedTo(s.trace, id, x.job, x.lease.value))
    && (x.lease.None? ==> NeverReleased(s.trace, id))
  }

  /** What the trace says is consistent: every event is justified by an earlier kind of event. */
  predicate EventOk(trace: seq<Event>, issued: set<Uuid>, e: Event) {
    match e
    case Leased(job, lease, target) => job in issued && lease in issued
    case Released(session, job, lease, target, disks, path) =>
      && session in issued && job in issued && lease in issued
      && Leased(job, lease, target) in trace
      && UniquelyMatchingDisk(target, disks).Some? && UniquelyMatchingDisk(target, disks).value.path == path
    case Replayed(session, job, repeated, target, disks, path) =>
      && repeated.Some?
      && ReleasedTo(trace, session, job, repeated.value)
      && UniquelyMatchingDisk(target, disks).Some? && UniquelyMatchingDisk(target, disks).value.path == path
    case Retried(job) => job in issued
  }

  predicate EventsApart(d: Event, e: Event) {
    && (d.Leased? && e.Leased? ==> d.lease != e.lease)
    && (d.Released? && e.Released? ==> d.lease != e.lease && d.session != e.session)
  }

  predicate TraceOk(trace: seq<Event>, issued: set<Uuid>) {
    && (forall e :: e in trace ==> EventOk(trace, issued, e))
    && (forall i, j :: 0 <= i < j < |trace| ==> EventsApart(trace[i], trace[j]))
  }

  function Leases(trace: seq<Event>, job: Uuid): nat {
    if trace == [] then 0
    else Leases(trace[..|trace| - 1], job)
         + if trace[|trace| - 1].Leased? && trace[|trace| - 1].job == job then 1 else 0
  }

  function Releases(trace: seq<Event>, job: Uuid): nat {
    if trace == [] then 0
    else Releases(trace[..|trace| - 1], job)
         + if trace[|trace| - 1].Released? && trace[|trace| - 1].job == job then 1 else 0
  }

  function Retries(trace: seq<Event>, job: Uuid): nat {
    if trace == [] then 0
    else Retries(trace[..|trace| - 1], job)
         + if trace[|trace| - 1].Retried? && trace[|trace| - 1].job == job then 1 else 0
  }

  /** A job that is drafted or queued still has its next lease ahead of it. */
  function Ahead(job: Option<Job>): nat {
    if job.Some? && job.value.state in {Draft, Waiting} then 0 else 1
  }

  predicate CountOk(s: System, job: Uuid) {
    && Leases(s.trace, job) <= Retries(s.trace, job) + Ahead(Lookup(s.jobs, job))
    && (job !in s.issued ==> Leases(s.trace, job) == 0)
  }

  ghost predicate Inv(s: System) {
    && Runs.Inv(RepoOf(s))
    && TraceOk(s.trace, s.issued)
    && (forall id :: id in s.sessions ==> SessionOk(s, id, s.sessions[id]))
    && (forall t :: t in s.threads ==> ThreadOk(s, s.threads[t]))
    && (forall t, u :: t in s.threads && u in s.threads && t != u ==> ThreadsApart(s.threads[t], s.threads[u]))
    && (forall job: Uuid :: CountOk(s, job))
  }

  // ----- the repository part -----

  lemma JobStepEnabled(s: System, tick: Tick)
    requires Enabled(s, tick) && JobStepOf(s, tick).Some?
    ensures Runs.Enabled(RepoOf(s), JobStepOf(s, tick).value)
    ensures Runs.NewIds(JobStepOf(s, tick).value.action) <= Next(s, tick).issued
    ensures s.issued <= Next(s, tick).issued
  {
  }

  lemma NextJobs(s: System, tick: Tick)
    requires Enabled(s, tick)
    ensures Next(s, tick).jobs == JobsAfter(s, tick).0
    ensures s.issued <= Next(s, tick).issued
    ensures JobStepOf(s, tick).None? ==> Next(s, tick).jobs == s.jobs
    ensures JobStepOf(s, tick).Some? ==>
              Next(s, tick).jobs == Runs.After(RepoOf(s), JobStepOf(s, tick).value).jobs
  {
    hide SessionsAfter, Continued, Given, IsRetry, Started;
  }

  /** Whatever the installers do, the job list only ever takes steps of the repository. */
  lemma NextKeepsRepoInv(s: System, tick: Tick)
    requires Runs.Inv(RepoOf(s)) && Enabled(s, tick)
    ensures Runs.Inv(RepoOf(Next(s, tick)))
  {
    hide Next, JobStepOf, Runs.Perform;
    NextJobs(s, tick);
    var n := Next(s, tick);
    if JobStepOf(s, tick).Some? {
      var step := JobStepOf(s, tick).value;
      JobStepEnabled(s, tick);
      Runs.StepKeepsInv(RepoOf(s), step);
      Runs.InvMonotone(Runs.After(RepoOf(s), step), n.issued, n.clock);
      assert s.issued + Runs.NewIds(step.action) + n.issued == n.issued;
    } else {
      Runs.InvMonotone(RepoOf(s), n.issued, n.clock);
      assert s.issued + n.issued == n.issued;
    }
  }

  /** A stored job keeps its targets, and an id in use never names another job. */
  lemma NextKeepsTarget(s: System, tick: Tick, id: Uuid, target: DeploymentTarget)
    requires Runs.Inv(RepoOf(s)) && Enabled(s, tick)
    requires id in s.issued && TargetIs(s.jobs, id, target)
    ensures TargetIs(Next(s, tick).jobs, id, target)
  {
    hide Next, JobStepOf, Runs.Perform, Runs.Inv, Lookup, Runs.EditedBy;
    NextJobs(s, tick);
    if JobStepOf(s, tick).Some? {
      var step := JobStepOf(s, tick).value;
      JobStepEnabled(s, tick);
      Runs.StepMovesRecord(RepoOf(s), step, id);
      var a, b := Lookup(s.jobs, id), Lookup(Next(s, tick).jobs, id);
      if a.Some? && b.Some? && a != b {
        Runs.EditKeepsIdentity(step, a.value, b.value);
      }
    }
  }

  // ----- the trace -----

  lemma AppendKeepsTrace(trace: seq<Event>, issued: set<Uuid>, more: set<Uuid>, e: Event)
    requires TraceOk(trace, issued) && issued <= more
    requires EventOk(trace + [e], more, e)
    requires forall d :: d in trace ==> EventsApart(d, e)
    ensures TraceOk(trace + [e], more)
  {
    hide UniquelyMatchingDisk;
    var longer := trace + [e];
    forall d | d in longer
      ensures EventOk(longer, more, d)
    {
      if d != e {
        assert d in trace;
        TraceGrows(trace, e);
      }
    }
  }

  lemma TraceGrows(trace: seq<Event>, e: Event)
    ensures forall session, job, lease :: ReleasedTo(trace, session, job, lease) ==>
              ReleasedTo(trace + [e], session, job, lease)
    ensures forall d :: d in trace + [e] <==> d in trace || d == e
  {
    assert forall d :: d in trace + [e] <==> d in trace || d == e;
  }

  lemma IssueKeepsTrace(trace: seq<Event>, issued: set<Uuid>, more: set<Uuid>)
    requires TraceOk(trace, issued) && issued <= more
    ensures TraceOk(trace, more)
  {
    hide UniquelyMatchingDisk;
  }

  lemma CountsOfAppend(trace: seq<Event>, e: Event, job: Uuid)
    ensures Leases(trace + [e], job) == Leases(trace, job) + if e.Leased? && e.job == job then 1 else 0
    ensures Releases(trace + [e], job) == Releases(trace, job) + if e.Released? && e.job == job then 1 else 0
    ensures Retries(trace + [e], job) == Retries(trace, job) + if e.Retried? && e.job == job then 1 else 0
  {
    assert (trace + [e])[..|trace|] == trace;
  }

  // ----- one region of a thread, seen from outside -----

  /** How a thread may change the session it is bound to. */
  predicate SessionMoved(p: Program, x: Session, y: Session) {
    match p
    case GuardClaim(_, _) => x.phase == Offered && y == x.(phase := Authorizing)
    case GuardCommit(_, _, _, _, held, expiresAt) =>
      x.phase == Authorizing && y == x.(phase := HandedOff, lease := Some(held), expiresAt := expiresAt)
    case GuardUndo(_) => x.phase == Authorizing && y == x.(phase := Offered)
    case EventAwait(_) => x.phase == HandedOff && y == x.(phase := AwaitingBoot)
    case Finish(_) => y == x.(phase := Completed)
    case _ => false
  }

  lemma AdvanceMovesSessions(s: System, tick: Tick, id: Uuid)
    requires Enabled(s, tick) && tick.move.Advance? && id in Next(s, tick).sessions
    ensures var p, y := s.threads[tick.t], Next(s, tick).sessions[id];
            || (id in s.sessions && y == s.sessions[id])
            || (id in s.sessions && HasBinding(p) && id == p.b.session && SessionMoved(p, s.sessions[id], y))
            || (p.DiscoverOffer? && id == tick.move.env.freshId
                && y == NewSession(p.device, p.found, tick.move.env, tick.move.env.calledAt))
  {
    hide Continued, Given, JobsAfter;
  }

  /** What an advancing thread gives out, and what it becomes when it does. */
  lemma AdvanceGives(s: System, tick: Tick)
    requires Enabled(s, tick) && tick.move.Advance?
    ensures var p, n, newId := s.threads[tick.t], Next(s, tick), tick.move.env.freshId;
            || n.trace == s.trace
            || (p.GuardLease? && n.trace == s.trace + [Leased(p.b.job, newId, p.target)] && JobsAfter(s, tick).1
                && var commit := GuardCommit(p.b, p.request, p.target, p.disk, newId, tick.now + INSTALLER_LEASE);
                   n.threads == s.threads[tick.t := commit])
            || (p.GuardCommit?
                && n.trace == s.trace + [Released(p.b.session, p.b.job, p.held, p.target, p.request.disks, p.disk.path)]
                && n.threads == s.threads - {tick.t}
                && p.b.session in n.sessions
                && n.sessions[p.b.session].phase == HandedOff && n.sessions[p.b.session].lease == Some(p.held))
            || (p.ReplayRead? && n.threads == s.threads - {tick.t}
                && exists target, path ::
                     && n.trace == s.trace + [Replayed(p.b.session, p.b.job, p.b.lease, target, p.request.disks, path)]
                     && UniquelyMatchingDisk(target, p.request.disks).Some?
                     && UniquelyMatchingDisk(target, p.request.disks).value.path == path)
    ensures s.threads[tick.t].GuardCommit? ==>
              Next(s, tick).trace != s.trace || Next(s, tick).sessions == s.sessions
  {
    hide UniquelyMatchingDisk, Renderable, BoundJob;
    var p := s.threads[tick.t];
    if p.ReplayRead? && Given(s, p, tick.move.env, true) != [] {
      var job := BoundJob(s.jobs, p.b, Running).value;
      var target := job.targets[0];
      var path := ChooseDiskAgain(job, p.request.disks).value.path;
      assert Next(s, tick).trace == s.trace + [Replayed(p.b.session, p.b.job, p.b.lease, target, p.request.disks,
          path)];
    }
  }

  lemma AdvanceKeepsTrace(s: System, tick: Tick)
    requires Inv(s) && Enabled(s, tick) && tick.move.Advance?
    ensures TraceOk(Next(s, tick).trace, Next(s, tick).issued)
  {
    hide UniquelyMatchingDisk, Next, TraceOk, JobsAfter, Runs.Inv, SessionOk, CountOk, TargetIs;
    var p, n, newId := s.threads[tick.t], Next(s, tick), tick.move.env.freshId;
    AdvanceIssues(s, tick);
    AdvanceGives(s, tick);
    assert ThreadOk(s, p);
    if n.trace == s.trace {
      IssueKeepsTrace(s.trace, s.issued, n.issued);
    } else {
      var e := n.trace[|s.trace|];
      assert n.trace == s.trace + [e];
      TraceGrows(s.trace, e);
      TraceMembersApart(s, e);
      if p.GuardCommit? {
        LeasedIsIssued(s, Leased(p.b.job, p.held, p.target));
      }
      AppendKeepsTrace(s.trace, s.issued, n.issued, e);
    }
  }

  lemma LeasedIsIssued(s: System, e: Event)
    requires TraceOk(s.trace, s.issued) && e in s.trace && e.Leased?
    ensures e.job in s.issued && e.lease in s.issued
  {
    assert EventOk(s.trace, s.issued, e);
  }

  lemma AdvanceIssues(s: System, tick: Tick)
    requires Enabled(s, tick) && tick.move.Advance?
    ensures Next(s, tick).issued == s.issued + {tick.move.env.freshId}
    ensures tick.move.env.freshId !in s.issued && tick.t in s.threads
  {
  }

  /** New leases are newId; released leases and sessions have not been released before. */
  lemma TraceMembersApart(s: System, e: Event)
    requires TraceOk(s.trace, s.issued)
    requires e.Leased? ==> e.lease !in s.issued
    requires e.Released? ==> LeaseUnused(s.trace, e.lease) && NeverReleased(s.trace, e.session)
    ensures forall d :: d in s.trace ==> EventsApart(d, e)
  {
    hide UniquelyMatchingDisk;
    forall d | d in s.trace
      ensures EventsApart(d, e)
    {
      assert EventOk(s.trace, s.issued, d);
    }
  }

  // ----- threads and sessions after one region -----

  /** The frame of every other session: its record is kept or gone, and the trace does not mention it. */
  lemma AdvanceKeepsSessions(s: System, tick: Tick, id: Uuid)
    requires Inv(s) && Enabled(s, tick) && tick.move.Advance? && id in Next(s, tick).sessions
    ensures SessionOk(Next(s, tick), id, Next(s, tick).sessions[id])
  {
    hide UniquelyMatchingDisk, Next, JobsAfter, Runs.Inv, CountOk, TargetIs;
    var p, n, newId := s.threads[tick.t], Next(s, tick), tick.move.env.freshId;
    var y := n.sessions[id];
    AdvanceIssues(s, tick);
    AdvanceGives(s, tick);
    AdvanceMovesSessions(s, tick, id);
    assert ThreadOk(s, p);
    if n.trace != s.trace {
      TraceGrows(s.trace, n.trace[|s.trace|]);
      assert n.trace == s.trace + [n.trace[|s.trace|]];
    }
    if id in s.sessions {
      var x := s.sessions[id];
      assert SessionOk(s, id, x);
      if n.trace != s.trace && p.GuardCommit? && id == p.b.session {
        assert n.trace[|s.trace|] in n.trace;
        assert ReleasedTo(n.trace, id, y.job, p.held);
      } else if p.GuardCommit? && id == p.b.session {
        assert n.trace == s.trace;
        assert y == x;
      } else {
        assert x.lease.None? ==> NeverReleased(n.trace, id);
        assert x.lease.Some? ==> ReleasedTo(n.trace, id, x.job, x.lease.value);
        assert y.lease == x.lease;
        assert PastHandoff(y.phase) <==> PastHandoff(x.phase);
      }
    }
    if id !in s.sessions {
      assert p.DiscoverOffer? && n.trace == s.trace && y.lease == None && y.phase == Offered && y.job == p.found.id;
      assert p.found.id in s.issued;
      forall e | e in s.trace && e.Released?
        ensures e.session != newId
      {
        assert EventOk(s.trace, s.issued, e);
      }
    }
  }

  /** A thread that another thread's region passed by is as sound as before. */
  lemma AdvanceKeepsOthers(s: System, tick: Tick, u: nat)
    requires Inv(s) && Enabled(s, tick) && tick.move.Advance? && u in s.threads && u != tick.t
    ensures ThreadOk(Next(s, tick), s.threads[u])
  {
    hide UniquelyMatchingDisk, Next, JobsAfter, Runs.Inv, CountOk, TargetIs, TraceOk;
    var p, q, n, newId := s.threads[tick.t], s.threads[u], Next(s, tick), tick.move.env.freshId;
    AdvanceIssues(s, tick);
    AdvanceGives(s, tick);
    assert ThreadOk(s, p) && ThreadOk(s, q) && ThreadsApart(q, p);
    if n.trace != s.trace {
      TraceGrows(s.trace, n.trace[|s.trace|]);
      assert n.trace == s.trace + [n.trace[|s.trace|]];
    }
    if HasBinding(q) && q.b.session in n.sessions {
      AdvanceMovesSessions(s, tick, q.b.session);
      if q.b.session in s.sessions {
        assert SessionOk(s, q.b.session, s.sessions[q.b.session]);
      }
    }
    if q.GuardLease? || q.GuardCommit? {
      NextKeepsTarget(s, tick, q.b.job, q.target);
    }
  }

  /** What the advancing thread becomes. */
  predicate Becomes(s: System, tick: Tick, p: Program, r: Program) {
    var newId := if tick.move.Advance? then tick.move.env.freshId else 0;
    match p
    case DiscoverMark(device, found) => r == DiscoverOffer(device, found)
    case GuardClaim(b, request) =>
      && r == GuardPrepare(b, request)
      && b.session in s.sessions && s.sessions[b.session].phase == Offered
      && b.session in Next(s, tick).sessions && Next(s, tick).sessions[b.session].phase == Authorizing
    case GuardPrepare(b, request) => r == GuardUndo(b) || (r.GuardRead? && r.b == b && r.request == request)
    case GuardRead(b, request, _) =>
      || r == GuardUndo(b)
      || (&& r.GuardLease? && r.b == b && r.request == request
          && UniquelyMatchingDisk(r.target, request.disks) == Some(r.disk)
          && Lookup(s.jobs, b.job).Some? && Lookup(s.jobs, b.job).value.targets == [r.target])
    case GuardLease(b, request, target, disk) =>
      || r == GuardUndo(b)
      || (&& r == GuardCommit(b, request, target, disk, newId, tick.now + INSTALLER_LEASE)
          && Next(s, tick).trace == s.trace + [Leased(b.job, newId, target)])
    case GuardCommit(b, _, _, _, _, _) => r == GuardUndo(b) && Next(s, tick).sessions == s.sessions
        && Next(s, tick).trace == s.trace
    case ReplayPrepare(b, request) => r == ReplayRead(b, request)
    case EventReport(b, kind) => r == Finish(b) || (r == EventAwait(b) && b.phase == HandedOff)
    case BootComplete(b) => r == Finish(b)
    case _ => false
  }

  lemma AdvanceBecomes(s: System, tick: Tick)
    requires Enabled(s, tick) && tick.move.Advance?
    ensures forall u :: u != tick.t ==> (u in Next(s, tick).threads <==> u in s.threads)
    ensures forall u :: u != tick.t && u in s.threads ==> Next(s, tick).threads[u] == s.threads[u]
    ensures tick.t in Next(s, tick).threads ==> Becomes(s, tick, s.threads[tick.t], Next(s, tick).threads[tick.t])
  {
    hide UniquelyMatchingDisk, Renderable, Runs.Perform;
    if s.threads[tick.t].GuardRead? {
      var p := s.threads[tick.t];
      var job := BoundJob(s.jobs, p.b, Waiting);
      if job.Ok? {
        assert job.value.targets == [job.value.targets[0]];
      }
    }
  }

  /** A thread keeps its binding, and does not turn from one kind of thread into another. */
  lemma BecomesKeepsBinding(s: System, tick: Tick, p: Program, r: Program)
    requires Becomes(s, tick, p, r)
    ensures HasBinding(r) ==> HasBinding(p) && r.b == p.b
    ensures Owner(r) ==> Owner(p) || p.GuardClaim?
    ensures Bound(r) ==> Bound(p)
    ensures !r.DiscoverMark? && (r.DiscoverOffer? ==> p.DiscoverMark? && r.found == p.found)
  {
    hide Next, UniquelyMatchingDisk, Lookup;
  }

  /** The session an advancing thread was bound to, afterwards. */
  lemma OwnSessionMoves(s: System, tick: Tick)
    requires Inv(s) && Enabled(s, tick) && tick.move.Advance? && HasBinding(s.threads[tick.t])
    ensures var p, n := s.threads[tick.t], Next(s, tick);
            p.b.session in n.sessions ==>
              && p.b.session in s.sessions
              && (n.sessions[p.b.session] == s.sessions[p.b.session]
                  || SessionMoved(p, s.sessions[p.b.session], n.sessions[p.b.session]))
  {
    hide Next, JobsAfter, Runs.Inv, CountOk, TraceOk, ChoiceOk, OwnsSession, ActsUnderLease, SessionOk, ThreadsApart,
         SessionMoved;
    var p, n := s.threads[tick.t], Next(s, tick);
    AdvanceIssues(s, tick);
    assert ThreadOk(s, p);
    if p.b.session in n.sessions {
      AdvanceMovesSessions(s, tick, p.b.session);
    }
  }

  lemma AdvanceKeepsOwnSession(s: System, tick: Tick)
    requires Inv(s) && Enabled(s, tick) && tick.move.Advance? && tick.t in Next(s, tick).threads
    ensures BoundToSession(Next(s, tick), Next(s, tick).threads[tick.t])
  {
    hide Next, JobsAfter, Runs.Inv, CountOk, TraceOk, ChoiceOk, OwnsSession, ActsUnderLease, SessionOk, ThreadsApart,
         Becomes, Enabled;
    AdvanceIssues(s, tick);
    var p, r := s.threads[tick.t], Next(s, tick).threads[tick.t];
    AdvanceBecomes(s, tick);
    BecomesKeepsBinding(s, tick, p, r);
    assert ThreadOk(s, p);
    if HasBinding(p) {
      OwnSessionMoves(s, tick);
    }
  }

  /** A thread that begins or goes on to own its session finds it being authorized. */
  lemma OwnedIsAuthorizing(s: System, tick: Tick)
    requires Inv(s) && Enabled(s, tick) && tick.move.Advance? && tick.t in Next(s, tick).threads
    requires Owner(Next(s, tick).threads[tick.t])
    ensures var p, n := s.threads[tick.t], Next(s, tick);
            p.b.session in n.sessions ==> n.sessions[p.b.session].phase == Authorizing
  {
    hide UniquelyMatchingDisk, Next, JobsAfter, Runs.Inv, CountOk, TraceOk, ChoiceOk, ActsUnderLease, BoundToSession,
         ThreadsApart, NeverReleased, SessionOk;
    AdvanceBecomes(s, tick);
    assert ThreadOk(s, s.threads[tick.t]);
    OwnSessionMoves(s, tick);
  }

  lemma AdvanceKeepsOwnership(s: System, tick: Tick)
    requires Inv(s) && Enabled(s, tick) && tick.move.Advance? && tick.t in Next(s, tick).threads
    ensures OwnsSession(Next(s, tick), Next(s, tick).threads[tick.t])
  {
    hide Next, JobsAfter, Runs.Inv, CountOk, TraceOk, ChoiceOk, ActsUnderLease, BoundToSession, ThreadsApart,
         NeverReleased, Becomes;
    var p, r := s.threads[tick.t], Next(s, tick).threads[tick.t];
    if Owner(r) {
      AdvanceBecomes(s, tick);
      BecomesKeepsBinding(s, tick, p, r);
      assert ThreadOk(s, p);
      if p.GuardClaim? {
        ClaimedIsOffered(s, tick);
      }
      OwnedIsAuthorizing(s, tick);
      AdvanceReleasesNothing(s, tick, p.b.session);
    }
  }

  lemma ClaimedIsOffered(s: System, tick: Tick)
    requires Inv(s) && Enabled(s, tick) && tick.move.Advance? && tick.t in Next(s, tick).threads
    requires s.threads[tick.t].GuardClaim?
    ensures NeverReleased(s.trace, s.threads[tick.t].b.session)
  {
    hide Next, JobsAfter, Runs.Inv, CountOk, TraceOk, ThreadOk, ThreadsApart, NeverReleased;
    AdvanceBecomes(s, tick);
    var id := s.threads[tick.t].b.session;
    assert SessionOk(s, id, s.sessions[id]);
  }

  /** A thread that goes on has not released anything. */
  lemma AdvanceReleasesNothing(s: System, tick: Tick, session: Uuid)
    requires Enabled(s, tick) && tick.move.Advance? && tick.t in Next(s, tick).threads
    ensures NeverReleased(s.trace, session) ==> NeverReleased(Next(s, tick).trace, session)
    ensures forall job, lease :: ReleasedTo(s.trace, session, job, lease) ==>
              ReleasedTo(Next(s, tick).trace, session, job, lease)
  {
    hide Next, JobsAfter, UniquelyMatchingDisk;
    AdvanceGives(s, tick);
    var n := Next(s, tick);
    if n.trace != s.trace {
      TraceGrows(s.trace, n.trace[|s.trace|]);
      assert n.trace == s.trace + [n.trace[|s.trace|]];
    }
  }

  lemma AdvanceKeepsLease(s: System, tick: Tick)
    requires Inv(s) && Enabled(s, tick) && tick.move.Advance? && tick.t in Next(s, tick).threads
    ensures ActsUnderLease(Next(s, tick), Next(s, tick).threads[tick.t])
  {
    hide Next, JobsAfter, Runs.Inv, CountOk, TraceOk, ChoiceOk, OwnsSession, ThreadsApart, ReleasedTo, NeverReleased,
         Becomes, BoundToSession;
    var p := s.threads[tick.t];
    AdvanceBecomes(s, tick);
    BecomesKeepsBinding(s, tick, p, Next(s, tick).threads[tick.t]);
    assert ThreadOk(s, p);
    if Bound(Next(s, tick).threads[tick.t]) {
      OwnSessionMoves(s, tick);
      AdvanceReleasesNothing(s, tick, p.b.session);
    }
  }

  lemma AdvanceKeepsChoice(s: System, tick: Tick)
    requires Inv(s) && Enabled(s, tick) && tick.move.Advance? && tick.t in Next(s, tick).threads
    ensures ChoiceOk(Next(s, tick), Next(s, tick).threads[tick.t])
  {
    hide UniquelyMatchingDisk, Next, JobsAfter, Runs.Inv, CountOk, TraceOk, SessionOk, ThreadsApart, LeaseUnused;
    var p, n := s.threads[tick.t], Next(s, tick);
    var r := n.threads[tick.t];
    AdvanceBecomes(s, tick);
    assert ThreadOk(s, p);
    if r.GuardLease? || r.GuardCommit? {
      NextKeepsTarget(s, tick, r.b.job, r.target);
    }
    if r.GuardCommit? {
      AdvanceIssues(s, tick);
      NewLeaseUnused(s, r.held);
      UnusedByLeases(s.trace, Leased(r.b.job, r.held, r.target), r.held);
    }
  }

  lemma UnusedByLeases(trace: seq<Event>, e: Event, lease: Uuid)
    requires e.Leased? && LeaseUnused(trace, lease)
    ensures LeaseUnused(trace + [e], lease) && e in trace + [e]
  {
  }

  lemma AdvanceKeepsOwn(s: System, tick: Tick)
    requires Inv(s) && Enabled(s, tick) && tick.move.Advance? && tick.t in Next(s, tick).threads
    ensures ThreadOk(Next(s, tick), Next(s, tick).threads[tick.t])
  {
    hide Next, Inv, BoundToSession, OwnsSession, ActsUnderLease, ChoiceOk;
    AdvanceKeepsOwnSession(s, tick);
    AdvanceKeepsOwnership(s, tick);
    AdvanceKeepsLease(s, tick);
    AdvanceKeepsChoice(s, tick);
  }

  lemma NewLeaseUnused(s: System, newId: Uuid)
    requires TraceOk(s.trace, s.issued) && newId !in s.issued
    ensures LeaseUnused(s.trace, newId)
  {
    hide UniquelyMatchingDisk;
    forall e | e in s.trace && e.Released?
      ensures e.lease != newId
    {
      assert EventOk(s.trace, s.issued, e);
    }
  }

  lemma AdvanceKeepsApart(s: System, tick: Tick, u: nat)
    requires Inv(s) && Enabled(s, tick) && tick.move.Advance?
    requires tick.t in Next(s, tick).threads && u in s.threads && u != tick.t
    ensures ThreadsApart(Next(s, tick).threads[tick.t], s.threads[u])
    ensures ThreadsApart(s.threads[u], Next(s, tick).threads[tick.t])
  {
    hide UniquelyMatchingDisk, Next, JobsAfter, Runs.Inv, CountOk, TraceOk, TargetIs, BoundToSession, ActsUnderLease,
         SessionOk, NeverReleased, LeaseUnused;
    var p, q := s.threads[tick.t], s.threads[u];
    AdvanceIssues(s, tick);
    AdvanceBecomes(s, tick);
    assert ThreadOk(s, p) && ThreadOk(s, q) && ThreadsApart(p, q);
    if q.GuardCommit? {
      LeasedIsIssued(s, Leased(q.b.job, q.held, q.target));
    }
  }

  // ----- counting -----

  /** What a handoff at `now` makes of the job of a device. */
  predicate HandedJob(j: Job, device: Uuid, now: Time) {
    && j.operation == InstallLinux && TargetsOnly(j, device) && j.leaseExpiresAt == Some(now + INSTALLER_LEASE)
    && j.stage == Some(ValidatingTarget) && j.progress == 1
  }

  /** A handoff takes a queued job out of the queue. */
  lemma HandoffConsumesQueue(s: System, tick: Tick, id: Uuid)
    requires Runs.Inv(RepoOf(s)) && Enabled(s, tick) && JobStepOf(s, tick).Some?
    requires JobStepOf(s, tick).value.action.DoLeaseInstaller? && JobStepOf(s, tick).value.action.job == id
    requires JobsAfter(s, tick).1
    ensures Lookup(s.jobs, id).Some? && Lookup(s.jobs, id).value.state == Waiting
    ensures Lookup(Next(s, tick).jobs, id).Some? && Lookup(Next(s, tick).jobs, id).value.state == Running
    ensures Lookup(Next(s, tick).jobs, id).value.leaseId == Some(JobStepOf(s, tick).value.action.newId)
    ensures Lookup(Next(s, tick).jobs, id).value.targets == Lookup(s.jobs, id).value.targets
    ensures JobStepOf(s, tick).value.action.duration == INSTALLER_LEASE ==>
              HandedJob(Lookup(Next(s, tick).jobs, id).value, JobStepOf(s, tick).value.action.device, tick.now)
  {
    hide Runs.Inv, Next;
    NextJobs(s, tick);
    NextKeepsRepoInv(s, tick);
    Runs.InvGivesDistinctIds(RepoOf(s));
    var i := IndexOf(s.jobs, id).value;
    Runs.EditedRecord(s.jobs, i, Next(s, tick).jobs[i], id, Next(s, tick).jobs);
  }

  lemma RetryRefillsQueue(s: System, tick: Tick)
    requires Runs.Inv(RepoOf(s)) && Enabled(s, tick) && IsRetry(s, tick)
    ensures Lookup(s.jobs, tick.move.action.job).Some?
    ensures tick.move.action.job in s.issued
  {
    Runs.StoredJobOk(RepoOf(s), tick.move.action.job);
  }

  /** Apart from retries, no step moves a job back to where a lease lies ahead, unless it is new. */
  lemma AheadNeverFalls(s: System, tick: Tick, id: Uuid)
    requires Runs.Inv(RepoOf(s)) && Enabled(s, tick)
    requires id in s.issued
    requires !(IsRetry(s, tick) && tick.move.action.job == id)
    ensures Ahead(Lookup(s.jobs, id)) <= Ahead(Lookup(Next(s, tick).jobs, id))
  {
    hide Runs.Inv, Next, JobStepOf, Runs.Perform, Lookup;
    NextJobs(s, tick);
    if JobStepOf(s, tick).Some? {
      var step := JobStepOf(s, tick).value;
      JobStepEnabled(s, tick);
      Runs.StepMovesRecord(RepoOf(s), step, id);
      var a, b := Lookup(s.jobs, id), Lookup(Next(s, tick).jobs, id);
      if a.Some? && b.Some? && a != b {
        Runs.StoredJobOk(RepoOf(s), id);
        Runs.EditIsLegal(step, a.value, b.value);
        if a.value.state == Failed && b.value.state == Waiting {
          RetryIsOperated(s, tick, id, step, a.value, b.value);
        }
      }
    }
  }

  lemma RetryIsOperated(s: System, tick: Tick, id: Uuid, step: Runs.Step, a: Job, b: Job)
    requires Runs.Inv(RepoOf(s)) && Enabled(s, tick) && JobStepOf(s, tick) == Some(step)
    requires Lookup(s.jobs, id) == Some(a) && a.id == id && a.state == Failed
    requires Runs.EditedBy(step, a, b) && b.state == Waiting && a != b
    requires Next(s, tick).jobs == Runs.After(RepoOf(s), step).jobs && Lookup(Next(s, tick).jobs, id) == Some(b)
    ensures IsRetry(s, tick) && tick.move.action.job == id
  {
    hide Runs.Inv, Next, Lookup, Runs.Perform;
    if !Runs.Accepted(RepoOf(s), step) {
      Runs.FailureChangesNothing(RepoOf(s), step);
    }
    assert step.action == Runs.DoTransition(id, Waiting);
  }

  lemma NextKeepsCount(s: System, tick: Tick, id: Uuid, e: Option<Event>)
    requires Runs.Inv(RepoOf(s)) && Enabled(s, tick) && CountOk(s, id)
    requires Next(s, tick).trace == if e.Some? then s.trace + [e.value] else s.trace
    requires e.Some? && e.value.Leased? && e.value.job == id ==>
               && JobStepOf(s, tick).Some? && JobsAfter(s, tick).1
               && JobStepOf(s, tick).value.action.DoLeaseInstaller? && JobStepOf(s, tick).value.action.job == id
    requires IsRetry(s, tick) ==> e == Some(Retried(tick.move.action.job))
    requires e.Some? && e.value.Leased? ==> e.value.job in s.issued
    ensures CountOk(Next(s, tick), id)
  {
    hide Runs.Inv, Next, JobStepOf, Lookup, JobsAfter, Leases, Retries, Enabled;
    NextJobs(s, tick);
    if e.Some? {
      CountsOfAppend(s.trace, e.value, id);
    }
    if e.Some? && e.value.Leased? && e.value.job == id {
      HandoffConsumesQueue(s, tick, id);
    } else if id in s.issued && !(IsRetry(s, tick) && tick.move.action.job == id) {
      AheadNeverFalls(s, tick, id);
    }
  }

  // ----- the other moves -----

  lemma AdvanceKeepsCounts(s: System, tick: Tick)
    requires Inv(s) && Enabled(s, tick) && tick.move.Advance?
    ensures forall id: Uuid :: CountOk(Next(s, tick), id)
  {
    hide UniquelyMatchingDisk, Next, Runs.Inv, TraceOk, TargetIs, CountOk, Runs.Perform;
    var p, n := s.threads[tick.t], Next(s, tick);
    AdvanceGives(s, tick);
    assert ThreadOk(s, p);
    var e := if n.trace == s.trace then None else Some(n.trace[|s.trace|]);
    assert n.trace == if e.Some? then s.trace + [e.value] else s.trace;
    forall id: Uuid
      ensures CountOk(n, id)
    {
      assert CountOk(s, id);
      NextKeepsCount(s, tick, id, e);
    }
  }

  lemma AdvanceKeepsInv(s: System, tick: Tick)
    requires Inv(s) && Enabled(s, tick) && tick.move.Advance?
    ensures Inv(Next(s, tick))
  {
    hide Next, Runs.Inv, TraceOk, CountOk, ThreadOk, SessionOk, ThreadsApart, Enabled;
    var n := Next(s, tick);
    NextKeepsRepoInv(s, tick);
    AdvanceKeepsTrace(s, tick);
    AdvanceKeepsCounts(s, tick);
    AdvanceBecomes(s, tick);
    forall id | id in n.sessions
      ensures SessionOk(n, id, n.sessions[id])
    {
      AdvanceKeepsSessions(s, tick, id);
    }
    forall u | u in n.threads
      ensures ThreadOk(n, n.threads[u])
    {
      if u == tick.t {
        AdvanceKeepsOwn(s, tick);
      } else {
        AdvanceKeepsOthers(s, tick, u);
      }
    }
    forall u, v | u in n.threads && v in n.threads && u != v
      ensures ThreadsApart(n.threads[u], n.threads[v])
    {
      if u == tick.t {
        AdvanceKeepsApart(s, tick, v);
      } else if v == tick.t {
        AdvanceKeepsApart(s, tick, u);
      }
    }
  }

  predicate IsStart(move: Move) {
    move.StartDiscover? || move.StartGuard? || move.StartEvent? || move.StartFirstBoot?
  }

  lemma ActiveInstallersAreStored(jobs: seq<Job>, device: Uuid)
    ensures forall j :: j in ActiveInstallers(jobs, device) ==> j in jobs
  {
    if jobs != [] {
      ActiveInstallersAreStored(jobs[1..], device);
      assert forall j :: j in jobs <==> j == jobs[0] || j in jobs[1..];
    }
  }

  lemma DiscoveredIsIssued(s: System, device: Uuid, suitable: bool)
    requires Runs.Inv(RepoOf(s)) && Discovered(s.jobs, device, suitable).Some?
    ensures Discovered(s.jobs, device, suitable).value.DiscoverMark?
    ensures Discovered(s.jobs, device, suitable).value.found.id in s.issued
  {
    hide Runs.JobOk, Runs.Apart;
    ActiveInstallersAreStored(s.jobs, device);
    var found := ActiveInstallers(s.jobs, device)[0];
    assert found in s.jobs;
    var k :| 0 <= k < |s.jobs| && s.jobs[k] == found;
    assert Runs.IdsIssued(s.jobs[k], s.issued);
  }

  lemma StartedIsSound(s: System, move: Move, now: Time)
    requires Inv(s) && Started(s, move, now).Some?
    ensures ThreadOk(s, Started(s, move, now).value)
    ensures !Owner(Started(s, move, now).value)
  {
    hide ValidRequest, TraceOk, CountOk, Runs.Inv, ThreadsApart, ReleasedTo, NeverReleased, Discovered,
         UniquelyMatchingDisk, TargetIs, LeaseUnused;
    match move {
      case StartDiscover(device, suitable) => DiscoveredIsIssued(s, device, suitable);
      case StartGuard(session, _, _) => assert SessionOk(s, session, s.sessions[session]);
      case StartEvent(session, _, _) => assert SessionOk(s, session, s.sessions[session]);
      case StartFirstBoot(session, _, _) => assert SessionOk(s, session, s.sessions[session]);
      case Advance(_) => assert false;
      case Operate(_, _) => assert false;
      case Restart => assert false;
    }
  }

  lemma StartKeepsInv(s: System, tick: Tick)
    requires Inv(s) && Enabled(s, tick) && IsStart(tick.move)
    ensures Inv(Next(s, tick))
  {
    hide Runs.Inv, TraceOk, CountOk, Started, UniquelyMatchingDisk, TargetIs, NeverReleased, LeaseUnused, ReleasedTo;
    var n := Next(s, tick);
    NextKeepsRepoInv(s, tick);
    var p := Started(s, tick.move, tick.now);
    if p.Some? {
      StartedIsSound(s, tick.move, tick.now);
      assert n.threads == s.threads[tick.t := p.value];
    }
    forall u | u in n.threads
      ensures ThreadOk(n, n.threads[u])
    {
      var r := n.threads[u];
      assert ThreadOk(s, r);
      assert n == s.(threads := n.threads, clock := n.clock);
    }
    forall id: Uuid
      ensures CountOk(n, id)
    {
      assert CountOk(s, id);
      ClockKeepsCount(s, n.threads, n.clock, id);
    }
  }

  lemma ClockKeepsCount(s: System, threads: map<nat, Program>, clock: Time, id: Uuid)
    requires CountOk(s, id)
    ensures CountOk(s.(threads := threads, clock := clock), id)
  {
  }

  lemma OperateKeepsInv(s: System, tick: Tick)
    requires Inv(s) && Enabled(s, tick) && tick.move.Operate?
    ensures Inv(Next(s, tick))
  {
    hide Runs.Inv, TraceOk, CountOk, Next, UniquelyMatchingDisk, TargetIs, Enabled, Runs.Perform;
    var n := Next(s, tick);
    NextKeepsRepoInv(s, tick);
    NextJobs(s, tick);
    OperateLeavesSessions(s, tick);
    var e := if IsRetry(s, tick) then Some(Retried(tick.move.action.job)) else None;
    if e.Some? {
      RetryRefillsQueue(s, tick);
      TraceGrows(s.trace, e.value);
      AppendKeepsTrace(s.trace, s.issued, n.issued, e.value);
    } else {
      IssueKeepsTrace(s.trace, s.issued, n.issued);
    }
    forall id | id in n.sessions
      ensures SessionOk(n, id, n.sessions[id])
    {
      assert SessionOk(s, id, s.sessions[id]);
    }
    forall u | u in n.threads
      ensures ThreadOk(n, n.threads[u])
    {
      var q := s.threads[u];
      assert ThreadOk(s, q);
      if q.GuardLease? || q.GuardCommit? {
        NextKeepsTarget(s, tick, q.b.job, q.target);
      }
    }
    forall id: Uuid
      ensures CountOk(n, id)
    {
      assert CountOk(s, id);
      NextKeepsCount(s, tick, id, e);
    }
  }

  lemma OperateLeavesSessions(s: System, tick: Tick)
    requires Enabled(s, tick) && tick.move.Operate?
    ensures Next(s, tick).sessions == s.sessions && Next(s, tick).threads == s.threads
    ensures Next(s, tick).trace == if IsRetry(s, tick) then s.trace + [Retried(tick.move.action.job)] else s.trace
  {
  }

  lemma RestartKeepsInv(s: System, tick: Tick)
    requires Inv(s) && Enabled(s, tick) && tick.move.Restart?
    ensures Inv(Next(s, tick))
  {
    hide Runs.Inv, TraceOk;
    NextKeepsRepoInv(s, tick);
    forall id: Uuid
      ensures CountOk(Next(s, tick), id)
    {
      assert CountOk(s, id);
    }
  }

  /** Every atomic step of every interleaving keeps the invariant. */
  lemma NextKeepsInv(s: System, tick: Tick)
    requires Inv(s) && Enabled(s, tick)
    ensures Inv(Next(s, tick))
  {
    hide Inv, Next, Enabled;
    match tick.move {
      case Advance(_) => AdvanceKeepsInv(s, tick);
      case Operate(_, _) => OperateKeepsInv(s, tick);
      case Restart => RestartKeepsInv(s, tick);
      case _ => StartKeepsInv(s, tick);
    }
  }

  lemma InitialInv(clock: Time)
    ensures Inv(System([], {}, map[], map[], clock, []))
  {
  }

  lemma {:induction false} RunKeepsInv(states: seq<System>, ticks: seq<Tick>, i: nat)
    requires IsRun(states, ticks) && i < |states|
    ensures Inv(states[i])
  {
    hide Inv, Next, Enabled;
    if i == 0 {
      InitialInv(states[0].clock);
    } else {
      RunKeepsInv(states, ticks, i - 1);
      NextKeepsInv(states[i - 1], ticks[i - 1]);
    }
  }

  // ----- the safety theorems -----

  function ReleasedLeases(trace: seq<Event>, job: Uuid): set<Uuid> {
    set e | e in trace && e.Released? && e.job == job :: e.lease
  }

  function IssuedLeases(trace: seq<Event>, job: Uuid): set<Uuid> {
    set e | e in trace && e.Leased? && e.job == job :: e.lease
  }

  predicate AllApart(trace: seq<Event>) {
    forall i, j :: 0 <= i < j < |trace| ==> EventsApart(trace[i], trace[j])
  }

  lemma LastApart(front: seq<Event>, e: Event)
    requires AllApart(front + [e])
    ensures forall d :: d in front ==> EventsApart(d, e)
  {
    forall d | d in front
      ensures EventsApart(d, e)
    {
      var i :| 0 <= i < |front| && front[i] == d;
      assert EventsApart((front + [e])[i], (front + [e])[|front|]);
    }
  }

  lemma {:induction false} ReleasesAreCounted(trace: seq<Event>, job: Uuid)
    requires AllApart(trace)
    ensures Releases(trace, job) == |ReleasedLeases(trace, job)|
  {
    if trace != [] {
      var front, e := trace[..|trace| - 1], trace[|trace| - 1];
      ReleasesAreCounted(front, job);
      assert trace == front + [e];
      if e.Released? && e.job == job {
        LastApart(front, e);
        assert ReleasedLeases(trace, job) == ReleasedLeases(front, job) + {e.lease};
      } else {
        assert ReleasedLeases(trace, job) == ReleasedLeases(front, job);
      }
    }
  }

  lemma {:induction false} LeasesAreCounted(trace: seq<Event>, job: Uuid)
    requires AllApart(trace)
    ensures Leases(trace, job) == |IssuedLeases(trace, job)|
  {
    if trace != [] {
      var front, e := trace[..|trace| - 1], trace[|trace| - 1];
      LeasesAreCounted(front, job);
      assert trace == front + [e];
      if e.Leased? && e.job == job {
        LastApart(front, e);
        assert IssuedLeases(trace, job) == IssuedLeases(front, job) + {e.lease};
      } else {
        assert IssuedLeases(trace, job) == IssuedLeases(front, job);
      }
    }
  }

  lemma SubsetSize<T>(a: set<T>, b: set<T>)
    requires a <= b
    ensures |a| <= |b|
  {
    if a != {} {
      var x :| x in a;
      SubsetSize(a - {x}, b - {x});
    }
  }

  /**
   * Whatever the interleaving, a job's destructive configuration is first handed out at most once,
   * plus once for every time an operator put the failed job back into the queue.
   */
  lemma ReleasesAreBounded(states: seq<System>, ticks: seq<Tick>, i: nat, job: Uuid)
    requires IsRun(states, ticks) && i < |states|
    ensures Releases(states[i].trace, job) <= 1 + Retries(states[i].trace, job)
  {
    hide UniquelyMatchingDisk, Next, Enabled, Runs.Inv, ThreadOk, SessionOk, ThreadsApart;
    var s := states[i];
    RunKeepsInv(states, ticks, i);
    assert CountOk(s, job);
    ReleasesAreCounted(s.trace, job);
    LeasesAreCounted(s.trace, job);
    forall l | l in ReleasedLeases(s.trace, job)
      ensures l in IssuedLeases(s.trace, job)
    {
      var e :| e in s.trace && e.Released? && e.job == job && e.lease == l;
      assert EventOk(s.trace, s.issued, e);
      assert Leased(job, l, e.target) in s.trace;
    }
    SubsetSize(ReleasedLeases(s.trace, job), IssuedLeases(s.trace, job));
  }

  /** One step handed the queued job, which has exactly this target, over to this lease. */
  predicate HandedOver(before: System, after: System, job: Uuid, lease: Uuid, target: DeploymentTarget) {
    var a, b := Lookup(before.jobs, job), Lookup(after.jobs, job);
    && a.Some? && b.Some? && a.value.targets == [target] && b.value.targets == [target]
    && a.value.state == Waiting && b.value.state == Running && b.value.leaseId == Some(lease)
    && b.value.operation == InstallLinux
  }

  lemma LeaseEventHandsOver(s: System, tick: Tick, e: Event)
    requires Inv(s) && Enabled(s, tick) && e.Leased? && e !in s.trace && e in Next(s, tick).trace
    ensures HandedOver(s, Next(s, tick), e.job, e.lease, e.target)
  {
    hide UniquelyMatchingDisk, Next, Runs.Inv, TraceOk, CountOk, SessionOk, ThreadsApart, JobsAfter, Lookup;
    OnlyAdvancesLease(s, tick, e);
    AdvanceGives(s, tick);
    var p := s.threads[tick.t];
    TraceGrows(s.trace, Next(s, tick).trace[|s.trace|]);
    assert ThreadOk(s, p);
    HandoffConsumesQueue(s, tick, p.b.job);
  }

  lemma OnlyAdvancesLease(s: System, tick: Tick, e: Event)
    requires Enabled(s, tick) && e.Leased? && e !in s.trace && e in Next(s, tick).trace
    ensures tick.move.Advance?
  {
    hide JobsAfter, Started;
  }

  /** Every lease in the trace goes back to the step that handed its job over. */
  lemma {:induction false} LeaseTracesToHandoff(
    states: seq<System>, ticks: seq<Tick>, i: nat, e: Event) returns (m: nat)
    requires IsRun(states, ticks) && i < |states| && e in states[i].trace && e.Leased?
    ensures m < i && HandedOver(states[m], states[m + 1], e.job, e.lease, e.target)
  {
    hide Inv, Next, Enabled, HandedOver;
    if e in states[i - 1].trace {
      m := LeaseTracesToHandoff(states, ticks, i - 1, e);
    } else {
      m := i - 1;
      RunKeepsInv(states, ticks, m);
      LeaseEventHandsOver(states[m], ticks[m], e);
    }
  }

  lemma IssuedStays(states: seq<System>, ticks: seq<Tick>, i: nat)
    requires IsRun(states, ticks) && i < |ticks|
    ensures states[i].issued <= states[i + 1].issued
  {
    hide JobsAfter, SessionsAfter, Given, Continued, Started, IsRetry;
  }

  /** From then on, whatever is stored under the job's id has that target. */
  lemma {:induction false} TargetStays(
    states: seq<System>, ticks: seq<Tick>, m: nat, i: nat, job: Uuid, target: DeploymentTarget)
    requires IsRun(states, ticks) && m <= i < |states| && job in states[m].issued
              && TargetIs(states[m].jobs, job, target)
    ensures job in states[i].issued && TargetIs(states[i].jobs, job, target)
  {
    hide Inv, Next, Enabled, TargetIs;
    if m < i {
      TargetStays(states, ticks, m, i - 1, job, target);
      IssuedStays(states, ticks, i - 1);
      RunKeepsInv(states, ticks, i - 1);
      InvGivesRepoInv(states[i - 1]);
      NextKeepsTarget(states[i - 1], ticks[i - 1], job, target);
    }
  }

  lemma InvGivesRepoInv(s: System)
    requires Inv(s)
    ensures Runs.Inv(RepoOf(s))
  {
    hide Runs.Inv, TraceOk, CountOk, SessionOk, ThreadOk, ThreadsApart;
  }

  lemma JobIsIssued(s: System, job: Uuid)
    requires Inv(s) && Lookup(s.jobs, job).Some?
    ensures job in s.issued
  {
    hide Runs.Inv, TraceOk, CountOk, SessionOk, ThreadOk, ThreadsApart, Lookup;
    Runs.StoredJobOk(RepoOf(s), job);
  }

  /** A lease was issued for a job with the target the trace names, and the job still has it if it is still stored. */
  lemma LeaseNamesTheTarget(states: seq<System>, ticks: seq<Tick>, i: nat, e: Event) returns (m: nat)
    requires IsRun(states, ticks) && i < |states| && e in states[i].trace && e.Leased?
    ensures m < i && HandedOver(states[m], states[m + 1], e.job, e.lease, e.target)
    ensures TargetIs(states[i].jobs, e.job, e.target)
  {
    hide Inv, Next, Enabled, Lookup;
    m := LeaseTracesToHandoff(states, ticks, i, e);
    RunKeepsInv(states, ticks, m);
    JobIsIssued(states[m], e.job);
    TargetStays(states, ticks, m, i, e.job, e.target);
  }

  /**
   * Every first release, in every run: one earlier step took its job, then queued, to running under
   * its lease; the configuration names the path of the only disk, of those the installer observed,
   * that carries the fingerprint of that job's one target, which is still the job's target if the
   * job is still stored; and no other release has its lease or its session.
   */
  lemma ReleaseNamesTheTarget(states: seq<System>, ticks: seq<Tick>, i: nat, k: nat) returns (m: nat)
    requires IsRun(states, ticks) && i < |states|
    requires k < |states[i].trace| && states[i].trace[k].Released?
    ensures var trace, e := states[i].trace, states[i].trace[k];
            && m < i && HandedOver(states[m], states[m + 1], e.job, e.lease, e.target)
            && TargetIs(states[i].jobs, e.job, e.target)
            && (exists d :: OnlyMatch(e.target, e.disks, d) && e.disks[d].path == e.path)
            && (forall n :: 0 <= n < |trace| && n != k && trace[n].Released? ==>
                  trace[n].lease != e.lease && trace[n].session != e.session)
            && (forall n, o :: 0 <= n < o < |trace| && trace[n].Leased? && trace[o].Leased? ==>
                   trace[n].lease != trace[o].lease)
  {
    hide UniquelyMatchingDisk, OnlyMatch, Next, Enabled, Runs.Inv, ThreadOk, SessionOk, ThreadsApart, CountOk,
         HandedOver, TargetIs, IsRun;
    RunKeepsInv(states, ticks, i);
    var trace, e := states[i].trace, states[i].trace[k];
    assert EventOk(trace, states[i].issued, e);
    SelectionIsTheOnlyMatch(e.target, e.disks);
    m := LeaseNamesTheTarget(states, ticks, i, Leased(e.job, e.lease, e.target));
    forall n | 0 <= n < |trace| && n != k && trace[n].Released?
      ensures trace[n].lease != e.lease && trace[n].session != e.session
    {
      if n < k {
        assert EventsApart(trace[n], trace[k]);
      } else {
        assert EventsApart(trace[k], trace[n]);
      }
    }
    forall n, o | 0 <= n < o < |trace| && trace[n].Leased? && trace[o].Leased?
      ensures trace[n].lease != trace[o].lease
    {
      assert EventsApart(trace[n], trace[o]);
    }
  }

  /** A first release of exactly this target. */
  predicate ReleasedAs(trace: seq<Event>, session: Uuid, job: Uuid, lease: Uuid, target: DeploymentTarget) {
    exists e :: e in trace && e.Released? && e.session == session && e.job == job && e.lease == lease
        && e.target == target
  }

  /** The step that repeats a configuration reads the running job, under the session's lease, and its target. */
  lemma ReplayReadsTheJob(s: System, tick: Tick, e: Event)
    requires Enabled(s, tick) && e.Replayed? && e !in s.trace && e in Next(s, tick).trace
    ensures Lookup(s.jobs, e.job).Some? && Lookup(s.jobs, e.job).value.targets == [e.target]
    ensures Lookup(s.jobs, e.job).value.state == Running && Lookup(s.jobs, e.job).value.leaseId == e.repeated
    ensures Next(s, tick).trace == s.trace + [e]
  {
    hide UniquelyMatchingDisk, Renderable, JobsAfter, Lookup, Started;
    var p := s.threads[tick.t];
    var job := BoundJob(s.jobs, p.b, Running);
    if job.Ok? {
      assert job.value.targets == [job.value.targets[0]];
    }
  }

  lemma ReleasedAsTheJob(
    states: seq<System>, ticks: seq<Tick>, i: nat, session: Uuid, job: Uuid, lease: Uuid, target: DeploymentTarget)
    requires IsRun(states, ticks) && i < |states| && ReleasedTo(states[i].trace, session, job, lease)
    requires Lookup(states[i].jobs, job).Some? && Lookup(states[i].jobs, job).value.targets == [target]
    ensures ReleasedAs(states[i].trace, session, job, lease, target)
  {
    hide IsRun, HandedOver, Lookup;
    var trace := states[i].trace;
    var e :| e in trace && e.Released? && e.session == session && e.job == job && e.lease == lease;
    var k :| 0 <= k < |trace| && trace[k] == e;
    var m := ReleaseNamesTheTarget(states, ticks, i, k);
  }

  lemma ReleasedAsGrows(
    trace: seq<Event>, more: seq<Event>, session: Uuid, job: Uuid, lease: Uuid, target: DeploymentTarget)
    requires trace <= more && ReleasedAs(trace, session, job, lease, target)
    ensures ReleasedAs(more, session, job, lease, target)
  {
  }

  lemma TraceIsKept(s: System, tick: Tick)
    requires Enabled(s, tick)
    ensures s.trace <= Next(s, tick).trace
  {
    hide JobsAfter, SessionsAfter, Given, Continued, Started, IsRetry;
  }

  lemma {:induction false} ReplayedTarget(states: seq<System>, ticks: seq<Tick>, i: nat, e: Event)
    requires IsRun(states, ticks) && i < |states| && e in states[i].trace && e.Replayed?
    ensures e.repeated.Some? && ReleasedAs(states[i].trace, e.session, e.job, e.repeated.value, e.target)
  {
    hide Inv, Next, Enabled, Lookup, ReleasedAs, ReleasedTo;
    var s := states[i - 1];
    TraceIsKept(s, ticks[i - 1]);
    if e in s.trace {
      ReplayedTarget(states, ticks, i - 1, e);
    } else {
      ReplayReadsTheJob(s, ticks[i - 1], e);
      ReplayWasReleased(states, ticks, i, e);
      ReleasedBefore(s.trace, e);
      ReleasedAsTheJob(states, ticks, i - 1, e.session, e.job, e.repeated.value, e.target);
    }
    ReleasedAsGrows(s.trace, states[i].trace, e.session, e.job, e.repeated.value, e.target);
  }

  lemma ReplayWasReleased(states: seq<System>, ticks: seq<Tick>, i: nat, e: Event)
    requires IsRun(states, ticks) && i < |states| && e in states[i].trace && e.Replayed?
    ensures e.repeated.Some? && ReleasedTo(states[i].trace, e.session, e.job, e.repeated.value)
  {
    hide UniquelyMatchingDisk, Next, Enabled, Runs.Inv, ThreadOk, SessionOk, ThreadsApart, CountOk, IsRun, ReleasedTo;
    RunKeepsInv(states, ticks, i);
    assert EventOk(states[i].trace, states[i].issued, e);
  }

  lemma ReleasedBefore(trace: seq<Event>, e: Event)
    requires e.Replayed? && e.repeated.Some? && ReleasedTo(trace + [e], e.session, e.job, e.repeated.value)
    ensures ReleasedTo(trace, e.session, e.job, e.repeated.value)
  {
    TraceGrows(trace, e);
  }

  /**
   * A configuration handed out again was first released to the same session, under the same lease
   * and for the same target, and it too names the only observed disk that carries that target's fingerprint.
   */
  lemma ReplayRepeatsARelease(states: seq<System>, ticks: seq<Tick>, i: nat, k: nat)
    requires IsRun(states, ticks) && i < |states|
    requires k < |states[i].trace| && states[i].trace[k].Replayed?
    ensures var trace, e := states[i].trace, states[i].trace[k];
            && e.repeated.Some? && ReleasedAs(trace, e.session, e.job, e.repeated.value, e.target)
            && exists d :: OnlyMatch(e.target, e.disks, d) && e.disks[d].path == e.path
  {
    hide UniquelyMatchingDisk, OnlyMatch, Next, Enabled, Runs.Inv, ThreadOk, SessionOk, ThreadsApart, CountOk,
         ReleasedAs, IsRun;
    RunKeepsInv(states, ticks, i);
    var trace, e := states[i].trace, states[i].trace[k];
    ReplayedTarget(states, ticks, i, e);
    assert EventOk(trace, states[i].issued, e);
    SelectionIsTheOnlyMatch(e.target, e.disks);
  }

  /** In every reachable state at most one session holds a given lease, and it was released to it. */
  lemma LeaseHasOneSession(states: seq<System>, ticks: seq<Tick>, i: nat, a: Uuid, b: Uuid)
    requires IsRun(states, ticks) && i < |states|
    requires a in states[i].sessions && b in states[i].sessions
    requires states[i].sessions[a].lease.Some? && states[i].sessions[a].lease == states[i].sessions[b].lease
    ensures a == b
    ensures ReleasedTo(states[i].trace, a, states[i].sessions[a].job, states[i].sessions[a].lease.value)
  {
    hide UniquelyMatchingDisk, Next, Enabled, Runs.Inv, ThreadOk, ThreadsApart, CountOk;
    var s := states[i];
    RunKeepsInv(states, ticks, i);
    assert SessionOk(s, a, s.sessions[a]) && SessionOk(s, b, s.sessions[b]);
    var l := s.sessions[a].lease.value;
    var d :| d in s.trace && d.Released? && d.session == a && d.job == s.sessions[a].job && d.lease == l;
    var e :| e in s.trace && e.Released? && e.session == b && e.job == s.sessions[b].job && e.lease == l;
    var m :| 0 <= m < |s.trace| && s.trace[m] == d;
    var n :| 0 <= n < |s.trace| && s.trace[n] == e;
    assert forall p, q :: 0 <= p < q < |s.trace| ==> EventsApart(s.trace[p], s.trace[q]);
    assert m == n;
  }

  /**
   * The guard's last region never finds its session in a wrong phase: the session is still being
   * authorized by this very thread, or has been dropped by a newer offer.
   */
  lemma CommitFindsItsClaim(states: seq<System>, ticks: seq<Tick>, i: nat, t: nat)
    requires IsRun(states, ticks) && i < |states|
    requires t in states[i].threads && states[i].threads[t].GuardCommit?
    ensures var p := states[i].threads[t];
            TakeLease(states[i].sessions, p.b.session, p.held, p.expiresAt).result != Err(InvalidSessionState)
  {
    hide Next, Enabled, Runs.Inv, TraceOk, CountOk;
    RunKeepsInv(states, ticks, i);
    assert ThreadOk(states[i], states[i].threads[t]);
  }
}
