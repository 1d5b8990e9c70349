/** Choosing the disk of a Linux installation, from apps/desktop/src-tauri/src/lib.rs. */
module LinuxTargets {
  import opened Common
  import opened TextRules
  import opened DeploymentTypes
  import opened InstallerSessions

  /** A device of the registry; `x64Uefi` is whether it reports x86_64 and UEFI. */
  datatype Registered = Registered(online: bool, device: Uuid, x64Uefi: bool, memoryBytes: U64, disks: seq<Disk>)

  datatype Capability = Capability(minimumMemoryBytes: U64, minimumDiskBytes: U64)

  function FirstById(disks: seq<Disk>, id: string): (i: nat)
    ensures i <= |disks|
    ensures i < |disks| ==> EqIgnoreAsciiCase(disks[i].id, id)
    ensures forall k :: 0 <= k < i ==> !EqIgnoreAsciiCase(disks[k].id, id)
  {
    if disks == [] || EqIgnoreAsciiCase(disks[0].id, id) then 0 else 1 + FirstById(disks[1..], id)
  }

  predicate Alike(selected: Disk, serial: string, d: Disk) {
    && EqIgnoreAsciiCase(Trim(d.model), Trim(selected.model))
    && AbsDiff(d.sizeBytes, selected.sizeBytes) <= 1024 * 1024
    && d.serial.Some? && EqIgnoreAsciiCase(Trim(d.serial.value), serial)
  }

  function CountAlike(selected: Disk, serial: string, disks: seq<Disk>): nat {
    if disks == [] then 0
    else (if Alike(selected, serial, disks[0]) then 1 else 0) + CountAlike(selected, serial, disks[1..])
  }

  /** `resolve_linux_deployment_target`. */
  function ResolveTarget(requested: DeploymentTarget, r: Registered, c: Capability): Option<DeploymentTarget> {
    var at := FirstById(r.disks, requested.diskId);
    if !r.online || !r.x64Uefi || r.memoryBytes < c.minimumMemoryBytes || at == |r.disks| then None
    else
      var selected := r.disks[at];
      if selected.serial.None? || Trim(selected.serial.value) == "" then None
      else
        var serial := Trim(selected.serial.value);
        if CountAlike(selected, serial, r.disks) != 1 || selected.sizeBytes < c.minimumDiskBytes then None
        else Some(DeploymentTarget(r.device, selected.id, Trim(selected.model), Some(serial), selected.sizeBytes))
  }

  lemma {:induction false} TrimTwice(s: string)
    ensures Trim(Trim(s)) == Trim(s)
    decreases |s|
  {
    if s != [] {
      if IsWhitespace(s[0]) {
        TrimTwice(s[1..]);
      } else if IsWhitespace(s[|s| - 1]) {
        TrimTwice(s[..|s| - 1]);
      }
    }
  }

  /** Disks as the installer lists them, under paths of its own, one for each disk of the inventory. */
  predicate Lists(listed: seq<ObservedDisk>, disks: seq<Disk>) {
    && |listed| == |disks|
    && forall k :: 0 <= k < |disks| ==>
         && listed[k].model == disks[k].model && listed[k].serial == disks[k].serial
         && listed[k].sizeBytes == disks[k].sizeBytes
  }

  lemma {:induction false} NoneAlike(selected: Disk, serial: string, disks: seq<Disk>)
    ensures CountAlike(selected, serial, disks) == 0 <==> forall k :: 0 <= k < |disks| ==>
              !Alike(selected, serial, disks[k])
  {
    hide Alike;
    if disks != [] {
      var rest := disks[1..];
      NoneAlike(selected, serial, rest);
      assert forall k :: 0 < k < |disks| ==> disks[k] == rest[k - 1];
      assert forall k :: 0 <= k < |rest| ==> rest[k] == disks[k + 1];
    }
  }

  lemma {:induction false} OneAlike(selected: Disk, serial: string, disks: seq<Disk>, at: nat)
    requires at < |disks| && Alike(selected, serial, disks[at]) && CountAlike(selected, serial, disks) == 1
    ensures forall k :: 0 <= k < |disks| && Alike(selected, serial, disks[k]) ==> k == at
  {
    hide Alike;
    var rest := disks[1..];
    assert forall k :: 0 < k < |disks| ==> disks[k] == rest[k - 1];
    NoneAlike(selected, serial, rest);
    if at == 0 {
      assert CountAlike(selected, serial, rest) == 0;
    } else {
      assert rest[at - 1] == disks[at];
      assert Alike(selected, serial, rest[at - 1]);
      assert CountAlike(selected, serial, rest) == 1;
      OneAlike(selected, serial, rest, at - 1);
    }
  }

  /** Two disks of one model and serial number, at most one MiB apart. */
  predicate Twins(d: Disk, e: Disk) {
    && d.serial != None && e.serial != None && SameText(Trim(d.serial.value), Trim(e.serial.value))
    && SameText(Trim(d.model), Trim(e.model)) && e.sizeBytes - 0x10_0000 <= d.sizeBytes <= e.sizeBytes + 0x10_0000
  }

  lemma AlikeAreTwins(selected: Disk, d: Disk)
    requires selected.serial.Some?
    ensures Alike(selected, Trim(selected.serial.value), d) <==> Twins(d, selected)
  {
    hide Trim, EqIgnoreAsciiCase, SameText;
    EqualUpToCase(Trim(d.model), Trim(selected.model));
    if d.serial.Some? {
      EqualUpToCase(Trim(d.serial.value), Trim(selected.serial.value));
    }
  }

  lemma {:induction false} OnlyOneAlike(selected: Disk, serial: string, disks: seq<Disk>, at: nat)
    requires at < |disks| && forall k :: 0 <= k < |disks| ==> (Alike(selected, serial, disks[k]) <==> k == at)
    ensures CountAlike(selected, serial, disks) == 1
  {
    hide Alike;
    var rest := disks[1..];
    assert forall k :: 0 < k < |disks| ==> disks[k] == rest[k - 1];
    assert forall k :: 0 <= k < |rest| ==> rest[k] == disks[k + 1];
    NoneAlike(selected, serial, rest);
    if at > 0 {
      OnlyOneAlike(selected, serial, rest, at - 1);
    }
  }

  /** The disk a request names: the first with its id. */
  predicate NamedAt(disks: seq<Disk>, id: string, at: int) {
    0 <= at < |disks| && SameText(disks[at].id, id) && forall k :: 0 <= k < at ==> !SameText(disks[k].id, id)
  }

  /** What the resolved target of a request is, and which devices have one. */
  predicate ResolvesTo(requested: DeploymentTarget, r: Registered, c: Capability, at: nat, t: DeploymentTarget) {
    && r.online && r.x64Uefi && c.minimumMemoryBytes <= r.memoryBytes && NamedAt(r.disks, requested.diskId, at)
    && var d := r.disks[at];
       && d.serial != None && Trim(d.serial.value) != "" && c.minimumDiskBytes <= d.sizeBytes
       && (forall k :: 0 <= k < |r.disks| ==> (Twins(r.disks[k], d) <==> k == at))
       && t == DeploymentTarget(r.device, d.id, Trim(d.model), Some(Trim(d.serial.value)), d.sizeBytes)
  }

  /** A target is resolved exactly when the device is fit, and the disk it names is fit and has no twin. */
  lemma ResolvedMeans(requested: DeploymentTarget, r: Registered, c: Capability, t: DeploymentTarget)
    ensures ResolveTarget(requested, r, c) == Some(t)
            <==> exists at: nat :: ResolvesTo(requested, r, c, at, t)
  {
    hide Trim, EqIgnoreAsciiCase, SameText, Alike, Twins;
    forall k | 0 <= k < |r.disks|
      ensures EqIgnoreAsciiCase(r.disks[k].id, requested.diskId) <==> SameText(r.disks[k].id, requested.diskId)
    {
      EqualUpToCase(r.disks[k].id, requested.diskId);
    }
    var at := FirstById(r.disks, requested.diskId);
    assert forall k :: NamedAt(r.disks, requested.diskId, k) ==> k == at;
    if at < |r.disks| && r.disks[at].serial.Some? {
      TwinsAreCounted(r.disks, at);
      assert ResolveTarget(requested, r, c) == Some(t) <==> ResolvesTo(requested, r, c, at, t);
    }
  }

  lemma TwinsAreCounted(disks: seq<Disk>, at: nat)
    requires at < |disks| && disks[at].serial.Some?
    ensures CountAlike(disks[at], Trim(disks[at].serial.value), disks) == 1
            <==> forall k :: 0 <= k < |disks| ==> (Twins(disks[k], disks[at]) <==> k == at)
  {
    hide Trim, Alike, Twins;
    var selected, serial := disks[at], Trim(disks[at].serial.value);
    forall k | 0 <= k < |disks|
      ensures Alike(selected, serial, disks[k]) <==> Twins(disks[k], selected)
    {
      AlikeAreTwins(selected, disks[k]);
    }
    IsItsOwnTwin(selected);
    if CountAlike(selected, serial, disks) == 1 {
      OneAlike(selected, serial, disks, at);
    } else if forall k :: 0 <= k < |disks| ==> (Twins(disks[k], selected) <==> k == at) {
      OnlyOneAlike(selected, serial, disks, at);
    }
  }

  lemma IsItsOwnTwin(d: Disk)
    requires d.serial.Some?
    ensures Twins(d, d)
  {
    SameTextIsEquivalence(Trim(d.model), Trim(d.model), Trim(d.model));
    SameTextIsEquivalence(Trim(d.serial.value), Trim(d.serial.value), Trim(d.serial.value));
  }

  /**
   * A target that was resolved is one the installer can find again: as long as it sees the same disks,
   * in whatever order, exactly the selected disk carries the target's fingerprint.
   */
  lemma ResolvedTargetIsFoundAgain(
    requested: DeploymentTarget, r: Registered, c: Capability, listed: seq<ObservedDisk>, observed: seq<ObservedDisk>)
    requires ResolveTarget(requested, r, c).Some?
    requires Lists(listed, r.disks) && multiset(observed) == multiset(listed)
    ensures var at := FirstById(r.disks, requested.diskId);
            && at < |listed| && listed[at].sizeBytes >= c.minimumDiskBytes
            && UniquelyMatchingDisk(ResolveTarget(requested, r, c).value, observed) == Some(listed[at])
  {
    hide UniquelyMatchingDisk, Trim;
    var target := ResolveTarget(requested, r, c).value;
    var at := FirstById(r.disks, requested.diskId);
    var selected := r.disks[at];
    var serial := Trim(selected.serial.value);
    TrimTwice(selected.model);
    TrimTwice(selected.serial.value);
    OneAlike(selected, serial, r.disks, at);
    forall k | 0 <= k < |listed|
      ensures FingerprintMatches(target, serial, listed[k]) <==> k == at
    {
      assert FingerprintMatches(target, serial, listed[k]) <==> Alike(selected, serial, r.disks[k]);
    }
    assert OnlyAt(target, serial, listed, at);
    assert OnlyMatch(target, listed, at);
    SelectionIsTheOnlyMatch(target, listed);
    SelectionIgnoresOrder(target, observed, listed);
  }
}

/**
 * The desktop's job and image mutations under their lock, from apps/desktop/src-tauri/src/lib.rs.
 *
 * Every task is a sequence of atomic steps with awaits between them; tasks, image imports and every
 * other user of the job repository interleave freely, and only the mutation lock orders tasks.
 */
module DeploymentMutations {
  import opened Common
  import opened TextRules
  import opened DeploymentTypes
  import opened RepositorySpec
  import opened RepositoryRuns
  import opened LinuxTargets
  import PartitionPlans
  import LayoutPlanner

  /** `partitions` holds the expanded size of every verified NTFS partition of a Ghost image. */
  datatype Content = Content(format: LayoutPlanner.ImageFormat, sizeBytes: U64, partitions: map<U32, U64>)

  /** `installer` is the supported Ubuntu installer found in an ISO, if any. */
  datatype Image = Image(content: Content, verified: bool, installer: Option<Capability>)

  type Images = map<Uuid, Image>

  // ----- admission -----

  /** `validate_deployment_compatibility`. */
  predicate Compatible(operation: Operation, image: Image) {
    && image.verified && operation != CaptureGho
    && match image.content.format
       case Iso => operation == InstallLinux && image.installer.Some?
       case Gho => operation == DeployGho
       case Swm => false
       case Wim => operation == DeployWim
       case Esd => operation == DeployWim
  }

  function FindRegistered(devices: seq<Registered>, id: Uuid): Option<Registered> {
    if devices == [] then None
    else if devices[0].device == id then Some(devices[0])
    else FindRegistered(devices[1..], id)
  }

  predicate DisksHold(request: CreateRequest, image: Image) {
    forall t :: t in request.targets ==>
      PartitionPlans.ValidateCapacity(request.options.partitionPlan, t.diskSizeBytes, image.content.sizeBytes).None?
  }

  predicate DisksHoldPayload(request: CreateRequest, image: Image, payload: U64) {
    forall t :: t in request.targets ==>
      PartitionPlans.PayloadFits(request.options.partitionPlan, t.diskSizeBytes, image.content.sizeBytes, payload)
  }

  /** The checks of `create_job` before its first await; a Linux request gets its resolved target. */
  function Admit(
    image: Image, request: CreateRequest, dispatcher: bool, devices: seq<Registered>): Option<CreateRequest> {
    if !Compatible(request.operation, image) then None
    else if request.operation == InstallLinux then
      if |request.targets| != 1 || !dispatcher || request.options.linuxInstall.None?
         || !request.options.linuxInstall.value.wellFormed || image.installer.None? then None
      else
        var registered := FindRegistered(devices, request.targets[0].deviceId);
        if registered.None? then None
        else
          var target := ResolveTarget(request.targets[0], registered.value, image.installer.value);
          if target.None? then None else Some(request.(targets := [target.value]))
    else if request.options.linuxInstall.Some? || !DisksHold(request, image) then None
    else Some(request)
  }

  /** The check after the image was validated again: a raw partition must fit the Windows volume. */
  predicate PayloadChecked(images: Images, image: Image, request: CreateRequest) {
    request.operation == DeployGho ==>
      && request.imageId in images
      && request.options.imageIndex in images[request.imageId].content.partitions
      && DisksHoldPayload(request, image, images[request.imageId].content.partitions[request.options.imageIndex])
  }

  // ----- tasks and steps -----

  datatype Task =
    | CreateWaits(request: CreateRequest)
    | CreateHeld(request: CreateRequest)
    | CreateChecked(request: CreateRequest, image: Image)
    | CreateReady(request: CreateRequest, image: Image)
    | RemoveImageWaits(imageId: Uuid)
    | RemoveImageHeld(imageId: Uuid)
    | RemoveImageUnused(imageId: Uuid)
    | RemoveJobWaits(job: Uuid)
    | RemoveJobHeld(job: Uuid)
  {
    predicate Waits() {
      CreateWaits? || RemoveImageWaits? || RemoveJobWaits?
    }

    function Locked(): Task {
      match this
      case CreateWaits(request) => CreateHeld(request)
      case RemoveImageWaits(image) => RemoveImageHeld(image)
      case RemoveJobWaits(job) => RemoveJobHeld(job)
      case _ => this
    }
  }

  datatype Desk = Desk(images: Images, repo: Repo, lock: Option<nat>, tasks: map<nat, Task>)

  datatype Move =
    | Submit(task: nat, program: Task)
    | Acquire(task: nat)
    | ReadImage(task: nat, dispatcher: bool, devices: seq<Registered>)
    | Revalidate(task: nat, valid: bool)
    | Enqueue(task: nat, step: Step)
    | CheckReferences(task: nat)
    | DeleteImage(task: nat, persisted: bool)
    | DeleteJob(task: nat, step: Step)
    | Abandon(task: nat)
    | Import(id: Uuid, image: Image)
    | Verify(id: Uuid, verified: bool)
    | Other(step: Step)

  /** An import replaces a record only by the same content, and otherwise uses a new id. */
  predicate Enabled(s: Desk, m: Move) {
    match m
    case Submit(task, program) => task !in s.tasks && program.Waits()
    case Acquire(task) => s.lock.None? && task in s.tasks && s.tasks[task].Waits()
    case ReadImage(task, _, _) => task in s.tasks && s.tasks[task].CreateHeld?
    case Revalidate(task, _) => task in s.tasks && s.tasks[task].CreateChecked?
    case Enqueue(task, step) =>
      && task in s.tasks && s.tasks[task].CreateReady? && RepositoryRuns.Enabled(s.repo, step)
      && step.action.DoInsert? && step.action.request == s.tasks[task].request && step.action.initial == Waiting
    case CheckReferences(task) => task in s.tasks && s.tasks[task].RemoveImageHeld?
    case DeleteImage(task, _) => task in s.tasks && s.tasks[task].RemoveImageUnused?
    case DeleteJob(task, step) =>
      && task in s.tasks && s.tasks[task].RemoveJobHeld? && RepositoryRuns.Enabled(s.repo, step)
      && step.action == DoRemove(s.tasks[task].job)
    case Abandon(task) => task in s.tasks
    case Import(id, image) => id in s.images ==> image.content == s.images[id].content
    case Verify(id, _) => id in s.images
    case Other(step) => RepositoryRuns.Enabled(s.repo, step) && !step.action.DoInsert? && !step.action.DoRemove?
  }

  /** Ends a task, which lets go of the lock if it holds it. */
  function Ended(s: Desk, task: nat): Desk {
    s.(tasks := s.tasks - {task}, lock := if s.lock == Some(task) then None else s.lock)
  }

  function Moved(s: Desk, task: nat, next: Task): Desk {
    s.(tasks := s.tasks[task := next])
  }

  function Next(s: Desk, m: Move): Desk
    requires Enabled(s, m)
  {
    match m
    case Submit(task, program) => Moved(s, task, program)
    case Acquire(task) => Moved(s, task, s.tasks[task].Locked()).(lock := Some(task))
    case ReadImage(task, dispatcher, devices) =>
      var request := s.tasks[task].request;
      if request.imageId !in s.images then Ended(s, task)
      else
        var image := s.images[request.imageId];
        var admitted := Admit(image, request, dispatcher, devices);
        if admitted.None? then Ended(s, task) else Moved(s, task, CreateChecked(admitted.value, image))
    case Revalidate(task, valid) =>
      var t := s.tasks[task];
      if valid && PayloadChecked(s.images, t.image, t.request) then Moved(s, task, CreateReady(t.request, t.image))
      else Ended(s, task)
    case Enqueue(task, step) => Ended(s, task).(repo := After(s.repo, step))
    case CheckReferences(task) =>
      var id := s.tasks[task].imageId;
      if exists j :: j in s.repo.jobs && j.imageId == id then Ended(s, task) else Moved(s, task, RemoveImageUnused(id))
    case DeleteImage(task, persisted) =>
      var id := s.tasks[task].imageId;
      if persisted then Ended(s, task).(images := s.images - {id}) else Ended(s, task)
    case DeleteJob(task, step) => Ended(s, task).(repo := After(s.repo, step))
    case Abandon(task) => Ended(s, task)
    case Import(id, image) => s.(images := s.images[id := image])
    case Verify(id, verified) => s.(images := s.images[id := s.images[id].(verified := verified)])
    case Other(step) => s.(repo := After(s.repo, step))
  }

  /** Every state of a run from an empty job list and any image library. */
  predicate IsRun(states: seq<Desk>, moves: seq<Move>) {
    && |states| == |moves| + 1
    && states[0].repo.jobs == [] && states[0].repo.issued == {} && states[0].lock.None? && states[0].tasks == map[]
    && forall i :: 0 <= i < |moves| ==> Enabled(states[i], moves[i]) && states[i + 1] == Next(states[i], moves[i])
  }

  // ----- the invariant -----

  predicate RightFormat(operation: Operation, format: LayoutPlanner.ImageFormat) {
    match operation
    case InstallLinux => format == LayoutPlanner.Iso
    case DeployGho => format == LayoutPlanner.Gho
    case DeployWim => format == LayoutPlanner.Wim || format == LayoutPlanner.Esd
    case CaptureGho => false
  }

  predicate Holds(operation: Operation, options: DeploymentOptions, t: DeploymentTarget, content: Content) {
    operation != InstallLinux ==>
      && PartitionPlans.ValidateCapacity(options.partitionPlan, t.diskSizeBytes, content.sizeBytes).None?
      && (operation == DeployGho ==>
            && options.imageIndex in content.partitions
            && PartitionPlans.PayloadFits(options.partitionPlan, t.diskSizeBytes, content.sizeBytes,
                                          content.partitions[options.imageIndex]))
  }

  /** The plan and image index of a Windows job pass the checks that every request must. */
  predicate OptionsValid(operation: Operation, options: DeploymentOptions) {
    operation != InstallLinux ==> options.imageIndex != 0 && PartitionPlans.Validate(options.partitionPlan).None?
  }

  /** A stored job's image is in the library, is of the right kind, and holds what its target needs. */
  predicate JobSound(images: Images, j: Job) {
    && j.imageId in images
    && RightFormat(j.operation, images[j.imageId].content.format)
    && OptionsValid(j.operation, j.options)
    && forall t :: t in j.targets ==> Holds(j.operation, j.options, t, images[j.imageId].content)
  }

  /** What a task knows while it holds the lock. */
  predicate Knows(s: Desk, t: Task) {
    match t
    case CreateChecked(request, image) =>
      && request.imageId in s.images && s.images[request.imageId].content == image.content
      && RightFormat(request.operation, image.content.format)
      && (request.operation != InstallLinux ==> DisksHold(request, image))
    case CreateReady(request, image) =>
      && request.imageId in s.images && s.images[request.imageId].content == image.content
      && RightFormat(request.operation, image.content.format)
      && forall t :: t in request.targets ==> Holds(request.operation, request.options, t, image.content)
    case RemoveImageUnused(id) => forall j :: j in s.repo.jobs ==> j.imageId != id
    case _ => true
  }

  predicate JobsSound(s: Desk) {
    forall j :: j in s.repo.jobs ==> JobSound(s.images, j)
  }

  predicate TasksSound(s: Desk) {
    forall task :: task in s.tasks && !s.tasks[task].Waits() ==> s.lock == Some(task) && Knows(s, s.tasks[task])
  }

  predicate Inv(s: Desk) {
    && RepositoryRuns.Inv(s.repo)
    && JobsSound(s)
    && TasksSound(s)
  }

  // ----- every step keeps it -----

  /** After a step, a job is one that was there, with the same request inside, or the inserted one. */
  lemma StepKeepsRequests(jobs: seq<Job>, step: Step, b: Job)
    requires DistinctIds(jobs) && b in Perform(jobs, step).0
    ensures (exists a :: a in jobs && a.imageId == b.imageId && a.operation == b.operation && a.options == b.options
                         && a.targets == b.targets)
         || (step.action.DoInsert? && CheckRequest(step.action.request).None?
             && b == NewJob(step.action.request, step.action.initial, step.action.newId, step.now))
  {
    hide Perform, EditedBy, CheckRequest, NewJob, Without, HoldsDevice, Lookup;
    var change := StepMakesOneChange(jobs, step);
    match change
    case Nothing =>
    case Added(job) =>
    case Removed(id) =>
      WithoutIsSubset(jobs, id, b);
    case Edited(at, job) =>
      EditKeepsIdentity(step, jobs[at], job);
      assert jobs[at] in jobs;
  }

  lemma WithoutIsSubset(jobs: seq<Job>, id: Uuid, b: Job)
    requires b in Without(jobs, id)
    ensures b in jobs
  {
  }

  lemma RepoStepKeepsJobs(s: Desk, step: Step)
    requires Inv(s) && RepositoryRuns.Enabled(s.repo, step)
    requires step.action.DoInsert? && CheckRequest(step.action.request).None? ==>
               JobSound(s.images, NewJob(step.action.request, step.action.initial, step.action.newId, step.now))
    ensures var next := s.(repo := After(s.repo, step));
            RepositoryRuns.Inv(next.repo) && JobsSound(next)
  {
    hide RepositoryRuns.Inv, Perform, RepositoryRuns.Enabled, NewJob, Holds, RightFormat, TasksSound, CheckRequest,
         OptionsValid;
    StepKeepsInv(s.repo, step);
    InvGivesDistinctIds(s.repo);
    forall b | b in After(s.repo, step).jobs
      ensures JobSound(s.images, b)
    {
      StepKeepsRequests(s.repo.jobs, step, b);
    }
  }

  /** A step that inserts nothing brings no new image reference. */
  lemma RepoStepKeepsUnused(s: Desk, step: Step, id: Uuid)
    requires RepositoryRuns.Inv(s.repo) && !step.action.DoInsert?
    requires forall j :: j in s.repo.jobs ==> j.imageId != id
    ensures forall j :: j in After(s.repo, step).jobs ==> j.imageId != id
  {
    hide RepositoryRuns.Inv, Perform;
    InvGivesDistinctIds(s.repo);
    forall b | b in After(s.repo, step).jobs
      ensures b.imageId != id
    {
      StepKeepsRequests(s.repo.jobs, step, b);
    }
  }

  lemma OtherKeepsInv(s: Desk, step: Step)
    requires Inv(s) && Enabled(s, Other(step))
    ensures Inv(Next(s, Other(step)))
  {
    hide RepositoryRuns.Inv, Perform, RepositoryRuns.Enabled, JobSound, JobsSound;
    RepoStepKeepsJobs(s, step);
    var next := Next(s, Other(step));
    forall task | task in next.tasks && !next.tasks[task].Waits()
      ensures next.lock == Some(task) && Knows(next, next.tasks[task])
    {
      assert Knows(s, s.tasks[task]);
      if s.tasks[task].RemoveImageUnused? {
        RepoStepKeepsUnused(s, step, s.tasks[task].imageId);
      }
    }
  }

  /** When the lock's holder ends, all remaining tasks are waiting. */
  lemma EndedLeavesWaiting(s: Desk, task: nat)
    requires TasksSound(s) && task in s.tasks
    ensures TasksSound(Ended(s, task))
    ensures !s.tasks[task].Waits() ==> forall other :: other in Ended(s, task).tasks ==>
              Ended(s, task).tasks[other].Waits()
  {
    hide Knows;
    forall other | other in Ended(s, task).tasks && !Ended(s, task).tasks[other].Waits()
      ensures Ended(s, task).lock == Some(other) && Knows(Ended(s, task), Ended(s, task).tasks[other])
    {
      assert s.lock == Some(other) && Knows(s, s.tasks[other]);
      KnowsIgnoresTasks(s, Ended(s, task), s.tasks[other]);
    }
  }

  lemma KnowsIgnoresTasks(s: Desk, next: Desk, t: Task)
    requires Knows(s, t) && next.images == s.images && next.repo == s.repo
    ensures Knows(next, t)
  {
  }

  lemma ReadyMakesSoundJob(s: Desk, request: CreateRequest, image: Image, step: Step)
    requires Knows(s, CreateReady(request, image)) && CheckRequest(request).None?
    requires step.action.DoInsert? && step.action.request == request
    ensures JobSound(s.images, NewJob(request, step.action.initial, step.action.newId, step.now))
  {
    hide RightFormat, Holds;
  }

  lemma EnqueueKeepsInv(s: Desk, task: nat, step: Step)
    requires Inv(s) && Enabled(s, Enqueue(task, step))
    ensures Inv(Next(s, Enqueue(task, step)))
  {
    hide RepositoryRuns.Inv, Perform, RepositoryRuns.Enabled, JobSound, RightFormat, Holds;
    assert Knows(s, s.tasks[task]);
    if CheckRequest(step.action.request).None? {
      ReadyMakesSoundJob(s, s.tasks[task].request, s.tasks[task].image, step);
    }
    RepoStepKeepsJobs(s, step);
    EndedLeavesWaiting(s, task);
  }

  lemma DeleteJobKeepsInv(s: Desk, task: nat, step: Step)
    requires Inv(s) && Enabled(s, DeleteJob(task, step))
    ensures Inv(Next(s, DeleteJob(task, step)))
  {
    hide RepositoryRuns.Inv, Perform, RepositoryRuns.Enabled, JobSound, Knows;
    RepoStepKeepsJobs(s, step);
    EndedLeavesWaiting(s, task);
  }

  lemma DeleteImageKeepsInv(s: Desk, task: nat, persisted: bool)
    requires Inv(s) && Enabled(s, DeleteImage(task, persisted))
    ensures Inv(Next(s, DeleteImage(task, persisted)))
  {
    hide RepositoryRuns.Inv, RightFormat, Holds;
    assert Knows(s, s.tasks[task]);
    EndedLeavesWaiting(s, task);
  }

  /** The same content under every id keeps what jobs and tasks rely on. */
  lemma SameContentKeepsInv(s: Desk, images: Images)
    requires Inv(s)
    requires forall id :: id in s.images ==> id in images && images[id].content == s.images[id].content
    ensures Inv(s.(images := images))
  {
    hide RepositoryRuns.Inv, RightFormat, Holds, DisksHold;
    var next := s.(images := images);
    forall task | task in next.tasks && !next.tasks[task].Waits()
      ensures next.lock == Some(task) && Knows(next, next.tasks[task])
    {
      assert Knows(s, s.tasks[task]);
    }
    forall j | j in next.repo.jobs
      ensures JobSound(images, j)
    {
      assert JobSound(s.images, j);
    }
  }

  /** The lock's holder, or a task just taking or still awaiting the lock, moves on. */
  lemma MovedKeepsInv(s: Desk, task: nat, next: Task, lock: Option<nat>)
    requires Inv(s)
    requires if lock == s.lock then next.Waits() || s.lock == Some(task) else s.lock.None? && lock == Some(task)
    requires !next.Waits() ==> Knows(s, next)
    ensures Inv(Moved(s, task, next).(lock := lock))
  {
    hide RepositoryRuns.Inv, JobSound, Knows;
    var after := Moved(s, task, next).(lock := lock);
    forall other | other in after.tasks && !after.tasks[other].Waits()
      ensures after.lock == Some(other) && Knows(after, after.tasks[other])
    {
      KnowsIgnoresTasks(s, after, after.tasks[other]);
    }
  }

  lemma AdmittedIsSound(image: Image, request: CreateRequest, dispatcher: bool, devices: seq<Registered>)
    requires Admit(image, request, dispatcher, devices).Some?
    ensures var admitted := Admit(image, request, dispatcher, devices).value;
            && admitted.imageId == request.imageId && admitted.operation == request.operation
            && RightFormat(admitted.operation, image.content.format)
            && (admitted.operation != InstallLinux ==> DisksHold(admitted, image))
  {
    hide DisksHold, ResolveTarget, FindRegistered;
  }

  /** The device with this id that is registered first. */
  predicate RegisteredAt(devices: seq<Registered>, id: Uuid, at: int) {
    0 <= at < |devices| && devices[at].device == id && forall k :: 0 <= k < at ==> devices[k].device != id
  }

  lemma {:induction false} FoundIsRegistered(devices: seq<Registered>, id: Uuid)
    ensures FindRegistered(devices, id).Some? <==> exists at :: RegisteredAt(devices, id, at)
    ensures forall at :: RegisteredAt(devices, id, at) ==>
              0 <= at < |devices| && FindRegistered(devices, id) == Some(devices[at])
  {
    if devices != [] {
      var rest := devices[1..];
      FoundIsRegistered(rest, id);
      assert forall k :: 0 < k < |devices| ==> devices[k] == rest[k - 1];
      if devices[0].device == id {
        assert RegisteredAt(devices, id, 0);
      } else {
        forall at | RegisteredAt(devices, id, at)
          ensures RegisteredAt(rest, id, at - 1)
        {
        }
        if at :| RegisteredAt(rest, id, at) {
          assert RegisteredAt(devices, id, at + 1);
        }
      }
    }
  }

  /**
   * What `create_job` lets through before its first wait, and as what: a request for a verified image
   * of the operation's kind whose disks have room for its plan, as it is; or a Linux request for one
   * fit and registered device, with the target resolved on it.
   */
  lemma AdmittedMeans(
    image: Image, request: CreateRequest, dispatcher: bool, devices: seq<Registered>, q: CreateRequest)
    requires request.operation != InstallLinux
    ensures Admit(image, request, dispatcher, devices) == Some(q)
            <==> && q == request && image.verified && request.options.linuxInstall == None
                 && ((request.operation == DeployGho && image.content.format == LayoutPlanner.Gho)
                     || (request.operation == DeployWim
                         && (image.content.format == LayoutPlanner.Wim || image.content.format == LayoutPlanner.Esd)))
                 && forall t :: t in request.targets ==>
                      PartitionPlans.NeededMib(request.options.partitionPlan, image.content.sizeBytes)
                      <= t.diskSizeBytes / 0x10_0000
  {
    hide PartitionPlans.ValidateCapacity, PartitionPlans.NeededMib;
    forall t | t in request.targets
      ensures PartitionPlans.ValidateCapacity(
                request.options.partitionPlan, t.diskSizeBytes, image.content.sizeBytes).None?
              <==> PartitionPlans.NeededMib(request.options.partitionPlan, image.content.sizeBytes)
                   <= t.diskSizeBytes / 0x10_0000
    {
      CapacityIsNeed(request.options.partitionPlan, t.diskSizeBytes, image.content.sizeBytes);
    }
  }

  lemma CapacityIsNeed(plan: PartitionPlans.PartitionPlan, diskBytes: U64, imageBytes: U64)
    ensures PartitionPlans.ValidateCapacity(plan, diskBytes, imageBytes).None?
            <==> PartitionPlans.NeededMib(plan, imageBytes) <= diskBytes / 0x10_0000
  {
    hide PartitionPlans.ValidateCapacity;
    PartitionPlans.CapacityIsExact(plan, diskBytes, imageBytes);
  }

  lemma AdmittedInstallersMean(
    image: Image, request: CreateRequest, dispatcher: bool, devices: seq<Registered>, q: CreateRequest)
    requires request.operation == InstallLinux
    ensures Admit(image, request, dispatcher, devices) == Some(q)
            <==> && image.verified && image.content.format == LayoutPlanner.Iso && image.installer != None
                 && dispatcher && |request.targets| == 1 && request.options.linuxInstall != None
                 && request.options.linuxInstall.value.wellFormed
                 && exists at: nat, device: int, t ::
                      && 0 <= device < |devices| && RegisteredAt(devices, request.targets[0].deviceId, device)
                      && ResolvesTo(request.targets[0], devices[device], image.installer.value, at, t)
                      && q == request.(targets := [t])
  {
    hide ResolveTarget, FindRegistered, RegisteredAt, ResolvesTo;
    if |request.targets| == 1 && image.installer.Some? {
      var id, c := request.targets[0].deviceId, image.installer.value;
      FoundIsRegistered(devices, id);
      var found := FindRegistered(devices, id);
      if found.Some? {
        var device :| RegisteredAt(devices, id, device);
        forall t
          ensures ResolveTarget(request.targets[0], found.value, c) == Some(t)
                  <==> exists at: nat :: ResolvesTo(request.targets[0], found.value, c, at, t)
        {
          ResolvedMeans(request.targets[0], found.value, c, t);
        }
        var target := ResolveTarget(request.targets[0], found.value, c);
        if target.Some? {
          var at: nat :| ResolvesTo(request.targets[0], found.value, c, at, target.value);
          assert ResolvesTo(request.targets[0], devices[device], c, at, target.value);
        }
        if at: nat, other: int, t :|
          && 0 <= other < |devices| && RegisteredAt(devices, id, other)
          && ResolvesTo(request.targets[0], devices[other], c, at, t) && q == request.(targets := [t])
        {
          assert ResolveTarget(request.targets[0], found.value, c) == Some(t);
        }
      }
    }
  }

  lemma PreflightIsSound(s: Desk, request: CreateRequest, image: Image)
    requires Knows(s, CreateChecked(request, image)) && PayloadChecked(s.images, image, request)
    ensures Knows(s, CreateReady(request, image))
  {
  }

  lemma NextKeepsInv(s: Desk, m: Move)
    requires Inv(s) && Enabled(s, m)
    ensures Inv(Next(s, m))
  {
    hide RepositoryRuns.Inv, Inv, Knows, Admit, PayloadChecked, After, RepositoryRuns.Enabled;
    match m
    case Submit(task, program) => MovedKeepsInv(s, task, program, s.lock);
    case Acquire(task) => AcquireKeepsInv(s, task);
    case ReadImage(task, dispatcher, devices) => ReadImageKeepsInv(s, task, dispatcher, devices);
    case Revalidate(task, valid) => PreflightKeepsInv(s, task, valid);
    case Enqueue(task, step) => EnqueueKeepsInv(s, task, step);
    case CheckReferences(task) => CheckReferencesKeepsInv(s, task);
    case DeleteImage(task, persisted) => DeleteImageKeepsInv(s, task, persisted);
    case DeleteJob(task, step) => DeleteJobKeepsInv(s, task, step);
    case Abandon(task) => EndedKeepsInv(s, task);
    case Import(id, image) => SameContentKeepsInv(s, s.images[id := image]);
    case Verify(id, verified) => SameContentKeepsInv(s, s.images[id := s.images[id].(verified := verified)]);
    case Other(step) => OtherKeepsInv(s, step);
  }

  lemma EndedKeepsInv(s: Desk, task: nat)
    requires Inv(s) && task in s.tasks
    ensures Inv(Ended(s, task))
  {
    hide RepositoryRuns.Inv, JobSound, Knows;
    EndedLeavesWaiting(s, task);
  }

  lemma AcquireKeepsInv(s: Desk, task: nat)
    requires Inv(s) && Enabled(s, Acquire(task))
    ensures Inv(Next(s, Acquire(task)))
  {
    hide RepositoryRuns.Inv, JobsSound;
    MovedKeepsInv(s, task, s.tasks[task].Locked(), Some(task));
  }

  lemma ReadImageKeepsInv(s: Desk, task: nat, dispatcher: bool, devices: seq<Registered>)
    requires Inv(s) && Enabled(s, ReadImage(task, dispatcher, devices))
    ensures Inv(Next(s, ReadImage(task, dispatcher, devices)))
  {
    hide RepositoryRuns.Inv, JobsSound, Admit;
    var request := s.tasks[task].request;
    EndedKeepsInv(s, task);
    if request.imageId in s.images && Admit(s.images[request.imageId], request, dispatcher, devices).Some? {
      var image := s.images[request.imageId];
      AdmittedIsSound(image, request, dispatcher, devices);
      MovedKeepsInv(s, task, CreateChecked(Admit(image, request, dispatcher, devices).value, image), s.lock);
    }
  }

  lemma PreflightKeepsInv(s: Desk, task: nat, valid: bool)
    requires Inv(s) && Enabled(s, Revalidate(task, valid))
    ensures Inv(Next(s, Revalidate(task, valid)))
  {
    hide RepositoryRuns.Inv, JobsSound, PayloadChecked, Knows;
    var t := s.tasks[task];
    EndedKeepsInv(s, task);
    if PayloadChecked(s.images, t.image, t.request) {
      PreflightIsSound(s, t.request, t.image);
      MovedKeepsInv(s, task, CreateReady(t.request, t.image), s.lock);
    }
  }

  lemma CheckReferencesKeepsInv(s: Desk, task: nat)
    requires Inv(s) && Enabled(s, CheckReferences(task))
    ensures Inv(Next(s, CheckReferences(task)))
  {
    hide RepositoryRuns.Inv, JobsSound;
    var id := s.tasks[task].imageId;
    EndedKeepsInv(s, task);
    if !(exists j :: j in s.repo.jobs && j.imageId == id) {
      MovedKeepsInv(s, task, RemoveImageUnused(id), s.lock);
    }
  }

  // ----- over whole runs -----

  lemma {:induction false} RunKeepsInv(states: seq<Desk>, moves: seq<Move>, i: nat)
    requires IsRun(states, moves) && i < |states|
    ensures Inv(states[i])
  {
    hide Enabled, Next, Knows, JobSound;
    if i == 0 {
      assert RepositoryRuns.Inv(states[0].repo);
    } else {
      RunKeepsInv(states, moves, i - 1);
      NextKeepsInv(states[i - 1], moves[i - 1]);
    }
  }

  /** The mutation lock is held by a task that is past waiting for it, if at all. */
  predicate LockIsUsed(s: Desk) {
    s.lock.Some? ==> s.lock.value in s.tasks && !s.tasks[s.lock.value].Waits()
  }

  lemma NextKeepsLock(s: Desk, m: Move)
    requires LockIsUsed(s) && Enabled(s, m)
    ensures LockIsUsed(Next(s, m))
  {
    hide Admit, PayloadChecked, After, RepositoryRuns.Enabled;
  }

  /**
   * In every reachable state the lock is free, and every waiting task may take it, or its holder is
   * still at work and lets go of it when it ends.
   */
  lemma {:induction false} LockIsNeverLost(states: seq<Desk>, moves: seq<Move>, i: nat)
    requires IsRun(states, moves) && i < |states|
    ensures LockIsUsed(states[i])
    ensures forall task :: task in states[i].tasks && states[i].tasks[task].Waits() && states[i].lock.None? ==>
              Enabled(states[i], Acquire(task))
    ensures states[i].lock.Some? ==>
              var holder := states[i].lock.value;
              Enabled(states[i], Abandon(holder)) && Next(states[i], Abandon(holder)).lock == None
  {
    if i > 0 {
      hide Next, LockIsUsed;
      LockIsNeverLost(states, moves, i - 1);
      NextKeepsLock(states[i - 1], moves[i - 1]);
    }
    HolderMayGiveUp(states[i]);
  }

  lemma HolderMayGiveUp(s: Desk)
    ensures s.lock.Some? && s.lock.value in s.tasks ==>
              Enabled(s, Abandon(s.lock.value)) && Next(s, Abandon(s.lock.value)).lock == None
  {
  }

  /** In every reachable state every stored job's image is in the library and of the right kind. */
  lemma EveryJobHasItsImage(states: seq<Desk>, moves: seq<Move>, i: nat, j: Job)
    requires IsRun(states, moves) && i < |states| && j in states[i].repo.jobs
    ensures j.imageId in states[i].images && RightFormat(j.operation, states[i].images[j.imageId].content.format)
    ensures var format := states[i].images[j.imageId].content.format;
            && (j.operation == InstallLinux ==> format == LayoutPlanner.Iso)
            && (j.operation == DeployGho ==> format == LayoutPlanner.Gho)
            && (j.operation == DeployWim ==> format == LayoutPlanner.Wim || format == LayoutPlanner.Esd)
            && j.operation != CaptureGho
  {
    hide IsRun, Knows;
    RunKeepsInv(states, moves, i);
  }

  /** The lease an agent gets for a stored job, as far as it shapes the disk layout. */
  function LeaseOf(j: Job, content: Content, downloadBytes: U64): LayoutPlanner.Lease {
    LayoutPlanner.Lease(j.options.partitionPlan, j.options.imageIndex, downloadBytes, content.format,
                        if j.operation == DeployGho && j.options.imageIndex in content.partitions
                        then Some(content.partitions[j.options.imageIndex]) else None)
  }

  /** The refusals of an agent that creation does not check for. */
  predicate Unchecked(e: LayoutPlanner.LayoutError) {
    e.RecoveryUnsupported? || e.NotAPhysicalDrive? || e.DataNotLast? || e.TooManyPartitions?
  }

  /** The disk has fewer whole MiB than the plan needs, counted without saturation. */
  predicate LacksRoom(plan: PartitionPlans.PartitionPlan, diskBytes: U64, downloadBytes: U64) {
    diskBytes / PartitionPlans.MIB_BYTES < PartitionPlans.NeededMib(plan, downloadBytes)
  }

  /** Windows takes the remaining space, and the payload is larger than that. */
  predicate LacksPayloadRoom(lease: LayoutPlanner.Lease, diskBytes: U64) {
    && lease.payloadBytes.Some? && PartitionPlans.WindowsRemains(lease.plan)
    && var rest := PartitionPlans.RestMib(lease.plan, diskBytes, lease.imageBytes);
       rest * PartitionPlans.MIB_BYTES < lease.payloadBytes.value
  }

  /** A disk one MiB smaller than recorded, in whole MiB. */
  predicate OneMibShort(diskBytes: U64, recorded: U64) {
    diskBytes / PartitionPlans.MIB_BYTES + 1 == recorded / PartitionPlans.MIB_BYTES
  }

  lemma StoredJobIsSound(states: seq<Desk>, moves: seq<Move>, i: nat, j: Job)
    requires IsRun(states, moves) && i < |states| && j in states[i].repo.jobs
    ensures |j.targets| == 1 && JobSound(states[i].images, j)
    ensures Holds(j.operation, j.options, j.targets[0], states[i].images[j.imageId].content)
  {
    hide IsRun, Knows, Holds, RightFormat, OptionsValid;
    RunKeepsInv(states, moves, i);
    RepositoryJobHasOneTarget(states[i].repo, j);
    assert JobSound(states[i].images, j);
    assert j.targets[0] in j.targets;
  }

  /**
   * The agent's own check of a stored Windows job, on any disk that matches the job's target and for a
   * download no larger than the image: it refuses for want of room exactly when the disk lacks it, and
   * then the disk is one MiB smaller than recorded. Every other refusal is one creation does not check for.
   */
  lemma StoredJobsPassTheAgent(
    states: seq<Desk>, moves: seq<Move>, i: nat, j: Job, d: Disk, downloadBytes: U64, number: Option<U32>)
    requires IsRun(states, moves) && i < |states| && j in states[i].repo.jobs && j.operation != InstallLinux
    ensures |j.targets| == 1 && j.imageId in states[i].images
    ensures var content := states[i].images[j.imageId].content;
            MatchesDisk(j.targets[0], d) && downloadBytes <= content.sizeBytes ==>
              var lease := LeaseOf(j, content, downloadBytes);
              var refused := LayoutPlanner.Precheck(lease, d.sizeBytes, number);
              && (refused.Some? ==>
                    || Unchecked(refused.value)
                    || (refused.value.InsufficientCapacity? && LacksRoom(lease.plan, d.sizeBytes, downloadBytes))
                    || (refused.value.PayloadTooLarge? && LacksPayloadRoom(lease, d.sizeBytes)))
              && (LacksRoom(lease.plan, d.sizeBytes, downloadBytes) || LacksPayloadRoom(lease, d.sizeBytes) ==>
                    refused.Some? && OneMibShort(d.sizeBytes, j.targets[0].diskSizeBytes))
    ensures var content := states[i].images[j.imageId].content;
            j.targets[0].diskSizeBytes <= d.sizeBytes && MatchesDisk(j.targets[0], d)
                && downloadBytes <= content.sizeBytes ==>
              var refused := LayoutPlanner.Precheck(LeaseOf(j, content, downloadBytes), d.sizeBytes, number);
              refused.Some? ==> Unchecked(refused.value)
  {
    hide IsRun, Knows, PartitionPlans.Validate, PartitionPlans.ValidateCapacity, PartitionPlans.PayloadFits,
         PartitionPlans.CountRole, LayoutPlanner.UsesExtended, LayoutPlanner.DataPartitionsLast,
         LayoutPlanner.FirstWithRole, PartitionPlans.NeededMib, PartitionPlans.RestMib, PartitionPlans.WindowsRemains,
         EqIgnoreAsciiCase, Trim;
    StoredJobIsSound(states, moves, i, j);
    var content := states[i].images[j.imageId].content;
    var recorded := j.targets[0].diskSizeBytes;
    var plan := j.options.partitionPlan;
    if MatchesDisk(j.targets[0], d) && downloadBytes <= content.sizeBytes {
      PartitionPlans.CapacityOnMatchingDisk(plan, recorded, content.sizeBytes, d.sizeBytes, downloadBytes);
      if j.operation == DeployGho {
        PayloadOnMatch(plan, recorded, content.sizeBytes, d.sizeBytes, downloadBytes,
            content.partitions[j.options.imageIndex]);
      }
    }
  }

  lemma PayloadOnMatch(
    plan: PartitionPlans.PartitionPlan, recorded: U64, image: U64, actual: U64, download: U64, payload: U64)
    requires PartitionPlans.ValidateCapacity(plan, recorded, image).None?
              && PartitionPlans.PayloadFits(plan, recorded, image, payload)
    requires AbsDiff(recorded, actual) <= PartitionPlans.MIB_BYTES && download <= image
    ensures PartitionPlans.ValidateCapacity(plan, actual, download).None? ==>
              (!PartitionPlans.PayloadFits(plan, actual, download, payload)
               <==> PartitionPlans.WindowsRemains(plan)
                    && PartitionPlans.RestMib(plan, actual, download) * PartitionPlans.MIB_BYTES < payload)
              && (!PartitionPlans.PayloadFits(plan, actual, download, payload) ==> OneMibShort(actual, recorded))
  {
    hide PartitionPlans.ValidateCapacity, PartitionPlans.PayloadFits, PartitionPlans.RestMib,
         PartitionPlans.WindowsRemains;
    if PartitionPlans.ValidateCapacity(plan, actual, download).None? {
      PartitionPlans.PayloadOnMatchingDisk(plan, recorded, image, actual, download, payload);
    }
  }

  lemma RepositoryJobHasOneTarget(r: Repo, j: Job)
    requires RepositoryRuns.Inv(r) && j in r.jobs
    ensures |j.targets| == 1
  {
    var k :| 0 <= k < |r.jobs| && r.jobs[k] == j;
    assert JobOk(r.jobs[k]);
  }
}
