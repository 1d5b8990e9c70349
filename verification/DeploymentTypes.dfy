/** Jobs, their life cycle and disk fingerprints, from crates/core/src/job.rs. */
module DeploymentTypes {
  import opened Common
  import opened TextRules
  import PartitionPlans

  datatype JobState = Draft | Waiting | Running | Paused | Succeeded | Failed | Cancelled {
    predicate IsTerminal() {
      this in {Succeeded, Cancelled}
    }
  }

  /** The allowed moves of `JobState::transition`. */
  predicate Allowed(from: JobState, to: JobState) {
    match from
    case Draft => to in {Waiting, Cancelled}
    case Waiting => to in {Running, Cancelled}
    case Running => to in {Paused, Succeeded, Failed, Cancelled}
    case Paused => to in {Running, Succeeded, Failed, Cancelled}
    case Failed => to == Waiting
    case Succeeded => false
    case Cancelled => false
  }

  datatype Operation = DeployGho | CaptureGho | DeployWim | InstallLinux

  datatype DeploymentStage =
    | Preflight
    | BootingInstaller
    | ValidatingTarget
    | Partitioning
    | DownloadingImage
    | ApplyingImage
    | InstallingSystem
    | ConfiguringBoot
    | Finalizing
    | AwaitingFirstBoot
    | Rebooting

  /** `wellFormed` stands for the outcome of the options' own host, user and key checks. */
  datatype LinuxInstallOptions = LinuxInstallOptions(wellFormed: bool, hostname: string)

  datatype DeploymentOptions = DeploymentOptions(
    imageIndex: U32,
    partitionPlan: PartitionPlans.PartitionPlan,
    linuxInstall: Option<LinuxInstallOptions>)

  datatype DeploymentTarget = DeploymentTarget(
    deviceId: Uuid,
    diskId: string,
    diskModel: string,
    diskSerial: Option<string>,
    diskSizeBytes: U64)

  datatype Disk = Disk(id: string, model: string, serial: Option<string>, sizeBytes: U64)

  datatype CreateRequest = CreateRequest(
    name: string,
    operation: Operation,
    imageId: Uuid,
    targets: seq<DeploymentTarget>,
    options: DeploymentOptions)

  datatype Job = Job(
    id: Uuid,
    name: string,
    operation: Operation,
    imageId: Uuid,
    targets: seq<DeploymentTarget>,
    options: DeploymentOptions,
    state: JobState,
    stage: Option<DeploymentStage>,
    progress: nat,
    leaseId: Option<Uuid>,
    leaseExpiresAt: Option<Time>,
    createdAt: Time,
    updatedAt: Time)

  const CAPACITY_TOLERANCE_BYTES: nat := 0x10_0000

  /** `DeploymentTarget::matches_disk`. */
  predicate MatchesDisk(target: DeploymentTarget, disk: Disk) {
    && EqIgnoreAsciiCase(disk.id, Trim(target.diskId))
    && EqIgnoreAsciiCase(Trim(disk.model), Trim(target.diskModel))
    && AbsDiff(disk.sizeBytes, target.diskSizeBytes) <= CAPACITY_TOLERANCE_BYTES
    && (target.diskSerial.Some? ==>
          disk.serial.Some? && EqIgnoreAsciiCase(Trim(disk.serial.value), Trim(target.diskSerial.value)))
  }

  /**
   * What it is for a disk to carry a target's fingerprint, character by character: the recorded id,
   * the recorded model, a size at most one MiB off, and the recorded serial number if there is one.
   */
  predicate Carries(d: Disk, t: DeploymentTarget) {
    && SameText(d.id, Trim(t.diskId))
    && SameText(Trim(d.model), Trim(t.diskModel))
    && t.diskSizeBytes - 0x10_0000 <= d.sizeBytes <= t.diskSizeBytes + 0x10_0000
    && (t.diskSerial != None ==>
          d.serial != None && SameText(Trim(d.serial.value), Trim(t.diskSerial.value)))
  }

  lemma MatchingIsCarrying(t: DeploymentTarget, d: Disk)
    ensures MatchesDisk(t, d) <==> Carries(d, t)
  {
    hide Trim, EqIgnoreAsciiCase, SameText;
    EqualUpToCase(d.id, Trim(t.diskId));
    EqualUpToCase(Trim(d.model), Trim(t.diskModel));
    if t.diskSerial.Some? && d.serial.Some? {
      EqualUpToCase(Trim(d.serial.value), Trim(t.diskSerial.value));
    }
  }

  /** The target that is recorded when a disk is chosen. */
  function Recorded(device: Uuid, d: Disk): DeploymentTarget {
    DeploymentTarget(device, d.id, d.model, d.serial, d.sizeBytes)
  }

  /** A disk matches the target recorded from it exactly when its id has no blanks around it. */
  lemma RecordedDiskMatches(device: Uuid, d: Disk)
    ensures MatchesDisk(Recorded(device, d), d) <==> Trim(d.id) == d.id
  {
    hide Trim, SameText, MatchesDisk;
    MatchingIsCarrying(Recorded(device, d), d);
    TrimShortens(d.id);
    if SameText(d.id, Trim(d.id)) {
      SameLength(d.id, Trim(d.id));
    }
    SameTextIsEquivalence(d.id, d.id, d.id);
    SameTextIsEquivalence(Trim(d.model), Trim(d.model), Trim(d.model));
    if d.serial.Some? {
      SameTextIsEquivalence(Trim(d.serial.value), Trim(d.serial.value), Trim(d.serial.value));
    }
  }

  lemma SameLength(a: string, b: string)
    requires SameText(a, b)
    ensures |a| == |b|
  {
  }

  /** Two disks that match one target are of one model, and of one serial number if it records one. */
  lemma MatchesAreAlike(t: DeploymentTarget, d: Disk, e: Disk)
    requires MatchesDisk(t, d) && MatchesDisk(t, e)
    ensures SameText(d.id, e.id) && SameText(Trim(d.model), Trim(e.model))
    ensures d.sizeBytes - 0x20_0000 <= e.sizeBytes <= d.sizeBytes + 0x20_0000
    ensures t.diskSerial != None ==>
              d.serial != None && e.serial != None && SameText(Trim(d.serial.value), Trim(e.serial.value))
  {
    hide Trim, SameText, MatchesDisk;
    MatchingIsCarrying(t, d);
    MatchingIsCarrying(t, e);
    Chained(d.id, Trim(t.diskId), e.id);
    Chained(Trim(d.model), Trim(t.diskModel), Trim(e.model));
    if t.diskSerial.Some? {
      Chained(Trim(d.serial.value), Trim(t.diskSerial.value), Trim(e.serial.value));
    }
  }

  lemma Chained(a: string, b: string, c: string)
    requires SameText(a, b) && SameText(c, b)
    ensures SameText(a, c)
  {
    hide SameText;
    SameTextIsEquivalence(c, b, a);
    SameTextIsEquivalence(a, b, c);
  }

  /** How far a stage lies along an installer run. */
  function StageRank(stage: DeploymentStage): nat {
    match stage
    case Preflight => 0
    case BootingInstaller => 1
    case DownloadingImage => 2
    case ValidatingTarget => 3
    case Partitioning => 4
    case ApplyingImage => 5
    case InstallingSystem => 5
    case ConfiguringBoot => 6
    case Finalizing => 7
    case Rebooting => 8
    case AwaitingFirstBoot => 9
  }

  /** The stages in the order of an installer run; applying an image and installing a system rank alike. */
  lemma StagesInOrder()
    ensures StageRank(Preflight) < StageRank(BootingInstaller) < StageRank(DownloadingImage)
    ensures StageRank(DownloadingImage) < StageRank(ValidatingTarget) < StageRank(Partitioning)
    ensures StageRank(Partitioning) < StageRank(ApplyingImage) == StageRank(InstallingSystem)
    ensures StageRank(InstallingSystem) < StageRank(ConfiguringBoot) < StageRank(Finalizing)
    ensures StageRank(Finalizing) < StageRank(Rebooting) < StageRank(AwaitingFirstBoot)
  {
  }

  function RankOf(stage: Option<DeploymentStage>): nat {
    if stage.Some? then StageRank(stage.value) else 0
  }

  predicate Targets(job: Job, device: Uuid) {
    exists t :: t in job.targets && t.deviceId == device
  }

  predicate TargetsOnly(job: Job, device: Uuid) {
    |job.targets| == 1 && job.targets[0].deviceId == device
  }
}
