# A verified model of EasyDeployMesh's deployment core

EasyDeployMesh deploys operating systems to machines on a network. An operator queues jobs; a Windows
job is claimed under a lease by an agent running in WinPE, which partitions a disk and writes an image
to it; a Linux job is handed to an installer that first asks the service which disk it may erase. This
project models the parts of the system where a mistake destroys the wrong disk or corrupts data, and
proves properties of the model for all inputs and all runs.

## How the model is laid out

| File | What it holds |
|---|---|
| `Common.dfy` | options, bounded integers, saturating arithmetic, trimming and ASCII case folding, decimal numerals, powers of two, bits and exclusive or, slices |
| `PartitionPlans.dfy`, `PlanRules.dfy` | plan validation with saturating arithmetic, and the accepted plans in terms of their partitions |
| `LayoutPlanner.dfy`, `LayoutRoles.dfy`, `LayoutLimits.dfy` | the DiskPart script as a list of commands, what it creates for each role, and what it does not ensure of every plan |
| `DeploymentTypes.dfy`, `RepositorySpec.dfy`, `JobRepository.dfy` | jobs, what each repository operation does to the job list, and the repository as an object that does it |
| `RepositoryRuns.dfy` | whole runs of the repository under any callers |
| `ClaimJob.dfy` | how an agent claims a job in two phases, and finds its disk |
| `InstallerSessions.dfy`, `InstallerCalls.dfy`, `InstallerDeployment.dfy` | installer sessions, whole calls and which sequences of them get through, and the service as an object for calls nothing interrupts |
| `InstallerProtocol.dfy`, `InstallerSafety.dfy`, `InstallerLeases.dfy`, `InstallerReleases.dfy`, `InstallerTokens.dfy`, `InstallerWitness.dfy` | the same service as an interleaving of lock-protected regions, its safety, leases and sessions over whole runs, when a release goes to a job that no longer runs, and who gets a configuration at all |
| `FastLz.dfy`, `FastLzBytes.dfy`, `GhoContainer.dfy`, `GhoParser.dfy`, `GhoLayout.dfy`, `GhoDecoder.dfy`, `SpanReader.dfy` | the Ghost image decoder, from the block compression up to the multi-file stream |
| `HiveTiling.dfy`, `HiveEdit.dfy` | a registry hive as bins tiled by cells, its checksum, and the in-place edit of one value |
| `GhostSpans.dfy` | finding the span files of a Ghost image in a directory |
| `ByteRange.dfy` | the parser of single HTTP byte ranges (section 14.1.2 of RFC 9110) |
| `Mutations.dfy` | job and image mutations of the desktop under their lock |

Code that changes state in place is a class or a method over arrays; each such method is proved equal
to a function on values, and the properties are proved about that function. The repository and the
installer service are objects with an invariant `Valid()`, the one that is proved of whole runs. Concurrency is a state
machine whose steps are the source's lock-protected regions. Time is a clock that never runs back, a
UUID is a number that has not been used before, and writing a manifest is a step that succeeds or
fails as a whole.

## What the code does where its documentation suggests otherwise

- The registry edit is documented as in place. When the old value is too small it takes (and may split)
  a free cell, frees the old data cell and moves the value's offset; `HiveEdit.Edited` states both forms.
- A disk fingerprint ignores blanks around the target's disk id, while the agent's lookup of the disk does
  not. `AgentDisks.AgentFindsTheMatchedDisk` proves exactly when the agent finds the disk the server matched,
  and `AgentDisks.PaddedIdIsLost` is an instance where it does not.
- An operator's transition leaves the lease of a job in place, a queued Windows job may be set running
  without any lease, and a completed installer job shows the stage `Finalizing` again; stage ranks are
  therefore monotone only while a job runs (`RepositoryRuns.RunningInstallersNeverMoveBack`).
- Every event renews the lease of its job by four hours, but not the session the installer calls with, whose
  expiry is fixed at the handoff. An installation that takes longer than four hours is refused its remaining
  events and its confirmation while its lease is held (`InstallerCalls.InstallationsEndInTime`,
  `InstallerCalls.LateEventIsRefused`, `InstallerLeases.ExpiredSessionsStayShut`).
- An operator may fail a job after its lease was taken and before its destructive configuration is released,
  and the release still happens. `InstallerReleases.ReleasedJobRunsUnlessFailed` proves that this is the only
  way for a release to go to a job that does not run under its lease, `InstallerWitness.FailedJobIsReleased`
  that it can happen.
- Assigned drive letters need not be distinct, and cleanup may free space that is not next to the partition it
  extends; `LayoutLimits` states exactly for which plans they are and it is.
- The search for a record assumes that reads fill their buffer: a read cut below ten bytes ends it early.
  `GhoContainer.FindRecord` says when, and `SpanReaders.SpanReader.Read`, which feeds it, never cuts one.
- A fingerprint tolerates a disk one MiB smaller than recorded, and a plan that fills the recorded disk does
  not fit there (`PartitionPlans.MatchingDiskCanBeTooSmall`).

## Model

| member | source | states |
|---|---|---|
| TextRules.TrimStrips | crates/core/src/job.rs:80-94 | trimming removes exactly the blanks at the two ends |
| TextRules.StrippedIsUnique | crates/core/src/job.rs:80-94 | and only one text is left when they are removed |
| TextRules.EqualUpToCase | crates/core/src/job.rs:80-94 | the fold of ASCII case makes two texts equal exactly when they are of one length and have the same letter, in either case, at every place |
| Bits.XorAt | crates/bcd/src/lib.rs:406-408 | a bit of an exclusive or is set exactly when exactly one of the two bits is |
| Bits.XorLaws | crates/bcd/src/lib.rs:406-408 | zero is neutral, every word is its own inverse, and neither order nor grouping matters |
| DeploymentTypes.MatchingIsCarrying | crates/core/src/job.rs:80-94 | a disk matches exactly when it has the recorded id and model, a size at most one MiB off, and the recorded serial number if one is recorded, compared character by character |
| DeploymentTypes.MatchesAreAlike | crates/core/src/job.rs:80-94 | two disks that match one target have the same id and model, and the same serial number if it records one |
| DeploymentTypes.RecordedDiskMatches | crates/core/src/job.rs:80-94 | a disk matches the target recorded from it exactly when its id has no blanks around it |
| PartitionPlans.SortLettersSorts | crates/core/src/job.rs:253-269 | sorting the drive letters gives an ascending permutation of them |
| PartitionPlans.SortedNeighboursFindDuplicates | crates/core/src/job.rs:253-269 | comparing sorted neighbours finds a repeated letter exactly when two partitions share one |
| PartitionPlans.SaturatingFoldIsMinimum | crates/core/src/job.rs:309-350 | the saturating sum of the sizes is the exact sum capped at the largest u64 |
| PartitionPlans.CapacityIsExact | crates/core/src/job.rs:309-350 | the saturating check accepts exactly when the plan fits in unbounded arithmetic, and then nothing saturated |
| PartitionPlans.SmallerDownloadFits | crates/core/src/job.rs:309-392 | both capacity checks stay satisfied on a larger disk and for a smaller download |
| PartitionPlans.CapacityOnMatchingDisk | crates/core/src/job.rs:309-350 | on a disk that matches the recorded one an accepted plan is refused exactly when the disk has fewer whole MiB than needed, and then it lacks one |
| PartitionPlans.PayloadOnMatchingDisk | crates/core/src/job.rs:354-392 | there an accepted payload is refused exactly when Windows takes the remaining space and that is too small |
| PartitionPlans.MatchingDiskCanBeTooSmall | crates/core/src/job.rs:80-95 | the recommended UEFI plan on a disk it fills, refused on a matching disk one MiB smaller |
| PlanRules.AcceptedPlans | crates/core/src/job.rs:201-306 | a plan is valid exactly when one partition is for Windows, one, for Windows or data, has no size, each is sound in itself, no two letters name one drive, and the boot partitions are those of its table |
| PlanRules.DuplicatesAreShared | crates/core/src/job.rs:253-269 | the letters repeat exactly when two partitions have the same letter, in either case |
| PlanRules.RequiredMeans | crates/core/src/job.rs:269-306 | a required role is accepted exactly when one partition has it, with the required file system |
| LayoutPlanner.SumSizes | crates/agent/src/deployment.rs:215-220 | the plain u64 sum of the sizes is exact when the exact sum fits |
| LayoutPlanner.BuildPartitions | crates/agent/src/deployment.rs:266-320 | the loop emits every partition's commands in plan order, one extended container before the first data partition when needed, and reports the Windows partition's number |
| LayoutPlanner.PrepareLayout | crates/agent/src/deployment.rs:190-360 | refuses with the first check that fails and otherwise produces the specified layout; EFI and MSR partitions, and only they, are created as such, and data partitions as logical exactly when an MBR plan has two or more |
| LayoutRoles.AcceptedLeases | crates/agent/src/deployment.rs:190-360 | exactly which leases get a layout |
| LayoutRoles.CreatedKinds | crates/agent/src/deployment.rs:269-294 | partition i is created as EFI exactly when its role is EFI, as MSR exactly when it is MSR, and as logical exactly when it is data behind an extended container |
| LayoutRoles.CommandsOfRole | crates/agent/src/deployment.rs:266-320 | the commands of one partition, written out for every role |
| LayoutRoles.GptBootPartitions | crates/agent/src/deployment.rs:266-320 | a GPT script creates exactly one EFI partition, at once formatted FAT32 and lettered S, exactly one MSR partition with neither format nor letter, and makes nothing active |
| LayoutRoles.MbrBootPartition | crates/agent/src/deployment.rs:266-320 | an MBR script makes exactly one partition active: the primary one of the System role, formatted NTFS before and lettered S after |
| LayoutRoles.ScriptFrame | crates/agent/src/deployment.rs:255-343 | what stands before and behind the partitions, the size of the cache, and what cleanup deletes and extends |
| LayoutRoles.NeededRoom | crates/core/src/job.rs:309-350 | the room a plan needs: its sizes, the image in whole MiB and 512 more, the minimum of the remaining partition and 32 MiB |
| LayoutPlanner.CreatedByPartitions | crates/agent/src/deployment.rs:269-294 | the partitions created by the loop are the plan's, in order, with the given or the remaining size |
| LayoutPlanner.LayoutConservesDisk | crates/agent/src/deployment.rs:205-294 | created partitions, cache and alignment reserve add up to the disk size in MiB exactly, and the remaining partition meets its role's minimum |
| LayoutPlanner.PayloadFitsCreatedWindows | crates/agent/src/deployment.rs:206-294 | an accepted payload fits the Windows partition that is created, and the reported number names that partition |
| LayoutPlanner.MbrScriptIsLegal | crates/agent/src/deployment.rs:235-328 | any accepted MBR plan yields a legal script with at most four primary-or-extended entries, and an extended one exactly with two or more data partitions |
| LayoutPlanner.MbrRunMeaning | crates/agent/src/deployment.rs:269-328 | a legal script creates at most four entries, has every logical partition behind the one extended container and no primary behind it |
| LayoutPlanner.NoPartitionTakesCacheLetter | crates/agent/src/deployment.rs:305-320 | no partition of an accepted plan is given the letter R |
| LayoutPlanner.CleanupRemovesOnlyCache | crates/agent/src/deployment.rs:321-340 | cleanup deletes the volume lettered R, which is the cache and nothing else, and extends the letter the remaining partition was given |
| LayoutLimits.LettersAreDistinct | crates/agent/src/deployment.rs:305-328 | the letters an accepted plan's script assigns are distinct exactly when the data letters, with the default D, are distinct and avoid S |
| LayoutLimits.FreedSpaceIsAdjacent | crates/agent/src/deployment.rs:269-340 | the space cleanup frees is adjacent to the partition it extends exactly when that is the last in the plan |
| JobRepositories.JobRepository.InsertJob | crates/service/src/job_repository.rs:197-246 | exactly when a request becomes a job and which: a sound request for one device that has no unfinished job; a refusal changes nothing, and the invariant is kept |
| JobRepositories.JobRepository.RemoveJob | crates/service/src/job_repository.rs:162-181 | keeps the invariant; exactly a stored job that has succeeded, failed or been cancelled goes, and nothing else does |
| JobRepositories.JobRepository.TransitionJob | crates/service/src/job_repository.rs:248-281 | keeps the invariant and every other job; accepted exactly for the thirteen moves of the table that an operator may make, with the whole new record |
| JobRepositories.JobRepository.LeaseForDeviceIf | crates/service/src/job_repository.rs:291-330 | keeps the invariant and every other job; none is leased exactly when none is leasable and eligible, and the new record is given field by field; it is the only unfinished one the device has |
| JobRepositories.JobRepository.MarkInstallerBooting | crates/service/src/job_repository.rs:334-370 | keeps the invariant and every other job; accepted exactly for a queued installer job of this device and image, which shows that it boots |
| JobRepositories.JobRepository.LeaseInstallerJob | crates/service/src/job_repository.rs:372-412 | keeps the invariant and every other job; accepted exactly for a queued installer job of this device and image, which runs under the new lease until the given duration is over |
| JobRepositories.JobRepository.ReportInstallerProgress | crates/service/src/job_repository.rs:414-445 | keeps the invariant and every other job; accepted exactly under a held lease, with neither rank nor percentage below the job's and at most 99, and the lease runs to the later instant |
| JobRepositories.JobRepository.CompleteInstallerJob | crates/service/src/job_repository.rs:447-477 | keeps the invariant and every other job; accepted exactly under the held lease of a running job, which succeeds or fails and loses the lease |
| JobRepositories.JobRepository.ReportProgress | crates/service/src/job_repository.rs:479-502 | keeps the invariant and every other job; accepted exactly under a held lease for at most 100 percent, and records stage and percentage; the lease runs to the later instant |
| JobRepositories.JobRepository.Complete | crates/service/src/job_repository.rs:539-571 | keeps the invariant and every other job; accepted exactly under the held lease of a job under way, which ends as told and loses the lease |
| JobRepositories.JobRepository.RenewControlLease | crates/service/src/job_repository.rs:573-616 | keeps the invariant and every other job; with a non-negative duration accepted exactly for the lease's holder, and leaves the lease alone exactly when at least half the duration is left |
| JobRepositories.JobRepository.Authorized | crates/service/src/job_repository.rs:504-537 | answers the stored job exactly when a targeted device presents the current lease of the job under way in time |
| JobRepositories.SoundRequestsPass | crates/service/src/job_repository.rs:711-754 | exactly which requests for one device pass the checks, in terms of their fields |
| RepositoryRuns.EditIsLegal | crates/service/src/job_repository.rs:248-696 | what any accepted operation may do to a job: table moves, lease replacement only from the queue or an expired Windows run, success only under a valid lease, no installer moving backwards |
| RepositoryRuns.StepMakesOneChange | crates/service/src/job_repository.rs:162-696 | every operation does nothing, adds one job, removes one, or edits one as permitted |
| RepositoryRuns.StepKeepsInv | crates/service/src/job_repository.rs:162-696 | every operation keeps the invariant, whether or not its write succeeds |
| RepositoryRuns.RunKeepsInv | crates/service/src/job_repository.rs:162-696 | in every reachable state: one unfinished job a device, lease id present exactly with an expiry, an installer job never paused, leased while running, at 100 percent exactly when succeeded |
| RepositoryRuns.RunMovesRecord | crates/service/src/job_repository.rs:197-696 | between two states of a run a record moves only legally, and only by an accepted step |
| RepositoryRuns.FailureChangesNothing | crates/service/src/job_repository.rs:162-709 | an operation that answers with an error left the job list as it was |
| RepositoryRuns.RemovedIdsStayGone | crates/service/src/job_repository.rs:162-181 | a removed id never names a job again |
| RepositoryRuns.FinishedJobsAreFinal | crates/core/src/job.rs:29-55 | a succeeded or cancelled record never changes until it is removed |
| RepositoryRuns.AcceptedLeaseIsCurrent | crates/service/src/job_repository.rs:618-696 | a lease-checked call is accepted only with the job's current lease |
| RepositoryRuns.RetiredLeaseIsNeverAccepted | crates/service/src/job_repository.rs:479-696 | a lease no job carries is refused for the rest of every run |
| RepositoryRuns.ReplacedLeaseIsRetired | crates/service/src/job_repository.rs:291-330 | once a job's lease is replaced, ends or goes with its job, no job carries it |
| RepositoryRuns.RenewalsExtend | crates/service/src/job_repository.rs:573-616 | with a non-negative duration a renewal never shortens the lease, leaves at least half the duration and changes nothing else |
| RepositoryRuns.ReportsNeverShorten | crates/service/src/job_repository.rs:618-696 | progress reports extend a lease or leave it, under the same id and state |
| RepositoryRuns.RunningTracesToHandoff | crates/service/src/job_repository.rs:372-412 | a running installer job goes back to one accepted handoff whose lease it has run under ever since |
| RepositoryRuns.SuccessTracesToHandoff | crates/service/src/job_repository.rs:372-477 | a succeeded installer job was handed off once and completed under that very lease before it expired |
| RepositoryRuns.RunningInstallersNeverMoveBack | crates/service/src/job_repository.rs:414-445 | while an installer job runs its stage rank and percentage never fall |
| RepositoryRuns.LeasedJobsComplete | crates/service/src/job_repository.rs:539-571 | completing under an accepted lease is always an allowed transition, so the source's `expect` cannot fail |
| RepositoryRuns.ClaimLeasesTheOneJob | crates/service/src/job_repository.rs:291-330 | a successful claim leases the device's only unfinished job, and an eligible one is always found |
| ClaimJob.RequestsAreFixed | crates/service/src/job_repository.rs:197-246 | whatever is stored under an id later in a run is the same request |
| ClaimJob.ClaimedJobWasValidated | crates/service/src/control_plane.rs:366-450 | whatever happens between snapshot and lease, the leased job's image, index and operation are the validated ones, it is leased for two hours, and some disk known before and some disk known after carries its target's fingerprint, serial number included |
| ClaimJob.UndisturbedClaim | crates/service/src/control_plane.rs:366-450 | uninterrupted, a claim hands out a job exactly when one is queued or overdue, for this device alone, on a disk it has and with an image that validates; it then runs for two hours from its first stage |
| ClaimJob.CandidatesAreReady | crates/service/src/control_plane.rs:366-450 | exactly which jobs are candidates whose image validates, field by field |
| AgentDisks.FoundDiskCarriesTarget | crates/agent/src/deployment.rs:178-188 | the agent finds exactly the first disk with the target's id, and only if the id has no blanks around it and the disk has the recorded model, size and serial number |
| AgentDisks.AgentFindsTheMatchedDisk | crates/agent/src/deployment.rs:178-188 | with distinct disk ids the agent finds the disk the server matched exactly when the target's id has no surrounding blanks, and it never finds another |
| AgentDisks.PaddedIdIsLost | crates/agent/src/deployment.rs:178-188 | a padded id that the server matches and the agent does not find |
| InstallerSessions.SelectionIsTheOnlyMatch | crates/service/src/installer_deployment.rs:702-730 | a disk is selected exactly when one observed disk matches, and it is that disk |
| InstallerSessions.SelectionIsTheOnlyObserved | crates/service/src/installer_deployment.rs:702-730 | a disk is selected exactly when it is the only one observed with the recorded serial number and model and a size at most one MiB off, compared character by character |
| InstallerSessions.SelectionIgnoresOrder | crates/service/src/installer_deployment.rs:702-730 | the same disk is selected in whatever order the disks are observed |
| InstallerSessions.ValidDisksRender | crates/service/src/installer_deployment.rs:814-830 | a disk of a valid guard request always has a path the configuration accepts |
| InstallerSessions.ReportIsAccepted | crates/service/src/job_repository.rs:414-445 | an event is accepted exactly when the lease is held and its percentage is not below the job's; the rank of its stage never decides otherwise |
| InstallerSessions.ReportsInOrderAreAccepted | crates/service/src/job_repository.rs:414-445 | the repository accepts a sequence of reports to its end exactly when each arrives under the lease the earlier ones renewed and they come in installation order |
| InstallerCalls.EventsInOrderAreAccepted | crates/service/src/installer_deployment.rs:392-447 | a sequence of event calls gets through exactly when all come before the session expires, at the instant fixed at its handoff, and in installation order; the session keeps all but its phase |
| InstallerCalls.ConfirmationIsAccepted | crates/service/src/installer_deployment.rs:449-482 | a first-boot confirmation gets through exactly with the right attempt and before the session expires, and then the job has succeeded |
| InstallerCalls.EventsAfterHandoffAreAccepted | crates/service/src/installer_deployment.rs:392-447 | from the handoff on, events get through exactly in installation order and within four hours of it |
| InstallerCalls.InstallationsEndInTime | crates/service/src/installer_deployment.rs:392-482 | a whole installation, events and confirmation, gets through exactly in order and within four hours of the handoff |
| InstallerCalls.ExpiredSessionIsShut | crates/service/src/installer_deployment.rs:588-619 | an expired session gets neither an event nor a confirmation through, however long its lease |
| InstallerCalls.LateEventIsRefused | crates/service/src/installer_deployment.rs:392-482 | an event at 200 minutes renews the lease to 440; the next one at 300 would be accepted by the repository and is refused by the call, and so is a confirmation |
| InstallerLeases.NextKeepsLeases | crates/service/src/installer_deployment.rs:392-553 | every step of every interleaving keeps leases as long as the sessions they were given to, for their devices, and running jobs at an event |
| InstallerLeases.HandedSessionsAreReady | crates/service/src/installer_deployment.rs:392-482 | in every reachable state a handed-off session whose job runs under its lease meets what the results on sequences of calls ask for; its expiry never exceeds the lease's |
| InstallerLeases.AuthenticatedHoldsLease | crates/service/src/installer_deployment.rs:588-619 | a call that authenticates never finds the lease of its running job run out |
| InstallerLeases.HandedOffExpiryIsFixed | crates/service/src/installer_deployment.rs:533-548 | in every run a handed-off session changes in nothing but its phase |
| InstallerLeases.ExpiredSessionsStayShut | crates/service/src/installer_deployment.rs:588-619 | in every run no call that presents an expired handed-off session gets past its first region again |
| InstallerDeployments.InstallerDeployment.OfferSession | crates/service/src/installer_deployment.rs:253-286 | exactly the expired sessions and the job's older ones go, and the new one is offered exactly when fewer than 4096 remain |
| InstallerDeployments.InstallerDeployment.PerformInitialGuard | crates/service/src/installer_deployment.rs:484-553 | succeeds exactly when media, job, disk, lease and session all allow it, and then leases the job and hands the session that lease |
| InstallerDeployments.InstallerDeployment.ReplayGuard | crates/service/src/installer_deployment.rs:555-586 | succeeds exactly for the running job under the session's own lease, for the disk that matches again |
| InstallerDeployments.InstallerDeployment.AuthorizeGuard | crates/service/src/installer_deployment.rs:353-390 | an uninterrupted call succeeds exactly when the request is plausible, the session's own secret is presented before it expires, and medium, job and disk allow it, all in terms of their fields; what it hands out and what becomes of job and session; a wrong secret or any other refusal changes nothing |
| InstallerDeployments.InstallerDeployment.ReportEvent | crates/service/src/installer_deployment.rs:392-447 | an event gets through only with the session's own secret, before it expires and under the held lease; the stage and percentage of every event, the extended lease, and the phase afterwards; a refusal changes nothing |
| InstallerDeployments.InstallerDeployment.CompleteFirstBoot | crates/service/src/installer_deployment.rs:449-482 | a confirmation gets through exactly with the session's own secret and attempt, before it expires, and under the held lease or once more after completion, which changes nothing; the job has then succeeded |
| InstallerDeployments.PlausibleIsValid | crates/core/src/job.rs:647-712 | exactly which guard requests are looked at, in terms of their characters |
| InstallerDeployments.GrantsAreGrantable | crates/service/src/installer_deployment.rs:484-586 | the checks before the lease, and before a repetition, ask for exactly the stated medium, job and disk |
| InstallerDeployments.ReportedIsHeld | crates/service/src/installer_deployment.rs:392-447 | an accepted event found the job running under the session's unexpired lease, and moves it as its kind says |
| InstallerTokens.StartedCallsAreAuthentic | crates/service/src/installer_deployment.rs:588-619 | in every interleaving a call gets past its first region only with its session's own secret, before the session expires and in the right phase |
| InstallerTokens.OtherSecretsAreRefused | crates/service/src/installer_deployment.rs:588-619 | with any other secret nothing but the clock changes |
| InstallerTokens.HandedOutToTheSession | crates/service/src/installer_deployment.rs:353-390 | in every run each configuration handed out, first or again, goes back to a call that presented its session's secret in time and reported the disks it was chosen from |
| InstallerTokens.ReleaseWasChecked | crates/service/src/installer_deployment.rs:484-553 | between that call and a first release the medium asked for was prepared from the session's image, and the disk named is the only one that carries the target's fingerprint and is large enough |
| InstallerTokens.SecretsAreFixed | crates/service/src/installer_deployment.rs:588-675 | in every run an id names one session, with one secret, device, job and image |
| InstallerTokens.NewSessionsAreOffered | crates/service/src/installer_deployment.rs:236-286 | every session begins as an offer for two hours, without a lease, for the job that was found |
| InstallerTokens.DiscoveredMeans | crates/service/src/installer_deployment.rs:169-236 | a device is offered a job exactly when it has one unfinished installer job, which is queued |
| InstallerTokens.RegionsAreTheCalls | crates/service/src/installer_deployment.rs:353-553 | in every interleaving a region does to the jobs what the uninterrupted call does |
| InstallerTokens.EventsMoveSessions | crates/service/src/installer_deployment.rs:420-446 | an accepted event goes on to end its session, to note that it waits for the boot, or not at all, as its kind says |
| InstallerSafety.NextKeepsRepoInv | crates/service/src/installer_deployment.rs:353-553 | every interleaved step keeps the repository's invariant |
| InstallerSafety.NextKeepsInv | crates/service/src/installer_deployment.rs:169-675 | every atomic step of every interleaving, operators and restarts included, keeps the protocol's invariant |
| InstallerSafety.ReleasesAreBounded | crates/service/src/installer_deployment.rs:353-390 | in every run a job's destructive configuration is first released at most once plus once a retry |
| InstallerSafety.LeaseTracesToHandoff | crates/service/src/installer_deployment.rs:517-532 | every lease given out goes back to one step that took its queued job, with exactly the recorded target, to running under it |
| InstallerSafety.ReleaseNamesTheTarget | crates/service/src/installer_deployment.rs:484-553 | every first release goes back to the step that handed its job over under its lease, names the only observed disk that matches that job's target, which the job keeps, and shares lease and session with no other release |
| InstallerReleases.ReleasedJobRunsUnlessFailed | crates/service/src/installer_deployment.rs:484-553 | after a first release the job runs under the released lease exactly when no operator's failure of it was accepted since its handoff |
| InstallerReleases.PendingReleaseIsNotStopped | crates/service/src/installer_deployment.rs:517-552 | wherever a thread has taken a lease and its session is there, an operator's failure of the job is accepted and the thread still releases the configuration |
| InstallerWitness.FailedJobIsReleased | crates/service/src/installer_deployment.rs:353-390 | for any installation that could be carried out, a whole run in which that happens |
| InstallerWitness.OneIsInstallable | crates/service/src/installer_deployment.rs:353-390 | such an installation, written out |
| InstallerSafety.ReplayRepeatsARelease | crates/service/src/installer_deployment.rs:555-586 | a configuration handed out again was first released to the same session, under the same lease and for the same target, and names the only observed disk that matches it |
| InstallerSafety.LeaseHasOneSession | crates/service/src/installer_deployment.rs:533-547 | at most one session holds a lease in any reachable state |
| InstallerSafety.CommitFindsItsClaim | crates/service/src/installer_deployment.rs:533-543 | the guard's last region finds its session still claimed by this thread, or gone |
| InstallerSafety.HandoffConsumesQueue | crates/service/src/job_repository.rs:372-412 | every accepted handoff takes a queued job out of the queue |
| FastLz.CopyMatch | crates/gho/src/lib.rs:436-453 | the byte loop of a match equals the abstract overlapping copy, and fails exactly when the buffer is too small |
| FastLz.DecodeLiteral | crates/gho/src/lib.rs:470-483 | a literal performs the abstract step; the two run counters stay equal |
| FastLz.DecodeMatch | crates/gho/src/lib.rs:429-468 | a match performs the abstract step; the unreachable errors are unreachable |
| FastLz.Decode | crates/gho/src/lib.rs:395-492 | the batching decoder over arrays gives the result of the plain one-token decoder, errors included; short and stored blocks in terms of their bytes |
| FastLz.DecodeCompressed | crates/gho/src/lib.rs:407-491 | taking sixteen tokens or one at a time makes no difference |
| FastLz.DecodeUndoesSerialize | crates/gho/src/lib.rs:395-492 | any token list, serialised under sixteen-token control words, decodes to its meaning, or is refused exactly when that does not fit |
| FastLz.DecodedIsAMeaning | crates/gho/src/lib.rs:411-491 | whatever bytes decode, the output is the meaning of some token list |
| FastLz.TableIsHistory | crates/gho/src/lib.rs:455-482 | a table slot holds the start of the last token entered under it; at most two trailing literals are pending |
| FastLzBytes.HashOfDigits | crates/gho/src/lib.rs:494-497 | the key of three bytes in terms of their hexadecimal digits: folded with an exclusive or, times 40543, modulo 65536, without its last digit |
| FastLzBytes.MatchRepeatsTriple | crates/gho/src/lib.rs:429-483 | after any history, three literals and a match under that key repeat the three for as long as the match is |
| FastLzBytes.TripleBlock | crates/gho/src/lib.rs:395-497 | the bytes of such a block and what they decode to |
| FastLzBytes.DigitsBlock | crates/gho/src/lib.rs:406-444 | a match under a key without an entry decodes to the digits from 1 on |
| FastLzBytes.CopiedAt | crates/gho/src/lib.rs:432-446 | every byte of a copy is the one at its source by then, its own output included, or one of those digits |
| FastLzBytes.ControlBytes | crates/gho/src/lib.rs:412-417 | which bit of which control byte says that a token is a match |
| GhoContainer.FindRecord | crates/gho/src/lib.rs:364-393 | the windowed scan returns the first record a scan of every offset would, unless it gives up at a read cut below ten bytes; then it returns none |
| GhoContainer.RecordBytes | crates/gho/src/lib.rs:364-393 | exactly which ten bytes are a record header, and the kind and length they say |
| GhoContainer.ShortReadsMissARecord | crates/gho/src/lib.rs:364-393 | a file with one record and reads of five bytes, where the record is missed |
| GhoParser.WalkRecords | crates/gho/src/lib.rs:290-346 | for any reader the record loop terminates with an answer of the walk in which searches may give up; it is the exact walk when reads deliver ten bytes |
| GhoParser.Parse | crates/gho/src/lib.rs:264-362 | for any reader the parser answers as such a walk does, errors included; exactly as specified when reads are not cut below ten bytes; an accepted header and its compression in terms of its bytes |
| GhoParser.AcceptableHeader | crates/gho/src/lib.rs:264-289 | exactly which 512 bytes are an acceptable header |
| GhoParser.ContinuationStartMeans | crates/gho/src/lib.rs:324-333 | a continuation's own header is skipped exactly when all of it is there and it begins with FE EF |
| GhoParser.AnswersAreOrdered | crates/gho/src/lib.rs:264-362 | for any reader an accepted image has at least one partition, each with at least one span, in file order, disjoint and inside the file |
| GhoParser.ParsedSpansAreData | crates/gho/src/lib.rs:264-362 | and with exact searches no span contains the start of a record |
| GhoDecoder.ExpandBlock | crates/gho/src/lib.rs:240-250 | one block expands as its compression says, into the scratch buffer; stored and zlib blocks in terms of their bytes |
| GhoDecoder.DecodeSpan | crates/gho/src/lib.rs:217-260 | the block loop over one span equals its specification, with what was written before a failure |
| GhoDecoder.DecodePartition | crates/gho/src/lib.rs:201-262 | for any reader, decodes exactly what its parsing answered and reports exactly the number of bytes written; as specified when reads deliver ten bytes |
| GhoDecoder.SelectedIsInside | crates/gho/src/lib.rs:207-217 | a selected partition has spans, all inside the file |
| GhoDecoder.OutputWithinLimit | crates/gho/src/lib.rs:251-257 | whatever was parsed, no more than the limit is written, even when decoding fails |
| GhoDecoder.BlocksReadBack | crates/gho/src/lib.rs:217-260 | blocks laid out in a span decode to the concatenation of their expansions, or hit the limit exactly when it is exceeded |
| GhoLayout.LaidOutParses | crates/gho/src/lib.rs:290-346 | an image laid out as any sequence of partition, continuation and passed-over records parses to the partitions they amount to |
| GhoLayout.WalkedIsLaidOut | crates/gho/src/lib.rs:290-346 | and whatever image the walk accepts is laid out like that |
| GhoLayout.ParsesAsLaidOut | crates/gho/src/lib.rs:264-362 | with an acceptable header, a file parses to given partitions if and only if it is laid out as them |
| GhoDecoder.ImageReadsBack | crates/gho/src/lib.rs:201-262 | any image, of any compression and any number of spans: a partition whose spans hold blocks decodes to all their expansions in order, or hits the limit exactly when they exceed it |
| GhoDecoder.StoredImageReadsBack | crates/gho/src/lib.rs:201-262 | a stored image's partition decodes to the concatenation of all payloads of all its spans, or hits the limit exactly when they exceed it |
| SpanReaders.Open | crates/gho/src/lib.rs:78-127 | exactly which file lists make a stream, in terms of their headers' bytes, why the others are refused, and the stream presented |
| SpanReaders.FlatBytes | crates/gho/src/lib.rs:96-118 | the stream is all of the primary and each continuation without its first 512 bytes |
| SpanReaders.SpanReader.PartitionPoint | crates/gho/src/lib.rs:142-145 | how many spans start at or before the position, by binary search |
| SpanReaders.SpanReader.Locate | crates/gho/src/lib.rs:142-150 | the span found holds the next byte, also beside empty spans |
| SpanReaders.SpanReader.Read | crates/gho/src/lib.rs:139-163 | a read returns exactly the next slice of the flat stream, however short the inner reads are; it fails exactly when a file was cut short before a byte asked for, having put out what precedes it |
| SpanReaders.SpanReader.Seek | crates/gho/src/lib.rs:167-181 | a seek moves inside the stream or is refused and moves nothing |
| SpanReaders.HashedBytes | crates/service/src/image_library.rs:1907-1939 | the digest sees the flat stream, or fails exactly when a byte of it is lost |
| SpanReaders.FullReadsMeetAnyMinimum | crates/gho/src/lib.rs:139-163 | a span reader fills its buffer, so it delivers whatever minimum the parser's exact answers ask for |
| SpanReaders.ChainFollowsFlat | crates/service/src/control_plane.rs:650-669 | chaining headerless continuations onto a flat prefix gives the flat stream |
| SpanReaders.DownloadIsTheHashedStream | crates/service/src/control_plane.rs:650-669 | the downloaded bytes are the hashed ones |
| HiveTiling.CellsApart | crates/bcd/src/lib.rs:477-509 | distinct cells of a well-tiled hive do not overlap |
| HiveTiling.EveryByteIsCovered | crates/bcd/src/lib.rs:477-509 | every byte of a well-tiled hive behind the file header, but for fewer than 32 at the end, is part of a bin header or of a cell |
| HiveTiling.EditInsideCells | crates/bcd/src/lib.rs:449-469 | edits inside three cells that keep the cells' sizes keep the tiling and every other cell |
| HiveTiling.EditSplitsOne | crates/bcd/src/lib.rs:452-457 | splitting a cell keeps the tiling and adds exactly the second half |
| HiveTiling.FindFreeCell | crates/bcd/src/lib.rs:477-509 | on any bytes the result is a free cell that fits; on a well-tiled hive it is the first one, and none is returned exactly when none fits |
| HiveChecksum.UpdateChecksum | crates/bcd/src/lib.rs:401-415 | both sequence numbers become the old one plus one; every bit of the stored checksum is set exactly when an odd number of the first 127 words have it, but for the two remapped values; no other byte changes |
| HiveChecksum.ChecksumCountsBits | crates/bcd/src/lib.rs:405-414 | a checksum is the remapped exclusive or of the words before it exactly when its bits have the parity of theirs |
| HiveChecksum.XorWordsCounts | crates/bcd/src/lib.rs:406-408 | each bit of the exclusive or of any number of words is set exactly when an odd number of them have it |
| HiveChecksum.HeaderWordsCancel | crates/bcd/src/lib.rs:405-414 | all 128 words of a sealed header cancel unless the sum was one of the two remapped values |
| HiveEdit.InPlaceEdit | crates/bcd/src/lib.rs:448-469 | writing over a value with room is a correct edit |
| HiveEdit.RelocatingEdit | crates/bcd/src/lib.rs:451-469 | taking a free cell, freeing the old one and writing there is a correct edit |
| HiveEdit.ReplaceSetupCmdline | crates/bcd/src/lib.rs:418-475 | on a well-formed hive: success exactly when the value has room or a free cell fits, otherwise the capacity error; the result is a correct edit that reads back the agent shell; a hive that already holds it is returned unchanged |
| HiveEdit.EditedReads | crates/bcd/src/lib.rs:388-399 | after a correct edit the value is found where it was and reads as the agent shell, so a second edit changes nothing |
| HiveEdit.EditedBytes | crates/bcd/src/lib.rs:444-475 | the bytes a correct edit leaves: the size, the text in UTF-16 with nothing of the old contents behind it, and the headers of the new and the old cell |
| HiveEdit.OtherCellsInUseAreKept | crates/bcd/src/lib.rs:417-475 | every other cell in use stays in use, byte for byte, in place or relocated |
| GhostSpans.ArrangementIsUnique | crates/service/src/image_library.rs:1742-1770 | sorting finds the one arrangement numbered without gaps, whatever breaks ties |
| GhostSpans.SortedArranges | crates/service/src/image_library.rs:1742-1770 | the sorted candidates are numbered without gaps exactly when some order of them is |
| GhostSpans.CandidatesOfPermutation | crates/service/src/image_library.rs:1667-1714 | the candidates found do not depend on the order of the files |
| GhostSpans.DiscoverGhostSpans | crates/service/src/image_library.rs:1654-1781 | succeeds exactly when the candidates are of one scheme, uncontested and can be numbered 1 to n, and returns each once in that order |
| GhostSpans.RoleMeans | crates/service/src/image_library.rs:1667-1714 | exactly which files are spans, with which number and scheme, and which have an unsupported number, in terms of their names |
| GhostSpans.RejectsMeans | crates/service/src/image_library.rs:1806-1866 | exactly which other primaries contest a set, in terms of their names |
| GhostSpans.DiscoveryIgnoresOrder | crates/service/src/image_library.rs:1654-1781 | success and result are the same for every order of the file list |
| GhostSpans.ShortNumbersParse | crates/service/src/image_library.rs:1797-1808 | three or five digits always parse, so that error cannot occur |
| GhostSpans.FindRejecting | crates/service/src/image_library.rs:1810-1867 | whether another primary contests the set, by prefix or by basename |
| ByteRange.ParseIsMeaning | crates/service/src/control_plane.rs:970-1020 | an interval is returned exactly when the header spells a range that selects at least one byte, and it is exactly the selected bytes |
| ByteRange.AcceptedMeans | crates/service/src/control_plane.rs:970-1020 | every accepted range lies inside the resource with start at or before end |
| ByteRange.PrintedRangeParses | crates/service/src/control_plane.rs:970-1020 | parsing undoes printing for every interval inside a resource |
| LinuxTargets.ResolvedTargetIsFoundAgain | apps/desktop/src-tauri/src/lib.rs:635-706 | a resolved Linux target is one the installer's own selection finds again on the same disks in any order, and it is large enough |
| LinuxTargets.ResolvedMeans | apps/desktop/src-tauri/src/lib.rs:635-706 | a target is resolved, and to what, exactly when the device is fit and the disk it names is fit and has no twin |
| DeploymentMutations.NextKeepsInv | apps/desktop/src-tauri/src/lib.rs:478-633 | every step of every interleaving of mutations, imports and other repository users keeps image references valid |
| DeploymentMutations.LockIsNeverLost | apps/desktop/src-tauri/src/lib.rs:478-633 | in every reachable state the mutation lock is free, and every waiting task may take it, or its holder is still at work and lets go of it when it ends |
| DeploymentMutations.AdmittedIsSound | apps/desktop/src-tauri/src/lib.rs:514-590 | a request that passes the first checks keeps its image and operation, suits the image's format and fits its disks |
| DeploymentMutations.AdmittedMeans | apps/desktop/src-tauri/src/lib.rs:514-590 | exactly which Windows requests pass the first checks |
| DeploymentMutations.AdmittedInstallersMean | apps/desktop/src-tauri/src/lib.rs:514-590 | exactly which Linux requests do, and with which target |
| DeploymentMutations.EveryJobHasItsImage | apps/desktop/src-tauri/src/lib.rs:502-633 | in every reachable state every stored job's image is in the library and of the job's kind: an ISO for an installer, GHO or WIM/ESD for the others |
| DeploymentMutations.StoredJobsPassTheAgent | apps/desktop/src-tauri/src/lib.rs:514-627 | on every disk that matches a stored Windows job the agent refuses for want of room exactly when the disk lacks it, and then it is one MiB smaller than recorded; its other refusals are ones creation does not check |

## Left out

- HTTP routing, authentication headers, the desktop and web user interfaces, activity logs: no property of this kind.
- Generated text: the iPXE, cloud-config, DiskPart and Python scripts appear only as the decision or command list behind them, error messages only as error cases, and the message an installer sends with an event not at all.
- Files: a manifest is written as a whole or not at all, and what a failed write leaves on disk is open; read errors other than a file cut short, symbolic links and the parsing of manifests are not modelled.
- SHA-256, secret comparison, UUID generation, zlib, DISM and the ISO reader are opaque; fresh ids are ids not used before.
- The registry library's walk along keys and its text decoding are opaque. `HiveEdit.Lawful` says what is asked of them, and `HiveEdit.FixedLibraryIsLawful` that this can be met; the walk may not share cells with the value's data, and values in several segments are inside the opaque reader.
- HiveEdit.ReplaceSetupCmdline: on hives that are not well formed an index out of range is the outcome `Panic`, and the contract then says only what holds on any bytes.
- FastLz.Decode: table entries are integers instead of `i32`, which is exact for buffers up to 2 GiB; the only caller passes 33 792 bytes.
- LayoutPlanner.PrepareLayout: the physical drive number is an input, already parsed or missing.
- InstallerSafety.NextKeepsInv: the checks `discover` makes on architecture, platform and media are one input, `suitable`.
- InstallerCalls.EventsInOrderAreAccepted: an uninterrupted call authenticates and reaches the repository at one instant; the interleaved model lets time pass in between.
- RepositoryRuns.RenewalsExtend: half a duration is rounded down to whole nanoseconds.
- The checks of Linux host names, user names and keys are one flag of the options, `wellFormed`.
- DeploymentMutations.EveryJobHasItsImage: the content of an image file is fixed by its record; files changed behind the library's back are found by the source's validation, which is an input here.
- GhostSpans.DiscoverGhostSpans: upper-casing and the order that breaks ties are opaque, and all refusals are one error.
- The device registry, PXE, DHCP and TFTP, the download and verification of files on the agent, WIM and ISO inspection, and the Windows calls are not part of this model.
