/**
 * What the script of an accepted plan creates for each role, command by command, as the loop of
 * `prepare_layout` in crates/agent/src/deployment.rs writes it.
 */
module LayoutRoles {
  import opened Common
  import opened TextRules
  import opened PartitionPlans
  import opened LayoutPlanner
  import opened LayoutLimits

  /** A plan whose data partitions go behind an extended container: MBR, with two or more of them. */
  predicate NeedsContainer(plan: PartitionPlan) {
    && plan.table == Mbr
    && exists i, j :: 0 <= i < j < |plan.partitions| && plan.partitions[i].role == Data
           && plan.partitions[j].role == Data
  }

  lemma {:induction false} CountIsPositive(ps: seq<PartitionSpec>, role: PartitionRole)
    ensures CountRole(ps, role) >= 1 <==> exists i :: 0 <= i < |ps| && ps[i].role == role
  {
    if ps != [] {
      CountIsPositive(ps[1..], role);
      if i :| 0 <= i < |ps| && ps[i].role == role {
        assert i > 0 ==> ps[1..][i - 1].role == role;
      }
      if CountRole(ps[1..], role) >= 1 {
        var i :| 0 <= i < |ps| - 1 && ps[1..][i].role == role;
        assert ps[i + 1].role == role;
      }
    }
  }

  lemma {:induction false} CountIsTwo(ps: seq<PartitionSpec>, role: PartitionRole)
    ensures CountRole(ps, role) >= 2
            <==> exists i, j :: 0 <= i < j < |ps| && ps[i].role == role && ps[j].role == role
  {
    if ps != [] {
      var rest := ps[1..];
      CountIsTwo(rest, role);
      CountIsPositive(rest, role);
      assert CountRole(ps, role) == (if ps[0].role == role then 1 else 0) + CountRole(rest, role);
      hide CountRole;
      if i, j :| 0 <= i < j < |ps| && ps[i].role == role && ps[j].role == role {
        assert rest[j - 1].role == role;
        if i > 0 {
          assert rest[i - 1].role == role;
        }
      }
      if CountRole(rest, role) >= 2 {
        var i, j :| 0 <= i < j < |rest| && rest[i].role == role && rest[j].role == role;
        assert ps[i + 1].role == role && ps[j + 1].role == role;
      } else if CountRole(ps, role) >= 2 {
        var j :| 0 <= j < |rest| && rest[j].role == role;
        assert ps[0].role == role && ps[j + 1].role == role;
      }
    }
  }

  lemma ContainerIsNeeded(plan: PartitionPlan)
    ensures UsesExtended(plan) <==> NeedsContainer(plan)
  {
    CountIsTwo(plan.partitions, Data);
    hide CountRole;
  }

  /**
   * Every partition of an accepted plan is created as what its role asks for: EFI and MSR as
   * themselves, data behind an extended container as logical, everything else as primary.
   */
  lemma CreatedKinds(layout: Layout, lease: Lease, diskBytes: U64, disk: U32)
    requires IsLayoutFor(layout, lease, diskBytes, disk)
    ensures var ps, created := lease.plan.partitions, Created(layout.prepare);
            && |created| == |ps| + 1
            && forall i :: 0 <= i < |ps| ==>
                 && created[i].Create?
                 && (created[i].kind == EfiKind <==> ps[i].role == Efi)
                 && (created[i].kind == MsrKind <==> ps[i].role == Msr)
                 && (created[i].kind == Logical <==> ps[i].role == Data && NeedsContainer(lease.plan))
  {
    hide Created, AllPartitionCommands, CountRole, UsesExtended, NeedsContainer, CacheMib, RemainingMib,
         TotalCreatedMib, ExactFixedMib, Unsized;
    ContainerIsNeeded(lease.plan);
    CreatedByScript(layout, lease, diskBytes, disk);
    CreatedByPartitions(lease.plan.partitions, lease.plan.table, UsesExtended(lease.plan),
                        RemainingMib(lease, diskBytes));
  }

  // ----- the commands of one partition -----

  function SizeOf(p: PartitionSpec, remaining: U64): U64 {
    if p.sizeMib.Some? then p.sizeMib.value else remaining
  }

  /** What stands in the script for one partition, role by role. */
  lemma CommandsOfRole(p: PartitionSpec, table: PartitionTable, extended: bool, started: bool, remaining: U64)
    ensures var script := PartitionCommands(p, table, extended, started, remaining);
            var size := SizeOf(p, remaining);
            && (p.role == Efi && p.fileSystem == Some(Fat32) ==>
                  script == [Create(EfiKind, size), Format(Fat32, p.caption), Assign('S')])
            && (p.role == Msr && p.fileSystem == None ==> script == [Create(MsrKind, size)])
            && (p.role == System && p.fileSystem == Some(Ntfs) && table == Mbr ==>
                  script == [Create(Primary, size), Format(Ntfs, p.caption), Active, Assign('S')])
            && (p.role == Windows ==>
                  script == [Create(Primary, size)]
                            + (if p.fileSystem == None then [] else [Format(p.fileSystem.value, p.caption)])
                            + [Assign('W')])
            && (p.role == Data && p.fileSystem == Some(Ntfs) ==>
                  script == (if extended && !started then [CreateExtended] else [])
                            + [Create(if extended then Logical else Primary, size), Format(Ntfs, p.caption),
                               Assign(UpperAscii(if p.driveLetter == None then 'D' else p.driveLetter.value))])
  {
  }

  /** The commands that only a partition of a role contributes. */
  predicate Marks(c: Command, role: PartitionRole) {
    || (role == Efi && c.Create? && c.kind == EfiKind)
    || (role == Msr && c.Create? && c.kind == MsrKind)
    || (role == System && c == Active)
  }

  lemma OnlyItsRoleMarks(
    p: PartitionSpec, table: PartitionTable, extended: bool, started: bool, remaining: U64, role: PartitionRole)
    requires p.role != role
    ensures forall c :: c in PartitionCommands(p, table, extended, started, remaining) ==> !Marks(c, role)
  {
  }

  lemma BeginsWithCreate(p: PartitionSpec, table: PartitionTable, extended: bool, started: bool, remaining: U64)
    ensures var script := PartitionCommands(p, table, extended, started, remaining);
            script != [] && (script[0].Create? || (extended && script[0].CreateExtended?))
  {
  }

  lemma {:induction false} NoMarks(
    ps: seq<PartitionSpec>, table: PartitionTable, extended: bool, remaining: U64, role: PartitionRole)
    requires forall p :: p in ps ==> p.role != role
    ensures forall c :: c in AllPartitionCommands(ps, table, extended, remaining) ==> !Marks(c, role)
  {
    hide Marks, PartitionCommands;
    if ps != [] {
      var front, last := ps[..|ps| - 1], ps[|ps| - 1];
      assert last in ps;
      NoMarks(front, table, extended, remaining, role);
      OnlyItsRoleMarks(last, table, extended, CountRole(front, Data) > 0, remaining, role);
    }
  }

  /** The script of a plan around its partition `i`, the only one with its role. */
  lemma {:induction false} AroundPartition(
    ps: seq<PartitionSpec>, i: nat, table: PartitionTable, extended: bool, remaining: U64, role: PartitionRole)
    returns (rest: seq<Command>)
    requires i < |ps| && forall k :: 0 <= k < |ps| ==> (ps[k].role == role <==> k == i)
    ensures AllPartitionCommands(ps, table, extended, remaining)
            == AllPartitionCommands(ps[..i], table, extended, remaining)
               + PartitionCommands(ps[i], table, extended, CountRole(ps[..i], Data) > 0, remaining) + rest
    ensures forall c :: c in AllPartitionCommands(ps[..i], table, extended, remaining) + rest ==> !Marks(c, role)
    ensures rest != [] ==> rest[0].Create? || (extended && rest[0].CreateExtended?)
    decreases |ps|
  {
    hide Marks, PartitionCommands, CountRole;
    var front, last := ps[..|ps| - 1], ps[|ps| - 1];
    if i == |ps| - 1 {
      NoMarks(front, table, extended, remaining, role);
      rest := [];
    } else {
      var before := AroundPartition(front, i, table, extended, remaining, role);
      assert front[..i] == ps[..i];
      var started := CountRole(front, Data) > 0;
      OnlyItsRoleMarks(last, table, extended, started, remaining, role);
      BeginsWithCreate(last, table, extended, started, remaining);
      rest := before + PartitionCommands(last, table, extended, started, remaining);
    }
  }

  /** Exactly one partition has the role, and it has the required file system. */
  lemma RequiredIsUnique(ps: seq<PartitionSpec>, role: PartitionRole, fileSystem: Option<FileSystem>) returns (i: nat)
    requires RequirePartition(ps, role, fileSystem).None?
    ensures i < |ps| && ps[i].fileSystem == fileSystem
    ensures forall k :: 0 <= k < |ps| ==> (ps[k].role == role <==> k == i)
  {
    WithRoleCounts(ps, role);
    WithRoleGivesFirst(ps, role);
    i := FirstWithRole(ps, role);
    forall k | 0 <= k < |ps| && ps[k].role == role
      ensures k == i
    {
      CountRoleBound(ps, role, k);
    }
  }

  /** Among the commands, the one at `at` is the only one that marks the role. */
  predicate OnlyMark(script: seq<Command>, at: nat, role: PartitionRole) {
    at < |script| && forall k :: 0 <= k < |script| ==> (Marks(script[k], role) <==> k == at)
  }

  lemma MarkIsOnly(before: seq<Command>, own: seq<Command>, after: seq<Command>, at: nat, role: PartitionRole)
    requires OnlyMark(own, at, role) && forall c :: c in before + after ==> !Marks(c, role)
    ensures OnlyMark(before + own + after, |before| + at, role)
  {
    hide Marks;
    var script := before + own + after;
    forall k | 0 <= k < |script|
      ensures Marks(script[k], role) <==> k == |before| + at
    {
      if k < |before| {
        assert script[k] in before + after;
      } else if k < |before + own| {
        assert script[k] == own[k - |before|];
      } else {
        assert script[k] == after[k - |before + own|] && script[k] in before + after;
      }
    }
  }

  /** Where the script of a layout has the commands of its partition `i`, and what surrounds them. */
  lemma AroundInScript(layout: Layout, lease: Lease, diskBytes: U64, disk: U32, i: nat, role: PartitionRole)
    returns (before: seq<Command>, own: seq<Command>, after: seq<Command>, started: bool)
    requires IsLayoutFor(layout, lease, diskBytes, disk) && role in {Efi, Msr, System}
    requires i < |lease.plan.partitions|
    requires forall k :: 0 <= k < |lease.plan.partitions| ==> (lease.plan.partitions[k].role == role <==> k == i)
    ensures own == PartitionCommands(lease.plan.partitions[i], lease.plan.table, UsesExtended(lease.plan), started,
                                     RemainingMib(lease, diskBytes))
    ensures layout.prepare == before + own + after
    ensures |Created(before)| == i
    ensures forall c :: c in before + after ==> !Marks(c, role)
    ensures after != [] && (after[0].Create? || (UsesExtended(lease.plan) && after[0].CreateExtended?))
  {
    hide PartitionCommands, CountRole, AllPartitionCommands, Created, TotalCreatedMib, ExactFixedMib, RemainingMib,
         UsesExtended, CacheMib, Unsized;
    var ps, table := lease.plan.partitions, lease.plan.table;
    var extended, remaining := UsesExtended(lease.plan), RemainingMib(lease, diskBytes);
    var opening := [SelectDisk(disk), Clean, Convert(table)];
    var front := AllPartitionCommands(ps[..i], table, extended, remaining);
    var rest := AroundPartition(ps, i, table, extended, remaining, role);
    started := CountRole(ps[..i], Data) > 0;
    before := opening + front;
    own := PartitionCommands(ps[i], table, extended, started, remaining);
    after := rest + CacheCommands(extended, CacheMib(lease.imageBytes));
    NothingCreated(opening);
    CreatedOfConcat(opening, front);
    CreatedByPartitions(ps[..i], table, extended, remaining);
  }

  /** A script with `own` at `at`, and nothing else in it marks the role. */
  lemma EfiCommands(layout: Layout, lease: Lease, diskBytes: U64, disk: U32, i: nat) returns (at: nat)
    requires IsLayoutFor(layout, lease, diskBytes, disk) && i < |lease.plan.partitions|
    requires lease.plan.partitions[i].fileSystem == Some(Fat32)
    requires forall k :: 0 <= k < |lease.plan.partitions| ==> (lease.plan.partitions[k].role == Efi <==> k == i)
    ensures at + 2 < |layout.prepare| && OnlyMark(layout.prepare, at, Efi) && |Created(layout.prepare[..at])| == i
    ensures layout.prepare[at..at + 3]
            == [Create(EfiKind, SizeOf(lease.plan.partitions[i], RemainingMib(lease, diskBytes))),
                Format(Fat32, lease.plan.partitions[i].caption), Assign('S')]
  {
    hide PartitionCommands, Created, IsLayoutFor, RemainingMib, SizeOf, UsesExtended;
    assert 0 <= RemainingMib(lease, diskBytes) <= U64_MAX by { RemainingIsU64(layout, lease, diskBytes, disk); }
    var before, own, after, started := AroundInScript(layout, lease, diskBytes, disk, i, Efi);
    CommandsOfRole(lease.plan.partitions[i], lease.plan.table, UsesExtended(lease.plan), started,
                   RemainingMib(lease, diskBytes));
    at := |before|;
    MarkIsOnly(before, own, after, 0, Efi);
    assert layout.prepare[..at] == before && layout.prepare[at..at + 3] == own;
  }

  lemma RemainingIsU64(layout: Layout, lease: Lease, diskBytes: U64, disk: U32)
    requires IsLayoutFor(layout, lease, diskBytes, disk)
    ensures 0 <= RemainingMib(lease, diskBytes) <= U64_MAX
  {
  }

  lemma MsrCommands(layout: Layout, lease: Lease, diskBytes: U64, disk: U32, i: nat) returns (at: nat)
    requires IsLayoutFor(layout, lease, diskBytes, disk) && i < |lease.plan.partitions|
    requires lease.plan.table == Gpt && lease.plan.partitions[i].fileSystem == None
    requires forall k :: 0 <= k < |lease.plan.partitions| ==> (lease.plan.partitions[k].role == Msr <==> k == i)
    ensures at + 1 < |layout.prepare| && OnlyMark(layout.prepare, at, Msr) && |Created(layout.prepare[..at])| == i
    ensures layout.prepare[at] == Create(MsrKind, SizeOf(lease.plan.partitions[i], RemainingMib(lease, diskBytes)))
    ensures layout.prepare[at + 1].Create?
  {
    hide PartitionCommands, Created, IsLayoutFor, RemainingMib, SizeOf, CountRole;
    assert 0 <= RemainingMib(lease, diskBytes) <= U64_MAX by { RemainingIsU64(layout, lease, diskBytes, disk); }
    var before, own, after, started := AroundInScript(layout, lease, diskBytes, disk, i, Msr);
    CommandsOfRole(lease.plan.partitions[i], lease.plan.table, UsesExtended(lease.plan), started,
                   RemainingMib(lease, diskBytes));
    at := |before|;
    MarkIsOnly(before, own, after, 0, Msr);
    assert layout.prepare[..at] == before && layout.prepare[at] == own[0] && layout.prepare[at + 1] == after[0];
  }

  lemma NeverActive(layout: Layout, lease: Lease, diskBytes: U64, disk: U32)
    requires IsLayoutFor(layout, lease, diskBytes, disk)
    requires forall p :: p in lease.plan.partitions ==> p.role != System
    ensures Active !in layout.prepare
  {
    hide AllPartitionCommands, CountRole, CacheMib, RemainingMib, UsesExtended;
    NoMarks(lease.plan.partitions, lease.plan.table, UsesExtended(lease.plan), RemainingMib(lease, diskBytes), System);
    var body := AllPartitionCommands(lease.plan.partitions, lease.plan.table, UsesExtended(lease.plan),
                                     RemainingMib(lease, diskBytes));
    assert Active !in body by {
      assert Marks(Active, System);
    }
  }

  /**
   * The script of an accepted GPT plan has exactly one EFI partition, created in its place in the plan
   * and at once formatted FAT32 and given the letter S, exactly one MSR partition, which gets neither
   * format nor letter, and no active partition.
   */
  lemma GptBootPartitions(layout: Layout, lease: Lease, diskBytes: U64, disk: U32)
    returns (e: nat, efi: nat, m: nat, msr: nat)
    requires Precheck(lease, diskBytes, Some(disk)).None?
    requires IsLayoutFor(layout, lease, diskBytes, disk) && lease.plan.table == Gpt
    ensures var ps, script := lease.plan.partitions, layout.prepare;
            && efi < |ps| && ps[efi].role == Efi && msr < |ps| && ps[msr].role == Msr
            && 0 <= RemainingMib(lease, diskBytes) <= U64_MAX
            && e + 2 < |script| && |Created(script[..e])| == efi
            && script[e..e + 3] == [Create(EfiKind, SizeOf(ps[efi], RemainingMib(lease, diskBytes))),
                                    Format(Fat32, ps[efi].caption), Assign('S')]
            && m + 1 < |script| && |Created(script[..m])| == msr
            && script[m] == Create(MsrKind, SizeOf(ps[msr], RemainingMib(lease, diskBytes)))
            && script[m + 1].Create?
            && (forall k :: 0 <= k < |script| ==> (script[k].Create? && script[k].kind == EfiKind <==> k == e))
            && (forall k :: 0 <= k < |script| ==> (script[k].Create? && script[k].kind == MsrKind <==> k == m))
            && Active !in script
  {
    hide PartitionCommands, CountRole, AllPartitionCommands, Created, IsLayoutFor, RemainingMib, SizeOf, Precheck,
         RequirePartition, Validate;
    PrecheckedIsValid(lease, diskBytes, disk);
    TableIsChecked(lease.plan);
    RemainingIsU64(layout, lease, diskBytes, disk);
    efi := RequiredIsUnique(lease.plan.partitions, Efi, Some(Fat32));
    msr := RequiredIsUnique(lease.plan.partitions, Msr, None);
    e := EfiCommands(layout, lease, diskBytes, disk, efi);
    m := MsrCommands(layout, lease, diskBytes, disk, msr);
    NeverActive(layout, lease, diskBytes, disk);
    assert forall k :: 0 <= k < |layout.prepare| ==> (Marks(layout.prepare[k], Efi) <==> k == e);
    assert forall k :: 0 <= k < |layout.prepare| ==> (Marks(layout.prepare[k], Msr) <==> k == m);
  }

  /**
   * The script of an accepted MBR plan makes exactly one partition active, the plan's System partition:
   * a primary one, formatted NTFS right before and given the letter S right after.
   */
  lemma MbrBootPartition(layout: Layout, lease: Lease, diskBytes: U64, disk: U32) returns (a: nat, system: nat)
    requires Precheck(lease, diskBytes, Some(disk)).None?
    requires IsLayoutFor(layout, lease, diskBytes, disk) && lease.plan.table == Mbr
    ensures var ps, script := lease.plan.partitions, layout.prepare;
            && system < |ps| && ps[system].role == System && 0 <= RemainingMib(lease, diskBytes) <= U64_MAX
            && 2 <= a && a + 1 < |script| && |Created(script[..a - 2])| == system
            && script[a - 2..a + 2] == [Create(Primary, SizeOf(ps[system], RemainingMib(lease, diskBytes))),
                                        Format(Ntfs, ps[system].caption), Active, Assign('S')]
            && (forall k :: 0 <= k < |script| ==> (script[k] == Active <==> k == a))
  {
    hide PartitionCommands, CountRole, AllPartitionCommands, Created, IsLayoutFor, RemainingMib, SizeOf, Precheck,
         RequirePartition, Validate, UsesExtended;
    PrecheckedIsValid(lease, diskBytes, disk);
    TableIsChecked(lease.plan);
    RemainingIsU64(layout, lease, diskBytes, disk);
    system := RequiredIsUnique(lease.plan.partitions, System, Some(Ntfs));
    var before, own, after, started := AroundInScript(layout, lease, diskBytes, disk, system, System);
    CommandsOfRole(lease.plan.partitions[system], Mbr, UsesExtended(lease.plan), started,
                   RemainingMib(lease, diskBytes));
    a := |before| + 2;
    MarkIsOnly(before, own, after, 2, System);
    assert layout.prepare[..a - 2] == before && layout.prepare[a - 2..a + 2] == own;
    assert forall k :: 0 <= k < |layout.prepare| ==> (Marks(layout.prepare[k], System) <==> k == a);
  }

  lemma TableIsChecked(plan: PartitionPlan)
    requires Validate(plan).None?
    ensures plan.table == Gpt ==>
              && RequirePartition(plan.partitions, Efi, Some(Fat32)).None?
              && RequirePartition(plan.partitions, Msr, None).None?
    ensures plan.table == Mbr ==> RequirePartition(plan.partitions, System, Some(Ntfs)).None?
    ensures plan.table == Gpt ==> forall p :: p in plan.partitions ==> p.role != System
  {
    hide CheckPartitions, NeighboursEqual, SortLetters, DriveLetters, Unsized, RequirePartition;
    if plan.table == Gpt {
      CountIsPositive(plan.partitions, System);
    }
  }

  // ----- around the partitions -----

  /** Whole MiB for an image, rounded up, and 512 more. */
  predicate CacheSize(mib: nat, imageBytes: nat) {
    mib >= 512 && imageBytes <= (mib - 512) * 0x10_0000 < imageBytes + 0x10_0000
  }

  lemma CacheIsRoundedUp(imageBytes: U64)
    ensures CacheSize(CacheMib(imageBytes), imageBytes)
  {
    var q, r := imageBytes / MIB_BYTES, imageBytes % MIB_BYTES;
    assert imageBytes == q * 0x10_0000 + r;
  }

  /**
   * Around its partitions, a script selects and clears the disk and chooses the partition table, and
   * at the end creates the cache, formats it and gives it the letter R. Cleanup deletes the cache and
   * grows the partition that was given no size: the Windows one, or the data one by its letter.
   */
  lemma ScriptFrame(layout: Layout, lease: Lease, diskBytes: U64, disk: U32) returns (u: nat)
    requires Precheck(lease, diskBytes, Some(disk)).None?
    requires IsLayoutFor(layout, lease, diskBytes, disk)
    ensures var script, n := layout.prepare, |layout.prepare|;
            && n >= 7 && script[..3] == [SelectDisk(disk), Clean, Convert(lease.plan.table)]
            && script[n - 4].Create? && CacheSize(script[n - 4].sizeMib, lease.imageBytes)
            && script[n - 4].kind == (if NeedsContainer(lease.plan) then Logical else Primary)
            && script[n - 3..] == [Format(Ntfs, "EasyDeployMesh Cache"), Assign('R'), Exit]
    ensures var ps := lease.plan.partitions;
            && u < |ps| && ps[u].sizeMib == None && (forall k :: 0 <= k < |ps| && ps[k].sizeMib == None ==> k == u)
            && (ps[u].role == Windows || ps[u].role == Data)
            && layout.cleanup == [SelectDisk(disk), SelectVolume('R'), DeleteVolume,
                                  SelectVolume(if ps[u].role == Windows then 'W'
                                               else if ps[u].driveLetter == None then 'D'
                                               else ps[u].driveLetter.value),
                                  Extend, Exit]
  {
    hide AllPartitionCommands, RemainingMib, UsesExtended, CountRole, Validate, ValidateCapacity, PayloadFits, CacheMib,
         NeedsContainer, CacheSize;
    ContainerIsNeeded(lease.plan);
    CacheIsRoundedUp(lease.imageBytes);
    u := UnsizedOfAccepted(lease.plan);
  }

  lemma UnsizedOfAccepted(plan: PartitionPlan) returns (u: nat)
    requires Validate(plan).None?
    ensures var ps := plan.partitions;
            && u < |ps| && ps[u].sizeMib == None && (forall k :: 0 <= k < |ps| && ps[k].sizeMib == None ==> k == u)
            && Unsized(ps) == [ps[u]] && (ps[u].role == Windows || ps[u].role == Data)
  {
    hide CheckPartitions, NeighboursEqual, SortLetters, DriveLetters, CheckTable, CountRole, Unsized;
    u := TheUnsized(plan.partitions);
  }

  lemma NothingUnsized(ps: seq<PartitionSpec>)
    requires Unsized(ps) == []
    ensures forall k :: 0 <= k < |ps| ==> ps[k].sizeMib != None
  {
    if ps != [] {
      NothingUnsized(ps[1..]);
      assert forall k :: 0 < k < |ps| ==> ps[k] == ps[1..][k - 1];
    }
  }

  lemma {:induction false} TheUnsized(ps: seq<PartitionSpec>) returns (u: nat)
    requires |Unsized(ps)| == 1
    ensures u < |ps| && ps[u].sizeMib == None && Unsized(ps) == [ps[u]]
    ensures forall k :: 0 <= k < |ps| && ps[k].sizeMib == None ==> k == u
  {
    assert forall k :: 0 < k < |ps| ==> ps[k] == ps[1..][k - 1];
    if ps[0].sizeMib.None? {
      NothingUnsized(ps[1..]);
      u := 0;
    } else {
      var v := TheUnsized(ps[1..]);
      u := v + 1;
    }
  }

  /** Which leases get a layout, apart from the plan's own rules and the room for the payload. */
  lemma AcceptedLeases(lease: Lease, diskBytes: U64, disk: Option<U32>)
    ensures Precheck(lease, diskBytes, disk).None?
            <==> && Validate(lease.plan).None? && lease.imageIndex > 0
                 && (forall p :: p in lease.plan.partitions ==> p.role != Recovery)
                 && NeededMib(lease.plan, lease.imageBytes) <= diskBytes / 0x10_0000
                 && (lease.payloadBytes != None ==>
                       PayloadFits(lease.plan, diskBytes, lease.imageBytes, lease.payloadBytes.value))
                 && disk != None
                 && (NeedsContainer(lease.plan) ==> DataPartitionsLast(lease.plan.partitions))
                 && (forall i :: 0 <= i < |lease.plan.partitions| && lease.plan.partitions[i].role == Windows ==>
                       i < U32_MAX)
                 && (lease.format == Wim || lease.format == Esd || lease.format == Gho)
  {
    hide Validate, ValidateCapacity, PayloadFits, CountRole, NeedsContainer, DataPartitionsLast, NeededMib,
         UsesExtended;
    ContainerIsNeeded(lease.plan);
    NoRecovery(lease.plan.partitions);
    CapacityIsExact(lease.plan, diskBytes, lease.imageBytes);
    NeededIs(lease.plan, lease.imageBytes);
    if Validate(lease.plan).None? {
      OneWindows(lease.plan);
      var ps := lease.plan.partitions;
      forall i | 0 <= i < |ps| && ps[i].role == Windows
        ensures i == FirstWithRole(ps, Windows)
      {
        CountRoleBound(ps, Windows, i);
      }
    }
  }

  lemma NoRecovery(ps: seq<PartitionSpec>)
    ensures CountRole(ps, Recovery) == 0 <==> forall p :: p in ps ==> p.role != Recovery
  {
    CountIsPositive(ps, Recovery);
    hide CountRole;
    if i :| 0 <= i < |ps| && ps[i].role == Recovery {
      assert ps[i] in ps;
    }
  }

  lemma NeededIs(plan: PartitionPlan, imageBytes: U64)
    ensures NeededMib(plan, imageBytes)
            == ExactFixedMib(plan.partitions) + DivCeil(imageBytes, MIB_BYTES) + IMAGE_CACHE_HEADROOM_MIB
               + RemainingMinimumMib(plan.partitions) + PARTITION_ALIGNMENT_HEADROOM_MIB
  {
  }

  lemma OneWindows(plan: PartitionPlan)
    requires Validate(plan).None?
    ensures CountRole(plan.partitions, Windows) == 1
    ensures FirstWithRole(plan.partitions, Windows) < |plan.partitions|
  {
    hide CheckPartitions, NeighboursEqual, SortLetters, DriveLetters, CheckTable, Unsized;
  }

  /** The room a valid plan needs: its sizes, the cache, the remaining partition's minimum and 32 MiB. */
  lemma NeededRoom(plan: PartitionPlan, imageBytes: U64) returns (u: nat, cache: nat)
    requires Validate(plan).None?
    ensures u < |plan.partitions| && plan.partitions[u].sizeMib == None && CacheSize(cache, imageBytes)
    ensures NeededMib(plan, imageBytes)
            == ExactFixedMib(plan.partitions) + cache + (if plan.partitions[u].role == Data then 1024 else 20480) + 32
  {
    hide Validate, ExactFixedMib, CacheSize, Unsized;
    u := UnsizedOfAccepted(plan);
    cache := DivCeil(imageBytes, MIB_BYTES) + 512;
    CeilingIsRoundedUp(imageBytes);
  }

  lemma CeilingIsRoundedUp(imageBytes: nat)
    ensures CacheSize(DivCeil(imageBytes, MIB_BYTES) + 512, imageBytes)
  {
    var q, r := imageBytes / MIB_BYTES, imageBytes % MIB_BYTES;
    assert imageBytes == q * 0x10_0000 + r;
  }
}
