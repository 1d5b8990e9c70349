/** Turning an accepted plan into DiskPart commands, from crates/agent/src/deployment.rs. */
module LayoutPlanner {
  import opened Common
  import opened TextRules
  import opened PartitionPlans

  datatype Kind = EfiKind | MsrKind | Primary | Logical

  datatype Command =
    | SelectDisk(number: U32)
    | Clean
    | Convert(table: PartitionTable)
    | CreateExtended
    | Create(kind: Kind, sizeMib: U64)
    | Format(fileSystem: FileSystem, caption: string)
    | Active
    | Assign(letter: char)
    | SelectVolume(letter: char)
    | DeleteVolume
    | Extend
    | Exit

  datatype ImageFormat = Gho | Wim | Esd | Swm | Iso

  /** The part of an agent lease that shapes the disk layout. */
  datatype Lease = Lease(
    plan: PartitionPlan,
    imageIndex: U32,
    imageBytes: U64,
    format: ImageFormat,
    payloadBytes: Option<U64>)

  datatype LayoutError =
    | InvalidPlan(planError: PlanError)
    | ZeroImageIndex
    | RecoveryUnsupported
    | InsufficientCapacity(capacityError: CapacityError)
    | PayloadTooLarge
    | NotAPhysicalDrive
    | DataNotLast
    | TooManyPartitions
    | UnsupportedFormat

  datatype Layout = Layout(prepare: seq<Command>, cleanup: seq<Command>, windowsPartition: U32)

  predicate UsesExtended(plan: PartitionPlan) {
    plan.table == Mbr && CountRole(plan.partitions, Data) + 3 > 4
  }

  function FirstWithRole(ps: seq<PartitionSpec>, role: PartitionRole): (i: nat)
    ensures i <= |ps|
    ensures i < |ps| ==> ps[i].role == role
    ensures forall k :: 0 <= k < i ==> ps[k].role != role
    ensures i < |ps| <==> CountRole(ps, role) > 0
  {
    if ps == [] then 0 else if ps[0].role == role then 0 else 1 + FirstWithRole(ps[1..], role)
  }

  predicate DataPartitionsLast(ps: seq<PartitionSpec>) {
    forall i, j :: 0 <= i < j < |ps| && ps[i].role == Data ==> ps[j].role == Data
  }

  /** What remains on the disk, in unbounded arithmetic. */
  function RemainingMib(lease: Lease, diskBytes: U64): int {
    diskBytes / MIB_BYTES - ExactFixedMib(lease.plan.partitions) - CacheMib(lease.imageBytes)
    - PARTITION_ALIGNMENT_HEADROOM_MIB
  }

  function KindOf(role: PartitionRole, extended: bool): Kind {
    if extended && role == Data then Logical
    else match role
      case Efi => EfiKind
      case Msr => MsrKind
      case _ => Primary
  }

  function LetterCommands(p: PartitionSpec, table: PartitionTable): seq<Command> {
    match p.role
    case Efi => [Assign('S')]
    case System => (if table == Mbr then [Active] else []) + [Assign('S')]
    case Windows => [Assign('W')]
    case Data => [Assign(UpperAscii(if p.driveLetter.Some? then p.driveLetter.value else 'D'))]
    case Msr => []
    case Recovery => []
  }

  /** The commands one partition contributes; `started` tells whether the extended entry exists already. */
  function PartitionCommands(
    p: PartitionSpec, table: PartitionTable, extended: bool, started: bool, remaining: U64): seq<Command>
  {
    (if extended && p.role == Data && !started then [CreateExtended] else [])
    + [Create(KindOf(p.role, extended), if p.sizeMib.Some? then p.sizeMib.value else remaining)]
    + (if p.fileSystem.Some? then [Format(p.fileSystem.value, p.caption)] else [])
    + LetterCommands(p, table)
  }

  /** The commands of all partitions, in plan order. */
  function AllPartitionCommands(
    ps: seq<PartitionSpec>, table: PartitionTable, extended: bool, remaining: U64): seq<Command>
  {
    if ps == [] then []
    else
      var front := ps[..|ps| - 1];
      AllPartitionCommands(front, table, extended, remaining)
      + PartitionCommands(ps[|ps| - 1], table, extended, CountRole(front, Data) > 0, remaining)
  }

  function CacheCommands(extended: bool, cache: U64): seq<Command> {
    [Create(if extended then Logical else Primary, cache), Format(Ntfs, "EasyDeployMesh Cache"), Assign('R'), Exit]
  }

  /** The letter of the volume that cleanup grows back over the cache. */
  function ExtendLetter(ps: seq<PartitionSpec>): char {
    var u := Unsized(ps);
    if u != [] && u[0].role == Data then
      if u[0].driveLetter.Some? then u[0].driveLetter.value else 'D'
    else 'W'
  }

  function CleanupCommands(disk: U32, letter: char): seq<Command> {
    [SelectDisk(disk), SelectVolume('R'), DeleteVolume, SelectVolume(letter), Extend, Exit]
  }

  /** The first check of `prepare_layout` that fails, before any command is built. */
  function Precheck(lease: Lease, diskBytes: U64, disk: Option<U32>): Option<LayoutError> {
    var plan := lease.plan;
    if Validate(plan).Some? then Some(InvalidPlan(Validate(plan).value))
    else if lease.imageIndex == 0 then Some(ZeroImageIndex)
    else if CountRole(plan.partitions, Recovery) > 0 then Some(RecoveryUnsupported)
    else if ValidateCapacity(plan, diskBytes, lease.imageBytes).Some?
    then Some(InsufficientCapacity(ValidateCapacity(plan, diskBytes, lease.imageBytes).value))
    else if lease.payloadBytes.Some? && !PayloadFits(plan, diskBytes, lease.imageBytes, lease.payloadBytes.value)
    then Some(PayloadTooLarge)
    else if disk.None? then Some(NotAPhysicalDrive)
    else if UsesExtended(plan) && !DataPartitionsLast(plan.partitions) then Some(DataNotLast)
    else if FirstWithRole(plan.partitions, Windows) + 1 > U32_MAX then Some(TooManyPartitions)
    else if lease.format !in {Wim, Esd, Gho} then Some(UnsupportedFormat)
    else None
  }

  /** The layout `prepare_layout` promises for a lease that passes every check. */
  ghost predicate IsLayoutFor(layout: Layout, lease: Lease, diskBytes: U64, disk: U32) {
    var ps := lease.plan.partitions;
    var extended := UsesExtended(lease.plan);
    && 0 <= RemainingMib(lease, diskBytes) <= U64_MAX
    && layout.prepare ==
       [SelectDisk(disk), Clean, Convert(lease.plan.table)]
       + AllPartitionCommands(ps, lease.plan.table, extended, RemainingMib(lease, diskBytes))
       + CacheCommands(extended, CacheMib(lease.imageBytes))
    && layout.cleanup == CleanupCommands(disk, ExtendLetter(ps))
    && layout.windowsPartition == FirstWithRole(ps, Windows) + 1
  }

  lemma RolesOfNone(role: PartitionRole)
    ensures CountRole([], role) == 0
  {
  }

  lemma CountRoleOfConcat(a: seq<PartitionSpec>, b: seq<PartitionSpec>, role: PartitionRole)
    ensures CountRole(a + b, role) == CountRole(a, role) + CountRole(b, role)
  {
    if a == [] {
      assert a + b == b;
    } else {
      assert (a + b)[1..] == a[1..] + b;
      CountRoleOfConcat(a[1..], b, role);
    }
  }

  lemma CountRoleOfLast(ps: seq<PartitionSpec>, role: PartitionRole)
    requires ps != []
    ensures CountRole(ps, role)
            == CountRole(ps[..|ps| - 1], role) + if ps[|ps| - 1].role == role then 1 else 0
  {
    var front, last := ps[..|ps| - 1], [ps[|ps| - 1]];
    assert ps == front + last;
    CountRoleOfConcat(front, last, role);
    assert last[1..] == [];
  }

  lemma CountRoleBound(ps: seq<PartitionSpec>, role: PartitionRole, i: nat)
    requires i < |ps| && ps[i].role == role
    ensures CountRole(ps, role) >= 1
    ensures CountRole(ps, role) == 1 ==> i == FirstWithRole(ps, role)
  {
    if i > 0 {
      CountRoleBound(ps[1..], role, i - 1);
    }
  }

  lemma ExactFixedOfPrefix(ps: seq<PartitionSpec>, k: nat)
    requires k < |ps|
    ensures ps[..k + 1][..k] == ps[..k]
    ensures ExactFixedMib(ps[..k + 1])
            == ExactFixedMib(ps[..k]) + if ps[k].sizeMib.Some? then ps[k].sizeMib.value else 0
  {
    assert ps[..k + 1][..k] == ps[..k];
  }

  lemma ExactFixedMonotone(ps: seq<PartitionSpec>, k: nat)
    requires k <= |ps|
    ensures ExactFixedMib(ps[..k]) <= ExactFixedMib(ps)
  {
    if k == |ps| {
      assert ps[..k] == ps;
    } else {
      var front := ps[..|ps| - 1];
      assert front[..k] == ps[..k];
      ExactFixedMonotone(front, k);
    }
  }

  lemma UnsizedGivesFirst(ps: seq<PartitionSpec>, i: nat)
    requires i < |ps| && ps[i].sizeMib.None?
    requires forall k :: 0 <= k < i ==> ps[k].sizeMib.Some?
    ensures Unsized(ps) != [] && Unsized(ps)[0] == ps[i]
  {
    if i > 0 {
      UnsizedGivesFirst(ps[1..], i - 1);
    }
  }

  /** The plain sum of the given sizes, as `prepare_layout` adds them; u64 addition cannot overflow here. */
  method SumSizes(ps: seq<PartitionSpec>) returns (total: U64)
    requires ExactFixedMib(ps) <= U64_MAX
    ensures total == ExactFixedMib(ps)
  {
    total := 0;
    for i := 0 to |ps|
      invariant total == ExactFixedMib(ps[..i])
    {
      ExactFixedOfPrefix(ps, i);
      ExactFixedMonotone(ps, i + 1);
      if ps[i].sizeMib.Some? {
        total := total + ps[i].sizeMib.value;
      }
    }
    assert ps[..|ps|] == ps;
  }

  lemma NoCommands(table: PartitionTable, extended: bool, remaining: U64)
    ensures AllPartitionCommands([], table, extended, remaining) == []
  {
  }

  lemma CommandsOfOneMore(ps: seq<PartitionSpec>, i: nat, table: PartitionTable, extended: bool, remaining: U64)
    requires i < |ps|
    ensures AllPartitionCommands(ps[..i + 1], table, extended, remaining)
            == AllPartitionCommands(ps[..i], table, extended, remaining)
               + PartitionCommands(ps[i], table, extended, CountRole(ps[..i], Data) > 0, remaining)
  {
    hide CountRole, PartitionCommands;
    assert ps[..i + 1][..i] == ps[..i];
  }

  /** The loop over the partitions: appends each one's commands and notes the Windows partition's number. */
  method BuildPartitions(plan: PartitionPlan, extended: bool, remainingMib: U64)
    returns (built: bool, script: seq<Command>, windowsPartition: U32)
    requires CountRole(plan.partitions, Windows) == 1
    ensures built <==> FirstWithRole(plan.partitions, Windows) + 1 <= U32_MAX
    ensures built ==> script == AllPartitionCommands(plan.partitions, plan.table, extended, remainingMib)
    ensures built ==> windowsPartition == FirstWithRole(plan.partitions, Windows) + 1
  {
    hide CountRole, LetterCommands, KindOf, AllPartitionCommands, FirstWithRole;
    var ps := plan.partitions;
    script, windowsPartition := [], 0;
    var openedExtended := false;
    assert ps[..0] == [];
    NoCommands(plan.table, extended, remainingMib);
    RolesOfNone(Data);
    for i := 0 to |ps|
      invariant script == AllPartitionCommands(ps[..i], plan.table, extended, remainingMib)
      invariant openedExtended <==> extended && CountRole(ps[..i], Data) > 0
      invariant FirstWithRole(ps, Windows) < i ==> windowsPartition == FirstWithRole(ps, Windows) + 1
    {
      var p := ps[i];
      CommandsOfOneMore(ps, i, plan.table, extended, remainingMib);
      CountRoleOfLast(ps[..i + 1], Data);
      assert ps[..i + 1][..i] == ps[..i];
      if p.role == Windows {
        CountRoleBound(ps, Windows, i);
        if i + 1 > U32_MAX {
          return false, script, windowsPartition;
        }
        windowsPartition := i + 1;
      }
      var opening := if extended && p.role == Data && !openedExtended then [CreateExtended] else [];
      openedExtended := openedExtended || opening != [];
      var create := [Create(KindOf(p.role, extended), if p.sizeMib.Some? then p.sizeMib.value else remainingMib)];
      var format := if p.fileSystem.Some? then [Format(p.fileSystem.value, p.caption)] else [];
      script := script + (opening + create + format + LetterCommands(p, plan.table));
    }
    assert ps[..|ps|] == ps;
    built := true;
  }

  /**
   * `prepare_layout`. The sums and subtractions are on u64, unguarded, as in the source;
   * the capacity check is what keeps them in range.
   */
  method PrepareLayout(lease: Lease, diskBytes: U64, disk: Option<U32>) returns (r: Result<Layout, LayoutError>)
    ensures r.Err? <==> Precheck(lease, diskBytes, disk).Some?
    ensures r.Err? ==> Some(r.error) == Precheck(lease, diskBytes, disk)
    ensures r.Ok? ==> disk.Some? && IsLayoutFor(r.value, lease, diskBytes, disk.value)
    ensures r.Ok? ==>
              var ps, created := lease.plan.partitions, Created(r.value.prepare);
              |created| == |ps| + 1 && forall i :: 0 <= i < |ps| ==> CreatedAs(created[i], ps[i].role, lease.plan)
  {
    hide CountRole, CacheMib, ValidateCapacity, PayloadFits, ExactFixedMib, AllPartitionCommands, CheckPartitions,
         CheckTable, Created, CreatedAs;
    var plan := lease.plan;
    var ps := plan.partitions;
    if Validate(plan).Some? {
      return Err(InvalidPlan(Validate(plan).value));
    }
    if lease.imageIndex == 0 {
      return Err(ZeroImageIndex);
    }
    if CountRole(ps, Recovery) > 0 {
      return Err(RecoveryUnsupported);
    }
    var capacity := ValidateCapacity(plan, diskBytes, lease.imageBytes);
    if capacity.Some? {
      return Err(InsufficientCapacity(capacity.value));
    }
    if lease.payloadBytes.Some? && !PayloadFits(plan, diskBytes, lease.imageBytes, lease.payloadBytes.value) {
      return Err(PayloadTooLarge);
    }
    if disk.None? {
      return Err(NotAPhysicalDrive);
    }
    CapacityIsExact(plan, diskBytes, lease.imageBytes);
    var fixedMib: U64 := SumSizes(ps);
    var cacheMib: U64 := CacheMib(lease.imageBytes);
    var diskMib: U64 := diskBytes / MIB_BYTES;
    var afterFixed: U64 := diskMib - fixedMib;
    var afterCache: U64 := afterFixed - cacheMib;
    var remainingMib: U64 := afterCache - PARTITION_ALIGNMENT_HEADROOM_MIB;
    var extended := UsesExtended(plan);
    if extended && !DataPartitionsLast(ps) {
      return Err(DataNotLast);
    }
    var script := [SelectDisk(disk.value), Clean, Convert(plan.table)];
    var built, body, windowsPartition := BuildPartitions(plan, extended, remainingMib);
    if !built {
      return Err(TooManyPartitions);
    }
    script := script + body + CacheCommands(extended, cacheMib);
    var cleanup := CleanupCommands(disk.value, ExtendLetter(ps));
    if lease.format !in {Wim, Esd, Gho} {
      return Err(UnsupportedFormat);
    }
    var layout := Layout(script, cleanup, windowsPartition);
    CreatedByRoles(layout, lease, diskBytes, disk.value);
    return Ok(layout);
  }

  // ----- conservation of space -----

  /** The partitions a script creates, in order, leaving out the extended container. */
  function Created(script: seq<Command>): seq<Command> {
    if script == [] then []
    else Created(script[..|script| - 1]) + if script[|script| - 1].Create? then [script[|script| - 1]] else []
  }

  function TotalCreatedMib(script: seq<Command>): nat {
    if script == [] then 0
    else TotalCreatedMib(script[..|script| - 1])
         + if script[|script| - 1].Create? then script[|script| - 1].sizeMib else 0
  }

  lemma CreatedOfConcat(a: seq<Command>, b: seq<Command>)
    ensures Created(a + b) == Created(a) + Created(b)
    ensures TotalCreatedMib(a + b) == TotalCreatedMib(a) + TotalCreatedMib(b)
  {
    if b == [] {
      assert a + b == a;
    } else {
      assert (a + b)[..|a + b| - 1] == a + b[..|b| - 1];
      CreatedOfConcat(a, b[..|b| - 1]);
    }
  }

  lemma CreatedByOne(c: Command)
    requires c.Create?
    ensures Created([c]) == [c] && TotalCreatedMib([c]) == c.sizeMib
  {
    assert [c][..0] == [];
  }

  lemma CreatedByOnePartition(
    p: PartitionSpec, table: PartitionTable, extended: bool, started: bool, remaining: U64)
    ensures var size := if p.sizeMib.Some? then p.sizeMib.value else remaining;
            var script := PartitionCommands(p, table, extended, started, remaining);
            && Created(script) == [Create(KindOf(p.role, extended), size)]
            && TotalCreatedMib(script) == size
  {
    hide Created, TotalCreatedMib;
    var size := if p.sizeMib.Some? then p.sizeMib.value else remaining;
    var pre := if extended && p.role == Data && !started then [CreateExtended] else [];
    var create := [Create(KindOf(p.role, extended), size)];
    var format := if p.fileSystem.Some? then [Format(p.fileSystem.value, p.caption)] else [];
    var letters := LetterCommands(p, table);
    CreatedByOne(create[0]);
    NothingCreated(pre);
    NothingCreated(format);
    NothingCreated(letters);
    CreatedOfConcat(pre, create);
    CreatedOfConcat(pre + create, format);
    CreatedOfConcat(pre + create + format, letters);
  }

  lemma {:induction false} NothingCreated(script: seq<Command>)
    requires forall c :: c in script ==> !c.Create?
    ensures Created(script) == [] && TotalCreatedMib(script) == 0
  {
    if script != [] {
      NothingCreated(script[..|script| - 1]);
    }
  }

  lemma {:induction false} CreatedByPartitions(
    ps: seq<PartitionSpec>, table: PartitionTable, extended: bool, remaining: U64)
    ensures var created := Created(AllPartitionCommands(ps, table, extended, remaining));
            && |created| == |ps|
            && forall i :: 0 <= i < |ps| ==>
                 created[i] == Create(KindOf(ps[i].role, extended),
                                      if ps[i].sizeMib.Some? then ps[i].sizeMib.value else remaining)
    ensures TotalCreatedMib(AllPartitionCommands(ps, table, extended, remaining))
            == ExactFixedMib(ps) + |Unsized(ps)| * remaining
  {
    hide Created, TotalCreatedMib, PartitionCommands, CountRole, Unsized;
    if ps == [] {
      NothingCreated([]);
      UnsizedOfNone();
    } else {
      var front, last := ps[..|ps| - 1], ps[|ps| - 1];
      var started := CountRole(front, Data) > 0;
      CreatedByPartitions(front, table, extended, remaining);
      CreatedByOnePartition(last, table, extended, started, remaining);
      CreatedOfConcat(AllPartitionCommands(front, table, extended, remaining),
                      PartitionCommands(last, table, extended, started, remaining));
      UnsizedOfLast(ps);
      assert (|Unsized(front)| + 1) * remaining == |Unsized(front)| * remaining + remaining;
    }
  }

  lemma UnsizedOfNone()
    ensures Unsized([]) == []
  {
  }

  lemma UnsizedOfLast(ps: seq<PartitionSpec>)
    requires ps != []
    ensures |Unsized(ps)| == |Unsized(ps[..|ps| - 1])| + if ps[|ps| - 1].sizeMib.None? then 1 else 0
  {
    if |ps| > 1 {
      assert ps[1..][..|ps| - 2] == ps[..|ps| - 1][1..];
      UnsizedOfLast(ps[1..]);
    }
  }

  lemma CreatedByScript(layout: Layout, lease: Lease, diskBytes: U64, disk: U32)
    requires IsLayoutFor(layout, lease, diskBytes, disk)
    ensures var ps := lease.plan.partitions;
            var extended := UsesExtended(lease.plan);
            var remaining := RemainingMib(lease, diskBytes);
            var cache := CacheMib(lease.imageBytes);
            && Created(layout.prepare)
               == Created(AllPartitionCommands(ps, lease.plan.table, extended, remaining))
                  + [Create(if extended then Logical else Primary, cache)]
            && TotalCreatedMib(layout.prepare)
               == ExactFixedMib(ps) + |Unsized(ps)| * remaining + cache
  {
    hide Created, TotalCreatedMib, AllPartitionCommands, CountRole, Unsized, ExactFixedMib, CacheMib;
    var ps := lease.plan.partitions;
    var extended := UsesExtended(lease.plan);
    var opening := [SelectDisk(disk), Clean, Convert(lease.plan.table)];
    var body := AllPartitionCommands(ps, lease.plan.table, extended, RemainingMib(lease, diskBytes));
    var cache := CacheCommands(extended, CacheMib(lease.imageBytes));
    NothingCreated(opening);
    CreatedOfConcat(opening, body);
    CreatedOfConcat(opening + body, cache);
    CreatedByPartitions(ps, lease.plan.table, extended, RemainingMib(lease, diskBytes));
    assert cache == cache[..1] + cache[1..];
    NothingCreated(cache[1..]);
    CreatedOfConcat(cache[..1], cache[1..]);
    CreatedByOne(cache[0]);
    assert cache[..1] == [cache[0]];
  }

  /** EFI and MSR partitions, and only they, are created as such; data as logical when an MBR plan has two of them. */
  predicate CreatedAs(c: Command, role: PartitionRole, plan: PartitionPlan) {
    && c.Create?
    && (c.kind == EfiKind <==> role == Efi) && (c.kind == MsrKind <==> role == Msr)
    && (c.kind == Logical <==> role == Data && plan.table == Mbr && CountRole(plan.partitions, Data) >= 2)
  }

  lemma CreatedByRoles(layout: Layout, lease: Lease, diskBytes: U64, disk: U32)
    requires IsLayoutFor(layout, lease, diskBytes, disk)
    ensures var ps, created := lease.plan.partitions, Created(layout.prepare);
            |created| == |ps| + 1 && forall i :: 0 <= i < |ps| ==> CreatedAs(created[i], ps[i].role, lease.plan)
  {
    hide Created, TotalCreatedMib, AllPartitionCommands, CountRole, Unsized, ExactFixedMib, CacheMib, RemainingMib;
    CreatedByScript(layout, lease, diskBytes, disk);
    CreatedByPartitions(lease.plan.partitions, lease.plan.table, UsesExtended(lease.plan),
                        RemainingMib(lease, diskBytes));
  }

  lemma {:induction false} CreatedAreCreates(script: seq<Command>)
    ensures forall c :: c in Created(script) ==> c.Create?
  {
    if script != [] {
      CreatedAreCreates(script[..|script| - 1]);
    }
  }

  /**
   * An accepted layout uses the disk exactly: what it creates plus the alignment reserve is the
   * disk size in MiB, and the remaining partition gets at least its role's minimum.
   */
  lemma LayoutConservesDisk(layout: Layout, lease: Lease, diskBytes: U64, disk: U32)
    requires Precheck(lease, diskBytes, Some(disk)).None?
    requires IsLayoutFor(layout, lease, diskBytes, disk)
    ensures TotalCreatedMib(layout.prepare) + PARTITION_ALIGNMENT_HEADROOM_MIB == diskBytes / MIB_BYTES
    ensures |Created(layout.prepare)| == |lease.plan.partitions| + 1
    ensures forall c :: c in Created(layout.prepare) ==> c.Create?
    ensures forall i :: 0 <= i < |lease.plan.partitions| ==>
              Created(layout.prepare)[i].sizeMib ==
              if lease.plan.partitions[i].sizeMib.Some? then lease.plan.partitions[i].sizeMib.value
              else RemainingMib(lease, diskBytes)
    ensures RemainingMib(lease, diskBytes) >= RemainingMinimumMib(lease.plan.partitions)
  {
    hide Created, TotalCreatedMib, AllPartitionCommands, CountRole, ExactFixedMib, CacheMib, CheckPartitions,
         CheckTable, RemainingMinimumMib, FixedMib, IsLayoutFor;
    CapacityIsExact(lease.plan, diskBytes, lease.imageBytes);
    CreatedByScript(layout, lease, diskBytes, disk);
    CreatedByPartitions(lease.plan.partitions, lease.plan.table, UsesExtended(lease.plan),
        RemainingMib(lease, diskBytes));
    CreatedAreCreates(layout.prepare);
  }

  lemma WithRoleGivesFirst(ps: seq<PartitionSpec>, role: PartitionRole)
    ensures WithRole(ps, role) == [] <==> FirstWithRole(ps, role) == |ps|
    ensures WithRole(ps, role) != [] ==> WithRole(ps, role)[0] == ps[FirstWithRole(ps, role)]
  {
  }

  /** The reported Windows partition number names a Windows partition large enough for the payload. */
  lemma PayloadFitsCreatedWindows(layout: Layout, lease: Lease, diskBytes: U64, disk: U32)
    requires Precheck(lease, diskBytes, Some(disk)).None?
    requires IsLayoutFor(layout, lease, diskBytes, disk)
    ensures 0 < layout.windowsPartition <= |lease.plan.partitions| < |Created(layout.prepare)|
    ensures lease.plan.partitions[layout.windowsPartition - 1].role == Windows
    ensures Created(layout.prepare)[layout.windowsPartition - 1].Create?
    ensures lease.payloadBytes.Some? ==>
              lease.payloadBytes.value <= Created(layout.prepare)[layout.windowsPartition - 1].sizeMib * MIB_BYTES
  {
    hide Created, TotalCreatedMib, AllPartitionCommands, CountRole, ExactFixedMib, FixedMib, CheckPartitions,
         CheckTable;
    LayoutConservesDisk(layout, lease, diskBytes, disk);
    CapacityIsExact(lease.plan, diskBytes, lease.imageBytes);
    WithRoleGivesFirst(lease.plan.partitions, Windows);
  }

  // ----- MBR limits -----

  /** A partition table being built under the MBR rules. */
  datatype MbrState = MbrState(entries: nat, extended: bool)

  /**
   * Runs a script against the MBR rules: at most four primary-or-extended entries, one extended
   * entry, logical partitions only inside it and no primary after it. `None` is a broken rule.
   */
  function MbrRun(script: seq<Command>): Option<MbrState> {
    if script == [] then Some(MbrState(0, false))
    else
      var before := MbrRun(script[..|script| - 1]);
      if before.None? then None
      else
        var s := before.value;
        match script[|script| - 1]
        case CreateExtended =>
          if s.extended || s.entries == 4 then None else Some(MbrState(s.entries + 1, true))
        case Create(kind, _) =>
          if kind == Logical then
            if s.extended then before else None
          else if s.extended || s.entries == 4 then None
          else Some(MbrState(s.entries + 1, false))
        case _ => before
  }

  /** How a script that creates nothing, one entry or one logical partition moves the table. */
  lemma MbrRunSkips(a: seq<Command>, b: seq<Command>)
    requires forall c :: c in b ==> !c.Create? && !c.CreateExtended?
    ensures MbrRun(a + b) == MbrRun(a)
  {
    if b == [] {
      assert a + b == a;
    } else {
      assert (a + b)[..|a + b| - 1] == a + b[..|b| - 1];
      MbrRunSkips(a, b[..|b| - 1]);
    }
  }

  lemma MbrRunAppends(a: seq<Command>, c: Command)
    ensures MbrRun(a + [c]) ==
            if MbrRun(a).None? then None
            else
              var s := MbrRun(a).value;
              if c.CreateExtended? then
                if s.extended || s.entries == 4 then None else Some(MbrState(s.entries + 1, true))
              else if !c.Create? then Some(s)
              else if c.kind == Logical then if s.extended then Some(s) else None
              else if s.extended || s.entries == 4 then None
              else Some(MbrState(s.entries + 1, false))
  {
    assert (a + [c])[..|a|] == a;
  }

  lemma MbrRunPartition(a: seq<Command>, p: PartitionSpec, extended: bool, started: bool, remaining: U64)
    requires MbrRun(a).Some?
    requires started == MbrRun(a).value.extended
    requires extended && p.role == Data ==> started || MbrRun(a).value.entries < 4
    requires !(extended && p.role == Data) ==> !started && MbrRun(a).value.entries < 4
    ensures MbrRun(a + PartitionCommands(p, Mbr, extended, started, remaining)) ==
            Some(if extended && p.role == Data
                 then MbrState(MbrRun(a).value.entries + (if started then 0 else 1), true)
                 else MbrState(MbrRun(a).value.entries + 1, false))
  {
    hide MbrRun, LetterCommands;
    var pre := if extended && p.role == Data && !started then [CreateExtended] else [];
    var create := Create(KindOf(p.role, extended), if p.sizeMib.Some? then p.sizeMib.value else remaining);
    var tail := (if p.fileSystem.Some? then [Format(p.fileSystem.value, p.caption)] else []) + LetterCommands(p, Mbr);
    PartitionPieces(a, p, extended, started, remaining);
    LettersCreateNothing(p);
    MbrRunSkips(a + pre + [create], tail);
    MbrRunAppends(a + pre, create);
    if pre == [] {
      assert a + pre == a;
    } else {
      MbrRunAppends(a, CreateExtended);
    }
  }

  lemma LettersCreateNothing(p: PartitionSpec)
    ensures forall c :: c in LetterCommands(p, Mbr) ==> !c.Create? && !c.CreateExtended?
  {
  }

  lemma PartitionPieces(a: seq<Command>, p: PartitionSpec, extended: bool, started: bool, remaining: U64)
    ensures var pre := if extended && p.role == Data && !started then [CreateExtended] else [];
            var create := Create(KindOf(p.role, extended), if p.sizeMib.Some? then p.sizeMib.value else remaining);
            var tail := (if p.fileSystem.Some? then [Format(p.fileSystem.value, p.caption)] else [])
                + LetterCommands(p, Mbr);
            a + PartitionCommands(p, Mbr, extended, started, remaining) == a + pre + [create] + tail
  {
    hide LetterCommands, KindOf;
  }

  lemma CommandsWithoutExtended(p: PartitionSpec, table: PartitionTable, started: bool, remaining: U64)
    ensures PartitionCommands(p, table, false, started, remaining) ==
              PartitionCommands(p, table, false, false, remaining)
  {
  }

  /** Partitions of an MBR plan that are not data partitions. */
  function Others(ps: seq<PartitionSpec>): nat {
    CountRole(ps, System) + CountRole(ps, Windows)
  }

  lemma MbrRunBody(opening: seq<Command>, ps: seq<PartitionSpec>, extended: bool, remaining: U64)
    requires MbrRun(opening) == Some(MbrState(0, false))
    requires forall p :: p in ps ==> p.role in {System, Windows, Data}
    requires Others(ps) <= 2
    requires extended ==> DataPartitionsLast(ps)
    requires !extended ==> CountRole(ps, Data) <= 1
    ensures MbrRun(opening + AllPartitionCommands(ps, Mbr, extended, remaining)) ==
            Some(if extended
                 then MbrState(Others(ps) + (if CountRole(ps, Data) > 0 then 1 else 0), CountRole(ps, Data) > 0)
                 else MbrState(Others(ps) + CountRole(ps, Data), false))
  {
    hide MbrRun, PartitionCommands, CountRole;
    if ps == [] {
      RolesOfNone(System);
      RolesOfNone(Windows);
      RolesOfNone(Data);
      assert opening + [] == opening;
    } else {
      var front, last := ps[..|ps| - 1], ps[|ps| - 1];
      CountRoleOfLast(ps, System);
      CountRoleOfLast(ps, Windows);
      CountRoleOfLast(ps, Data);
      MbrRunBody(opening, front, extended, remaining);
      if extended && CountRole(front, Data) > 0 {
        var i := FirstWithRole(front, Data);
        assert ps[i].role == Data;
      }
      var body := AllPartitionCommands(front, Mbr, extended, remaining);
      var started := CountRole(front, Data) > 0;
      if extended {
        MbrRunPartition(opening + body, last, extended, started, remaining);
      } else {
        MbrRunPartition(opening + body, last, extended, false, remaining);
        CommandsWithoutExtended(last, Mbr, started, remaining);
      }
      assert opening + AllPartitionCommands(ps, Mbr, extended, remaining)
          == opening + body + PartitionCommands(last, Mbr, extended, started, remaining);
    }
  }

  lemma WithRoleCounts(ps: seq<PartitionSpec>, role: PartitionRole)
    ensures |WithRole(ps, role)| == CountRole(ps, role)
  {
  }

  lemma RolesOfAcceptedMbr(lease: Lease, diskBytes: U64, disk: U32)
    requires Precheck(lease, diskBytes, Some(disk)).None?
    requires lease.plan.table == Mbr
    ensures forall p :: p in lease.plan.partitions ==> p.role in {System, Windows, Data}
    ensures Others(lease.plan.partitions) == 2
  {
    var ps := lease.plan.partitions;
    WithRoleCounts(ps, System);
    forall p | p in ps
      ensures p.role in {System, Windows, Data}
    {
      var i :| 0 <= i < |ps| && ps[i] == p;
      CountRoleBound(ps, p.role, i);
    }
  }

  /** A plan with the MBR roles, and data partitions last if there are many, yields a legal script. */
  lemma MbrPartitionsAreLegal(ps: seq<PartitionSpec>, extended: bool, remaining: U64, cacheMib: U64, disk: U32)
    requires forall p :: p in ps ==> p.role in {System, Windows, Data}
    requires Others(ps) == 2 && (extended <==> CountRole(ps, Data) >= 2) && (extended ==> DataPartitionsLast(ps))
    ensures var script := [SelectDisk(disk), Clean, Convert(Mbr)] + AllPartitionCommands(ps, Mbr, extended, remaining)
                          + CacheCommands(extended, cacheMib);
            MbrRun(script).Some? && (MbrRun(script).value.extended <==> extended)
  {
    hide CountRole, AllPartitionCommands, MbrRun, CacheCommands;
    var opening := [SelectDisk(disk), Clean, Convert(Mbr)];
    OpeningRuns(disk);
    MbrRunBody(opening, ps, extended, remaining);
    CacheEndsRun(opening + AllPartitionCommands(ps, Mbr, extended, remaining), extended, cacheMib);
  }

  /**
   * However many data partitions an accepted MBR plan has, its script obeys the MBR rules to the
   * end: four or fewer entries, one extended entry exactly when it is needed, and every logical
   * partition, the cache included, inside it.
   */
  lemma MbrScriptIsLegal(layout: Layout, lease: Lease, diskBytes: U64, disk: U32)
    requires Precheck(lease, diskBytes, Some(disk)).None?
    requires IsLayoutFor(layout, lease, diskBytes, disk)
    requires lease.plan.table == Mbr
    ensures MbrRun(layout.prepare).Some? && TableEntries(layout.prepare) <= 4
    ensures MbrRun(layout.prepare).value.extended <==> CountRole(lease.plan.partitions, Data) >= 2
  {
    RolesOfAcceptedMbr(lease, diskBytes, disk);
    hide Validate, ValidateCapacity, PayloadFits, CountRole, AllPartitionCommands, RemainingMib, CacheMib, MbrRun,
         CacheCommands, TableEntries, Others;
    MbrPartitionsAreLegal(lease.plan.partitions, UsesExtended(lease.plan), RemainingMib(lease, diskBytes),
                          CacheMib(lease.imageBytes), disk);
    MbrRunMeaning(layout.prepare);
  }

  lemma OpeningRuns(disk: U32)
    ensures MbrRun([SelectDisk(disk), Clean, Convert(Mbr)]) == Some(MbrState(0, false))
  {
    var opening := [SelectDisk(disk), Clean, Convert(Mbr)];
    MbrRunSkips([], opening);
    assert [] + opening == opening;
  }

  /** The cache partition comes last: logical if there is an extended partition, else one more entry. */
  lemma CacheEndsRun(body: seq<Command>, extended: bool, cacheMib: U64)
    requires MbrRun(body).Some? && MbrRun(body).value.extended == extended
    requires !extended ==> MbrRun(body).value.entries < 4
    ensures MbrRun(body + CacheCommands(extended, cacheMib)) ==
            Some(if extended then MbrRun(body).value else MbrState(MbrRun(body).value.entries + 1, false))
  {
    var cache := CacheCommands(extended, cacheMib);
    MbrRunAppends(body, cache[0]);
    MbrRunSkips(body + [cache[0]], cache[1..]);
    assert body + cache == body + [cache[0]] + cache[1..];
  }

  /** How many entries of the partition table a script creates: primaries and extended containers. */
  function TableEntries(script: seq<Command>): nat {
    if script == [] then 0
    else
      var last := script[|script| - 1];
      TableEntries(script[..|script| - 1])
      + if last.CreateExtended? || (last.Create? && last.kind != Logical) then 1 else 0
  }

  /** What passing the rules says about the script: how many entries it creates, and in which positions. */
  lemma {:induction false} MbrRunMeaning(script: seq<Command>)
    requires MbrRun(script).Some?
    ensures MbrRun(script).value.entries == TableEntries(script) <= 4
    ensures MbrRun(script).value.extended <==> CreateExtended in script
    ensures forall i :: 0 <= i < |script| && script[i].Create? && script[i].kind == Logical ==>
              CreateExtended in script[..i]
    ensures forall i, j :: 0 <= i < j < |script| && script[i] == CreateExtended ==>
              !(script[j].Create? && script[j].kind != Logical) && script[j] != CreateExtended
  {
    if script != [] {
      var front := script[..|script| - 1];
      MbrRunMeaning(front);
      forall i | 0 <= i < |script| && script[i].Create? && script[i].kind == Logical
        ensures CreateExtended in script[..i]
      {
        if i < |front| {
          assert front[..i] == script[..i];
        } else {
          assert script[..i] == front;
        }
      }
    }
  }

  // ----- cleanup -----

  lemma LetterOfPartition(p: PartitionSpec, table: PartitionTable)
    requires CheckPartition(p).None?
    ensures Assign('R') !in LetterCommands(p, table)
  {
  }

  lemma {:induction false} NoPartitionTakesCacheLetter(
    ps: seq<PartitionSpec>, table: PartitionTable, extended: bool, remaining: U64)
    requires forall p :: p in ps ==> CheckPartition(p).None?
    ensures Assign('R') !in AllPartitionCommands(ps, table, extended, remaining)
  {
    if ps != [] {
      var front, last := ps[..|ps| - 1], ps[|ps| - 1];
      NoPartitionTakesCacheLetter(front, table, extended, remaining);
      LetterOfPartition(last, table);
      assert Assign('R') !in PartitionCommands(last, table, extended, CountRole(front, Data) > 0, remaining);
    }
  }

  lemma CheckedPartitions(ps: seq<PartitionSpec>)
    requires CheckPartitions(ps).None?
    ensures forall p :: p in ps ==> CheckPartition(p).None?
  {
    if ps != [] {
      CheckedPartitions(ps[1..]);
      assert forall p :: p in ps <==> p == ps[0] || p in ps[1..];
    }
  }

  lemma UnsizedIsMember(ps: seq<PartitionSpec>)
    requires Unsized(ps) != []
    ensures exists i :: 0 <= i < |ps| && ps[i] == Unsized(ps)[0]
  {
    if ps[0].sizeMib.Some? {
      UnsizedIsMember(ps[1..]);
      var i :| 0 <= i < |ps[1..]| && ps[1..][i] == Unsized(ps)[0];
      assert ps[i + 1] == Unsized(ps)[0];
    }
  }

  /**
   * Cleanup deletes the cache and nothing else: the letter it deletes is given once, to the
   * partition created last, and the letter it extends is the one the remaining partition was given.
   */
  lemma CleanupRemovesOnlyCache(layout: Layout, lease: Lease, diskBytes: U64, disk: U32)
    requires Precheck(lease, diskBytes, Some(disk)).None?
    requires IsLayoutFor(layout, lease, diskBytes, disk)
    ensures |layout.prepare| >= 7 && |Created(layout.prepare)| == |lease.plan.partitions| + 1
    ensures layout.cleanup[..3] == [SelectDisk(disk), SelectVolume('R'), DeleteVolume]
    ensures forall i :: 0 <= i < |layout.prepare| ==> (layout.prepare[i] == Assign('R') <==> i == |layout.prepare| - 2)
    ensures layout.prepare[|layout.prepare| - 4] == Created(layout.prepare)[|lease.plan.partitions|]
    ensures Unsized(lease.plan.partitions) != []
    ensures LetterCommands(Unsized(lease.plan.partitions)[0], lease.plan.table)
            == [Assign(UpperAscii(layout.cleanup[3].letter))]
  {
    hide Created, AllPartitionCommands, CountRole, ExactFixedMib, FixedMib, TotalCreatedMib, CheckTable, CacheMib;
    var ps := lease.plan.partitions;
    var extended := UsesExtended(lease.plan);
    CheckedPartitions(ps);
    NoPartitionTakesCacheLetter(ps, lease.plan.table, extended, RemainingMib(lease, diskBytes));
    CreatedByScript(layout, lease, diskBytes, disk);
    CreatedByPartitions(ps, lease.plan.table, extended, RemainingMib(lease, diskBytes));
    var body := AllPartitionCommands(ps, lease.plan.table, extended, RemainingMib(lease, diskBytes));
    forall i | 0 <= i < |layout.prepare| - 4
      ensures layout.prepare[i] != Assign('R')
    {
      if 3 <= i {
        assert layout.prepare[i] == body[i - 3];
        assert body[i - 3] in body;
      }
    }
    UnsizedIsMember(ps);
  }
}
