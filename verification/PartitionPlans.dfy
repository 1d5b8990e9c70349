/** Partition plans and their capacity checks, from crates/core/src/job.rs. */
module PartitionPlans {
  import opened Common
  import opened TextRules

  const MIB_BYTES: nat := 0x10_0000
  const MINIMUM_WINDOWS_MIB: nat := 20480
  const MINIMUM_DATA_MIB: nat := 1024
  const IMAGE_CACHE_HEADROOM_MIB: nat := 512
  const PARTITION_ALIGNMENT_HEADROOM_MIB: nat := 32

  datatype PartitionTable = Gpt | Mbr

  datatype PartitionRole = Efi | Msr | System | Windows | Recovery | Data

  datatype FileSystem = Fat32 | Ntfs

  /** A missing size means that the partition takes the remaining space. */
  datatype PartitionSpec = PartitionSpec(
    role: PartitionRole,
    sizeMib: Option<U64>,
    fileSystem: Option<FileSystem>,
    caption: string,
    driveLetter: Option<char>)

  datatype PartitionPlan = PartitionPlan(table: PartitionTable, partitions: seq<PartitionSpec>)

  datatype PlanError =
    | Empty
    | WindowsPartitionCount(count: nat)
    | InvalidRemainingPartition
    | ZeroSize(role: PartitionRole)
    | InvalidLabel(caption: string)
    | InvalidDriveLetter(letter: char)
    | DuplicateDriveLetter
    | RequiredRoleCount(role: PartitionRole, count: nat)
    | InvalidFileSystem(role: PartitionRole)
    | RoleDoesNotMatchTable(role: PartitionRole, table: PartitionTable)

  datatype CapacityError = CapacityError(required: U64, available: U64)

  function CountRole(ps: seq<PartitionSpec>, role: PartitionRole): nat {
    if ps == [] then 0 else (if ps[0].role == role then 1 else 0) + CountRole(ps[1..], role)
  }

  /** The partitions without a size, in plan order. */
  function Unsized(ps: seq<PartitionSpec>): seq<PartitionSpec> {
    if ps == [] then []
    else if ps[0].sizeMib.None? then [ps[0]] + Unsized(ps[1..])
    else Unsized(ps[1..])
  }

  function WithRole(ps: seq<PartitionSpec>, role: PartitionRole): seq<PartitionSpec> {
    if ps == [] then []
    else if ps[0].role == role then [ps[0]] + WithRole(ps[1..], role)
    else WithRole(ps[1..], role)
  }

  predicate LabelCharacter(c: char) {
    'a' <= c <= 'z' || 'A' <= c <= 'Z' || '0' <= c <= '9' || c == ' ' || c == '_' || c == '-'
  }

  predicate AssignableLetter(c: char) {
    'D' <= c <= 'Q' || 'S' <= c <= 'V' || 'X' <= c <= 'Z'
  }

  function CheckPartition(p: PartitionSpec): Option<PlanError> {
    if p.sizeMib == Some(0) then Some(ZeroSize(p.role))
    else if p.role == Data && p.fileSystem != Some(Ntfs) then Some(InvalidFileSystem(Data))
    else if |p.caption| > 32 || (exists c | c in p.caption :: !LabelCharacter(c)) then Some(InvalidLabel(p.caption))
    else if p.driveLetter.Some? && (p.role != Data || !AssignableLetter(UpperAscii(p.driveLetter.value)))
    then Some(InvalidDriveLetter(UpperAscii(p.driveLetter.value)))
    else None
  }

  function CheckPartitions(ps: seq<PartitionSpec>): Option<PlanError> {
    if ps == [] then None
    else if CheckPartition(ps[0]).Some? then CheckPartition(ps[0])
    else CheckPartitions(ps[1..])
  }

  function DriveLetters(ps: seq<PartitionSpec>): seq<char> {
    if ps == [] then []
    else (if ps[0].driveLetter.Some? then [UpperAscii(ps[0].driveLetter.value)] else []) + DriveLetters(ps[1..])
  }

  function InsertLetter(sorted: seq<char>, c: char): seq<char> {
    if sorted == [] || c <= sorted[0] then [c] + sorted else [sorted[0]] + InsertLetter(sorted[1..], c)
  }

  function SortLetters(letters: seq<char>): seq<char> {
    if letters == [] then [] else InsertLetter(SortLetters(letters[1..]), letters[0])
  }

  predicate NeighboursEqual(letters: seq<char>) {
    exists i :: 0 <= i < |letters| - 1 && letters[i] == letters[i + 1]
  }

  function RequirePartition(
    ps: seq<PartitionSpec>, role: PartitionRole, fileSystem: Option<FileSystem>): Option<PlanError> {
    var found := WithRole(ps, role);
    if |found| != 1 then Some(RequiredRoleCount(role, |found|))
    else if found[0].fileSystem != fileSystem then Some(InvalidFileSystem(role))
    else None
  }

  function CheckTable(plan: PartitionPlan): Option<PlanError> {
    var ps := plan.partitions;
    match plan.table
    case Gpt =>
      if RequirePartition(ps, Efi, Some(Fat32)).Some? then RequirePartition(ps, Efi, Some(Fat32))
      else if RequirePartition(ps, Msr, None).Some? then RequirePartition(ps, Msr, None)
      else if CountRole(ps, System) > 0 then Some(RoleDoesNotMatchTable(System, Gpt))
      else None
    case Mbr =>
      if RequirePartition(ps, System, Some(Ntfs)).Some? then RequirePartition(ps, System, Some(Ntfs))
      else if CountRole(ps, Efi) > 0 || CountRole(ps, Msr) > 0 then Some(RoleDoesNotMatchTable(Efi, Mbr))
      else None
  }

  /** `PartitionPlan::validate`: the first violated rule, if any. */
  function Validate(plan: PartitionPlan): Option<PlanError> {
    var ps := plan.partitions;
    if ps == [] then Some(Empty)
    else if CountRole(ps, Windows) != 1 then Some(WindowsPartitionCount(CountRole(ps, Windows)))
    else if |Unsized(ps)| != 1 || Unsized(ps)[0].role !in {Windows, Data} then Some(InvalidRemainingPartition)
    else if CheckPartitions(ps).Some? then CheckPartitions(ps)
    else if NeighboursEqual(SortLetters(DriveLetters(ps))) then Some(DuplicateDriveLetter)
    else CheckTable(plan)
  }

  /** The saturating fold over the given sizes. */
  function FixedMib(ps: seq<PartitionSpec>): U64 {
    if ps == [] then 0
    else
      var front := FixedMib(ps[..|ps| - 1]);
      var last := ps[|ps| - 1].sizeMib;
      if last.Some? then AddSaturating(front, last.value) else front
  }

  function DivCeil(a: nat, b: nat): nat
    requires b > 0
  {
    a / b + if a % b == 0 then 0 else 1
  }

  function CacheMib(imageBytes: U64): U64 {
    AddSaturating(DivCeil(imageBytes, MIB_BYTES), IMAGE_CACHE_HEADROOM_MIB)
  }

  /** The smallest share the remaining-space partition may get. */
  function RemainingMinimumMib(ps: seq<PartitionSpec>): U64 {
    var u := Unsized(ps);
    if u != [] && u[0].role == Data then MINIMUM_DATA_MIB else MINIMUM_WINDOWS_MIB
  }

  function RequiredMib(plan: PartitionPlan, imageBytes: U64): U64 {
    AddSaturating(
      AddSaturating(
        AddSaturating(FixedMib(plan.partitions), CacheMib(imageBytes)),
        RemainingMinimumMib(plan.partitions)),
      PARTITION_ALIGNMENT_HEADROOM_MIB)
  }

  function ValidateCapacity(plan: PartitionPlan, diskBytes: U64, imageBytes: U64): Option<CapacityError> {
    var available := diskBytes / MIB_BYTES;
    var required := RequiredMib(plan, imageBytes);
    if available < required then Some(CapacityError(required, available)) else None
  }

  /** Bytes the Windows volume offers, as `validate_windows_payload_capacity` computes them. */
  function WindowsVolumeBytes(plan: PartitionPlan, diskBytes: U64, imageBytes: U64): Option<U64> {
    var windows := WithRole(plan.partitions, Windows);
    if windows == [] then None
    else if windows[0].sizeMib.Some? then Some(MulSaturating(windows[0].sizeMib.value, MIB_BYTES))
    else
      Some(MulSaturating(
             SubSaturating(
               SubSaturating(
                 SubSaturating(diskBytes / MIB_BYTES, FixedMib(plan.partitions)),
                 CacheMib(imageBytes)),
               PARTITION_ALIGNMENT_HEADROOM_MIB),
             MIB_BYTES))
  }

  predicate PayloadFits(plan: PartitionPlan, diskBytes: U64, imageBytes: U64, payloadBytes: U64) {
    var bytes := WindowsVolumeBytes(plan, diskBytes, imageBytes);
    bytes.Some? && payloadBytes <= bytes.value
  }

  // ----- what the checks mean -----

  predicate Ascending(s: seq<char>) {
    forall i, j :: 0 <= i < j < |s| ==> s[i] <= s[j]
  }

  predicate HasDuplicate(s: seq<char>) {
    exists i, j :: 0 <= i < j < |s| && s[i] == s[j]
  }

  lemma InsertLetterKeeps(sorted: seq<char>, c: char)
    ensures multiset(InsertLetter(sorted, c)) == multiset(sorted) + multiset{c}
  {
    if sorted != [] && c > sorted[0] {
      InsertLetterKeeps(sorted[1..], c);
      assert sorted == [sorted[0]] + sorted[1..];
    }
  }

  lemma InsertLetterSorts(sorted: seq<char>, c: char)
    requires Ascending(sorted)
    ensures Ascending(InsertLetter(sorted, c))
    ensures forall d :: d in InsertLetter(sorted, c) <==> d == c || d in sorted
  {
    if sorted != [] && c > sorted[0] {
      var rest := InsertLetter(sorted[1..], c);
      InsertLetterSorts(sorted[1..], c);
      forall k | 0 <= k < |rest|
        ensures sorted[0] <= rest[k]
      {
        assert rest[k] in rest;
        assert rest[k] == c || rest[k] in sorted[1..];
      }
      forall d
        ensures d in [sorted[0]] + rest <==> d == c || d in sorted
      {
        assert d in sorted <==> d == sorted[0] || d in sorted[1..];
      }
    }
  }

  lemma SortLettersSorts(letters: seq<char>)
    ensures Ascending(SortLetters(letters))
    ensures multiset(SortLetters(letters)) == multiset(letters)
  {
    if letters != [] {
      SortLettersSorts(letters[1..]);
      InsertLetterSorts(SortLetters(letters[1..]), letters[0]);
      InsertLetterKeeps(SortLetters(letters[1..]), letters[0]);
      assert letters == [letters[0]] + letters[1..];
    }
  }

  /** A repeated position is the same as a multiset count of two. */
  lemma DuplicateMeansCount(s: seq<char>)
    ensures HasDuplicate(s) <==> exists c :: multiset(s)[c] >= 2
  {
    if c :| multiset(s)[c] >= 2 {
      CountGivesDuplicate(s, c);
    }
    if HasDuplicate(s) {
      var i, j :| 0 <= i < j < |s| && s[i] == s[j];
      DuplicateGivesCount(s, i, j);
    }
  }

  lemma DuplicateGivesCount(s: seq<char>, i: nat, j: nat)
    requires i < j < |s| && s[i] == s[j]
    ensures multiset(s)[s[i]] >= 2
  {
    assert s == s[..j] + [s[j]] + s[j + 1..];
    assert s[..j][i] == s[i];
    assert s[i] in multiset(s[..j]);
  }

  lemma CountGivesDuplicate(s: seq<char>, c: char)
    requires multiset(s)[c] >= 2
    ensures HasDuplicate(s)
  {
    assert c in multiset(s);
    var i :| 0 <= i < |s| && s[i] == c;
    var rest := s[i + 1..];
    assert s == s[..i] + [c] + rest;
    if c in s[..i] {
      var k :| 0 <= k < i && s[..i][k] == c;
      assert s[k] == s[i];
    } else {
      assert multiset(s[..i])[c] == 0;
      assert c in multiset(rest);
      var k :| 0 <= k < |rest| && rest[k] == c;
      assert s[i] == s[i + 1 + k];
    }
  }

  lemma AscendingNeighbours(sorted: seq<char>)
    requires Ascending(sorted)
    ensures NeighboursEqual(sorted) <==> HasDuplicate(sorted)
  {
    if i, j :| 0 <= i < j < |sorted| && sorted[i] == sorted[j] {
      assert sorted[i] == sorted[i + 1];
    }
  }

  /** Sorting and comparing neighbours finds exactly the plans that repeat a drive letter. */
  lemma SortedNeighboursFindDuplicates(letters: seq<char>)
    ensures NeighboursEqual(SortLetters(letters)) <==> HasDuplicate(letters)
  {
    hide HasDuplicate, NeighboursEqual, SortLetters, Ascending;
    SortLettersSorts(letters);
    AscendingNeighbours(SortLetters(letters));
    DuplicateMeansCount(letters);
    DuplicateMeansCount(SortLetters(letters));
  }

  /** The exact, unbounded sum that the saturating fold stands for. */
  function ExactFixedMib(ps: seq<PartitionSpec>): nat {
    if ps == [] then 0
    else ExactFixedMib(ps[..|ps| - 1]) + if ps[|ps| - 1].sizeMib.Some? then ps[|ps| - 1].sizeMib.value else 0
  }

  lemma {:induction false} SaturatingFoldIsMinimum(ps: seq<PartitionSpec>)
    ensures FixedMib(ps) == Min(ExactFixedMib(ps), U64_MAX)
  {
    if ps != [] {
      SaturatingFoldIsMinimum(ps[..|ps| - 1]);
    }
  }

  /** The checks with saturating arithmetic accept exactly the plans that fit in exact arithmetic. */
  lemma CapacityIsExact(plan: PartitionPlan, diskBytes: U64, imageBytes: U64)
    ensures ValidateCapacity(plan, diskBytes, imageBytes).None?
            <==> ExactFixedMib(plan.partitions) + DivCeil(imageBytes, MIB_BYTES) + IMAGE_CACHE_HEADROOM_MIB
                 + RemainingMinimumMib(plan.partitions) + PARTITION_ALIGNMENT_HEADROOM_MIB
                 <= diskBytes / MIB_BYTES
    ensures ValidateCapacity(plan, diskBytes, imageBytes).None?
            ==> FixedMib(plan.partitions) == ExactFixedMib(plan.partitions)
                && CacheMib(imageBytes) == DivCeil(imageBytes, MIB_BYTES) + IMAGE_CACHE_HEADROOM_MIB
  {
    SaturatingFoldIsMinimum(plan.partitions);
  }

  lemma DivCeilMonotone(a: nat, b: nat)
    requires a <= b
    ensures DivCeil(a, MIB_BYTES) <= DivCeil(b, MIB_BYTES)
  {
  }

  lemma BytesMonotone(a: U64, b: U64)
    requires a <= b
    ensures MulSaturating(a, MIB_BYTES) <= MulSaturating(b, MIB_BYTES)
  {
  }

  /** A plan that was accepted stays accepted on a disk no smaller and for a download no larger. */
  lemma SmallerDownloadFits(plan: PartitionPlan, disk: U64, image: U64, actualDisk: U64, download: U64, payload: U64)
    requires disk <= actualDisk && download <= image
    ensures ValidateCapacity(plan, disk, image).None? ==> ValidateCapacity(plan, actualDisk, download).None?
    ensures PayloadFits(plan, disk, image, payload) ==> PayloadFits(plan, actualDisk, download, payload)
  {
    hide FixedMib, RemainingMinimumMib, WithRole, DivCeil, MulSaturating;
    DivCeilMonotone(download, image);
    var windows := WithRole(plan.partitions, Windows);
    if windows != [] && windows[0].sizeMib.None? {
      var less := SubSaturating(SubSaturating(SubSaturating(disk / MIB_BYTES, FixedMib(plan.partitions)),
                                              CacheMib(image)), PARTITION_ALIGNMENT_HEADROOM_MIB);
      var more := SubSaturating(SubSaturating(SubSaturating(actualDisk / MIB_BYTES, FixedMib(plan.partitions)),
                                              CacheMib(download)), PARTITION_ALIGNMENT_HEADROOM_MIB);
      BytesMonotone(less, more);
    }
  }

  // ----- disks that match a fingerprint -----

  /** The MiB a plan needs, without saturation. */
  function NeededMib(plan: PartitionPlan, imageBytes: U64): nat {
    ExactFixedMib(plan.partitions) + DivCeil(imageBytes, MIB_BYTES) + IMAGE_CACHE_HEADROOM_MIB
    + RemainingMinimumMib(plan.partitions) + PARTITION_ALIGNMENT_HEADROOM_MIB
  }

  /** The MiB that are left for the remaining partition. */
  function RestMib(plan: PartitionPlan, diskBytes: U64, imageBytes: U64): int {
    diskBytes / MIB_BYTES - (NeededMib(plan, imageBytes) - RemainingMinimumMib(plan.partitions))
  }

  predicate WindowsRemains(plan: PartitionPlan) {
    WithRole(plan.partitions, Windows) != [] && WithRole(plan.partitions, Windows)[0].sizeMib.None?
  }

  lemma NeededIsMonotone(plan: PartitionPlan, download: U64, image: U64)
    requires download <= image
    ensures NeededMib(plan, download) <= NeededMib(plan, image)
  {
    hide ExactFixedMib, RemainingMinimumMib;
    DivCeilMonotone(download, image);
  }

  lemma OneMibLess(recorded: nat, actual: nat)
    requires AbsDiff(recorded, actual) <= MIB_BYTES
    ensures actual / MIB_BYTES + 1 >= recorded / MIB_BYTES
  {
  }

  /**
   * A plan accepted for a recorded disk is refused on a disk that matches the record exactly when the
   * disk has fewer whole MiB than the plan needs; it then lacks one MiB, and the plan needs all the
   * recorded ones.
   */
  lemma CapacityOnMatchingDisk(plan: PartitionPlan, recorded: U64, image: U64, actual: U64, download: U64)
    requires ValidateCapacity(plan, recorded, image).None?
    requires AbsDiff(recorded, actual) <= MIB_BYTES && download <= image
    ensures ValidateCapacity(plan, actual, download).Some? <==> actual / MIB_BYTES < NeededMib(plan, download)
    ensures ValidateCapacity(plan, actual, download).Some? ==>
              actual / MIB_BYTES + 1 == recorded / MIB_BYTES == NeededMib(plan, download)
  {
    CapacityIsExact(plan, recorded, image);
    CapacityIsExact(plan, actual, download);
    NeededIsMonotone(plan, download, image);
    OneMibLess(recorded, actual);
    hide ValidateCapacity, ExactFixedMib, RemainingMinimumMib, DivCeil;
  }

  lemma RemainingVolume(plan: PartitionPlan, disk: U64, image: U64)
    requires ValidateCapacity(plan, disk, image).None? && WindowsRemains(plan)
    ensures RestMib(plan, disk, image) >= 0
    ensures WindowsVolumeBytes(plan, disk, image) == Some(RestMib(plan, disk, image) * MIB_BYTES)
  {
    CapacityIsExact(plan, disk, image);
    hide ValidateCapacity, ExactFixedMib, RemainingMinimumMib, DivCeil, FixedMib, WithRole;
  }

  /** The same for a payload: only a Windows partition that takes the remaining space can become too small. */
  lemma PayloadOnMatchingDisk(plan: PartitionPlan, recorded: U64, image: U64, actual: U64, download: U64, payload: U64)
    requires ValidateCapacity(plan, recorded, image).None? && PayloadFits(plan, recorded, image, payload)
    requires AbsDiff(recorded, actual) <= MIB_BYTES && download <= image
    requires ValidateCapacity(plan, actual, download).None?
    ensures !PayloadFits(plan, actual, download, payload)
            <==> WindowsRemains(plan) && RestMib(plan, actual, download) * MIB_BYTES < payload
    ensures !PayloadFits(plan, actual, download, payload) ==> actual / MIB_BYTES + 1 == recorded / MIB_BYTES
  {
    hide ValidateCapacity, NeededMib, RemainingMinimumMib, WithRole;
    NeededIsMonotone(plan, download, image);
    OneMibLess(recorded, actual);
    if WindowsRemains(plan) {
      RemainingVolume(plan, recorded, image);
      RemainingVolume(plan, actual, download);
    }
  }

  /** The plan the service recommends for UEFI machines. */
  function UefiGpt(): PartitionPlan {
    PartitionPlan(Gpt, [PartitionSpec(Efi, Some(300), Some(Fat32), "System", None),
                        PartitionSpec(Msr, Some(16), None, "", None),
                        PartitionSpec(Windows, None, Some(Ntfs), "Windows", None)])
  }

  lemma RecommendedPartitionsPass()
    ensures CheckPartitions(UefiGpt().partitions).None? && DriveLetters(UefiGpt().partitions) == []
  {
    var ps := UefiGpt().partitions;
    assert forall c :: c in "System" || c in "Windows" ==> LabelCharacter(c);
    assert CheckPartition(ps[0]).None? && CheckPartition(ps[1]).None? && CheckPartition(ps[2]).None?;
    hide CheckPartition;
    assert ps[1..] == [ps[1], ps[2]] && ps[2..] == [ps[2]];
    assert CheckPartitions(ps[2..]).None?;
    assert CheckPartitions(ps[1..]).None?;
  }

  lemma RecommendedPlanIsValid()
    ensures Validate(UefiGpt()).None?
  {
    RecommendedPartitionsPass();
    hide CheckPartitions, DriveLetters;
  }

  lemma RecommendedFixedSizes()
    ensures ExactFixedMib(UefiGpt().partitions) == 316
  {
    var ps := UefiGpt().partitions;
    assert ps[..2] == [ps[0], ps[1]] && ps[..2][..1] == [ps[0]];
    assert ExactFixedMib(ps[..2][..1]) == 300;
    assert ExactFixedMib(ps[..2]) == 316;
  }

  /** The recommended plan, on a disk that holds it exactly, is refused on a matching disk one MiB smaller. */
  lemma MatchingDiskCanBeTooSmall(recorded: U64, actual: U64, image: U64)
    requires image == 0x4000_0000 && recorded == 22364 * MIB_BYTES && actual == 22363 * MIB_BYTES
    ensures AbsDiff(recorded, actual) <= MIB_BYTES && Validate(UefiGpt()).None?
    ensures ValidateCapacity(UefiGpt(), recorded, image).None? && ValidateCapacity(UefiGpt(), actual, image).Some?
  {
    RecommendedPlanIsValid();
    RecommendedFixedSizes();
    hide Validate, ValidateCapacity, ExactFixedMib;
    CapacityIsExact(UefiGpt(), recorded, image);
    CapacityIsExact(UefiGpt(), actual, image);
  }
}
