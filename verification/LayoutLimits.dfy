/**
 * What `prepare_layout` in crates/agent/src/deployment.rs does not ensure of every accepted plan, and
 * exactly which plans it holds for: distinct drive letters, and a cache next to the partition that
 * cleanup extends.
 */
module LayoutLimits {
  import opened Common
  import opened TextRules
  import opened PartitionPlans
  import opened LayoutPlanner

  // ----- drive letters -----

  /** The letters a script assigns, in order. */
  function AssignedLetters(script: seq<Command>): seq<char> {
    if script == [] then []
    else
      var last := script[|script| - 1];
      AssignedLetters(script[..|script| - 1]) + if last.Assign? then [last.letter] else []
  }

  /** The letters of the data partitions, in plan order; one without a letter gets `D`. */
  function DataLetters(ps: seq<PartitionSpec>): seq<char> {
    if ps == [] then []
    else
      var last := ps[|ps| - 1];
      DataLetters(ps[..|ps| - 1])
      + if last.role == Data then [UpperAscii(if last.driveLetter.Some? then last.driveLetter.value else 'D')] else []
  }

  lemma LettersOfConcat(a: seq<Command>, b: seq<Command>)
    ensures AssignedLetters(a + b) == AssignedLetters(a) + AssignedLetters(b)
  {
    if b == [] {
      assert a + b == a;
    } else {
      assert (a + b)[..|a + b| - 1] == a + b[..|b| - 1];
      LettersOfConcat(a, b[..|b| - 1]);
    }
  }

  lemma {:induction false} NoLetters(script: seq<Command>)
    requires forall c :: c in script ==> !c.Assign?
    ensures AssignedLetters(script) == []
  {
    if script != [] {
      NoLetters(script[..|script| - 1]);
    }
  }

  /** The letters one partition gets. */
  function LettersOf(p: PartitionSpec): seq<char> {
    match p.role
    case Efi => ['S']
    case System => ['S']
    case Windows => ['W']
    case Data => [UpperAscii(if p.driveLetter.Some? then p.driveLetter.value else 'D')]
    case Msr => []
    case Recovery => []
  }

  lemma LettersOfCommands(p: PartitionSpec, table: PartitionTable)
    ensures AssignedLetters(LetterCommands(p, table)) == LettersOf(p)
  {
    var commands := LetterCommands(p, table);
    if p.role == System && table == Mbr {
      assert commands == [Active] + [Assign('S')];
      LettersOfConcat([Active], [Assign('S')]);
    }
    assert forall c: Command :: AssignedLetters([c]) == if c.Assign? then [c.letter] else [];
  }

  lemma LettersOfPartition(p: PartitionSpec, table: PartitionTable, extended: bool, started: bool, remaining: U64)
    ensures AssignedLetters(PartitionCommands(p, table, extended, started, remaining)) == LettersOf(p)
  {
    hide AssignedLetters, LettersOf, LetterCommands, KindOf;
    var pre := if extended && p.role == Data && !started then [CreateExtended] else [];
    var create := [Create(KindOf(p.role, extended), if p.sizeMib.Some? then p.sizeMib.value else remaining)];
    var format := if p.fileSystem.Some? then [Format(p.fileSystem.value, p.caption)] else [];
    NoLetters(pre + create + format);
    LettersOfConcat(pre + create + format, LetterCommands(p, table));
    LettersOfCommands(p, table);
  }

  function Has(s: seq<char>, c: char): nat {
    multiset(s)[c]
  }

  lemma OnePartitionCounts(p: PartitionSpec, c: char)
    ensures Has(LettersOf(p), c)
            == (if c == 'S' && (p.role == Efi || p.role == System) then 1 else 0)
               + (if c == 'W' && p.role == Windows then 1 else 0) + Has(DataLetters([p]), c)
  {
    assert [p][..0] == [];
  }

  lemma DataLettersOfLast(ps: seq<PartitionSpec>)
    requires ps != []
    ensures DataLetters(ps) == DataLetters(ps[..|ps| - 1]) + DataLetters([ps[|ps| - 1]])
  {
    assert [ps[|ps| - 1]][..0] == [];
  }

  lemma HasOfConcat(a: seq<char>, b: seq<char>, c: char)
    ensures Has(a + b, c) == Has(a, c) + Has(b, c)
  {
  }

  /** How often each letter is given: by the boot partitions, by Windows and by the data partitions. */
  lemma {:induction false} LetterCounts(
    ps: seq<PartitionSpec>, table: PartitionTable, extended: bool, remaining: U64, c: char)
    ensures Has(AssignedLetters(AllPartitionCommands(ps, table, extended, remaining)), c)
            == (if c == 'S' then CountRole(ps, Efi) + CountRole(ps, System) else 0)
               + (if c == 'W' then CountRole(ps, Windows) else 0)
               + Has(DataLetters(ps), c)
  {
    hide CountRole, AssignedLetters, PartitionCommands, DataLetters, LettersOf, Has;
    if ps == [] {
      NothingAssigned();
      RolesOfNone(Efi);
      RolesOfNone(System);
      RolesOfNone(Windows);
      NoData(c);
    } else {
      var front, last := ps[..|ps| - 1], ps[|ps| - 1];
      LetterCounts(front, table, extended, remaining, c);
      CountRoleOfLast(ps, Efi);
      CountRoleOfLast(ps, System);
      CountRoleOfLast(ps, Windows);
      var before := AllPartitionCommands(front, table, extended, remaining);
      var own := PartitionCommands(last, table, extended, CountRole(front, Data) > 0, remaining);
      LettersOfPartition(last, table, extended, CountRole(front, Data) > 0, remaining);
      LettersOfConcat(before, own);
      HasOfConcat(AssignedLetters(before), AssignedLetters(own), c);
      OnePartitionCounts(last, c);
      DataLettersOfLast(ps);
      HasOfConcat(DataLetters(front), DataLetters([last]), c);
    }
  }

  lemma NoData(c: char)
    ensures Has(DataLetters([]), c) == 0 && Has([], c) == 0
  {
  }

  lemma NothingAssigned()
    ensures AssignedLetters([]) == []
  {
  }

  /** The data partitions of an accepted plan never get the letters of Windows and the cache. */
  lemma {:induction false} DataLettersAvoid(ps: seq<PartitionSpec>)
    requires forall p :: p in ps ==> CheckPartition(p).None?
    ensures Has(DataLetters(ps), 'W') == 0 && Has(DataLetters(ps), 'R') == 0
  {
    if ps != [] {
      var last := ps[|ps| - 1];
      assert last in ps && CheckPartition(last).None?;
      DataLettersAvoid(ps[..|ps| - 1]);
      if last.role == Data {
        DataLetterAvoids(last);
      }
    }
  }

  lemma DataLetterAvoids(p: PartitionSpec)
    requires p.role == Data && CheckPartition(p).None?
    ensures UpperAscii(if p.driveLetter.Some? then p.driveLetter.value else 'D') !in {'W', 'R'}
  {
  }

  lemma RolesOfAccepted(plan: PartitionPlan)
    requires Validate(plan).None?
    ensures CountRole(plan.partitions, Windows) == 1
    ensures CountRole(plan.partitions, Efi) + CountRole(plan.partitions, System) == 1
    ensures forall p :: p in plan.partitions ==> CheckPartition(p).None?
  {
    hide CheckPartition, CountRole, NeighboursEqual, SortLetters, DriveLetters, Unsized;
    CheckedPartitions(plan.partitions);
    WithRoleCounts(plan.partitions, Efi);
    WithRoleCounts(plan.partitions, System);
  }

  /** The cache's letter comes after all others. */
  lemma ScriptLetters(layout: Layout, lease: Lease, diskBytes: U64, disk: U32)
    requires IsLayoutFor(layout, lease, diskBytes, disk)
    ensures AssignedLetters(layout.prepare)
            == AssignedLetters(AllPartitionCommands(lease.plan.partitions, lease.plan.table, UsesExtended(lease.plan),
                                                    RemainingMib(lease, diskBytes))) + ['R']
  {
    hide AssignedLetters, AllPartitionCommands, CountRole, CacheMib, RemainingMib, UsesExtended;
    var opening := [SelectDisk(disk), Clean, Convert(lease.plan.table)];
    var extended := UsesExtended(lease.plan);
    var body := AllPartitionCommands(lease.plan.partitions, lease.plan.table, extended, RemainingMib(lease, diskBytes));
    var cache := CacheCommands(extended, CacheMib(lease.imageBytes));
    NoLetters(opening);
    LettersOfConcat(opening, body);
    LettersOfConcat(opening + body, cache);
    LettersOfCache(extended, CacheMib(lease.imageBytes));
  }

  lemma LettersOfCache(extended: bool, cacheMib: U64)
    ensures AssignedLetters(CacheCommands(extended, cacheMib)) == ['R']
  {
    var cache := CacheCommands(extended, cacheMib);
    assert cache == cache[..2] + ([Assign('R')] + [Exit]);
    hide AssignedLetters;
    NoLetters(cache[..2]);
    NoLetters([Exit]);
    OneLetter('R');
    LettersOfConcat([Assign('R')], [Exit]);
    LettersOfConcat(cache[..2], [Assign('R')] + [Exit]);
  }

  lemma OneLetter(letter: char)
    ensures AssignedLetters([Assign(letter)]) == [letter]
  {
    assert [Assign(letter)][..0] == [];
  }

  lemma DistinctMeansOnce(s: seq<char>)
    ensures !HasDuplicate(s) <==> forall c :: Has(s, c) <= 1
  {
    hide HasDuplicate;
    DuplicateMeansCount(s);
    if c :| multiset(s)[c] >= 2 {
      assert Has(s, c) >= 2;
    }
    if c :| Has(s, c) > 1 {
      assert multiset(s)[c] >= 2;
    }
  }

  lemma HasMember(s: seq<char>, c: char)
    ensures Has(s, c) > 0 <==> c in s
  {
  }

  /**
   * The letters an accepted plan's script assigns are all distinct exactly when the data partitions'
   * letters, with `D` for those that name none, are distinct and none of them is `S`.
   */
  lemma LettersAreDistinct(layout: Layout, lease: Lease, diskBytes: U64, disk: U32)
    requires Precheck(lease, diskBytes, Some(disk)).None?
    requires IsLayoutFor(layout, lease, diskBytes, disk)
    ensures var data := DataLetters(lease.plan.partitions);
            !HasDuplicate(AssignedLetters(layout.prepare)) <==> !HasDuplicate(data) && 'S' !in data
  {
    var ps := lease.plan.partitions;
    ScriptLetters(layout, lease, diskBytes, disk);
    PrecheckedIsValid(lease, diskBytes, disk);
    RolesOfAccepted(lease.plan);
    hide *;
    DistinctLetters(ps, lease.plan.table, UsesExtended(lease.plan), RemainingMib(lease, diskBytes));
  }

  lemma PrecheckedIsValid(lease: Lease, diskBytes: U64, disk: U32)
    requires Precheck(lease, diskBytes, Some(disk)).None?
    ensures Validate(lease.plan).None?
  {
    hide Validate, ValidateCapacity, PayloadFits, CountRole;
  }

  lemma DistinctLetters(ps: seq<PartitionSpec>, table: PartitionTable, extended: bool, remaining: U64)
    requires CountRole(ps, Windows) == 1 && CountRole(ps, Efi) + CountRole(ps, System) == 1
    requires forall p :: p in ps ==> CheckPartition(p).None?
    ensures var letters := AssignedLetters(AllPartitionCommands(ps, table, extended, remaining)) + ['R'];
            !HasDuplicate(letters) <==> !HasDuplicate(DataLetters(ps)) && 'S' !in DataLetters(ps)
  {
    hide AssignedLetters, DataLetters, HasDuplicate, CountRole, AllPartitionCommands, CheckPartition;
    var data := DataLetters(ps);
    var letters := AssignedLetters(AllPartitionCommands(ps, table, extended, remaining)) + ['R'];
    DataLettersAvoid(ps);
    forall c
      ensures Has(letters, c) == Has(data, c) + if c in {'S', 'W', 'R'} then 1 else 0
    {
      LetterCounts(ps, table, extended, remaining, c);
    }
    DistinctMeansOnce(letters);
    DistinctMeansOnce(data);
    HasMember(data, 'S');
    assert Has(letters, 'S') == Has(data, 'S') + 1;
  }

  // ----- the space cleanup frees -----

  /** Where the `k`-th created partition begins, in MiB from the first. */
  function BeginsAt(created: seq<Command>, k: nat): nat
    requires k <= |created| && forall c :: c in created ==> c.Create?
  {
    if k == 0 then 0 else BeginsAt(created, k - 1) + created[k - 1].sizeMib
  }

  /** Partitions lie one behind the other, and each takes some space. */
  lemma {:induction false} LaterBeginsLater(created: seq<Command>, i: nat, j: nat)
    requires (forall c :: c in created ==> c.Create? && c.sizeMib > 0) && i <= j <= |created|
    ensures BeginsAt(created, i) + (j - i) <= BeginsAt(created, j)
  {
    if i < j {
      LaterBeginsLater(created, i, j - 1);
    }
  }

  /**
   * The space cleanup frees is adjacent to the partition it extends, the one without a size, exactly
   * when that partition is the last in the plan.
   */
  lemma FreedSpaceIsAdjacent(layout: Layout, lease: Lease, diskBytes: U64, disk: U32, u: nat)
    requires Precheck(lease, diskBytes, Some(disk)).None?
    requires IsLayoutFor(layout, lease, diskBytes, disk)
    requires u < |lease.plan.partitions| && lease.plan.partitions[u].sizeMib.None?
    ensures var ps, created := lease.plan.partitions, Created(layout.prepare);
            && |created| == |ps| + 1 && (forall c :: c in created ==> c.Create?)
            && (BeginsAt(created, u + 1) == BeginsAt(created, |ps|) <==> u == |ps| - 1)
  {
    var ps, created := lease.plan.partitions, Created(layout.prepare);
    LayoutConservesDisk(layout, lease, diskBytes, disk);
    SizesArePositive(layout, lease, diskBytes, disk);
    hide Created, Precheck, IsLayoutFor, BeginsAt, RemainingMib;
    var planned := created[..|ps|];
    LaterBeginsLater(planned, u + 1, |ps|);
    SameBeginnings(created, planned, u + 1);
    SameBeginnings(created, planned, |ps|);
  }

  lemma SizesArePositive(layout: Layout, lease: Lease, diskBytes: U64, disk: U32)
    requires Precheck(lease, diskBytes, Some(disk)).None?
    requires IsLayoutFor(layout, lease, diskBytes, disk)
    ensures |Created(layout.prepare)| == |lease.plan.partitions| + 1
    ensures forall c :: c in Created(layout.prepare)[..|lease.plan.partitions|] ==> c.Create? && c.sizeMib > 0
  {
    LayoutConservesDisk(layout, lease, diskBytes, disk);
    PrecheckedIsValid(lease, diskBytes, disk);
    RolesOfAccepted(lease.plan);
    RemainingIsPositive(lease.plan.partitions);
    hide *;
    AllPositive(lease.plan.partitions, Created(layout.prepare), RemainingMib(lease, diskBytes));
  }

  lemma RemainingIsPositive(ps: seq<PartitionSpec>)
    ensures RemainingMinimumMib(ps) > 0
  {
  }

  lemma AllPositive(ps: seq<PartitionSpec>, created: seq<Command>, remaining: int)
    requires |created| == |ps| + 1 && remaining > 0 && forall p :: p in ps ==> CheckPartition(p).None?
    requires forall c :: c in created ==> c.Create?
    requires forall i :: 0 <= i < |ps| ==>
               created[i].sizeMib == if ps[i].sizeMib.Some? then ps[i].sizeMib.value else remaining
    ensures forall c :: c in created[..|ps|] ==> c.Create? && c.sizeMib > 0
  {
    hide CheckPartition;
    forall c | c in created[..|ps|]
      ensures c.Create? && c.sizeMib > 0
    {
      var i :| 0 <= i < |ps| && created[..|ps|][i] == c;
      assert created[i] == c && c in created && ps[i] in ps;
      CheckedIsNotEmpty(ps[i]);
    }
  }

  lemma CheckedIsNotEmpty(p: PartitionSpec)
    requires CheckPartition(p).None?
    ensures p.sizeMib != Some(0)
  {
  }

  lemma {:induction false} SameBeginnings(created: seq<Command>, front: seq<Command>, k: nat)
    requires front <= created && k <= |front| && forall c :: c in created ==> c.Create?
    ensures forall c :: c in front ==> c.Create?
    ensures BeginsAt(created, k) == BeginsAt(front, k)
  {
    if k > 0 {
      SameBeginnings(created, front, k - 1);
    }
  }
}
