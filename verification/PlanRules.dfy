/**
 * Which partition plans `PartitionPlan::validate` in crates/core/src/job.rs accepts, in terms of the
 * partitions themselves: no counting, no filtering, no sorting.
 */
module PlanRules {
  import opened Common
  import opened TextRules
  import opened PartitionPlans
  import opened LayoutPlanner
  import opened LayoutRoles

  /** What is asked of one partition. */
  predicate SoundPartition(p: PartitionSpec) {
    && p.sizeMib != Some(0)
    && (p.role == Data ==> p.fileSystem == Some(Ntfs))
    && |p.caption| <= 32
    && (forall c :: c in p.caption ==>
          'a' <= c <= 'z' || 'A' <= c <= 'Z' || '0' <= c <= '9' || c == ' ' || c == '_' || c == '-')
    && (p.driveLetter != None ==>
          && p.role == Data
          && var c := p.driveLetter.value;
             && ('a' <= c <= 'z' || 'A' <= c <= 'Z')
             && c !in {'A', 'a', 'B', 'b', 'C', 'c', 'R', 'r', 'W', 'w'})
  }

  /** Exactly one partition has the role. */
  predicate OneWithRole(ps: seq<PartitionSpec>, role: PartitionRole) {
    exists i :: 0 <= i < |ps| && OnlyRoleAt(ps, role, i)
  }

  predicate OnlyRoleAt(ps: seq<PartitionSpec>, role: PartitionRole, i: int) {
    forall k :: 0 <= k < |ps| ==> (ps[k].role == role <==> k == i)
  }

  /** Exactly one partition has no size. */
  predicate OneUnsized(ps: seq<PartitionSpec>) {
    exists i :: 0 <= i < |ps| && OnlyUnsizedAt(ps, i)
  }

  predicate OnlyUnsizedAt(ps: seq<PartitionSpec>, i: int) {
    forall k :: 0 <= k < |ps| ==> (ps[k].sizeMib == None <==> k == i)
  }

  predicate LettersDiffer(ps: seq<PartitionSpec>) {
    forall i, j :: 0 <= i < j < |ps| && ps[i].driveLetter != None && ps[j].driveLetter != None ==>
      !SameLetter(ps[i].driveLetter.value, ps[j].driveLetter.value)
  }

  predicate TableRules(plan: PartitionPlan) {
    var ps := plan.partitions;
    if plan.table == Gpt then
      && OneWithRole(ps, Efi) && OneWithRole(ps, Msr)
      && forall p :: p in ps ==>
           && (p.role == Efi ==> p.fileSystem == Some(Fat32)) && (p.role == Msr ==> p.fileSystem == None)
           && p.role != System
    else
      && OneWithRole(ps, System)
      && forall p :: p in ps ==> (p.role == System ==> p.fileSystem == Some(Ntfs)) && p.role != Efi && p.role != Msr
  }

  // ----- counting and filtering -----

  lemma {:induction false} CountIsOne(ps: seq<PartitionSpec>, role: PartitionRole)
    ensures CountRole(ps, role) == 1 <==> OneWithRole(ps, role)
  {
    CountIsPositive(ps, role);
    CountIsTwo(ps, role);
    hide CountRole;
    if CountRole(ps, role) == 1 {
      var i :| 0 <= i < |ps| && ps[i].role == role;
      assert OnlyRoleAt(ps, role, i);
    }
    if i :| 0 <= i < |ps| && OnlyRoleAt(ps, role, i) {
      assert ps[i].role == role;
    }
  }

  lemma RequiredMeans(ps: seq<PartitionSpec>, role: PartitionRole, fileSystem: Option<FileSystem>)
    ensures RequirePartition(ps, role, fileSystem).None?
            <==> OneWithRole(ps, role) && forall p :: p in ps && p.role == role ==> p.fileSystem == fileSystem
  {
    WithRoleCounts(ps, role);
    WithRoleGivesFirst(ps, role);
    CountIsOne(ps, role);
    hide CountRole, WithRole;
    if i :| 0 <= i < |ps| && OnlyRoleAt(ps, role, i) {
      assert FirstWithRole(ps, role) == i;
      assert forall p :: p in ps && p.role == role ==> p == ps[i];
      assert ps[i] in ps;
    }
  }

  lemma {:induction false} NoneUnsized(ps: seq<PartitionSpec>)
    ensures Unsized(ps) == [] <==> forall k :: 0 <= k < |ps| ==> ps[k].sizeMib != None
  {
    if ps != [] {
      NoneUnsized(ps[1..]);
      assert forall k :: 0 < k < |ps| ==> ps[k] == ps[1..][k - 1];
    }
  }

  lemma {:induction false} UnsizedAt(ps: seq<PartitionSpec>, i: nat)
    requires i < |ps| && OnlyUnsizedAt(ps, i)
    ensures Unsized(ps) == [ps[i]]
  {
    var rest := ps[1..];
    assert forall k :: 0 < k < |ps| ==> ps[k] == rest[k - 1];
    if i == 0 {
      NoneUnsized(rest);
    } else {
      UnsizedAt(rest, i - 1);
    }
  }

  lemma {:induction false} OneIsUnsized(ps: seq<PartitionSpec>)
    ensures |Unsized(ps)| == 1 <==> OneUnsized(ps)
  {
    if i :| 0 <= i < |ps| && OnlyUnsizedAt(ps, i) {
      UnsizedAt(ps, i);
    }
    if ps != [] && |Unsized(ps)| == 1 {
      var rest := ps[1..];
      assert forall k :: 0 < k < |ps| ==> ps[k] == rest[k - 1];
      if ps[0].sizeMib == None {
        NoneUnsized(rest);
        assert OnlyUnsizedAt(ps, 0);
      } else {
        OneIsUnsized(rest);
        var i :| 0 <= i < |rest| && OnlyUnsizedAt(rest, i);
        assert OnlyUnsizedAt(ps, i + 1);
      }
    }
  }

  lemma SoundIsChecked(p: PartitionSpec)
    ensures CheckPartition(p).None? <==> SoundPartition(p)
  {
  }

  lemma {:induction false} AllChecked(ps: seq<PartitionSpec>)
    ensures CheckPartitions(ps).None? <==> forall p :: p in ps ==> SoundPartition(p)
  {
    hide CheckPartition, SoundPartition;
    if ps != [] {
      AllChecked(ps[1..]);
      SoundIsChecked(ps[0]);
      assert forall p :: p in ps <==> p == ps[0] || p in ps[1..];
    }
  }

  // ----- letters -----

  /** The letter list has a letter exactly when some partition has it. */
  lemma {:induction false} LetterIsListed(ps: seq<PartitionSpec>, c: char)
    ensures UpperAscii(c) in DriveLetters(ps)
            <==> exists i :: 0 <= i < |ps| && ps[i].driveLetter != None && SameLetter(c, ps[i].driveLetter.value)
  {
    if ps != [] {
      var rest := ps[1..];
      LetterIsListed(rest, c);
      assert forall k :: 0 < k < |ps| ==> ps[k] == rest[k - 1];
      if ps[0].driveLetter != None {
        FoldingIsSameLetter(c, ps[0].driveLetter.value);
      }
      hide UpperAscii, SameLetter;
      if i :| 0 <= i < |rest| && rest[i].driveLetter != None && SameLetter(c, rest[i].driveLetter.value) {
        assert ps[i + 1] == rest[i];
      }
    }
  }

  lemma DuplicateOfFirst(c: char, rest: seq<char>)
    ensures HasDuplicate([c] + rest) <==> c in rest || HasDuplicate(rest)
  {
    var s := [c] + rest;
    if c in rest {
      var j :| 0 <= j < |rest| && rest[j] == c;
      assert s[0] == s[j + 1];
    }
    if i, j :| 0 <= i < j < |rest| && rest[i] == rest[j] {
      assert s[i + 1] == s[j + 1];
    }
    if i, j :| 0 <= i < j < |s| && s[i] == s[j] {
      assert s[j] == rest[j - 1];
      if i > 0 {
        assert rest[i - 1] == rest[j - 1];
      }
    }
  }

  /** Whether the first partition's letter is another's, too. */
  lemma DifferOfFirst(ps: seq<PartitionSpec>)
    requires ps != []
    ensures LettersDiffer(ps)
            <==> LettersDiffer(ps[1..])
                 && (ps[0].driveLetter != None ==>
                       forall k :: 0 <= k < |ps[1..]| && ps[1..][k].driveLetter != None ==>
                         !SameLetter(ps[0].driveLetter.value, ps[1..][k].driveLetter.value))
  {
    hide SameLetter;
    var rest := ps[1..];
    assert forall k :: 0 < k < |ps| ==> ps[k] == rest[k - 1];
    assert forall k :: 0 <= k < |rest| ==> rest[k] == ps[k + 1];
  }

  lemma {:induction false} DuplicatesAreShared(ps: seq<PartitionSpec>)
    ensures HasDuplicate(DriveLetters(ps)) <==> !LettersDiffer(ps)
  {
    if ps != [] {
      hide HasDuplicate, UpperAscii, SameLetter, LettersDiffer;
      var rest := ps[1..];
      DuplicatesAreShared(rest);
      assert forall k :: 0 < k < |ps| ==> ps[k] == rest[k - 1];
      if ps[0].driveLetter != None {
        DuplicateOfFirst(UpperAscii(ps[0].driveLetter.value), DriveLetters(rest));
        LetterIsListed(rest, ps[0].driveLetter.value);
      } else {
        assert DriveLetters(ps) == DriveLetters(rest);
      }
      DifferOfFirst(ps);
    }
  }

  /**
   * A plan is accepted exactly when it has one Windows partition and one without a size, which is for
   * Windows or data, every partition is sound in itself, no two drive letters are the same, and the
   * boot partitions are those of its partition table.
   */
  lemma AcceptedPlans(plan: PartitionPlan)
    ensures var ps := plan.partitions;
            Validate(plan).None?
            <==> && OneWithRole(ps, Windows) && OneUnsized(ps)
                 && (forall p :: p in ps && p.sizeMib == None ==> p.role == Windows || p.role == Data)
                 && (forall p :: p in ps ==> SoundPartition(p))
                 && LettersDiffer(ps) && TableRules(plan)
  {
    hide CountRole, CheckPartitions, SoundPartition, HasDuplicate, SortLetters, DriveLetters, NeighboursEqual,
         RequirePartition, OneWithRole, OneUnsized, LettersDiffer, Unsized;
    var ps := plan.partitions;
    CountIsOne(ps, Windows);
    OneIsUnsized(ps);
    UnsizedRole(ps);
    AllChecked(ps);
    SortedNeighboursFindDuplicates(DriveLetters(ps));
    DuplicatesAreShared(ps);
    TableMeans(plan);
    NotEmpty(ps);
  }

  lemma NotEmpty(ps: seq<PartitionSpec>)
    ensures OneWithRole(ps, Windows) ==> ps != []
  {
  }

  lemma UnsizedRole(ps: seq<PartitionSpec>)
    ensures OneUnsized(ps) ==>
              && |Unsized(ps)| == 1
              && (Unsized(ps)[0].role in {Windows, Data}
                  <==> forall p :: p in ps && p.sizeMib == None ==> p.role == Windows || p.role == Data)
  {
    hide Unsized;
    if i :| 0 <= i < |ps| && OnlyUnsizedAt(ps, i) {
      UnsizedAt(ps, i);
      assert ps[i] in ps;
      assert forall p :: p in ps && p.sizeMib == None ==> p == ps[i];
    }
  }

  lemma NoneWithRole(ps: seq<PartitionSpec>, role: PartitionRole)
    ensures CountRole(ps, role) == 0 <==> forall p :: p in ps ==> p.role != role
  {
    CountIsPositive(ps, role);
    hide CountRole;
    if i :| 0 <= i < |ps| && ps[i].role == role {
      assert ps[i] in ps;
    }
  }

  lemma TableMeans(plan: PartitionPlan)
    ensures CheckTable(plan).None? <==> TableRules(plan)
  {
    hide CountRole, RequirePartition, OneWithRole;
    var ps := plan.partitions;
    RequiredMeans(ps, Efi, Some(Fat32));
    RequiredMeans(ps, Msr, None);
    RequiredMeans(ps, System, Some(Ntfs));
    NoneWithRole(ps, System);
    NoneWithRole(ps, Efi);
    NoneWithRole(ps, Msr);
  }
}
