/** Finding the span files that belong to a Ghost image, from crates/service/src/image_library.rs. */
module GhostSpans {
  import opened Common
  import opened TextRules
  import opened Numerals
  import opened Slices

  type Path = string

  datatype Scheme = GhsThreeDigit | GhsFiveDigit | CnsNumericExtension

  datatype SpanError = InvalidSpanSet

  /**
   * What paths and names mean: a path's stem and extension where they are valid Unicode, upper-casing,
   * and the order of two names that breaks ties between equal sequence numbers.
   */
  datatype Names = Names(stem: Path -> Option<string>, extension: Path -> Option<string>,
                         upper: string -> string, before: (Path, Path) -> bool)

  datatype Candidate = Candidate(path: Path, sequence: nat, scheme: Scheme)

  /** What one file of the directory is to the primary. */
  datatype Role = Unrelated | Unsupported | Span(candidate: Candidate)

  // ----- names -----

  predicate NamesEqual(names: Names, left: string, right: string) {
    names.upper(left) == names.upper(right)
  }

  function Take5(s: string): (r: string) {
    if |s| <= 5 then s else s[..5]
  }

  function StripPrefix(names: Names, value: string, prefix: string): Option<string> {
    var at := Min(|prefix|, |value|);
    if NamesEqual(names, value[..at], prefix) then Some(value[at..]) else None
  }

  /** `parse::<u32>` on digits. */
  function ParseSequence(digits: string): Option<nat>
    requires AllDigits(digits)
  {
    if digits != [] && Number(digits) <= U32_MAX then Some(Number(digits)) else None
  }

  function Numbered(path: Path, digits: string, scheme: Scheme): Role
    requires AllDigits(digits)
  {
    match ParseSequence(digits)
    case Some(n) => Span(Candidate(path, n, scheme))
    case None => Unsupported
  }

  function RoleOf(names: Names, primary: Path, primaryStem: string, file: Path): Role {
    if file == primary || names.extension(file).None? || names.stem(file).None? then Unrelated
    else
      var extension, stem := names.extension(file).value, names.stem(file).value;
      if EqIgnoreAsciiCase(extension, "ghs") then
        match StripPrefix(names, stem, Take5(primaryStem))
        case None => Unrelated
        case Some(digits) =>
          if digits == [] || !AllDigits(digits) then Unrelated
          else if |digits| == 3 then Numbered(file, digits, GhsThreeDigit)
          else if |digits| == 5 then Numbered(file, digits, GhsFiveDigit)
          else Unsupported
      else if |extension| == 3 && AllDigits(extension) && NamesEqual(names, stem, primaryStem) then
        Numbered(file, extension, CnsNumericExtension)
      else Unrelated
  }

  /** Another primary that a span set of this scheme could as well belong to. */
  predicate Rejects(names: Names, primary: Path, primaryStem: string, scheme: Scheme, file: Path) {
    && file != primary
    && names.extension(file).Some? && EqIgnoreAsciiCase(names.extension(file).value, "gho")
    && names.stem(file).Some?
    && if scheme == CnsNumericExtension then NamesEqual(names, names.stem(file).value, primaryStem)
       else NamesEqual(names, Take5(names.stem(file).value), Take5(primaryStem))
  }

  // ----- what the names mean -----

  /** A name that begins as the first five characters of the primary's do, up to case, and what follows them. */
  predicate Follows(names: Names, primaryStem: string, stem: string, rest: string) {
    var n := if |primaryStem| < 5 then |primaryStem| else 5;
    var at := if |stem| < n then |stem| else n;
    names.upper(stem[..at]) == names.upper(primaryStem[..n]) && rest == stem[at..]
  }

  /** The candidate a file is, name by name. */
  ghost predicate IsSpan(names: Names, primary: Path, primaryStem: string, file: Path, c: Candidate) {
    && file != primary && c.path == file && names.extension(file) != None && names.stem(file) != None
    && var extension, stem := names.extension(file).value, names.stem(file).value;
       if SameText(extension, "ghs") then
         exists digits ::
           && Follows(names, primaryStem, stem, digits) && AllDigits(digits) && c.sequence == Number(digits)
           && ((|digits| == 3 && c.scheme == GhsThreeDigit) || (|digits| == 5 && c.scheme == GhsFiveDigit))
       else
         && |extension| == 3 && AllDigits(extension) && names.upper(stem) == names.upper(primaryStem)
         && c.sequence == Number(extension) && c.scheme == CnsNumericExtension
  }

  /** A file whose number has a length that no scheme uses. */
  ghost predicate IsUnsupported(names: Names, primary: Path, primaryStem: string, file: Path) {
    && file != primary && names.extension(file) != None && names.stem(file) != None
    && SameText(names.extension(file).value, "ghs")
    && exists digits ::
         && Follows(names, primaryStem, names.stem(file).value, digits) && AllDigits(digits)
         && digits != [] && |digits| != 3 && |digits| != 5
  }

  lemma PrefixFollows(names: Names, primaryStem: string, stem: string, rest: string)
    ensures StripPrefix(names, stem, Take5(primaryStem)) == Some(rest) <==> Follows(names, primaryStem, stem, rest)
  {
    assert Take5(primaryStem) == primaryStem[..if |primaryStem| < 5 then |primaryStem| else 5];
  }

  /** What the role of a file is, in terms of its name. */
  lemma RoleMeans(names: Names, primary: Path, primaryStem: string, file: Path, c: Candidate)
    ensures RoleOf(names, primary, primaryStem, file) == Span(c) <==> IsSpan(names, primary, primaryStem, file, c)
    ensures RoleOf(names, primary, primaryStem, file).Unsupported?
            <==> IsUnsupported(names, primary, primaryStem, file)
  {
    hide EqIgnoreAsciiCase, SameText, AllDigits, Number, StripPrefix, Follows;
    if names.extension(file).Some? && names.stem(file).Some? {
      var extension, stem := names.extension(file).value, names.stem(file).value;
      EqualUpToCase(extension, "ghs");
      forall rest
        ensures StripPrefix(names, stem, Take5(primaryStem)) == Some(rest) <==> Follows(names, primaryStem, stem, rest)
      {
        PrefixFollows(names, primaryStem, stem, rest);
      }
      NumbersAre(extension, file);
      var digits := StripPrefix(names, stem, Take5(primaryStem));
      if digits.Some? {
        NumbersAre(digits.value, file);
      }
    }
  }

  lemma NumbersAre(digits: string, file: Path)
    ensures AllDigits(digits) && (|digits| == 3 || |digits| == 5) ==>
              forall scheme :: Numbered(file, digits, scheme) == Span(Candidate(file, Number(digits), scheme))
  {
    hide Number;
    if AllDigits(digits) && (|digits| == 3 || |digits| == 5) {
      ShortNumbersParse(digits);
    }
  }

  /**
   * Another `.gho` file contests a set numbered by extension when it has the primary's name, up to
   * case, and any other set when its first five characters are the primary's.
   */
  lemma RejectsMeans(names: Names, primary: Path, primaryStem: string, scheme: Scheme, file: Path)
    ensures Rejects(names, primary, primaryStem, scheme, file)
            <==> file != primary && names.extension(file) != None && SameText(names.extension(file).value, "gho")
                 && names.stem(file) != None
                 && var stem := names.stem(file).value;
                    if scheme == CnsNumericExtension then names.upper(stem) == names.upper(primaryStem)
                    else names.upper(if |stem| < 5 then stem else stem[..5])
                         == names.upper(if |primaryStem| < 5 then primaryStem else primaryStem[..5])
  {
    if names.extension(file).Some? {
      EqualUpToCase(names.extension(file).value, "gho");
    }
    hide EqIgnoreAsciiCase, SameText;
    if |primaryStem| == 5 {
      assert primaryStem[..5] == primaryStem;
    }
    if names.stem(file).Some? && |names.stem(file).value| == 5 {
      assert names.stem(file).value[..5] == names.stem(file).value;
    }
  }

  // ----- what a span set is -----

  function Candidates(names: Names, primary: Path, primaryStem: string, files: seq<Path>): (r: seq<Candidate>) {
    if files == [] then []
    else
      var role := RoleOf(names, primary, primaryStem, files[|files| - 1]);
      Candidates(names, primary, primaryStem, files[..|files| - 1]) + if role.Span? then [role.candidate] else []
  }

  /** The candidates in the order of their numbers, which run from `from` without gap or repetition. */
  predicate RunsFrom(order: seq<Candidate>, from: nat) {
    forall i :: 0 <= i < |order| ==> order[i].sequence == from + i
  }

  ghost predicate Arranges(order: seq<Candidate>, candidates: seq<Candidate>) {
    multiset(order) == multiset(candidates) && RunsFrom(order, 1)
  }

  predicate OneScheme(candidates: seq<Candidate>) {
    forall i, j :: 0 <= i < |candidates| && 0 <= j < |candidates| ==> candidates[i].scheme == candidates[j].scheme
  }

  /** The files hold a complete span set: nothing unsupported, one scheme, one primary, numbered 1 to n. */
  ghost predicate Complete(names: Names, primary: Path, files: seq<Path>) {
    && names.stem(primary).Some?
    && var stem := names.stem(primary).value;
       var found := Candidates(names, primary, stem, files);
       && (forall f :: f in files ==> !RoleOf(names, primary, stem, f).Unsupported?)
       && OneScheme(found)
       && (found != [] ==> forall f :: f in files ==> !Rejects(names, primary, stem, found[0].scheme, f))
       && exists order :: Arranges(order, found)
  }

  function Paths(order: seq<Candidate>): (r: seq<Path>)
    ensures |r| == |order| && forall i :: 0 <= i < |r| ==> r[i] == order[i].path
  {
    seq(|order|, i requires 0 <= i < |order| => order[i].path)
  }

  /** What `discover_ghost_spans` answers. */
  ghost predicate Outcome(names: Names, primary: Path, files: seq<Path>, r: Result<seq<Path>, SpanError>) {
    && (r.Ok? <==> Complete(names, primary, files))
    && (r.Ok? ==> exists order :: Arranges(order, Candidates(names, primary, names.stem(primary).value, files))
                                  && r.value == Paths(order))
  }

  // ----- sorting -----

  predicate SortsBefore(names: Names, a: Candidate, b: Candidate) {
    a.sequence < b.sequence || (a.sequence == b.sequence && names.before(a.path, b.path))
  }

  predicate Ascending(s: seq<Candidate>) {
    forall i, j :: 0 <= i < j < |s| ==> s[i].sequence <= s[j].sequence
  }

  function Inserted(names: Names, c: Candidate, s: seq<Candidate>): (r: seq<Candidate>)
    ensures |r| == |s| + 1
  {
    if s == [] || SortsBefore(names, c, s[0]) then [c] + s else [s[0]] + Inserted(names, c, s[1..])
  }

  function Sorted(names: Names, s: seq<Candidate>): (r: seq<Candidate>)
    ensures |r| == |s|
  {
    if s == [] then [] else Inserted(names, s[0], Sorted(names, s[1..]))
  }

  lemma {:induction false} InsertedKeeps(names: Names, c: Candidate, s: seq<Candidate>)
    ensures multiset(Inserted(names, c, s)) == multiset(s) + multiset{c}
  {
    if s != [] {
      assert s == [s[0]] + s[1..];
      if !SortsBefore(names, c, s[0]) {
        InsertedKeeps(names, c, s[1..]);
      }
    }
  }

  lemma {:induction false} InsertedSorts(names: Names, c: Candidate, s: seq<Candidate>)
    requires Ascending(s)
    ensures Ascending(Inserted(names, c, s))
  {
    if s != [] && !SortsBefore(names, c, s[0]) {
      InsertedSorts(names, c, s[1..]);
      InsertedKeeps(names, c, s[1..]);
      var rest := Inserted(names, c, s[1..]);
      forall i | 0 <= i < |rest|
        ensures s[0].sequence <= rest[i].sequence
      {
        assert rest[i] in multiset(rest);
        assert rest[i] == c || rest[i] in s[1..];
      }
    }
  }

  lemma {:induction false} SortedSorts(names: Names, s: seq<Candidate>)
    ensures Ascending(Sorted(names, s)) && multiset(Sorted(names, s)) == multiset(s)
  {
    if s != [] {
      SortedSorts(names, s[1..]);
      InsertedSorts(names, s[0], Sorted(names, s[1..]));
      InsertedKeeps(names, s[0], Sorted(names, s[1..]));
      assert s == [s[0]] + s[1..];
    }
  }

  lemma FirstsAgree(sorted: seq<Candidate>, order: seq<Candidate>, from: nat)
    requires Ascending(sorted) && RunsFrom(order, from) && multiset(sorted) == multiset(order) && order != []
              && sorted != []
    ensures sorted[0] == order[0]
  {
    assert sorted[0] in multiset(order) && order[0] in multiset(sorted);
    var j :| 0 <= j < |order| && order[j] == sorted[0];
    var k :| 0 <= k < |sorted| && sorted[k] == order[0];
    assert sorted[0].sequence <= sorted[k].sequence;
  }

  /** An ascending list is the only arrangement of its elements, whatever broke its ties. */
  lemma {:induction false} ArrangementIsUnique(sorted: seq<Candidate>, order: seq<Candidate>, from: nat)
    requires Ascending(sorted) && RunsFrom(order, from) && multiset(sorted) == multiset(order)
    ensures sorted == order
  {
    assert |sorted| == |multiset(sorted)| && |order| == |multiset(order)|;
    if order != [] {
      FirstsAgree(sorted, order, from);
      DropFirst(sorted);
      DropFirst(order);
      ArrangementIsUnique(sorted[1..], order[1..], from + 1);
    }
  }

  // ----- order of the directory listing -----

  function RoleCandidates(role: Role): (r: multiset<Candidate>) {
    if role.Span? then multiset{role.candidate} else multiset{}
  }

  lemma CandidatesEnd(names: Names, primary: Path, stem: string, files: seq<Path>, file: Path)
    ensures multiset(Candidates(names, primary, stem, files + [file]))
         == multiset(Candidates(names, primary, stem, files)) + RoleCandidates(RoleOf(names, primary, stem, file))
  {
    hide RoleOf;
    assert (files + [file])[..|files|] == files;
  }

  lemma {:induction false} CandidatesAt(
    names: Names, primary: Path, stem: string, front: seq<Path>, file: Path, back: seq<Path>)
    ensures multiset(Candidates(names, primary, stem, front + [file] + back))
         == multiset(Candidates(names, primary, stem, front + back))
             + RoleCandidates(RoleOf(names, primary, stem, file))
    decreases |back|
  {
    hide RoleOf, Candidates, RoleCandidates;
    if back == [] {
      assert front + [file] + back == front + [file] && front + back == front;
      CandidatesEnd(names, primary, stem, front, file);
    } else {
      var init, last := back[..|back| - 1], back[|back| - 1];
      assert back == init + [last];
      assert front + [file] + back == front + [file] + init + [last];
      assert front + back == front + init + [last];
      CandidatesAt(names, primary, stem, front, file, init);
      CandidatesEnd(names, primary, stem, front + [file] + init, last);
      CandidatesEnd(names, primary, stem, front + init, last);
    }
  }

  /** The candidates found do not depend on the order of the files. */
  lemma {:induction false} CandidatesOfPermutation(
    names: Names, primary: Path, stem: string, xs: seq<Path>, ys: seq<Path>)
    requires multiset(xs) == multiset(ys)
    ensures multiset(Candidates(names, primary, stem, xs)) == multiset(Candidates(names, primary, stem, ys))
    decreases |xs|
  {
    hide RoleOf, Candidates, RoleCandidates;
    assert |xs| == |multiset(xs)| && |ys| == |multiset(ys)|;
    if xs != [] {
      var file := xs[0];
      assert file in multiset(ys);
      var at :| 0 <= at < |ys| && ys[at] == file;
      TakeOut(ys, at);
      TakeOut(xs, 0);
      CandidatesOfPermutation(names, primary, stem, xs[..0] + xs[1..], ys[..at] + ys[at + 1..]);
      CandidatesAt(names, primary, stem, ys[..at], file, ys[at + 1..]);
      CandidatesAt(names, primary, stem, xs[..0], file, xs[1..]);
    } else {
      assert ys == [];
    }
  }

  lemma SameFiles(xs: seq<Path>, ys: seq<Path>)
    requires multiset(xs) == multiset(ys)
    ensures forall f :: f in xs <==> f in ys
  {
    forall f
      ensures f in xs <==> f in ys
    {
      assert f in xs <==> f in multiset(xs);
      assert f in ys <==> f in multiset(ys);
    }
  }

  lemma OneSchemeOfPermutation(xs: seq<Candidate>, ys: seq<Candidate>)
    requires multiset(xs) == multiset(ys) && OneScheme(xs)
    ensures OneScheme(ys) && |xs| == |ys| && (xs != [] ==> xs[0].scheme == ys[0].scheme)
  {
    assert |xs| == |multiset(xs)| && |ys| == |multiset(ys)|;
    forall i | 0 <= i < |ys|
      ensures ys[i].scheme == xs[0].scheme
    {
      assert ys[i] in multiset(ys);
      assert ys[i] in xs;
    }
  }

  lemma CompleteForPermutation(names: Names, primary: Path, xs: seq<Path>, ys: seq<Path>)
    requires multiset(xs) == multiset(ys) && Complete(names, primary, xs)
    ensures Complete(names, primary, ys)
  {
    hide RoleOf, Rejects;
    var stem := names.stem(primary).value;
    SameFiles(xs, ys);
    CandidatesOfPermutation(names, primary, stem, xs, ys);
    OneSchemeOfPermutation(Candidates(names, primary, stem, xs), Candidates(names, primary, stem, ys));
    var order :| Arranges(order, Candidates(names, primary, stem, xs));
    assert Arranges(order, Candidates(names, primary, stem, ys));
  }

  /** Success and the list of spans do not depend on the order in which the directory lists its files. */
  lemma DiscoveryIgnoresOrder(names: Names, primary: Path, xs: seq<Path>, ys: seq<Path>,
                              rx: Result<seq<Path>, SpanError>, ry: Result<seq<Path>, SpanError>)
    requires multiset(xs) == multiset(ys) && Outcome(names, primary, xs, rx) && Outcome(names, primary, ys, ry)
    ensures rx == ry
  {
    hide RoleOf, Rejects;
    if Complete(names, primary, xs) {
      CompleteForPermutation(names, primary, xs, ys);
      var stem := names.stem(primary).value;
      CandidatesOfPermutation(names, primary, stem, xs, ys);
      var x :| Arranges(x, Candidates(names, primary, stem, xs)) && rx.value == Paths(x);
      var y :| Arranges(y, Candidates(names, primary, stem, ys)) && ry.value == Paths(y);
      ArrangementIsUnique(x, y, 1);
    } else if Complete(names, primary, ys) {
      CompleteForPermutation(names, primary, ys, xs);
    } else {
      assert rx.error.InvalidSpanSet? && ry.error.InvalidSpanSet?;
    }
  }

  // ----- discover_ghost_spans -----

  /** Three or five digits always fit a sequence number. */
  lemma ShortNumbersParse(digits: string)
    requires AllDigits(digits) && (|digits| == 3 || |digits| == 5)
    ensures ParseSequence(digits).Some?
  {
    NumberBound(digits, |digits|);
  }

  method FindRejecting(
    names: Names, primary: Path, primaryStem: string, scheme: Scheme, files: seq<Path>) returns (found: bool)
    ensures found <==> exists f :: f in files && Rejects(names, primary, primaryStem, scheme, f)
  {
    for i := 0 to |files|
      invariant forall j :: 0 <= j < i ==> !Rejects(names, primary, primaryStem, scheme, files[j])
    {
      if Rejects(names, primary, primaryStem, scheme, files[i]) {
        return true;
      }
    }
    return false;
  }

  /** The loop over the files; none when one of them has an unsupported number. */
  method CollectCandidates(
    names: Names, primary: Path, stem: string, files: seq<Path>) returns (r: Option<seq<Candidate>>)
    ensures r.Some? <==> forall f :: f in files ==> !RoleOf(names, primary, stem, f).Unsupported?
    ensures r.Some? ==> r.value == Candidates(names, primary, stem, files)
  {
    hide RoleOf;
    var candidates: seq<Candidate> := [];
    for i := 0 to |files|
      invariant candidates == Candidates(names, primary, stem, files[..i])
      invariant forall j :: 0 <= j < i ==> !RoleOf(names, primary, stem, files[j]).Unsupported?
    {
      assert files[..i + 1][..i] == files[..i];
      match RoleOf(names, primary, stem, files[i])
      case Unrelated =>
      case Unsupported =>
        assert files[i] in files;
        return None;
      case Span(candidate) =>
        candidates := candidates + [candidate];
    }
    assert files[..|files|] == files;
    return Some(candidates);
  }

  /** The numbers run from one without gap or repetition. */
  method CheckNumbers(sorted: seq<Candidate>) returns (ok: bool)
    ensures ok <==> RunsFrom(sorted, 1)
  {
    for i := 0 to |sorted|
      invariant forall j :: 0 <= j < i ==> sorted[j].sequence == j + 1
    {
      if sorted[i].sequence != i + 1 {
        return false;
      }
    }
    return true;
  }

  /** Sorting finds the arrangement if there is one. */
  lemma SortedArranges(names: Names, candidates: seq<Candidate>)
    ensures RunsFrom(Sorted(names, candidates), 1) <==> exists order :: Arranges(order, candidates)
    ensures RunsFrom(Sorted(names, candidates), 1) ==> Arranges(Sorted(names, candidates), candidates)
  {
    hide Sorted;
    SortedSorts(names, candidates);
    if RunsFrom(Sorted(names, candidates), 1) {
      assert Arranges(Sorted(names, candidates), candidates);
    }
    if order :| Arranges(order, candidates) {
      ArrangementIsUnique(Sorted(names, candidates), order, 1);
    }
  }

  /** `discover_ghost_spans`. */
  method DiscoverGhostSpans(names: Names, primary: Path, files: seq<Path>) returns (r: Result<seq<Path>, SpanError>)
    ensures Outcome(names, primary, files, r)
  {
    hide RoleOf, Rejects, Sorted, Candidates, RunsFrom, Arranges;
    if names.stem(primary).None? {
      return Err(InvalidSpanSet);
    }
    var stem := names.stem(primary).value;
    var found := CollectCandidates(names, primary, stem, files);
    if found.None? {
      return Err(InvalidSpanSet);
    }
    var candidates := found.value;
    SortedArranges(names, candidates);
    if candidates == [] {
      NothingIsArranged();
      return Ok([]);
    }
    var scheme := candidates[0].scheme;
    if exists i :: 0 <= i < |candidates| && candidates[i].scheme != scheme {
      return Err(InvalidSpanSet);
    }
    var rejected := FindRejecting(names, primary, stem, scheme, files);
    if rejected {
      return Err(InvalidSpanSet);
    }
    var sorted := Sorted(names, candidates);
    var numbered := CheckNumbers(sorted);
    if !numbered {
      return Err(InvalidSpanSet);
    }
    return Ok(Paths(sorted));
  }

  lemma NothingIsArranged()
    ensures Arranges([], []) && Paths([]) == []
  {
  }
}
