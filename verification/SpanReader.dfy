/**
 * One seekable stream over a primary GHO and its continuation files, from crates/gho/src/lib.rs,
 * and the two streams the service builds from the same files.
 */
module SpanReaders {
  import opened Common
  import opened Slices
  import opened GhoContainer

  type File = seq<Byte>

  const I64_MIN: int := -0x8000_0000_0000_0000
  const I64_MAX: int := 0x7FFF_FFFF_FFFF_FFFF

  datatype SeekFrom = FromStart(value: U64) | FromEnd(delta: int) | FromCurrent(delta: int) {
    predicate Valid() {
      !FromStart? ==> I64_MIN <= delta <= I64_MAX
    }
  }

  /** What a file contributes to the stream: all of the primary, and what follows a continuation's header. */
  function Payload(files: seq<File>, i: nat): seq<Byte>
    requires i < |files|
  {
    if i == 0 then files[0]
    else if |files[i]| < HEADER_SIZE then []
    else files[i][HEADER_SIZE..]
  }

  /** The stream as one byte sequence. */
  function Flat(files: seq<File>): seq<Byte> {
    if files == [] then [] else Flat(files[..|files| - 1]) + Payload(files, |files| - 1)
  }

  function StartOf(files: seq<File>, i: nat): nat
    requires i <= |files|
  {
    |Flat(files[..i])|
  }

  predicate ContinuationMatches(primary: File, file: File)
    requires |primary| >= HEADER_SIZE && |file| >= HEADER_SIZE
  {
    U16(file, 0) == FILE_MAGIC && file[2] == 9 && file[3] == primary[3] && file[4..8] == primary[4..8]
  }

  /** The first thing wrong with the files from `i` on. */
  function FileProblem(files: seq<File>, i: nat): Option<GhoError>
    requires files != [] && |files[0]| >= HEADER_SIZE && i <= |files|
    decreases |files| - i
  {
    if i == |files| then None
    else if |files[i]| < HEADER_SIZE then Some(Truncated)
    else if i > 0 && !ContinuationMatches(files[0], files[i]) then Some(SpanMismatch)
    else if StartOf(files, i + 1) > U64_MAX then Some(InvalidRecord)
    else FileProblem(files, i + 1)
  }

  /** Why `SpanReader::new` refuses a list of files. */
  function Problem(files: seq<File>): Option<GhoError> {
    if files == [] || |files[0]| < HEADER_SIZE then Some(Truncated)
    else if U16(files[0], 0) != FILE_MAGIC || files[0][2] != 1 then Some(InvalidMagic)
    else FileProblem(files, 0)
  }

  /** A continuation file as the primary's header asks for one, byte by byte. */
  predicate Continuation(primary: File, file: File) {
    && |primary| >= 512 && |file| >= 512
    && file[..4] == [0xFE, 0xEF, 9, primary[3]] && file[4..8] == primary[4..8]
  }

  /** Which files make a stream, byte by byte: a primary, then continuations of it, no longer than a u64 counts. */
  predicate MakeStream(files: seq<File>) {
    && files != [] && |files[0]| >= 512 && files[0][..3] == [0xFE, 0xEF, 1]
    && (forall i :: 0 < i < |files| ==> Continuation(files[0], files[i]))
    && |Flat(files)| <= U64_MAX
  }

  lemma ContinuationBytes(primary: File, file: File)
    requires |primary| >= HEADER_SIZE && |file| >= HEADER_SIZE
    ensures ContinuationMatches(primary, file) <==> Continuation(primary, file)
  {
    TwoBytes(file, 0, 0xFE, 0xEF);
    assert file[..4] == file[0..2] + [file[2], file[3]];
  }

  lemma {:induction false} FilesMakeStream(files: seq<File>, i: nat)
    requires files != [] && |files[0]| >= HEADER_SIZE && i <= |files|
    ensures FileProblem(files, i) == None
            <==> && (forall k :: i <= k < |files| && k > 0 ==> Continuation(files[0], files[k]))
                 && (i == |files| || |Flat(files)| <= U64_MAX)
    decreases |files| - i
  {
    hide Flat, StartOf, ContinuationMatches, Continuation;
    if i < |files| {
      FilesMakeStream(files, i + 1);
      StartsAscend(files, i + 1, |files|);
      EverythingBefore(files);
      LongEnough(files[0], files[i]);
      if |files[i]| >= HEADER_SIZE {
        ContinuationBytes(files[0], files[i]);
      }
    }
  }

  lemma LongEnough(primary: File, file: File)
    ensures Continuation(primary, file) ==> |file| >= HEADER_SIZE
  {
  }

  lemma ProblemMeans(files: seq<File>)
    ensures Problem(files) == None <==> MakeStream(files)
  {
    hide Flat, FileProblem, Continuation;
    if files != [] && |files[0]| >= HEADER_SIZE {
      FilesMakeStream(files, 0);
      TwoBytes(files[0], 0, 0xFE, 0xEF);
      assert files[0][..3] == files[0][0..2] + [files[0][2]];
    }
  }

  /** The stream, one file at a time: all of the primary, and each continuation without its first 512 bytes. */
  lemma FlatBytes(files: seq<File>, file: File)
    ensures Flat([file]) == file
    ensures files != [] && |file| >= 512 ==> Flat(files + [file]) == Flat(files) + file[512..]
  {
    assert [file][..0] == [];
    assert (files + [file])[..|files|] == files;
  }

  lemma StartOfNext(files: seq<File>, i: nat)
    requires i < |files|
    ensures StartOf(files, i + 1) == StartOf(files, i) + |Payload(files, i)|
  {
    assert files[..i + 1][..i] == files[..i];
  }

  lemma FlatOfPrefix(files: seq<File>, j: nat)
    requires j <= |files|
    ensures Flat(files[..j]) <= Flat(files)
  {
    if j == |files| {
      assert files[..j] == files;
    } else {
      var front := files[..|files| - 1];
      FlatOfPrefix(front, j);
      assert front[..j] == files[..j];
    }
  }

  /** A payload sits in the stream from its start. */
  lemma PayloadInFlat(files: seq<File>, i: nat)
    requires i < |files|
    ensures StartOf(files, i) + |Payload(files, i)| <= |Flat(files)|
    ensures Flat(files)[StartOf(files, i)..StartOf(files, i) + |Payload(files, i)|] == Payload(files, i)
  {
    hide Payload;
    FlatOfPrefix(files, i + 1);
    FlatOfOneMore(files, i);
    hide Flat;
    var before, payload := Flat(files[..i]), Payload(files, i);
    assert Flat(files[..i + 1]) == before + payload;
    assert Flat(files)[..|before + payload|] == before + payload;
  }

  lemma FlatOfOneMore(files: seq<File>, i: nat)
    requires i < |files|
    ensures Flat(files[..i + 1]) == Flat(files[..i]) + Payload(files, i)
  {
    assert files[..i + 1][..i] == files[..i];
    assert Payload(files[..i + 1], i) == Payload(files, i);
  }

  lemma StartsAscend(files: seq<File>, i: nat, j: nat)
    requires i <= j <= |files|
    ensures StartOf(files, i) <= StartOf(files, j)
  {
    if i < j {
      StartsAscend(files, i, j - 1);
      StartOfNext(files, j - 1);
    }
  }

  lemma NothingBefore(files: seq<File>)
    ensures StartOf(files, 0) == 0
  {
    assert files[..0] == [];
  }

  lemma EverythingBefore(files: seq<File>)
    ensures StartOf(files, |files|) == |Flat(files)|
  {
    assert files[..|files|] == files;
  }

  /** How much of a file precedes its payload. */
  function Skipped(i: nat): nat {
    if i == 0 then 0 else HEADER_SIZE
  }

  /** Byte `p` of the stream comes from file `i`. */
  predicate InFile(files: seq<File>, i: nat, p: nat) {
    i < |files| && StartOf(files, i) <= p < StartOf(files, i) + |Payload(files, i)|
  }

  lemma InOneFile(files: seq<File>, i: nat, j: nat, p: nat)
    requires InFile(files, i, p) && InFile(files, j, p)
    ensures i == j
  {
    hide Flat, StartOf, Payload;
    StartOfNext(files, i);
    StartOfNext(files, j);
    if i < j {
      StartsAscend(files, i + 1, j);
    } else if j < i {
      StartsAscend(files, j + 1, i);
    }
  }

  /** Byte `p` of the stream is no longer in its file, of which only so many bytes are present. */
  ghost predicate Lost(files: seq<File>, present: seq<nat>, p: nat)
    requires |present| == |files|
  {
    exists i: nat :: InFile(files, i, p) && Skipped(i) + (p - StartOf(files, i)) >= present[i]
  }

  /** Whether a byte is lost is settled by the one file it comes from. */
  lemma LostIs(files: seq<File>, present: seq<nat>, i: nat, p: nat)
    requires |present| == |files| && InFile(files, i, p)
    ensures Lost(files, present, p) <==> Skipped(i) + (p - StartOf(files, i)) >= present[i]
  {
    hide StartOf, Payload;
    if j: nat :| InFile(files, j, p) && Skipped(j) + (p - StartOf(files, j)) >= present[j] {
      InOneFile(files, i, j, p);
    }
  }

  /** No byte of untouched files is lost. */
  lemma NothingLost(files: seq<File>, present: seq<nat>, p: nat)
    requires |present| == |files| && forall i :: 0 <= i < |files| ==> present[i] == |files[i]|
    ensures !Lost(files, present, p)
  {
    hide Flat, StartOf;
  }

  /** A file ended before the length measured when the stream was opened. */
  datatype ReadError = UnexpectedEof

  class SpanReader {
    const files: seq<File>
    var starts: seq<nat>
    var lengths: seq<nat>
    var position: nat
    var total: nat
    /** How many bytes of each file are still there; another program may cut a file short at any time. */
    var present: seq<nat>

    ghost predicate Valid()
      reads this
    {
      && files != []
      && |starts| == |lengths| == |present| == |files|
      && (forall i :: 0 <= i < |files| ==> starts[i] == StartOf(files, i) && lengths[i] == |Payload(files, i)|)
      && (forall i :: 0 <= i < |files| ==> present[i] <= |files[i]|)
      && total == |Flat(files)| <= U64_MAX
      && position <= total
    }

    ghost predicate Whole()
      reads this
    {
      |present| == |files| && forall i :: 0 <= i < |files| ==> present[i] == |files[i]|
    }

    constructor (files: seq<File>, starts: seq<nat>, lengths: seq<nat>, total: nat)
      requires files != [] && |starts| == |lengths| == |files| && total == |Flat(files)| <= U64_MAX
      requires forall i :: 0 <= i < |files| ==> starts[i] == StartOf(files, i) && lengths[i] == |Payload(files, i)|
      ensures Valid() && Whole() && this.files == files && position == 0
    {
      this.files := files;
      this.starts := starts;
      this.lengths := lengths;
      this.position := 0;
      this.total := total;
      this.present := seq(|files|, i requires 0 <= i < |files| => |files[i]|);
    }

    /** A read of one underlying file; it may be short, and is empty when nothing is left there. */
    method ReadFile(index: nat, from: nat, output: array<Byte>, offset: nat, want: nat) returns (count: nat)
      requires Valid() && index < |files| && 0 < want && from + want <= |files[index]| && offset + want <= output.Length
      modifies output
      ensures count <= want && (count == 0 <==> from >= present[index])
                && (count > 0 ==> from + count <= present[index])
      ensures output[offset..offset + count] == files[index][from..from + count]
      ensures output[..offset] == old(output[..offset])
    {
      var most := if from < present[index] then Min(want, present[index] - from) else 0;
      var least := Min(1, most);
      count :| least <= count <= most;
      forall i | 0 <= i < count {
        output[offset + i] := files[index][from + i];
      }
    }

    /** `partition_point(|start| start <= position)`: how many spans start at or before the position. */
    method PartitionPoint() returns (n: nat)
      requires Valid()
      ensures n <= |starts|
      ensures forall i :: 0 <= i < n ==> starts[i] <= position
      ensures forall i :: n <= i < |starts| ==> position < starts[i]
    {
      var lo, hi := 0, |starts|;
      while lo < hi
        invariant 0 <= lo <= hi <= |starts|
        invariant forall i :: 0 <= i < lo ==> starts[i] <= position
        invariant forall i :: hi <= i < |starts| ==> position < starts[i]
      {
        var mid := (lo + hi) / 2;
        forall i | 0 <= i < |starts|
          ensures i <= mid ==> starts[i] <= starts[mid]
          ensures i >= mid ==> starts[i] >= starts[mid]
        {
          StartsAscend(files, Min(i, mid), Max(i, mid));
        }
        if starts[mid] <= position {
          lo := mid + 1;
        } else {
          hi := mid;
        }
      }
      n := lo;
    }

    /** The span that holds the next byte is the last one starting at or before the position. */
    method Locate() returns (index: nat, relative: nat, available: nat)
      requires Valid() && position < total
      ensures index < |files| && position == StartOf(files, index) + relative
      ensures 0 < available == |Payload(files, index)| - relative
    {
      hide Flat, StartOf, Payload;
      var n := PartitionPoint();
      NothingBefore(files);
      EverythingBefore(files);
      index := n - 1;
      StartOfNext(files, index);
      relative := position - starts[index];
      available := lengths[index] - relative;
    }

    /**
     * Reads at the current position: the next bytes of the flat stream, as many as fit the buffer and
     * are left, however short the reads of the underlying files are. It fails exactly when one of the
     * bytes asked for is lost; what it has then put out is what precedes the first lost one, where the
     * position stays.
     */
    method Read(output: array<Byte>) returns (r: Result<nat, ReadError>)
      requires Valid()
      modifies this`position, output
      ensures Valid()
      ensures var wanted := Min(output.Length, total - old(position));
              && old(position) <= position <= old(position) + wanted
              && output[..position - old(position)] == Flat(files)[old(position)..position]
              && (r.Ok? ==> r.value == wanted && position == old(position) + wanted)
              && (r.Err? ==> position < old(position) + wanted && Lost(files, present, position))
              && (forall p :: old(position) <= p < position ==> !Lost(files, present, p))
      ensures r.Ok? ==> Delivers(Flat(files), old(position), output.Length, output.Length, output[..r.value])
    {
      var written := 0;
      hide Flat, StartOf, Payload, Lost;
      ghost var flat := Flat(files);
      while written < output.Length && position < total
        invariant Valid() && written <= output.Length && position == old(position) + written
        invariant output[..written] == flat[old(position)..position]
        invariant forall p :: old(position) <= p < position ==> !Lost(files, present, p)
        decreases output.Length - written
      {
        var count := ReadSome(output, written);
        if count == 0 {
          return Err(UnexpectedEof);
        }
        assert output[..written + count] == output[..written] + output[written..written + count];
        assert flat[old(position)..position] == flat[old(position)..position - count]
            + flat[position - count..position];
        written := written + count;
      }
      return Ok(written);
    }

    /** One turn of the loop: part of what is left of one file; nothing when the next byte is lost. */
    method ReadSome(output: array<Byte>, written: nat) returns (count: nat)
      requires Valid() && written < output.Length && position < total
      modifies this`position, output
      ensures Valid() && count <= output.Length - written && position == old(position) + count
      ensures count == 0 ==> Lost(files, present, position)
      ensures forall p :: old(position) <= p < position ==> !Lost(files, present, p)
      ensures output[..written] == old(output[..written])
      ensures output[written..written + count] == Flat(files)[old(position)..position]
    {
      hide Flat, StartOf, Payload, Lost;
      var index, relative, available := Locate();
      var wanted := Min(available, output.Length - written);
      StreamSlice(files, index, relative, wanted);
      count := ReadFile(index, Skipped(index) + relative, output, written, wanted);
      if count == 0 {
        LostIs(files, present, index, position);
        return;
      }
      StreamSlice(files, index, relative, count);
      forall p | position <= p < position + count
        ensures !Lost(files, present, p)
      {
        LostIs(files, present, index, p);
      }
      position := position + count;
    }

    /** Moves to a position inside the stream or at its end; anything else is refused and moves nothing. */
    method Seek(to: SeekFrom) returns (r: Option<nat>)
      requires Valid() && to.Valid()
      modifies this`position
      ensures Valid()
      ensures var next := match to
                          case FromStart(v) => v
                          case FromEnd(d) => total + d
                          case FromCurrent(d) => old(position) + d;
              if 0 <= next <= total then r == Some(next) && position == next
              else r == None && position == old(position)
    {
      var next: int;
      match to {
        case FromStart(value) => next := value;
        case FromEnd(delta) => next := total + delta;
        case FromCurrent(delta) => next := position + delta;
      }
      if !(0 <= next <= total) {
        return None;
      }
      position := next;
      return Some(position);
    }
  }

  /** Bytes of one file are the bytes of the stream from that file's start. */
  lemma StreamSlice(files: seq<File>, index: nat, relative: nat, count: nat)
    requires index < |files| && 0 < count && relative + count <= |Payload(files, index)|
    ensures var skipped := Skipped(index);
            var from := StartOf(files, index) + relative;
            && skipped + relative + count <= |files[index]|
            && from + count <= |Flat(files)|
            && files[index][skipped + relative..skipped + relative + count] == Flat(files)[from..from + count]
  {
    hide Flat, Payload, StartOf;
    PayloadInFlat(files, index);
    PayloadSlice(files, index, relative, count);
    var start := StartOf(files, index);
    SliceOfSlice(Flat(files), start, start + |Payload(files, index)|, relative, relative + count);
  }

  lemma PayloadSlice(files: seq<File>, index: nat, relative: nat, count: nat)
    requires index < |files| && 0 < count && relative + count <= |Payload(files, index)|
    ensures var skipped := Skipped(index);
            && skipped + relative + count <= |files[index]|
            && files[index][skipped + relative..skipped + relative + count] ==
                   Payload(files, index)[relative..relative + count]
  {
  }

  /** `SpanReader::new`: checks every header, then presents the files as one stream. */
  method Open(files: seq<File>) returns (problem: Option<GhoError>, reader: SpanReader?)
    ensures problem == Problem(files)
    ensures problem.None? <==> reader != null
    ensures reader != null ==> fresh(reader) && reader.Valid() && reader.Whole()
    ensures reader != null ==> reader.files == files && reader.position == 0
    ensures reader != null <==> MakeStream(files)
  {
    hide Flat, StartOf, ContinuationMatches, MakeStream;
    ProblemMeans(files);
    reader := null;
    if files == [] || |files[0]| < HEADER_SIZE {
      return Some(Truncated), null;
    }
    var primary := files[0];
    if U16(primary, 0) != FILE_MAGIC || primary[2] != 1 {
      return Some(InvalidMagic), null;
    }
    var starts: seq<nat>, lengths: seq<nat>, total: nat := [], [], 0;
    NothingBefore(files);
    for i := 0 to |files|
      invariant |starts| == |lengths| == i && total == StartOf(files, i) <= U64_MAX
      invariant forall k :: 0 <= k < i ==> starts[k] == StartOf(files, k) && lengths[k] == |Payload(files, k)|
      invariant FileProblem(files, 0) == FileProblem(files, i)
    {
      var skipped := Skipped(i);
      if |files[i]| < HEADER_SIZE {
        return Some(Truncated), null;
      }
      if i > 0 && !ContinuationMatches(primary, files[i]) {
        return Some(SpanMismatch), null;
      }
      StartOfNext(files, i);
      var length := |files[i]| - skipped;
      starts := starts + [total];
      lengths := lengths + [length];
      if total + length > U64_MAX {
        return Some(InvalidRecord), null;
      }
      total := total + length;
    }
    EverythingBefore(files);
    reader := new SpanReader(files, starts, lengths, total);
    problem := None;
  }

  // ----- the streams the service sends and hashes -----

  const HASH_BUFFER: nat := 0x10_0000

  /** A read that fills its buffer delivers whatever minimum is asked of it. */
  lemma FullReadsMeetAnyMinimum(data: seq<Byte>, pos: nat, want: nat, minimum: nat, bytes: seq<Byte>)
    requires Delivers(data, pos, want, want, bytes)
    ensures Delivers(data, pos, want, minimum, bytes)
  {
  }

  /**
   * `hash_gho_deployment_stream`: the bytes the digest sees, in order. All of them, or the read error
   * of a file that was cut short.
   */
  method HashedBytes(reader: SpanReader) returns (r: Result<seq<Byte>, ReadError>)
    requires reader.Valid() && reader.position == 0
    modifies reader`position
    ensures r.Ok? ==> r.value == Flat(reader.files)
    ensures r.Err? <==> exists p :: 0 <= p < reader.total && Lost(reader.files, reader.present, p)
    ensures reader.Whole() ==> r.Ok?
  {
    var buffer := new Byte[HASH_BUFFER](_ => 0);
    var bytes: seq<Byte> := [];
    hide Flat, StartOf, Payload;
    while true
      invariant reader.Valid() && bytes == Flat(reader.files)[..reader.position]
      invariant forall p :: 0 <= p < reader.position ==> !Lost(reader.files, reader.present, p)
      decreases reader.total - reader.position
    {
      ghost var from := reader.position;
      var count := reader.Read(buffer);
      if count.Err? {
        if reader.Whole() {
          NothingLost(reader.files, reader.present, reader.position);
        }
        return Err(count.error);
      }
      if count.value == 0 {
        break;
      }
      bytes := bytes + buffer[..count.value];
      assert Flat(reader.files)[..reader.position] == Flat(reader.files)[..from]
          + Flat(reader.files)[from..reader.position];
    }
    return Ok(bytes);
  }

  /** A file from byte 512 on; a seek past its end leaves nothing to read. */
  function AfterHeader(file: File): seq<Byte> {
    if |file| <= HEADER_SIZE then [] else file[HEADER_SIZE..]
  }

  /** The reader `download_job_image` builds: the primary, then each span chained behind it. */
  function Chained(stream: seq<Byte>, spans: seq<File>): seq<Byte>
    decreases |spans|
  {
    if spans == [] then stream else Chained(stream + AfterHeader(spans[0]), spans[1..])
  }

  lemma {:induction false} ChainFollowsFlat(files: seq<File>, i: nat)
    requires 1 <= i <= |files|
    ensures Chained(Flat(files[..i]), files[i..]) == Flat(files)
    decreases |files| - i
  {
    hide Flat, Payload, AfterHeader;
    if i == |files| {
      assert files[..i] == files;
    } else {
      FlatOfOneMore(files, i);
      PayloadIsAfterHeader(files, i);
      assert files[i..][1..] == files[i + 1..];
      ChainFollowsFlat(files, i + 1);
    }
  }

  lemma PayloadIsAfterHeader(files: seq<File>, i: nat)
    requires 1 <= i < |files|
    ensures Payload(files, i) == AfterHeader(files[i])
  {
  }

  /** An agent downloads exactly the bytes that were hashed when the image was verified. */
  lemma DownloadIsTheHashedStream(files: seq<File>)
    requires Problem(files).None?
    ensures Chained(files[0], files[1..]) == Flat(files)
  {
    assert files[..1][..0] == [];
    assert Flat(files[..1]) == files[0];
    ChainFollowsFlat(files, 1);
  }
}
