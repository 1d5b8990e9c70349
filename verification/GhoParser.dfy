/** Splitting a GHO image into partitions and their data spans, from crates/gho/src/lib.rs. */
module GhoParser {
  import opened Common
  import opened Bits
  import opened GhoContainer

  type Span = (nat, nat)

  /** `map_or(file_len, ..)`: where the next record starts, or the end of the file. */
  function NextRecordOrEnd(data: seq<Byte>, from: nat): (e: nat)
    requires from <= |data|
    ensures from <= e <= |data|
    ensures forall k :: from <= k < e ==> !RecordAt(data, k, |data|)
    ensures e < |data| ==> RecordAt(data, e, |data|)
  {
    var r := FirstRecord(data, from, |data|);
    if r.Some? then r.value.offset else |data|
  }

  predicate HasFileMagic(data: seq<Byte>, at: nat)
    requires at + 2 <= |data|
  {
    U16(data, at) == FILE_MAGIC
  }

  /** Where a continuation's data begins: after its own header, if it has one. */
  function ContinuationStart(data: seq<Byte>, bodyEnd: nat): (s: nat)
    requires bodyEnd <= |data|
    ensures bodyEnd <= s <= |data|
  {
    if bodyEnd + HEADER_SIZE <= |data| && HasFileMagic(data, bodyEnd) then bodyEnd + HEADER_SIZE else bodyEnd
  }

  /** A continuation's own header is skipped exactly when it is there, all 512 bytes of it. */
  lemma ContinuationStartMeans(data: seq<Byte>, bodyEnd: nat)
    requires bodyEnd <= |data|
    ensures ContinuationStart(data, bodyEnd)
            == if bodyEnd + 512 <= |data| && data[bodyEnd..bodyEnd + 2] == [0xFE, 0xEF] then bodyEnd + 512 else bodyEnd
  {
    if bodyEnd + HEADER_SIZE <= |data| {
      FileMagicBytes(data, bodyEnd);
      hide HasFileMagic;
    }
  }

  function WithSpan(parts: seq<Partition>, span: Span): seq<Partition>
    requires parts != []
  {
    var last := parts[|parts| - 1];
    parts[..|parts| - 1] + [Partition(last.spans + [span])]
  }

  /** What the first record at or after an offset asks for: an answer, new data, more data, or nothing. */
  datatype WalkStep =
    | Stop(answer: Result<seq<Partition>, GhoError>)
    | Open(start: nat)
    | Continue(start: nat)
    | Skip(to: nat)

  function StepAt(data: seq<Byte>, offset: nat, parts: seq<Partition>): (step: WalkStep)
    requires offset < |data|
    ensures step.Open? || step.Continue? ==> offset < step.start <= |data|
    ensures step.Continue? ==> parts != []
    ensures step.Stop? && step.answer.Ok? ==> step.answer.value == parts
    ensures step.Skip? ==> offset < step.to <= |data|
  {
    var found := FirstRecord(data, offset, |data|);
    if found.None? then Stop(Ok(parts))
    else
      var bodyEnd := found.value.offset + RECORD_HEADER_SIZE + found.value.bodyLength;
      if bodyEnd > |data| then Stop(Err(Truncated))
      else if found.value.kind == 0x0603 then
        if bodyEnd + HEADER_SIZE > |data| then Stop(Err(Truncated))
        else if !HasFileMagic(data, bodyEnd) then Stop(Err(InvalidMagic))
        else Open(bodyEnd + HEADER_SIZE)
      else if found.value.kind == 0x0703 then
        if parts == [] then Stop(Err(InvalidRecord)) else Continue(ContinuationStart(data, bodyEnd))
      else if found.value.kind == 0x0023 then Stop(Ok(parts))
      else Skip(bodyEnd)
  }

  /** The partitions after the step's data, which ends at `end`, has been added. */
  function Extended(parts: seq<Partition>, step: WalkStep, end: nat): seq<Partition>
    requires step.Open? || (step.Continue? && parts != [])
  {
    if step.Open? then parts + [Partition([(step.start, end)])] else WithSpan(parts, (step.start, end))
  }

  /** The record walk of `parse` from `offset`, with the partitions found so far. */
  function Walk(data: seq<Byte>, offset: nat, parts: seq<Partition>): Result<seq<Partition>, GhoError>
    decreases |data| - offset
  {
    if offset >= |data| then Ok(parts)
    else
      var step := StepAt(data, offset, parts);
      match step
      case Stop(answer) => answer
      case Skip(to) => Walk(data, to, parts)
      case _ =>
        var end := NextRecordOrEnd(data, step.start);
        Walk(data, end, Extended(parts, step, end))
  }

  /** What the record walk may answer when any search for a record may give up and find none. */
  ghost predicate MayWalk(data: seq<Byte>, offset: nat, parts: seq<Partition>, r: Result<seq<Partition>, GhoError>)
    decreases |data| - offset
  {
    || r == Ok(parts)
    || (offset < |data| &&
        var step := StepAt(data, offset, parts);
        match step
        case Stop(answer) => r == answer
        case Skip(to) => MayWalk(data, to, parts, r)
        case _ =>
          var end := NextRecordOrEnd(data, step.start);
          || MayWalk(data, end, Extended(parts, step, end), r)
          || r == Ok(Extended(parts, step, |data|)))
  }

  function CompressionOf(tag: Byte): Option<Compression> {
    if tag == 0 then Some(Stored)
    else if tag == 2 then Some(Fast)
    else if 3 <= tag <= 9 then Some(High(tag))
    else if tag == 10 then Some(High(9))
    else None
  }

  /** What the first 512 bytes must say. */
  function HeaderProblem(data: seq<Byte>): Option<GhoError> {
    if |data| < HEADER_SIZE then Some(Truncated)
    else if !HasFileMagic(data, 0) then Some(InvalidMagic)
    else if data[2] != 1 then Some(SpannedUnsupported)
    else if data[12] / 2 % 2 == 1 then Some(EncryptedUnsupported)
    else if CompressionOf(data[3]).None? then Some(UnsupportedCompression(data[3]))
    else None
  }

  /** How an image says its blocks are compressed. */
  predicate SaysCompression(tag: Byte, c: Compression) {
    && (tag == 0 <==> c == Stored) && (tag == 2 <==> c == Fast)
    && (3 <= tag <= 9 ==> c == High(tag)) && (tag == 10 ==> c == High(9)) && tag != 1 && tag <= 10
  }

  lemma CompressionIsSaid(tag: Byte)
    ensures CompressionOf(tag).Some? <==> tag == 0 || 2 <= tag <= 10
    ensures CompressionOf(tag).Some? ==> SaysCompression(tag, CompressionOf(tag).value)
  {
  }

  lemma FileMagicBytes(data: seq<Byte>, at: nat)
    requires at + 2 <= |data|
    ensures HasFileMagic(data, at) <==> data[at..at + 2] == [0xFE, 0xEF]
  {
    TwoBytes(data, at, 0xFE, 0xEF);
  }

  /**
   * An acceptable header, byte by byte: FE EF 01, a known compression, and bit 1 of byte 12, which
   * says that the image is encrypted, is clear.
   */
  lemma AcceptableHeader(data: seq<Byte>)
    ensures HeaderProblem(data).None?
            <==> |data| >= 512 && data[..3] == [0xFE, 0xEF, 0x01] && (data[3] == 0 || 2 <= data[3] <= 10)
                 && !Bit(data[12], 1)
  {
    if |data| >= HEADER_SIZE {
      FileMagicBytes(data, 0);
      CompressionIsSaid(data[3]);
      assert data[..3] == data[0..2] + [data[2]];
      assert Bit(data[12], 1) <==> Bit(data[12] / 2, 0);
    }
  }

  /** The checks of `parse` after its record walk. */
  function Finished(data: seq<Byte>, walked: Result<seq<Partition>, GhoError>): Result<(seq<Partition>, Info), GhoError>
    requires HeaderProblem(data).None?
  {
    if walked.Err? then Err(walked.error)
    else if |walked.value| > U32_MAX then Err(InvalidRecord)
    else if walked.value == [] then Err(PartitionCount(0))
    else Ok((walked.value, Info(CompressionOf(data[3]).value, |walked.value|)))
  }

  /** `parse`, as it reads a file whose reads are never cut below a record header. */
  function Parsed(data: seq<Byte>): Result<(seq<Partition>, Info), GhoError> {
    if HeaderProblem(data).Some? then Err(HeaderProblem(data).value)
    else Finished(data, Walk(data, HEADER_SIZE, []))
  }

  /** What `parse` may answer for any reader. */
  ghost predicate MayParse(data: seq<Byte>, r: Result<(seq<Partition>, Info), GhoError>) {
    if HeaderProblem(data).Some? then r == Err(HeaderProblem(data).value)
    else exists walked :: MayWalk(data, HEADER_SIZE, [], walked) && r == Finished(data, walked)
  }

  // ----- the parser -----

  method ReadMagic(reader: Reader, at: nat) returns (magic: bool)
    requires reader.Reads() && at + 2 <= |reader.data|
    modifies reader
    ensures magic == HasFileMagic(reader.data, at)
  {
    var buffer := new Byte[2](_ => 0);
    reader.Seek(at);
    var ok := reader.ReadExact(buffer, 2);
    assert buffer[..2] == reader.data[at..at + 2];
    assert buffer[0] == buffer[..2][0] && buffer[1] == buffer[..2][1];
    magic := buffer[0] as int + 256 * (buffer[1] as int) == FILE_MAGIC;
  }

  method FindDataEnd(reader: Reader, from: nat) returns (e: nat, ghost gaveUp: bool)
    requires reader.Reads() && from <= |reader.data|
    modifies reader
    ensures e == if gaveUp then |reader.data| else NextRecordOrEnd(reader.data, from)
    ensures gaveUp ==> reader.minimum < RECORD_HEADER_SIZE
  {
    var next: Option<Record>;
    next, gaveUp := FindRecord(reader, from, |reader.data|);
    e := if next.Some? then next.value.offset else |reader.data|;
  }

  method FindContinuation(reader: Reader, bodyEnd: nat) returns (dataStart: nat)
    requires reader.Reads() && bodyEnd <= |reader.data|
    modifies reader
    ensures dataStart == ContinuationStart(reader.data, bodyEnd)
  {
    dataStart := bodyEnd;
    if dataStart + HEADER_SIZE <= |reader.data| {
      var magic := ReadMagic(reader, dataStart);
      if magic {
        dataStart := dataStart + HEADER_SIZE;
      }
    }
  }

  lemma OneStep(data: seq<Byte>, offset: nat, parts: seq<Partition>)
    requires offset < |data|
    ensures MayWalk(data, offset, parts, Ok(parts))
    ensures StepAt(data, offset, parts).Stop? ==>
              Walk(data, offset, parts) == StepAt(data, offset, parts).answer
              && MayWalk(data, offset, parts, StepAt(data, offset, parts).answer)
    ensures StepAt(data, offset, parts).Skip? ==>
              Walk(data, offset, parts) == Walk(data, StepAt(data, offset, parts).to, parts)
              && forall w :: MayWalk(data, StepAt(data, offset, parts).to, parts, w) ==> MayWalk(data, offset, parts, w)
    ensures StepAt(data, offset, parts).Open? || StepAt(data, offset, parts).Continue? ==>
              var step := StepAt(data, offset, parts);
              var end := NextRecordOrEnd(data, step.start);
              && Walk(data, offset, parts) == Walk(data, end, Extended(parts, step, end))
              && (forall w :: MayWalk(data, end, Extended(parts, step, end), w) ==> MayWalk(data, offset, parts, w))
              && MayWalk(data, offset, parts, Ok(Extended(parts, step, |data|)))
  {
    hide StepAt, NextRecordOrEnd, Extended;
  }

  lemma WalkEnds(data: seq<Byte>, offset: nat, parts: seq<Partition>)
    ensures MayWalk(data, offset, parts, Ok(parts))
    ensures offset >= |data| ==> Walk(data, offset, parts) == Ok(parts)
    ensures offset >= |data| ==> forall w :: MayWalk(data, offset, parts, w) ==> w == Ok(parts)
  {
    hide StepAt, NextRecordOrEnd, Extended;
  }

  /**
   * The record loop of `parse`, for any reader. The sums are below 2^64, so the source's overflow
   * checks never fail.
   */
  method WalkRecords(reader: Reader) returns (r: Result<seq<Partition>, GhoError>)
    requires reader.Reads() && HEADER_SIZE <= |reader.data| <= MAX_FILE
    modifies reader
    ensures MayWalk(reader.data, HEADER_SIZE, [], r)
    ensures reader.minimum >= RECORD_HEADER_SIZE ==> r == Walk(reader.data, HEADER_SIZE, [])
  {
    hide FirstRecord, RecordAt, HasFileMagic, NextRecordOrEnd, ContinuationStart, WithSpan, Walk, MayWalk;
    var data := reader.data;
    var fileLen := |data|;
    var parts: seq<Partition> := [];
    var offset := HEADER_SIZE;
    ghost var gaveUp := false;
    while offset < fileLen
      invariant forall w :: MayWalk(data, offset, parts, w) ==> MayWalk(data, HEADER_SIZE, [], w)
      invariant gaveUp ==> reader.minimum < RECORD_HEADER_SIZE && offset == fileLen
      invariant !gaveUp ==> Walk(data, HEADER_SIZE, []) == Walk(data, offset, parts)
      decreases fileLen - offset
    {
      OneStep(data, offset, parts);
      var found: Option<Record>;
      found, gaveUp := FindRecord(reader, offset, fileLen);
      if found.None? {
        break;
      }
      var bodyEnd := found.value.offset + RECORD_HEADER_SIZE + found.value.bodyLength;
      assert bodyEnd <= U64_MAX by {
        BodyLengthIsU16(data, offset);
      }
      if bodyEnd > fileLen {
        return Err(Truncated);
      }
      if found.value.kind == 0x0603 {
        var dataStart := bodyEnd + HEADER_SIZE;
        if dataStart > fileLen {
          return Err(Truncated);
        }
        var magic := ReadMagic(reader, bodyEnd);
        if !magic {
          return Err(InvalidMagic);
        }
        var dataEnd: nat;
        dataEnd, gaveUp := FindDataEnd(reader, dataStart);
        parts := parts + [Partition([(dataStart, dataEnd)])];
        WalkEnds(data, fileLen, parts);
        offset := dataEnd;
      } else if found.value.kind == 0x0703 {
        var dataStart := FindContinuation(reader, bodyEnd);
        var dataEnd: nat;
        dataEnd, gaveUp := FindDataEnd(reader, dataStart);
        if parts == [] {
          return Err(InvalidRecord);
        }
        parts := WithSpan(parts, (dataStart, dataEnd));
        WalkEnds(data, fileLen, parts);
        offset := dataEnd;
      } else if found.value.kind == 0x0023 {
        break;
      } else {
        offset := bodyEnd;
      }
    }
    WalkEnds(data, offset, parts);
    return Ok(parts);
  }

  lemma BodyLengthIsU16(data: seq<Byte>, offset: nat)
    ensures FirstRecord(data, offset, |data|).Some? ==>
              && FirstRecord(data, offset, |data|).value.bodyLength < 0x1_0000
              && FirstRecord(data, offset, |data|).value.offset < |data|
  {
  }

  /** `parse`, for any reader. */
  method Parse(reader: Reader) returns (r: Result<(seq<Partition>, Info), GhoError>)
    requires reader.Reads() && |reader.data| <= MAX_FILE
    modifies reader
    ensures MayParse(reader.data, r)
    ensures reader.minimum >= RECORD_HEADER_SIZE ==> r == Parsed(reader.data)
    ensures r.Ok? ==>
              && |reader.data| >= 512 && reader.data[..3] == [0xFE, 0xEF, 0x01] && !Bit(reader.data[12], 1)
              && SaysCompression(reader.data[3], r.value.1.compression)
  {
    hide Walk, MayWalk, Bit;
    AcceptableHeader(reader.data);
    var data := reader.data;
    if |data| < HEADER_SIZE {
      return Err(Truncated);
    }
    reader.Seek(0);
    var header := new Byte[HEADER_SIZE](_ => 0);
    var ok := reader.ReadExact(header, HEADER_SIZE);
    assert header[..HEADER_SIZE] == data[..HEADER_SIZE];
    assert forall i :: 0 <= i < HEADER_SIZE ==> header[i] == header[..HEADER_SIZE][i] == data[i];
    if header[0] as int + 256 * (header[1] as int) != FILE_MAGIC {
      return Err(InvalidMagic);
    }
    if header[2] != 1 {
      return Err(SpannedUnsupported);
    }
    if header[12] / 2 % 2 == 1 {
      return Err(EncryptedUnsupported);
    }
    CompressionIsSaid(header[3]);
    var compression := CompressionOf(header[3]);
    if compression.None? {
      return Err(UnsupportedCompression(header[3]));
    }
    var parts := WalkRecords(reader);
    assert HeaderProblem(data).None?;
    if parts.Err? {
      return Err(parts.error);
    }
    if |parts.value| > U32_MAX {
      return Err(InvalidRecord);
    }
    if parts.value == [] {
      return Err(PartitionCount(0));
    }
    return Ok((parts.value, Info(compression.value, |parts.value|)));
  }

  // ----- what the spans are -----

  /** All spans of all partitions, in order. */
  function AllSpans(parts: seq<Partition>): seq<Span> {
    if parts == [] then [] else AllSpans(parts[..|parts| - 1]) + parts[|parts| - 1].spans
  }

  predicate SpanInFile(data: seq<Byte>, span: Span) {
    HEADER_SIZE < span.0 <= span.1 <= |data|
  }

  predicate HoldsNoRecord(data: seq<Byte>, span: Span) {
    forall k :: span.0 <= k < span.1 ==> !RecordAt(data, k, |data|)
  }

  /** Spans lie one behind the other, the last one ending at or before `limit`. */
  predicate InFileOrder(spans: seq<Span>, limit: nat) {
    && (forall i, j :: 0 <= i < j < |spans| ==> spans[i].1 < spans[j].0)
    && (forall i :: 0 <= i < |spans| ==> spans[i].1 <= limit)
  }

  /** Every partition has spans; all of them lie inside the file, in order and apart. */
  predicate OrderedPartitions(data: seq<Byte>, parts: seq<Partition>, limit: nat) {
    && (forall p :: p in parts ==> p.spans != [])
    && (forall s :: s in AllSpans(parts) ==> SpanInFile(data, s))
    && InFileOrder(AllSpans(parts), limit)
  }

  predicate SpansHoldNoRecord(data: seq<Byte>, parts: seq<Partition>) {
    forall s :: s in AllSpans(parts) ==> HoldsNoRecord(data, s)
  }

  lemma SpansOfExtended(parts: seq<Partition>, step: WalkStep, end: nat)
    requires step.Open? || (step.Continue? && parts != [])
    ensures AllSpans(Extended(parts, step, end)) == AllSpans(parts) + [(step.start, end)]
  {
    var longer := Extended(parts, step, end);
    if step.Open? {
      assert longer[..|longer| - 1] == parts;
    } else {
      assert longer[..|longer| - 1] == parts[..|parts| - 1];
    }
  }

  lemma ExtendedIsOrdered(data: seq<Byte>, parts: seq<Partition>, offset: nat, step: WalkStep, end: nat)
    requires step.Open? || (step.Continue? && parts != [])
    requires HEADER_SIZE <= offset < step.start <= end <= |data| && OrderedPartitions(data, parts, offset)
    ensures OrderedPartitions(data, Extended(parts, step, end), end)
  {
    SpansOfExtended(parts, step, end);
    hide AllSpans;
    forall p | p in Extended(parts, step, end)
      ensures p.spans != []
    {
      assert p in parts || p.spans[|p.spans| - 1] == (step.start, end);
    }
  }

  /** However many searches give up, the spans found lie in order inside the file. */
  lemma {:induction false} MayWalkIsOrdered(
    data: seq<Byte>, offset: nat, parts: seq<Partition>, r: Result<seq<Partition>, GhoError>)
    requires HEADER_SIZE <= offset && OrderedPartitions(data, parts, offset) && MayWalk(data, offset, parts, r) && r.Ok?
    ensures OrderedPartitions(data, r.value, |data| + offset)
    decreases |data| - offset
  {
    hide StepAt, NextRecordOrEnd, OrderedPartitions, Extended;
    LimitGrows(data, parts, offset, |data| + offset);
    if r != Ok(parts) {
      var step := StepAt(data, offset, parts);
      if step.Skip? {
        LimitGrows(data, parts, offset, step.to);
        MayWalkIsOrdered(data, step.to, parts, r);
        AnyLimit(data, r.value, |data| + step.to, |data| + offset);
      } else {
        var end := NextRecordOrEnd(data, step.start);
        ExtendedIsOrdered(data, parts, offset, step, end);
        ExtendedIsOrdered(data, parts, offset, step, |data|);
        LimitGrows(data, Extended(parts, step, |data|), |data|, |data| + offset);
        if MayWalk(data, end, Extended(parts, step, end), r) {
          MayWalkIsOrdered(data, end, Extended(parts, step, end), r);
          AnyLimit(data, r.value, |data| + end, |data| + offset);
        }
      }
    }
  }

  lemma LimitGrows(data: seq<Byte>, parts: seq<Partition>, limit: nat, more: nat)
    requires OrderedPartitions(data, parts, limit) && limit <= more
    ensures OrderedPartitions(data, parts, more)
  {
  }

  /** Data spans end inside the file anyway. */
  lemma AnyLimit(data: seq<Byte>, parts: seq<Partition>, limit: nat, other: nat)
    requires OrderedPartitions(data, parts, limit) && |data| <= other
    ensures OrderedPartitions(data, parts, other)
  {
    forall i | 0 <= i < |AllSpans(parts)|
      ensures AllSpans(parts)[i].1 <= other
    {
      assert AllSpans(parts)[i] in AllSpans(parts);
    }
  }

  /** Whatever the reader, an accepted image has partitions, each with spans, in file order and inside the file. */
  lemma AnswersAreOrdered(data: seq<Byte>, r: Result<(seq<Partition>, Info), GhoError>)
    requires MayParse(data, r) && r.Ok?
    ensures var (parts, info) := r.value;
            && parts != [] && info.partitionCount == |parts| <= U32_MAX
            && OrderedPartitions(data, parts, |data|)
  {
    hide MayWalk, OrderedPartitions;
    var walked :| MayWalk(data, HEADER_SIZE, [], walked) && r == Finished(data, walked);
    NothingIsOrdered(data);
    MayWalkIsOrdered(data, HEADER_SIZE, [], walked);
    AnyLimit(data, walked.value, |data| + HEADER_SIZE, |data|);
  }

  lemma NothingIsOrdered(data: seq<Byte>)
    ensures OrderedPartitions(data, [], HEADER_SIZE)
  {
  }

  /** The walk that never gives up is one of the possible ones. */
  lemma {:induction false} WalkIsPossible(data: seq<Byte>, offset: nat, parts: seq<Partition>)
    ensures MayWalk(data, offset, parts, Walk(data, offset, parts))
    decreases |data| - offset
  {
    hide StepAt, NextRecordOrEnd, Extended;
    if offset < |data| {
      var step := StepAt(data, offset, parts);
      match step
      case Stop(_) =>
      case Skip(to) => WalkIsPossible(data, to, parts);
      case _ =>
        var end := NextRecordOrEnd(data, step.start);
        WalkIsPossible(data, end, Extended(parts, step, end));
    }
  }

  lemma {:induction false} WalkHoldsNoRecord(data: seq<Byte>, offset: nat, parts: seq<Partition>)
    requires SpansHoldNoRecord(data, parts)
    ensures Walk(data, offset, parts).Ok? ==> SpansHoldNoRecord(data, Walk(data, offset, parts).value)
    decreases |data| - offset
  {
    hide RecordAt, FirstRecord, AllSpans, Extended, StepAt;
    if offset < |data| {
      var step := StepAt(data, offset, parts);
      if step.Skip? {
        WalkHoldsNoRecord(data, step.to, parts);
      } else if !step.Stop? {
        var end := NextRecordOrEnd(data, step.start);
        SpansOfExtended(parts, step, end);
        WalkHoldsNoRecord(data, end, Extended(parts, step, end));
      }
    }
  }

  lemma ParsedIsPossible(data: seq<Byte>)
    ensures MayParse(data, Parsed(data))
  {
    hide Walk, MayWalk;
    WalkIsPossible(data, HEADER_SIZE, []);
  }

  /**
   * What an accepted image consists of: at least one partition, each with at least one span, the
   * spans one behind the other in the file, none overlapping, and no record header inside any.
   */
  lemma ParsedSpansAreData(data: seq<Byte>)
    requires Parsed(data).Ok?
    ensures var (parts, info) := Parsed(data).value;
            && parts != [] && info.partitionCount == |parts|
            && OrderedPartitions(data, parts, |data|) && SpansHoldNoRecord(data, parts)
  {
    hide Walk, MayParse, OrderedPartitions, HoldsNoRecord;
    ParsedIsPossible(data);
    AnswersAreOrdered(data, Parsed(data));
    WalkHoldsNoRecord(data, HEADER_SIZE, []);
  }
}
