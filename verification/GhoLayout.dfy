/** What an image that parses looks like, and the partitions it has, from crates/gho/src/lib.rs. */
module GhoLayout {
  import opened Common
  import opened GhoContainer
  import opened GhoParser

  /**
   * A stretch of an image: a record at `at` that opens a partition, continues one, or is passed over.
   * `span` is the data behind it.
   */
  datatype Segment = Opens(at: nat, span: Span) | Continues(at: nat, span: Span) | PassedOver(at: nat)

  /** The first record from `offset` on lies at `at`. */
  predicate FirstAt(data: seq<Byte>, offset: nat, at: nat) {
    offset <= at && RecordAt(data, at, |data|) && forall k :: offset <= k < at ==> !RecordAt(data, k, |data|)
  }

  predicate NoneFrom(data: seq<Byte>, offset: nat) {
    forall k :: offset <= k < |data| ==> !RecordAt(data, k, |data|)
  }

  function BodyEnd(data: seq<Byte>, at: nat): nat
    requires RecordAt(data, at, |data|)
  {
    at + RECORD_HEADER_SIZE + RecordOf(data, at).bodyLength
  }

  /** Data that runs up to the next record, or to the end of the file when there is none. */
  predicate DataUpToRecord(data: seq<Byte>, span: Span) {
    && span.0 <= span.1 <= |data|
    && (forall k :: span.0 <= k < span.1 ==> !RecordAt(data, k, |data|))
    && (span.1 < |data| ==> RecordAt(data, span.1, |data|))
  }

  /** A segment as it must lie behind `offset`; `begun` is whether a partition was opened before it. */
  predicate SegmentAt(data: seq<Byte>, offset: nat, s: Segment, begun: bool) {
    && FirstAt(data, offset, s.at) && BodyEnd(data, s.at) <= |data|
    && var body := BodyEnd(data, s.at);
       match s
       case Opens(at, span) =>
         && RecordOf(data, at).kind == 0x0603
         && body + HEADER_SIZE <= |data| && HasFileMagic(data, body)
         && span.0 == body + HEADER_SIZE && DataUpToRecord(data, span)
       case Continues(at, span) =>
         && begun && RecordOf(data, at).kind == 0x0703
         && span.0 == ContinuationStart(data, body) && DataUpToRecord(data, span)
       case PassedOver(at) => RecordOf(data, at).kind == 0x0006
  }

  /** Where the search for the next record begins behind a segment. */
  function After(data: seq<Byte>, s: Segment): nat
    requires s.PassedOver? ==> RecordAt(data, s.at, |data|)
  {
    if s.PassedOver? then BodyEnd(data, s.at) else s.span.1
  }

  /** No record follows, or an end record whose body is there. */
  ghost predicate EndsAt(data: seq<Byte>, offset: nat) {
    || NoneFrom(data, offset)
    || exists at :: FirstAt(data, offset, at) && RecordOf(data, at).kind == 0x0023 && BodyEnd(data, at) <= |data|
  }

  /** From `offset` the image consists of these segments, one behind the other, and then ends. */
  ghost predicate LaidOut(data: seq<Byte>, offset: nat, segments: seq<Segment>, begun: bool)
    decreases |segments|
  {
    if segments == [] then EndsAt(data, offset)
    else
      var s := segments[0];
      SegmentAt(data, offset, s, begun) && LaidOut(data, After(data, s), segments[1..], begun || s.Opens?)
  }

  /** The partitions that segments amount to, behind those already there. */
  function PartitionsOf(segments: seq<Segment>, parts: seq<Partition>): seq<Partition> {
    if segments == [] then parts
    else
      match segments[0]
      case Opens(_, span) => PartitionsOf(segments[1..], parts + [Partition([span])])
      case Continues(_, span) => PartitionsOf(segments[1..], if parts == [] then [] else WithSpan(parts, span))
      case PassedOver(_) => PartitionsOf(segments[1..], parts)
  }

  // ----- what is laid out parses -----

  lemma FirstAtIs(data: seq<Byte>, offset: nat, at: nat)
    requires FirstAt(data, offset, at)
    ensures at < |data| && FirstRecord(data, offset, |data|) == Some(RecordOf(data, at))
  {
    FirstRecordIs(data, offset, at, |data|);
  }

  lemma NoneFromIs(data: seq<Byte>, offset: nat)
    requires NoneFrom(data, offset)
    ensures FirstRecord(data, offset, |data|) == None
  {
    hide RecordOf;
  }

  lemma DataEndsThere(data: seq<Byte>, span: Span)
    requires DataUpToRecord(data, span)
    ensures NextRecordOrEnd(data, span.0) == span.1
  {
    hide FirstRecord, RecordOf;
    if span.1 < |data| {
      FirstRecordIs(data, span.0, span.1, |data|);
    }
  }

  /** A segment is the step the walk takes. */
  lemma SegmentIsStep(data: seq<Byte>, offset: nat, s: Segment, parts: seq<Partition>)
    requires SegmentAt(data, offset, s, parts != [])
    ensures offset < |data| && (s.Continues? ==> parts != []) && RecordAt(data, s.at, |data|)
    ensures StepAt(data, offset, parts)
            == match s
               case Opens(_, span) => Open(span.0)
               case Continues(_, span) => Continue(span.0)
               case PassedOver(_) => Skip(After(data, s))
    ensures !s.PassedOver? ==> NextRecordOrEnd(data, s.span.0) == s.span.1
  {
    hide FirstRecord, RecordAt, HasFileMagic, ContinuationStart, DataUpToRecord, NextRecordOrEnd;
    FirstAtIs(data, offset, s.at);
    if !s.PassedOver? {
      DataEndsThere(data, s.span);
    }
  }

  lemma EndStops(data: seq<Byte>, offset: nat, parts: seq<Partition>)
    requires EndsAt(data, offset)
    ensures Walk(data, offset, parts) == Ok(parts)
  {
    hide FirstRecord, RecordAt, HasFileMagic, ContinuationStart, NextRecordOrEnd;
    if NoneFrom(data, offset) {
      NoneFromIs(data, offset);
    } else {
      var at :| FirstAt(data, offset, at) && RecordOf(data, at).kind == 0x0023 && BodyEnd(data, at) <= |data|;
      FirstAtIs(data, offset, at);
    }
  }

  /** An image that is laid out as segments parses to exactly the partitions they amount to. */
  lemma {:induction false} LaidOutParses(data: seq<Byte>, offset: nat, segments: seq<Segment>, parts: seq<Partition>)
    requires LaidOut(data, offset, segments, parts != [])
    ensures Walk(data, offset, parts) == Ok(PartitionsOf(segments, parts))
    decreases |segments|
  {
    hide SegmentAt, EndsAt, StepAt, NextRecordOrEnd, RecordAt;
    if segments == [] {
      EndStops(data, offset, parts);
    } else {
      var s := segments[0];
      SegmentIsStep(data, offset, s, parts);
      OneStep(data, offset, parts);
      match s
      case Opens(_, span) => LaidOutParses(data, span.1, segments[1..], parts + [Partition([span])]);
      case Continues(_, span) => LaidOutParses(data, span.1, segments[1..], WithSpan(parts, span));
      case PassedOver(_) => LaidOutParses(data, After(data, s), segments[1..], parts);
    }
  }

  // ----- what parses is laid out -----

  lemma StepIsSegment(data: seq<Byte>, offset: nat, parts: seq<Partition>) returns (s: Segment)
    requires offset < |data| && !StepAt(data, offset, parts).Stop?
    ensures SegmentAt(data, offset, s, parts != [])
  {
    hide FirstRecord, U16, U32At, HasFileMagic, ContinuationStart, NextRecordOrEnd;
    var found := FirstRecord(data, offset, |data|).value;
    var step := StepAt(data, offset, parts);
    if step.Skip? {
      s := PassedOver(found.offset);
    } else {
      var span := (step.start, NextRecordOrEnd(data, step.start));
      s := if step.Open? then Opens(found.offset, span) else Continues(found.offset, span);
    }
  }

  lemma StopIsEnd(data: seq<Byte>, offset: nat, parts: seq<Partition>)
    requires offset < |data| ==> StepAt(data, offset, parts) == Stop(Ok(parts))
    ensures EndsAt(data, offset)
  {
    hide HasFileMagic, ContinuationStart;
    if offset < |data| && FirstRecord(data, offset, |data|).Some? {
      assert FirstAt(data, offset, FirstRecord(data, offset, |data|).value.offset);
    }
  }

  /** Whatever walk succeeds went along segments that the image is laid out as. */
  lemma {:induction false} WalkedIsLaidOut(
    data: seq<Byte>, offset: nat, parts: seq<Partition>) returns (segments: seq<Segment>)
    requires Walk(data, offset, parts).Ok?
    ensures LaidOut(data, offset, segments, parts != [])
    ensures Walk(data, offset, parts) == Ok(PartitionsOf(segments, parts))
    decreases |data| - offset
  {
    hide SegmentAt, EndsAt, StepAt, NextRecordOrEnd, RecordAt;
    if offset >= |data| || StepAt(data, offset, parts).Stop? {
      WalkEnds(data, offset, parts);
      StopIsEnd(data, offset, parts);
      segments := [];
    } else {
      OneStep(data, offset, parts);
      var s := StepIsSegment(data, offset, parts);
      SegmentIsStep(data, offset, s, parts);
      var rest: seq<Segment>;
      match s {
        case Opens(_, span) => rest := WalkedIsLaidOut(data, span.1, parts + [Partition([span])]);
        case Continues(_, span) => rest := WalkedIsLaidOut(data, span.1, WithSpan(parts, span));
        case PassedOver(_) => rest := WalkedIsLaidOut(data, After(data, s), parts);
      }
      segments := [s] + rest;
      assert segments[1..] == rest;
    }
  }

  /**
   * A file with an acceptable header parses to given partitions exactly when it is laid out as
   * segments that amount to them, and there is at least one and no more than a u32 counts.
   */
  lemma ParsesAsLaidOut(data: seq<Byte>, parts: seq<Partition>)
    requires HeaderProblem(data).None?
    ensures Parsed(data).Ok? && Parsed(data).value.0 == parts
            <==> (exists segments :: LaidOut(data, HEADER_SIZE, segments, false) && PartitionsOf(segments, []) == parts)
                 && 1 <= |parts| <= U32_MAX
  {
    hide LaidOut, Walk, PartitionsOf;
    if segments :| LaidOut(data, HEADER_SIZE, segments, false) && PartitionsOf(segments, []) == parts {
      LaidOutParses(data, HEADER_SIZE, segments, []);
    }
    if Parsed(data).Ok? {
      var segments := WalkedIsLaidOut(data, HEADER_SIZE, []);
    }
  }
}
