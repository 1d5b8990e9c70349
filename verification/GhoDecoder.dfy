/** Expanding one partition of a GHO image, from crates/gho/src/lib.rs. */
module GhoDecoder {
  import opened Common
  import opened Slices
  import opened GhoContainer
  import opened GhoParser
  import FastLz

  /** The zlib library, as a function of the compressed bytes; `None` is a corrupt stream. */
  type Inflate = seq<Byte> -> Option<seq<Byte>>

  /** What one block expands to. */
  function Expanded(compression: Compression, payload: seq<Byte>, inflate: Inflate): Result<seq<Byte>, GhoError> {
    match compression
    case Stored => if |payload| > EXPANDED_SIZE then Err(CorruptBlock) else Ok(payload)
    case Fast =>
      (match FastLz.Decoded(payload, EXPANDED_SIZE)
       case Ok(bytes) => Ok(bytes)
       case Err(e) => Err(if e.Truncated? then Truncated else CorruptBlock))
    case High(_) =>
      if |payload| < 4 then Err(CorruptBlock)
      else if payload[0] == 1 then
        if |payload| - 4 > EXPANDED_SIZE then Err(CorruptBlock) else Ok(payload[4..])
      else
        var bytes := inflate(payload[4..]);
        if bytes.None? || |bytes.value| > EXPANDED_SIZE then Err(CorruptBlock) else Ok(bytes.value)
  }

  /** What has been written, and the error that stopped the decoding, if one did. */
  datatype Decoding = Decoding(written: seq<Byte>, failure: Option<GhoError>)

  /** The blocks of one span from `offset`, after `written` has been put out. */
  function Blocks(
    data: seq<Byte>, offset: nat, end: nat, compression: Compression, inflate: Inflate, limit: nat, written: seq<Byte>)
    : Decoding
    requires end <= |data|
    decreases end - offset
  {
    if offset + 2 > end then Decoding(written, None)
    else
      var stored := U16(data, offset);
      if stored == 0 then Decoding(written, None)
      else if !(3 <= stored <= MAX_STORED_LEN) then Decoding(written, Some(CorruptBlock))
      else if offset + stored > end then Decoding(written, Some(Truncated))
      else
        var bytes := Expanded(compression, data[offset + 2..offset + stored], inflate);
        if bytes.Err? then Decoding(written, Some(bytes.error))
        else if |written| + |bytes.value| > limit then Decoding(written, Some(ExpandedLimit))
        else Blocks(data, offset + stored, end, compression, inflate, limit, written + bytes.value)
  }

  /** How a block may not begin: with a size that none has, or one that does not fit its span. */
  lemma MalformedBlocks(
    data: seq<Byte>, offset: nat, end: nat, compression: Compression, inflate: Inflate, limit: nat, written: seq<Byte>)
    requires end <= |data| && offset + 2 <= end
    ensures var d := Blocks(data, offset, end, compression, inflate, limit, written);
            var size := data[offset] as int + 256 * (data[offset + 1] as int);
            && (size == 0 ==> d == Decoding(written, None))
            && (size == 1 || size == 2 || size > 33002 ==> d == Decoding(written, Some(CorruptBlock)))
            && (3 <= size <= 33002 && offset + size > end ==> d == Decoding(written, Some(Truncated)))
  {
    hide Expanded;
  }

  predicate SpansInside(spans: seq<Span>, size: nat) {
    forall s :: s in spans ==> s.0 <= s.1 <= size
  }

  /** All spans of a partition, in order; an error ends the decoding. */
  function Spans(
    data: seq<Byte>, spans: seq<Span>, compression: Compression, inflate: Inflate, limit: nat, written: seq<Byte>)
    : Decoding
    requires SpansInside(spans, |data|)
    decreases |spans|
  {
    if spans == [] then Decoding(written, None)
    else
      var d := Blocks(data, spans[0].0, spans[0].1, compression, inflate, limit, written);
      if d.failure.Some? then d else Spans(data, spans[1..], compression, inflate, limit, d.written)
  }

  type Answer = Result<(seq<Partition>, Info), GhoError>

  /** The partition `decode_partition` picks from what was parsed, or why it picks none. */
  function Picked(parsed: Answer, source: nat): Result<(Partition, Info), GhoError> {
    if parsed.Err? then Err(parsed.error)
    else
      var (parts, info) := parsed.value;
      if source == 0 || source > |parts| then Err(PartitionCount(info.partitionCount))
      else Ok((parts[source - 1], info))
  }

  function Selected(data: seq<Byte>, source: nat): Result<(Partition, Info), GhoError> {
    Picked(Parsed(data), source)
  }

  predicate PartsInside(data: seq<Byte>, parsed: Answer) {
    parsed.Ok? ==> forall p :: p in parsed.value.0 ==> p.spans != [] && SpansInside(p.spans, |data|)
  }

  /** Whatever the reader, the spans of every partition lie inside the file. */
  lemma AnswersAreInside(data: seq<Byte>, parsed: Answer)
    requires MayParse(data, parsed)
    ensures PartsInside(data, parsed)
  {
    hide MayParse;
    if parsed.Ok? {
      AnswersAreOrdered(data, parsed);
      var parts := parsed.value.0;
      forall p | p in parts
        ensures p.spans != [] && SpansInside(p.spans, |data|)
      {
        var i :| 0 <= i < |parts| && parts[i] == p;
        SpansOfMember(parts, i);
      }
    }
  }

  lemma ParsedIsInside(data: seq<Byte>)
    ensures PartsInside(data, Parsed(data))
  {
    hide Parsed, MayParse;
    ParsedIsPossible(data);
    AnswersAreInside(data, Parsed(data));
  }

  lemma SelectedIsInside(data: seq<Byte>, source: nat)
    requires Selected(data, source).Ok?
    ensures SpansInside(Selected(data, source).value.0.spans, |data|)
    ensures Selected(data, source).value.0.spans != []
  {
    hide Parsed, SpansInside;
    ParsedIsInside(data);
    assert Selected(data, source).value.0 in Parsed(data).value.0;
  }

  lemma SpansOfMember(parts: seq<Partition>, i: nat)
    requires i < |parts|
    ensures forall s :: s in parts[i].spans ==> s in AllSpans(parts)
  {
    if i < |parts| - 1 {
      SpansOfMember(parts[..|parts| - 1], i);
    }
  }

  /** `decode_partition` once the file has been parsed. */
  function DecodedFrom(data: seq<Byte>, parsed: Answer, source: nat, inflate: Inflate, limit: nat): Decoding
    requires PartsInside(data, parsed)
  {
    var picked := Picked(parsed, source);
    if picked.Err? then Decoding([], Some(picked.error))
    else
      assert picked.value.0 in parsed.value.0;
      Spans(data, picked.value.0.spans, picked.value.1.compression, inflate, limit, [])
  }

  /** `decode_partition` as a whole. */
  function DecodedPartition(data: seq<Byte>, source: nat, inflate: Inflate, limit: nat): Decoding {
    ParsedIsInside(data);
    DecodedFrom(data, Parsed(data), source, inflate, limit)
  }

  // ----- the decoder -----

  /** Expands one block into the scratch buffer. */
  method ExpandBlock(compression: Compression, payload: seq<Byte>, inflate: Inflate, expanded: array<Byte>)
    returns (r: Result<nat, GhoError>)
    requires expanded.Length == EXPANDED_SIZE
    modifies expanded
    ensures r.Err? <==> Expanded(compression, payload, inflate).Err?
    ensures r.Err? ==> r.error == Expanded(compression, payload, inflate).error
    ensures r.Ok? ==> r.value <= expanded.Length && expanded[..r.value] == Expanded(compression, payload, inflate).value
    ensures compression == Stored ==>
              if |payload| > 33792 then r == Err(CorruptBlock)
              else r == Ok(|payload|) && expanded[..|payload|] == payload
    ensures compression.High? ==>
              if |payload| < 4 then r == Err(CorruptBlock)
              else
                var bytes := if payload[0] == 1 then Some(payload[4..]) else inflate(payload[4..]);
                if bytes == None || |bytes.value| > 33792 then r == Err(CorruptBlock)
                else r == Ok(|bytes.value|) && expanded[..|bytes.value|] == bytes.value
  {
    hide FastLz.Decoded;
    match compression {
      case Stored =>
        if |payload| > expanded.Length {
          return Err(CorruptBlock);
        }
        forall i | 0 <= i < |payload| {
          expanded[i] := payload[i];
        }
        assert expanded[..|payload|] == payload;
        return Ok(|payload|);
      case Fast =>
        var count := FastLz.Decode(payload, expanded);
        if count.Err? {
          return Err(if count.error.Truncated? then Truncated else CorruptBlock);
        }
        return Ok(count.value);
      case High(_) =>
        if |payload| < 4 {
          return Err(CorruptBlock);
        }
        var bytes := if payload[0] == 1 then Some(payload[4..]) else inflate(payload[4..]);
        if bytes.None? || |bytes.value| > expanded.Length {
          return Err(CorruptBlock);
        }
        forall i | 0 <= i < |bytes.value| {
          expanded[i] := bytes.value[i];
        }
        assert expanded[..|bytes.value|] == bytes.value;
        return Ok(|bytes.value|);
    }
  }

  /** The block loop over one span. */
  method DecodeSpan(
    reader: Reader, span: Span, compression: Compression, inflate: Inflate, limit: U64, expanded: array<Byte>,
    before: seq<Byte>)
    returns (written: seq<Byte>, failure: Option<GhoError>)
    requires reader.Reads() && span.0 <= span.1 <= |reader.data| && expanded.Length == EXPANDED_SIZE
    modifies reader, expanded
    ensures Decoding(written, failure)
            == Blocks(reader.data, span.0, span.1, compression, inflate, limit, before)
  {
    hide Expanded, U16;
    var data := reader.data;
    var (start, end) := span;
    var offset := start;
    written := before;
    ghost var answer := Blocks(data, start, end, compression, inflate, limit, before);
    while offset + 2 <= end
      invariant start <= offset <= end
      invariant answer == Blocks(data, offset, end, compression, inflate, limit, written)
      decreases end - offset
    {
      var stored := ReadLength(reader, offset);
      if stored == 0 {
        return written, None;
      }
      if !(3 <= stored <= MAX_STORED_LEN) {
        return written, Some(CorruptBlock);
      }
      var next := offset + stored;
      if next > end {
        return written, Some(Truncated);
      }
      var payload := ReadPayload(reader, offset + 2, stored - 2);
      var count := ExpandBlock(compression, payload, inflate, expanded);
      if count.Err? {
        return written, Some(count.error);
      }
      if |written| + count.value > limit {
        return written, Some(ExpandedLimit);
      }
      written := written + expanded[..count.value];
      offset := next;
    }
    return written, None;
  }

  method ReadLength(reader: Reader, at: nat) returns (stored: nat)
    requires reader.Reads() && at + 2 <= |reader.data|
    modifies reader
    ensures stored == U16(reader.data, at)
  {
    var length := new Byte[2](_ => 0);
    reader.Seek(at);
    var ok := reader.ReadExact(length, 2);
    assert length[..2] == reader.data[at..at + 2];
    assert length[0] == length[..2][0] && length[1] == length[..2][1];
    stored := length[0] as int + 256 * (length[1] as int);
  }

  method ReadPayload(reader: Reader, at: nat, size: nat) returns (payload: seq<Byte>)
    requires reader.Reads() && at + size <= |reader.data| && size <= MAX_STORED_LEN
    modifies reader
    ensures payload == reader.data[at..at + size]
  {
    var compressed := new Byte[MAX_STORED_LEN](_ => 0);
    reader.Seek(at);
    var ok := reader.ReadExact(compressed, size);
    payload := compressed[..size];
  }

  /**
   * `decode_partition`, for any reader: it decodes what it parsed, and the byte count it reports is
   * the number of bytes it wrote. `parsed` is what its parsing answered.
   */
  method DecodePartition(reader: Reader, source: U32, inflate: Inflate, limit: U64)
    returns (written: seq<Byte>, r: Result<(Info, nat), GhoError>, ghost parsed: Answer)
    requires reader.Reads() && |reader.data| <= MAX_FILE
    modifies reader
    ensures MayParse(reader.data, parsed) && PartsInside(reader.data, parsed)
    ensures reader.minimum >= RECORD_HEADER_SIZE ==> parsed == Parsed(reader.data)
    ensures Decoding(written, if r.Err? then Some(r.error) else None) ==
              DecodedFrom(reader.data, parsed, source, inflate, limit)
    ensures r.Ok? ==> r.value == (Picked(parsed, source).value.1, |written|)
  {
    hide Parsed, Blocks, MayParse;
    written := [];
    var answer := Parse(reader);
    parsed := answer;
    AnswersAreInside(reader.data, parsed);
    if answer.Err? {
      return [], Err(answer.error), parsed;
    }
    var (parts, info) := answer.value;
    CountIsLength(reader.data, parsed);
    if source == 0 || source > info.partitionCount {
      return [], Err(PartitionCount(info.partitionCount)), parsed;
    }
    assert parts[source - 1] in parts;
    var spans := parts[source - 1].spans;
    var expanded := new Byte[EXPANDED_SIZE](_ => 0);
    for i := 0 to |spans|
      invariant Spans(reader.data, spans, info.compression, inflate, limit, [])
                == Spans(reader.data, spans[i..], info.compression, inflate, limit, written)
    {
      var failure: Option<GhoError>;
      assert spans[i..][1..] == spans[i + 1..];
      assert spans[i] in spans;
      written, failure := DecodeSpan(reader, spans[i], info.compression, inflate, limit, expanded, written);
      if failure.Some? {
        return written, Err(failure.value), parsed;
      }
    }
    return written, Ok((info, |written|)), parsed;
  }

  lemma CountIsLength(data: seq<Byte>, parsed: Answer)
    requires MayParse(data, parsed)
    ensures parsed.Ok? ==> parsed.value.1.partitionCount == |parsed.value.0|
  {
    hide MayParse;
    if parsed.Ok? {
      AnswersAreOrdered(data, parsed);
    }
  }

  // ----- never more than the limit -----

  lemma {:induction false} BlocksWithinLimit(
    data: seq<Byte>, offset: nat, end: nat, compression: Compression, inflate: Inflate, limit: nat, written: seq<Byte>)
    requires end <= |data| && |written| <= limit
    ensures |Blocks(data, offset, end, compression, inflate, limit, written).written| <= limit
    ensures written <= Blocks(data, offset, end, compression, inflate, limit, written).written
    decreases end - offset
  {
    hide Expanded;
    if offset + 2 <= end {
      var stored := U16(data, offset);
      if 3 <= stored <= MAX_STORED_LEN && offset + stored <= end {
        var bytes := Expanded(compression, data[offset + 2..offset + stored], inflate);
        if bytes.Ok? && |written| + |bytes.value| <= limit {
          BlocksWithinLimit(data, offset + stored, end, compression, inflate, limit, written + bytes.value);
        }
      }
    }
  }

  lemma {:induction false} SpansWithinLimit(
    data: seq<Byte>, spans: seq<Span>, compression: Compression, inflate: Inflate, limit: nat, written: seq<Byte>)
    requires SpansInside(spans, |data|) && |written| <= limit
    ensures |Spans(data, spans, compression, inflate, limit, written).written| <= limit
    decreases |spans|
  {
    if spans != [] {
      hide Blocks;
      BlocksWithinLimit(data, spans[0].0, spans[0].1, compression, inflate, limit, written);
      var d := Blocks(data, spans[0].0, spans[0].1, compression, inflate, limit, written);
      if d.failure.None? {
        SpansWithinLimit(data, spans[1..], compression, inflate, limit, d.written);
      }
    }
  }

  /** However the image is damaged or read, no more than the limit is ever written, even when decoding fails. */
  lemma OutputWithinLimit(data: seq<Byte>, parsed: Answer, source: nat, inflate: Inflate, limit: nat)
    requires PartsInside(data, parsed)
    ensures |DecodedFrom(data, parsed, source, inflate, limit).written| <= limit
  {
    hide Spans;
    var picked := Picked(parsed, source);
    if picked.Ok? {
      assert picked.value.0 in parsed.value.0;
      SpansWithinLimit(data, picked.value.0.spans, picked.value.1.compression, inflate, limit, []);
    }
  }

  // ----- reading back what was stored -----

  predicate BlockSizes(payloads: seq<seq<Byte>>) {
    forall p :: p in payloads ==> 1 <= |p| <= MAX_STORED_LEN - 2
  }

  /** A span's content: each block behind its length, which counts the length field itself. */
  function BlockBytes(payloads: seq<seq<Byte>>): seq<Byte>
    requires BlockSizes(payloads)
  {
    if payloads == [] then []
    else
      assert payloads[0] in payloads;
      var n := |payloads[0]| + 2;
      [n % 256, n / 256] + payloads[0] + BlockBytes(payloads[1..])
  }

  function Concat(parts: seq<seq<Byte>>): seq<Byte> {
    if parts == [] then [] else parts[0] + Concat(parts[1..])
  }

  /** The expansions of a list of payloads, each of which expands. */
  function Expansions(compression: Compression, inflate: Inflate, payloads: seq<seq<Byte>>): seq<seq<Byte>>
    requires forall p :: p in payloads ==> Expanded(compression, p, inflate).Ok?
  {
    if payloads == [] then []
    else
      assert payloads[0] in payloads;
      [Expanded(compression, payloads[0], inflate).value] + Expansions(compression, inflate, payloads[1..])
  }

  /** Bytes behind the last block that end a span: fewer than two, or a zero length. */
  predicate EndsBlocks(tail: seq<Byte>) {
    |tail| < 2 || (tail[0] == 0 && tail[1] == 0)
  }

  lemma FirstBlock(data: seq<Byte>, offset: nat, end: nat, payload: seq<Byte>, rest: seq<Byte>)
    requires offset <= end <= |data| && 1 <= |payload| <= MAX_STORED_LEN - 2
    requires data[offset..end] == [(|payload| + 2) % 256, (|payload| + 2) / 256] + payload + rest
    ensures offset + 2 <= end && U16(data, offset) == |payload| + 2 && offset + |payload| + 2 <= end
    ensures data[offset + 2..offset + 2 + |payload|] == payload
    ensures data[offset + 2 + |payload|..end] == rest
  {
    var view := data[offset..end];
    assert data[offset] == view[0] && data[offset + 1] == view[1];
    assert view[2..2 + |payload|] == payload;
    assert view[2 + |payload|..|view|] == rest;
    SliceOfSlice(data, offset, end, 2, 2 + |payload|);
    SliceOfSlice(data, offset, end, 2 + |payload|, |view|);
  }

  lemma BlocksTakeOne(
    data: seq<Byte>, offset: nat, end: nat, compression: Compression, inflate: Inflate, limit: nat, written: seq<Byte>,
    payload: seq<Byte>)
    requires end <= |data| && 1 <= |payload| <= MAX_STORED_LEN - 2
    requires offset + 2 + |payload| <= end && U16(data, offset) == |payload| + 2
    requires data[offset + 2..offset + 2 + |payload|] == payload
    requires Expanded(compression, payload, inflate).Ok?
    ensures var bytes := Expanded(compression, payload, inflate).value;
            Blocks(data, offset, end, compression, inflate, limit, written) ==
            if |written| + |bytes| > limit then Decoding(written, Some(ExpandedLimit))
            else Blocks(data, offset + 2 + |payload|, end, compression, inflate, limit, written + bytes)
  {
    hide Expanded, U16;
  }

  lemma BlocksEnd(
    data: seq<Byte>, offset: nat, end: nat, compression: Compression, inflate: Inflate, limit: nat, written: seq<Byte>)
    requires offset <= end <= |data| && EndsBlocks(data[offset..end])
    ensures Blocks(data, offset, end, compression, inflate, limit, written) == Decoding(written, None)
  {
    if offset + 2 <= end {
      assert data[offset] == data[offset..end][0] && data[offset + 1] == data[offset..end][1];
    }
  }

  /** Blocks laid out in a span decode to the concatenation of what they expand to, if it fits the limit. */
  lemma {:induction false} BlocksReadBack(
    data: seq<Byte>, offset: nat, end: nat, compression: Compression, inflate: Inflate, limit: nat, written: seq<Byte>,
    payloads: seq<seq<Byte>>, tail: seq<Byte>)
    requires offset <= end <= |data| && BlockSizes(payloads) && EndsBlocks(tail)
    requires data[offset..end] == BlockBytes(payloads) + tail
    requires forall p :: p in payloads ==> Expanded(compression, p, inflate).Ok?
    ensures |written| + |Concat(Expansions(compression, inflate, payloads))| <= limit ==>
              Blocks(data, offset, end, compression, inflate, limit, written)
              == Decoding(written + Concat(Expansions(compression, inflate, payloads)), None)
    ensures |written| <= limit < |written| + |Concat(Expansions(compression, inflate, payloads))| ==>
              Blocks(data, offset, end, compression, inflate, limit, written).failure == Some(ExpandedLimit)
    decreases |payloads|
  {
    hide Expanded, Blocks, BlockBytes, Concat, Expansions, EndsBlocks, U16;
    NoBytes(compression, inflate);
    if payloads == [] {
      assert data[offset..end] == tail;
      BlocksEnd(data, offset, end, compression, inflate, limit, written);
      assert written + [] == written;
    } else {
      var payload, later := payloads[0], payloads[1..];
      assert payload in payloads;
      BytesOfFirst(payloads);
      var rest := BlockBytes(later) + tail;
      assert data[offset..end] == [(|payload| + 2) % 256, (|payload| + 2) / 256] + payload + rest;
      FirstBlock(data, offset, end, payload, rest);
      BlocksTakeOne(data, offset, end, compression, inflate, limit, written, payload);
      var bytes := Expanded(compression, payload, inflate).value;
      var others := Concat(Expansions(compression, inflate, later));
      ExpansionsOfFirst(compression, inflate, payloads);
      if |written| + |bytes| <= limit {
        BlocksReadBack(data, offset + 2 + |payload|, end, compression, inflate, limit, written + bytes, later, tail);
        assert written + bytes + others == written + (bytes + others);
      }
    }
  }

  lemma NoBytes(compression: Compression, inflate: Inflate)
    ensures BlockBytes([]) == [] && Concat(Expansions(compression, inflate, [])) == []
  {
  }

  lemma BytesOfFirst(payloads: seq<seq<Byte>>)
    requires BlockSizes(payloads) && payloads != []
    ensures BlockBytes(payloads)
            == [(|payloads[0]| + 2) % 256, (|payloads[0]| + 2) / 256] + payloads[0] + BlockBytes(payloads[1..])
  {
  }

  lemma ExpansionsOfFirst(compression: Compression, inflate: Inflate, payloads: seq<seq<Byte>>)
    requires payloads != [] && forall p :: p in payloads ==> Expanded(compression, p, inflate).Ok?
    ensures Concat(Expansions(compression, inflate, payloads))
            == Expanded(compression, payloads[0], inflate).value
                + Concat(Expansions(compression, inflate, payloads[1..]))
  {
    hide Expanded;
    var all := Expansions(compression, inflate, payloads);
    assert all[1..] == Expansions(compression, inflate, payloads[1..]);
  }

  lemma StoredExpandsToItself(inflate: Inflate, payloads: seq<seq<Byte>>)
    requires BlockSizes(payloads)
    ensures forall p :: p in payloads ==> Expanded(Stored, p, inflate).Ok?
    ensures Expansions(Stored, inflate, payloads) == payloads
  {
    if payloads != [] {
      StoredExpandsToItself(inflate, payloads[1..]);
    }
  }

  // ----- whole images -----

  /** One span's content: blocks that expand, and bytes that end them. */
  datatype Content = Content(payloads: seq<seq<Byte>>, tail: seq<Byte>)

  predicate SpanHolds(data: seq<Byte>, span: Span, compression: Compression, inflate: Inflate, c: Content) {
    && BlockSizes(c.payloads) && EndsBlocks(c.tail)
    && span.0 <= span.1 <= |data| && data[span.0..span.1] == BlockBytes(c.payloads) + c.tail
    && forall p :: p in c.payloads ==> Expanded(compression, p, inflate).Ok?
  }

  predicate SpansHold(
    data: seq<Byte>, spans: seq<Span>, compression: Compression, inflate: Inflate, contents: seq<Content>) {
    |spans| == |contents| && forall i :: 0 <= i < |spans| ==>
        SpanHolds(data, spans[i], compression, inflate, contents[i])
  }

  /** What a list of contents expands to, one span behind the other. */
  function Image(compression: Compression, inflate: Inflate, contents: seq<Content>): seq<Byte>
    requires forall c :: c in contents ==> forall p :: p in c.payloads ==> Expanded(compression, p, inflate).Ok?
  {
    if contents == [] then []
    else
      assert contents[0] in contents;
      Concat(Expansions(compression, inflate, contents[0].payloads)) + Image(compression, inflate, contents[1..])
  }

  lemma HeldExpand(
    data: seq<Byte>, spans: seq<Span>, compression: Compression, inflate: Inflate, contents: seq<Content>)
    requires SpansHold(data, spans, compression, inflate, contents)
    ensures SpansInside(spans, |data|)
    ensures forall c :: c in contents ==> forall p :: p in c.payloads ==> Expanded(compression, p, inflate).Ok?
  {
    hide Expanded, BlockBytes;
  }

  lemma HeldRest(data: seq<Byte>, spans: seq<Span>, compression: Compression, inflate: Inflate, contents: seq<Content>)
    requires SpansHold(data, spans, compression, inflate, contents) && spans != []
    ensures SpansHold(data, spans[1..], compression, inflate, contents[1..])
    ensures SpanHolds(data, spans[0], compression, inflate, contents[0])
  {
    hide SpanHolds;
  }

  /** Spans that hold blocks decode to all their expansions, one span behind the other, if that fits the limit. */
  lemma {:induction false} SpansReadBack(
    data: seq<Byte>, spans: seq<Span>, compression: Compression, inflate: Inflate, limit: nat, written: seq<Byte>,
    contents: seq<Content>)
    requires SpansHold(data, spans, compression, inflate, contents) && SpansInside(spans, |data|)
    requires forall c :: c in contents ==> forall p :: p in c.payloads ==> Expanded(compression, p, inflate).Ok?
    ensures var image := Image(compression, inflate, contents);
            && (|written| + |image| <= limit ==>
                  Spans(data, spans, compression, inflate, limit, written) == Decoding(written + image, None))
            && (|written| <= limit < |written| + |image| ==>
                  Spans(data, spans, compression, inflate, limit, written).failure == Some(ExpandedLimit))
    decreases |spans|
  {
    hide Blocks, BlockBytes, Concat, Expanded, Expansions, SpansHold, SpanHolds;
    if spans == [] {
      assert |contents| == 0 by {
        HeldLength(data, spans, compression, inflate, contents);
      }
      assert written + [] == written;
    } else {
      HeldLength(data, spans, compression, inflate, contents);
      HeldRest(data, spans, compression, inflate, contents);
      assert contents[0] in contents;
      var first, rest := Concat(Expansions(compression, inflate, contents[0].payloads)), contents[1..];
      SpanReadsBack(data, spans[0], compression, inflate, limit, written, contents[0]);
      if |written| + |first| <= limit {
        SpansReadBack(data, spans[1..], compression, inflate, limit, written + first, rest);
        assert written + first + Image(compression, inflate, rest) == written
            + (first + Image(compression, inflate, rest));
      }
    }
  }

  lemma HeldLength(
    data: seq<Byte>, spans: seq<Span>, compression: Compression, inflate: Inflate, contents: seq<Content>)
    requires SpansHold(data, spans, compression, inflate, contents)
    ensures |spans| == |contents|
  {
  }

  lemma SpanReadsBack(
    data: seq<Byte>, span: Span, compression: Compression, inflate: Inflate, limit: nat, written: seq<Byte>, c: Content)
    requires SpanHolds(data, span, compression, inflate, c)
    requires forall p :: p in c.payloads ==> Expanded(compression, p, inflate).Ok?
    ensures var bytes := Concat(Expansions(compression, inflate, c.payloads));
            && span.0 <= span.1 <= |data|
            && (|written| + |bytes| <= limit ==>
                  Blocks(data, span.0, span.1, compression, inflate, limit, written) == Decoding(written + bytes, None))
            && (|written| <= limit < |written| + |bytes| ==>
                  Blocks(data, span.0, span.1, compression, inflate, limit, written).failure == Some(ExpandedLimit))
  {
    hide Blocks, BlockBytes, Concat, Expanded, Expansions;
    BlocksReadBack(data, span.0, span.1, compression, inflate, limit, written, c.payloads, c.tail);
  }

  /**
   * Any image, of any compression and with any number of spans and other records: decoding partition
   * `source`, whose spans hold blocks, gives everything those blocks expand to, one span behind the
   * other, when that fits the limit, and the limit error otherwise.
   */
  lemma ImageReadsBack(data: seq<Byte>, source: nat, contents: seq<Content>, inflate: Inflate, limit: nat)
    requires Selected(data, source).Ok?
    requires var (part, info) := Selected(data, source).value;
             SpansHold(data, part.spans, info.compression, inflate, contents)
    ensures var compression := Selected(data, source).value.1.compression;
            && (forall c :: c in contents ==> forall p :: p in c.payloads ==> Expanded(compression, p, inflate).Ok?)
            && var image := Image(compression, inflate, contents);
               && (|image| <= limit ==> DecodedPartition(data, source, inflate, limit) == Decoding(image, None))
               && (|image| > limit ==> DecodedPartition(data, source, inflate, limit).failure == Some(ExpandedLimit))
  {
    hide Parsed, Blocks, BlockBytes, Concat, Expanded, Expansions, SpansHold, Image, Spans;
    var (part, info) := Selected(data, source).value;
    HeldExpand(data, part.spans, info.compression, inflate, contents);
    SpansReadBack(data, part.spans, info.compression, inflate, limit, [], contents);
    var image := Image(info.compression, inflate, contents);
    assert [] + image == image;
  }

  /** The payloads of a list of contents, one behind the other. */
  function Payloads(contents: seq<Content>): seq<Byte> {
    if contents == [] then [] else Concat(contents[0].payloads) + Payloads(contents[1..])
  }

  lemma {:induction false} StoredImageIsPayloads(inflate: Inflate, contents: seq<Content>)
    requires forall c :: c in contents ==> BlockSizes(c.payloads)
    requires forall c :: c in contents ==> forall p :: p in c.payloads ==> Expanded(Stored, p, inflate).Ok?
    ensures Image(Stored, inflate, contents) == Payloads(contents)
  {
    hide Expanded, Expansions, Concat, BlockSizes;
    if contents != [] {
      assert contents[0] in contents;
      StoredExpandsToItself(inflate, contents[0].payloads);
      StoredImageIsPayloads(inflate, contents[1..]);
    }
  }

  lemma HeldSizes(data: seq<Byte>, spans: seq<Span>, compression: Compression, inflate: Inflate, contents: seq<Content>)
    requires SpansHold(data, spans, compression, inflate, contents)
    ensures forall c :: c in contents ==> BlockSizes(c.payloads)
  {
    hide Expanded, BlockBytes, BlockSizes;
  }

  /** An image stored without compression reads back as the concatenation of all payloads of all its spans. */
  lemma StoredImageReadsBack(data: seq<Byte>, source: nat, contents: seq<Content>, inflate: Inflate, limit: nat)
    requires Selected(data, source).Ok? && Selected(data, source).value.1.compression == Stored
    requires SpansHold(data, Selected(data, source).value.0.spans, Stored, inflate, contents)
    ensures |Payloads(contents)| <= limit ==>
              DecodedPartition(data, source, inflate, limit) == Decoding(Payloads(contents), None)
    ensures |Payloads(contents)| > limit ==>
              DecodedPartition(data, source, inflate, limit).failure == Some(ExpandedLimit)
  {
    hide Selected, SpansHold, Image, Payloads, DecodedPartition, Expanded;
    ImageReadsBack(data, source, contents, inflate, limit);
    HeldSizes(data, Selected(data, source).value.0.spans, Stored, inflate, contents);
    StoredImageIsPayloads(inflate, contents);
  }
}
