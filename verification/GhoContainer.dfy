/** The files a GHO image is read from, and scanning them for records, from crates/gho/src/lib.rs. */
module GhoContainer {
  import opened Common

  const HEADER_SIZE: nat := 512
  const RECORD_HEADER_SIZE: nat := 10
  const RECORD_MAGIC: nat := 0x012f_18d8
  const FILE_MAGIC: nat := 0xeffe
  const EXPANDED_SIZE: nat := 33792
  const MAX_STORED_LEN: nat := 33002
  const WINDOW_SIZE: nat := 65546

  /** No operating system reports a longer file, so offsets in it never overflow a u64. */
  const MAX_FILE: nat := 0x7FFF_FFFF_FFFF_FFFF

  datatype Compression = Stored | Fast | High(level: nat)

  datatype Partition = Partition(spans: seq<(nat, nat)>)

  datatype Info = Info(compression: Compression, partitionCount: nat)

  datatype GhoError =
    | Truncated
    | InvalidMagic
    | InvalidRecord
    | UnsupportedCompression(tag: Byte)
    | SpannedUnsupported
    | SpanMismatch
    | EncryptedUnsupported
    | PartitionCount(count: nat)
    | CorruptBlock
    | ExpandedLimit

  function U16(data: seq<Byte>, at: nat): nat
    requires at + 2 <= |data|
  {
    data[at] as int + 256 * (data[at + 1] as int)
  }

  function U32At(data: seq<Byte>, at: nat): nat
    requires at + 4 <= |data|
  {
    U16(data, at) + 0x1_0000 * U16(data, at + 2)
  }

  /**
   * `bytes` is an answer to a read of `want` bytes at `pos`: the next bytes of the file, no more than
   * asked for and no fewer than `minimum`, unless less was asked for or is left.
   */
  predicate Delivers(data: seq<Byte>, pos: nat, want: nat, minimum: nat, bytes: seq<Byte>) {
    && Min(minimum, Min(want, |data| - pos)) <= |bytes| <= want
    && (bytes != [] ==> pos + |bytes| <= |data| && bytes == data[pos..pos + |bytes|])
  }

  /** A file a caller may seek in; a read may be cut short, but only to between `minimum` and `maximum` bytes. */
  class Reader {
    const data: seq<Byte>
    const minimum: nat
    const maximum: nat
    var pos: nat

    constructor (data: seq<Byte>, minimum: nat, maximum: nat)
      requires 1 <= minimum <= maximum
      ensures this.data == data && this.minimum == minimum && this.maximum == maximum && pos == 0
    {
      this.data := data;
      this.minimum := minimum;
      this.maximum := maximum;
      pos := 0;
    }

    /** A read delivers something, and no bounds contradict each other. */
    predicate Reads() {
      1 <= minimum <= maximum
    }

    method Seek(to: nat)
      modifies this
      ensures pos == to
    {
      pos := to;
    }

    method Read(buffer: array<Byte>, offset: nat, want: nat) returns (n: nat)
      requires Reads() && offset + want <= buffer.Length
      modifies this, buffer
      ensures n <= Min(want, maximum) && pos == old(pos) + n
      ensures pos <= |data| || n == 0
      ensures Delivers(data, old(pos), want, minimum, buffer[offset..offset + n])
      ensures buffer[..offset] == old(buffer[..offset])
    {
      var available := if pos <= |data| then |data| - pos else 0;
      var most := Min(want, available);
      var least, upper := Min(minimum, most), Min(maximum, most);
      n :| least <= n <= upper;
      forall i | 0 <= i < n {
        buffer[offset + i] := data[pos + i];
      }
      pos := pos + n;
    }

    /** `read_exact`: reads again until the buffer is full or the file ends. */
    method ReadExact(buffer: array<Byte>, want: nat) returns (ok: bool)
      requires Reads() && want <= buffer.Length && pos <= |data|
      modifies this, buffer
      ensures ok <==> old(pos) + want <= |data|
      ensures ok ==> pos == old(pos) + want && buffer[..want] == data[old(pos)..pos]
    {
      var got := 0;
      while got < want
        invariant got <= want && pos == old(pos) + got <= |data|
        invariant buffer[..got] == data[old(pos)..pos]
      {
        var n := Read(buffer, got, want - got);
        if n == 0 {
          return false;
        }
        assert buffer[..got + n] == buffer[..got] + buffer[got..got + n];
        assert data[old(pos)..pos] == data[old(pos)..pos - n] + data[pos - n..pos];
        got := got + n;
      }
      ok := true;
    }
  }

  // ----- records -----

  datatype Record = Record(offset: nat, kind: nat, bodyLength: nat)

  predicate KnownKind(kind: nat) {
    kind in {0x0006, 0x0603, 0x0703, 0x0023}
  }

  /** A record header lies at `at`, wholly before `end`. */
  predicate RecordAt(data: seq<Byte>, at: nat, end: nat)
    requires end <= |data|
  {
    && at + RECORD_HEADER_SIZE <= end
    && U32At(data, at + 4) == RECORD_MAGIC
    && KnownKind(U16(data, at))
  }

  function RecordOf(data: seq<Byte>, at: nat): Record
    requires at + RECORD_HEADER_SIZE <= |data|
  {
    Record(at, U16(data, at), U16(data, at + 8))
  }

  lemma TwoBytes(data: seq<Byte>, at: nat, low: Byte, high: Byte)
    requires at + 2 <= |data|
    ensures U16(data, at) == low as int + 256 * (high as int) <==> data[at..at + 2] == [low, high]
  {
    assert data[at..at + 2] == [data[at], data[at + 1]];
  }

  lemma TwoWords(x: nat, y: nat, u: nat, v: nat)
    requires x < 0x1_0000 && u < 0x1_0000 && x + 0x1_0000 * y == u + 0x1_0000 * v
    ensures x == u && y == v
  {
  }

  /**
   * The bytes of a record header: two for its kind, two of any value, the four bytes D8 18 2F 01, and
   * two for the length of its body; numbers have their low byte first.
   */
  lemma RecordBytes(data: seq<Byte>, at: nat)
    ensures RecordAt(data, at, |data|)
            <==> at + 10 <= |data| && data[at + 4..at + 8] == [0xD8, 0x18, 0x2F, 0x01]
                 && (|| data[at..at + 2] == [0x06, 0x00] || data[at..at + 2] == [0x03, 0x06]
                     || data[at..at + 2] == [0x03, 0x07] || data[at..at + 2] == [0x23, 0x00])
    ensures RecordAt(data, at, |data|) ==>
              && (RecordOf(data, at).kind == 0x0006 <==> data[at..at + 2] == [0x06, 0x00])
              && (RecordOf(data, at).kind == 0x0603 <==> data[at..at + 2] == [0x03, 0x06])
              && (RecordOf(data, at).kind == 0x0703 <==> data[at..at + 2] == [0x03, 0x07])
              && (RecordOf(data, at).kind == 0x0023 <==> data[at..at + 2] == [0x23, 0x00])
              && RecordOf(data, at).bodyLength == data[at + 8] as int + 256 * (data[at + 9] as int)
  {
    if at + 10 <= |data| {
      TwoBytes(data, at, 0x06, 0x00);
      TwoBytes(data, at, 0x03, 0x06);
      TwoBytes(data, at, 0x03, 0x07);
      TwoBytes(data, at, 0x23, 0x00);
      MagicBytes(data, at + 4);
      BodyLengthBytes(data, at);
      hide U16, U32At;
    }
  }

  lemma BodyLengthBytes(data: seq<Byte>, at: nat)
    requires at + 10 <= |data|
    ensures U16(data, at + 8) == data[at + 8] as int + 256 * (data[at + 9] as int)
  {
  }

  lemma MagicBytes(data: seq<Byte>, at: nat)
    requires at + 4 <= |data|
    ensures U32At(data, at) == RECORD_MAGIC <==> data[at..at + 4] == [0xD8, 0x18, 0x2F, 0x01]
  {
    TwoBytes(data, at, 0xD8, 0x18);
    TwoBytes(data, at + 2, 0x2F, 0x01);
    assert data[at..at + 4] == data[at..at + 2] + data[at + 2..at + 4];
    if U32At(data, at) == RECORD_MAGIC {
      TwoWords(U16(data, at), U16(data, at + 2), 0x18D8, 0x012F);
    }
  }

  /** The first record at or after `start`: every offset is tried in turn. */
  function FirstRecord(data: seq<Byte>, start: nat, end: nat): (r: Option<Record>)
    requires end <= |data|
    ensures r.Some? ==> start <= r.value.offset && RecordAt(data, r.value.offset, end)
    ensures r.Some? ==> r.value == RecordOf(data, r.value.offset)
    ensures forall k :: start <= k < (if r.Some? then r.value.offset else end) ==> !RecordAt(data, k, end)
    decreases end - start
  {
    if start + RECORD_HEADER_SIZE > end then None
    else if RecordAt(data, start, end) then Some(RecordOf(data, start))
    else FirstRecord(data, start + 1, end)
  }

  lemma FirstRecordIs(data: seq<Byte>, start: nat, at: nat, end: nat)
    requires end <= |data| && start <= at && RecordAt(data, at, end)
    requires forall k :: start <= k < at ==> !RecordAt(data, k, end)
    ensures FirstRecord(data, start, end) == Some(RecordOf(data, at))
  {
    var r := FirstRecord(data, start, end);
  }

  lemma WindowShowsRecords(data: seq<Byte>, offset: nat, window: seq<Byte>, i: nat, end: nat)
    requires offset + |window| <= end <= |data| && window == data[offset..offset + |window|]
    requires i + RECORD_HEADER_SIZE <= |window|
    ensures RecordAt(data, offset + i, end) <==> U32At(window, i + 4) == RECORD_MAGIC && KnownKind(U16(window, i))
    ensures RecordOf(data, offset + i) == Record(offset + i, U16(window, i), U16(window, i + 8))
  {
    forall k | i <= k < i + RECORD_HEADER_SIZE
      ensures window[k] == data[offset + k]
    {
    }
  }

  /**
   * `find_record`: scans 64 KiB windows that overlap by nine bytes, and gives up when a read delivers
   * fewer than ten bytes. Unless it gives up it returns the first record; giving up, which a reader
   * that never cuts a read below ten bytes spares it, it returns none. So it misses a record exactly
   * when it gives up and there is one.
   */
  method FindRecord(reader: Reader, start: nat, end: nat) returns (r: Option<Record>, ghost gaveUp: bool)
    requires reader.Reads() && end <= |reader.data|
    modifies reader
    ensures r == if gaveUp then None else FirstRecord(reader.data, start, end)
    ensures gaveUp ==> reader.minimum < RECORD_HEADER_SIZE && start < end
    ensures reader.maximum < RECORD_HEADER_SIZE && start + RECORD_HEADER_SIZE <= end ==> gaveUp
  {
    hide FirstRecord, RecordAt, RecordOf, U16, U32At, KnownKind;
    var offset := start;
    var data := reader.data;
    var buffer := new Byte[WINDOW_SIZE](_ => 0);
    while offset < end
      invariant start <= offset
      invariant reader.maximum < RECORD_HEADER_SIZE ==> offset == start
      invariant forall k :: start <= k < offset ==> !RecordAt(data, k, end)
      decreases end - offset
    {
      reader.Seek(offset);
      var remaining := Min(end - offset, buffer.Length);
      var read := reader.Read(buffer, 0, remaining);
      if read < RECORD_HEADER_SIZE {
        if offset + RECORD_HEADER_SIZE > end {
          NoRoomForRecord(data, start, offset, end);
          return None, false;
        }
        return None, true;
      }
      var window := buffer[..read];
      for i := 0 to read - RECORD_HEADER_SIZE + 1
        invariant window == data[offset..offset + read]
        invariant forall k :: start <= k < offset + i ==> !RecordAt(data, k, end)
      {
        WindowShowsRecords(data, offset, window, i, end);
        if U32At(window, i + 4) == RECORD_MAGIC {
          var kind := U16(window, i);
          if KnownKind(kind) {
            FirstRecordIs(data, start, offset + i, end);
            return Some(Record(offset + i, kind, U16(window, i + 8))), false;
          }
        }
      }
      offset := offset + (read - (RECORD_HEADER_SIZE - 1));
    }
    NoRoomForRecord(data, start, offset, end);
    return None, false;
  }

  /** A file that is nothing but one partition record. */
  const ONE_RECORD: seq<Byte> := [0x03, 0x06, 0, 0, 0xd8, 0x18, 0x2f, 0x01, 0, 0]

  /** Reads of five bytes at a time miss the one record of that file. */
  method ShortReadsMissARecord() returns (found: Option<Record>)
    ensures found.None? && FirstRecord(ONE_RECORD, 0, |ONE_RECORD|) == Some(Record(0, 0x0603, 0))
  {
    var reader := new Reader(ONE_RECORD, 5, 5);
    ghost var gaveUp;
    found, gaveUp := FindRecord(reader, 0, |ONE_RECORD|);
    assert RecordAt(ONE_RECORD, 0, |ONE_RECORD|);
  }

  lemma NoRoomForRecord(data: seq<Byte>, start: nat, offset: nat, end: nat)
    requires end <= |data| && start <= offset && offset + RECORD_HEADER_SIZE > end
    requires forall k :: start <= k < offset ==> !RecordAt(data, k, end)
    ensures FirstRecord(data, start, end) == None
  {
    var r := FirstRecord(data, start, end);
  }
}
