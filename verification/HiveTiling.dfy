/** Registry hives as bytes: bins tiled by cells, from crates/bcd/src/lib.rs. */
module HiveTiling {
  import opened Common

  const REGF_HEADER_BYTES: nat := 4096
  const BIN_HEADER: nat := 32
  const TWO31: int := 0x8000_0000
  const TWO32: int := 0x1_0000_0000

  type Bytes = seq<Byte>

  // ----- words -----

  function Word(b: Bytes, at: nat): (v: nat)
    requires at + 4 <= |b|
    ensures v < TWO32
  {
    b[at] as int + 0x100 * (b[at + 1] as int) + 0x1_0000 * (b[at + 2] as int) + 0x100_0000 * (b[at + 3] as int)
  }

  /** The same four bytes as a signed integer. */
  function Signed(b: Bytes, at: nat): (v: int)
    requires at + 4 <= |b|
    ensures -TWO31 <= v < TWO31
  {
    if Word(b, at) >= TWO31 then Word(b, at) - TWO32 else Word(b, at)
  }

  /** The bytes of a signed or unsigned 32-bit value, low byte first. */
  function Le32(v: int): (r: Bytes)
    requires -TWO31 <= v < TWO32
    ensures |r| == 4
  {
    var u := if v < 0 then v + TWO32 else v;
    [u % 0x100, u / 0x100 % 0x100, u / 0x1_0000 % 0x100, u / 0x100_0000]
  }

  /** `b` with `v` written over it at `at`. */
  function Put(b: Bytes, at: nat, v: Bytes): (r: Bytes)
    requires at + |v| <= |b|
    ensures |r| == |b|
  {
    b[..at] + v + b[at + |v|..]
  }

  lemma PutReads(b: Bytes, at: nat, v: Bytes)
    requires at + |v| <= |b|
    ensures Put(b, at, v)[at..at + |v|] == v
    ensures forall k :: 0 <= k < |b| && !(at <= k < at + |v|) ==> Put(b, at, v)[k] == b[k]
  {
  }

  lemma PutWord(b: Bytes, at: nat, v: int)
    requires at + 4 <= |b| && -TWO31 <= v < TWO32
    ensures Word(Put(b, at, Le32(v)), at) == if v < 0 then v + TWO32 else v
    ensures -TWO31 <= v < TWO31 ==> Signed(Put(b, at, Le32(v)), at) == v
  {
    var w := Le32(v);
    Le32Value(if v < 0 then v + TWO32 else v);
    PutReads(b, at, w);
    hide Put, Le32;
    var p := Put(b, at, w);
    assert p[at] == p[at..at + 4][0] && p[at + 1] == p[at..at + 4][1];
    assert p[at + 2] == p[at..at + 4][2] && p[at + 3] == p[at..at + 4][3];
  }

  lemma Le32Value(u: nat)
    requires u < TWO32
    ensures u % 0x100 + 0x100 * (u / 0x100 % 0x100) + 0x1_0000 * (u / 0x1_0000 % 0x100)
              + 0x100_0000 * (u / 0x100_0000) == u
  {
  }

  predicate Agree(a: Bytes, b: Bytes, lo: nat, hi: nat)
    requires |a| == |b|
  {
    forall k :: lo <= k < hi && k < |a| ==> a[k] == b[k]
  }

  lemma AgreeOnWord(a: Bytes, b: Bytes, at: nat)
    requires |a| == |b| && at + 4 <= |a| && Agree(a, b, at, at + 4)
    ensures Word(a, at) == Word(b, at) && Signed(a, at) == Signed(b, at)
  {
  }

  // ----- cells and bins -----

  function SizeAt(b: Bytes, cell: nat): nat
    requires cell + 4 <= |b|
  {
    if Signed(b, cell) < 0 then -Signed(b, cell) else Signed(b, cell)
  }

  /** A cell header that may stand at `cell` in a bin that ends at `end`. */
  predicate CellOk(b: Bytes, cell: nat, end: nat)
    requires end <= |b|
  {
    && cell + 4 <= end
    && Signed(b, cell) != -TWO31
    && SizeAt(b, cell) >= 8 && SizeAt(b, cell) % 8 == 0
    && cell + SizeAt(b, cell) <= end
  }

  /** Cells lie one behind the other from `cell` exactly to `end`. */
  predicate CellsTile(b: Bytes, cell: nat, end: nat)
    requires end <= |b|
    decreases end - cell
  {
    cell == end || (CellOk(b, cell, end) && CellsTile(b, cell + SizeAt(b, cell), end))
  }

  predicate BinOk(b: Bytes, bin: nat) {
    && bin + BIN_HEADER <= |b|
    && b[bin..bin + 4] == [0x68, 0x62, 0x69, 0x6e]
    && Word(b, bin + 8) >= BIN_HEADER
    && bin + Word(b, bin + 8) <= |b|
  }

  function BinEnd(b: Bytes, bin: nat): nat
    requires bin + BIN_HEADER <= |b|
  {
    bin + Word(b, bin + 8)
  }

  /** Bins lie one behind the other from `bin`; fewer than 32 bytes may be left over at the end. */
  predicate BinsTile(b: Bytes, bin: nat)
    decreases |b| - bin
  {
    || bin + BIN_HEADER > |b|
    || (BinOk(b, bin) && CellsTile(b, bin + BIN_HEADER, BinEnd(b, bin)) && BinsTile(b, BinEnd(b, bin)))
  }

  predicate WellTiled(b: Bytes) {
    |b| >= REGF_HEADER_BYTES && BinsTile(b, REGF_HEADER_BYTES)
  }

  /** The offsets of the cells from `cell` to `end`, in order. */
  function CellsFrom(b: Bytes, cell: nat, end: nat): seq<nat>
    requires end <= |b| && CellsTile(b, cell, end)
    decreases end - cell
  {
    if cell == end then [] else [cell] + CellsFrom(b, cell + SizeAt(b, cell), end)
  }

  function CellsInBins(b: Bytes, bin: nat): seq<nat>
    requires BinsTile(b, bin)
    decreases |b| - bin
  {
    if bin + BIN_HEADER > |b| then []
    else CellsFrom(b, bin + BIN_HEADER, BinEnd(b, bin)) + CellsInBins(b, BinEnd(b, bin))
  }

  /** Every cell of a hive, in file order. */
  function Cells(b: Bytes): seq<nat>
    requires WellTiled(b)
  {
    CellsInBins(b, REGF_HEADER_BYTES)
  }

  predicate Fits(b: Bytes, cell: nat, required: nat)
    requires cell + 4 <= |b|
  {
    Signed(b, cell) > 0 && Signed(b, cell) >= required
  }

  // ----- where cells lie -----

  lemma CellsFromBounds(b: Bytes, cell: nat, end: nat)
    requires end <= |b| && CellsTile(b, cell, end)
    ensures forall c :: c in CellsFrom(b, cell, end) ==> cell <= c && CellOk(b, c, end)
    ensures cell <= end
    decreases end - cell
  {
    hide Signed, SizeAt;
    if cell != end {
      CellsFromBounds(b, cell + SizeAt(b, cell), end);
    }
  }

  lemma CellsInBinsBounds(b: Bytes, bin: nat)
    requires BinsTile(b, bin)
    ensures forall c :: c in CellsInBins(b, bin) ==> bin + BIN_HEADER <= c && CellOk(b, c, |b|)
    decreases |b| - bin
  {
    hide Signed, SizeAt, Word;
    if bin + BIN_HEADER <= |b| {
      CellsFromBounds(b, bin + BIN_HEADER, BinEnd(b, bin));
      CellsInBinsBounds(b, BinEnd(b, bin));
    }
  }

  /** Offset `p` is inside one of the cells. */
  predicate InSomeCell(b: Bytes, cells: seq<nat>, p: nat) {
    exists i :: 0 <= i < |cells| && cells[i] + 4 <= |b| && cells[i] <= p < cells[i] + SizeAt(b, cells[i])
  }

  /** Offset `p` is inside a bin header, which begins with "hbin". */
  ghost predicate InBinHeader(b: Bytes, p: nat) {
    exists h: nat :: BeginsHbin(b, h) && h <= p < h + 32
  }

  predicate BeginsHbin(b: Bytes, h: nat) {
    h + 32 <= |b| && b[h..h + 4] == [0x68, 0x62, 0x69, 0x6E]
  }

  lemma InSomeOfConcat(b: Bytes, here: seq<nat>, rest: seq<nat>, p: nat)
    requires InSomeCell(b, here, p) || InSomeCell(b, rest, p)
    ensures InSomeCell(b, here + rest, p)
  {
    hide SizeAt;
    var both := here + rest;
    if i :| 0 <= i < |here| && here[i] + 4 <= |b| && here[i] <= p < here[i] + SizeAt(b, here[i]) {
      assert both[i] == here[i];
    } else {
      var i :| 0 <= i < |rest| && rest[i] + 4 <= |b| && rest[i] <= p < rest[i] + SizeAt(b, rest[i]);
      assert both[|here| + i] == rest[i];
    }
  }

  lemma {:induction false} CellsCover(b: Bytes, cell: nat, end: nat, p: nat)
    requires end <= |b| && CellsTile(b, cell, end) && cell <= p < end
    ensures InSomeCell(b, CellsFrom(b, cell, end), p)
    decreases end - cell
  {
    hide SizeAt, InSomeCell;
    FirstCell(b, cell, end);
    var next := cell + SizeAt(b, cell);
    if p < next {
      OneCell(b, cell, p);
      InSomeOfConcat(b, [cell], CellsFrom(b, next, end), p);
    } else {
      CellsCover(b, next, end, p);
      InSomeOfConcat(b, [cell], CellsFrom(b, next, end), p);
    }
  }

  lemma OneCell(b: Bytes, cell: nat, p: nat)
    requires cell + 4 <= |b| && cell <= p < cell + SizeAt(b, cell)
    ensures InSomeCell(b, [cell], p)
  {
    assert [cell][0] == cell;
  }

  lemma {:induction false} BinsCover(b: Bytes, bin: nat, p: nat)
    requires BinsTile(b, bin) && bin <= p && p + 32 <= |b|
    ensures InBinHeader(b, p) || InSomeCell(b, CellsInBins(b, bin), p)
    decreases |b| - bin
  {
    hide SizeAt, InSomeCell, Word;
    BinEndBounds(b, bin);
    var first, end := bin + BIN_HEADER, BinEnd(b, bin);
    if p < first {
      assert BeginsHbin(b, bin);
    } else if p < end {
      CellsCover(b, first, end, p);
      InSomeOfConcat(b, CellsFrom(b, first, end), CellsInBins(b, end), p);
    } else {
      BinsCover(b, end, p);
      if InSomeCell(b, CellsInBins(b, end), p) {
        InSomeOfConcat(b, CellsFrom(b, first, end), CellsInBins(b, end), p);
      }
    }
  }

  /**
   * In a well-tiled hive every byte behind the file header, but for fewer than 32 at the very end, is
   * part of a bin header or of a cell.
   */
  lemma EveryByteIsCovered(b: Bytes, p: nat)
    requires WellTiled(b) && 4096 <= p && p + 32 <= |b|
    ensures InBinHeader(b, p) || InSomeCell(b, Cells(b), p)
  {
    BinsCover(b, REGF_HEADER_BYTES, p);
  }

  lemma BinEndBounds(b: Bytes, bin: nat)
    requires BinOk(b, bin)
    ensures bin + BIN_HEADER <= BinEnd(b, bin) <= |b|
  {
  }

  lemma CellsFromApart(b: Bytes, cell: nat, end: nat, c: nat, d: nat)
    requires end <= |b| && CellsTile(b, cell, end)
    requires c in CellsFrom(b, cell, end) && d in CellsFrom(b, cell, end) && c < d
    ensures c + 4 <= |b| && c + SizeAt(b, c) <= d
    decreases end - cell
  {
    hide Signed, SizeAt;
    CellsFromBounds(b, cell, end);
    var next := cell + SizeAt(b, cell);
    CellsFromBounds(b, next, end);
    if c != cell {
      CellsFromApart(b, next, end, c, d);
    }
  }

  /** Distinct cells do not overlap. */
  lemma CellsInBinsApart(b: Bytes, bin: nat, c: nat, d: nat)
    requires BinsTile(b, bin)
    requires c in CellsInBins(b, bin) && d in CellsInBins(b, bin) && c < d
    ensures c + 4 <= |b| && c + SizeAt(b, c) <= d
    decreases |b| - bin
  {
    hide Signed, SizeAt, Word, BinOk;
    BinEndBounds(b, bin);
    CellsFromBounds(b, bin + BIN_HEADER, BinEnd(b, bin));
    CellsInBinsBounds(b, BinEnd(b, bin));
    var here := CellsFrom(b, bin + BIN_HEADER, BinEnd(b, bin));
    if c in here && d in here {
      CellsFromApart(b, bin + BIN_HEADER, BinEnd(b, bin), c, d);
    } else if c !in here && d !in here {
      CellsInBinsApart(b, BinEnd(b, bin), c, d);
    }
  }

  lemma CellsApart(b: Bytes, c: nat, d: nat)
    requires WellTiled(b) && c in Cells(b) && d in Cells(b) && c < d
    ensures REGF_HEADER_BYTES + BIN_HEADER <= c
    ensures CellOk(b, c, |b|) && CellOk(b, d, |b|) && c + SizeAt(b, c) <= d
  {
    hide Signed, SizeAt;
    CellsInBinsBounds(b, REGF_HEADER_BYTES);
    CellsInBinsApart(b, REGF_HEADER_BYTES, c, d);
  }

  // ----- when edits keep the tiling -----

  /** Every one of `cells`, except perhaps one, has the same size in both hives. */
  predicate SizesKept(a: Bytes, b: Bytes, cells: seq<nat>, except: Option<nat>)
    requires |a| == |b|
  {
    forall d :: d in cells ==> d + 4 <= |a| && (except != Some(d) ==> SizeAt(b, d) == SizeAt(a, d))
  }

  lemma KeptInParts(a: Bytes, b: Bytes, front: seq<nat>, back: seq<nat>, except: Option<nat>)
    requires |a| == |b| && SizesKept(a, b, front + back, except)
    ensures SizesKept(a, b, front, except) && SizesKept(a, b, back, except)
    ensures except.Some? && except.value !in front ==> SizesKept(a, b, front, None)
    ensures except.Some? && except.value !in back ==> SizesKept(a, b, back, None)
  {
    hide SizeAt;
    assert forall d :: d in front || d in back ==> d in front + back;
  }

  lemma KeptFirst(a: Bytes, b: Bytes, cell: nat, rest: seq<nat>, except: Option<nat>)
    requires |a| == |b| && SizesKept(a, b, [cell] + rest, except)
    ensures cell + 4 <= |a| && (except != Some(cell) ==> SizeAt(b, cell) == SizeAt(a, cell))
  {
    hide SizeAt;
    assert cell in [cell] + rest;
  }

  lemma FirstCell(a: Bytes, cell: nat, end: nat)
    requires end <= |a| && CellsTile(a, cell, end) && cell != end
    ensures CellOk(a, cell, end) && cell + 4 <= |a| && 0 < SizeAt(a, cell) <= end - cell
              && CellsTile(a, cell + SizeAt(a, cell), end)
    ensures CellsFrom(a, cell, end) == [cell] + CellsFrom(a, cell + SizeAt(a, cell), end)
    ensures cell !in CellsFrom(a, cell + SizeAt(a, cell), end)
  {
    hide Word, Signed, SizeAt;
    CellsFromBounds(a, cell, end);
    CellsFromBounds(a, cell + SizeAt(a, cell), end);
  }

  lemma OneMoreCell(b: Bytes, cell: nat, end: nat)
    requires end <= |b| && CellOk(b, cell, end) && CellsTile(b, cell + SizeAt(b, cell), end)
    ensures CellsTile(b, cell, end) && CellsFrom(b, cell, end) == [cell] + CellsFrom(b, cell + SizeAt(b, cell), end)
  {
    hide Word, Signed, SizeAt;
  }

  lemma CellOkKept(a: Bytes, b: Bytes, cell: nat, end: nat)
    requires |a| == |b| && end <= |a| && CellOk(a, cell, end) && SizeAt(b, cell) == SizeAt(a, cell)
    ensures CellOk(b, cell, end)
  {
    hide Word;
  }

  lemma CellsFromFrame(a: Bytes, b: Bytes, cell: nat, end: nat)
    requires |a| == |b| && end <= |a| && CellsTile(a, cell, end)
    requires SizesKept(a, b, CellsFrom(a, cell, end), None)
    ensures CellsTile(b, cell, end) && CellsFrom(b, cell, end) == CellsFrom(a, cell, end)
    decreases end - cell
  {
    if cell != end {
      hide *;
      FirstCell(a, cell, end);
      var next := cell + SizeAt(a, cell);
      KeptFirst(a, b, cell, CellsFrom(a, next, end), None);
      KeptInParts(a, b, [cell], CellsFrom(a, next, end), None);
      CellsFromFrame(a, b, next, end);
      CellOkKept(a, b, cell, end);
      OneMoreCell(b, cell, end);
    }
  }

  /** A bin header that has not been touched. */
  predicate BinsAgree(a: Bytes, b: Bytes, bin: nat)
    requires |a| == |b| && BinsTile(a, bin)
    decreases |a| - bin
  {
    bin + BIN_HEADER <= |a| ==> Agree(a, b, bin, bin + BIN_HEADER) && BinsAgree(a, b, BinEnd(a, bin))
  }

  lemma BinAgrees(a: Bytes, b: Bytes, bin: nat)
    requires |a| == |b| && BinOk(a, bin) && Agree(a, b, bin, bin + BIN_HEADER)
    ensures BinOk(b, bin) && BinEnd(b, bin) == BinEnd(a, bin)
  {
    AgreeOnWord(a, b, bin + 8);
    assert a[bin..bin + 4] == b[bin..bin + 4];
  }

  /** If bin headers stay and every cell keeps its size, the bins are tiled by the same cells. */
  lemma BinsFrame(a: Bytes, b: Bytes, bin: nat)
    requires |a| == |b| && BinsTile(a, bin) && BinsAgree(a, b, bin)
    requires SizesKept(a, b, CellsInBins(a, bin), None)
    ensures BinsTile(b, bin) && CellsInBins(b, bin) == CellsInBins(a, bin)
    decreases |a| - bin
  {
    hide Word, Signed, SizeAt, BinOk, SizesKept, CellsTile, CellsFrom;
    if bin + BIN_HEADER <= |a| {
      BinAgrees(a, b, bin);
      BinEndBounds(a, bin);
      var here, rest := CellsFrom(a, bin + BIN_HEADER, BinEnd(a, bin)), CellsInBins(a, BinEnd(a, bin));
      KeptInParts(a, b, here, rest, None);
      CellsFromFrame(a, b, bin + BIN_HEADER, BinEnd(a, bin));
      BinsFrame(a, b, BinEnd(a, bin));
    }
  }

  lemma BinEndIsLater(a: Bytes, bin: nat)
    requires BinOk(a, bin)
    ensures bin < BinEnd(a, bin)
  {
  }

  // ----- splitting a cell -----

  /** The same cells and one more. */
  ghost predicate GainsOne(after: seq<nat>, before: seq<nat>, one: nat) {
    forall d :: d in after <==> d in before || d == one
  }

  lemma GainsInParts(front: seq<nat>, back: seq<nat>, front': seq<nat>, back': seq<nat>, one: nat)
    requires (GainsOne(front', front, one) && back' == back) || (front' == front && GainsOne(back', back, one))
    ensures GainsOne(front' + back', front + back, one)
  {
  }

  /** The first cell of a run is split in two. */
  lemma SplitFirst(a: Bytes, b: Bytes, cell: nat, end: nat, r: nat)
    requires |a| == |b| && end <= |a| && cell != end && CellsTile(a, cell, end)
    requires SizesKept(a, b, CellsFrom(a, cell, end), Some(cell))
    requires CellOk(b, cell, end) && CellOk(a, cell, end) && SizeAt(b, cell) == r < SizeAt(a, cell)
    requires CellOk(b, cell + r, end) && SizeAt(b, cell + r) == SizeAt(a, cell) - r
    ensures CellsTile(b, cell, end) && CellsTile(a, cell + SizeAt(a, cell), end)
    ensures CellsFrom(b, cell, end) == [cell] + ([cell + r] + CellsFrom(a, cell + SizeAt(a, cell), end))
  {
    hide Word, Signed, SizeAt, CellsTile, CellsFrom, CellOk, SizesKept;
    FirstCell(a, cell, end);
    var next := cell + SizeAt(a, cell);
    KeptInParts(a, b, [cell], CellsFrom(a, next, end), Some(cell));
    CellsFromFrame(a, b, next, end);
    OneMoreCell(b, cell + r, end);
    OneMoreCell(b, cell, end);
  }

  lemma SplitCells(a: Bytes, b: Bytes, cell: nat, end: nat, c: nat, r: nat)
    requires |a| == |b| && end <= |a| && CellsTile(a, cell, end)
    requires c in CellsFrom(a, cell, end)
    requires SizesKept(a, b, CellsFrom(a, cell, end), Some(c))
    requires CellOk(b, c, end) && c + 4 <= |a| && SizeAt(b, c) == r < SizeAt(a, c)
    requires CellOk(b, c + r, end) && SizeAt(b, c + r) == SizeAt(a, c) - r
    ensures CellsTile(b, cell, end)
    ensures GainsOne(CellsFrom(b, cell, end), CellsFrom(a, cell, end), c + r)
    decreases end - cell
  {
    NotEmpty(a, cell, end, c);
    hide Word, Signed, SizeAt, CellOk, CellsTile, CellsFrom, SizesKept, GainsOne;
    FirstCell(a, cell, end);
    var next := cell + SizeAt(a, cell);
    var rest := CellsFrom(a, next, end);
    if c == cell {
      SplitFirst(a, b, cell, end, r);
      InsertSecond(cell, c + r, rest);
    } else {
      KeptFirst(a, b, cell, rest, Some(c));
      KeptInParts(a, b, [cell], rest, Some(c));
      SplitCells(a, b, next, end, c, r);
      CellOkKept(a, b, cell, end);
      OneMoreCell(b, cell, end);
      GainsInParts([cell], rest, [cell], CellsFrom(b, next, end), c + r);
    }
  }

  lemma InsertSecond(first: nat, second: nat, rest: seq<nat>)
    ensures GainsOne([first] + ([second] + rest), [first] + rest, second)
  {
  }

  lemma NotEmpty(a: Bytes, cell: nat, end: nat, c: nat)
    requires end <= |a| && CellsTile(a, cell, end) && c in CellsFrom(a, cell, end)
    ensures cell != end
  {
  }

  lemma SplitBins(a: Bytes, b: Bytes, bin: nat, c: nat, r: nat)
    requires |a| == |b| && BinsTile(a, bin) && BinsAgree(a, b, bin)
    requires c in CellsInBins(a, bin) && c + 4 <= |a|
    requires SizesKept(a, b, CellsInBins(a, bin), Some(c))
    requires c + SizeAt(a, c) <= |a| && 8 <= r <= SizeAt(a, c) - 8 && r % 8 == 0
    requires SizeAt(b, c) == r && Signed(b, c) != -TWO31
    requires SizeAt(b, c + r) == SizeAt(a, c) - r && Signed(b, c + r) != -TWO31
    ensures BinsTile(b, bin)
    ensures GainsOne(CellsInBins(b, bin), CellsInBins(a, bin), c + r)
    decreases |a| - bin
  {
    hide Word, Signed, SizeAt, BinOk, CellOk, CellsTile, CellsFrom, SizesKept, GainsOne;
    BinEndBounds(a, bin);
    BinAgrees(a, b, bin);
    var start, end := bin + BIN_HEADER, BinEnd(a, bin);
    var here, rest := CellsFrom(a, start, end), CellsInBins(a, end);
    KeptInParts(a, b, here, rest, Some(c));
    if c in here {
      NotInLaterBins(a, start, end, c);
      SplitOk(a, b, start, end, c, r);
      SplitCells(a, b, start, end, c, r);
      BinsFrame(a, b, end);
    } else {
      CellsFromFrame(a, b, start, end);
      SplitBins(a, b, end, c, r);
    }
    GainsInParts(here, rest, CellsFrom(b, start, end), CellsInBins(b, end), c + r);
  }

  lemma NotInLaterBins(a: Bytes, start: nat, end: nat, c: nat)
    requires end <= |a| && CellsTile(a, start, end) && c in CellsFrom(a, start, end) && BinsTile(a, end)
    ensures c !in CellsInBins(a, end)
  {
    hide Word, Signed, SizeAt;
    CellsFromBounds(a, start, end);
    CellsInBinsBounds(a, end);
  }

  lemma SplitOk(a: Bytes, b: Bytes, start: nat, end: nat, c: nat, r: nat)
    requires |a| == |b| && end <= |a| && CellsTile(a, start, end) && c in CellsFrom(a, start, end)
    requires c + 4 <= |a| && c + SizeAt(a, c) <= |a| && 8 <= r <= SizeAt(a, c) - 8 && r % 8 == 0
    requires SizeAt(b, c) == r && Signed(b, c) != -TWO31
    requires SizeAt(b, c + r) == SizeAt(a, c) - r && Signed(b, c + r) != -TWO31
    ensures CellOk(b, c, end) && CellOk(b, c + r, end)
  {
    hide Word, Signed, SizeAt;
    CellsFromBounds(a, start, end);
  }

  // ----- edits inside up to three cells -----

  predicate InCell(b: Bytes, k: nat, c: nat) {
    c + 4 <= |b| && c <= k < c + SizeAt(b, c)
  }

  /** Behind the file header, `b` differs from `a` only inside the cells `x`, `y` and `z`. */
  predicate Outside(a: Bytes, b: Bytes, x: nat, y: nat, z: nat) {
    |a| == |b| &&
    forall k :: REGF_HEADER_BYTES <= k < |a| && !InCell(a, k, x) && !InCell(a, k, y) && !InCell(a, k, z) ==>
        a[k] == b[k]
  }

  /** A cell of the bins from `bin` on, or one that ends before them. */
  predicate Placed(a: Bytes, bin: nat, c: nat)
    requires BinsTile(a, bin)
  {
    c + 4 <= |a| && (c + SizeAt(a, c) <= bin || c in CellsInBins(a, bin))
  }

  lemma PlacedSparesHeader(a: Bytes, bin: nat, c: nat)
    requires bin + BIN_HEADER <= |a| && BinsTile(a, bin) && Placed(a, bin, c)
    ensures forall k :: bin <= k < bin + BIN_HEADER ==> !InCell(a, k, c)
    ensures Placed(a, BinEnd(a, bin), c)
  {
    hide Word, Signed, SizeAt, BinOk;
    BinEndBounds(a, bin);
    CellsFromBounds(a, bin + BIN_HEADER, BinEnd(a, bin));
    CellsInBinsBounds(a, BinEnd(a, bin));
    assert CellsInBins(a, bin) == CellsFrom(a, bin + BIN_HEADER, BinEnd(a, bin)) + CellsInBins(a, BinEnd(a, bin));
    assert c + SizeAt(a, c) <= bin || bin + BIN_HEADER <= c;
  }

  lemma CellIsPlaced(a: Bytes, c: nat)
    requires WellTiled(a) && c in Cells(a)
    ensures Placed(a, REGF_HEADER_BYTES, c)
  {
    hide Word, Signed, SizeAt;
    CellsInBinsBounds(a, REGF_HEADER_BYTES);
  }

  lemma HeadersSpared(a: Bytes, b: Bytes, bin: nat, x: nat, y: nat, z: nat)
    requires Outside(a, b, x, y, z) && REGF_HEADER_BYTES <= bin && BinsTile(a, bin)
    requires Placed(a, bin, x) && Placed(a, bin, y) && Placed(a, bin, z)
    ensures BinsAgree(a, b, bin)
    decreases |a| - bin
  {
    hide Word, Signed, SizeAt, BinOk, Placed, InCell;
    if bin + BIN_HEADER <= |a| {
      BinEndIsLater(a, bin);
      PlacedSparesHeader(a, bin, x);
      PlacedSparesHeader(a, bin, y);
      PlacedSparesHeader(a, bin, z);
      HeadersSpared(a, b, BinEnd(a, bin), x, y, z);
    }
  }

  lemma TwoCells(a: Bytes, c: nat, d: nat)
    requires WellTiled(a) && c in Cells(a) && d in Cells(a)
    ensures REGF_HEADER_BYTES + BIN_HEADER <= c && REGF_HEADER_BYTES + BIN_HEADER <= d
    ensures CellOk(a, c, |a|) && CellOk(a, d, |a|)
    ensures c != d ==> c + SizeAt(a, c) <= d || d + SizeAt(a, d) <= c
  {
    hide Signed, SizeAt;
    CellsInBinsBounds(a, REGF_HEADER_BYTES);
    if c < d {
      CellsApart(a, c, d);
    } else if d < c {
      CellsApart(a, d, c);
    }
  }

  predicate CellKept(a: Bytes, b: Bytes, d: nat)
    requires |a| == |b|
  {
    && d + 4 <= |a| && Signed(b, d) == Signed(a, d) && SizeAt(b, d) == SizeAt(a, d)
    && d + SizeAt(a, d) <= |a| && Agree(a, b, d, d + SizeAt(a, d))
  }

  lemma OtherCellKept(a: Bytes, b: Bytes, x: nat, y: nat, z: nat, d: nat)
    requires |a| == |b| && WellTiled(a) && Outside(a, b, x, y, z) && x in Cells(a) && y in Cells(a) && z in Cells(a)
    requires d in Cells(a) && d != x && d != y && d != z
    ensures CellKept(a, b, d)
  {
    hide Word, Signed, Cells, WellTiled;
    TwoCells(a, d, x);
    TwoCells(a, d, y);
    TwoCells(a, d, z);
    AgreeOnWord(a, b, d);
  }

  /** Edits inside three cells that keep their sizes keep the tiling and every other cell. */
  lemma EditInsideCells(a: Bytes, b: Bytes, x: nat, y: nat, z: nat)
    requires |a| == |b| && WellTiled(a) && Outside(a, b, x, y, z) && x in Cells(a) && y in Cells(a) && z in Cells(a)
    requires SizesKept(a, b, [x, y, z], None)
    ensures WellTiled(b) && Cells(b) == Cells(a)
    ensures forall d :: d in Cells(a) && d != x && d != y && d != z ==> CellKept(a, b, d)
  {
    hide Word, Signed, SizeAt, BinsTile, CellsInBins, BinsAgree, CellKept, Outside, SizesKept;
    CellIsPlaced(a, x);
    CellIsPlaced(a, y);
    CellIsPlaced(a, z);
    HeadersSpared(a, b, REGF_HEADER_BYTES, x, y, z);
    OtherCellsKept(a, b, x, y, z);
    CellSizesKept(a, b, x, y, z, None);
    BinsFrame(a, b, REGF_HEADER_BYTES);
  }

  lemma OtherCellsKept(a: Bytes, b: Bytes, x: nat, y: nat, z: nat)
    requires |a| == |b| && WellTiled(a) && Outside(a, b, x, y, z) && x in Cells(a) && y in Cells(a) && z in Cells(a)
    ensures forall d :: d in Cells(a) && d != x && d != y && d != z ==> CellKept(a, b, d)
  {
    hide CellKept, Outside, WellTiled, Cells;
    forall d | d in Cells(a) && d != x && d != y && d != z
      ensures CellKept(a, b, d)
    {
      OtherCellKept(a, b, x, y, z, d);
    }
  }

  lemma CellSizesKept(a: Bytes, b: Bytes, x: nat, y: nat, z: nat, except: Option<nat>)
    requires |a| == |b| && WellTiled(a)
    requires forall d :: d in Cells(a) && d != x && d != y && d != z ==> CellKept(a, b, d)
    requires SizesKept(a, b, [x, y, z], except)
    ensures SizesKept(a, b, Cells(a), except)
  {
    hide Cells, WellTiled, Agree, SizeAt, Signed;
    forall d | d in Cells(a)
      ensures d + 4 <= |a| && (except != Some(d) ==> SizeAt(b, d) == SizeAt(a, d))
    {
      assert d in [x, y, z] || CellKept(a, b, d);
    }
  }

  /** Edits inside three cells, of which `z` is split `r` bytes from its start. */
  lemma EditSplitsOne(a: Bytes, b: Bytes, x: nat, y: nat, z: nat, r: nat)
    requires |a| == |b| && WellTiled(a) && Outside(a, b, x, y, z) && x in Cells(a) && y in Cells(a) && z in Cells(a)
    requires x != z && y != z && SizesKept(a, b, [x, y, z], Some(z))
    requires z + 4 <= |a| && z + SizeAt(a, z) <= |a| && 8 <= r <= SizeAt(a, z) - 8 && r % 8 == 0
    requires SizeAt(b, z) == r && Signed(b, z) != -TWO31
    requires SizeAt(b, z + r) == SizeAt(a, z) - r && Signed(b, z + r) != -TWO31
    ensures WellTiled(b)
    ensures forall d :: d in Cells(b) <==> d in Cells(a) || d == z + r
    ensures forall d :: d in Cells(a) && d != x && d != y && d != z ==> CellKept(a, b, d)
  {
    hide Word, Signed, SizeAt, BinsTile, CellsInBins, BinsAgree, CellKept, Outside, SizesKept;
    CellIsPlaced(a, x);
    CellIsPlaced(a, y);
    CellIsPlaced(a, z);
    HeadersSpared(a, b, REGF_HEADER_BYTES, x, y, z);
    OtherCellsKept(a, b, x, y, z);
    CellSizesKept(a, b, x, y, z, Some(z));
    SplitBins(a, b, REGF_HEADER_BYTES, z, r);
  }

  // ----- first fit -----

  predicate NoneFits(b: Bytes, cells: seq<nat>, required: nat) {
    forall c :: c in cells ==> c + 4 <= |b| && !Fits(b, c, required)
  }

  /** The walk has passed the cells `done`, none of which fits, and stands at bin `bin`. */
  predicate AtBin(b: Bytes, required: nat, done: seq<nat>, bin: nat) {
    WellTiled(b) && BinsTile(b, bin) && Cells(b) == done + CellsInBins(b, bin) && NoneFits(b, done, required)
  }

  /** The walk has passed the cells `done`, none of which fits, and stands at `cell` of a bin that ends at `end`. */
  predicate AtCell(b: Bytes, required: nat, done: seq<nat>, cell: nat, end: nat) {
    && WellTiled(b) && end <= |b| && CellsTile(b, cell, end) && BinsTile(b, end)
    && Cells(b) == done + (CellsFrom(b, cell, end) + CellsInBins(b, end)) && NoneFits(b, done, required)
  }

  lemma EntersBin(b: Bytes, required: nat, done: seq<nat>, bin: nat)
    requires AtBin(b, required, done, bin) && bin + BIN_HEADER <= |b|
    ensures BinOk(b, bin) && AtCell(b, required, done, bin + BIN_HEADER, BinEnd(b, bin))
  {
    hide Word, Signed, SizeAt, CellOk, Cells;
  }

  lemma LeavesBin(b: Bytes, required: nat, done: seq<nat>, end: nat)
    requires AtCell(b, required, done, end, end)
    ensures AtBin(b, required, done, end)
  {
    hide Word, Signed, SizeAt, CellOk, Cells, BinsTile, CellsInBins;
    assert CellsFrom(b, end, end) + CellsInBins(b, end) == CellsInBins(b, end);
  }

  lemma WalkEnds(b: Bytes, required: nat, done: seq<nat>, bin: nat)
    requires AtBin(b, required, done, bin) && bin + BIN_HEADER > |b|
    ensures NoneFits(b, Cells(b), required)
  {
    hide Word, Signed, SizeAt, CellOk, Cells, Fits;
    assert Cells(b) == done;
  }

  lemma TilingEnds(b: Bytes, required: nat, done: seq<nat>, cell: nat, end: nat)
    requires AtCell(b, required, done, cell, end) && cell <= end < cell + 4
    ensures cell == end
  {
    hide Word, Signed, SizeAt, Cells, BinsTile, CellsInBins;
  }

  lemma PassesCell(b: Bytes, required: nat, done: seq<nat>, cell: nat, end: nat)
    requires AtCell(b, required, done, cell, end) && cell != end
    ensures CellOk(b, cell, end)
    ensures !Fits(b, cell, required) ==> AtCell(b, required, done + [cell], cell + SizeAt(b, cell), end)
    ensures Fits(b, cell, required) ==> FirstFitting(b, required, cell)
  {
    hide Word, Signed, SizeAt, CellOk, Cells, BinsTile, CellsInBins, Fits, CellsFrom, CellsTile;
    FirstCell(b, cell, end);
    var here, rest := CellsFrom(b, cell + SizeAt(b, cell), end), CellsInBins(b, end);
    MoveOn(done, cell, here, rest);
    if Fits(b, cell, required) {
      assert Cells(b) == done + ([cell] + (here + rest));
      FoundAt(b, done, here + rest, cell, required);
    }
  }

  lemma MoveOn(done: seq<nat>, cell: nat, here: seq<nat>, rest: seq<nat>)
    ensures done + (([cell] + here) + rest) == (done + [cell]) + (here + rest)
    ensures done + (([cell] + here) + rest) == done + ([cell] + (here + rest))
  {
  }

  /** `cell` is a free cell that fits, and no cell before it does. */
  predicate FirstFitting(b: Bytes, required: nat, cell: nat) {
    && WellTiled(b) && cell + 4 <= |b| && Fits(b, cell, required)
    && exists i :: 0 <= i < |Cells(b)| && Cells(b)[i] == cell && NoneFits(b, Cells(b)[..i], required)
  }

  lemma FoundAt(b: Bytes, done: seq<nat>, rest: seq<nat>, cell: nat, required: nat)
    requires WellTiled(b) && Cells(b) == done + ([cell] + rest) && NoneFits(b, done, required)
    requires cell + 4 <= |b| && Fits(b, cell, required)
    ensures FirstFitting(b, required, cell)
  {
    hide Cells, Fits, WellTiled;
    assert Cells(b)[..|done|] == done && Cells(b)[|done|] == cell;
  }

  lemma CellChecks(b: Bytes, cell: nat, end: nat)
    requires end <= |b| && cell + 4 <= end
    ensures var signed := Signed(b, cell);
            var size := if signed < 0 then -signed else signed;
            && size == SizeAt(b, cell)
            && (CellOk(b, cell, end) <==>
                  signed != -TWO31 && signed != 0 && size >= 8 && size % 8 == 0 && cell + size <= end)
            && (CellOk(b, cell, end) ==> CellOk(b, cell, |b|))
  {
    hide Word, Signed;
  }

  /**
   * `find_free_cell`: walks arbitrary bytes without leaving them. What it returns is always a free
   * cell's extent; in a well-tiled hive it is the first free cell that fits, and nothing is returned
   * exactly when no free cell fits.
   */
  method FindFreeCell(b: Bytes, required: nat) returns (r: Option<nat>)
    ensures r.Some? ==>
              REGF_HEADER_BYTES + BIN_HEADER <= r.value && CellOk(b, r.value, |b|) && Fits(b, r.value, required)
    ensures WellTiled(b) && r.Some? ==> FirstFitting(b, required, r.value)
    ensures WellTiled(b) && r.None? ==> NoneFits(b, Cells(b), required)
  {
    hide Word, Signed, SizeAt, CellOk, Cells, WellTiled, CellsTile, BinsTile, AtBin, AtCell, NoneFits, FirstFitting;
    ghost var tiled := WellTiled(b);
    ghost var done: seq<nat> := [];
    var bin := REGF_HEADER_BYTES;
    WalkStarts(b, required);
    while bin + BIN_HEADER <= |b|
      invariant REGF_HEADER_BYTES <= bin
      invariant tiled ==> AtBin(b, required, done, bin)
      decreases |b| - bin
    {
      if tiled {
        EntersBin(b, required, done, bin);
      }
      if b[bin..bin + 4] != [0x68, 0x62, 0x69, 0x6e] {
        return None;
      }
      var binSize := Word(b, bin + 8);
      var end := bin + binSize;
      if binSize < BIN_HEADER || end > |b| {
        return None;
      }
      var cell := bin + BIN_HEADER;
      while cell + 4 <= end
        invariant bin + BIN_HEADER <= cell <= end
        invariant tiled ==> AtCell(b, required, done, cell, end)
        decreases end - cell
      {
        var signed := Signed(b, cell);
        CellChecks(b, cell, end);
        if tiled {
          PassesCell(b, required, done, cell, end);
        }
        if signed == -TWO31 || signed == 0 {
          return None;
        }
        var size := if signed < 0 then -signed else signed;
        if size < 8 || size % 8 != 0 || cell + size > end {
          return None;
        }
        if signed > 0 && size >= required {
          return Some(cell);
        }
        done := done + [cell];
        cell := cell + size;
      }
      if tiled {
        TilingEnds(b, required, done, cell, end);
      }
      if cell != end {
        return None;
      }
      if tiled {
        LeavesBin(b, required, done, end);
      }
      bin := end;
    }
    if tiled {
      WalkEnds(b, required, done, bin);
    }
    return None;
  }

  lemma WalkStarts(b: Bytes, required: nat)
    ensures WellTiled(b) ==> AtBin(b, required, [], REGF_HEADER_BYTES)
  {
    hide BinsTile, CellsInBins;
  }
}
