/** The checksum of a registry hive's file header, from crates/bcd/src/lib.rs. */
module HiveChecksum {
  import opened Common
  import opened Bits
  import opened Powers
  import opened HiveTiling

  const WORDS: nat := 127
  const CHECKSUM_AT: nat := 508
  const ALL_ONES: nat := 0xFFFF_FFFF

  /** The exclusive or of the first `n` words of `b`. */
  function XorWords(b: Bytes, n: nat): (r: nat)
    requires 4 * n <= |b|
    ensures r < TWO32
  {
    if n == 0 then 0 else Xor(XorWords(b, n - 1), Word(b, 4 * (n - 1)))
  }

  /** The two values a stored checksum may not have are replaced by their neighbours. */
  function Remap(checksum: nat): (r: nat)
    requires checksum < TWO32
    ensures r < TWO32 && r != 0 && r != ALL_ONES
  {
    if checksum == 0 then 1 else if checksum == ALL_ONES then ALL_ONES - 1 else checksum
  }

  predicate ChecksumOk(b: Bytes) {
    && |b| >= 512
    && Word(b, 4) == Word(b, 8)
    && Word(b, CHECKSUM_AT) == Remap(XorWords(b, WORDS))
  }

  lemma {:induction false} XorWordsFrame(a: Bytes, b: Bytes, n: nat)
    requires |a| == |b| && 4 * n <= |a| && Agree(a, b, 0, 4 * n)
    ensures XorWords(a, n) == XorWords(b, n)
  {
    hide Xor, Word, Signed;
    if n > 0 {
      XorWordsFrame(a, b, n - 1);
      AgreeOnWord(a, b, 4 * (n - 1));
    }
  }

  /** A valid header's 128 words cancel, unless the checksum is one of the two remapped values. */
  lemma {:induction false} HeaderWordsCancel(b: Bytes)
    requires ChecksumOk(b)
    ensures Word(b, 4) == Word(b, 8)
    ensures var sum := XorWords(b, WORDS);
            sum != 0 && sum != ALL_ONES ==> XorWords(b, WORDS + 1) == 0
  {
    hide Xor, Word;
    var sum := XorWords(b, WORDS);
    assert XorWords(b, WORDS + 1) == Xor(sum, Word(b, CHECKSUM_AT));
    XorLaws(sum, 0, 0);
  }

  // ----- the checksum, bit by bit -----

  /** How many of the first `n` words have bit `bit` of their byte `byte` set. */
  function Ones(b: Bytes, n: nat, byte: nat, bit: nat): nat
    requires 4 * n <= |b| && byte < 4
  {
    if n == 0 then 0 else Ones(b, n - 1, byte, bit) + if Bit(b[4 * (n - 1) + byte], bit) then 1 else 0
  }

  /** The words' bits at one place, counted over the first 127 words, are odd in number. */
  predicate OddColumn(b: Bytes, byte: nat, bit: nat)
    requires |b| >= 512 && byte < 4
  {
    Ones(b, 127, byte, bit) % 2 == 1
  }

  /** Bits of a little-endian word are bits of its bytes, the low byte first. */
  lemma BitOfWord(b: Bytes, at: nat, byte: nat, bit: nat)
    requires at + 4 <= |b| && byte < 4 && bit < 8
    ensures Bit(Word(b, at), 8 * byte + bit) <==> Bit(b[at + byte], bit)
  {
    hide Bit;
    assert Pow2(8) == 256;
    var b0: nat, b1: nat, b2: nat, b3: nat := b[at], b[at + 1], b[at + 2], b[at + 3];
    var k := 8 * byte + bit;
    assert Word(b, at) == b0 + 256 * (b1 + 256 * (b2 + 256 * b3));
    BitOfParts(b0, b1 + 256 * (b2 + 256 * b3), 256, 8, k);
    if byte > 0 {
      BitOfParts(b1, b2 + 256 * b3, 256, 8, k - 8);
      if byte > 1 {
        BitOfParts(b2, b3, 256, 8, k - 16);
      }
    }
  }

  /** Every bit of the exclusive or of the words is set exactly when an odd number of them have it. */
  lemma {:induction false} XorWordsCounts(b: Bytes, n: nat, byte: nat, bit: nat)
    requires 4 * n <= |b| && byte < 4 && bit < 8
    ensures Bit(XorWords(b, n), 8 * byte + bit) <==> Ones(b, n, byte, bit) % 2 == 1
  {
    hide Bit, Xor, Word;
    if n == 0 {
      ZeroHasNoBits(8 * byte + bit);
    } else {
      XorWordsCounts(b, n - 1, byte, bit);
      XorAt(XorWords(b, n - 1), Word(b, 4 * (n - 1)), 8 * byte + bit);
      BitOfWord(b, 4 * (n - 1), byte, bit);
    }
  }

  /** What the stored checksum is, read off the bytes of the header. */
  ghost predicate ChecksumIsParity(b: Bytes) {
    && |b| >= 512
    && if forall byte: nat, bit: nat :: byte < 4 && bit < 8 ==> !OddColumn(b, byte, bit) then
         b[508..512] == [1, 0, 0, 0]
       else if forall byte: nat, bit: nat :: byte < 4 && bit < 8 ==> OddColumn(b, byte, bit) then
         b[508..512] == [0xFE, 0xFF, 0xFF, 0xFF]
       else
         forall byte: nat, bit: nat :: byte < 4 && bit < 8 ==> (Bit(b[508 + byte], bit) <==> OddColumn(b, byte, bit))
  }

  /** Bits `0` to `31` of a word are the bits of four bytes. */
  lemma SameColumns(x: nat, y: nat)
    requires x < TWO32 && y < TWO32
    requires forall byte: nat, bit: nat :: byte < 4 && bit < 8 ==> (BitAt(x, byte, bit) <==> BitAt(y, byte, bit))
    ensures x == y
  {
    hide Bit;
    forall k | 0 <= k < 32
      ensures Bit(x, k) <==> Bit(y, k)
    {
      assert BitAt(x, k / 8, k % 8) <==> BitAt(y, k / 8, k % 8);
    }
    Bits.SameWord(x, y);
  }

  predicate BitAt(x: nat, byte: nat, bit: nat) {
    Bit(x, 8 * byte + bit)
  }

  lemma OnesHaveAllBits(byte: nat, bit: nat)
    requires byte < 4 && bit < 8
    ensures BitAt(ALL_ONES, byte, bit) && !BitAt(0, byte, bit)
  {
    ZeroHasNoBits(8 * byte + bit);
    BitOfWord([0xFF, 0xFF, 0xFF, 0xFF], 0, byte, bit);
    assert Pow2(8) == 256;
    BitOfOnes(bit, 8);
  }

  lemma {:induction false} BitOfOnes(bit: nat, n: nat)
    requires bit < n
    ensures Bit(Pow2(n) - 1, bit)
  {
    if bit > 0 {
      BitOfOnes(bit - 1, n - 1);
      assert (Pow2(n) - 1) / 2 == Pow2(n - 1) - 1;
    }
  }

  lemma SameParts(p: nat, u: nat, q: nat, v: nat)
    requires p < 0x100 && q < 0x100 && p + 0x100 * u == q + 0x100 * v
    ensures p == q && u == v
  {
  }

  /** A word below 2 to the 32 is written in one way. */
  lemma WordBytes(b: Bytes, at: nat, b0: Byte, b1: Byte, b2: Byte, b3: Byte)
    requires at + 4 <= |b|
    ensures Word(b, at) == b0 as int + 0x100 * (b1 as int) + 0x1_0000 * (b2 as int) + 0x100_0000 * (b3 as int)
            <==> b[at..at + 4] == [b0, b1, b2, b3]
  {
    assert b[at..at + 4] == [b[at], b[at + 1], b[at + 2], b[at + 3]];
    var p1: nat, p2: nat, p3: nat := b[at + 1], b[at + 2], b[at + 3];
    var q1: nat, q2: nat, q3: nat := b1, b2, b3;
    if Word(b, at) == b0 as int + 0x100 * q1 + 0x1_0000 * q2 + 0x100_0000 * q3 {
      SameParts(b[at], p1 + 0x100 * (p2 + 0x100 * p3), b0, q1 + 0x100 * (q2 + 0x100 * q3));
      SameParts(p1, p2 + 0x100 * p3, q1, q2 + 0x100 * q3);
      SameParts(p2, p3, q2, q3);
    }
  }

  lemma SameWordSameBytes(b: Bytes, i: nat, j: nat)
    requires i + 4 <= |b| && j + 4 <= |b| && Word(b, i) == Word(b, j)
    ensures b[i..i + 4] == b[j..j + 4]
  {
    WordBytes(b, i, b[j], b[j + 1], b[j + 2], b[j + 3]);
    assert b[j..j + 4] == [b[j], b[j + 1], b[j + 2], b[j + 3]];
  }

  lemma SumIsParity(b: Bytes, byte: nat, bit: nat)
    requires |b| >= 512 && byte < 4 && bit < 8
    ensures BitAt(XorWords(b, WORDS), byte, bit) <==> OddColumn(b, byte, bit)
    ensures BitAt(Word(b, CHECKSUM_AT), byte, bit) <==> Bit(b[508 + byte], bit)
  {
    hide Bit, Word, XorWords, Ones;
    XorWordsCounts(b, WORDS, byte, bit);
    BitOfWord(b, CHECKSUM_AT, byte, bit);
  }

  /**
   * A checksum that stands for the words before it has bit by bit the parity of theirs, and the two
   * sums that may not be stored are replaced: 1 stands for 0, and 0xFFFFFFFE for 0xFFFFFFFF.
   */
  lemma ChecksumCountsBits(b: Bytes)
    requires |b| >= 512
    ensures Word(b, CHECKSUM_AT) == Remap(XorWords(b, WORDS)) <==> ChecksumIsParity(b)
  {
    hide BitAt, OddColumn, Word, XorWords, Bit;
    var sum, stored := XorWords(b, WORDS), Word(b, CHECKSUM_AT);
    forall byte: nat, bit: nat | byte < 4 && bit < 8
      ensures BitAt(sum, byte, bit) <==> OddColumn(b, byte, bit)
      ensures BitAt(stored, byte, bit) <==> Bit(b[508 + byte], bit)
      ensures BitAt(ALL_ONES, byte, bit) && !BitAt(0, byte, bit)
    {
      SumIsParity(b, byte, bit);
      OnesHaveAllBits(byte, bit);
    }
    WordBytes(b, CHECKSUM_AT, 1, 0, 0, 0);
    WordBytes(b, CHECKSUM_AT, 0xFE, 0xFF, 0xFF, 0xFF);
    if forall byte: nat, bit: nat :: byte < 4 && bit < 8 ==> !OddColumn(b, byte, bit) {
      SameColumns(sum, 0);
    } else if forall byte: nat, bit: nat :: byte < 4 && bit < 8 ==> OddColumn(b, byte, bit) {
      SameColumns(sum, ALL_ONES);
    } else {
      assert sum != 0 && sum != ALL_ONES;
      if ChecksumIsParity(b) {
        SameColumns(stored, sum);
      }
    }
  }

  /** What `update_checksum` does to a hive. */
  ghost predicate Sealed(a: Bytes, b: Bytes) {
    && |a| == |b| && ChecksumOk(b)
    && Word(b, 4) == (Word(a, 4) + 1) % TWO32
    && forall k :: 0 <= k < |a| && !(4 <= k < 12) && !(CHECKSUM_AT <= k < 512) ==> b[k] == a[k]
  }

  method CopyInto(a: array<Byte>, at: nat, v: Bytes)
    requires at + |v| <= a.Length
    modifies a
    ensures a[..] == Put(old(a[..]), at, v)
  {
    forall k | 0 <= k < |v| {
      a[at + k] := v[k];
    }
    assert a[..at] == old(a[..])[..at];
    assert a[at..at + |v|] == v;
    assert a[at + |v|..] == old(a[..])[at + |v|..];
    assert a[..] == a[..at] + a[at..at + |v|] + a[at + |v|..];
  }

  lemma PutAway(b: Bytes, at: nat, v: Bytes, word: nat)
    requires at + |v| <= |b| && word + 4 <= |b| && (word + 4 <= at || at + |v| <= word)
    ensures Word(Put(b, at, v), word) == Word(b, word)
    ensures Signed(Put(b, at, v), word) == Signed(b, word)
  {
    PutReads(b, at, v);
    hide Word, Signed, Put;
    AgreeOnWord(Put(b, at, v), b, word);
  }

  /** `update_checksum`. */
  method UpdateChecksum(a: array<Byte>)
    requires a.Length >= 512
    modifies a
    ensures Sealed(old(a[..]), a[..]) && ChecksumIsParity(a[..])
    ensures a[4..8] == a[8..12]
  {
    hide Word, Signed, Put, Le32, Xor, ChecksumIsParity;
    ghost var b0 := a[..];
    var sequence := (Word(a[..], 4) + 1) % TWO32;
    CopyInto(a, 4, Le32(sequence));
    ghost var b1 := a[..];
    CopyInto(a, 8, Le32(sequence));
    ghost var b2 := a[..];
    CopyInto(a, CHECKSUM_AT, Le32(0));
    ghost var b3 := a[..];
    var sum: nat := 0;
    var i: nat := 0;
    while i < WORDS
      invariant i <= WORDS && sum < TWO32 && a[..] == b3
      invariant sum == XorWords(b3, i)
    {
      sum := Xor(sum, Word(a[..], 4 * i));
      i := i + 1;
    }
    CopyInto(a, CHECKSUM_AT, Le32(Remap(sum)));
    SealedSteps(b0, b1, b2, b3, a[..], sequence, sum);
    ChecksumCountsBits(a[..]);
    SameWordSameBytes(a[..], 4, 8);
  }

  lemma SealedSteps(b0: Bytes, b1: Bytes, b2: Bytes, b3: Bytes, b4: Bytes, sequence: nat, sum: nat)
    requires |b0| >= 512 && sequence == (Word(b0, 4) + 1) % TWO32
    requires b1 == Put(b0, 4, Le32(sequence)) && b2 == Put(b1, 8, Le32(sequence)) && b3 == Put(b2, CHECKSUM_AT, Le32(0))
    requires sum == XorWords(b3, WORDS) && b4 == Put(b3, CHECKSUM_AT, Le32(Remap(sum)))
    ensures Sealed(b0, b4)
  {
    hide Word, Signed, Put, Le32, Xor, XorWords;
    PutWord(b0, 4, sequence);
    PutWord(b1, 8, sequence);
    PutWord(b3, CHECKSUM_AT, Remap(sum));
    PutAway(b1, 8, Le32(sequence), 4);
    PutAway(b2, CHECKSUM_AT, Le32(0), 4);
    PutAway(b2, CHECKSUM_AT, Le32(0), 8);
    PutAway(b3, CHECKSUM_AT, Le32(Remap(sum)), 4);
    PutAway(b3, CHECKSUM_AT, Le32(Remap(sum)), 8);
    PutReads(b0, 4, Le32(sequence));
    PutReads(b1, 8, Le32(sequence));
    PutReads(b2, CHECKSUM_AT, Le32(0));
    PutReads(b3, CHECKSUM_AT, Le32(Remap(sum)));
    XorWordsFrame(b3, b4, WORDS);
  }
}

/** The in-place edit of one value of a registry hive, from crates/bcd/src/lib.rs. */
module HiveEdit {
  import opened Common
  import opened TextRules
  import opened HiveTiling
  import opened HiveChecksum

  const MAX_HIVE_BYTES: nat := 64 * 1024 * 1024
  const AGENT_SHELL: string := "X:\\EasyDeployMesh\\easydeploymesh-shell.exe"
  const REQUIRED: int := 96

  datatype HiveError = InvalidSize | Registry | SetupCmdLineMissing | SetupCmdLineCapacity | Unverified | Panic

  /** Where the registry library finds Setup\CmdLine: the offset of its value cell behind the file header. */
  datatype Lookup = BadHive | NoValue | At(offset: nat)

  /** The registry library: the key walk to the value, the cells it reads, and the text of a string value. */
  datatype Library = Library(lookup: Bytes -> Lookup, walk: Bytes -> set<nat>, read: (Bytes, nat) -> Option<string>)

  predicate Ascii(s: string) {
    forall i :: 0 <= i < |s| ==> s[i] as int < 0x80
  }

  /** `utf16`: little-endian code units and a closing zero, for plain ASCII text. */
  function Utf16(s: string): (r: Bytes)
    requires Ascii(s)
    ensures |r| == 2 * |s| + 2
  {
    seq(2 * |s| + 2, i requires 0 <= i < 2 * |s| + 2 => if i % 2 == 0 && i < 2 * |s| then s[i / 2] as int else 0)
  }

  /** The bytes of the new value. */
  function Replacement(): (r: Bytes)
    ensures |r| == 86 && |AGENT_SHELL| == 42 && Ascii(AGENT_SHELL)
  {
    Utf16(AGENT_SHELL)
  }

  // ----- the value cell -----

  predicate Resident(b: Bytes, vk: nat)
    requires vk + 16 <= |b|
  {
    Word(b, vk + 8) >= TWO31
  }

  /** The cell that holds the value's data. */
  function DataCell(b: Bytes, vk: nat): (data: nat)
    requires vk + 16 <= |b|
    ensures data >= REGF_HEADER_BYTES
  {
    REGF_HEADER_BYTES + Word(b, vk + 12)
  }

  predicate Allocated(b: Bytes, cell: nat) {
    cell + 4 <= |b| && Signed(b, cell) < 0
  }

  /** A value cell and its data cell as a well-formed hive has them. */
  predicate ValueIsSound(b: Bytes, vk: nat) {
    && |b| <= MAX_HIVE_BYTES && WellTiled(b)
    && vk in Cells(b) && Allocated(b, vk) && SizeAt(b, vk) >= 24 && vk + 24 <= |b|
    && !Resident(b, vk)
    && var data := DataCell(b, vk);
       data in Cells(b) && Allocated(b, data) && data != vk
  }

  /** The value's data is `v`. */
  predicate Holds(b: Bytes, vk: nat, v: Bytes) {
    && ValueIsSound(b, vk)
    && Word(b, vk + 8) == |v|
    && var data := DataCell(b, vk);
       |v| <= SizeAt(b, data) - 4 && data + 4 + |v| <= |b| && b[data + 4..data + 4 + |v|] == v
  }

  predicate Within(k: int, from: int, n: int) {
    from <= k < from + n
  }

  predicate Apart(x: int, nx: int, y: int, ny: int) {
    x + nx <= y || y + ny <= x
  }

  /** The header's sequence numbers and checksum, the value's size and offset, its data cell and the target cell. */
  predicate MayChange(k: int, vk: nat, data: nat, dataSize: nat, target: nat, targetSize: nat) {
    || Within(k, 4, 8) || Within(k, CHECKSUM_AT, 4)
    || Within(k, vk + 8, 8) || Within(k, data, dataSize) || Within(k, target, targetSize)
  }

  predicate Untouched(a: Bytes, b: Bytes, vk: nat, data: nat, dataSize: nat, target: nat, targetSize: nat) {
    |a| == |b| && forall k :: 0 <= k < |a| && !MayChange(k, vk, data, dataSize, target, targetSize) ==> b[k] == a[k]
  }

  /** What a completed edit of the value at `offset` is allowed to have done. */
  predicate OnlyTheValueChanged(a: Bytes, b: Bytes, offset: nat, target: nat) {
    var vk := REGF_HEADER_BYTES + offset;
    && ValueIsSound(a, vk) && ValueIsSound(b, vk) && ChecksumOk(b)
    && target in Cells(a) && target + 4 <= |a|
    && Untouched(a, b, vk, DataCell(a, vk), SizeAt(a, DataCell(a, vk)), target, SizeAt(a, target))
    && (target == DataCell(a, vk) || !Allocated(a, target))
  }

  /** The cells that lead to the value are in use, and the value's data cell is not one of them. */
  predicate Unshared(lib: Library, b: Bytes, vk: nat) {
    vk + 16 <= |b| && forall c :: c in lib.walk(b) ==> Allocated(b, c) && c != DataCell(b, vk)
  }

  /**
   * What is asked of the registry library: changing only an unshared value's data, its size and its
   * offset changes neither where the value is found nor the cells that lead there, and a value that
   * held text reads the new text once its data is the new text.
   */
  ghost predicate Lawful(lib: Library) {
    && (forall a: Bytes, b: Bytes, offset: nat, target: nat ::
          (lib.lookup(a) == At(offset) && Unshared(lib, a, REGF_HEADER_BYTES + offset)
           && OnlyTheValueChanged(a, b, offset, target))
          ==> lib.lookup(b) == At(offset) && lib.walk(b) == lib.walk(a))
    && (forall a: Bytes, b: Bytes, offset: nat, target: nat ::
          (lib.read(a, offset).Some? && OnlyTheValueChanged(a, b, offset, target)
           && Holds(b, REGF_HEADER_BYTES + offset, Replacement()))
          ==> lib.read(b, offset) == Some(AGENT_SHELL))
  }

  /** A library that looks the value up at a fixed place and recognises the new text. */
  function FixedLibrary(offset: nat): Library {
    Library((b: Bytes) => At(offset), (b: Bytes) => {},
            (b: Bytes, at: nat) =>
              Some(if Holds(b, REGF_HEADER_BYTES + at, Replacement()) then AGENT_SHELL else "setup.exe"))
  }

  /** The demands on the library can be met. */
  lemma FixedLibraryIsLawful(offset: nat)
    ensures Lawful(FixedLibrary(offset))
  {
    hide Holds, OnlyTheValueChanged, Replacement, Unshared;
  }

  // ----- setup_cmdline -----

  function SetupCmdline(lib: Library, b: Bytes): Result<string, HiveError> {
    if |b| == 0 || |b| > MAX_HIVE_BYTES then Err(InvalidSize)
    else
      match lib.lookup(b)
      case BadHive => Err(Registry)
      case NoValue => Err(SetupCmdLineMissing)
      case At(offset) =>
        match lib.read(b, offset)
        case Some(text) => if Trim(text) != [] then Ok(text) else Err(SetupCmdLineMissing)
        case None => Err(SetupCmdLineMissing)
  }

  // ----- bytes -----

  function Zeros(n: nat): (r: Bytes)
    ensures |r| == n
  {
    seq(n, _ => 0)
  }

  lemma SealKeepsWords(b: Bytes, c: Bytes, at: nat)
    requires Sealed(b, c) && 512 <= at && at + 4 <= |b|
    ensures Word(c, at) == Word(b, at) && Signed(c, at) == Signed(b, at)
  {
    hide ChecksumOk, Word, Signed;
    AgreeOnWord(c, b, at);
  }

  /** The value's data and size are written: the last step before sealing. */
  ghost predicate Filled(s: Bytes, out: Bytes, vk: nat, t: nat, n: nat)
    requires t + n <= |s| && vk + 12 <= |s| && 90 <= n
  {
    var v := Replacement();
    Sealed(Put(Put(Put(s, t + 4, Zeros(n - 4)), t + 4, v), vk + 8, Le32(|v|)), out)
  }

  lemma SameSlice(a: Bytes, b: Bytes, lo: nat, hi: nat)
    requires |a| == |b| && lo <= hi <= |b| && forall k :: lo <= k < hi ==> a[k] == b[k]
    ensures a[lo..hi] == b[lo..hi]
  {
  }

  lemma PutElsewhere(b: Bytes, at: nat, v: Bytes, k: nat)
    requires at + |v| <= |b| && k < |b| && !Within(k, at, |v|)
    ensures Put(b, at, v)[k] == b[k]
  {
    PutReads(b, at, v);
  }

  lemma PutAwaySlice(b: Bytes, at: nat, v: Bytes, lo: nat, hi: nat)
    requires at + |v| <= |b| && lo <= hi <= |b| && (hi <= at || at + |v| <= lo)
    ensures Put(b, at, v)[lo..hi] == b[lo..hi]
  {
    PutReads(b, at, v);
    hide Put;
    SameSlice(Put(b, at, v), b, lo, hi);
  }

  lemma SealKeepsSlice(b: Bytes, c: Bytes, lo: nat, hi: nat)
    requires Sealed(b, c) && 512 <= lo <= hi <= |b|
    ensures c[lo..hi] == b[lo..hi]
  {
    hide ChecksumOk, Word;
    SameSlice(c, b, lo, hi);
  }

  /** The header words, the target's payload and the value's size. */
  predicate FillMayChange(k: int, vk: nat, t: nat, n: nat) {
    Within(k, 4, 8) || Within(k, CHECKSUM_AT, 4) || Within(k, t + 4, n - 4) || Within(k, vk + 8, 4)
  }

  /** Nothing but those differ. */
  predicate FillKeeps(s: Bytes, out: Bytes, vk: nat, t: nat, n: nat) {
    |out| == |s| &&
    forall k :: 0 <= k < |s| && !FillMayChange(k, vk, t, n) ==> out[k] == s[k]
  }

  lemma FilledReads(s: Bytes, out: Bytes, vk: nat, t: nat, n: nat)
    requires 4096 <= t && t + n <= |s| && 4096 <= vk && vk + 16 <= |s| && 90 <= n
    requires Filled(s, out, vk, t, n) && Apart(vk, 16, t, n)
    ensures ChecksumOk(out) && |out| == |s|
    ensures Word(out, vk + 8) == 86
    ensures out[t + 4..t + 90] == Replacement()
    ensures forall k :: t + 90 <= k < t + n ==> out[k] == 0
  {
    var v := Replacement();
    var s1 := Put(s, t + 4, Zeros(n - 4));
    var s2 := Put(s1, t + 4, v);
    PutReads(s1, t + 4, v);
    FilledTail(s, out, vk, t, n);
    hide Put, Replacement, Zeros;
    assert s2[t + 4..t + 90] == v;
    SizeAndSeal(s2, out, vk, t);
  }

  lemma FilledTail(s: Bytes, out: Bytes, vk: nat, t: nat, n: nat)
    requires 4096 <= t && t + n <= |s| && 4096 <= vk && vk + 16 <= |s| && 90 <= n
    requires Filled(s, out, vk, t, n) && Apart(vk, 16, t, n)
    ensures forall k :: t + 90 <= k < t + n ==> out[k] == 0
  {
    var v := Replacement();
    var zeros := Zeros(n - 4);
    var s1 := Put(s, t + 4, zeros);
    var s2 := Put(s1, t + 4, v);
    PutReads(s, t + 4, zeros);
    hide Put, Replacement, Zeros, Le32, ChecksumOk;
    forall k | t + 90 <= k < t + n
      ensures out[k] == 0
    {
      assert s1[k] == s1[t + 4..t + n][k - t - 4] == 0 by {
        ZeroAt(n - 4, k - t - 4);
      }
      PutElsewhere(s1, t + 4, v, k);
      PutElsewhere(s2, vk + 8, Le32(|v|), k);
    }
  }

  lemma ZeroAt(n: nat, k: nat)
    requires k < n
    ensures Zeros(n)[k] == 0
  {
  }

  lemma SizeAndSeal(s: Bytes, out: Bytes, vk: nat, t: nat)
    requires 4096 <= t && t + 90 <= |s| && 4096 <= vk && vk + 16 <= |s|
    requires Sealed(Put(s, vk + 8, Le32(86)), out) && Apart(vk, 16, t, 90)
    ensures ChecksumOk(out) && |out| == |s|
    ensures Word(out, vk + 8) == 86
    ensures out[t + 4..t + 90] == s[t + 4..t + 90]
  {
    hide Put, Le32, Word, Signed, ChecksumOk;
    var size := Le32(86);
    var s3 := Put(s, vk + 8, size);
    PutWord(s, vk + 8, 86);
    SealKeepsWords(s3, out, vk + 8);
    PutAwaySlice(s, vk + 8, size, t + 4, t + 90);
    SealKeepsSlice(s3, out, t + 4, t + 90);
  }

  lemma FilledKeeps(s: Bytes, out: Bytes, vk: nat, t: nat, n: nat)
    requires 4096 <= t && t + n <= |s| && 4096 <= vk && vk + 16 <= |s| && 90 <= n
    requires Filled(s, out, vk, t, n)
    ensures FillKeeps(s, out, vk, t, n)
  {
    var v := Replacement();
    var size := Le32(86);
    hide Put, Le32, Word, Signed, ChecksumOk, Replacement, Zeros;
    var s1 := Put(s, t + 4, Zeros(n - 4));
    var s2 := Put(s1, t + 4, v);
    var s3 := Put(s2, vk + 8, size);
    forall k | 0 <= k < |s| && !FillMayChange(k, vk, t, n)
      ensures out[k] == s[k]
    {
      PutElsewhere(s, t + 4, Zeros(n - 4), k);
      PutElsewhere(s1, t + 4, v, k);
      PutElsewhere(s2, vk + 8, size, k);
    }
  }

  /** The free cell is taken, the old data cell freed and the value pointed at the new cell. */
  function Relocated(s: Bytes, vk: nat, data: nat, dn: nat, free: nat, n: nat): (r: Bytes)
    requires vk + 16 <= |s| && data + 4 <= |s| && dn < TWO31 && REGF_HEADER_BYTES <= free
    requires free + n <= |s| && REQUIRED <= n < TWO31 && (n > REQUIRED ==> n >= REQUIRED + 4) && |s| <= MAX_HIVE_BYTES
    ensures |r| == |s|
  {
    var taken := Put(s, free, Le32(-REQUIRED));
    var cut := if n > REQUIRED then Put(taken, free + REQUIRED, Le32(n - REQUIRED)) else taken;
    Put(Put(cut, data, Le32(dn)), vk + 12, Le32(free - REGF_HEADER_BYTES))
  }

  predicate MoveKeeps(s: Bytes, r: Bytes, vk: nat, data: nat, free: nat, n: nat) {
    |r| == |s| &&
    forall k :: 0 <= k < |s| && !(Within(k, free, n) || Within(k, data, 4) || Within(k, vk + 12, 4)) ==> r[k] == s[k]
  }

  lemma RelocatedReads(s: Bytes, vk: nat, data: nat, dn: nat, free: nat, n: nat)
    requires 4096 <= vk && vk + 16 <= |s| && 4096 <= data && data + dn <= |s| && 4 <= dn < TWO31
    requires REGF_HEADER_BYTES <= free && free + n <= |s| && |s| <= MAX_HIVE_BYTES
    requires REQUIRED <= n < TWO31 && (n > REQUIRED ==> n >= REQUIRED + 4)
    requires Apart(vk, 16, data, dn) && Apart(vk, 16, free, n) && Apart(data, dn, free, n)
    ensures var r := Relocated(s, vk, data, dn, free, n);
            && Signed(r, free) == -REQUIRED && (n > REQUIRED ==> Signed(r, free + REQUIRED) == n - REQUIRED)
            && Signed(r, data) == dn && Word(r, vk + 12) == free - REGF_HEADER_BYTES
  {
    hide Put, Le32, Word, Signed;
    var v1, v2, v3, v4 := Le32(-REQUIRED), Le32(n - REQUIRED), Le32(dn), Le32(free - REGF_HEADER_BYTES);
    var taken := Put(s, free, v1);
    var cut := if n > REQUIRED then Put(taken, free + REQUIRED, v2) else taken;
    var freed := Put(cut, data, v3);
    PutWord(s, free, -REQUIRED);
    if n > REQUIRED {
      PutWord(taken, free + REQUIRED, n - REQUIRED);
      PutAway(taken, free + REQUIRED, v2, free);
      PutAway(cut, data, v3, free + REQUIRED);
      PutAway(freed, vk + 12, v4, free + REQUIRED);
    }
    PutWord(cut, data, dn);
    PutAway(cut, data, v3, free);
    PutWord(freed, vk + 12, free - REGF_HEADER_BYTES);
    PutAway(freed, vk + 12, v4, free);
    PutAway(freed, vk + 12, v4, data);
  }

  lemma RelocatedKeeps(s: Bytes, vk: nat, data: nat, dn: nat, free: nat, n: nat)
    requires 4096 <= vk && vk + 16 <= |s| && 4096 <= data && data + dn <= |s| && 4 <= dn < TWO31
    requires REGF_HEADER_BYTES <= free && free + n <= |s| && |s| <= MAX_HIVE_BYTES
    requires REQUIRED <= n < TWO31 && (n > REQUIRED ==> n >= REQUIRED + 4)
    ensures MoveKeeps(s, Relocated(s, vk, data, dn, free, n), vk, data, free, n)
  {
    hide Put, Le32, Word, Signed;
    var v1, v2, v3, v4 := Le32(-REQUIRED), Le32(n - REQUIRED), Le32(dn), Le32(free - REGF_HEADER_BYTES);
    var taken := Put(s, free, v1);
    var cut := if n > REQUIRED then Put(taken, free + REQUIRED, v2) else taken;
    var freed := Put(cut, data, v3);
    var r := Relocated(s, vk, data, dn, free, n);
    forall k | 0 <= k < |s| && !(Within(k, free, n) || Within(k, data, 4) || Within(k, vk + 12, 4))
      ensures r[k] == s[k]
    {
      PutElsewhere(s, free, v1, k);
      if n > REQUIRED {
        PutElsewhere(taken, free + REQUIRED, v2, k);
      }
      PutElsewhere(cut, data, v3, k);
      PutElsewhere(freed, vk + 12, v4, k);
    }
  }

  // ----- the whole edit -----

  /** The value's data cell has room for the new text. */
  predicate FitsInPlace(a: Bytes, vk: nat) {
    && vk + 16 <= |a| && DataCell(a, vk) + 4 <= |a|
    && |Replacement()| <= SizeAt(a, DataCell(a, vk)) - 4
  }

  /** The cells after the edit: the old ones, and the rest of a free cell that was larger than needed. */
  ghost predicate CellsAfter(a: Bytes, b: Bytes, t: nat)
    requires WellTiled(a) && WellTiled(b) && t + 4 <= |a|
  {
    forall d :: d in Cells(b) <==> d in Cells(a) || (SizeAt(a, t) > REQUIRED && d == t + REQUIRED)
  }

  /** Nothing of the cell's old contents is left behind the text. */
  predicate TailIsZero(b: Bytes, t: nat)
    requires t + 4 <= |b|
  {
    forall k :: t + 90 <= k < t + SizeAt(b, t) && k < |b| ==> b[k] == 0
  }

  /** What a completed edit has done to the hive. */
  ghost predicate Edited(a: Bytes, b: Bytes, vk: nat) {
    && vk >= REGF_HEADER_BYTES && |b| == |a|
    && ValueIsSound(a, vk) && Holds(b, vk, Replacement()) && ChecksumOk(b)
    && var data := DataCell(a, vk);
       var t := DataCell(b, vk);
       && OnlyTheValueChanged(a, b, vk - REGF_HEADER_BYTES, t) && TailIsZero(b, t)
       && (forall d :: d in Cells(a) && d != vk && d != data && d != t ==> CellKept(a, b, d))
       && if FitsInPlace(a, vk) then
            t == data && Cells(b) == Cells(a)
          else
            && FirstFitting(a, REQUIRED, t) && SizeAt(b, t) == REQUIRED && CellsAfter(a, b, t)
            && data + 4 <= |b| && !Allocated(b, data) && SizeAt(b, data) == SizeAt(a, data)
            && (SizeAt(a, t) > REQUIRED ==> !Allocated(b, t + REQUIRED))
  }

  lemma SoundGeometry(a: Bytes, vk: nat)
    requires ValueIsSound(a, vk)
    ensures var data := DataCell(a, vk);
            && 4128 <= vk && 4128 <= data && vk + SizeAt(a, vk) <= |a| && data + SizeAt(a, data) <= |a|
            && CellOk(a, data, |a|)
            && Apart(vk, SizeAt(a, vk), data, SizeAt(a, data))
  {
    hide Word, Signed, SizeAt, WellTiled, Cells;
    TwoCells(a, vk, DataCell(a, vk));
  }

  lemma SameWord(a: Bytes, b: Bytes, at: nat)
    requires |a| == |b| && at + 4 <= |a| && forall k :: at <= k < at + 4 ==> b[k] == a[k]
    ensures Word(b, at) == Word(a, at) && Signed(b, at) == Signed(a, at)
  {
    hide Word, Signed;
    AgreeOnWord(a, b, at);
  }

  lemma HoldsAfter(out: Bytes, vk: nat, t: nat, v: Bytes)
    requires |out| <= MAX_HIVE_BYTES && WellTiled(out) && vk in Cells(out) && t in Cells(out) && t != vk
    requires vk + 24 <= |out| && Signed(out, vk) < 0 && SizeAt(out, vk) >= 24
    requires 4096 <= t && t + 4 + |v| <= |out| && Signed(out, t) < 0 && |v| + 4 <= SizeAt(out, t)
    requires Word(out, vk + 8) == |v| < TWO31 && Word(out, vk + 12) == t - REGF_HEADER_BYTES
    requires out[t + 4..t + 4 + |v|] == v
    ensures Holds(out, vk, v) && DataCell(out, vk) == t
  {
    hide Word, Signed, SizeAt, WellTiled, Cells;
  }

  /** The edit in place. */
  lemma InPlaceEdit(a: Bytes, out: Bytes, vk: nat)
    requires ValueIsSound(a, vk) && FitsInPlace(a, vk)
    requires DataCell(a, vk) + SizeAt(a, DataCell(a, vk)) <= |a|
    requires Filled(a, out, vk, DataCell(a, vk), SizeAt(a, DataCell(a, vk)))
    ensures Edited(a, out, vk)
  {
    hide Word, Signed, WellTiled, Cells, Filled, ChecksumOk, Replacement, CellKept, Outside, Untouched, FillKeeps;
    var data := DataCell(a, vk);
    var n := SizeAt(a, data);
    InPlaceFacts(a, out, vk, data, n);
    HoldsAfter(out, vk, data, Replacement());
  }

  lemma InPlaceFacts(a: Bytes, out: Bytes, vk: nat, data: nat, n: nat)
    requires ValueIsSound(a, vk) && data == DataCell(a, vk) && n == SizeAt(a, data) >= 90
    requires data + n <= |a| && Filled(a, out, vk, data, n)
    ensures |out| == |a| && 4128 <= vk && 4128 <= data && ChecksumOk(out) && WellTiled(out) && Cells(out) == Cells(a)
    ensures Signed(out, vk) == Signed(a, vk) && Signed(out, data) == Signed(a, data)
    ensures Word(out, vk + 8) == 86 && Word(out, vk + 12) == Word(a, vk + 12)
    ensures out[data + 4..data + 90] == Replacement() && TailIsZero(out, data)
    ensures forall d :: d in Cells(a) && d != vk && d != data ==> CellKept(a, out, d)
    ensures Untouched(a, out, vk, data, n, data, n)
  {
    hide Word, Signed, SizeAt, WellTiled, Cells, Filled, ChecksumOk, Replacement, CellKept, Outside, Untouched,
         FillKeeps;
    SoundGeometry(a, vk);
    FilledReads(a, out, vk, data, n);
    FilledKeeps(a, out, vk, data, n);
    InPlaceBytes(a, out, vk, data, n);
    EditInsideCells(a, out, vk, data, data);
  }

  lemma InPlaceBytes(a: Bytes, out: Bytes, vk: nat, data: nat, n: nat)
    requires 4128 <= vk && 4128 <= data && 90 <= n && data + n <= |a| && n == SizeAt(a, data)
    requires vk + 24 <= |a| && 24 <= SizeAt(a, vk) && Apart(vk, SizeAt(a, vk), data, n)
    requires FillKeeps(a, out, vk, data, n)
    ensures Outside(a, out, vk, data, data)
    ensures Untouched(a, out, vk, data, n, data, n)
    ensures Word(out, vk + 12) == Word(a, vk + 12)
    ensures Signed(out, vk) == Signed(a, vk) && SizeAt(out, vk) == SizeAt(a, vk)
    ensures Signed(out, data) == Signed(a, data) && SizeAt(out, data) == SizeAt(a, data)
  {
    hide Word, Signed;
    SameWord(a, out, vk + 12);
    SameWord(a, out, vk);
    SameWord(a, out, data);
  }

  // ----- relocation -----

  /** The three cells of a relocation, as plain numbers. */
  predicate ThreeCells(a: Bytes, vk: nat, data: nat, dn: nat, t: nat, tn: nat) {
    && 4128 <= vk && 4128 <= data && 4128 <= t
    && vk + 24 <= |a| && data + dn <= |a| && t + tn <= |a| && |a| <= MAX_HIVE_BYTES
    && 8 <= dn && REQUIRED <= tn && (tn > REQUIRED ==> tn >= REQUIRED + 8) && tn % 8 == 0
    && data != vk && t != vk && t != data
    && dn == SizeAt(a, data) && tn == SizeAt(a, t) && 24 <= SizeAt(a, vk)
    && Apart(vk, SizeAt(a, vk), data, dn) && Apart(vk, SizeAt(a, vk), t, tn) && Apart(data, dn, t, tn)
  }

  lemma RelocationGeometry(a: Bytes, vk: nat, t: nat)
    requires ValueIsSound(a, vk) && !FitsInPlace(a, vk) && t in Cells(a) && t + 4 <= |a| && Fits(a, t, REQUIRED)
    ensures ThreeCells(a, vk, DataCell(a, vk), SizeAt(a, DataCell(a, vk)), t, SizeAt(a, t))
  {
    hide Word, Signed, WellTiled, Cells, Replacement;
    TwoCells(a, vk, DataCell(a, vk));
    TwoCells(a, vk, t);
    TwoCells(a, DataCell(a, vk), t);
  }

  /** What relocating and filling leave in the bytes. */
  predicate MovedBytes(a: Bytes, out: Bytes, vk: nat, data: nat, dn: nat, t: nat, tn: nat)
    requires ThreeCells(a, vk, data, dn, t, tn)
  {
    && |out| == |a|
    && Outside(a, out, vk, data, t) && Untouched(a, out, vk, data, dn, t, tn)
    && Signed(out, vk) == Signed(a, vk) && Signed(out, data) == dn && Signed(out, t) == -REQUIRED
    && (tn > REQUIRED ==> Signed(out, t + REQUIRED) == tn - REQUIRED)
    && Word(out, vk + 12) == t - REGF_HEADER_BYTES
  }

  lemma MoveThenFill(a: Bytes, s: Bytes, out: Bytes, vk: nat, data: nat, dn: nat, t: nat, tn: nat)
    requires ThreeCells(a, vk, data, dn, t, tn)
    requires s == Relocated(a, vk, data, dn, t, tn) && FillKeeps(s, out, vk, t, REQUIRED)
    ensures MovedBytes(a, out, vk, data, dn, t, tn)
  {
    hide Word, Signed, SizeAt, Relocated, Outside, Untouched;
    RelocatedReads(a, vk, data, dn, t, tn);
    RelocatedKeeps(a, vk, data, dn, t, tn);
    SameWord(a, out, vk);
    SameWord(s, out, data);
    SameWord(s, out, t);
    if tn > REQUIRED {
      SameWord(s, out, t + REQUIRED);
    }
    SameWord(s, out, vk + 12);
    MovedUntouched(a, s, out, vk, data, dn, t, tn);
  }

  lemma MovedUntouched(a: Bytes, s: Bytes, out: Bytes, vk: nat, data: nat, dn: nat, t: nat, tn: nat)
    requires ThreeCells(a, vk, data, dn, t, tn)
    requires MoveKeeps(a, s, vk, data, t, tn) && FillKeeps(s, out, vk, t, REQUIRED)
    ensures Outside(a, out, vk, data, t) && Untouched(a, out, vk, data, dn, t, tn)
  {
    hide SizeAt;
  }

  lemma RelocatingEdit(a: Bytes, s: Bytes, out: Bytes, vk: nat, t: nat)
    requires ValueIsSound(a, vk) && !FitsInPlace(a, vk) && FirstFitting(a, REQUIRED, t) && t + 4 <= |a|
    requires ThreeCells(a, vk, DataCell(a, vk), SizeAt(a, DataCell(a, vk)), t, SizeAt(a, t))
    requires s == Relocated(a, vk, DataCell(a, vk), SizeAt(a, DataCell(a, vk)), t, SizeAt(a, t))
    requires Filled(s, out, vk, t, REQUIRED)
    ensures Edited(a, out, vk)
  {
    hide Word, Signed, WellTiled, Cells, Filled, ChecksumOk, Replacement, CellKept, Outside, Untouched, FillKeeps,
         Relocated;
    var data := DataCell(a, vk);
    FilledReads(s, out, vk, t, REQUIRED);
    FilledKeeps(s, out, vk, t, REQUIRED);
    MoveThenFill(a, s, out, vk, data, SizeAt(a, data), t, SizeAt(a, t));
    RelocationTiles(a, out, vk, t);
    HoldsAfter(out, vk, t, Replacement());
  }

  lemma RelocationTiles(a: Bytes, out: Bytes, vk: nat, t: nat)
    requires ValueIsSound(a, vk) && t in Cells(a) && t + 4 <= |a|
    requires ThreeCells(a, vk, DataCell(a, vk), SizeAt(a, DataCell(a, vk)), t, SizeAt(a, t))
    requires MovedBytes(a, out, vk, DataCell(a, vk), SizeAt(a, DataCell(a, vk)), t, SizeAt(a, t))
    ensures WellTiled(out) && CellsAfter(a, out, t)
    ensures forall d :: d in Cells(a) && d != vk && d != DataCell(a, vk) && d != t ==> CellKept(a, out, d)
    ensures SizeAt(out, vk) == SizeAt(a, vk) && SizeAt(out, DataCell(a, vk)) == SizeAt(a, DataCell(a, vk))
    ensures SizeAt(out, t) == REQUIRED
  {
    hide Word, Signed, WellTiled, Cells, ChecksumOk, CellKept, Outside, Untouched;
    var data := DataCell(a, vk);
    if SizeAt(a, t) > REQUIRED {
      EditSplitsOne(a, out, vk, data, t, REQUIRED);
    } else {
      EditInsideCells(a, out, vk, data, t);
    }
  }

  // ----- replace_setup_cmdline -----

  /** Where the value cell found by the library lies in the file. */
  function ValueCell(lib: Library, b: Bytes): (vk: nat)
    ensures vk >= REGF_HEADER_BYTES
  {
    REGF_HEADER_BYTES + if lib.lookup(b).At? then lib.lookup(b).offset else 0
  }

  /** The hive holds another command line, in a well-formed value of its own. */
  ghost predicate Editable(lib: Library, b: Bytes) {
    && SetupCmdline(lib, b).Ok? && !EqIgnoreAsciiCase(SetupCmdline(lib, b).value, AGENT_SHELL)
    && var vk := ValueCell(lib, b);
       ValueIsSound(b, vk) && Unshared(lib, b, vk)
  }

  /** Some free cell has room for the new text: its header, a positive number, is its size, which is at least 96. */
  ghost predicate SomeFit(b: Bytes) {
    WellTiled(b) && exists c :: c in Cells(b) && c + 4 <= |b| && 96 <= Word(b, c) < TWO31
  }

  lemma FittingIsLarge(b: Bytes, c: nat)
    requires c + 4 <= |b|
    ensures Fits(b, c, REQUIRED) <==> 96 <= Word(b, c) < TWO31
  {
    hide Word;
  }

  lemma SomeFits(b: Bytes)
    ensures SomeFit(b) <==> WellTiled(b) && exists c :: c in Cells(b) && c + 4 <= |b| && Fits(b, c, REQUIRED)
  {
    hide Word, WellTiled, Cells, Fits;
    forall c: nat | c + 4 <= |b|
      ensures Fits(b, c, REQUIRED) <==> 96 <= Word(b, c) < TWO31
    {
      FittingIsLarge(b, c);
    }
  }

  lemma ShellIsNotBlank()
    ensures Trim(AGENT_SHELL) != []
  {
    TrimStops(AGENT_SHELL);
  }

  lemma TrimStops(s: string)
    requires s != [] && !IsWhitespace(s[0]) && !IsWhitespace(s[|s| - 1])
    ensures Trim(s) == s
  {
  }

  lemma FilledIs(s: Bytes, out: Bytes, vk: nat, t: nat, n: nat)
    requires t + n <= |s| && vk + 12 <= |s| && 90 <= n
    requires Sealed(Put(Put(Put(s, t + 4, Zeros(n - 4)), t + 4, Replacement()), vk + 8, Le32(|Replacement()|)), out)
    ensures Filled(s, out, vk, t, n)
  {
    hide Put, Zeros, Replacement, Le32, Sealed;
  }

  /** What the search for a free cell found, and what taking it does to its header. */
  lemma FreeCellTaken(a: Bytes, vk: nat, t: nat)
    requires ValueIsSound(a, vk) && !FitsInPlace(a, vk) && FirstFitting(a, REQUIRED, t) && t + 4 <= |a|
    ensures SomeFit(a)
    ensures ThreeCells(a, vk, DataCell(a, vk), SizeAt(a, DataCell(a, vk)), t, SizeAt(a, t))
    ensures SizeAt(Relocated(a, vk, DataCell(a, vk), SizeAt(a, DataCell(a, vk)), t, SizeAt(a, t)), t) == REQUIRED
  {
    hide Word, Signed, WellTiled, Cells, Replacement, Relocated;
    assert t in Cells(a);
    SomeFits(a);
    RelocationGeometry(a, vk, t);
    RelocatedReads(a, vk, DataCell(a, vk), SizeAt(a, DataCell(a, vk)), t, SizeAt(a, t));
  }

  lemma HeaderWord(b: Bytes, cell: nat)
    requires cell + 4 <= |b|
    ensures Signed(b, cell) < 0 ==> Word(b, cell) == TWO32 - SizeAt(b, cell) && SizeAt(b, cell) == -Signed(b, cell)
    ensures Signed(b, cell) >= 0 ==> Word(b, cell) == SizeAt(b, cell)
  {
    hide Word;
  }

  lemma ReplacementAt(i: nat)
    requires i < |AGENT_SHELL|
    ensures Replacement()[2 * i] == AGENT_SHELL[i] as int && Replacement()[2 * i + 1] == 0
    ensures Replacement()[84] == 0 && Replacement()[85] == 0
  {
    hide AGENT_SHELL, Ascii, Utf16;
    assert |Replacement()| == 86;
    Utf16At(AGENT_SHELL, i);
  }

  lemma Utf16At(s: string, i: nat)
    requires Ascii(s) && i < |s|
    ensures Utf16(s)[2 * i] == s[i] as int && Utf16(s)[2 * i + 1] == 0
    ensures Utf16(s)[2 * |s|] == 0 && Utf16(s)[2 * |s| + 1] == 0
  {
  }

  lemma TextBytes(b: Bytes, t: nat)
    requires t + 90 <= |b| && b[t + 4..t + 90] == Replacement()
    ensures forall i :: 0 <= i < 42 ==>
              b[t + 4 + 2 * i] as int == AGENT_SHELL[i] as int && b[t + 4 + 2 * i + 1] == 0
    ensures b[t + 88] == 0 && b[t + 89] == 0
  {
    hide Replacement, AGENT_SHELL;
    forall i | 0 <= i < 42
      ensures b[t + 4 + 2 * i] as int == AGENT_SHELL[i] as int && b[t + 4 + 2 * i + 1] == 0
    {
      ReplacementAt(i);
      assert b[t + 4 + 2 * i] == b[t + 4..t + 90][2 * i];
      assert b[t + 4 + 2 * i + 1] == b[t + 4..t + 90][2 * i + 1];
    }
    ReplacementAt(0);
    assert b[t + 88] == b[t + 4..t + 90][84] && b[t + 89] == b[t + 4..t + 90][85];
  }

  /**
   * The bytes of a completed edit: the value's size is 86, and its data is the agent shell's path in
   * little-endian UTF-16 with a closing zero and nothing of the old contents behind it. In place, the
   * cell's header stays; a relocated cell has the header of a used cell of 96 bytes, the old one that
   * of a free cell of its old size, and the value points at the new one.
   */
  lemma EditedBytes(a: Bytes, out: Bytes, vk: nat)
    requires Edited(a, out, vk)
    ensures vk + 16 <= |out| == |a| && out[vk + 8..vk + 12] == [86, 0, 0, 0]
    ensures var data, t := 4096 + Word(a, vk + 12), 4096 + Word(out, vk + 12);
            && t + 90 <= |out| && data + 4 <= |a| && (t == data <==> 90 <= SizeAt(a, data))
            && (forall i :: 0 <= i < 42 ==>
                  out[t + 4 + 2 * i] as int == AGENT_SHELL[i] as int && out[t + 4 + 2 * i + 1] == 0)
            && out[t + 88] == 0 && out[t + 89] == 0
            && (forall k :: t + 90 <= k < t + SizeAt(out, t) && k < |out| ==> out[k] == 0)
            && (t != data ==>
                  && out[t..t + 4] == [0xA0, 0xFF, 0xFF, 0xFF]
                  && Word(out, data) as int == -Signed(a, data))
  {
    hide Word, Signed, WellTiled, Cells, Untouched, ChecksumOk, Replacement, CellKept, FirstFitting, CellsAfter,
         OnlyTheValueChanged;
    var t := DataCell(out, vk);
    WordBytes(out, vk + 8, 86, 0, 0, 0);
    TextBytes(out, t);
    hide AGENT_SHELL;
    HeaderWord(out, t);
    HeaderWord(out, DataCell(a, vk));
    HeaderWord(a, DataCell(a, vk));
    WordBytes(out, t, 0xA0, 0xFF, 0xFF, 0xFF);
  }

  lemma EditedReads(lib: Library, a: Bytes, out: Bytes)
    requires Lawful(lib) && Editable(lib, a)
    requires Edited(a, out, ValueCell(lib, a))
    ensures lib.lookup(out) == lib.lookup(a) && lib.walk(out) == lib.walk(a)
    ensures SetupCmdline(lib, out) == Ok(AGENT_SHELL)
  {
    hide Word, Signed, WellTiled, Cells, ChecksumOk, Replacement, CellKept, Untouched, FirstFitting, Trim, DataCell,
         SizeAt;
    var offset := lib.lookup(a).offset;
    var t := DataCell(out, REGF_HEADER_BYTES + offset);
    assert OnlyTheValueChanged(a, out, offset, t);
    ShellIsNotBlank();
  }

  /** Every cell in use, but for the value and its old data, survives the edit byte for byte, in use. */
  lemma OtherCellsInUseAreKept(a: Bytes, out: Bytes, vk: nat, d: nat)
    requires Edited(a, out, vk)
    requires d in Cells(a) && Allocated(a, d) && d != vk && d != DataCell(a, vk)
    ensures d in Cells(out) && Allocated(out, d)
    ensures d + SizeAt(a, d) <= |a| && out[d..d + SizeAt(a, d)] == a[d..d + SizeAt(a, d)]
  {
    hide Word, Signed, WellTiled, Cells, Untouched, ChecksumOk, Replacement, Holds;
    var t := DataCell(out, vk);
    assert d != t;
    assert CellKept(a, out, d);
    SameSlice(out, a, d, d + SizeAt(a, d));
  }

  /** `replace_setup_cmdline`. An index out of range is the error `Panic`. */
  method ReplaceSetupCmdline(lib: Library, bytes: Bytes) returns (r: Result<(string, Bytes), HiveError>)
    ensures SetupCmdline(lib, bytes).Err? ==> r == Err(SetupCmdline(lib, bytes).error)
    ensures SetupCmdline(lib, bytes).Ok? && EqIgnoreAsciiCase(SetupCmdline(lib, bytes).value, AGENT_SHELL) ==>
              r == Ok((SetupCmdline(lib, bytes).value, bytes))
    ensures r.Ok? ==> SetupCmdline(lib, bytes) == Ok(r.value.0) && |r.value.1| == |bytes|
    ensures r.Ok? && r.value.1 != bytes ==> SetupCmdline(lib, r.value.1) == Ok(AGENT_SHELL)
    ensures r.Ok? ==>
              && 0 < |bytes| <= 0x400_0000 && lib.lookup(bytes).At? && Trim(r.value.0) != ""
              && lib.read(bytes, lib.lookup(bytes).offset) == Some(r.value.0)
    ensures r.Ok? && SameText(r.value.0, AGENT_SHELL) ==> r.value.1 == bytes
    ensures r.Ok? && !SameText(r.value.0, AGENT_SHELL) ==>
              && lib.lookup(r.value.1).At?
              && lib.read(r.value.1, lib.lookup(r.value.1).offset) == Some(AGENT_SHELL)
              && ChecksumIsParity(r.value.1)
    ensures Lawful(lib) && Editable(lib, bytes) ==>
              && (r.Ok? <==> FitsInPlace(bytes, ValueCell(lib, bytes)) || SomeFit(bytes))
              && (r.Err? ==> r.error == SetupCmdLineCapacity)
              && (r.Ok? ==> Edited(bytes, r.value.1, ValueCell(lib, bytes))
                            && SetupCmdline(lib, r.value.1) == Ok(AGENT_SHELL))
  {
    hide Word, Signed, SizeAt, WellTiled, Cells, Replacement, Filled, Relocated, Edited, Lawful, Sealed, Le32, Zeros,
         Put, EqIgnoreAsciiCase, SameText, Trim, ChecksumIsParity, AGENT_SHELL, SomeFit;
    SomeFits(bytes);
    var read := SetupCmdline(lib, bytes);
    if read.Err? {
      return Err(read.error);
    }
    var original := read.value;
    EqualUpToCase(original, AGENT_SHELL);
    if EqIgnoreAsciiCase(original, AGENT_SHELL) {
      return Ok((original, bytes));
    }
    var valueCell := ValueCell(lib, bytes);
    ghost var editable := Editable(lib, bytes);
    if valueCell + 16 > |bytes| || Resident(bytes, valueCell) {
      return Err(SetupCmdLineCapacity);
    }
    var dataCell := DataCell(bytes, valueCell);
    if dataCell + 4 > |bytes| {
      return Err(SetupCmdLineCapacity);
    }
    var dataSize := SizeAt(bytes, dataCell);
    if editable {
      SoundGeometry(bytes, valueCell);
    }
    if dataSize < 4 || dataCell + dataSize > |bytes| {
      return Err(SetupCmdLineCapacity);
    }
    var replacement := Replacement();
    var output := new Byte[|bytes|](i requires 0 <= i < |bytes| => bytes[i]);
    assert output[..] == bytes;
    var target := dataCell;
    if |replacement| > dataSize - 4 {
      var found := FindFreeCell(bytes, REQUIRED);
      if found.None? {
        return Err(SetupCmdLineCapacity);
      }
      target := found.value;
      FreeCellFacts(bytes, target);
      var freeSize := SizeAt(bytes, target);
      CopyInto(output, target, Le32(-REQUIRED));
      if freeSize > REQUIRED {
        CopyInto(output, target + REQUIRED, Le32(freeSize - REQUIRED));
      }
      CopyInto(output, dataCell, Le32(dataSize));
      CopyInto(output, valueCell + 12, Le32(target - REGF_HEADER_BYTES));
      assert output[..] == Relocated(bytes, valueCell, dataCell, dataSize, target, freeSize) by {
        RelocatedIs(bytes, valueCell, dataCell, dataSize, target, freeSize);
      }
    }
    ghost var s := output[..];
    if editable && target != dataCell {
      FreeCellTaken(bytes, valueCell, target);
    }
    var targetSize := SizeAt(output[..], target);
    if targetSize < 4 || target + targetSize > |bytes| || target + 4 + |replacement| > |bytes| {
      return Err(Panic);
    }
    CopyInto(output, target + 4, Zeros(targetSize - 4));
    CopyInto(output, target + 4, replacement);
    CopyInto(output, valueCell + 8, Le32(|replacement|));
    UpdateChecksum(output);
    var sealed := output[..];
    if editable && Lawful(lib) {
      FilledIs(s, sealed, valueCell, target, targetSize);
      if target == dataCell {
        InPlaceEdit(bytes, sealed, valueCell);
      } else {
        RelocatingEdit(bytes, s, sealed, valueCell, target);
      }
      EditedReads(lib, bytes, sealed);
    }
    var check := SetupCmdline(lib, sealed);
    if check.Err? {
      return Err(check.error);
    }
    if check.value != AGENT_SHELL {
      return Err(Unverified);
    }
    return Ok((original, sealed));
  }

  lemma FreeCellFacts(b: Bytes, t: nat)
    requires |b| <= MAX_HIVE_BYTES && CellOk(b, t, |b|) && Fits(b, t, REQUIRED)
    ensures t + SizeAt(b, t) <= |b| && REQUIRED <= SizeAt(b, t)
    ensures SizeAt(b, t) > REQUIRED ==> SizeAt(b, t) >= REQUIRED + 8
  {
    hide Word, Signed;
  }

  lemma RelocatedIs(s: Bytes, vk: nat, data: nat, dn: nat, free: nat, n: nat)
    requires vk + 16 <= |s| && data + 4 <= |s| && dn < TWO31 && REGF_HEADER_BYTES <= free
    requires free + n <= |s| && REQUIRED <= n < TWO31 && (n > REQUIRED ==> n >= REQUIRED + 4) && |s| <= MAX_HIVE_BYTES
    ensures var taken := Put(s, free, Le32(-REQUIRED));
            var cut := if n > REQUIRED then Put(taken, free + REQUIRED, Le32(n - REQUIRED)) else taken;
            Relocated(s, vk, data, dn, free, n) ==
                Put(Put(cut, data, Le32(dn)), vk + 12, Le32(free - REGF_HEADER_BYTES))
  {
    hide Put, Le32;
  }
}
