/** Ghost's fast LZ block decoder, from crates/gho/src/lib.rs. */
module FastLz {
  import opened Common
  import opened Bits
  import opened Powers
  import opened Slices

  datatype BlockError = Truncated | CorruptBlock

  const TABLE_SIZE: nat := 4096
  const HEADER: nat := 4
  const SENTINEL: seq<Byte> := [49, 50, 51, 52, 53, 54, 55, 56, 57, 48, 49, 50, 51, 52, 53, 54, 55, 56]

  /** `hash`: the three bytes folded together, times a negative factor in wrapping 32-bit arithmetic, reduced. */
  function Hash(a: Byte, b: Byte, c: Byte): (h: nat)
    ensures h < TABLE_SIZE
  {
    var value := Xor(c, 16 * Xor(b, 16 * a));
    (-24993 * value) % 0x1_0000_0000 / 16 % TABLE_SIZE
  }

  // ----- what a token means -----

  /** A literal byte, or a copy of `extra + 3` bytes from where table entry `index` points. */
  datatype Token = Literal(b: Byte) | Match(index: nat, extra: nat) {
    predicate Valid() {
      Match? ==> index < TABLE_SIZE && extra < 16
    }
  }

  /** The decoder between tokens: output so far, history table, and literals not yet in the table. */
  datatype State = State(out: seq<Byte>, table: seq<int>, run: nat) {
    predicate Valid() {
      && |table| == TABLE_SIZE
      && (forall i :: 0 <= i < TABLE_SIZE ==> -1 <= table[i] < |out|)
      && run <= 2 && run <= |out|
    }
  }

  function InitialTable(): (t: seq<int>)
    ensures |t| == TABLE_SIZE && forall i :: 0 <= i < TABLE_SIZE ==> t[i] == -1
  {
    seq(TABLE_SIZE, _ => -1)
  }

  const START: State := State([], InitialTable(), 0)

  /** Byte `j` of a copy from an entry that was never written. */
  function SentinelAt(j: nat): Byte {
    if j < |SENTINEL| then SENTINEL[j] else 0
  }

  /** The output after copying `n` bytes; the copy may run into the bytes it has just written. */
  function Copied(out: seq<Byte>, from: int, n: nat): (r: seq<Byte>)
    requires from < |out|
    ensures |r| == |out| + n && r[..|out|] == out
  {
    if n == 0 then out
    else
      var before := Copied(out, from, n - 1);
      before + [if from < 0 then SentinelAt(n - 1) else before[from + n - 1]]
  }

  /** Enters position `pos` under the hash of the three bytes there. */
  function Registered(table: seq<int>, out: seq<Byte>, pos: int): (t: seq<int>)
    requires |table| == TABLE_SIZE && 0 <= pos && pos + 2 < |out|
    ensures |t| == TABLE_SIZE
  {
    table[Hash(out[pos], out[pos + 1], out[pos + 2]) := pos]
  }

  /** Enters the pending literals before `start`, oldest first. */
  function Flushed(table: seq<int>, out: seq<Byte>, start: nat, run: nat): (t: seq<int>)
    requires |table| == TABLE_SIZE && run <= 2 && run <= start && start + 2 < |out|
    ensures |t| == TABLE_SIZE
  {
    if run == 0 then table
    else
      var first := Registered(table, out, start - run);
      if run == 2 then Registered(first, out, start - 1) else first
  }

  function Apply(s: State, t: Token): (r: State)
    requires s.Valid() && t.Valid()
    ensures r.Valid() && s.out <= r.out && |r.out| > |s.out|
  {
    match t
    case Literal(b) =>
      var out := s.out + [b];
      if s.run == 2 then State(out, Registered(s.table, out, |out| - 3), 2) else State(out, s.table, s.run + 1)
    case Match(index, extra) =>
      var out := Copied(s.out, s.table[index], extra + 3);
      State(out, Flushed(s.table, out, |s.out|, s.run)[index := |s.out|], 0)
  }

  predicate AllValid(ts: seq<Token>) {
    forall t :: t in ts ==> t.Valid()
  }

  /** The state after a list of tokens. */
  function Run(s: State, ts: seq<Token>): (r: State)
    requires s.Valid() && AllValid(ts)
    ensures r.Valid() && s.out <= r.out
    decreases |ts|
  {
    if ts == [] then s else Run(Apply(s, ts[0]), ts[1..])
  }

  // ----- a plain decoder, one token at a time -----

  /** The token at `src` when control bit `bit` is due. */
  function TokenAt(data: seq<Byte>, src: nat, bit: bool): (t: Token)
    requires src + (if bit then 2 else 1) <= |data|
    ensures t.Valid()
  {
    if bit then Match(data[src + 1] as int + data[src] as int / 16 * 256, data[src] % 16) else Literal(data[src])
  }

  function ControlWord(data: seq<Byte>, src: nat): nat
    requires src + 2 <= |data|
  {
    data[src] as int + 256 * (data[src + 1] as int) + 0x1_0000
  }

  /**
   * Reads tokens until the data ends. `control` holds the remaining control bits under a marker
   * bit; when only the marker is left, the next two bytes are a new control word.
   */
  function Plain(data: seq<Byte>, src: nat, control: nat, s: State, capacity: nat): Result<seq<Byte>, BlockError>
    requires s.Valid() && control >= 1
    decreases |data| - src
  {
    if src >= |data| then Ok(s.out)
    else if control == 1 then
      if src + 1 >= |data| then Ok(s.out) else Plain(data, src + 2, ControlWord(data, src), s, capacity)
    else
      var bit := control % 2 == 1;
      if bit && src + 1 >= |data| then Err(Truncated)
      else
        var next := Apply(s, TokenAt(data, src, bit));
        if |next.out| > capacity then Err(CorruptBlock)
        else Plain(data, src + (if bit then 2 else 1), control / 2, next, capacity)
  }

  /** A whole block: too short, stored verbatim, or compressed. */
  function Decoded(data: seq<Byte>, capacity: nat): Result<seq<Byte>, BlockError> {
    if |data| < HEADER then Err(CorruptBlock)
    else if data[0] == 1 then if |data| - HEADER > capacity then Err(CorruptBlock) else Ok(data[HEADER..])
    else Plain(data, HEADER, 1, START, capacity)
  }

  // ----- the decoder of the source -----

  /** The byte loop of a match. The source's check that a copied byte exists can never fail. */
  method CopyMatch(out: array<Byte>, start: nat, from: int, length: nat) returns (ok: bool, dst: nat)
    requires start <= out.Length && -1 <= from < start
    modifies out
    ensures ok <==> start + length <= out.Length
    ensures ok ==> dst == start + length && out[..dst] == Copied(old(out[..start]), from, length)
  {
    dst := start;
    ghost var was := out[..start];
    for j := 0 to length
      invariant dst == start + j <= out.Length
      invariant out[..dst] == Copied(was, from, j)
    {
      if dst >= out.Length {
        return false, dst;
      }
      ghost var before := out[..dst];
      if from < 0 {
        out[dst] := if j < |SENTINEL| then SENTINEL[j] else 0;
      } else {
        var at := from + j;
        assert at < dst;
        assert before[at] == out[at];
        out[dst] := out[at];
      }
      assert out[..dst] == before;
      dst := dst + 1;
      assert out[..dst] == before + [out[dst - 1]];
    }
    ok := true;
  }

  lemma ApplyLength(s: State, t: Token)
    requires s.Valid() && t.Valid()
    ensures |Apply(s, t).out| == |s.out| + if t.Match? then t.extra + 3 else 1
  {
  }

  /** Enters one position into the table array. */
  method Register(table: array<int>, out: array<Byte>, dst: nat, pos: nat)
    requires table.Length == TABLE_SIZE && pos + 2 < dst <= out.Length
    modifies table
    ensures table[..] == Registered(old(table[..]), out[..dst], pos)
  {
    hide Hash;
    table[Hash(out[pos], out[pos + 1], out[pos + 2])] := pos;
  }

  /** One literal: `previousRun` shadows `literalRun`, as in the source. */
  method DecodeLiteral(
    b: Byte, out: array<Byte>, table: array<int>, dst: nat, literalRun: nat, previousRun: nat)
    returns (ok: bool, dst': nat, literalRun': nat, previousRun': nat)
    requires dst <= out.Length && literalRun == previousRun
    requires State(out[..dst], table[..], literalRun).Valid()
    modifies out, table
    ensures ok <==> dst < out.Length
    ensures ok ==> dst' == dst + 1 && literalRun' == previousRun'
    ensures ok ==> State(out[..dst'], table[..], literalRun')
                   == Apply(old(State(out[..dst], table[..], literalRun)), Literal(b))
  {
    hide Hash, Registered;
    dst', literalRun', previousRun' := dst, literalRun, previousRun;
    if dst >= out.Length {
      return false, dst', literalRun', previousRun';
    }
    out[dst] := b;
    assert out[..dst + 1] == old(out[..dst]) + [b];
    dst' := dst + 1;
    literalRun' := literalRun + 1;
    previousRun' := literalRun';
    if literalRun' == 3 {
      Register(table, out, dst', dst' - 3);
      literalRun', previousRun' := 2, 2;
    }
    ok := true;
  }

  /** One match; the source's `checked_sub` can never fail and its bounds tests always pass. */
  method DecodeMatch(
    index: nat, extra: nat, out: array<Byte>, table: array<int>, dst: nat, literalRun: nat, previousRun: nat)
    returns (ok: bool, dst': nat, literalRun': nat, previousRun': nat)
    requires dst <= out.Length && literalRun == previousRun && Match(index, extra).Valid()
    requires State(out[..dst], table[..], literalRun).Valid()
    modifies out, table
    ensures ok <==> dst + extra + 3 <= out.Length
    ensures ok ==> dst' == dst + extra + 3 && literalRun' == previousRun'
    ensures ok ==> State(out[..dst'], table[..], literalRun')
                   == Apply(old(State(out[..dst], table[..], literalRun)), Match(index, extra))
  {
    hide Hash, Registered, Copied;
    literalRun', previousRun' := literalRun, previousRun;
    ghost var before := State(out[..dst], table[..], literalRun);
    var matchStart := dst;
    ok, dst' := CopyMatch(out, matchStart, table[index], extra + 3);
    if !ok {
      return;
    }
    ghost var copied := out[..dst'];
    if literalRun' > 0 {
      assert literalRun' <= matchStart;
      var pos := matchStart - literalRun';
      if pos + 2 < dst' {
        Register(table, out, dst', pos);
      }
      if previousRun' == 2 && pos + 3 < dst' {
        Register(table, out, dst', pos + 1);
      }
      literalRun', previousRun' := 0, 0;
    }
    assert table[..] == Flushed(before.table, copied, matchStart, literalRun);
    table[index] := matchStart;
  }

  /**
   * `fast_lz`: decodes into `out`, taking sixteen tokens at a time while far from the end of the
   * data and one at a time near it. The source keeps table entries as `i32`, which is exact for
   * buffers up to 2 GiB; its only caller passes 33 792 bytes.
   */
  method Decode(data: seq<Byte>, out: array<Byte>) returns (r: Result<nat, BlockError>)
    requires out.Length <= 0x8000_0000
    modifies out
    ensures r.Err? <==> Decoded(data, out.Length).Err?
    ensures r.Err? ==> r.error == Decoded(data, out.Length).error
    ensures r.Ok? ==> r.value <= out.Length && out[..r.value] == Decoded(data, out.Length).value
    ensures |data| < 4 ==> r == Err(CorruptBlock)
    ensures |data| >= 4 && data[0] == 1 ==>
              if |data| - 4 > out.Length then r == Err(CorruptBlock)
              else r == Ok(|data| - 4) && out[..r.value] == data[4..]
  {
    hide Hash, Apply, ControlWord;
    if |data| < HEADER {
      return Err(CorruptBlock);
    }
    if data[0] == 1 {
      var raw := data[HEADER..];
      if |raw| > out.Length {
        return Err(CorruptBlock);
      }
      forall i | 0 <= i < |raw| {
        out[i] := raw[i];
      }
      assert out[..|raw|] == raw;
      return Ok(|raw|);
    }
    r := DecodeCompressed(data, out);
  }

  method DecodeCompressed(data: seq<Byte>, out: array<Byte>) returns (r: Result<nat, BlockError>)
    requires |data| >= HEADER
    modifies out
    ensures r.Err? <==> Plain(data, HEADER, 1, START, out.Length).Err?
    ensures r.Err? ==> r.error == Plain(data, HEADER, 1, START, out.Length).error
    ensures r.Ok? ==> r.value <= out.Length && out[..r.value] == Plain(data, HEADER, 1, START, out.Length).value
  {
    hide Hash, Apply, ControlWord, Plain;
    var table := new int[TABLE_SIZE](_ => -1);
    var src: nat, dst: nat, control: nat, literalRun: nat, previousRun: nat := HEADER, 0, 1, 0, 0;
    assert table[..] == InitialTable();
    ghost var answer := Plain(data, HEADER, 1, START, out.Length);
    ghost var s := START;
    while src < |data|
      invariant HEADER <= src && 1 <= control && dst <= out.Length && literalRun == previousRun
      invariant s.Valid() && s == State(out[..dst], table[..], literalRun)
      invariant answer == Plain(data, src, control, s, out.Length)
      decreases |data| - src
    {
      if control == 1 {
        if src + 1 >= |data| {
          break;
        }
        ControlWordIsLarge(data, src);
        PlainLoadsControl(data, src, s, out.Length);
        control := ControlWord(data, src);
        src := src + 2;
      }
      var tokens := if |data| - 32 < src then 1 else 16;
      ghost var entered := src;
      for k := 0 to tokens
        invariant HEADER <= src && 2 <= control && dst <= out.Length && literalRun == previousRun
        invariant if k == 0 then src == entered else src > entered
        invariant s.Valid() && s == State(out[..dst], table[..], literalRun)
        invariant answer == Plain(data, src, control, s, out.Length)
      {
        if src >= |data| {
          break;
        }
        PlainTakes(data, src, control, s, out.Length);
        var ok: bool;
        ghost var token: Token;
        if control % 2 == 1 {
          if src + 1 >= |data| {
            return Err(Truncated);
          }
          var index: nat := data[src + 1] as int + data[src] as int / 16 * 256;
          var extra := data[src] % 16;
          token := Match(index, extra);
          ok, dst, literalRun, previousRun := DecodeMatch(index, extra, out, table, dst, literalRun, previousRun);
          src := src + 2;
        } else {
          token := Literal(data[src]);
          ok, dst, literalRun, previousRun := DecodeLiteral(data[src], out, table, dst, literalRun, previousRun);
          src := src + 1;
        }
        ApplyLength(s, token);
        if !ok {
          return Err(CorruptBlock);
        }
        s := Apply(s, token);
        control := control / 2;
        if control == 1 {
          break;
        }
      }
    }
    PlainStops(data, src, control, s, out.Length);
    return Ok(dst);
  }

  lemma PlainStops(data: seq<Byte>, src: nat, control: nat, s: State, capacity: nat)
    requires s.Valid() && control >= 1 && (src >= |data| || (control == 1 && src + 1 >= |data|))
    ensures Plain(data, src, control, s, capacity) == Ok(s.out)
  {
    hide Apply;
  }

  lemma PlainTakes(data: seq<Byte>, src: nat, control: nat, s: State, capacity: nat)
    requires s.Valid() && control >= 2 && src < |data|
    ensures var bit := control % 2 == 1;
            if bit && src + 1 >= |data| then Plain(data, src, control, s, capacity) == Err(Truncated)
            else
              var next := Apply(s, TokenAt(data, src, bit));
              next.Valid() &&
              Plain(data, src, control, s, capacity) ==
              if |next.out| > capacity then Err(CorruptBlock)
              else Plain(data, src + (if bit then 2 else 1), control / 2, next, capacity)
  {
    hide Apply;
  }

  lemma ControlWordIsLarge(data: seq<Byte>, src: nat)
    requires src + 2 <= |data|
    ensures ControlWord(data, src) >= 0x1_0000
  {
  }

  // ----- serialised token lists -----

  function Body(t: Token): seq<Byte>
    requires t.Valid()
  {
    match t
    case Literal(b) => [b]
    case Match(index, extra) => [index / 256 * 16 + extra, index % 256]
  }

  function Bodies(ts: seq<Token>): seq<Byte>
    requires AllValid(ts)
  {
    if ts == [] then [] else Body(ts[0]) + Bodies(ts[1..])
  }

  /** One bit a token, the first token in the lowest bit; a match is a one. */
  function ControlBits(ts: seq<Token>): nat {
    if ts == [] then 0 else (if ts[0].Match? then 1 else 0) + 2 * ControlBits(ts[1..])
  }

  lemma ControlBitsBound(ts: seq<Token>)
    ensures ControlBits(ts) < Pow2(|ts|)
  {
    if ts != [] {
      ControlBitsBound(ts[1..]);
    }
  }

  lemma Sixteen()
    ensures Pow2(16) == 0x1_0000
  {
    assert Pow2(4) == 16;
    assert Pow2(8) == 256;
    assert Pow2(12) == 4096;
  }

  /** Groups of sixteen tokens, each behind its little-endian control word; the last may be short. */
  function Groups(ts: seq<Token>): seq<Byte>
    requires AllValid(ts)
    decreases |ts|
  {
    if ts == [] then []
    else
      var n := Min(16, |ts|);
      var bits := ControlBits(ts[..n]);
      ControlBitsBound(ts[..n]);
      Pow2Monotone(n, 16);
      Sixteen();
      [bits % 256, bits / 256] + Bodies(ts[..n]) + Groups(ts[n..])
  }

  /** A compressed block: any four-byte header that does not mark a stored block, then the groups. */
  function Serialized(header: seq<Byte>, ts: seq<Token>): seq<Byte>
    requires AllValid(ts)
  {
    header + Groups(ts)
  }

  /** The meaning of a list of tokens: the output of running them from the empty history. */
  function Meaning(ts: seq<Token>): seq<Byte>
    requires AllValid(ts)
  {
    Run(START, ts).out
  }

  lemma RunOfConcat(s: State, a: seq<Token>, b: seq<Token>)
    requires s.Valid() && AllValid(a) && AllValid(b)
    ensures AllValid(a + b)
    ensures Run(s, a + b) == Run(Run(s, a), b)
    decreases |a|
  {
    assert AllValid(a + b);
    if a == [] {
      assert a + b == b;
    } else {
      assert (a + b)[1..] == a[1..] + b;
      RunOfConcat(Apply(s, a[0]), a[1..], b);
    }
  }

  lemma FirstToken(ts: seq<Token>)
    requires AllValid(ts)
    ensures ts == [] ==> Bodies(ts) == [] && ControlBits(ts) == 0 && Pow2(|ts|) == 1
    ensures ts != [] ==>
              && Bodies(ts) == Body(ts[0]) + Bodies(ts[1..])
              && ControlBits(ts) == (if ts[0].Match? then 1 else 0) + 2 * ControlBits(ts[1..])
              && Pow2(|ts|) == 2 * Pow2(|ts| - 1)
  {
  }

  /** The plain decoder reads back one serialised token. */
  lemma PlainReadsToken(data: seq<Byte>, src: nat, control: nat, s: State, capacity: nat, t: Token)
    requires s.Valid() && t.Valid() && control >= 2
    requires src + |Body(t)| <= |data| && data[src..src + |Body(t)|] == Body(t)
    requires control % 2 == if t.Match? then 1 else 0
    ensures Plain(data, src, control, s, capacity) ==
            if |Apply(s, t).out| > capacity then Err(CorruptBlock)
            else Plain(data, src + |Body(t)|, control / 2, Apply(s, t), capacity)
  {
    hide Apply;
    assert data[src] == data[src..src + |Body(t)|][0];
    if t.Match? {
      assert data[src + 1] == data[src..src + |Body(t)|][1];
      assert t.index == (t.index % 256) + (t.index / 256 * 16 + t.extra) / 16 * 256;
      assert TokenAt(data, src, true) == t;
    } else {
      assert TokenAt(data, src, false) == t;
    }
  }

  /** It reads back the tokens under one control word, stopping early only when the buffer is full. */
  lemma {:induction false} PlainReadsGroup(
    data: seq<Byte>, src: nat, control: nat, s: State, capacity: nat, ts: seq<Token>)
    requires s.Valid() && AllValid(ts) && |s.out| <= capacity
    requires src + |Bodies(ts)| <= |data| && data[src..src + |Bodies(ts)|] == Bodies(ts)
    requires control >= Pow2(|ts|) && control % Pow2(|ts|) == ControlBits(ts)
    ensures control / Pow2(|ts|) >= 1
    ensures Plain(data, src, control, s, capacity) ==
            if |Run(s, ts).out| > capacity then Err(CorruptBlock)
            else Plain(data, src + |Bodies(ts)|, control / Pow2(|ts|), Run(s, ts), capacity)
    decreases |ts|
  {
    hide Apply, Plain, Body, Pow2, ControlBits, Bodies;
    FirstToken(ts);
    if ts == [] {
      assert src + |Bodies(ts)| == src;
    } else {
      var t, rest, half := ts[0], ts[1..], Pow2(|ts| - 1);
      var bodies := Bodies(ts);
      HalveControl(control, half, if t.Match? then 1 else 0, ControlBits(rest));
      assert data[src..src + |Body(t)|] == bodies[..|Body(t)|];
      PlainReadsToken(data, src, control, s, capacity, t);
      var next := Apply(s, t);
      if |next.out| <= capacity {
        var later := src + |Body(t)|;
        assert data[later..later + |Bodies(rest)|] == bodies[|Body(t)|..];
        PlainReadsGroup(data, later, control / 2, next, capacity, rest);
      }
    }
  }

  lemma HalveControl(control: nat, half: nat, bit: nat, bits: nat)
    requires half >= 1 && bit <= 1 && control >= 2 * half && control % (2 * half) == bit + 2 * bits
    ensures control >= 2 && control % 2 == bit
    ensures control / 2 >= half && control / 2 % half == bits
    ensures control / (2 * half) == control / 2 / half
    ensures control / (2 * half) >= 1
  {
    var q := control / (2 * half);
    assert control == q * (2 * half) + bit + 2 * bits;
    assert q * (2 * half) == 2 * (q * half);
    assert control / 2 == q * half + bits;
    assert bits < half;
    DivModUnique(control / 2, half, q, bits);
    assert q >= 1;
    assert q * half >= half;
  }

  lemma MulLess(a: nat, b: nat, d: nat)
    requires a < b
    ensures a * d + d <= b * d
  {
    if a + 1 < b {
      MulLess(a, b - 1, d);
    }
    assert (b - 1) * d + d == b * d;
  }

  lemma DivModUnique(x: nat, d: nat, q: nat, r: nat)
    requires d >= 1 && x == q * d + r && r < d
    ensures x / d == q && x % d == r
  {
    var q', r' := x / d, x % d;
    assert x == q' * d + r' && 0 <= r' < d;
    if q' < q {
      MulLess(q', q, d);
    } else if q' > q {
      MulLess(q, q', d);
    }
  }

  lemma {:induction false} PlainReadsGroups(data: seq<Byte>, src: nat, s: State, capacity: nat, ts: seq<Token>)
    requires s.Valid() && AllValid(ts) && |s.out| <= capacity
    requires src <= |data| && data[src..] == Groups(ts)
    ensures Plain(data, src, 1, s, capacity) ==
            if |Run(s, ts).out| > capacity then Err(CorruptBlock) else Ok(Run(s, ts).out)
    decreases |ts|
  {
    hide Plain, Run, Apply, Bodies, ControlBits, Groups, ControlWord;
    if ts == [] {
      NoGroups();
      PlainAtEnd(data, src, 1, s, capacity);
    } else {
      var n := Min(16, |ts|);
      var now, later := ts[..n], ts[n..];
      var after := src + 2 + |Bodies(now)|;
      GroupLayout(data, src, ts);
      assert ts == now + later;
      RunOfConcat(s, now, later);
      ReadsOneGroup(data, src, s, capacity, now);
      if |Run(s, now).out| <= capacity {
        PlainReadsGroups(data, after, Run(s, now), capacity, later);
      }
    }
  }

  lemma NoGroups()
    ensures forall s: State :: s.Valid() ==> Run(s, []) == s
    ensures Groups([]) == []
  {
  }

  /** Where the pieces of the first group lie. */
  lemma GroupLayout(data: seq<Byte>, src: nat, ts: seq<Token>)
    requires AllValid(ts) && ts != [] && src <= |data| && data[src..] == Groups(ts)
    ensures var n := Min(16, |ts|);
            var body := src + 2;
            var after := body + |Bodies(ts[..n])|;
            && after <= |data|
            && ControlWord(data, src) == ControlBits(ts[..n]) + 0x1_0000
            && data[body..after] == Bodies(ts[..n])
            && data[after..] == Groups(ts[n..])
            && (n == 16 || after == |data|)
  {
    var n := Min(16, |ts|);
    ControlBitsBound(ts[..n]);
    Pow2Monotone(n, 16);
    Sixteen();
    GroupPieces(data, src, ControlBits(ts[..n]), Bodies(ts[..n]), Groups(ts[n..]));
    if n < 16 {
      assert ts[n..] == [];
    }
  }

  lemma GroupPieces(data: seq<Byte>, src: nat, bits: nat, bodies: seq<Byte>, tail: seq<Byte>)
    requires src <= |data| && bits < 0x1_0000 && data[src..] == [bits % 256, bits / 256] + bodies + tail
    ensures var after := src + 2 + |bodies|;
            && after <= |data|
            && ControlWord(data, src) == bits + 0x1_0000
            && data[src + 2..after] == bodies
            && data[after..] == tail
            && (tail == [] ==> after == |data|)
  {
    var rest := data[src..];
    assert rest == data[src..|data|];
    assert data[src] == rest[0] && data[src + 1] == rest[1];
    SliceOfSlice(data, src, |data|, 2, 2 + |bodies|);
    SliceOfSlice(data, src, |data|, 2 + |bodies|, |rest|);
  }

  lemma ControlOfGroup(bits: nat, n: nat)
    requires n <= 16 && bits < Pow2(n)
    ensures bits + 0x1_0000 >= Pow2(n) && (bits + 0x1_0000) % Pow2(n) == bits
    ensures n == 16 ==> (bits + 0x1_0000) / Pow2(n) == 1
  {
    Sixteen();
    Pow2Monotone(n, 16);
    Pow2Splits(n, 16);
    DivModUnique(bits + 0x1_0000, Pow2(n), Pow2(16 - n), bits);
  }

  lemma Pow2Splits(m: nat, n: nat)
    requires m <= n
    ensures Pow2(n) == Pow2(n - m) * Pow2(m)
  {
    if m < n {
      Pow2Splits(m, n - 1);
      DoubledProduct(Pow2(n - 1 - m), Pow2(m));
    }
  }

  lemma DoubledProduct(x: nat, y: nat)
    ensures 2 * (x * y) == (2 * x) * y
  {
  }

  /** A control word and its tokens; afterwards either the marker bit is alone or the data has ended. */
  lemma ReadsOneGroup(data: seq<Byte>, src: nat, s: State, capacity: nat, ts: seq<Token>)
    requires s.Valid() && AllValid(ts) && 1 <= |ts| <= 16 && |s.out| <= capacity
    requires src + 2 + |Bodies(ts)| <= |data| && data[src + 2..src + 2 + |Bodies(ts)|] == Bodies(ts)
    requires ControlWord(data, src) == ControlBits(ts) + 0x1_0000
    requires |ts| == 16 || src + 2 + |Bodies(ts)| == |data|
    ensures Plain(data, src, 1, s, capacity) ==
            if |Run(s, ts).out| > capacity then Err(CorruptBlock)
            else Plain(data, src + 2 + |Bodies(ts)|, 1, Run(s, ts), capacity)
  {
    hide Apply, Run, Bodies, ControlWord, TokenAt, Plain, ControlBits;
    ControlBitsBound(ts);
    ControlOfGroup(ControlBits(ts), |ts|);
    PlainReadsGroup(data, src + 2, ControlWord(data, src), s, capacity, ts);
    PlainLoadsControl(data, src, s, capacity);
    if |ts| < 16 && |Run(s, ts).out| <= capacity {
      PlainAtEnd(data, |data|, 1, Run(s, ts), capacity);
      PlainAtEnd(data, |data|, ControlWord(data, src) / Pow2(|ts|), Run(s, ts), capacity);
    }
  }

  lemma PlainLoadsControl(data: seq<Byte>, src: nat, s: State, capacity: nat)
    requires s.Valid() && src + 2 <= |data|
    ensures Plain(data, src, 1, s, capacity) == Plain(data, src + 2, ControlWord(data, src), s, capacity)
  {
  }

  lemma PlainAtEnd(data: seq<Byte>, src: nat, control: nat, s: State, capacity: nat)
    requires s.Valid() && control >= 1 && src >= |data|
    ensures Plain(data, src, control, s, capacity) == Ok(s.out)
  {
  }

  /**
   * Decoding undoes serialising: any list of tokens, in groups of sixteen under control words,
   * decodes to its meaning, and is refused exactly when that does not fit the buffer.
   */
  lemma DecodeUndoesSerialize(header: seq<Byte>, ts: seq<Token>, capacity: nat)
    requires AllValid(ts) && |header| == HEADER && header[0] != 1
    ensures Decoded(Serialized(header, ts), capacity) ==
            if |Meaning(ts)| > capacity then Err(CorruptBlock) else Ok(Meaning(ts))
  {
    var data := Serialized(header, ts);
    assert data[HEADER..] == Groups(ts);
    PlainReadsGroups(data, HEADER, START, capacity, ts);
  }

  /** And every block that decodes, whatever its bytes, decodes to the meaning of some list of tokens. */
  lemma {:induction false} DecodedIsAMeaning(data: seq<Byte>, src: nat, control: nat, done: seq<Token>, capacity: nat)
    returns (ts: seq<Token>)
    requires AllValid(done) && control >= 1
    requires Plain(data, src, control, Run(START, done), capacity).Ok?
    ensures AllValid(ts) && Plain(data, src, control, Run(START, done), capacity) == Ok(Meaning(ts))
    decreases |data| - src
  {
    if src >= |data| || (control == 1 && src + 1 >= |data|) {
      return done;
    } else if control == 1 {
      ts := DecodedIsAMeaning(data, src + 2, ControlWord(data, src), done, capacity);
    } else {
      hide Apply, TokenAt;
      var bit := control % 2 == 1;
      var t := TokenAt(data, src, bit);
      assert AllValid([t]) && [t][1..] == [];
      RunOfConcat(START, done, [t]);
      assert Run(START, done + [t]) == Apply(Run(START, done), t);
      ts := DecodedIsAMeaning(data, src + (if bit then 2 else 1), control / 2, done + [t], capacity);
    }
  }

  // ----- what the history table holds -----

  /** Where the output of token `k` begins. */
  function StartOf(ts: seq<Token>, k: nat): nat
    requires AllValid(ts) && k <= |ts|
  {
    |Meaning(ts[..k])|
  }

  /** The number of literals at the end of a list. */
  function TrailingLiterals(ts: seq<Token>): nat {
    if ts == [] || ts[|ts| - 1].Match? then 0 else 1 + TrailingLiterals(ts[..|ts| - 1])
  }

  /** The table slot token `k` is entered under: its own index, or the hash of its first three bytes. */
  function KeyOf(ts: seq<Token>, k: nat, out: seq<Byte>): nat
    requires AllValid(ts) && k < |ts|
  {
    if ts[k].Match? then ts[k].index
    else
      var p := StartOf(ts, k);
      if p + 2 < |out| then Hash(out[p], out[p + 1], out[p + 2]) else 0
  }

  /** The start of the last of the first `m` tokens with this key, or -1. */
  function LastWithKey(ts: seq<Token>, m: nat, key: nat, out: seq<Byte>): int
    requires AllValid(ts) && m <= |ts|
  {
    if m == 0 then -1
    else if KeyOf(ts, m - 1, out) == key then StartOf(ts, m - 1)
    else LastWithKey(ts, m - 1, key, out)
  }

  lemma MeaningOfLast(ts: seq<Token>)
    requires AllValid(ts) && ts != []
    ensures Run(START, ts) == Apply(Run(START, ts[..|ts| - 1]), ts[|ts| - 1])
  {
    var front, last := ts[..|ts| - 1], [ts[|ts| - 1]];
    assert ts == front + last && last[1..] == [];
    RunOfConcat(START, front, last);
  }

  lemma LiteralsEndTheOutput(ts: seq<Token>, j: nat)
    requires AllValid(ts) && j <= TrailingLiterals(ts)
    ensures j <= |ts| && StartOf(ts, |ts| - j) + j == |Meaning(ts)|
    ensures j > 0 ==> ts[|ts| - j].Literal?
  {
    hide Run, Apply;
    if j == 0 {
      assert ts[..|ts|] == ts;
    } else {
      var front := ts[..|ts| - 1];
      MeaningOfLast(ts);
      LiteralsEndTheOutput(front, j - 1);
      assert front[..|front| - (j - 1)] == ts[..|ts| - j];
      ApplyLength(Run(START, front), ts[|ts| - 1]);
    }
  }

  /** Later tokens do not change what earlier ones are entered under. */
  lemma LastWithKeyOfPrefix(front: seq<Token>, t: Token, m: nat, key: nat, out: seq<Byte>)
    requires AllValid(front) && t.Valid() && m <= |front|
    ensures AllValid(front + [t])
    ensures LastWithKey(front + [t], m, key, out) == LastWithKey(front, m, key, out)
  {
    assert AllValid(front + [t]);
    if m > 0 {
      assert (front + [t])[..m - 1] == front[..m - 1];
      LastWithKeyOfPrefix(front, t, m - 1, key, out);
    }
  }

  /** One entry of the table, one more token counted. */
  lemma EntryCounts(ts: seq<Token>, m: nat, table: seq<int>, written: seq<Byte>, out: seq<Byte>)
    requires AllValid(ts) && m < |ts| && ts[m].Literal? && |table| == TABLE_SIZE
    requires StartOf(ts, m) + 2 < |written| && written <= out
    requires forall i :: 0 <= i < TABLE_SIZE ==> table[i] == LastWithKey(ts, m, i, out)
    ensures forall i :: 0 <= i < TABLE_SIZE ==>
              Registered(table, written, StartOf(ts, m))[i] == LastWithKey(ts, m + 1, i, out)
  {
    hide Hash;
  }

  /**
   * The table is a history: slot `i` holds the start of the last token entered under `i`, counting
   * every token except the at most two literals that end the list, or -1 if there is none. A match
   * is entered under its own index, a literal under the hash of the three bytes from its position.
   */
  lemma {:induction false} TableIsHistory(ts: seq<Token>, out: seq<Byte>)
    requires AllValid(ts) && Meaning(ts) <= out
    ensures Run(START, ts).run == Min(2, TrailingLiterals(ts)) <= |ts|
    ensures forall i :: 0 <= i < TABLE_SIZE ==>
              Run(START, ts).table[i] == LastWithKey(ts, |ts| - Run(START, ts).run, i, out)
  {
    hide Hash, Registered, Run, LastWithKey, Copied, Apply, Flushed, StartOf;
    if ts == [] {
      EmptyHistory(out);
    } else {
      var front, t := ts[..|ts| - 1], ts[|ts| - 1];
      var s0 := Run(START, front);
      MeaningOfLast(ts);
      TableIsHistory(front, out);
      assert ts == front + [t];
      forall i | 0 <= i < TABLE_SIZE
        ensures s0.table[i] == LastWithKey(ts, |front| - s0.run, i, out)
      {
        LastWithKeyOfPrefix(front, t, |front| - s0.run, i, out);
      }
      StartsOfPending(ts, s0.run);
      if t.Literal? {
        LiteralEntersHistory(ts, s0, out);
      } else {
        MatchEntersHistory(ts, s0, out);
      }
    }
  }

  lemma LiteralEntersHistory(ts: seq<Token>, s0: State, out: seq<Byte>)
    requires AllValid(ts) && ts != [] && ts[|ts| - 1].Literal?
    requires s0.Valid() && s0.run < |ts|
    requires s0.out == Meaning(ts[..|ts| - 1]) && Apply(s0, ts[|ts| - 1]).out <= out
    requires Pending(ts, s0.run, |s0.out|)
    requires forall i :: 0 <= i < TABLE_SIZE ==> s0.table[i] == LastWithKey(ts, |ts| - 1 - s0.run, i, out)
    ensures var s1 := Apply(s0, ts[|ts| - 1]);
            && s1.run == Min(2, s0.run + 1)
            && forall i :: 0 <= i < TABLE_SIZE ==> s1.table[i] == LastWithKey(ts, |ts| - s1.run, i, out)
  {
    hide Hash, Registered, StartOf, LastWithKey, Meaning;
    if s0.run == 2 {
      EntryCounts(ts, |ts| - 3, s0.table, Apply(s0, ts[|ts| - 1]).out, out);
    }
  }

  lemma EmptyHistory(out: seq<Byte>)
    ensures Run(START, []) == START
    ensures forall i :: 0 <= i < TABLE_SIZE ==> LastWithKey([], 0, i, out) == -1
  {
  }

  /** The `run` tokens before the last are literals, and their starts lie right behind one another. */
  predicate Pending(ts: seq<Token>, run: nat, total: nat)
    requires AllValid(ts)
  {
    var n := |ts| - 1;
    && run <= 2 && run <= n
    && StartOf(ts, n) == total
    && (run >= 1 ==> ts[n - 1].Literal? && StartOf(ts, n - 1) == total - 1)
    && (run == 2 ==> ts[n - 2].Literal? && StartOf(ts, n - 2) == total - 2)
  }

  lemma StartsOfPending(ts: seq<Token>, run: nat)
    requires AllValid(ts) && ts != [] && run <= 2 && run <= TrailingLiterals(ts[..|ts| - 1])
    ensures Pending(ts, run, |Meaning(ts[..|ts| - 1])|)
  {
    hide TrailingLiterals, Meaning;
    var n, front := |ts| - 1, ts[..|ts| - 1];
    LiteralsEndTheOutput(front, run);
    assert ts[..n] == front;
    if run >= 1 {
      LiteralsEndTheOutput(front, 1);
      assert front[..n - 1] == ts[..n - 1];
    }
    if run == 2 {
      assert front[..n - 2] == ts[..n - 2];
    }
  }

  lemma MatchEntersHistory(ts: seq<Token>, s0: State, out: seq<Byte>)
    requires AllValid(ts) && ts != [] && ts[|ts| - 1].Match?
    requires s0.Valid() && s0.run < |ts|
    requires s0.out == Meaning(ts[..|ts| - 1]) && Apply(s0, ts[|ts| - 1]).out <= out
    requires Pending(ts, s0.run, |s0.out|)
    requires forall i :: 0 <= i < TABLE_SIZE ==> s0.table[i] == LastWithKey(ts, |ts| - 1 - s0.run, i, out)
    ensures Apply(s0, ts[|ts| - 1]).run == 0
    ensures forall i :: 0 <= i < TABLE_SIZE ==> Apply(s0, ts[|ts| - 1]).table[i] == LastWithKey(ts, |ts|, i, out)
  {
    hide Hash, Registered, Copied, StartOf;
    var n, t := |ts| - 1, ts[|ts| - 1];
    assert t in ts && t.Valid();
    var written := Copied(s0.out, s0.table[t.index], t.extra + 3);
    var table := s0.table;
    if s0.run == 2 {
      EntryCounts(ts, n - 2, table, written, out);
      table := Registered(table, written, |s0.out| - 2);
    }
    if s0.run >= 1 {
      EntryCounts(ts, n - 1, table, written, out);
      table := Registered(table, written, |s0.out| - 1);
    }
    assert table == Flushed(s0.table, written, |s0.out|, s0.run);
    forall i | 0 <= i < TABLE_SIZE
      ensures Apply(s0, t).table[i] == LastWithKey(ts, n + 1, i, out)
    {
      assert KeyOf(ts, n, out) == t.index;
    }
  }
}
