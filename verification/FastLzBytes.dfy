/**
 * What Ghost's fast LZ blocks say byte by byte, from crates/gho/src/lib.rs: the key three bytes are
 * entered under, the bits of a control word, the bytes of a token, and what matches then copy.
 */
module FastLzBytes {
  import opened Common
  import opened Powers
  import opened Bits
  import opened FastLz

  // ----- the key of three bytes -----

  /** Exclusive or of two hexadecimal digits. */
  function XorDigit(x: nat, y: nat): (d: nat)
    requires x < 16 && y < 16
    ensures d < 16
  {
    assert Pow2(4) == 16;
    XorBits(x, y, 4)
  }

  lemma {:induction false} XorWithZero(x: nat, bits: nat)
    requires x < Pow2(bits)
    ensures XorBits(x, 0, bits) == x && XorBits(0, x, bits) == x
  {
    if bits > 0 {
      XorWithZero(x / 2, bits - 1);
    }
  }

  lemma DigitSize(bits: nat)
    requires bits >= 4
    ensures Pow2(bits) >= 16
  {
    assert Pow2(4) == 16;
    Pow2Monotone(4, bits);
  }

  /** Two bytes with digits `h1 l1` and `h2 l2`, the first shifted by a digit. */
  lemma FoldedPair(h1: nat, l1: nat, h2: nat, l2: nat)
    requires h1 < 16 && l1 < 16 && h2 < 16 && l2 < 16
    ensures Xor(16 * h2 + l2, 16 * (16 * h1 + l1)) == l2 + 16 * (XorDigit(l1, h2) + 16 * h1)
  {
    ShiftedXor(h2, l2, 16 * h1 + l1);
    hide Xor, XorDigit, XorBits;
    OneDigitXor(h2, h1, l1, 28);
  }

  /** Three bytes, each shifted by a digit against the one before. */
  lemma FoldedDigits(h1: nat, l1: nat, h2: nat, l2: nat, h3: nat, l3: nat)
    requires h1 < 16 && l1 < 16 && h2 < 16 && l2 < 16 && h3 < 16 && l3 < 16
    ensures Xor(16 * h3 + l3, 16 * Xor(16 * h2 + l2, 16 * (16 * h1 + l1)))
            == 4096 * h1 + 256 * XorDigit(l1, h2) + 16 * XorDigit(l2, h3) + l3
  {
    hide Xor, XorDigit, XorBits;
    FoldedPair(h1, l1, h2, l2);
    var u := XorDigit(l1, h2) + 16 * h1;
    ShiftedXor(h3, l3, 16 * u + l2);
    OneDigitXor(h3, u, l2, 28);
  }

  lemma XorIs(x: nat, y: nat)
    ensures Xor(x, y) == XorBits(x, y, 32)
  {
    hide XorBits;
  }

  /** Shifting one side by a digit leaves the other side's last digit alone. */
  lemma ShiftedXor(h: nat, l: nat, y: nat)
    requires h < 16 && l < 16
    ensures Xor(16 * h + l, 16 * y) == l + 16 * XorBits(h, y, 28)
  {
    XorIs(16 * h + l, 16 * y);
    hide Xor, XorBits;
    XorDigits(h, y, l, 0, 32);
    DigitSize(4);
    XorWithZero(l, 4);
  }

  /** A single digit meets only the last digit of a number below three digits. */
  lemma OneDigitXor(d: nat, u: nat, l: nat, bits: nat)
    requires d < 16 && l < 16 && u < 256 && bits >= 12
    ensures XorBits(d, 16 * u + l, bits) == XorDigit(l, d) + 16 * u
  {
    XorDigits(0, u, d, l, bits);
    assert Pow2(8) == 256;
    Pow2Monotone(8, bits - 4);
    XorWithZero(u, bits - 4);
    FourBits(d, l, 4);
    FourBits(l, d, 4);
    hide XorBits;
    NoBitsLeft(d / 16, l / 16);
    NoBitsLeft(l / 16, d / 16);
  }

  /** Wrapping at 32 bits and the sign of the factor reduce to one product modulo 65536. */
  lemma KeyOfValue(v: nat)
    ensures (-24993 * v) % 0x1_0000_0000 / 16 % 4096 == 40543 * v % 0x1_0000 / 16
  {
    var wrapped := (-24993 * v) % 0x1_0000_0000;
    var q := (-24993 * v) / 0x1_0000_0000;
    assert 40543 * v == wrapped + (0x1_0000 * q + v) * 0x1_0000;
    LowPart(40543 * v, wrapped, 0x1_0000 * q + v);
    MiddleDigits(wrapped);
  }

  lemma LowPart(x: nat, y: nat, k: int)
    requires x == y + k * 0x1_0000
    ensures x % 0x1_0000 == y % 0x1_0000
  {
  }

  lemma MiddleDigits(x: nat)
    ensures x / 16 % 4096 == x % 0x1_0000 / 16
  {
    var q, r := x / 0x1_0000, x % 0x1_0000;
    assert x / 16 == 4096 * q + r / 16;
  }

  lemma HashIs(a: Byte, b: Byte, c: Byte)
    ensures Hash(a, b, c) == (-24993 * Xor(c, 16 * Xor(b, 16 * a))) % 0x1_0000_0000 / 16 % 4096
  {
    hide Xor;
  }

  /** The key of three bytes in terms of their hexadecimal digits. */
  lemma HashOfDigits(a: Byte, b: Byte, c: Byte)
    ensures var v := 4096 * (a / 16) + 256 * XorDigit(a % 16, b / 16) + 16 * XorDigit(b % 16, c / 16) + c % 16;
            Hash(a, b, c) == 40543 * v % 0x1_0000 / 16
  {
    hide XorDigit, Xor, Hash;
    FoldedDigits(a / 16, a % 16, b / 16, b % 16, c / 16, c % 16);
    DigitsOf(a);
    DigitsOf(b);
    DigitsOf(c);
    KeyOfValue(Xor(c, 16 * Xor(b, 16 * a)));
    HashIs(a, b, c);
  }

  lemma DigitsOf(a: Byte)
    ensures a / 16 < 16 && a % 16 < 16 && 16 * (a / 16) + a % 16 == a
  {
  }

  /** The same key, written out: what three bytes must be looked up under. */
  predicate KeyIs(key: nat, a: Byte, b: Byte, c: Byte) {
    key == 40543 * (4096 * (a / 16) + 256 * XorDigit(a % 16, b / 16) + 16 * XorDigit(b % 16, c / 16) + c % 16)
           % 0x1_0000 / 16
  }

  // ----- what matches copy -----

  /** A copy reads, byte by byte, what lies at its source by then, its own output included; or the sentinel. */
  lemma {:induction false} CopiedAt(out: seq<Byte>, from: int, n: nat, j: nat)
    requires from < |out| && j < n
    ensures Copied(out, from, n)[..|out|] == out
    ensures Copied(out, from, n)[|out| + j]
            == if from >= 0 then Copied(out, from, n)[from + j] else if j < 18 then 48 + (j + 1) % 10 else 0
    decreases n
  {
    var before := Copied(out, from, n - 1);
    if j < n - 1 {
      CopiedAt(out, from, n - 1, j);
    } else if j < 18 {
      DigitOfSentinel(j);
    }
    hide SentinelAt;
    assert Copied(out, from, n)[..|before|] == before;
  }

  lemma CopiedOneMore(out: seq<Byte>, from: nat, n: nat)
    requires from < |out| && n > 0
    ensures Copied(out, from, n)[..|out| + n - 1] == Copied(out, from, n - 1)
    ensures Copied(out, from, n)[|out| + n - 1] == Copied(out, from, n - 1)[from + n - 1]
  {
  }

  /** A copy that starts three bytes before the end repeats those three. */
  lemma {:induction false} CopiedRepeats(out: seq<Byte>, n: nat, j: nat)
    requires 3 <= |out| && j < n
    ensures Copied(out, |out| - 3, n)[|out| + j] == out[|out| - 3 + j % 3]
    decreases n
  {
    hide Copied;
    var from := |out| - 3;
    var before, after := Copied(out, from, n - 1), Copied(out, from, n);
    CopiedOneMore(out, from, n);
    if j < n - 1 {
      assert after[|out| + j] == after[..|out| + n - 1][|out| + j];
      CopiedRepeats(out, n - 1, j);
    } else if j >= 3 {
      CopiedRepeats(out, n - 1, j - 3);
    } else {
      assert before[from + j] == before[..|out|][from + j];
    }
  }

  function Repeated(a: Byte, b: Byte, c: Byte, n: nat): (r: seq<Byte>)
    ensures |r| == n
  {
    seq(n, j requires 0 <= j < n => if j % 3 == 0 then a else if j % 3 == 1 then b else c)
  }

  /** In whatever state three literals in a row are read, the first is entered under the key of the three. */
  lemma TripleIsEntered(s: State, a: Byte, b: Byte, c: Byte)
    requires s.Valid()
    ensures var t := Apply(Apply(Apply(s, Literal(a)), Literal(b)), Literal(c));
            t.out == s.out + [a, b, c] && t.table[Hash(a, b, c)] == |s.out|
  {
    hide Hash;
    var two := Apply(Apply(s, Literal(a)), Literal(b));
    assert two.run == 2 && two.out == s.out + [a, b];
    assert two.out + [c] == s.out + [a, b, c];
  }

  lemma CopyRepeatsTriple(out: seq<Byte>, a: Byte, b: Byte, c: Byte, n: nat)
    ensures Copied(out + [a, b, c], |out|, n) == out + Repeated(a, b, c, n + 3)
  {
    hide Copied;
    var longer := out + [a, b, c];
    var result := Copied(longer, |out|, n);
    var added := result[|out|..];
    var expected := Repeated(a, b, c, n + 3);
    forall j | 0 <= j < |added|
      ensures added[j] == expected[j]
    {
      if j >= 3 {
        CopiedRepeats(longer, n, j - 3);
      } else {
        assert result[|out| + j] == result[..|longer|][|out| + j];
      }
    }
    assert result[..|out|] == result[..|longer|][..|out|] == out;
    assert result == result[..|out|] + added;
  }

  /** So three literals and a match under their key repeat the three, for as long as the match is. */
  lemma MatchRepeatsTriple(s: State, a: Byte, b: Byte, c: Byte, key: nat, extra: nat)
    requires s.Valid() && KeyIs(key, a, b, c) && extra < 16
    ensures Match(key, extra).Valid()
    ensures Apply(Apply(Apply(Apply(s, Literal(a)), Literal(b)), Literal(c)), Match(key, extra)).out
            == s.out + Repeated(a, b, c, extra + 6)
  {
    hide Hash, Apply, XorDigit, Copied;
    HashOfDigits(a, b, c);
    TripleIsEntered(s, a, b, c);
    var t := Apply(Apply(Apply(s, Literal(a)), Literal(b)), Literal(c));
    MatchOutput(t, key, extra);
    CopyRepeatsTriple(s.out, a, b, c, extra + 3);
  }

  lemma MatchOutput(s: State, key: nat, extra: nat)
    requires s.Valid() && Match(key, extra).Valid()
    ensures Apply(s, Match(key, extra)).out == Copied(s.out, s.table[key], extra + 3)
  {
    hide Hash, Copied, Flushed;
  }

  // ----- the bytes of a block -----

  /** Bit `k` of a control word, counted from the lowest, says whether token `k` is a match. */
  lemma {:induction false} ControlBitsAt(ts: seq<Token>, k: nat)
    ensures Bit(ControlBits(ts), k) <==> k < |ts| && ts[k].Match?
  {
    if ts == [] {
      ZeroHasNoBits(k);
    } else {
      var rest := ControlBits(ts[1..]);
      assert ControlBits(ts) / 2 == rest;
      if k > 0 {
        ControlBitsAt(ts[1..], k - 1);
      }
    }
  }

  lemma BytesOfWord(low: Byte, high: Byte, k: nat)
    requires k < 16
    ensures Bit(low + 256 * high, k) <==> if k < 8 then Bit(low, k) else Bit(high, k - 8)
  {
    hide Bit;
    assert Pow2(8) == 256;
    BitOfParts(low, high, 256, 8, k);
  }

  /**
   * The first two bytes of a group of tokens: bit `k` of the first is set exactly when token `k` is a
   * match, and bit `k` of the second exactly when token `8 + k` is.
   */
  lemma ControlBytes(ts: seq<Token>, k: nat)
    requires AllValid(ts) && ts != [] && k < Min(16, |ts|)
    ensures |Groups(ts)| >= 2
    ensures Bit(Groups(ts)[k / 8], k % 8) <==> ts[k].Match?
  {
    hide Bit, Bodies, ControlBits;
    var n := Min(16, |ts|);
    var bits := ControlBits(ts[..n]);
    var data := Groups(ts);
    GroupLayout(data, 0, ts);
    assert data[0..] == data;
    ControlBitsAt(ts[..n], k);
    BytesOfWord(data[0], data[1], k);
  }

  /** The bytes of a token: a literal is its byte; a match has its length and its key's high digit first. */
  lemma TokenBytes(t: Token)
    requires t.Valid()
    ensures t.Literal? ==> Body(t) == [t.b]
    ensures t.Match? ==>
              |Body(t)| == 2 && Body(t)[0] % 16 == t.extra
              && 256 * (Body(t)[0] as int / 16) + Body(t)[1] as int == t.index
  {
  }

  lemma OneMoreToken(s: State, t: Token, rest: seq<Token>)
    requires s.Valid() && t.Valid() && AllValid(rest)
    ensures AllValid([t] + rest)
    ensures Run(s, [t] + rest) == Run(Apply(s, t), rest)
    ensures Bodies([t] + rest) == Body(t) + Bodies(rest)
    ensures ControlBits([t] + rest) == (if t.Match? then 1 else 0) + 2 * ControlBits(rest)
  {
    var ts := [t] + rest;
    assert ts[0] == t && ts[1..] == rest;
    hide Apply;
  }

  lemma NoTokens(s: State)
    requires s.Valid()
    ensures AllValid([]) && Run(s, []) == s && Bodies([]) == [] && ControlBits([]) == 0
  {
  }

  /** Fewer than sixteen tokens are one control word and their bytes. */
  lemma OneGroup(ts: seq<Token>)
    requires AllValid(ts) && 1 <= |ts| < 16 && ControlBits(ts) < 256
    ensures Groups(ts) == [ControlBits(ts), 0] + Bodies(ts)
  {
    hide ControlBits, Bodies, Groups;
    var data := Groups(ts);
    assert ts[..|ts|] == ts && data[0..] == data;
    GroupLayout(data, 0, ts);
    assert data == data[..2] + data[2..|data|];
    LowWord(data[0], data[1], ControlBits(ts));
  }

  lemma LowWord(low: Byte, high: Byte, bits: nat)
    requires low as int + 256 * (high as int) == bits < 256
    ensures low == bits && high == 0
  {
  }

  /** Three literals and a match. */
  lemma TripleAndMatch(a: Byte, b: Byte, c: Byte, key: nat, extra: nat)
    requires key < TABLE_SIZE && extra < 16
    ensures var ts := [Literal(a), Literal(b), Literal(c), Match(key, extra)];
            && AllValid(ts)
            && Meaning(ts) == Apply(Apply(Apply(Apply(START, Literal(a)), Literal(b)), Literal(c)),
                                    Match(key, extra)).out
            && Groups(ts) == [8, 0, a, b, c, 16 * (key / 256) + extra, key % 256]
  {
    hide Apply, Run, Bodies, ControlBits, Groups;
    var p, q, r, t := Literal(a), Literal(b), Literal(c), Match(key, extra);
    var s1 := Apply(START, p);
    var s2 := Apply(s1, q);
    var s3 := Apply(s2, r);
    NoTokens(Apply(s3, t));
    OneMoreToken(s3, t, []);
    OneMoreToken(s2, r, [t]);
    OneMoreToken(s1, q, [r, t]);
    OneMoreToken(START, p, [q, r, t]);
    assert [t] + [] == [t] && [r] + [t] == [r, t] && [q] + [r, t] == [q, r, t];
    assert [p] + [q, r, t] == [p, q, r, t];
    OneGroup([p, q, r, t]);
  }

  lemma KeyIsSmall(key: nat, a: Byte, b: Byte, c: Byte)
    requires KeyIs(key, a, b, c)
    ensures key < 4096
  {
    hide XorDigit;
  }

  /** Three literals and a match under their key, as a block: the three are repeated. */
  lemma TripleBlock(header: seq<Byte>, a: Byte, b: Byte, c: Byte, key: nat, extra: nat, capacity: nat)
    requires |header| == 4 && header[0] != 1 && KeyIs(key, a, b, c) && extra < 16
    ensures key < 4096
    ensures Decoded(header + [8, 0, a, b, c, 16 * (key / 256) + extra, key % 256], capacity)
            == if extra + 6 > capacity then Err(CorruptBlock) else Ok(Repeated(a, b, c, extra + 6))
  {
    hide KeyIs, Apply, Repeated, Decoded, Groups, Run;
    KeyIsSmall(key, a, b, c);
    MatchRepeatsTriple(START, a, b, c, key, extra);
    TripleAndMatch(a, b, c, key, extra);
    var ts := [Literal(a), Literal(b), Literal(c), Match(key, extra)];
    DecodeUndoesSerialize(header, ts, capacity);
    assert START.out + Repeated(a, b, c, extra + 6) == Repeated(a, b, c, extra + 6);
  }

  /** The sentinel's digits from the first on: 1 to 9, 0, 1 and so on. */
  function DigitsFrom1(n: nat): (r: seq<Byte>)
    ensures |r| == n
  {
    seq(n, j requires 0 <= j < n => 48 + (j + 1) % 10)
  }

  /** A match under a key nothing was entered under copies those digits. */
  lemma DigitsBlock(header: seq<Byte>, key: nat, extra: nat, capacity: nat)
    requires |header| == 4 && header[0] != 1 && key < 4096 && extra < 16
    ensures Decoded(header + [1, 0, 16 * (key / 256) + extra, key % 256], capacity)
            == if extra + 3 > capacity then Err(CorruptBlock) else Ok(DigitsFrom1(extra + 3))
  {
    hide Apply, Run, Bodies, ControlBits, Groups, Decoded, DigitsFrom1;
    var t := Match(key, extra);
    NoTokens(Apply(START, t));
    OneMoreToken(START, t, []);
    assert [t] + [] == [t];
    OneGroup([t]);
    assert Groups([t]) == [1, 0, 16 * (key / 256) + extra, key % 256];
    DecodeUndoesSerialize(header, [t], capacity);
    assert START.table[key] == -1;
    MatchOutput(START, key, extra);
    CopiedDigits(extra + 3);
  }

  lemma {:induction false} CopiedDigits(n: nat)
    requires n <= 18
    ensures Copied([], -1, n) == DigitsFrom1(n)
  {
    if n > 0 {
      CopiedDigits(n - 1);
      DigitOfSentinel(n - 1);
      hide SentinelAt;
      assert DigitsFrom1(n) == DigitsFrom1(n - 1) + [48 + n % 10];
    }
  }

  lemma DigitOfSentinel(j: nat)
    requires j < 18
    ensures SentinelAt(j) == 48 + (j + 1) % 10
  {
  }
}
