/** Vocabulary shared by every module of the model. */
module Common {

  datatype Option<+T> = None | Some(value: T)

  datatype Result<+T, +E> = Ok(value: T) | Err(error: E)

  /** A UUID, kept only as an identity. */
  type Uuid = nat

  /** An instant, in nanoseconds. */
  type Time = int

  const U32_MAX: nat := 0xFFFF_FFFF
  const U64_MAX: nat := 0xFFFF_FFFF_FFFF_FFFF

  type Byte = x: int | 0 <= x <= 0xFF

  type U32 = x: int | 0 <= x <= U32_MAX

  type U64 = x: int | 0 <= x <= U64_MAX

  function AddSaturating(a: U64, b: U64): U64 {
    if a + b <= U64_MAX then a + b else U64_MAX
  }

  function SubSaturating(a: U64, b: U64): U64 {
    if b <= a then a - b else 0
  }

  function MulSaturating(a: U64, b: U64): U64 {
    if a * b <= U64_MAX then a * b else U64_MAX
  }

  function AbsDiff(a: nat, b: nat): nat {
    if a <= b then b - a else a - b
  }

  function Min(a: int, b: int): int {
    if a <= b then a else b
  }

  function Max(a: int, b: int): int {
    if a <= b then b else a
  }
}

/** The text comparisons the fingerprints use: trimming and ASCII case folding. */
module TextRules {

  function LowerAscii(c: char): char {
    if 'A' <= c <= 'Z' then c - 'A' + 'a' else c
  }

  function UpperAscii(c: char): char {
    if 'a' <= c <= 'z' then c - 'a' + 'A' else c
  }

  predicate EqIgnoreAsciiCase(a: string, b: string) {
    |a| == |b| && forall i :: 0 <= i < |a| ==> LowerAscii(a[i]) == LowerAscii(b[i])
  }

  predicate IsWhitespace(c: char) {
    var u := c as int;
    || 0x9 <= u <= 0xD || u == 0x20 || u == 0x85 || u == 0xA0 || u == 0x1680
    || 0x2000 <= u <= 0x200A || u == 0x2028 || u == 0x2029 || u == 0x202F
    || u == 0x205F || u == 0x3000
  }

  function Trim(s: string): string {
    if s == [] then []
    else if IsWhitespace(s[0]) then Trim(s[1..])
    else if IsWhitespace(s[|s| - 1]) then Trim(s[..|s| - 1])
    else s
  }

  // ----- what the comparisons mean -----

  /** The same letter, in either case, or the same character. */
  predicate SameLetter(a: char, b: char) {
    a == b || ('a' <= a <= 'z' && b as int == a as int - 32) || ('a' <= b <= 'z' && a as int == b as int - 32)
  }

  predicate SameText(a: string, b: string) {
    |a| == |b| && forall i :: 0 <= i < |a| ==> SameLetter(a[i], b[i])
  }

  /** `t` is what is left of `s` between the blanks at its two ends. */
  ghost predicate Stripped(s: string, t: string) {
    exists i, j :: StrippedAt(s, t, i, j)
  }

  ghost predicate StrippedAt(s: string, t: string, i: int, j: int) {
    && 0 <= i <= j <= |s| && t == s[i..j]
    && (forall k :: 0 <= k < i || j <= k < |s| ==> IsWhitespace(s[k]))
    && (t != [] ==> !IsWhitespace(t[0]) && !IsWhitespace(t[|t| - 1]))
  }

  lemma FoldingIsSameLetter(a: char, b: char)
    ensures LowerAscii(a) == LowerAscii(b) <==> SameLetter(a, b)
    ensures UpperAscii(a) == UpperAscii(b) <==> SameLetter(a, b)
  {
  }

  /** Texts are equal up to case exactly when they are letter by letter. */
  lemma EqualUpToCase(a: string, b: string)
    ensures EqIgnoreAsciiCase(a, b) <==> SameText(a, b)
  {
    forall i | 0 <= i < |a| && |a| == |b|
      ensures LowerAscii(a[i]) == LowerAscii(b[i]) <==> SameLetter(a[i], b[i])
    {
      FoldingIsSameLetter(a[i], b[i]);
    }
  }

  /** Being the same text up to case is an equivalence. */
  lemma SameTextIsEquivalence(a: string, b: string, c: string)
    ensures SameText(a, a) && (SameText(a, b) ==> SameText(b, a))
    ensures SameText(a, b) && SameText(b, c) ==> SameText(a, c)
  {
    EqualUpToCase(a, a);
    EqualUpToCase(a, b);
    EqualUpToCase(b, a);
    EqualUpToCase(b, c);
    EqualUpToCase(a, c);
    hide SameText, LowerAscii;
  }

  lemma StripMore(s: string, t: string, blankFirst: bool, i: int, j: int)
    requires s != [] && IsWhitespace(s[if blankFirst then 0 else |s| - 1])
    requires StrippedAt(if blankFirst then s[1..] else s[..|s| - 1], t, i, j)
    ensures Stripped(s, t)
  {
    hide IsWhitespace;
    if blankFirst {
      var rest := s[1..];
      assert forall k :: 0 < k < |s| ==> s[k] == rest[k - 1];
      assert t == s[i + 1..j + 1];
      assert StrippedAt(s, t, i + 1, j + 1);
    } else {
      assert t == s[i..j];
      assert StrippedAt(s, t, i, j);
    }
  }

  /** Trimming removes exactly the blanks at the two ends. */
  lemma {:induction false} TrimStrips(s: string)
    ensures Stripped(s, Trim(s))
    decreases |s|
  {
    if s == [] {
      assert StrippedAt(s, [], 0, 0);
    } else if IsWhitespace(s[0]) {
      TrimStrips(s[1..]);
      hide IsWhitespace, StrippedAt;
      var i, j :| StrippedAt(s[1..], Trim(s[1..]), i, j);
      StripMore(s, Trim(s), true, i, j);
    } else if IsWhitespace(s[|s| - 1]) {
      TrimStrips(s[..|s| - 1]);
      hide IsWhitespace, StrippedAt;
      var i, j :| StrippedAt(s[..|s| - 1], Trim(s), i, j);
      StripMore(s, Trim(s), false, i, j);
    } else {
      hide IsWhitespace, Trim;
      assert s[0..|s|] == s;
      assert StrippedAt(s, s, 0, |s|);
    }
  }

  lemma SameEnds(s: string, t: string, u: string, i: int, j: int, k: int, l: int)
    requires StrippedAt(s, t, i, j) && StrippedAt(s, u, k, l)
    ensures i < j ==> k <= i && j <= l
  {
    hide IsWhitespace;
    if i < j {
      assert t[0] == s[i] && t[|t| - 1] == s[j - 1];
    }
  }

  /** And only one text is left. */
  lemma StrippedIsUnique(s: string, t: string, u: string)
    requires Stripped(s, t) && Stripped(s, u)
    ensures t == u
  {
    var i, j :| StrippedAt(s, t, i, j);
    var k, l :| StrippedAt(s, u, k, l);
    SameEnds(s, t, u, i, j, k, l);
    SameEnds(s, u, t, k, l, i, j);
    hide IsWhitespace;
  }

  /** A text that is no longer after trimming is unchanged. */
  lemma {:induction false} TrimShortens(s: string)
    ensures |Trim(s)| <= |s| && (|Trim(s)| == |s| ==> Trim(s) == s)
    decreases |s|
  {
    if s != [] {
      if IsWhitespace(s[0]) {
        TrimShortens(s[1..]);
      } else if IsWhitespace(s[|s| - 1]) {
        TrimShortens(s[..|s| - 1]);
      }
    }
  }
}

/** Decimal numerals. */
module Numerals {

  predicate AllDigits(s: string) {
    forall i :: 0 <= i < |s| ==> '0' <= s[i] <= '9'
  }

  function Number(digits: string): (n: nat)
    requires AllDigits(digits)
  {
    if digits == [] then 0
    else 10 * Number(digits[..|digits| - 1]) + (digits[|digits| - 1] as int - '0' as int)
  }

  /** The numeral of `n` without leading zeros. */
  function Decimal(n: nat): (r: string)
    ensures r != [] && AllDigits(r)
  {
    var last := [('0' as int + n % 10) as char];
    if n < 10 then last else Decimal(n / 10) + last
  }

  function Pow10(n: nat): (r: nat)
    ensures r > 0
  {
    if n == 0 then 1 else 10 * Pow10(n - 1)
  }

  lemma {:induction false} NumberBound(digits: string, n: nat)
    requires AllDigits(digits) && |digits| == n
    ensures Number(digits) < Pow10(n)
  {
    if n > 0 {
      NumberBound(digits[..n - 1], n - 1);
    }
  }

  lemma {:induction false} NumberOfDecimal(n: nat)
    ensures Number(Decimal(n)) == n
  {
    if n >= 10 {
      NumberOfDecimal(n / 10);
      assert Decimal(n)[..|Decimal(n)| - 1] == Decimal(n / 10);
    }
  }

  lemma {:induction false} DecimalLength(n: nat, width: nat)
    requires n < Pow10(width) && width >= 1
    ensures |Decimal(n)| <= width
  {
    if n >= 10 {
      DecimalLength(n / 10, width - 1);
    }
  }
}

/** Powers of two. */
module Powers {

  function Pow2(n: nat): (p: nat)
    ensures p >= 1
  {
    if n == 0 then 1 else 2 * Pow2(n - 1)
  }

  lemma Pow2Monotone(m: nat, n: nat)
    requires m <= n
    ensures Pow2(m) <= Pow2(n)
  {
    if m < n {
      Pow2Monotone(m, n - 1);
    }
  }
}

/** The binary digits of numbers, and exclusive or. */
module Bits {
  import opened Common
  import opened Powers

  const WORD_SIZE: nat := 0x1_0000_0000

  /** Bit `i` of a number is set; bit 0 is the lowest. */
  predicate Bit(x: nat, i: nat) {
    if i == 0 then x % 2 == 1 else Bit(x / 2, i - 1)
  }

  /** Exclusive or of the lowest `bits` bits. */
  function XorBits(x: nat, y: nat, bits: nat): (r: nat)
    ensures r < Pow2(bits)
  {
    if bits == 0 then 0 else (x + y) % 2 + 2 * XorBits(x / 2, y / 2, bits - 1)
  }

  lemma WordSize()
    ensures Pow2(32) == WORD_SIZE
  {
    assert Pow2(8) == 0x100;
    assert Pow2(16) == 0x1_0000;
    assert Pow2(24) == 0x100_0000;
  }

  /** `^` on 32-bit words. */
  function Xor(x: nat, y: nat): (r: nat)
    ensures r < WORD_SIZE
  {
    WordSize();
    XorBits(x, y, 32)
  }

  lemma XorStep(x: nat, y: nat, bits: nat)
    requires bits > 0
    ensures XorBits(x, y, bits) % 2 == (x + y) % 2
    ensures XorBits(x, y, bits) / 2 == XorBits(x / 2, y / 2, bits - 1)
  {
  }

  lemma BitStep(x: nat, i: nat)
    ensures Bit(x, 0) <==> x % 2 == 1
    ensures i > 0 ==> (Bit(x, i) <==> Bit(x / 2, i - 1))
  {
  }

  lemma OddSum(x: nat, y: nat)
    ensures (x + y) % 2 == 1 <==> (x % 2 == 1 <==> y % 2 == 0)
  {
  }

  /** A bit of an exclusive or is set exactly when exactly one of the two bits is. */
  lemma {:induction false} XorBitsAt(x: nat, y: nat, bits: nat, i: nat)
    ensures Bit(XorBits(x, y, bits), i) <==> i < bits && (Bit(x, i) <==> !Bit(y, i))
  {
    if bits == 0 {
      ZeroHasNoBits(i);
    } else {
      XorStep(x, y, bits);
      hide XorBits, Bit;
      BitStep(x, i);
      BitStep(y, i);
      BitStep(XorBits(x, y, bits), i);
      if i > 0 {
        XorBitsAt(x / 2, y / 2, bits - 1, i - 1);
      } else {
        OddSum(x, y);
      }
    }
  }

  lemma XorAt(x: nat, y: nat, i: nat)
    ensures Bit(Xor(x, y), i) <==> i < 32 && (Bit(x, i) <==> !Bit(y, i))
  {
    XorBitsAt(x, y, 32, i);
  }

  lemma {:induction false} ZeroHasNoBits(i: nat)
    ensures !Bit(0, i)
  {
    if i > 0 {
      ZeroHasNoBits(i - 1);
    }
  }

  /** The bits of a number that is put together from a low part of `width` bits and a high part. */
  lemma {:induction false} BitOfParts(low: nat, high: nat, p: nat, width: nat, k: nat)
    requires p == Pow2(width) && low < p
    ensures Bit(low + p * high, k) <==> if k < width then Bit(low, k) else Bit(high, k - width)
  {
    if width == 0 {
      assert low + p * high == high;
    } else {
      var half := Pow2(width - 1);
      HalfOfParts(low, high, half);
      assert p == 2 * half;
      if k > 0 {
        BitOfParts(low / 2, high, half, width - 1, k - 1);
      }
    }
  }

  lemma HalfOfParts(low: nat, high: nat, half: nat)
    ensures (low + 2 * half * high) % 2 == low % 2 && (low + 2 * half * high) / 2 == low / 2 + half * high
  {
    assert 2 * half * high == 2 * (half * high);
  }

  /** Words are their bits. */
  lemma {:induction false} SameBits(x: nat, y: nat, bits: nat)
    requires x < Pow2(bits) && y < Pow2(bits)
    requires forall i :: 0 <= i < bits ==> (Bit(x, i) <==> Bit(y, i))
    ensures x == y
  {
    if bits > 0 {
      forall i | 0 <= i < bits - 1
        ensures Bit(x / 2, i) <==> Bit(y / 2, i)
      {
        assert Bit(x, i + 1) <==> Bit(y, i + 1);
      }
      SameBits(x / 2, y / 2, bits - 1);
      assert Bit(x, 0) <==> Bit(y, 0);
    }
  }

  lemma SameWord(x: nat, y: nat)
    requires x < WORD_SIZE && y < WORD_SIZE && forall i :: 0 <= i < 32 ==> (Bit(x, i) <==> Bit(y, i))
    ensures x == y
  {
    WordSize();
    SameBits(x, y, 32);
  }

  /** The laws of exclusive or: zero is neutral, every word is its own inverse, and the order is irrelevant. */
  lemma XorLaws(x: nat, y: nat, z: nat)
    requires x < WORD_SIZE
    ensures Xor(0, x) == x && Xor(x, 0) == x && Xor(x, x) == 0
    ensures Xor(x, y) == Xor(y, x) && Xor(Xor(x, y), z) == Xor(x, Xor(y, z))
  {
    hide Bit, Xor;
    forall i: nat
      ensures (Bit(Xor(0, x), i) <==> i < 32 && Bit(x, i)) && (Bit(Xor(x, 0), i) <==> i < 32 && Bit(x, i))
      ensures !Bit(Xor(x, x), i) && !Bit(0, i)
      ensures Bit(Xor(x, y), i) <==> Bit(Xor(y, x), i)
      ensures Bit(Xor(Xor(x, y), z), i) <==> Bit(Xor(x, Xor(y, z)), i)
    {
      ZeroHasNoBits(i);
      XorAt(0, x, i);
      XorAt(x, 0, i);
      XorAt(x, x, i);
      XorAt(x, y, i);
      XorAt(y, x, i);
      XorAt(y, z, i);
      XorAt(Xor(x, y), z, i);
      XorAt(x, Xor(y, z), i);
    }
    SameWord(Xor(0, x), x);
    SameWord(Xor(x, 0), x);
    SameWord(Xor(x, x), 0);
    SameWord(Xor(x, y), Xor(y, x));
    SameWord(Xor(Xor(x, y), z), Xor(x, Xor(y, z)));
  }

  /** Exclusive or works hexadecimal digit by hexadecimal digit. */
  lemma XorDigits(u: nat, v: nat, a: nat, b: nat, bits: nat)
    requires bits >= 4 && a < 16 && b < 16
    ensures XorBits(16 * u + a, 16 * v + b, bits) == XorBits(a, b, 4) + 16 * XorBits(u, v, bits - 4)
  {
    FourBits(16 * u + a, 16 * v + b, bits);
    FourBits(a, b, 4);
    NoBitsLeft(a / 16, b / 16);
    hide XorBits, LowBits;
    SameLowBits(u, v, a, b);
    Halves(u, a);
    Halves(v, b);
  }

  /** The sums of the lowest four bits, without their carries. */
  function LowBits(x: nat, y: nat): nat {
    (x + y) % 2 + 2 * ((x / 2 + y / 2) % 2) + 4 * ((x / 4 + y / 4) % 2) + 8 * ((x / 8 + y / 8) % 2)
  }

  lemma SameLowBits(u: nat, v: nat, a: nat, b: nat)
    requires a < 16 && b < 16
    ensures LowBits(16 * u + a, 16 * v + b) == LowBits(a, b)
  {
    Halves(u, a);
    Halves(v, b);
    SameParity(u, v, a, b);
  }

  lemma NoBitsLeft(x: nat, y: nat)
    ensures XorBits(x, y, 0) == 0
  {
  }

  lemma Halves(u: nat, a: nat)
    requires a < 16
    ensures (16 * u + a) / 2 == 8 * u + a / 2 && (16 * u + a) / 4 == 4 * u + a / 4
    ensures (16 * u + a) / 8 == 2 * u + a / 8 && (16 * u + a) / 16 == u
  {
  }

  lemma SameParity(u: nat, v: nat, a: nat, b: nat)
    requires a < 16 && b < 16
    ensures (16 * u + a + 16 * v + b) % 2 == (a + b) % 2
    ensures (8 * u + a / 2 + 8 * v + b / 2) % 2 == (a / 2 + b / 2) % 2
    ensures (4 * u + a / 4 + 4 * v + b / 4) % 2 == (a / 4 + b / 4) % 2
    ensures (2 * u + a / 8 + 2 * v + b / 8) % 2 == (a / 8 + b / 8) % 2
  {
    EvenPart(8 * u + 8 * v, a + b);
    EvenPart(4 * u + 4 * v, a / 2 + b / 2);
    EvenPart(2 * u + 2 * v, a / 4 + b / 4);
    EvenPart(u + v, a / 8 + b / 8);
  }

  lemma EvenPart(k: nat, x: nat)
    ensures (2 * k + x) % 2 == x % 2
  {
  }

  lemma FourBits(x: nat, y: nat, bits: nat)
    requires bits >= 4
    ensures XorBits(x, y, bits) == LowBits(x, y) + 16 * XorBits(x / 16, y / 16, bits - 4)
  {
    hide XorBits;
    TwoBits(x, y, bits);
    TwoBits(x / 4, y / 4, bits - 2);
    Quarters(x);
    Quarters(y);
  }

  lemma Quarters(x: nat)
    ensures x / 4 / 2 == x / 8 && x / 4 / 4 == x / 16
  {
  }

  lemma TwoBits(x: nat, y: nat, bits: nat)
    requires bits >= 2
    ensures XorBits(x, y, bits)
            == (x + y) % 2 + 2 * ((x / 2 + y / 2) % 2) + 4 * XorBits(x / 4, y / 4, bits - 2)
  {
    XorUnfolds(x, y, bits);
    XorUnfolds(x / 2, y / 2, bits - 1);
    hide XorBits;
    assert x / 2 / 2 == x / 4 && y / 2 / 2 == y / 4;
  }

  lemma XorUnfolds(x: nat, y: nat, bits: nat)
    requires bits > 0
    ensures XorBits(x, y, bits) == (x + y) % 2 + 2 * XorBits(x / 2, y / 2, bits - 1)
  {
  }
}

/** Slices of sequences, and sequences without one element. */
module Slices {

  lemma SliceOfSlice<T>(s: seq<T>, from: nat, to: nat, i: nat, j: nat)
    requires from <= to <= |s| && i <= j <= to - from
    ensures s[from..to][i..j] == s[from + i..from + j]
  {
    var inner, outer := s[from..to][i..j], s[from + i..from + j];
    assert |inner| == |outer|;
    assert forall k :: 0 <= k < |inner| ==> inner[k] == outer[k];
  }

  lemma TakeOut<T>(s: seq<T>, at: nat)
    requires at < |s|
    ensures s == s[..at] + [s[at]] + s[at + 1..]
    ensures multiset(s[..at] + s[at + 1..]) == multiset(s) - multiset{s[at]}
  {
    assert s == s[..at] + [s[at]] + s[at + 1..];
  }

  lemma DropFirst<T>(s: seq<T>)
    requires s != []
    ensures s == [s[0]] + s[1..] && multiset(s[1..]) == multiset(s) - multiset{s[0]}
  {
    assert s == [s[0]] + s[1..];
  }
}
