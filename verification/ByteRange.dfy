/** The HTTP byte-range parser (section 14.1.2 of RFC 9110), from crates/service/src/control_plane.rs. */
module ByteRange {
  import opened Common
  import opened Numerals

  /** The request cannot be satisfied for a resource of this length. */
  datatype RangeError = RangeNotSatisfiable(total: nat)

  type Interval = (nat, nat)

  predicate Visible(c: char) {
    ' ' <= c <= '~' || c == '\t'
  }

  /** The offset of the first `c`, if any. */
  function Find(s: string, c: char): (r: Option<nat>)
    ensures r.Some? ==> r.value < |s| && s[r.value] == c && c !in s[..r.value]
    ensures r.None? ==> c !in s
  {
    if s == [] then None
    else if s[0] == c then Some(0)
    else
      match Find(s[1..], c)
      case None => None
      case Some(i) =>
        assert s[..i + 1] == [s[0]] + s[1..][..i];
        Some(i + 1)
  }

  /** `parse_range_number`. */
  function ParseRangeNumber(s: string): Option<nat> {
    if s == [] || |s| > 20 || !AllDigits(s) || Number(s) > U64_MAX then None else Some(Number(s))
  }

  const PREFIX: string := "bytes="

  /** `parse_single_range`. */
  function ParseSingleRange(header: Option<string>, total: nat): Result<Option<Interval>, RangeError> {
    if header.None? then Ok(None)
    else
      var text := header.value;
      if !(forall i :: 0 <= i < |text| ==> Visible(text[i])) || |text| > 128 || !(PREFIX <= text)
      then Err(RangeNotSatisfiable(total))
      else
        var value := text[|PREFIX|..];
        if ',' in value || Find(value, '-').None? then Err(RangeNotSatisfiable(total))
        else
          var at := Find(value, '-').value;
          var start, end := value[..at], value[at + 1..];
          if start == [] then ParseSuffix(end, total) else ParseFrom(start, end, total)
  }

  function ParseSuffix(text: string, total: nat): Result<Option<Interval>, RangeError> {
    match ParseRangeNumber(text)
    case None => Err(RangeNotSatisfiable(total))
    case Some(suffix) =>
      if suffix == 0 || total == 0 then Err(RangeNotSatisfiable(total))
      else Ok(Some((total - Min(suffix, total), total - 1)))
  }

  function ParseFrom(first: string, second: string, total: nat): Result<Option<Interval>, RangeError> {
    match ParseRangeNumber(first)
    case None => Err(RangeNotSatisfiable(total))
    case Some(start) =>
      if start >= total then Err(RangeNotSatisfiable(total))
      else if second != [] && ParseRangeNumber(second).None? then Err(RangeNotSatisfiable(total))
      else
        var end := if second == [] then total - 1 else Min(ParseRangeNumber(second).value, total - 1);
        if end < start then Err(RangeNotSatisfiable(total)) else Ok(Some((start, end)))
  }

  // ----- what a range means -----

  /** A single byte range: first to last byte, from a byte on, or the last bytes. */
  datatype Spec = FromTo(first: nat, last: nat) | From(first: nat) | Suffix(length: nat)

  predicate Numeral(text: string, n: nat) {
    1 <= |text| <= 20 && AllDigits(text) && Number(text) == n && n <= U64_MAX
  }

  /** `text` spells `spec`, leading zeros allowed. */
  ghost predicate Spells(text: string, spec: Spec) {
    match spec
    case FromTo(a, b) => exists l, r :: Numeral(l, a) && Numeral(r, b) && text == PREFIX + l + "-" + r
    case From(a) => exists l :: Numeral(l, a) && text == PREFIX + l + "-"
    case Suffix(n) => exists r :: Numeral(r, n) && text == PREFIX + "-" + r
  }

  /** The range asks for byte `k` of a resource of `total` bytes. */
  predicate Asks(spec: Spec, total: nat, k: int) {
    match spec
    case FromTo(a, b) => a <= b && a <= k <= b
    case From(a) => a <= k
    case Suffix(n) => total - n <= k
  }

  /** `i` is exactly the bytes that `spec` asks for and a resource of this length has. */
  ghost predicate Selects(spec: Spec, total: nat, i: Interval) {
    && i.0 <= i.1 < total
    && forall k :: 0 <= k < total ==> (i.0 <= k <= i.1 <==> Asks(spec, total, k))
  }

  lemma {:induction false} FindIs(l: string, c: char, r: string)
    requires c !in l
    ensures Find(l + [c] + r, c) == Some(|l|)
  {
    if l != [] {
      FindIs(l[1..], c, r);
      assert (l + [c] + r)[1..] == l[1..] + [c] + r;
    }
  }

  /** A header made of two runs of digits is split at its only dash. */
  lemma SplitsAtDash(l: string, r: string, total: nat)
    requires AllDigits(l) && AllDigits(r) && |l| <= 20 && |r| <= 20
    ensures ParseSingleRange(Some(PREFIX + l + "-" + r), total)
         == if l == [] then ParseSuffix(r, total) else ParseFrom(l, r, total)
  {
    hide ParseSuffix, ParseFrom;
    var text := PREFIX + l + "-" + r;
    var value := l + "-" + r;
    assert text[|PREFIX|..] == value;
    assert value[|l|] == '-' && '-' in value && ',' !in value;
    FindIs(l, '-', r);
    assert value[..|l|] == l && value[|l| + 1..] == r;
  }

  /** Every accepted header is two runs of digits around one dash, at most one of them empty. */
  lemma AcceptedSplits(text: string, total: nat) returns (l: string, r: string)
    requires ParseSingleRange(Some(text), total).Ok?
    ensures text == PREFIX + l + "-" + r
    ensures ParseSingleRange(Some(text), total) == if l == [] then ParseSuffix(r, total) else ParseFrom(l, r, total)
  {
    hide ParseSuffix, ParseFrom;
    var value := text[|PREFIX|..];
    var at := Find(value, '-').value;
    l, r := value[..at], value[at + 1..];
    assert text == PREFIX + value && value == l + "-" + r;
  }

  lemma SuffixSelects(r: string, total: nat, i: Interval)
    requires ParseSuffix(r, total) == Ok(Some(i))
    ensures Numeral(r, Number(r)) && Selects(Suffix(Number(r)), total, i)
  {
  }

  lemma FromSelects(l: string, r: string, total: nat, i: Interval)
    requires ParseFrom(l, r, total) == Ok(Some(i))
    ensures Numeral(l, Number(l))
    ensures r == [] ==> Selects(From(Number(l)), total, i)
    ensures r != [] ==> Numeral(r, Number(r)) && Selects(FromTo(Number(l), Number(r)), total, i)
  {
  }

  /** An accepted header spells a range, and the answer is exactly the bytes that range selects. */
  lemma AcceptedMeans(text: string, total: nat, i: Interval)
    requires ParseSingleRange(Some(text), total) == Ok(Some(i))
    ensures i.0 <= i.1 < total
    ensures exists spec :: Spells(text, spec) && Selects(spec, total, i)
  {
    var l, r := AcceptedSplits(text, total);
    hide ParseSingleRange, Number;
    if l == [] {
      SuffixSelects(r, total, i);
      assert text == PREFIX + "-" + r;
      assert Spells(text, Suffix(Number(r)));
    } else {
      FromSelects(l, r, total, i);
      if r == [] {
        assert text == PREFIX + l + "-";
        assert Spells(text, From(Number(l)));
      } else {
        assert Spells(text, FromTo(Number(l), Number(r)));
      }
    }
  }

  /** A header that spells a range with at least one byte to select is accepted with those bytes. */
  lemma MeantIsAccepted(text: string, spec: Spec, total: nat, i: Interval)
    requires Spells(text, spec) && Selects(spec, total, i)
    ensures ParseSingleRange(Some(text), total) == Ok(Some(i))
  {
    hide ParseSingleRange, Number;
    match spec
    case FromTo(a, b) =>
      var l, r :| Numeral(l, a) && Numeral(r, b) && text == PREFIX + l + "-" + r;
      SplitsAtDash(l, r, total);
      Ends(spec, total, i);
    case From(a) =>
      var l :| Numeral(l, a) && text == PREFIX + l + "-";
      assert text == PREFIX + l + "-" + [];
      SplitsAtDash(l, [], total);
      Ends(spec, total, i);
    case Suffix(n) =>
      var r :| Numeral(r, n) && text == PREFIX + "-" + r;
      assert text == PREFIX + [] + "-" + r;
      SplitsAtDash([], r, total);
      Ends(spec, total, i);
  }

  /** The selected bytes have one first and one last. */
  lemma Ends(spec: Spec, total: nat, i: Interval)
    requires Selects(spec, total, i)
    ensures match spec
            case FromTo(a, b) => a <= b && a < total && i == (a, Min(b, total - 1))
            case From(a) => a < total && i == (a, total - 1)
            case Suffix(n) => n > 0 && i == (total - Min(n, total), total - 1)
  {
    var last := total - 1;
    assert Asks(spec, total, i.0) && Asks(spec, total, i.1);
    match spec
    case FromTo(a, b) =>
      assert Asks(spec, total, a);
      assert Asks(spec, total, Min(b, last));
    case From(a) =>
      assert Asks(spec, total, last);
      assert Asks(spec, total, a);
    case Suffix(n) =>
      assert Asks(spec, total, last);
      assert Asks(spec, total, total - Min(n, total));
  }

  /**
   * The parser answers with an interval exactly when the header spells a range, in decimal numbers of at
   * most 20 digits below 2^64, that selects at least one byte; the interval is the selected bytes.
   */
  lemma ParseIsMeaning(text: string, total: nat, i: Interval)
    ensures ParseSingleRange(Some(text), total) == Ok(Some(i)) <==>
              exists spec :: Spells(text, spec) && Selects(spec, total, i)
  {
    hide ParseSingleRange, Spells, Selects;
    if ParseSingleRange(Some(text), total) == Ok(Some(i)) {
      AcceptedMeans(text, total, i);
    }
    if spec :| Spells(text, spec) && Selects(spec, total, i) {
      MeantIsAccepted(text, spec, total, i);
    }
  }

  function Printed(start: nat, end: nat): string {
    PREFIX + Decimal(start) + "-" + Decimal(end)
  }

  lemma U64HasTwentyDigits(n: nat)
    requires n <= U64_MAX
    ensures Numeral(Decimal(n), n)
  {
    assert Pow10(5) == 100000;
    assert Pow10(10) == 100000 * 100000;
    assert Pow10(15) == 100000 * 100000 * 100000;
    assert Pow10(20) == 100000 * 100000 * 100000 * 100000;
    DecimalLength(n, 20);
    NumberOfDecimal(n);
  }

  /** Parsing undoes printing. */
  lemma PrintedRangeParses(start: nat, end: nat, total: nat)
    requires start <= end < total <= U64_MAX
    ensures ParseSingleRange(Some(Printed(start, end)), total) == Ok(Some((start, end)))
  {
    hide ParseSingleRange, Number, Decimal, Pow10;
    U64HasTwentyDigits(start);
    U64HasTwentyDigits(end);
    MeantIsAccepted(Printed(start, end), FromTo(start, end), total, (start, end));
  }
}
