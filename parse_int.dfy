/**
 * Decimal parsing into a signed 64-bit integer, as Rust's `str::parse::<i64>`
 * does it: an optional sign, then digits read left to right, stopping at the
 * first invalid digit or overflow.
 */
module ParseInt {
  import opened Wrappers

  const I64Max: int := 0x7fff_ffff_ffff_ffff
  const I64Min: int := -0x8000_0000_0000_0000

  datatype IntErrorKind = Empty | InvalidDigit | PosOverflow | NegOverflow

  /** The display text of a `ParseIntError` of each kind. */
  function Describe(kind: IntErrorKind): (text: string)
    ensures |text| > 0
  {
    match kind
    case Empty => "cannot parse integer from empty string"
    case InvalidDigit => "invalid digit found in string"
    case PosOverflow => "number too large to fit in target type"
    case NegOverflow => "number too small to fit in target type"
  }

  /** Each kind of error has its own text, so a message names the kind that caused it. */
  lemma DescribeInjective(a: IntErrorKind, b: IntErrorKind)
    requires Describe(a) == Describe(b)
    ensures a == b
  {
    assert Describe(a)[0] == Describe(b)[0];
    assert Describe(a)[11] == Describe(b)[11];
  }

  predicate IsDigit(c: char) {
    '0' <= c <= '9'
  }

  function DigitValue(c: char): (d: int)
    requires IsDigit(c)
    ensures 0 <= d <= 9
  {
    c as int - '0' as int
  }

  /**
   * Accumulates the digits of a non-negative number: each step multiplies by 10
   * and adds the next digit, failing on the first non-digit or when the value
   * would exceed I64Max.
   */
  function AccumulatePositive(digits: string): (r: Result<int, IntErrorKind>)
    ensures r.Ok? ==> 0 <= r.value <= I64Max
    ensures r.Err? ==> r.error == InvalidDigit || r.error == PosOverflow
  {
    if digits == [] then Ok(0)
    else
      var last := digits[|digits| - 1];
      match AccumulatePositive(digits[..|digits| - 1])
      case Err(kind) => Err(kind)
      case Ok(acc) =>
        if !IsDigit(last) then Err(InvalidDigit)
        else if acc * 10 + DigitValue(last) > I64Max then Err(PosOverflow)
        else Ok(acc * 10 + DigitValue(last))
  }

  /** As AccumulatePositive, subtracting each digit and failing below I64Min. */
  function AccumulateNegative(digits: string): (r: Result<int, IntErrorKind>)
    ensures r.Ok? ==> I64Min <= r.value <= 0
    ensures r.Err? ==> r.error == InvalidDigit || r.error == NegOverflow
  {
    if digits == [] then Ok(0)
    else
      var last := digits[|digits| - 1];
      match AccumulateNegative(digits[..|digits| - 1])
      case Err(kind) => Err(kind)
      case Ok(acc) =>
        if !IsDigit(last) then Err(InvalidDigit)
        else if acc * 10 - DigitValue(last) < I64Min then Err(NegOverflow)
        else Ok(acc * 10 - DigitValue(last))
  }

  /** `s.parse::<i64>()`. */
  function ParseI64(s: string): (r: Result<int, IntErrorKind>)
    ensures r.Ok? ==> I64Min <= r.value <= I64Max
    ensures r == Err(Empty) <==> s == []
  {
    if s == [] then Err(Empty)
    else if (s[0] == '+' || s[0] == '-') && |s| == 1 then Err(InvalidDigit)
    else if s[0] == '+' then AccumulatePositive(s[1..])
    else if s[0] == '-' then AccumulateNegative(s[1..])
    else AccumulatePositive(s)
  }

  /** The shortest decimal text of a natural number. */
  function Decimal(n: nat): (s: string)
    ensures s != []
    ensures forall i :: 0 <= i < |s| ==> IsDigit(s[i])
  {
    var digit := ['0' + (n % 10) as char];
    if n < 10 then digit else Decimal(n / 10) + digit
  }

  lemma {:induction false} AccumulateDecimal(n: nat)
    requires n <= I64Max
    ensures AccumulatePositive(Decimal(n)) == Ok(n)
    ensures AccumulateNegative(Decimal(n)) == Ok(-(n as int))
  {
    var s := Decimal(n);
    var last := '0' + (n % 10) as char;
    if n < 10 {
      assert s[..0] == [];
    } else {
      AccumulateDecimal(n / 10);
      assert s[..|s| - 1] == Decimal(n / 10);
      assert s[|s| - 1] == last;
    }
  }

  /** Every number in range survives printing and parsing. */
  lemma ParseDecimal(n: nat)
    requires n <= I64Max
    ensures ParseI64(Decimal(n)) == Ok(n)
  {
    AccumulateDecimal(n);
    assert IsDigit(Decimal(n)[0]);
  }

  /** A minus sign in front of a number in range parses to its negation. */
  lemma ParseNegativeDecimal(n: nat)
    requires 0 < n <= I64Max
    ensures ParseI64("-" + Decimal(n)) == Ok(-(n as int))
  {
    AccumulateDecimal(n);
    assert ("-" + Decimal(n))[1..] == Decimal(n);
  }

  /** A text with a non-digit after the optional sign never parses. */
  lemma {:induction false} NonDigitRejected(digits: string, i: nat)
    requires i < |digits| && !IsDigit(digits[i])
    ensures AccumulatePositive(digits).Err?
    ensures AccumulateNegative(digits).Err?
  {
    if i < |digits| - 1 {
      NonDigitRejected(digits[..|digits| - 1], i);
    }
  }
}
