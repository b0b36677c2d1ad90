// The string parser: `[sign] digits [. digits] [e [sign] digits]` read
// from a byte string into a decimal, rounding half-up beyond 38
// significant digits and bounding the exponent of the leading digit.

module Parse {
  import opened Std
  import opened Wide
  import opened Decimals
  import opened Errors
  import opened Format
  import opened Arith

  /** The ASCII bytes the parser looks for, besides digits, '.' and '-'. */
  const PLUS: u8 := 43
  const LOWER_E: u8 := 101
  const UPPER_E: u8 := 69

  /**
   * The longest input modelled. The source keeps lengths and exponents in
   * 16-bit integers; below this bound none of them wraps.
   */
  const MAX_INPUT: nat := 30000

  datatype Sign = Positive | Negative

  /** The interesting parts of a decimal string: sign, digits before and after the point, exponent. */
  datatype Parts = Parts(sign: Sign, integral: seq<u8>, fractional: seq<u8>, exp: int)

  // ---------------------------------------------------------------------
  // Values of digit runs
  // ---------------------------------------------------------------------

  lemma DigitsValueSingle(c: u8)
    ensures DigitsValue([c]) == c as int - ZERO_CHAR as int
  {
    assert [c][..0] == [];
  }

  /** A run of k digits is worth less than 10^k. */
  lemma {:induction false} DigitsValueBelow(s: seq<u8>)
    requires AllDigits(s)
    ensures 0 <= DigitsValue(s) < Pow10(|s|)
    decreases |s|
  {
    if s != [] {
      DigitsValueBelow(s[..|s| - 1]);
    }
  }

  /** The first digit of a run is worth 10^(length - 1) per unit. */
  lemma DigitsValueFirst(s: seq<u8>)
    requires s != []
    ensures DigitsValue(s) == (s[0] as int - ZERO_CHAR as int) * Pow10(|s| - 1) + DigitsValue(s[1..])
  {
    var c, rest := s[0], s[1..];
    calc {
      DigitsValue(s);
      { assert [c] + rest == s; }
      DigitsValue([c] + rest);
      { DigitsValueAppend([c], rest); }
      DigitsValue([c]) * Pow10(|rest|) + DigitsValue(rest);
      { DigitsValueSingle(c); }
      (s[0] as int - ZERO_CHAR as int) * Pow10(|s| - 1) + DigitsValue(s[1..]);
    }
  }

  /** A run starting with a non-zero digit is worth at least 10^(length - 1). */
  lemma DigitsValueAtLeast(s: seq<u8>)
    requires AllDigits(s) && s != [] && s[0] != ZERO_CHAR
    ensures DigitsValue(s) >= Pow10(|s| - 1)
  {
    DigitsValueFirst(s);
    DigitsValueNonNegative(s[1..]);
  }

  /** A leading zero is worth nothing. */
  lemma DropLeadingZero(s: seq<u8>)
    requires s != [] && s[0] == ZERO_CHAR
    ensures DigitsValue(s[1..]) == DigitsValue(s)
  {
    DigitsValueFirst(s);
  }

  // ---------------------------------------------------------------------
  // Scanning
  // ---------------------------------------------------------------------

  /** `extract_sign`: a leading '+' or '-' is taken off and decides the sign. */
  function ExtractSign(s: seq<u8>): (r: (Sign, seq<u8>))
    ensures |s| - 1 <= |r.1| <= |s| && r.1 == s[|s| - |r.1|..]
    ensures r.1 == s <==> s == [] || (s[0] != PLUS && s[0] != MINUS)
    ensures r.0 == Negative <==> s != [] && s[0] == MINUS
  {
    if s != [] && s[0] == PLUS then (Positive, s[1..])
    else if s != [] && s[0] == MINUS then (Negative, s[1..])
    else (Positive, s)
  }

  /** How many digits `s` starts with. */
  function LeadingDigits(s: seq<u8>): (i: nat)
    ensures i <= |s|
    ensures forall j :: 0 <= j < i ==> IsDigit(s[j])
    ensures i < |s| ==> !IsDigit(s[i])
  {
    if s == [] || !IsDigit(s[0]) then 0 else 1 + LeadingDigits(s[1..])
  }

  /** `eat_digits`: splits off the longest run of digits at the front. */
  function EatDigits(s: seq<u8>): (r: (seq<u8>, seq<u8>))
    ensures r.0 + r.1 == s
    ensures AllDigits(r.0)
    ensures r.1 == [] || !IsDigit(r.1[0])
  {
    var i := LeadingDigits(s);
    assert s[..i] + s[i..] == s;
    (s[..i], s[i..])
  }

  predicate IsExponentMark(c: u8)
  {
    c == LOWER_E || c == UPPER_E
  }

  // ---------------------------------------------------------------------
  // The exponent
  // ---------------------------------------------------------------------

  /**
   * The exponent a text starts with: an optional sign and at least one
   * digit, whose magnitude must stay below 1000; above it the number
   * overflows (positive exponent) or underflows (negative exponent).
   */
  function Exponent(s: seq<u8>): (r: Result<(int, seq<u8>), ParseError>)
    ensures r.Ok? ==> -999 <= r.value.0 <= 999 && |r.value.1| <= |s|
    ensures r.Err? ==> r.error != Empty
  {
    var (sign, t) := ExtractSign(s);
    var (number, rest) := EatDigits(t);
    if number == [] then Err(Invalid)
    else
      var v := DigitsValue(number);
      if v >= 1000 then Err(if sign == Positive then Overflow else Underflow)
      else
        DigitsValueNonNegative(number);
        Ok((if sign == Positive then v else -v, rest))
  }

  /** Three digits or fewer are worth less than 1000, more without a leading zero at least 1000. */
  lemma ExponentDigits(digits: seq<u8>)
    requires AllDigits(digits) && (digits == [] || digits[0] != ZERO_CHAR)
    ensures |digits| > 3 <==> DigitsValue(digits) >= 1000
  {
    DigitsValueBelow(digits);
    assert Pow10(3) == 1000;
    if |digits| > 3 {
      DigitsValueAtLeast(digits);
      Pow10Monotone(3, |digits| - 1);
    } else {
      Pow10Monotone(|digits|, 3);
    }
  }

  /**
   * `extract_exponent`: strips the exponent's leading zeros, rejects more
   * than three significant digits and accumulates the rest.
   */
  method ExtractExponent(s: seq<u8>) returns (r: Result<(int, seq<u8>), ParseError>)
    ensures r == Exponent(s)
  {
    var (sign, t) := ExtractSign(s);
    var (number, rest) := EatDigits(t);
    if number == [] {
      return Err(Invalid);
    }
    var digits: seq<u8> := number;
    while digits != [] && digits[0] == ZERO_CHAR
      invariant AllDigits(digits)
      invariant DigitsValue(digits) == DigitsValue(number)
    {
      DropLeadingZero(digits);
      digits := digits[1..];
    }
    ExponentDigits(digits);
    if |digits| > 3 {
      return Err(if sign == Positive then Overflow else Underflow);
    }
    var result := 0;
    for i := 0 to |digits|
      invariant result == DigitsValue(digits[..i])
    {
      assert digits[..i + 1][..i] == digits[..i];
      result := result * 10 + (digits[i] - ZERO_CHAR);
    }
    assert digits[..|digits|] == digits;
    return Ok((if sign == Positive then result else -result, rest));
  }

  // ---------------------------------------------------------------------
  // Splitting the number into its parts
  // ---------------------------------------------------------------------

  /** The digits with their leading zeros removed, one zero kept when nothing else is left. */
  function TrimLeadingZeros(s: seq<u8>): (r: seq<u8>)
    ensures |r| <= |s| && r == s[|s| - |r|..]
    ensures s != [] ==> r != []
    ensures |r| > 1 ==> r[0] != ZERO_CHAR
    ensures forall i :: 0 <= i < |s| - |r| ==> s[i] == ZERO_CHAR
    ensures AllDigits(s) ==> AllDigits(r)
  {
    if |s| > 1 && s[0] == ZERO_CHAR then TrimLeadingZeros(s[1..]) else s
  }

  /** The digits with their trailing zeros removed. */
  function TrimTrailingZeros(s: seq<u8>): (r: seq<u8>)
    ensures |r| <= |s| && r == s[..|r|]
    ensures r == [] || r[|r| - 1] != ZERO_CHAR
    ensures forall i :: |r| <= i < |s| ==> s[i] == ZERO_CHAR
    ensures AllDigits(s) ==> AllDigits(r)
  {
    if s != [] && s[|s| - 1] == ZERO_CHAR then TrimTrailingZeros(s[..|s| - 1]) else s
  }

  /** Leading zeros before digits that do not start with 0 are all trimmed. */
  lemma {:induction false} TrimLeadingZerosOf(z: nat, r: seq<u8>)
    requires r != [] && r[0] != ZERO_CHAR
    ensures TrimLeadingZeros(Zeros(z) + r) == r
    decreases z
  {
    if z > 0 {
      var s := Zeros(z) + r;
      assert s[0] == ZERO_CHAR && s[1..] == Zeros(z - 1) + r;
      TrimLeadingZerosOf(z - 1, r);
    }
  }

  /** Trailing zeros after digits that do not end in 0 are all trimmed. */
  lemma {:induction false} TrimTrailingZerosOf(r: seq<u8>, z: nat)
    requires r == [] || r[|r| - 1] != ZERO_CHAR
    ensures TrimTrailingZeros(r + Zeros(z)) == r
    decreases z
  {
    var s := r + Zeros(z);
    if z > 0 {
      assert s[|s| - 1] == ZERO_CHAR && s[..|s| - 1] == r + Zeros(z - 1);
      TrimTrailingZerosOf(r, z - 1);
    } else {
      assert s == r;
    }
  }

  /**
   * Parts the source reads from text: digits, no sign inside, no leading
   * zero before a longer integral part, an exponent below 1000 in
   * magnitude, and no more digits than the longest input holds.
   */
  predicate WellFormed(p: Parts)
  {
    AllDigits(p.integral) && AllDigits(p.fractional) &&
    (|p.integral| > 1 ==> p.integral[0] != ZERO_CHAR) &&
    -999 <= p.exp <= 999 &&
    |p.integral| + |p.fractional| <= MAX_INPUT
  }

  /** Parts closed by an exponent read from `s`. */
  function WithExponent(sign: Sign, whole: seq<u8>, fractional: seq<u8>, s: seq<u8>): (r: Result<(Parts, seq<u8>), ParseError>)
    ensures r.Ok? ==> r.value.0 == Parts(sign, whole, fractional, r.value.0.exp)
    ensures r.Ok? ==> -999 <= r.value.0.exp <= 999 && |r.value.1| <= |s|
    ensures r.Err? ==> r.error != Empty
  {
    match Exponent(s)
    case Err(e) => Err(e)
    case Ok((exp, rest)) => Ok((Parts(sign, whole, fractional, exp), rest))
  }

  /** The end of a number with a fraction: an optional exponent. */
  function Closing(sign: Sign, whole: seq<u8>, fractional: seq<u8>, v: seq<u8>): Result<(Parts, seq<u8>), ParseError>
  {
    if v != [] && IsExponentMark(v[0]) then WithExponent(sign, whole, fractional, v[1..])
    else Ok((Parts(sign, whole, fractional, 0), v))
  }

  /**
   * What follows the point: the fractional digits, stripped of their
   * trailing zeros, and an optional exponent. A point needs a digit on at
   * least one side.
   */
  function AfterPoint(sign: Sign, integral: seq<u8>, s: seq<u8>): Result<(Parts, seq<u8>), ParseError>
  {
    var (digits, v) := EatDigits(s);
    if integral == [] && digits == [] then Err(Invalid)
    else Closing(sign, TrimLeadingZeros(integral), TrimTrailingZeros(digits), v)
  }

  /**
   * The number after its sign: the integral digits, stripped of their
   * leading zeros, then an exponent or a point; an exponent needs
   * integral digits before it.
   */
  function Unsigned(sign: Sign, t: seq<u8>): Result<(Parts, seq<u8>), ParseError>
  {
    var (integral, u) := EatDigits(t);
    if u != [] && IsExponentMark(u[0]) then
      if integral == [] then Err(Invalid)
      else WithExponent(sign, TrimLeadingZeros(integral), [], u[1..])
    else if u != [] && u[0] == POINT then AfterPoint(sign, integral, u[1..])
    else if integral == [] then Err(Invalid)
    else Ok((Parts(sign, TrimLeadingZeros(integral), [], 0), u))
  }

  /** The parts of the number a text starts with, and the text after it. */
  function Decomposed(s: seq<u8>): Result<(Parts, seq<u8>), ParseError>
  {
    var (sign, t) := ExtractSign(s);
    if t == [] then Err(Invalid) else Unsigned(sign, t)
  }

  /**
   * `parse_decimal`: takes off the sign, the integral digits (stripping
   * their leading zeros), then either an exponent or a point with
   * fractional digits (stripping their trailing zeros) and an optional
   * exponent.
   */
  method ParseDecimal(s: seq<u8>) returns (r: Result<(Parts, seq<u8>), ParseError>)
    ensures r == Decomposed(s)
  {
    var (sign, t) := ExtractSign(s);
    if t == [] {
      return Err(Invalid);
    }
    var (integral, u) := EatDigits(t);
    var whole := integral;
    while |whole| > 1 && whole[0] == ZERO_CHAR
      invariant TrimLeadingZeros(whole) == TrimLeadingZeros(integral)
    {
      whole := whole[1..];
    }
    assert whole == TrimLeadingZeros(integral);
    if u != [] && IsExponentMark(u[0]) {
      if integral == [] {
        return Err(Invalid);
      }
      var e := ExtractExponent(u[1..]);
      if e.Err? {
        return Err(e.error);
      }
      return Ok((Parts(sign, whole, [], e.value.0), e.value.1));
    } else if u != [] && u[0] == POINT {
      var (digits, v) := EatDigits(u[1..]);
      if integral == [] && digits == [] {
        return Err(Invalid);
      }
      var fractional := digits;
      while fractional != [] && fractional[|fractional| - 1] == ZERO_CHAR
        invariant TrimTrailingZeros(fractional) == TrimTrailingZeros(digits)
      {
        fractional := fractional[..|fractional| - 1];
      }
      assert Decomposed(s) == Closing(sign, whole, fractional, v);
      if v != [] && IsExponentMark(v[0]) {
        var e := ExtractExponent(v[1..]);
        if e.Err? {
          return Err(e.error);
        }
        return Ok((Parts(sign, whole, fractional, e.value.0), e.value.1));
      }
      return Ok((Parts(sign, whole, fractional, 0), v));
    }
    if integral == [] {
      return Err(Invalid);
    }
    return Ok((Parts(sign, whole, [], 0), u));
  }

  /**
   * The parts read are digits in the shape `WellFormed` asks for and,
   * with the unread rest, take no more than `n` bytes.
   */
  predicate ShapedWithin(r: Result<(Parts, seq<u8>), ParseError>, n: int)
  {
    r.Ok? ==>
      var (p, rest) := r.value;
      AllDigits(p.integral) && AllDigits(p.fractional) &&
      (|p.integral| > 1 ==> p.integral[0] != ZERO_CHAR) &&
      -999 <= p.exp <= 999 &&
      |p.integral| + |p.fractional| + |rest| <= n
  }

  lemma AfterPointShaped(sign: Sign, integral: seq<u8>, s: seq<u8>)
    requires AllDigits(integral)
    ensures ShapedWithin(AfterPoint(sign, integral, s), |integral| + |s|)
  {
    var (digits, v) := EatDigits(s);
    assert |digits| + |v| == |s|;
  }

  lemma UnsignedShaped(sign: Sign, t: seq<u8>)
    ensures ShapedWithin(Unsigned(sign, t), |t|)
  {
    var (integral, u) := EatDigits(t);
    assert |integral| + |u| == |t|;
    if u != [] && u[0] == POINT {
      AfterPointShaped(sign, integral, u[1..]);
    }
  }

  /** The parts read from a text are well formed and no longer than it. */
  lemma DecomposedWellFormed(s: seq<u8>)
    requires Decomposed(s).Ok?
    ensures |Decomposed(s).value.0.integral| + |Decomposed(s).value.0.fractional| + |Decomposed(s).value.1| <= |s|
    ensures |s| <= MAX_INPUT ==> WellFormed(Decomposed(s).value.0)
  {
    UnsignedShaped(ExtractSign(s).0, ExtractSign(s).1);
  }

  // ---------------------------------------------------------------------
  // Rounding the mantissa to 38 significant digits
  // ---------------------------------------------------------------------

  /** How many '0' bytes start `s`. */
  function LeadingZeros(s: seq<u8>): (r: nat)
    ensures r <= |s|
    ensures forall i :: 0 <= i < r ==> s[i] == ZERO_CHAR
    ensures r < |s| ==> s[r] != ZERO_CHAR
  {
    if s != [] && s[0] == ZERO_CHAR then 1 + LeadingZeros(s[1..]) else 0
  }

  /** The digits of the mantissa, integral part first. */
  function Mantissa(p: Parts): (m: seq<u8>)
    ensures AllDigits(p.integral) && AllDigits(p.fractional) ==> AllDigits(m)
  {
    p.integral + p.fractional
  }

  /** The number the mantissa's digits denote. */
  function MantissaValue(p: Parts): nat
    requires WellFormed(p)
  {
    DigitsValueNonNegative(Mantissa(p));
    DigitsValue(Mantissa(p))
  }

  /** How many digits the mantissa has from its first non-zero one on. */
  function Significant(p: Parts): nat
  {
    |Mantissa(p)| - LeadingZeros(Mantissa(p))
  }

  /** How many trailing digits of the mantissa lie beyond the 38 significant ones kept. */
  function Dropped(p: Parts): nat
  {
    if Significant(p) > MAX_PRECISION then Significant(p) - MAX_PRECISION else 0
  }

  /** Digits after n zeros are worth what the digits after the zeros are worth, less than 10^(length - n). */
  lemma ZerosPrefixValue(s: seq<u8>, n: nat)
    requires AllDigits(s) && n <= |s|
    requires forall i :: 0 <= i < n ==> s[i] == ZERO_CHAR
    ensures 0 <= DigitsValue(s) == DigitsValue(s[n..]) < Pow10(|s| - n)
  {
    assert s == Zeros(n) + s[n..];
    PrependZeros(n, s[n..]);
    DigitsValueBelow(s[n..]);
  }

  /** Half-up division of a number below m * d gives at most m. */
  lemma DivRoundHalfUpAtMost(n: nat, d: nat, m: nat)
    requires d > 0 && n < m * d
    ensures DivRoundHalfUp(n, d) <= m
  {
    var a := n / d;
    assert a * d + n % d == n;
    if a >= m {
      MulLe(m, a, d);
      assert false;
    }
  }

  /** The mantissa rounded to 38 significant digits is at most 10^38. */
  lemma RoundedFits(p: Parts)
    requires WellFormed(p)
    ensures DivRoundHalfUp(MantissaValue(p), Pow10(Dropped(p))) <= MAX_I128_REPR + 1
  {
    var m := Mantissa(p);
    ZerosPrefixValue(m, LeadingZeros(m));
    MaxReprIsPow10();
    var k := Dropped(p);
    var n: nat := DigitsValue(m);
    var top := Pow10(MAX_PRECISION);
    assert n < top * Pow10(k) by {
      if Significant(p) > MAX_PRECISION {
        Pow10Add(MAX_PRECISION, k);
      } else {
        Pow10Monotone(Significant(p), MAX_PRECISION);
      }
    }
    DivRoundHalfUpAtMost(n, Pow10(k), top);
  }

  /**
   * The corrected `parse_str` on the parts of a number: the mantissa
   * rounded half-up to 38 significant digits, a carry to 10^38 divided back
   * into 38 digits, the exponent of the leading digit checked against the
   * bounds, and the scale counting the kept digits after the point.
   */
  function Assemble(p: Parts): Result<Decimal, ParseError>
    requires WellFormed(p)
  {
    var k := Dropped(p);
    RoundedFits(p);
    var q := DivRoundHalfUp(MantissaValue(p), Pow10(k));
    var carry := if q > MAX_I128_REPR then 1 else 0;
    var normalized := p.exp - |p.fractional| + Significant(p) + carry;
    if normalized <= -MAX_SCALE then Err(Underflow)
    else if normalized > -MIN_SCALE then Err(Overflow)
    else
      var intVal := if carry == 1 then q / 10 else q;
      Ok(FromPartsUnchecked(intVal, |p.fractional| - p.exp - k - carry, p.sign == Negative))
  }

  /** The number a text starts with, and the text after it. */
  function Parsed(s: seq<u8>): Result<(Decimal, seq<u8>), ParseError>
    requires |s| <= MAX_INPUT
  {
    match Decomposed(s)
    case Err(e) => Err(e)
    case Ok((p, rest)) =>
      DecomposedWellFormed(s);
      match Assemble(p)
      case Err(e) => Err(e)
      case Ok(d) => Ok((d, rest))
  }

  // ---------------------------------------------------------------------
  // The source's branches
  // ---------------------------------------------------------------------

  /** A dropped digit rounds the kept ones up when it is above '4'. */
  predicate RoundsUp(c: u8)
  {
    c > ZERO_CHAR + 4
  }

  /**
   * The locals of `parse_str` after its branch on the integral part: the
   * integral and fractional digits kept, whether the first dropped digit
   * rounds up, the exponent of the leading digit, and the scale before the
   * kept fractional digits are counted.
   */
  datatype Truncated = Truncated(integral: seq<u8>, fractional: seq<u8>, carry: bool, normalized: int, scale: int)

  /**
   * The branch of `parse_str`: when `fractionOnly` holds, the leading zeros
   * of the fractional part are discounted and 38 digits after them kept;
   * otherwise the integral digits count, and at most 38 digits of integral
   * and fractional part together are kept.
   */
  function Truncation(p: Parts, fractionOnly: bool): Truncated
    requires WellFormed(p)
  {
    var scale := -p.exp;
    if fractionOnly then
      var zeroCount := LeadingZeros(p.fractional);
      var max := MAX_PRECISION + zeroCount;
      if |p.fractional| > max then
        Truncated(p.integral, p.fractional[..max], RoundsUp(p.fractional[max]), p.exp - zeroCount, scale)
      else
        Truncated(p.integral, p.fractional, false, p.exp - zeroCount, scale)
    else
      var intLen := |p.integral|;
      if intLen > MAX_PRECISION then
        Truncated(p.integral[..MAX_PRECISION], [], RoundsUp(p.integral[MAX_PRECISION]),
                  p.exp + intLen, scale - (intLen - MAX_PRECISION))
      else
        var max := MAX_PRECISION - intLen;
        if |p.fractional| > max then
          Truncated(p.integral, p.fractional[..max], RoundsUp(p.fractional[max]), p.exp + intLen, scale)
        else
          Truncated(p.integral, p.fractional, false, p.exp + intLen, scale)
  }

  /** The kept digits fit in 38 digits and every scale in 16 bits. */
  predicate Fits(t: Truncated)
  {
    AllDigits(t.integral) && AllDigits(t.fractional) &&
    0 <= DigitsValue(t.integral + t.fractional) <= MAX_I128_REPR &&
    -32000 <= t.scale <= 1000 && |t.fractional| <= MAX_INPUT
  }

  /** The scale before the kept fractional digits stays well inside 16 bits. */
  lemma TruncationScale(p: Parts, fractionOnly: bool)
    requires WellFormed(p)
    ensures var t := Truncation(p, fractionOnly);
      -32000 <= t.scale <= 1000 && |t.fractional| <= MAX_INPUT &&
      AllDigits(t.integral) && AllDigits(t.fractional)
  {
  }

  /** With a fractional part only, at most 38 digits follow the kept zeros. */
  lemma FractionOnlyFits(p: Parts)
    requires WellFormed(p) && (p.integral == [] || p.integral == [ZERO_CHAR])
    ensures Fits(Truncation(p, true))
  {
    var t := Truncation(p, true);
    TruncationScale(p, true);
    var kept := t.integral + t.fractional;
    AllDigitsAppend(t.integral, t.fractional);
    var n := |p.integral| + LeadingZeros(p.fractional);
    assert |kept| - n <= MAX_PRECISION;
    assert forall i :: 0 <= i < n ==> kept[i] == ZERO_CHAR;
    FewAfterZeros(kept, n);
  }

  /** Digits that are zeros followed by at most 38 more denote at most 10^38 - 1. */
  lemma FewAfterZeros(s: seq<u8>, n: nat)
    requires AllDigits(s) && n <= |s| && |s| - n <= MAX_PRECISION
    requires forall i :: 0 <= i < n ==> s[i] == ZERO_CHAR
    ensures 0 <= DigitsValue(s) <= MAX_I128_REPR
  {
    ZerosPrefixValue(s, n);
    Pow10Monotone(|s| - n, MAX_PRECISION);
    MaxReprIsPow10();
  }

  /** Otherwise at most 38 digits are kept. */
  lemma IntegralFits(p: Parts)
    requires WellFormed(p)
    ensures Fits(Truncation(p, false))
  {
    var t := Truncation(p, false);
    TruncationScale(p, false);
    var kept := t.integral + t.fractional;
    AllDigitsAppend(t.integral, t.fractional);
    assert |kept| <= MAX_PRECISION;
    DigitsValueBelow(kept);
    Pow10Monotone(|kept|, MAX_PRECISION);
    MaxReprIsPow10();
  }

  /** What both branches keep fits, for an integral part the branch test allows. */
  lemma TruncationFits(p: Parts, fractionOnly: bool)
    requires WellFormed(p)
    requires fractionOnly ==> p.integral == [] || p.integral == [ZERO_CHAR]
    ensures Fits(Truncation(p, fractionOnly))
  {
    if fractionOnly {
      FractionOnlyFits(p);
    } else {
      IntegralFits(p);
    }
  }

  /**
   * The rest of `parse_str`: accumulate the kept digits, add the carry,
   * divide a carry to 10^38 back into 38 digits, check the exponent of the
   * leading digit and count the kept fractional digits into the scale.
   */
  function Finish(t: Truncated, sign: Sign): Result<Decimal, ParseError>
    requires Fits(t)
  {
    var value := DigitsValue(t.integral + t.fractional) + (if t.carry then 1 else 0);
    var over := value > MAX_I128_REPR;
    var normalized := t.normalized + (if over then 1 else 0);
    if normalized <= -MAX_SCALE then Err(Underflow)
    else if normalized > -MIN_SCALE then Err(Overflow)
    else
      var intVal := if over then value / 10 else value;
      var scale := t.scale - (if over then 1 else 0) + |t.fractional|;
      Ok(FromPartsUnchecked(intVal, scale, intVal != 0 && sign == Negative))
  }

  /**
   * `parse_str` as written on the parts of a number: only an integral part
   * of exactly "0" discounts the fractional part's leading zeros.
   */
  function AssembleAsWritten(p: Parts): Result<Decimal, ParseError>
    requires WellFormed(p)
  {
    var fractionOnly := p.integral == [ZERO_CHAR];
    TruncationFits(p, fractionOnly);
    Finish(Truncation(p, fractionOnly), p.sign)
  }

  // ---------------------------------------------------------------------
  // The branches round half-up to 38 significant digits
  // ---------------------------------------------------------------------

  lemma AllDigitsAppend(a: seq<u8>, b: seq<u8>)
    requires AllDigits(a) && AllDigits(b)
    ensures AllDigits(a + b)
  {
    forall i | 0 <= i < |a + b| ensures IsDigit((a + b)[i]) {
      if i < |a| {
        assert (a + b)[i] == a[i];
      } else {
        assert (a + b)[i] == b[i - |a|];
      }
    }
  }

  /** Half-up division of v * 10q + d * q + w by 10q, for a digit d and w below q, rounds up exactly when d >= 5. */
  lemma HalfUpByFirstDigit(v: nat, d: nat, w: nat, q: nat)
    requires d < 10 && w < q
    ensures DivRoundHalfUp(v * (10 * q) + (d * q + w), 10 * q) == v + (if d >= 5 then 1 else 0)
  {
    var p := 10 * q;
    var r := d * q + w;
    assert r < p by {
      MulLe(d + 1, 10, q);
    }
    DivModUnique(v * p + r, p, v, r);
    if d >= 5 {
      MulLe(5, d, q);
    } else {
      MulLe(d + 1, 5, q);
    }
  }

  /** Cutting digits b off a + b, half-up: a, plus one when b's first digit is above '4'. */
  lemma CutRounding(a: seq<u8>, b: seq<u8>)
    requires AllDigits(a) && AllDigits(b) && b != []
    ensures DigitsValue(a + b) >= 0 && DigitsValue(a) >= 0
    ensures DivRoundHalfUp(DigitsValue(a + b), Pow10(|b|)) == DigitsValue(a) + (if RoundsUp(b[0]) then 1 else 0)
  {
    CutSplit(a, b);
    HalfUpOfSplit(DigitsValue(a + b), Pow10(|b|), DigitsValue(a), b[0] as int - ZERO_CHAR as int, DigitsValue(b[1..]), Pow10(|b| - 1));
  }

  /** Half-up division of v·p + (d·q + w) by p = 10·q looks only at the digit d. */
  lemma HalfUpOfSplit(n: int, p: int, v: int, d: int, w: int, q: int)
    requires v >= 0 && 0 <= d < 10 && 0 <= w < q && p == 10 * q
    requires n == v * p + (d * q + w)
    ensures DivRoundHalfUp(n, p) == v + (if d >= 5 then 1 else 0)
  {
    HalfUpByFirstDigit(v, d, w, q);
  }

  /** a + b split into a, the first digit of b, and the rest of b. */
  lemma CutSplit(a: seq<u8>, b: seq<u8>)
    requires AllDigits(a) && AllDigits(b) && b != []
    ensures DigitsValue(a + b) >= 0 && DigitsValue(a) >= 0
    ensures 0 <= b[0] as int - ZERO_CHAR as int < 10 && 0 <= DigitsValue(b[1..]) < Pow10(|b| - 1)
    ensures Pow10(|b|) == 10 * Pow10(|b| - 1)
    ensures DigitsValue(a + b) == DigitsValue(a) * Pow10(|b|)
      + ((b[0] as int - ZERO_CHAR as int) * Pow10(|b| - 1) + DigitsValue(b[1..]))
  {
    AllDigitsAppend(a, b);
    DigitsValueNonNegative(a + b);
    DigitsValueAppend(a, b);
    DigitsValueNonNegative(a);
    DigitsValueFirst(b);
    DigitsValueBelow(b[1..]);
  }

  /** Half-up division by 1 changes nothing. */
  lemma DivRoundHalfUpOne(n: nat)
    ensures DivRoundHalfUp(n, Pow10(0)) == n
  {
  }

  /**
   * The branch keeps digits that, with the carry, are the mantissa rounded
   * half-up to 38 significant digits, gives the exponent of the leading
   * digit, and leaves the scale the rounded mantissa has.
   */
  predicate KeepsRounded(p: Parts, t: Truncated)
    requires WellFormed(p)
  {
    AllDigits(t.integral + t.fractional) &&
    DigitsValue(t.integral + t.fractional) + (if t.carry then 1 else 0) == DivRoundHalfUp(MantissaValue(p), Pow10(Dropped(p))) &&
    t.normalized == p.exp - |p.fractional| + Significant(p) &&
    t.scale + |t.fractional| == |p.fractional| - p.exp - Dropped(p)
  }

  /** An integral part of "0" or nothing adds its length to the leading zeros. */
  lemma LeadingZerosOfMantissa(p: Parts)
    requires p.integral == [] || p.integral == [ZERO_CHAR]
    ensures LeadingZeros(Mantissa(p)) == |p.integral| + LeadingZeros(p.fractional)
  {
    var m := Mantissa(p);
    if p.integral == [] {
      assert m == p.fractional;
    } else {
      assert m[1..] == p.fractional;
    }
  }

  /** An integral part that starts with a non-zero digit leaves the mantissa without leading zeros. */
  lemma NoLeadingZeros(p: Parts)
    requires p.integral != [] && p.integral[0] != ZERO_CHAR
    ensures LeadingZeros(Mantissa(p)) == 0
  {
    assert Mantissa(p)[0] == p.integral[0];
  }

  /** With a fractional part only and more than 38 digits after its leading zeros, the branch rounds off the rest. */
  lemma FractionOnlyCutRounds(p: Parts)
    requires WellFormed(p) && (p.integral == [] || p.integral == [ZERO_CHAR])
    requires |p.fractional| > MAX_PRECISION + LeadingZeros(p.fractional)
    ensures KeepsRounded(p, Truncation(p, true))
  {
    var t := Truncation(p, true);
    var max := MAX_PRECISION + LeadingZeros(p.fractional);
    var kept, cut := p.integral + p.fractional[..max], p.fractional[max..];
    FractionCutShape(p, max, kept, cut);
    AllDigitsAppend(p.integral, p.fractional[..max]);
    CutValue(p, t, kept, cut);
  }

  /** How the fraction-only branch splits the mantissa when it cuts digits. */
  lemma FractionCutShape(p: Parts, max: nat, kept: seq<u8>, cut: seq<u8>)
    requires WellFormed(p) && (p.integral == [] || p.integral == [ZERO_CHAR])
    requires max == MAX_PRECISION + LeadingZeros(p.fractional) < |p.fractional|
    requires kept == p.integral + p.fractional[..max] && cut == p.fractional[max..]
    ensures Truncation(p, true).integral + Truncation(p, true).fractional == kept
    ensures Truncation(p, true).carry == RoundsUp(cut[0])
    ensures Mantissa(p) == kept + cut && Dropped(p) == |cut|
    ensures Truncation(p, true).normalized == p.exp - |p.fractional| + Significant(p)
    ensures Truncation(p, true).scale + |Truncation(p, true).fractional| == |p.fractional| - p.exp - Dropped(p)
  {
    var f := p.fractional;
    LeadingZerosOfMantissa(p);
    assert f[..max] + cut == f;
    assert (p.integral + f[..max]) + cut == p.integral + (f[..max] + cut);
    assert Significant(p) == |f| - LeadingZeros(f);
  }

  /** The kept digits plus the carry are the mantissa rounded half up at the cut. */
  lemma CutValue(p: Parts, t: Truncated, kept: seq<u8>, cut: seq<u8>)
    requires WellFormed(p) && AllDigits(kept) && AllDigits(cut) && cut != []
    requires t.integral + t.fractional == kept && t.carry == RoundsUp(cut[0])
    requires Mantissa(p) == kept + cut && Dropped(p) == |cut|
    ensures DigitsValue(t.integral + t.fractional) + (if t.carry then 1 else 0)
      == DivRoundHalfUp(MantissaValue(p), Pow10(Dropped(p)))
  {
    CutRounding(kept, cut);
  }

  /** With a fractional part only and at most 38 digits after its leading zeros, the branch keeps them all. */
  lemma FractionOnlyKeeps(p: Parts)
    requires WellFormed(p) && (p.integral == [] || p.integral == [ZERO_CHAR])
    requires |p.fractional| <= MAX_PRECISION + LeadingZeros(p.fractional)
    ensures KeepsRounded(p, Truncation(p, true))
  {
    LeadingZerosOfMantissa(p);
    DivRoundHalfUpOne(MantissaValue(p));
  }

  /** With a fractional part only, the branch rounds the digits after its leading zeros. */
  lemma FractionOnlyRounds(p: Parts)
    requires WellFormed(p) && (p.integral == [] || p.integral == [ZERO_CHAR])
    ensures KeepsRounded(p, Truncation(p, true))
  {
    if |p.fractional| > MAX_PRECISION + LeadingZeros(p.fractional) {
      FractionOnlyCutRounds(p);
    } else {
      FractionOnlyKeeps(p);
    }
  }

  /** With more than 38 integral digits, the branch rounds off the rest of them and the whole fractional part. */
  lemma LongIntegralRounds(p: Parts)
    requires WellFormed(p) && |p.integral| > MAX_PRECISION
    ensures KeepsRounded(p, Truncation(p, false))
  {
    var t := Truncation(p, false);
    var m := Mantissa(p);
    var i := p.integral;
    NoLeadingZeros(p);
    var kept := i[..MAX_PRECISION];
    assert t.integral + t.fractional == kept;
    assert m == kept + (i[MAX_PRECISION..] + p.fractional);
    CutRounding(kept, i[MAX_PRECISION..] + p.fractional);
  }

  /** With 1 to 38 integral digits (not a lone zero), the branch keeps 38 digits in all. */
  lemma ShortIntegralRounds(p: Parts)
    requires WellFormed(p) && 1 <= |p.integral| <= MAX_PRECISION && p.integral != [ZERO_CHAR]
    ensures KeepsRounded(p, Truncation(p, false))
  {
    var t := Truncation(p, false);
    var m := Mantissa(p);
    var f := p.fractional;
    assert p.integral[0] != ZERO_CHAR;
    NoLeadingZeros(p);
    var max := MAX_PRECISION - |p.integral|;
    if |f| > max {
      var kept := p.integral + f[..max];
      assert t.integral + t.fractional == kept;
      assert m == kept + f[max..];
      CutRounding(kept, f[max..]);
    } else {
      assert t.integral + t.fractional == m;
      DivRoundHalfUpOne(MantissaValue(p));
    }
  }

  /**
   * Once the branch test treats a missing integral part like "0", every
   * branch keeps the mantissa rounded half-up to 38 significant digits.
   */
  lemma TruncationRounds(p: Parts)
    requires WellFormed(p)
    ensures KeepsRounded(p, Truncation(p, p.integral == [] || p.integral == [ZERO_CHAR]))
  {
    if p.integral == [] || p.integral == [ZERO_CHAR] {
      FractionOnlyRounds(p);
    } else if |p.integral| > MAX_PRECISION {
      LongIntegralRounds(p);
    } else {
      ShortIntegralRounds(p);
    }
  }

  /** The rest of `parse_str`, on digits that are the rounded mantissa, gives the corrected result. */
  lemma FinishAssembles(p: Parts, t: Truncated)
    requires WellFormed(p) && Fits(t) && KeepsRounded(p, t)
    ensures Finish(t, p.sign) == Assemble(p)
  {
  }

  // ---------------------------------------------------------------------
  // parse_str
  // ---------------------------------------------------------------------

  /**
   * The branch of `parse_str` on its locals: cut the digits to at most 38
   * significant ones, note whether the first dropped digit rounds up, and
   * find the exponent of the leading digit. A missing integral part counts
   * as "0".
   */
  method Truncate(p: Parts) returns (t: Truncated)
    requires WellFormed(p)
    ensures t == Truncation(p, p.integral == [] || p.integral == [ZERO_CHAR])
  {
    var integral, fractional := p.integral, p.fractional;
    var scale := -p.exp;
    var carry := false;
    var normalized := p.exp;
    if integral == [ZERO_CHAR] || integral == [] {
      var zeroCount := LeadingZeros(fractional);
      normalized := normalized - zeroCount;
      var max := MAX_PRECISION + zeroCount;
      if |fractional| > max {
        carry := RoundsUp(fractional[max]);
        fractional := fractional[..max];
      }
    } else {
      var intLen := |integral|;
      normalized := normalized + intLen;
      if intLen > MAX_PRECISION {
        carry := RoundsUp(integral[MAX_PRECISION]);
        scale := scale - (intLen - MAX_PRECISION);
        integral := integral[..MAX_PRECISION];
        fractional := [];
      } else {
        var max := MAX_PRECISION - intLen;
        if |fractional| > max {
          carry := RoundsUp(fractional[max]);
          fractional := fractional[..max];
        }
      }
    }
    t := Truncated(integral, fractional, carry, normalized, scale);
  }

  /** The two accumulation loops of `parse_str`: int = int * 10 + digit over the kept digits. */
  method Accumulate(integral: seq<u8>, fractional: seq<u8>) returns (value: nat)
    requires AllDigits(integral) && AllDigits(fractional)
    ensures value == DigitsValue(integral + fractional)
  {
    value := 0;
    for i := 0 to |integral|
      invariant value == DigitsValue(integral[..i])
    {
      assert integral[..i + 1][..i] == integral[..i];
      value := value * 10 + (integral[i] - ZERO_CHAR);
    }
    assert integral[..|integral|] == integral + fractional[..0];
    for i := 0 to |fractional|
      invariant value == DigitsValue(integral + fractional[..i])
    {
      assert (integral + fractional[..i + 1])[..|integral| + i] == integral + fractional[..i];
      value := value * 10 + (fractional[i] - ZERO_CHAR);
    }
    assert fractional[..|fractional|] == fractional;
  }

  /**
   * `parse_str`: reads the parts, keeps at most 38 significant digits,
   * accumulates them with the rounding carry, divides a carry to 10^38 back
   * into 38 digits and checks the exponent of the leading digit.
   */
  method ParseStr(s: seq<u8>) returns (r: Result<(Decimal, seq<u8>), ParseError>)
    requires |s| <= MAX_INPUT
    ensures r == Parsed(s)
  {
    var parts := ParseDecimal(s);
    if parts.Err? {
      return Err(parts.error);
    }
    var (p, rest) := parts.value;
    DecomposedWellFormed(s);
    var t := Truncate(p);
    TruncationFits(p, p.integral == [] || p.integral == [ZERO_CHAR]);
    TruncationRounds(p);
    FinishAssembles(p, t);
    var d := Complete(t, p.sign);
    return match d case Ok(v) => Ok((v, rest)) case Err(e) => Err(e);
  }

  /** The end of `parse_str`: add the carry, divide a carry to 10^38 back, check the bounds, build the decimal. */
  method Complete(t: Truncated, sign: Sign) returns (r: Result<Decimal, ParseError>)
    requires Fits(t)
    ensures r == Finish(t, sign)
  {
    var value := Accumulate(t.integral, t.fractional);
    value := value + (if t.carry then 1 else 0);
    var normalized, scale := t.normalized, t.scale;
    if value > MAX_I128_REPR {
      normalized := normalized + 1;
      value := value / 10;
      scale := scale - 1;
    }
    if normalized <= -MAX_SCALE {
      return Err(Underflow);
    }
    if normalized > -MIN_SCALE {
      return Err(Overflow);
    }
    var negative := value != 0 && sign == Negative;
    scale := scale + |t.fractional|;
    return Ok(FromPartsUnchecked(value, scale, negative));
  }

  // ---------------------------------------------------------------------
  // What the parsed decimal is
  // ---------------------------------------------------------------------

  /** The number of significant digits kept: all of them, or 38. */
  lemma KeptDigits(p: Parts)
    requires WellFormed(p)
    ensures Significant(p) - Dropped(p) <= MAX_PRECISION
    ensures Significant(p) <= MAX_PRECISION ==> Dropped(p) == 0
  {
  }

  /**
   * A parsed decimal is valid, and its scale is the number of significant
   * digits kept less the exponent of the leading digit, so it lies in
   * [-126, 167].
   */
  lemma AssembleValid(p: Parts)
    requires WellFormed(p) && Assemble(p).Ok?
    ensures Valid(Assemble(p).value)
    ensures MIN_SCALE <= Assemble(p).value.scale <= MAX_PRECISION + MAX_SCALE - 1
  {
    RoundedFits(p);
    KeptDigits(p);
  }

  /**
   * A parsed non-zero magnitude is the mantissa rounded half-up at the
   * result's scale: every digit dropped, including the one a carry to
   * 10^38 gives up, is rounded away once.
   */
  lemma AssembleRounds(p: Parts)
    requires WellFormed(p) && Assemble(p).Ok? && Assemble(p).value.intVal != 0
    ensures var d := Assemble(p).value;
      d.scale <= |p.fractional| - p.exp &&
      d.intVal == DivRoundHalfUp(MantissaValue(p), Pow10(|p.fractional| - p.exp - d.scale))
  {
    var k := Dropped(p);
    var q := DivRoundHalfUp(MantissaValue(p), Pow10(k));
    RoundedFits(p);
    if q > MAX_I128_REPR {
      assert q == MAX_I128_REPR + 1;
      RedivideByTen(MantissaValue(p), Pow10(k));
      assert Pow10(k + 1) == 10 * Pow10(k);
    }
  }

  /** A mantissa of at most 38 significant digits is kept exactly, at the scale its text gives it. */
  lemma AssembleExact(p: Parts)
    requires WellFormed(p) && Assemble(p).Ok? && Significant(p) <= MAX_PRECISION
    ensures var d := Assemble(p).value;
      d.intVal == MantissaValue(p) &&
      (d.intVal != 0 ==> d.scale == |p.fractional| - p.exp && d.negative == (p.sign == Negative))
  {
    var m := Mantissa(p);
    FewAfterZeros(m, LeadingZeros(m));
    assert Dropped(p) == 0;
    DivRoundHalfUpOne(MantissaValue(p));
  }

  /** A non-zero mantissa rounds to at least 1. */
  lemma RoundedPositive(p: Parts)
    requires WellFormed(p) && MantissaValue(p) != 0
    ensures DivRoundHalfUp(MantissaValue(p), Pow10(Dropped(p))) >= 1
  {
    var m := Mantissa(p);
    var z := LeadingZeros(m);
    var n := MantissaValue(p);
    var k := Dropped(p);
    ZerosPrefixValue(m, z);
    assert z < |m|;
    DigitsValueAtLeast(m[z..]);
    if k > 0 {
      Pow10Monotone(k, |m| - z - 1);
      DivLe(Pow10(k), n, Pow10(k));
    } else {
      DivRoundHalfUpOne(n);
    }
  }

  /** A non-zero mantissa never rounds to zero: the result is ZERO exactly when every digit is 0. */
  lemma AssembleZero(p: Parts)
    requires WellFormed(p) && Assemble(p).Ok?
    ensures Assemble(p).value == ZERO <==> MantissaValue(p) == 0
    ensures Assemble(p).value.intVal == 0 ==> Assemble(p).value == ZERO
  {
    if MantissaValue(p) != 0 {
      RoundedPositive(p);
    }
  }

  // ---------------------------------------------------------------------
  // A missing integral part
  // ---------------------------------------------------------------------

  /** Away from a missing integral part, the source's branch test gives the corrected result. */
  lemma AsWrittenAgrees(p: Parts)
    requires WellFormed(p) && p.integral != []
    ensures AssembleAsWritten(p) == Assemble(p)
  {
    var fractionOnly := p.integral == [ZERO_CHAR];
    TruncationFits(p, fractionOnly);
    TruncationRounds(p);
    FinishAssembles(p, Truncation(p, fractionOnly));
  }

  /** The corrected result depends on the integral digits only through the mantissa's value and significant digits. */
  lemma AssembleDependsOnValue(p: Parts, p': Parts)
    requires WellFormed(p) && WellFormed(p')
    requires p.sign == p'.sign && p.fractional == p'.fractional && p.exp == p'.exp
    requires MantissaValue(p) == MantissaValue(p') && Significant(p) == Significant(p')
    ensures Assemble(p) == Assemble(p')
  {
  }

  /** Corrected, a number written without its integral zero (".5") is the number written with it ("0.5"). */
  lemma LeadingPointAgrees(p: Parts)
    requires WellFormed(p) && p.integral == [] && |p.fractional| < MAX_INPUT
    ensures WellFormed(p.(integral := [ZERO_CHAR]))
    ensures Assemble(p) == Assemble(p.(integral := [ZERO_CHAR]))
  {
    var p0 := p.(integral := [ZERO_CHAR]);
    var m, m0 := Mantissa(p), Mantissa(p0);
    assert m == p.fractional;
    assert m0[1..] == m;
    DropLeadingZero(m0);
    assert LeadingZeros(m0) == 1 + LeadingZeros(m);
    AssembleDependsOnValue(p, p0);
  }

  /** Zeros in front add their number to the leading zeros. */
  lemma {:induction false} LeadingZerosAfterZeros(n: nat, s: seq<u8>)
    ensures LeadingZeros(Zeros(n) + s) == n + LeadingZeros(s)
    decreases n
  {
    if n > 0 {
      assert (Zeros(n) + s)[1..] == Zeros(n - 1) + s;
      LeadingZerosAfterZeros(n - 1, s);
    } else {
      assert Zeros(n) + s == s;
    }
  }

  /** The fractional digits of ".000…0123", 38 zeros then 123. */
  function PointFraction(): seq<u8>
  {
    Zeros(38) + PointTail()
  }

  lemma PointFractionFacts()
    ensures |PointFraction()| == 41 && AllDigits(PointFraction())
    ensures LeadingZeros(PointFraction()) == 38
    ensures DigitsValue(PointFraction()) == 123
    ensures DigitsValue(PointFraction()[..38]) == 0 && PointFraction()[38] == ZERO_CHAR + 1
  {
    PointFractionShape();
    PointFractionValue();
    PointFractionPrefix();
  }

  lemma PointFractionShape()
    ensures |PointFraction()| == 41 && AllDigits(PointFraction())
    ensures LeadingZeros(PointFraction()) == 38
  {
    LeadingZerosAfterZeros(38, PointTail());
  }

  /** The digits 1, 2, 3. */
  function PointTail(): seq<u8>
  {
    [ZERO_CHAR + 1, ZERO_CHAR + 2, ZERO_CHAR + 3]
  }

  lemma PointTailValue()
    ensures DigitsValue(PointTail()) == 123
  {
    var tail := PointTail();
    assert tail[..2][..1] == [ZERO_CHAR + 1];
    assert tail[..2] == [ZERO_CHAR + 1, ZERO_CHAR + 2];
    DigitsValueSingle(ZERO_CHAR + 1);
  }

  lemma PointFractionValue()
    ensures DigitsValue(PointFraction()) == 123
  {
    PrependZeros(38, PointTail());
    PointTailValue();
  }

  lemma PointFractionPrefix()
    ensures DigitsValue(PointFraction()[..38]) == 0 && PointFraction()[38] == ZERO_CHAR + 1
  {
    assert PointFraction()[..38] == Zeros(38);
    DigitsValueZeros(38);
  }

  /** The parts of ".000…0123" with 38 zeros. */
  function PointParts(): Parts
  {
    Parts(Positive, [], PointFraction(), 0)
  }

  /** As written, a fraction whose first 38 digits are zeros and whose 39th is 1 parses as 0 without an integral part. */
  lemma FractionCutToZero(f: seq<u8>)
    requires AllDigits(f) && |f| == 41 && DigitsValue(f[..38]) == 0 && f[38] == ZERO_CHAR + 1
    ensures WellFormed(Parts(Positive, [], f, 0))
    ensures AssembleAsWritten(Parts(Positive, [], f, 0)) == Ok(ZERO)
  {
    var t := Truncation(Parts(Positive, [], f, 0), false);
    assert t == Truncated([], f[..38], false, 0, 0);
    assert t.integral + t.fractional == f[..38];
  }

  /** Corrected, a fraction of 38 zeros and 123 keeps all three significant digits. */
  lemma FractionKeepsDigits(f: seq<u8>)
    requires AllDigits(f) && |f| == 41 && LeadingZeros(f) == 38 && DigitsValue(f) == 123
    ensures WellFormed(Parts(Positive, [], f, 0))
    ensures Assemble(Parts(Positive, [], f, 0)) == Ok(Decimal(123, 41, false))
  {
    var p := Parts(Positive, [], f, 0);
    assert Mantissa(p) == f;
    assert Significant(p) == 3 && Dropped(p) == 0;
    assert MantissaValue(p) == 123;
    DivRoundHalfUpOne(123);
    assert FromPartsUnchecked(123, 41, false) == Decimal(123, 41, false);
  }

  /** As written, the digits kept from ".000…0123" are its 38 zeros, and the 1 after them rounds down. */
  lemma PointAsWritten()
    ensures WellFormed(PointParts()) && AssembleAsWritten(PointParts()) == Ok(ZERO)
  {
    PointFractionFacts();
    FractionCutToZero(PointFraction());
  }

  /** Corrected, ".000…0123" keeps all three significant digits. */
  lemma PointCorrected()
    ensures WellFormed(PointParts()) && Assemble(PointParts()) == Ok(Decimal(123, 41, false))
  {
    PointFractionFacts();
    FractionKeepsDigits(PointFraction());
  }

  /**
   * As written, ".000…0123" with 38 zeros parses as 0: its leading zeros
   * use up the 38 digits and the 1 that follows rounds down, while
   * "0.000…0123" parses as 123 * 10^-41. Corrected, both give 123 * 10^-41.
   */
  lemma LeadingPointCounterexample()
    ensures WellFormed(PointParts()) && WellFormed(PointParts().(integral := [ZERO_CHAR]))
    ensures AssembleAsWritten(PointParts()) == Ok(ZERO)
    ensures AssembleAsWritten(PointParts().(integral := [ZERO_CHAR])) == Ok(Decimal(123, 41, false))
    ensures Assemble(PointParts()) == Ok(Decimal(123, 41, false))
  {
    PointAsWritten();
    PointCorrected();
    LeadingPointAgrees(PointParts());
    AsWrittenAgrees(PointParts().(integral := [ZERO_CHAR]));
  }

  // ---------------------------------------------------------------------
  // from_str: whitespace, NaN and trailing bytes
  // ---------------------------------------------------------------------

  /** `is_ascii_whitespace`: space, tab, line feed, form feed and carriage return. */
  predicate IsWhitespace(c: u8)
  {
    c == 32 || c == 9 || c == 10 || c == 12 || c == 13
  }

  predicate AllWhitespace(s: seq<u8>)
  {
    forall i :: 0 <= i < |s| ==> IsWhitespace(s[i])
  }

  /** How many whitespace bytes `s` starts with. */
  function LeadingWhitespace(s: seq<u8>): (i: nat)
    ensures i <= |s|
    ensures forall j :: 0 <= j < i ==> IsWhitespace(s[j])
    ensures i < |s| ==> !IsWhitespace(s[i])
  {
    if s == [] || !IsWhitespace(s[0]) then 0 else 1 + LeadingWhitespace(s[1..])
  }

  /** `eat_whitespaces`: drops the whitespace at the front. */
  function EatWhitespaces(s: seq<u8>): (r: seq<u8>)
    ensures |r| <= |s| && r == s[|s| - |r|..]
    ensures AllWhitespace(s[..|s| - |r|])
    ensures r == [] || !IsWhitespace(r[0])
  {
    s[LeadingWhitespace(s)..]
  }

  /** `make_ascii_lowercase` on one byte. */
  function ToLower(c: u8): u8
  {
    if 65 <= c <= 90 then c + 32 else c
  }

  /** "nan" in lower case. */
  const NAN: seq<u8> := [110, 97, 110]

  /** `extract_nan`: takes off "nan" at the front, in any mix of cases. */
  function ExtractNan(s: seq<u8>): (r: (bool, seq<u8>))
    ensures r.0 <==> |s| >= 3 && s[0] in {78, 110} && s[1] in {65, 97} && s[2] in {78, 110}
    ensures r.1 == if r.0 then s[3..] else s
  {
    if |s| < 3 then (false, s)
    else if [ToLower(s[0]), ToLower(s[1]), ToLower(s[2])] == NAN then (true, s[3..])
    else (false, s)
  }

  /**
   * The decimal a string denotes: surrounding whitespace is skipped, a
   * blank string is Empty, a string starting with NaN is Invalid, and
   * anything but whitespace after the number is Invalid.
   */
  function FromText(s: seq<u8>): Result<Decimal, ParseError>
    requires |s| <= MAX_INPUT
  {
    var t := EatWhitespaces(s);
    if t == [] then Err(Empty)
    else if ExtractNan(t).0 then Err(Invalid)
    else Accepted(Parsed(t))
  }

  /** A parsed number is accepted when only whitespace follows it. */
  function Accepted(r: Result<(Decimal, seq<u8>), ParseError>): Result<Decimal, ParseError>
  {
    match r
    case Err(e) => Err(e)
    case Ok((d, rest)) => if AllWhitespace(rest) then Ok(d) else Err(Invalid)
  }

  /** `from_str`: skip whitespace, reject blank input and NaN, parse, reject trailing bytes. */
  method FromStr(s: seq<u8>) returns (r: Result<Decimal, ParseError>)
    requires |s| <= MAX_INPUT
    ensures r == FromText(s)
  {
    var t := EatWhitespaces(s);
    if t == [] {
      return Err(Empty);
    }
    var (isNan, u) := ExtractNan(t);
    if isNan {
      return Err(Invalid);
    }
    var parsed := ParseStr(u);
    if parsed.Err? {
      return Err(parsed.error);
    }
    var (n, rest) := parsed.value;
    if exists i :: 0 <= i < |rest| && !IsWhitespace(rest[i]) {
      return Err(Invalid);
    }
    return Ok(n);
  }

  /** Parsing never reports an empty string: only `from_str`'s blank check does. */
  lemma ParsedNotEmpty(s: seq<u8>)
    requires |s| <= MAX_INPUT && Parsed(s).Err?
    ensures Parsed(s).error != Empty
  {
    DecomposedNotEmpty(s);
    if Decomposed(s).Ok? {
      DecomposedWellFormed(s);
      AssembleNotEmpty(Decomposed(s).value.0);
    }
  }

  /** The decomposition fails only with Invalid or a bad exponent. */
  lemma DecomposedNotEmpty(s: seq<u8>)
    ensures Decomposed(s).Err? ==> Decomposed(s).error != Empty
  {
    var (sign, t) := ExtractSign(s);
    if t != [] {
      var (integral, u) := EatDigits(t);
      if u != [] && u[0] == POINT && !IsExponentMark(u[0]) {
        var (digits, v) := EatDigits(u[1..]);
        assert AfterPoint(sign, integral, u[1..]).Err? ==> AfterPoint(sign, integral, u[1..]).error != Empty;
      }
    }
  }

  /** Assembling fails only with Overflow or Underflow. */
  lemma AssembleNotEmpty(p: Parts)
    requires WellFormed(p)
    ensures Assemble(p).Err? ==> Assemble(p).error != Empty
  {
  }

  /** The whitespace run at the front of `w + t` is exactly `w` when `t` does not start with whitespace. */
  lemma {:induction false} LeadingWhitespaceBefore(w: seq<u8>, t: seq<u8>)
    requires AllWhitespace(w) && (t == [] || !IsWhitespace(t[0]))
    ensures LeadingWhitespace(w + t) == |w|
  {
    if w != [] {
      assert (w + t)[1..] == w[1..] + t;
      LeadingWhitespaceBefore(w[1..], t);
    } else {
      assert w + t == t;
    }
  }

  /** Whitespace in front of a number text is skipped. */
  lemma EatWhitespacesBefore(w: seq<u8>, t: seq<u8>)
    requires AllWhitespace(w) && (t == [] || !IsWhitespace(t[0]))
    ensures EatWhitespaces(w + t) == t
  {
    LeadingWhitespaceBefore(w, t);
    assert (w + t)[|w|..] == t;
  }

  /** A string of whitespace only, and nothing else, is Empty. */
  lemma FromTextEmpty(s: seq<u8>)
    requires |s| <= MAX_INPUT
    ensures FromText(s) == Err(Empty) <==> AllWhitespace(s)
  {
    var t := EatWhitespaces(s);
    if t == [] {
      assert s[..|s|] == s;
    } else {
      assert !IsWhitespace(s[|s| - |t|]);
      if !ExtractNan(t).0 && Parsed(t).Err? {
        ParsedNotEmpty(t);
      }
    }
  }

  /** A string that starts, after whitespace, with "nan" in any case is Invalid, whatever follows. */
  lemma FromTextNan(w: seq<u8>, nan: seq<u8>, rest: seq<u8>)
    requires AllWhitespace(w) && |w + nan + rest| <= MAX_INPUT
    requires |nan| == 3 && ToLower(nan[0]) == 110 && ToLower(nan[1]) == 97 && ToLower(nan[2]) == 110
    ensures FromText(w + nan + rest) == Err(Invalid)
  {
    assert w + nan + rest == w + (nan + rest);
    EatWhitespacesBefore(w, nan + rest);
  }

  // ---------------------------------------------------------------------
  // What follows a number does not change how it parses
  // ---------------------------------------------------------------------

  /** `w` cannot continue a number: it is empty or starts with a byte no number part starts with. */
  predicate Stops(w: seq<u8>)
  {
    w == [] || (!IsDigit(w[0]) && w[0] != POINT && w[0] != PLUS && w[0] != MINUS && !IsExponentMark(w[0]))
  }

  /** The same outcome, with `w` appended to the unparsed rest. */
  function WithRest<T>(r: Result<(T, seq<u8>), ParseError>, w: seq<u8>): Result<(T, seq<u8>), ParseError>
  {
    match r
    case Err(e) => Err(e)
    case Ok((x, rest)) => Ok((x, rest + w))
  }

  lemma {:induction false} LeadingDigitsAppend(s: seq<u8>, w: seq<u8>)
    requires w == [] || !IsDigit(w[0])
    ensures LeadingDigits(s + w) == LeadingDigits(s)
  {
    if s == [] {
      assert s + w == w;
    } else if IsDigit(s[0]) {
      assert (s + w)[1..] == s[1..] + w;
      LeadingDigitsAppend(s[1..], w);
    }
  }

  /** Digits are eaten the same way whatever non-digit text follows. */
  lemma EatDigitsAppend(s: seq<u8>, w: seq<u8>)
    requires w == [] || !IsDigit(w[0])
    ensures EatDigits(s + w) == (EatDigits(s).0, EatDigits(s).1 + w)
  {
    LeadingDigitsAppend(s, w);
    var i := LeadingDigits(s);
    assert (s + w)[..i] == s[..i];
    assert (s + w)[i..] == s[i..] + w;
  }

  lemma ExtractSignAppend(s: seq<u8>, w: seq<u8>)
    requires s != []
    ensures ExtractSign(s + w) == (ExtractSign(s).0, ExtractSign(s).1 + w)
  {
    assert (s + w)[0] == s[0];
    assert (s + w)[1..] == s[1..] + w;
  }

  lemma ExponentAppend(s: seq<u8>, w: seq<u8>)
    requires Stops(w)
    ensures Exponent(s + w) == WithRest(Exponent(s), w)
  {
    if s == [] {
      assert s + w == w;
      EatDigitsAppend([], w);
      assert [] + w == w;
    } else {
      ExtractSignAppend(s, w);
      EatDigitsAppend(ExtractSign(s).1, w);
    }
  }

  lemma WithExponentAppend(sign: Sign, whole: seq<u8>, fractional: seq<u8>, s: seq<u8>, w: seq<u8>)
    requires Stops(w)
    ensures WithExponent(sign, whole, fractional, s + w) == WithRest(WithExponent(sign, whole, fractional, s), w)
  {
    ExponentAppend(s, w);
  }

  lemma ClosingAppend(sign: Sign, whole: seq<u8>, fractional: seq<u8>, v: seq<u8>, w: seq<u8>)
    requires Stops(w)
    ensures Closing(sign, whole, fractional, v + w) == WithRest(Closing(sign, whole, fractional, v), w)
  {
    if v != [] {
      assert (v + w)[0] == v[0];
      assert (v + w)[1..] == v[1..] + w;
      if IsExponentMark(v[0]) {
        WithExponentAppend(sign, whole, fractional, v[1..], w);
      }
    } else {
      assert v + w == w;
    }
  }

  lemma AfterPointAppend(sign: Sign, integral: seq<u8>, s: seq<u8>, w: seq<u8>)
    requires Stops(w)
    ensures AfterPoint(sign, integral, s + w) == WithRest(AfterPoint(sign, integral, s), w)
  {
    EatDigitsAppend(s, w);
    var (digits, v) := EatDigits(s);
    ClosingAppend(sign, TrimLeadingZeros(integral), TrimTrailingZeros(digits), v, w);
  }

  lemma UnsignedAppend(sign: Sign, t: seq<u8>, w: seq<u8>)
    requires Stops(w)
    ensures Unsigned(sign, t + w) == WithRest(Unsigned(sign, t), w)
  {
    EatDigitsAppend(t, w);
    var (integral, u) := EatDigits(t);
    if u != [] {
      assert (u + w)[0] == u[0];
      assert (u + w)[1..] == u[1..] + w;
      if IsExponentMark(u[0]) {
        if integral != [] {
          WithExponentAppend(sign, TrimLeadingZeros(integral), [], u[1..], w);
        }
      } else if u[0] == POINT {
        AfterPointAppend(sign, integral, u[1..], w);
      }
    } else {
      assert u + w == w;
    }
  }

  /** A text that does not start a number part is Invalid as a number. */
  lemma StopsInvalid(sign: Sign, w: seq<u8>)
    requires Stops(w)
    ensures Unsigned(sign, w) == Err(Invalid)
    ensures Decomposed(w) == Err(Invalid)
  {
    UnsignedAppend(sign, [], w);
    UnsignedAppend(Positive, [], w);
    assert [] + w == w;
  }

  /** The decomposition of a number does not look past its end. */
  lemma DecomposedAppend(s: seq<u8>, w: seq<u8>)
    requires Stops(w)
    ensures Decomposed(s + w) == WithRest(Decomposed(s), w)
  {
    if s == [] {
      assert s + w == w;
      StopsInvalid(Positive, w);
    } else {
      ExtractSignAppend(s, w);
      var (sign, t) := ExtractSign(s);
      if t == [] {
        assert t + w == w;
        StopsInvalid(sign, w);
      } else {
        UnsignedAppend(sign, t, w);
      }
    }
  }

  /** Parsing a number does not look past its end. */
  lemma ParsedAppend(s: seq<u8>, w: seq<u8>)
    requires Stops(w) && |s + w| <= MAX_INPUT
    ensures Parsed(s + w) == WithRest(Parsed(s), w)
  {
    DecomposedAppend(s, w);
  }

  lemma AllWhitespaceAppend(a: seq<u8>, b: seq<u8>)
    ensures AllWhitespace(a + b) <==> AllWhitespace(a) && AllWhitespace(b)
  {
    if AllWhitespace(a) && AllWhitespace(b) {
      forall i | 0 <= i < |a + b|
        ensures IsWhitespace((a + b)[i])
      {
        if i >= |a| {
          assert (a + b)[i] == b[i - |a|];
        }
      }
    }
    if AllWhitespace(a + b) {
      forall i | 0 <= i < |a|
        ensures IsWhitespace(a[i])
      {
        assert (a + b)[i] == a[i];
      }
      forall i | 0 <= i < |b|
        ensures IsWhitespace(b[i])
      {
        assert (a + b)[|a| + i] == b[i];
      }
    }
  }

  /** Whitespace trailing after NaN's letters cannot make or break them. */
  lemma ExtractNanAppend(t: seq<u8>, w: seq<u8>)
    requires AllWhitespace(w)
    ensures ExtractNan(t + w).0 == ExtractNan(t).0
  {
    if |t| < 3 && |t + w| >= 3 {
      assert (t + w)[|t|] == w[0];
    }
  }

  lemma AcceptedAppend(r: Result<(Decimal, seq<u8>), ParseError>, w: seq<u8>)
    requires AllWhitespace(w)
    ensures Accepted(WithRest(r, w)) == Accepted(r)
  {
    if r.Ok? {
      AllWhitespaceAppend(r.value.1, w);
    }
  }

  /** Whitespace after a number that starts with a non-blank byte is ignored. */
  lemma FromTextAfter(t: seq<u8>, after: seq<u8>)
    requires t != [] && !IsWhitespace(t[0]) && AllWhitespace(after)
    requires |t + after| <= MAX_INPUT
    ensures FromText(t + after) == FromText(t)
  {
    EatWhitespacesBefore([], t + after);
    EatWhitespacesBefore([], t);
    assert [] + t == t;
    assert [] + (t + after) == t + after;
    ExtractNanAppend(t, after);
    if !ExtractNan(t).0 {
      ParsedAppend(t, after);
      AcceptedAppend(Parsed(t), after);
    }
  }

  /** Whitespace before a text that starts with a non-blank byte is ignored. */
  lemma FromTextBefore(before: seq<u8>, t: seq<u8>)
    requires t != [] && !IsWhitespace(t[0]) && AllWhitespace(before)
    requires |before + t| <= MAX_INPUT
    ensures FromText(before + t) == FromText(t)
  {
    EatWhitespacesBefore(before, t);
    EatWhitespacesBefore([], t);
    assert [] + t == t;
  }

  /** `from_str` ignores whitespace before and after the text. */
  lemma FromTextTrims(before: seq<u8>, t: seq<u8>, after: seq<u8>)
    requires AllWhitespace(before) && AllWhitespace(after)
    requires |before + t + after| <= MAX_INPUT
    ensures FromText(before + t + after) == FromText(t)
  {
    var k := LeadingWhitespace(t);
    var blank, core := t[..k], t[k..];
    assert t == blank + core;
    assert AllWhitespace(blank);
    if core == [] {
      TrimsBlank(before, t, after);
    } else {
      TrimsAroundCore(before, blank, core, after);
    }
  }

  lemma TrimsBlank(before: seq<u8>, t: seq<u8>, after: seq<u8>)
    requires AllWhitespace(before) && AllWhitespace(t) && AllWhitespace(after)
    requires |before + t + after| <= MAX_INPUT
    ensures FromText(before + t + after) == FromText(t)
  {
    AllWhitespaceAppend(before, t);
    AllWhitespaceAppend(before + t, after);
    FromTextEmpty(before + t + after);
    FromTextEmpty(t);
  }

  lemma TrimsAroundCore(before: seq<u8>, blank: seq<u8>, core: seq<u8>, after: seq<u8>)
    requires AllWhitespace(before) && AllWhitespace(blank) && AllWhitespace(after)
    requires core != [] && !IsWhitespace(core[0])
    requires |before + (blank + core) + after| <= MAX_INPUT
    ensures FromText(before + (blank + core) + after) == FromText(blank + core)
  {
    AllWhitespaceAppend(before, blank);
    assert before + (blank + core) + after == (before + blank) + (core + after);
    FromTextBefore(before + blank, core + after);
    FromTextAfter(core, after);
    FromTextBefore(blank, core);
  }

  // ---------------------------------------------------------------------
  // Reading Display's text back
  // ---------------------------------------------------------------------

  /** The sign a minus flag stands for. */
  function SignOf(negative: bool): Sign
  {
    if negative then Negative else Positive
  }

  /** A signed numeral in Display's shape decomposes into its own parts, with nothing left over. */
  lemma DecomposedPlain(negative: bool, whole: seq<u8>, fraction: seq<u8>)
    requires PlainShape(whole, fraction)
    ensures Decomposed(SignPrefix(negative) + Plain(whole, fraction))
      == Ok((Parts(SignOf(negative), whole, fraction, 0), []))
  {
    var body := Plain(whole, fraction);
    SignedDigits(negative, body);
    if fraction == [] {
      UnsignedWhole(SignOf(negative), whole);
    } else {
      UnsignedPoint(SignOf(negative), whole, fraction);
    }
  }

  /** A minus sign or none, before a digit, gives the sign and leaves the digits. */
  lemma SignedDigits(negative: bool, body: seq<u8>)
    requires body != [] && IsDigit(body[0])
    ensures ExtractSign(SignPrefix(negative) + body) == (SignOf(negative), body)
  {
    if negative {
      assert (SignPrefix(negative) + body)[1..] == body;
    } else {
      assert SignPrefix(negative) + body == body;
    }
  }

  /** Digits without a superfluous leading zero are read whole. */
  lemma UnsignedWhole(sign: Sign, whole: seq<u8>)
    requires AllDigits(whole) && whole != [] && (|whole| > 1 ==> whole[0] != ZERO_CHAR)
    ensures Unsigned(sign, whole) == Ok((Parts(sign, whole, [], 0), []))
  {
    assert whole + [] == whole;
    EatDigitsOf(whole, []);
    assert TrimLeadingZeros(whole) == whole;
  }

  /** Digits, a point and a fraction not ending in 0 are read into those parts. */
  lemma UnsignedPoint(sign: Sign, whole: seq<u8>, fraction: seq<u8>)
    requires PlainShape(whole, fraction) && fraction != []
    ensures Unsigned(sign, whole + ([POINT] + fraction)) == Ok((Parts(sign, whole, fraction, 0), []))
  {
    EatDigitsOf(whole, [POINT] + fraction);
    assert ([POINT] + fraction)[1..] == fraction;
    assert AfterPoint(sign, whole, fraction) == Ok((Parts(sign, whole, fraction, 0), [])) by {
      assert fraction + [] == fraction;
      EatDigitsOf(fraction, []);
      assert TrimLeadingZeros(whole) == whole;
      assert TrimTrailingZeros(fraction) == fraction;
    }
  }

  /** `from_str` reads a signed numeral in Display's shape as its parts assemble. */
  lemma FromTextPlain(negative: bool, whole: seq<u8>, fraction: seq<u8>)
    requires PlainShape(whole, fraction) && |whole| + |fraction| + 2 <= MAX_INPUT
    ensures |SignPrefix(negative) + Plain(whole, fraction)| <= MAX_INPUT
    ensures WellFormed(Parts(SignOf(negative), whole, fraction, 0))
    ensures FromText(SignPrefix(negative) + Plain(whole, fraction))
      == Assemble(Parts(SignOf(negative), whole, fraction, 0))
  {
    var text := SignPrefix(negative) + Plain(whole, fraction);
    var p := Parts(SignOf(negative), whole, fraction, 0);
    assert WellFormed(p) by {
      assert AllDigits(p.integral) && AllDigits(p.fractional);
    }
    assert FromText(text) == Accepted(Parsed(text)) by {
      assert text[0] == if negative then MINUS else whole[0];
      FromTextParses(text);
    }
    assert Parsed(text) == if Assemble(p).Ok? then Ok((Assemble(p).value, [])) else Err(Assemble(p).error) by {
      DecomposedPlain(negative, whole, fraction);
    }
  }

  /** A mantissa with a non-zero value has as many significant digits as that value. */
  lemma SignificantDigits(p: Parts)
    requires WellFormed(p) && MantissaValue(p) > 0
    ensures Significant(p) == NumDigits(MantissaValue(p))
  {
    var m := Mantissa(p);
    var lz := LeadingZeros(m);
    ZerosPrefixValue(m, lz);
    DigitsValueAtLeast(m[lz..]);
    NumDigitsUnique(MantissaValue(p), |m| - lz);
  }

  /**
   * Parts whose mantissa, read at `z` fewer places than the decimal's
   * scale, is its magnitude assemble into the decimal read at the
   * fraction's length: the same value, and the decimal itself when z is 0.
   */
  lemma AssembleFiner(p: Parts, d: Decimal, z: nat)
    requires WellFormed(p) && p.exp == 0 && p.sign == SignOf(d.negative)
    requires Valid(d) && d.intVal != 0 && -MAX_SCALE < NumDigits(d.intVal) - d.scale <= -MIN_SCALE
    requires MantissaValue(p) * Pow10(z) == d.intVal && |p.fractional| + z == d.scale
    ensures Assemble(p).Ok? && SameValue(Assemble(p).value, d)
    ensures z == 0 ==> Assemble(p) == Ok(d)
  {
    var r := Decimal(MantissaValue(p), |p.fractional|, d.negative);
    AssembleFinerExact(p, d, z);
    ScaledUpSameValue(r, d.intVal, d.scale);
    SameValueSymmetric(d, r);
  }

  /** Such parts are taken as they are: their mantissa at the fraction's length. */
  lemma AssembleFinerExact(p: Parts, d: Decimal, z: nat)
    requires WellFormed(p) && p.exp == 0 && p.sign == SignOf(d.negative)
    requires Valid(d) && d.intVal != 0 && -MAX_SCALE < NumDigits(d.intVal) - d.scale <= -MIN_SCALE
    requires MantissaValue(p) * Pow10(z) == d.intVal && |p.fractional| + z == d.scale
    ensures Assemble(p) == Ok(Decimal(MantissaValue(p), |p.fractional|, d.negative))
  {
    var v := MantissaValue(p);
    assert 0 < v <= d.intVal by {
      MulLe(1, Pow10(z), v);
    }
    NumDigitsShift(v, z);
    SignificantDigits(p);
    MagnitudeFits(d.intVal);
    AssembleShort(p);
  }

  /**
   * Parts with no fraction whose mantissa is the magnitude times
   * 10^(-scale) assemble into a decimal of the same value: the digits past
   * the 38 kept are zeros, so rounding drops them exactly.
   */
  lemma AssembleWhole(p: Parts, d: Decimal)
    requires WellFormed(p) && p.exp == 0 && p.fractional == [] && p.sign == SignOf(d.negative)
    requires Valid(d) && d.intVal != 0 && d.scale <= 0
    requires -MAX_SCALE < NumDigits(d.intVal) - d.scale <= -MIN_SCALE
    requires MantissaValue(p) == d.intVal * Pow10(-d.scale)
    ensures Assemble(p).Ok? && SameValue(Assemble(p).value, d)
    ensures d.scale == 0 ==> Assemble(p) == Ok(d)
  {
    var k: int := Dropped(p);
    WholeDropsZeros(p, d);
    var q := d.intVal * Pow10(-d.scale - k);
    var r := Decimal(q, -k, d.negative);
    assert Assemble(p) == Ok(r);
    ScaledUpSameValue(d, q, -k);
  }

  /**
   * For such parts the digits past the 38 kept are all zeros: dropping them
   * leaves the magnitude times a smaller power of ten, still inside 96 bits.
   */
  lemma WholeDropsZeros(p: Parts, d: Decimal)
    requires WellFormed(p) && p.exp == 0 && p.fractional == []
    requires Valid(d) && d.intVal != 0 && d.scale <= 0
    requires MantissaValue(p) == d.intVal * Pow10(-d.scale)
    ensures Significant(p) == NumDigits(d.intVal) - d.scale
    ensures Dropped(p) <= -d.scale
    ensures DivRoundHalfUp(MantissaValue(p), Pow10(Dropped(p))) == d.intVal * Pow10(-d.scale - Dropped(p))
    ensures 1 <= d.intVal * Pow10(-d.scale - Dropped(p)) <= MAX_I128_REPR
  {
    var n := d.intVal;
    var e: nat := -d.scale;
    assert Significant(p) == NumDigits(n) + e by {
      NumDigitsShift(n, e);
      SignificantDigits(p);
    }
    MagnitudeFits(n);
    DropsExactly(n, e, Significant(p), Dropped(p));
  }

  /**
   * A magnitude of at most 38 digits followed by `e` zeros, cut to 38
   * significant digits, loses only zeros.
   */
  lemma DropsExactly(n: nat, e: nat, significant: nat, k: nat)
    requires 1 <= n && NumDigits(n) <= MAX_PRECISION && significant == NumDigits(n) + e
    requires k == if significant > MAX_PRECISION then significant - MAX_PRECISION else 0
    ensures k <= e && DivRoundHalfUp(n * Pow10(e), Pow10(k)) == n * Pow10(e - k)
    ensures 1 <= n * Pow10(e - k) <= MAX_I128_REPR
  {
    var j: nat := e - k;
    var q := n * Pow10(j);
    assert q >= 1 by {
      MulLe(1, n, Pow10(j));
    }
    assert n * Pow10(e) == q * Pow10(k) by {
      Pow10Add(j, k);
      MulAssoc(n, Pow10(j), Pow10(k));
    }
    DivRoundHalfUpExact(q, Pow10(k));
    assert q <= MAX_I128_REPR by {
      NumDigitsShift(n, j);
      MaxReprIsPow10();
      NumDigitsBelow(q, MAX_PRECISION);
    }
  }

  /** Half-up division of an exact multiple is exact. */
  lemma DivRoundHalfUpExact(m: nat, p: nat)
    requires p > 0
    ensures DivRoundHalfUp(m * p, p) == m
  {
    DivModUnique(m * p, p, m, 0);
  }

  /**
   * Display's text without a precision reads back through `from_str` as a
   * decimal of the same value, for every valid decimal whose leading digit
   * lies within the exponents the parser accepts; with a scale of 0, or a
   * positive scale and a last digit that is not 0, it reads back as the
   * decimal itself.
   */
  lemma DisplayReadsBack(d: Decimal)
    requires Valid(d)
    requires d.intVal != 0 ==> -MAX_SCALE < NumDigits(d.intVal) - d.scale <= -MIN_SCALE
    ensures |DisplayText(d, None)| <= MAX_INPUT
    ensures FromText(DisplayText(d, None)).Ok?
    ensures SameValue(FromText(DisplayText(d, None)).value, d)
    ensures d.scale >= 0 && (d.scale > 0 ==> d.intVal % 10 != 0) ==> FromText(DisplayText(d, None)) == Ok(d)
  {
    if d.intVal == 0 {
      ZeroReadsBack();
    } else {
      DisplayParses(d);
      DisplayPartsAssemble(d);
    }
  }

  /** "0", Display's text for zero, reads back as zero. */
  lemma ZeroReadsBack()
    ensures DisplayText(ZERO, None) == [ZERO_CHAR]
    ensures FromText([ZERO_CHAR]) == Ok(ZERO)
    ensures SameValue(ZERO, ZERO)
  {
    assert SignPrefix(false) + [ZERO_CHAR] == [ZERO_CHAR];
    FromTextPlain(false, [ZERO_CHAR], []);
    var p := Parts(Positive, [ZERO_CHAR], [], 0);
    assert Mantissa(p) == [ZERO_CHAR];
    assert MantissaValue(p) == 0 by {
      DigitsValueSingle(ZERO_CHAR);
    }
    assert Significant(p) == 0;
    AssembleShort(p);
  }

  /**
   * The plain parts of a non-zero decimal in the parser's window assemble
   * into a decimal of the same value, and into the decimal itself when its
   * scale is 0, or positive with a last digit that is not 0.
   */
  lemma DisplayPartsAssemble(d: Decimal)
    requires Valid(d) && d.intVal != 0 && WellFormed(DisplayParts(d))
    requires -MAX_SCALE < NumDigits(d.intVal) - d.scale <= -MIN_SCALE
    ensures Assemble(DisplayParts(d)).Ok? && SameValue(Assemble(DisplayParts(d)).value, d)
    ensures d.scale >= 0 && (d.scale > 0 ==> d.intVal % 10 != 0) ==> Assemble(DisplayParts(d)) == Ok(d)
  {
    var p := DisplayParts(d);
    DisplayPartsValue(d);
    if d.scale <= 0 {
      AssembleWhole(p, d);
    } else {
      AssembleFiner(p, d, d.scale - |p.fractional|);
    }
  }

  /** The parts the parser reads from Display's text of a non-zero decimal. */
  function DisplayParts(d: Decimal): Parts
  {
    var (whole, fraction) := PlainParts(Digits(d.intVal), d.scale);
    Parts(SignOf(d.negative), whole, fraction, 0)
  }

  /** Display's text of a non-zero decimal fits the parser and reads as its plain parts. */
  lemma DisplayParses(d: Decimal)
    requires Valid(d) && d.intVal != 0
    ensures |DisplayText(d, None)| <= MAX_INPUT
    ensures WellFormed(DisplayParts(d))
    ensures FromText(DisplayText(d, None)) == Assemble(DisplayParts(d))
  {
    var (whole, fraction) := PlainParts(Digits(d.intVal), d.scale);
    DisplayIsPlain(d);
    MagnitudeFits(d.intVal);
    assert |whole| + |fraction| + 2 <= MAX_INPUT;
    FromTextPlain(d.negative, whole, fraction);
  }

  /**
   * The plain parts are worth the magnitude: times 10^(-scale) with no
   * fraction for a scale of 0 or less, and otherwise divided by 10^scale
   * once the stripped zeros are put back.
   */
  lemma DisplayPartsValue(d: Decimal)
    requires Valid(d) && d.intVal != 0 && WellFormed(DisplayParts(d))
    ensures var p := DisplayParts(d);
      WellFormed(p) &&
      (d.scale <= 0 ==> p.fractional == [] && MantissaValue(p) == d.intVal * Pow10(-d.scale)) &&
      (d.scale > 0 ==>
        |p.fractional| <= d.scale && MantissaValue(p) * Pow10(d.scale - |p.fractional|) == d.intVal &&
        (d.intVal % 10 != 0 ==> |p.fractional| == d.scale))
  {
    if d.scale <= 0 {
      WholeDisplayPartsValue(d);
    } else {
      FractionDisplayPartsValue(d);
    }
  }

  /** With a scale of 0 or less the plain parts have no fraction and are the magnitude times 10^(-scale). */
  lemma WholeDisplayPartsValue(d: Decimal)
    requires d.intVal != 0 && WellFormed(DisplayParts(d)) && d.scale <= 0
    ensures DisplayParts(d).fractional == [] && MantissaValue(DisplayParts(d)) == d.intVal * Pow10(-d.scale)
  {
    var p := DisplayParts(d);
    PlainPartsValue(d.intVal, d.scale);
    assert Mantissa(p) == p.integral;
  }

  /** With a positive scale the plain parts, with the stripped zeros put back, are the magnitude. */
  lemma FractionDisplayPartsValue(d: Decimal)
    requires Valid(d) && d.intVal != 0 && WellFormed(DisplayParts(d)) && d.scale > 0
    ensures var p := DisplayParts(d);
      |p.fractional| <= d.scale && MantissaValue(p) * Pow10(d.scale - |p.fractional|) == d.intVal &&
      (d.intVal % 10 != 0 ==> |p.fractional| == d.scale)
  {
    var p := DisplayParts(d);
    FractionPartsValue(d.intVal, d.scale, p.integral, p.fractional);
    assert Mantissa(p) == p.integral + p.fractional;
  }

  /** `PlainPartsValue` for a positive scale, on the two parts by name. */
  lemma FractionPartsValue(n: nat, scale: int, whole: seq<u8>, fraction: seq<u8>)
    requires n > 0 && scale > 0 && (whole, fraction) == PlainParts(Digits(n), scale)
    ensures |fraction| <= scale && DigitsValue(whole + fraction) * Pow10(scale - |fraction|) == n
    ensures n % 10 != 0 ==> |fraction| == scale
  {
    PlainPartsValue(n, scale);
  }

  // ---------------------------------------------------------------------
  // Examples from the parser's own test list
  // ---------------------------------------------------------------------

  /** Digits followed by a non-digit are eaten as a whole. */
  lemma EatDigitsOf(d: seq<u8>, r: seq<u8>)
    requires AllDigits(d) && (r == [] || !IsDigit(r[0]))
    ensures EatDigits(d + r) == (d, r)
  {
    LeadingDigitsAppend(d, r);
    assert (d + r)[..|d|] == d;
    assert (d + r)[|d|..] == r;
  }

  /** A text that starts with a non-blank byte has no whitespace to skip. */
  lemma NotBlank(s: seq<u8>)
    requires s != [] && !IsWhitespace(s[0])
    ensures EatWhitespaces(s) == s
  {
    assert s[0..] == s;
  }

  /**
   * A mantissa of at most 38 significant digits whose exponent keeps the
   * scale in bounds is taken as it is.
   */
  lemma AssembleShort(p: Parts)
    requires WellFormed(p) && Significant(p) <= MAX_PRECISION
    requires -MAX_SCALE < p.exp - |p.fractional| + Significant(p) <= -MIN_SCALE
    ensures MantissaValue(p) <= MAX_I128_REPR
    ensures Assemble(p) == Ok(FromPartsUnchecked(MantissaValue(p), |p.fractional| - p.exp, p.sign == Negative))
  {
    var m := Mantissa(p);
    FewAfterZeros(m, LeadingZeros(m));
    assert Dropped(p) == 0;
    DivRoundHalfUpOne(MantissaValue(p));
  }

  /** A non-blank text that does not start with NaN is parsed, and accepted if only whitespace follows. */
  lemma FromTextParses(s: seq<u8>)
    requires s != [] && !IsWhitespace(s[0]) && !ExtractNan(s).0 && |s| <= MAX_INPUT
    ensures FromText(s) == Accepted(Parsed(s))
  {
    NotBlank(s);
  }

  /** "-1e": an exponent mark needs digits after it. */
  lemma EmptyExponentExample()
    ensures FromText(Ascii("-1e")) == Err(Invalid)
  {
    var s: seq<u8> := [45, 49, 101];
    assert Ascii("-1e") == s;
    FromTextParses(s);
    EmptyExponentParsed(s);
  }

  lemma EmptyExponentParsed(s: seq<u8>)
    requires s == [MINUS, 49, 101]
    ensures Parsed(s) == Err(Invalid)
  {
    assert ExtractSign(s) == (Negative, [49, 101]);
    EmptyExponentUnsigned([49, 101]);
  }

  lemma EmptyExponentUnsigned(t: seq<u8>)
    requires t == [49, 101]
    ensures Unsigned(Negative, t) == Err(Invalid)
  {
    EatDigitsOf([49], [101]);
    assert [49] + [101] == t;
    EatDigitsOf([], []);
    assert Exponent([]) == Err(Invalid);
  }

  /** "." decomposes to nothing. */
  lemma LonePointParts()
    ensures Decomposed([46]) == Err(Invalid)
  {
    var s: seq<u8> := [46];
    assert EatDigits(s) == ([], s) by {
      EatDigitsOf([], s);
      assert [] + s == s;
    }
    assert AfterPoint(Positive, [], []) == Err(Invalid) by {
      EatDigitsOf([], []);
    }
    assert Unsigned(Positive, s) == Err(Invalid);
  }

  /** ".": a point needs a digit on one side. */
  lemma LonePointExample()
    ensures FromText(Ascii(".")) == Err(Invalid)
  {
    var s: seq<u8> := [46];
    assert Ascii(".") == s;
    FromTextParses(s);
    LonePointParts();
  }

  /** "-": a sign alone is not a number. */
  lemma LoneSignExample()
    ensures FromText(Ascii("-")) == Err(Invalid)
  {
    var t: seq<u8> := [45];
    assert Ascii("-") == t;
    FromTextParses(t);
    LoneSignParsed(t);
  }

  lemma LoneSignParsed(t: seq<u8>)
    requires t == [MINUS]
    ensures Parsed(t) == Err(Invalid)
  {
    assert ExtractSign(t) == (Negative, []);
  }

  /** "- 1": the digits must follow the sign at once. */
  lemma SpaceAfterSignExample()
    ensures FromText(Ascii("- 1")) == Err(Invalid)
  {
    var u: seq<u8> := [45, 32, 49];
    assert Ascii("- 1") == u;
    FromTextParses(u);
    assert ExtractSign(u) == (Negative, [32, 49]);
    EatDigitsOf([], [32, 49]);
    assert [] + [32, 49] == [32, 49];
  }

  /** "NaN1": NaN is refused whatever follows it. */
  lemma NanExample()
    ensures FromText(Ascii("NaN1")) == Err(Invalid)
  {
    assert Ascii("NaN1") == [78, 97, 78, 49];
    FromTextNan([], [78, 97, 78], [49]);
    assert [] + [78, 97, 78] + [49] == [78, 97, 78, 49];
  }

  /** "" and "   " are Empty. */
  lemma BlankExample()
    ensures FromText(Ascii("")) == Err(Empty)
    ensures FromText(Ascii("   ")) == Err(Empty)
  {
    var none, blank := Ascii(""), Ascii("   ");
    assert AllWhitespace(none);
    assert blank == [32, 32, 32];
    assert AllWhitespace(blank);
    FromTextEmpty(none);
    FromTextEmpty(blank);
  }

  /** The parts of "1e127" overflow: the scale would be -127. */
  lemma OverflowExample()
    ensures Assemble(Parts(Positive, [49], [], 127)) == Err(Overflow)
  {
    var p := Parts(Positive, [49], [], 127);
    assert Significant(p) == 1 by {
      assert Mantissa(p) == [49];
    }
  }

  /** The parts of "1e-131" underflow: the scale would be 131 with one digit. */
  lemma UnderflowExample()
    ensures Assemble(Parts(Positive, [49], [], -131)) == Err(Underflow)
  {
    var p := Parts(Positive, [49], [], -131);
    assert Significant(p) == 1 by {
      assert Mantissa(p) == [49];
    }
  }

  /** The parts of "100E-131" are in range: 100 at scale 131. */
  lemma SmallestScaleExample()
    ensures Assemble(Parts(Positive, [49, 48, 48], [], -131)) == Ok(Decimal(100, 131, false))
  {
    var p := Parts(Positive, [49, 48, 48], [], -131);
    assert Mantissa(p) == [49, 48, 48];
    assert Significant(p) == 3;
    assert MantissaValue(p) == 100 by {
      DigitsValueSingle(49);
      assert [49, 48, 48][..2] == [49, 48];
      assert [49, 48][..1] == [49];
    }
    AssembleShort(p);
  }

  /** The parts of "0000001.23456000e3": 123456 at scale 2. */
  lemma FractionExponentExample()
    ensures Assemble(Parts(Positive, [49], [50, 51, 52, 53, 54], 3)) == Ok(Decimal(123456, 2, false))
  {
    var p := Parts(Positive, [49], [50, 51, 52, 53, 54], 3);
    var m: seq<u8> := [49, 50, 51, 52, 53, 54];
    assert Mantissa(p) == m;
    assert Significant(p) == 6;
    assert MantissaValue(p) == 123456 by {
      DigitsValueSingle(49);
      assert [49, 50][..1] == [49];
      assert DigitsValue([49, 50]) == 12;
      assert [49, 50, 51][..2] == [49, 50];
      assert DigitsValue([49, 50, 51]) == 123;
      assert [49, 50, 51, 52][..3] == [49, 50, 51];
      assert DigitsValue([49, 50, 51, 52]) == 1234;
      assert [49, 50, 51, 52, 53][..4] == [49, 50, 51, 52];
      assert DigitsValue([49, 50, 51, 52, 53]) == 12345;
      assert m[..5] == [49, 50, 51, 52, 53];
    }
    AssembleShort(p);
  }

  /** The parts of "-0.0" make zero, without a sign. */
  lemma NegativeZeroExample()
    ensures Assemble(Parts(Negative, [48], [], 0)) == Ok(ZERO)
  {
    var p := Parts(Negative, [48], [], 0);
    assert Mantissa(p) == [48];
    assert MantissaValue(p) == 0 by {
      DigitsValueSingle(48);
    }
    assert Significant(p) == 0;
    AssembleShort(p);
  }

  // ---------------------------------------------------------------------
  // Round trips from the crate's own tests
  // ---------------------------------------------------------------------

  /** "128.128" is Display's text for 128128 at scale 3, and reads back as it. */
  lemma RoundTripExample(d: Decimal)
    requires d == Decimal(128128, 3, false)
    ensures DisplayText(d, None) == Ascii("128.128")
    ensures FromText(DisplayText(d, None)) == Ok(d)
  {
    assert Ascii("128.128") == [49, 50, 56, 46, 49, 50, 56];
    RoundTripText(d);
    assert NumDigits(128128) == 6;
    DisplayReadsBack(d);
  }

  /** Display's text for 128128 at scale 3: the bytes of "128.128". */
  lemma RoundTripText(d: Decimal)
    requires d == Decimal(128128, 3, false)
    ensures DisplayText(d, None) == [49, 50, 56, 46, 49, 50, 56]
  {
    var digits: seq<u8> := [49, 50, 56, 49, 50, 56];
    assert Digits(128128) == digits by {
      assert Digits(12) == [49, 50];
      assert Digits(1281) == [49, 50, 56, 49];
    }
    var half: seq<u8> := [49, 50, 56];
    assert PlainParts(digits, 3) == (half, half) by {
      assert digits[..3] == half && digits[3..] == half;
      assert TrailingZeros(half) == 0;
      assert half[..3] == half;
    }
    var text: seq<u8> := [49, 50, 56, 46, 49, 50, 56];
    assert SignPrefix(false) + Plain(half, half) == text;
    DisplayIsPlain(d);
  }

  /** "-0.1" is Display's text for -1 at scale 1, and reads back as it. */
  lemma NegativeRoundTripExample(d: Decimal)
    requires d == Decimal(1, 1, true)
    ensures DisplayText(d, None) == Ascii("-0.1")
    ensures FromText(DisplayText(d, None)) == Ok(d)
  {
    assert Ascii("-0.1") == [45, 48, 46, 49];
    NegativeRoundTripText(d);
    assert NumDigits(1) == 1;
    DisplayReadsBack(d);
  }

  /** Display's text for -1 at scale 1: the bytes of "-0.1". */
  lemma NegativeRoundTripText(d: Decimal)
    requires d == Decimal(1, 1, true)
    ensures DisplayText(d, None) == [45, 48, 46, 49]
  {
    DisplayIsPlain(d);
    TenthParts();
    assert SignPrefix(true) + Plain([48], [49]) == [45, 48, 46, 49];
  }

  /** The digits of 1 at scale 1 split as "0" and "1". */
  lemma TenthParts()
    ensures PlainParts(Digits(1), 1) == ([48], [49])
  {
    var one: seq<u8> := [49];
    assert Digits(1) == one;
    assert Zeros(0) + one == one;
    assert Stripped(one) == one by {
      assert TrailingZeros(one) == 0;
      assert one[..1] == one;
    }
  }

  /** The parts of "0000001.23456000e3": leading and trailing zeros stripped, exponent 3. */
  lemma FractionExponentParts(s: seq<u8>)
    requires s == [48, 48, 48, 48, 48, 48, 49, 46, 50, 51, 52, 53, 54, 48, 48, 48, 101, 51]
    ensures Decomposed(s) == Ok((Parts(Positive, [49], [50, 51, 52, 53, 54], 3), []))
  {
    assert ExtractSign(s) == (Positive, s);
    FractionExponentUnsigned(s);
  }

  lemma FractionExponentUnsigned(t: seq<u8>)
    requires t == [48, 48, 48, 48, 48, 48, 49, 46, 50, 51, 52, 53, 54, 48, 48, 48, 101, 51]
    ensures Unsigned(Positive, t) == Ok((Parts(Positive, [49], [50, 51, 52, 53, 54], 3), []))
  {
    var integral: seq<u8> := [48, 48, 48, 48, 48, 48, 49];
    var afterPoint: seq<u8> := [50, 51, 52, 53, 54, 48, 48, 48, 101, 51];
    var u := [POINT] + afterPoint;
    assert EatDigits(t) == (integral, u) by {
      EatDigitsOf(integral, u);
      assert integral + u == t;
    }
    assert u[0] == POINT && !IsExponentMark(u[0]) && u[1..] == afterPoint;
    assert Unsigned(Positive, t) == AfterPoint(Positive, integral, afterPoint);
    FractionExponentAfterPoint(integral, afterPoint);
  }

  lemma FractionExponentAfterPoint(integral: seq<u8>, afterPoint: seq<u8>)
    requires integral == [48, 48, 48, 48, 48, 48, 49]
    requires afterPoint == [50, 51, 52, 53, 54, 48, 48, 48, 101, 51]
    ensures AfterPoint(Positive, integral, afterPoint) == Ok((Parts(Positive, [49], [50, 51, 52, 53, 54], 3), []))
  {
    var digits: seq<u8> := [50, 51, 52, 53, 54, 48, 48, 48];
    var kept: seq<u8> := [50, 51, 52, 53, 54];
    assert EatDigits(afterPoint) == (digits, [101, 51]) by {
      EatDigitsOf(digits, [101, 51]);
      assert digits + [101, 51] == afterPoint;
    }
    FractionExponentTrims(integral, digits);
    FractionExponentClosing(kept);
  }

  lemma FractionExponentClosing(kept: seq<u8>)
    requires kept == [50, 51, 52, 53, 54]
    ensures Closing(Positive, [49], kept, [101, 51]) == Ok((Parts(Positive, [49], kept, 3), []))
  {
    assert [101, 51][1..] == [51];
    EatDigitsOf([51], []);
    assert [51] + [] == [51];
    DigitsValueSingle(51);
  }

  lemma FractionExponentTrims(integral: seq<u8>, digits: seq<u8>)
    requires integral == [48, 48, 48, 48, 48, 48, 49]
    requires digits == [50, 51, 52, 53, 54, 48, 48, 48]
    ensures TrimLeadingZeros(integral) == [49]
    ensures TrimTrailingZeros(digits) == [50, 51, 52, 53, 54]
  {
    assert integral == Zeros(6) + [49];
    TrimLeadingZerosOf(6, [49]);
    assert digits == [50, 51, 52, 53, 54] + Zeros(3);
    TrimTrailingZerosOf([50, 51, 52, 53, 54], 3);
  }

  /**
   * "0000001.23456000e3" reads as 123456 at scale 2, whose Display text is
   * "1234.56" (the bytes 49 50 51 52 46 53 54).
   */
  lemma FractionExponentTextExample(d: Decimal)
    requires d == Decimal(123456, 2, false)
    ensures FromText(Ascii("0000001.23456000e3")) == Ok(d)
    ensures DisplayText(d, None) == [49, 50, 51, 52, 46, 53, 54]
  {
    FractionExponentRead();
    FractionExponentDisplay(d);
  }

  lemma FractionExponentRead()
    ensures FromText(Ascii("0000001.23456000e3")) == Ok(Decimal(123456, 2, false))
  {
    var s: seq<u8> := [48, 48, 48, 48, 48, 48, 49, 46, 50, 51, 52, 53, 54, 48, 48, 48, 101, 51];
    assert Ascii("0000001.23456000e3") == s;
    FromTextParses(s);
    FractionExponentParts(s);
    FractionExponentExample();
    DecomposedWellFormed(s);
    assert Parsed(s) == Ok((Decimal(123456, 2, false), []));
  }

  lemma FractionExponentDisplay(d: Decimal)
    requires d == Decimal(123456, 2, false)
    ensures DisplayText(d, None) == [49, 50, 51, 52, 46, 53, 54]
  {
    var digits: seq<u8> := [49, 50, 51, 52, 53, 54];
    assert Digits(123456) == digits by {
      assert Digits(12) == [49, 50];
      assert Digits(1234) == [49, 50, 51, 52];
    }
    var tail: seq<u8> := [53, 54];
    assert PlainParts(digits, 2) == ([49, 50, 51, 52], tail) by {
      assert digits[..4] == [49, 50, 51, 52] && digits[4..] == tail;
      assert TrailingZeros(tail) == 0;
      assert tail[..2] == tail;
    }
    var text: seq<u8> := [49, 50, 51, 52, 46, 53, 54];
    assert SignPrefix(false) + Plain([49, 50, 51, 52], tail) == text;
    DisplayIsPlain(d);
  }
}
