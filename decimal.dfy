/**
 * The decimal value type (src/decimal.rs): a 128-bit magnitude, a signed
 * scale and a sign bit, denoting (-1)^negative * int_val * 10^(-scale);
 * its construction with a canonical zero, precision, absolute value, the
 * rounding primitives (trunc, round, round_with_precision, normalize) and
 * the total order.
 */
module Decimals {
  import opened Std
  import opened Wide
  import opened Errors

  /** Largest scale a decimal is constructed with (MAX_SCALE). */
  const MAX_SCALE: int := 130
  /** Smallest scale a decimal is constructed with (MIN_SCALE). */
  const MIN_SCALE: int := -126
  /** The largest magnitude a decimal holds, 10^38 - 1 (MAX_I128_REPR). */
  const MAX_I128_REPR: int := 99999999999999999999999999999999999999

  /** A decimal: `intVal * 10^(-scale)`, negated when `negative` is set. */
  datatype Decimal = Decimal(intVal: u128, scale: i16, negative: bool)

  /** 0. */
  const ZERO: Decimal := Decimal(0, 0, false)
  /** 1. */
  const ONE: Decimal := Decimal(1, 0, false)

  /**
   * The representation invariant every operation relies on: at most 38
   * digits, a scale whose magnitude fits the codec's scale byte, and a
   * single, positive zero.
   */
  predicate Valid(d: Decimal)
  {
    d.intVal <= MAX_I128_REPR && -255 <= d.scale <= 255 && (d.intVal == 0 ==> d == ZERO)
  }

  lemma MaxReprIsPow10()
    ensures MAX_I128_REPR == Pow10(MAX_PRECISION) - 1
    ensures Pow10(MAX_PRECISION) < TWO_128
  {
    Pow10Literals30();
    Pow10Fits128();
  }

  // ---------------------------------------------------------------------
  // The numeric meaning of a decimal
  // ---------------------------------------------------------------------

  /** The magnitude with its sign applied. */
  function Signed(d: Decimal): int
  {
    if d.negative then -(d.intVal as int) else d.intVal as int
  }

  /**
   * The decimal written at a scale `s` at least as fine as its own: the
   * integer n such that the decimal denotes n * 10^(-s).
   */
  function AtScale(d: Decimal, s: int): int
    requires s >= d.scale
  {
    Signed(d) * Pow10(s - d.scale)
  }

  function Max(a: int, b: int): int
  {
    if a >= b then a else b
  }

  /** The numeric order of the values two decimals denote, both written at the finer scale. */
  function CompareValues(a: Decimal, b: Decimal): Ordering
  {
    var s := Max(a.scale, b.scale);
    CompareInt(AtScale(a, s), AtScale(b, s))
  }

  /** The two decimals denote the same number. */
  predicate SameValue(a: Decimal, b: Decimal)
  {
    CompareValues(a, b) == Equal
  }

  lemma MulAssoc(x: int, y: int, z: int)
    ensures x * (y * z) == (x * y) * z
  {
  }

  /** Writing a decimal k places finer multiplies it by 10^k. */
  lemma AtScaleRefine(d: Decimal, s: int, k: nat)
    requires s >= d.scale
    ensures AtScale(d, s + k) == AtScale(d, s) * Pow10(k)
  {
    Pow10Add(s - d.scale, k);
    MulAssoc(Signed(d), Pow10(s - d.scale), Pow10(k));
  }

  lemma MulCompare(x: int, y: int, p: int)
    requires p >= 1
    ensures x < y <==> x * p < y * p
    ensures x == y <==> x * p == y * p
  {
    if x < y {
      assert y * p - x * p == (y - x) * p;
    } else if y < x {
      assert x * p - y * p == (x - y) * p;
    }
  }

  /** Scaling a magnitude up by 10^e adds e digits. */
  lemma NumDigitsShift(x: nat, e: nat)
    requires x >= 1
    ensures NumDigits(x * Pow10(e)) == NumDigits(x) + e
  {
    var k := NumDigits(x);
    var p := Pow10(e);
    NumDigitsBounds(x);
    ScaledBetween(x, p, Pow10(k - 1), Pow10(k));
    Pow10Add(k - 1, e);
    Pow10Add(k, e);
    assert k - 1 + e == k + e - 1;
    NumDigitsUnique(x * p, k + e);
  }

  /** Scaling by a positive factor keeps a number between the scaled bounds. */
  lemma ScaledBetween(x: int, p: int, lo: int, hi: int)
    requires p >= 1 && lo <= x < hi
    ensures lo * p <= x * p < hi * p
  {
    MulCompare(lo, x, p);
    MulCompare(x, hi, p);
  }

  /** Any common scale gives the same comparison. */
  lemma CompareAtAnyScale(a: Decimal, b: Decimal, s: int)
    requires s >= a.scale && s >= b.scale
    ensures CompareInt(AtScale(a, s), AtScale(b, s)) == CompareValues(a, b)
  {
    var m := Max(a.scale, b.scale);
    var k: nat := s - m;
    AtScaleRefine(a, m, k);
    AtScaleRefine(b, m, k);
    MulCompare(AtScale(a, m), AtScale(b, m), Pow10(k));
  }

  lemma ProductSign(x: int, p: int)
    requires p >= 1
    ensures x == 0 <==> x * p == 0
    ensures x < 0 <==> x * p < 0
    ensures x >= 1 ==> x * p >= p
    ensures x <= -1 ==> x * p <= -p
  {
    if x >= 1 {
      assert x * p == p + (x - 1) * p;
    } else if x <= -1 {
      assert x * p == -p - (-x - 1) * p;
    }
  }

  /** The sign of a decimal's value is its sign bit, unless the magnitude is zero. */
  lemma AtScaleSign(d: Decimal, s: int)
    requires s >= d.scale
    ensures AtScale(d, s) == 0 <==> d.intVal == 0
    ensures AtScale(d, s) < 0 <==> d.negative && d.intVal != 0
    ensures d.intVal != 0 ==> AtScale(d, s) >= Pow10(s - d.scale) || AtScale(d, s) <= -(Pow10(s - d.scale) as int)
  {
    ProductSign(Signed(d), Pow10(s - d.scale));
  }

  /** Two decimals written at a common scale compare as the magnitudes they denote there. */
  lemma SameValueSymmetric(a: Decimal, b: Decimal)
    requires SameValue(a, b)
    ensures SameValue(b, a)
  {
  }

  /** Equality of value is transitive. */
  lemma SameValueTransitive(a: Decimal, b: Decimal, c: Decimal)
    requires SameValue(a, b) && SameValue(b, c)
    ensures SameValue(a, c)
  {
    var s := Max(a.scale, Max(b.scale, c.scale));
    CompareAtAnyScale(a, b, s);
    CompareAtAnyScale(b, c, s);
    CompareAtAnyScale(a, c, s);
  }

  // ---------------------------------------------------------------------
  // Construction
  // ---------------------------------------------------------------------

  /**
   * `from_parts_unchecked`: the parts as given, except that a zero
   * magnitude always becomes the canonical ZERO.
   */
  function FromPartsUnchecked(intVal: u128, scale: i16, negative: bool): (r: Decimal)
    ensures r.intVal == intVal
    ensures r.intVal == 0 ==> r == ZERO
    ensures r.intVal != 0 ==> r.scale == scale && r.negative == negative
    ensures intVal <= MAX_I128_REPR && -255 <= scale <= 255 ==> Valid(r)
  {
    if intVal != 0 then Decimal(intVal, scale, negative) else ZERO
  }

  /** Replacing a zero magnitude by ZERO does not change the value. */
  lemma FromPartsUncheckedSameValue(intVal: u128, scale: i16, negative: bool)
    ensures SameValue(FromPartsUnchecked(intVal, scale, negative), Decimal(intVal, scale, negative))
  {
    var s := Max(0, scale);
    AtScaleSign(ZERO, s);
    AtScaleSign(Decimal(intVal, scale, negative), s);
  }

  /**
   * `from_parts`: Overflow exactly when the magnitude has more than 38
   * digits or the scale is outside [-126, 130]; otherwise a valid decimal
   * with that magnitude and value.
   */
  function FromParts(intVal: u128, scale: i16, negative: bool): (r: Result<Decimal, ConvertError>)
    ensures r.Err? <==> intVal > MAX_I128_REPR || scale > MAX_SCALE || scale < MIN_SCALE
    ensures r.Err? ==> r.error == ConvertOverflow
    ensures r.Ok? ==> Valid(r.value) && r.value.intVal == intVal
    ensures r.Ok? ==> SameValue(r.value, Decimal(intVal, scale, negative))
    ensures r.Ok? && intVal == 0 ==> r.value == ZERO
  {
    FromPartsUncheckedSameValue(intVal, scale, negative);
    if intVal > MAX_I128_REPR then Err(ConvertOverflow)
    else if scale > MAX_SCALE || scale < MIN_SCALE then Err(ConvertOverflow)
    else Ok(FromPartsUnchecked(intVal, scale, negative))
  }

  /** `precision`: the number of significant digits of the magnitude. */
  function Precision(d: Decimal): (r: u8)
    ensures r == NumDigits(d.intVal)
    ensures d.intVal <= MAX_I128_REPR ==> 1 <= r <= MAX_PRECISION
  {
    // count_digits of the magnitude, which below 10^77 is the digit count
    // (MagnitudeDigits); written as the count itself so that callers do not
    // unfold the table search.
    MagnitudeDigits(d.intVal);
    NumDigits(d.intVal) as u8
  }

  lemma MagnitudeDigits(n: u128)
    ensures CountDigits(n) == NumDigits(n) <= 39
    ensures n <= MAX_I128_REPR ==> NumDigits(n) <= MAX_PRECISION
  {
    Pow10Fits128();
    Pow10Monotone(39, 77);
    CountDigitsCorrect(n);
    NumDigitsBelow(n, 39);
    MaxReprIsPow10();
    NumDigitsBelow(n, MAX_PRECISION);
  }

  /** A magnitude of at most 10^38 - 1 has at most 38 digits. */
  lemma MagnitudeFits(n: nat)
    requires n <= MAX_I128_REPR
    ensures NumDigits(n) <= MAX_PRECISION
  {
    MaxReprIsPow10();
    NumDigitsBelow(n, MAX_PRECISION);
  }

  /** `abs`: the same magnitude and scale with the sign bit cleared. */
  function Abs(d: Decimal): (r: Decimal)
    ensures r.scale == d.scale && r.intVal == d.intVal && !r.negative
    ensures AtScale(r, d.scale) == if AtScale(d, d.scale) < 0 then -AtScale(d, d.scale) else AtScale(d, d.scale)
    ensures Valid(d) ==> Valid(r)
  {
    Decimal(d.intVal, d.scale, false)
  }

  // ---------------------------------------------------------------------
  // Truncation and rounding to a scale
  // ---------------------------------------------------------------------

  /** The requested scale limited to [MIN_SCALE, MAX_SCALE]. */
  function ClampScale(scale: i16): (r: i16)
    ensures MIN_SCALE <= r <= MAX_SCALE
    ensures MIN_SCALE <= scale <= MAX_SCALE ==> r == scale
    ensures scale < MIN_SCALE ==> r == MIN_SCALE
    ensures scale > MAX_SCALE ==> r == MAX_SCALE
  {
    if scale < MIN_SCALE then MIN_SCALE as i16
    else if scale > MAX_SCALE then MAX_SCALE as i16
    else scale
  }

  /** A u128 magnitude is below 10^39, and twice it still is. */
  lemma MagnitudeBelowPow10(n: u128, e: nat)
    requires e > MAX_PRECISION
    ensures 2 * n < Pow10(e)
  {
    Pow10Fits128();
    Pow10Literals30();
    Pow10Monotone(39, e);
  }

  /** The magnitude divided by `POWERS_10[e].low()`, that is by 10^e. */
  function DivPow10(n: u128, e: nat): (q: u128)
    requires e <= MAX_PRECISION
    ensures IsQuotient(q, n, Pow10(e))
    ensures q <= n
  {
    var p := PowerLow(e);
    QuotientBounds(n, p);
    n / p
  }

  /**
   * `trunc`: a zero stays ZERO; a decimal already at or above the
   * (clamped) target scale is returned as is; otherwise the dropped digits
   * are cut off the magnitude toward zero, keeping the sign.
   */
  function Trunc(d: Decimal, scale: i16): (r: Decimal)
    ensures d.intVal == 0 ==> r == ZERO
    ensures d.intVal != 0 && d.scale <= ClampScale(scale) ==> r == d
    ensures d.intVal != 0 && d.scale > ClampScale(scale) ==>
      IsQuotient(r.intVal, d.intVal, Pow10(d.scale - ClampScale(scale))) &&
      (r.intVal == 0 ==> r == ZERO) &&
      (r.intVal != 0 ==> r.scale == ClampScale(scale) && r.negative == d.negative)
    ensures Valid(d) ==> Valid(r)
  {
    if d.intVal == 0 then ZERO
    else
      var rs := ClampScale(scale);
      if d.scale <= rs then d
      else
        var e := d.scale - rs;
        if e > MAX_PRECISION then
          MagnitudeBelowPow10(d.intVal, e);
          assert IsQuotient(0, d.intVal, Pow10(e));
          ZERO
        else
          FromPartsUnchecked(DivPow10(d.intVal, e), rs, d.negative)
  }

  /** `q` is `n` divided by `p`, rounded toward zero. */
  predicate IsQuotient(q: nat, n: nat, p: nat)
  {
    q * p <= n < (q + 1) * p
  }

  lemma QuotientBounds(n: nat, p: nat)
    requires p > 0
    ensures IsQuotient(n / p, n, p)
    ensures 0 <= n / p <= n
  {
    DivLe(n, n * p, p);
    DivModUnique(n * p, p, n, 0);
    assert (n / p + 1) * p == (n / p) * p + p;
  }

  /**
   * What `round` needs of its input: adding the half-unit to the magnitude
   * must not overflow u128 (the source panics otherwise).
   */
  predicate RoundAddFits(d: Decimal, scale: i16)
  {
    var rs := ClampScale(scale);
    d.intVal == 0 || d.scale <= rs || d.scale - rs > MAX_PRECISION
      || d.intVal + 5 * Pow10(d.scale - rs - 1) < TWO_128
  }

  /**
   * `round`: like `trunc`, but the magnitude is divided half-up, so the
   * result is the nearest multiple of the coarser unit, ties away from zero.
   */
  function Round(d: Decimal, scale: i16): (r: Decimal)
    requires RoundAddFits(d, scale)
    ensures d.intVal == 0 ==> r == ZERO
    ensures d.intVal != 0 && d.scale <= ClampScale(scale) ==> r == d
    ensures d.intVal != 0 && d.scale > ClampScale(scale) ==>
      r.intVal == DivRoundHalfUp(d.intVal, Pow10(d.scale - ClampScale(scale))) &&
      (r.intVal == 0 ==> r == ZERO) &&
      (r.intVal != 0 ==> r.scale == ClampScale(scale) && r.negative == d.negative)
    ensures Valid(d) ==> Valid(r)
  {
    if d.intVal == 0 then ZERO
    else
      var rs := ClampScale(scale);
      if d.scale <= rs then d
      else
        var e := d.scale - rs;
        if e > MAX_PRECISION then
          RoundsToZero(d.intVal, e);
          ZERO
        else
          FromPartsUnchecked(AddHalfDivPow10(d.intVal, e), rs, d.negative)
  }

  /** Beyond 38 places every u128 magnitude rounds half-up to 0. */
  lemma RoundsToZero(n: u128, e: nat)
    requires e > MAX_PRECISION
    ensures DivRoundHalfUp(n, Pow10(e)) == 0
  {
    MagnitudeBelowPow10(n, e);
    DivModUnique(n, Pow10(e), 0, n);
  }

  /**
   * `(n + ROUNDINGS[e].low()) / POWERS_10[e].low()`: adding the half-unit
   * and truncating is half-up division by 10^e.
   */
  function AddHalfDivPow10(n: u128, e: nat): (q: u128)
    requires 1 <= e <= MAX_PRECISION
    requires n + 5 * Pow10(e - 1) < TWO_128
    ensures q == DivRoundHalfUp(n, Pow10(e))
    ensures q <= n
  {
    var p := PowerLow(e);
    AddHalfThenDivide(n, e);
    Pow10Monotone(1, e);
    RoundedNotLarger(n, p);
    (n + RoundingLow(e)) / p
  }

  /** Rounding half-up by a divisor of at least 2 never increases a positive magnitude. */
  lemma RoundedNotLarger(n: nat, p: nat)
    requires p >= 2
    ensures DivRoundHalfUp(n, p) <= n
  {
    DivRoundHalfUpNearest(n, p);
    var q := DivRoundHalfUp(n, p);
    if q > n {
      MulLe(2, p, 2 * q - 1);
      assert false;
    }
  }

  // ---------------------------------------------------------------------
  // Rounding to a precision and a scale
  // ---------------------------------------------------------------------

  /**
   * The magnitude of `d` written at `scale`: exact when `scale` is finer
   * than the decimal's own, divided half-up when it is coarser.
   */
  function Rescaled(d: Decimal, scale: int): nat
  {
    if scale >= d.scale then d.intVal * Pow10(scale - d.scale)
    else DivRoundHalfUp(d.intVal, Pow10(d.scale - scale))
  }

  /**
   * `U256::from(n).div128_round(POWERS_10[k].low())` as round_with_precision
   * writes it: correct up to k = 38, but from k = 39 on the low word of the
   * table entry is not 10^k.
   */
  function DivRoundByTableLowAsWritten(n: u128, k: nat): (q: U256)
    requires 1 <= k <= 76
    ensures k <= MAX_PRECISION ==> q == DivRoundHalfUp(n, Pow10(k))
  {
    Div128Round(n, TableLow(k))
  }

  /**
   * The same step done right for every k >= 1: a u128 magnitude is below
   * half of 10^39, so beyond 38 places it rounds to 0.
   */
  function DivRoundByPow10(n: u128, k: nat): (q: u128)
    requires k >= 1
    ensures q == DivRoundHalfUp(n, Pow10(k))
  {
    if k > MAX_PRECISION then
      RoundsToZero(n, k);
      0
    else
      var p := PowerLow(k);
      Pow10Monotone(1, k);
      RoundedNotLarger(n, p);
      Div128Round(n, p)
  }

  /**
   * At 40 places the table's low word is about 1.3 * 10^38, so 10^38 - 1
   * rounds to 1 instead of 0: round_with_precision(38, -40) turns
   * 99999999999999999999999999999999999999 into 1e40.
   */
  lemma DivRoundByTableLowCounterexample()
    ensures DivRoundByTableLowAsWritten(MAX_I128_REPR, 40) == 1
    ensures DivRoundByPow10(MAX_I128_REPR, 40) == 0
  {
    TablesExact(40);
    Pow10Literals30();
    Pow10Literals40();
  }

  lemma ScaleUpBound(n: nat, a: nat, b: nat)
    ensures n >= Pow10(a) <==> n * Pow10(b) >= Pow10(a + b)
  {
    Pow10Add(a, b);
    if n >= Pow10(a) {
      MulLe(Pow10(a), n, Pow10(b));
    } else {
      MulLe(n + 1, Pow10(a), Pow10(b));
    }
  }

  /** At a finer scale, the magnitude reaches 10^precision exactly when the original reaches the correspondingly smaller power. */
  lemma RescaledUpBound(d: Decimal, scale: int, precision: nat)
    requires 0 <= scale - d.scale <= precision
    ensures d.intVal >= Pow10(precision - (scale - d.scale)) <==> Rescaled(d, scale) >= Pow10(precision)
  {
    var e := scale - d.scale;
    ScaleUpBound(d.intVal, precision - e, e);
    assert precision - e + e == precision;
  }

  /** A value below 10^k, for k <= 38, is its own low word. */
  lemma FitsLowWord(n: U256, k: nat)
    requires k <= MAX_PRECISION && n < Pow10(k)
    ensures n < TWO_128 && Low(n) == n
  {
    Pow10Fits128();
    Pow10Monotone(k, MAX_PRECISION);
    Words(n);
  }

  /** Writing a decimal at a finer scale keeps its value. */
  lemma RescaledUpSameValue(d: Decimal, scale: i16)
    requires scale >= d.scale
    requires Rescaled(d, scale) < TWO_128
    ensures SameValue(Decimal(Rescaled(d, scale), scale, d.negative), d)
  {
    ScaledUpSameValue(d, Rescaled(d, scale), scale);
  }

  /**
   * The number of digits rounding may keep: the requested precision, but
   * never more than the 38 digits a decimal holds.
   */
  function Capped(precision: nat): nat
  {
    if precision <= MAX_PRECISION then precision else MAX_PRECISION
  }

  /** Reaching 10^Capped(precision) is needing more than `precision` digits or more than a decimal holds. */
  lemma CappedCeiling(n: nat, precision: nat)
    ensures Capped(precision) <= MAX_PRECISION
    ensures n >= Pow10(Capped(precision)) <==> n >= Pow10(precision) || n > MAX_I128_REPR
  {
    Pow10Literals30();
    if precision <= MAX_PRECISION {
      Pow10Monotone(precision, MAX_PRECISION);
    } else {
      Pow10Monotone(MAX_PRECISION, precision);
    }
  }

  /**
   * What `round_with_precision` promises: a zero never overflows; overflow
   * is reported exactly when the magnitude at the target scale (rounded
   * half-up when the scale is coarser) needs more than `precision` digits
   * or more than a decimal holds; otherwise the result is that magnitude at
   * the target scale, of the same value when no rounding was needed. On
   * overflow the scale is kept, but when rounding was needed the magnitude
   * has already been replaced.
   */
  predicate RoundedWithPrecision(d: Decimal, precision: nat, scale: int, overflow: bool, r: Decimal)
  {
    (d.intVal == 0 ==> !overflow && r == d) &&
    (d.intVal != 0 ==>
      (overflow <==> Rescaled(d, scale) >= Pow10(precision) || Rescaled(d, scale) > MAX_I128_REPR)) &&
    (d.intVal != 0 && !overflow ==>
      r.intVal == Rescaled(d, scale) && r.scale == scale && r.negative == d.negative) &&
    (d.intVal != 0 && overflow ==>
      r.scale == d.scale && r.negative == d.negative &&
      r.intVal == if scale < d.scale then Rescaled(d, scale) else d.intVal) &&
    (d.intVal != 0 && !overflow && scale >= d.scale ==> SameValue(r, d)) &&
    (!overflow ==> (r.intVal < Pow10(precision) && r.intVal <= MAX_I128_REPR) || d.intVal == 0)
  }

  /**
   * The outcome of `round_with_precision`, stated on values: the overflow
   * flag and the decimal left behind, for every precision.
   */
  function RoundOutcome(d: Decimal, precision: nat, scale: i16): (bool, Decimal)
  {
    var ceiling := Pow10(Capped(precision));
    if d.intVal == 0 then (false, d)
    else if Rescaled(d, scale) >= ceiling then
      if scale < d.scale then
        RoundedNotLarger(d.intVal, Pow10(d.scale - scale));
        (true, d.(intVal := Rescaled(d, scale)))
      else (true, d)
    else
      Pow10Fits128();
      Pow10Monotone(Capped(precision), MAX_PRECISION);
      (false, Decimal(Rescaled(d, scale), scale, d.negative))
  }

  /** The outcome keeps every promise of `round_with_precision`. */
  lemma RoundOutcomeKeepsPromises(d: Decimal, precision: nat, scale: i16)
    ensures var (overflow, r) := RoundOutcome(d, precision, scale);
      RoundedWithPrecision(d, precision, scale, overflow, r)
  {
    var (overflow, r) := RoundOutcome(d, precision, scale);
    CappedCeiling(Rescaled(d, scale), precision);
    if d.intVal != 0 && !overflow {
      CappedCeiling(r.intVal, precision);
      if scale >= d.scale {
        RescaledUpSameValue(d, scale);
      }
    }
  }

  /** Shifting a nonzero magnitude up by at least as many places as digits may be kept overflows. */
  lemma FarShiftOverflows(d: Decimal, scale: i16, precision: nat)
    requires d.intVal != 0 && scale - d.scale >= Capped(precision)
    ensures RoundOutcome(d, precision, scale) == (true, d)
  {
    var e := scale - d.scale;
    MulLe(1, d.intVal, Pow10(e));
    Pow10Monotone(Capped(precision), e);
  }

  /** A finer scale within reach overflows exactly when the magnitude reaches the ceiling. */
  lemma NearShiftOverflows(d: Decimal, scale: i16, digits: nat)
    requires digits <= MAX_PRECISION
    requires d.intVal != 0 && 0 <= scale - d.scale < digits
    requires d.intVal >= Pow10(digits - (scale - d.scale))
    ensures RoundOutcome(d, digits, scale) == (true, d)
  {
    RescaledUpBound(d, scale, digits);
  }

  /** Below the ceiling, the magnitude at a finer scale within reach stays below 10^digits. */
  lemma NearShiftBound(d: Decimal, scale: int, digits: nat)
    requires 0 <= scale - d.scale < digits <= MAX_PRECISION
    requires d.intVal < Pow10(digits - (scale - d.scale))
    ensures Rescaled(d, scale) < Pow10(digits) && Rescaled(d, scale) < TWO_128
  {
    RescaledUpBound(d, scale, digits);
    Pow10Fits128();
    Pow10Monotone(digits, MAX_PRECISION);
  }

  /** Below the ceiling, a finer scale within reach is written out exactly. */
  lemma NearShiftFits(d: Decimal, scale: i16, digits: nat, r: Decimal)
    requires d.intVal != 0 && 0 <= scale - d.scale < digits <= MAX_PRECISION
    requires d.intVal < Pow10(digits - (scale - d.scale))
    requires r.intVal == Rescaled(d, scale) && r.scale == scale && r.negative == d.negative
    ensures RoundOutcome(d, digits, scale) == (false, r)
  {
    NearShiftBound(d, scale, digits);
  }

  /** At its own scale a magnitude below 10^digits is kept as it is. */
  lemma UnshiftedFits(d: Decimal, scale: i16, digits: nat)
    requires d.intVal != 0 && scale == d.scale && 0 < digits <= MAX_PRECISION
    requires d.intVal < Pow10(digits)
    ensures RoundOutcome(d, digits, scale) == (false, d)
  {
    MagnitudeAtOwnScale(d);
    NearShiftFits(d, scale, digits, d);
  }

  /** Below the ceiling, the widened product is the magnitude at the finer scale, and fits its low word. */
  lemma ShiftedUpFits(d: Decimal, scale: int, digits: nat, val: U256)
    requires 0 < scale - d.scale < digits <= MAX_PRECISION
    requires d.intVal < Pow10(digits - (scale - d.scale))
    requires val == Mul128(d.intVal, PowerLow(scale - d.scale))
    ensures val < TWO_128 && Low(val) == Rescaled(d, scale)
  {
    NearShiftBound(d, scale, digits);
    assert val == Rescaled(d, scale);
    FitsLowWord(val, digits);
  }

  /** A coarser scale rounds; the rounded magnitude overflows when it reaches the ceiling. */
  lemma CoarserRounds(d: Decimal, scale: i16, digits: nat, r: Decimal, overflow: bool)
    requires digits <= MAX_PRECISION
    requires d.intVal != 0 && scale < d.scale
    requires r.intVal == Rescaled(d, scale) && r.negative == d.negative
    requires r.scale == if overflow then d.scale else scale
    requires overflow <==> r.intVal >= Pow10(digits)
    ensures RoundOutcome(d, digits, scale) == (overflow, r)
  {
  }

  /** Rounding with a precision is rounding with the digits it lets a decimal keep. */
  lemma RoundOutcomeCapped(d: Decimal, precision: nat, scale: i16)
    ensures RoundOutcome(d, precision, scale) == RoundOutcome(d, Capped(precision), scale)
  {
  }

  /**
   * `round_with_precision` on a copy of `d`, for every precision: its
   * outcome is `RoundOutcome`, which keeps the promises
   * `RoundedWithPrecision` states.
   */
  method RoundWithPrecision(d: Decimal, precision: u8, scale: i16) returns (overflow: bool, r: Decimal)
    requires -0x8000 < scale - d.scale < 0x8000
    ensures (overflow, r) == RoundOutcome(d, precision as nat, scale)
  {
    r := d;
    if d.intVal == 0 {
      return false, r;
    }
    var e := scale - d.scale;
    if e >= Capped(precision as nat) {
      FarShiftOverflows(d, scale, precision as nat);
      return true, r;
    }
    if e >= 0 {
      overflow, r := RoundFiner(d, precision, scale);
    } else {
      overflow, r := RoundCoarser(d, precision, scale);
    }
  }

  /** The `e >= 0` arm of `round_with_precision`: a finer scale within the digits that may be kept. */
  method RoundFiner(d: Decimal, precision: u8, scale: i16) returns (overflow: bool, r: Decimal)
    requires d.intVal != 0 && 0 <= scale - d.scale < Capped(precision as nat)
    ensures (overflow, r) == RoundOutcome(d, precision as nat, scale)
  {
    r := d;
    var digits := Capped(precision as nat);
    var e := scale - d.scale;
    var ceil := PowerLow(digits - e);
    if d.intVal >= ceil {
      NearShiftOverflows(d, scale, digits);
      RoundOutcomeCapped(d, precision as nat, scale);
      return true, r;
    }
    if e == 0 {
      UnshiftedFits(d, scale, digits);
      RoundOutcomeCapped(d, precision as nat, scale);
      return false, r;
    }
    r := ShiftUp(d, precision, scale);
    return false, r;
  }

  /** Below the ceiling and at a strictly finer scale: the magnitude times 10^e, in the low word. */
  method ShiftUp(d: Decimal, precision: u8, scale: i16) returns (r: Decimal)
    requires d.intVal != 0 && 0 < scale - d.scale < Capped(precision as nat)
    requires d.intVal < Pow10(Capped(precision as nat) - (scale - d.scale))
    ensures RoundOutcome(d, precision as nat, scale) == (false, r)
  {
    var digits := Capped(precision as nat);
    RoundOutcomeCapped(d, precision as nat, scale);
    var val := Mul128(d.intVal, PowerLow(scale - d.scale));
    ShiftedUpFits(d, scale, digits, val);
    r := d.(intVal := Low(val), scale := scale);
    NearShiftFits(d, scale, digits, r);
  }

  /** The `e < 0` arm of `round_with_precision`: a coarser scale, rounded half up. */
  method RoundCoarser(d: Decimal, precision: u8, scale: i16) returns (overflow: bool, r: Decimal)
    requires d.intVal != 0 && scale < d.scale
    ensures (overflow, r) == RoundOutcome(d, precision as nat, scale)
  {
    r := d;
    var digits := Capped(precision as nat);
    RoundOutcomeCapped(d, precision as nat, scale);
    var divResult := DivRoundByPow10(d.intVal, d.scale - scale);
    assert divResult == Rescaled(d, scale);
    var ceil := PowerLow(digits);
    r := r.(intVal := divResult);
    if r.intVal >= ceil {
      CoarserRounds(d, scale, digits, r, true);
      return true, r;
    }
    r := r.(scale := scale);
    CoarserRounds(d, scale, digits, r, false);
    return false, r;
  }

  // ---------------------------------------------------------------------
  // Normal form
  // ---------------------------------------------------------------------

  /**
   * The shape `normalize` produces: a canonical zero; no trailing zero
   * digit while the scale is positive; a negative scale only once the
   * magnitude has reached 38 digits.
   */
  predicate NormalForm(d: Decimal)
  {
    (d.intVal == 0 ==> d == ZERO)
    && (d.scale > 0 ==> d.intVal % 10 != 0)
    && (d.scale < 0 ==> d.intVal >= Pow10(MAX_PRECISION - 1))
  }

  /**
   * `normalize`: moves the scale toward zero, stripping trailing zeros of a
   * positive scale and multiplying out a negative one while the magnitude
   * stays below 10^37, without changing the value.
   */
  method Normalize(d: Decimal) returns (r: Decimal)
    ensures SameValue(r, d)
    ensures NormalForm(r)
    ensures d.intVal == 0 ==> r == ZERO
    ensures d.intVal != 0 ==> r.negative == d.negative
    ensures d.intVal != 0 && d.scale == 0 ==> r == d
    ensures 0 <= r.scale <= d.scale || d.scale <= r.scale <= 0
    ensures d.intVal <= MAX_I128_REPR ==> r.intVal <= MAX_I128_REPR
  {
    if d.intVal == 0 {
      r := FromPartsUnchecked(0, 0, false);
      AtScaleSign(d, Max(d.scale, 0));
      AtScaleSign(r, Max(d.scale, 0));
      return;
    }
    if d.scale == 0 {
      return d;
    }
    var intVal, scale := StripTrailingZeros(d.intVal, d.scale);
    ghost var midVal, mid := intVal, scale;
    intVal, scale := RaiseNegativeScale(intVal, scale);
    NormalizeOutcome(d, midVal, mid, intVal, scale);
    r := FromPartsUnchecked(intVal, scale, d.negative);
  }

  /** The first loop of `normalize`: while the scale is positive, drop a trailing zero digit. */
  method StripTrailingZeros(n: nat, s: int) returns (intVal: nat, scale: int)
    requires n >= 1
    ensures intVal >= 1 && scale <= s
    ensures s > 0 ==> 0 <= scale
    ensures s <= 0 ==> scale == s && intVal == n
    ensures intVal * Pow10(s - scale) == n
    ensures scale > 0 ==> intVal % 10 != 0
  {
    scale, intVal := s, n;
    ghost var k: nat := 0;
    while scale > 0
      invariant scale == s - k
      invariant k == 0 || 0 <= scale
      invariant 1 <= intVal
      invariant intVal * Pow10(k) == n
      decreases scale
    {
      if intVal % 10 > 0 {
        break;
      }
      intVal := intVal / 10;
      scale := scale - 1;
      ShiftOnePlace(intVal, k);
      k := k + 1;
    }
  }

  /**
   * The second loop of `normalize`: while the scale is negative and the
   * magnitude below 10^37, multiply the magnitude by ten.
   */
  method RaiseNegativeScale(n: nat, s: int) returns (intVal: nat, scale: int)
    requires n >= 1
    ensures s >= 0 ==> intVal == n && scale == s
    ensures s < 0 ==> s <= scale <= 0 && intVal == n * Pow10(scale - s)
    ensures s < 0 && scale > s ==> intVal < Pow10(MAX_PRECISION)
    ensures scale < 0 ==> intVal >= Pow10(MAX_PRECISION - 1)
  {
    scale, intVal := s, n;
    ghost var k: nat := 0;
    while scale < 0
      invariant scale == s + k && (k > 0 ==> scale <= 0)
      invariant intVal == n * Pow10(k)
      invariant k > 0 ==> intVal < Pow10(MAX_PRECISION)
      decreases -scale
    {
      if intVal >= Pow10(MAX_PRECISION - 1) {
        break;
      }
      intVal := intVal * 10;
      scale := scale + 1;
      ShiftOnePlace(n, k);
      k := k + 1;
    }
  }

  /** What the two loops of `normalize` leave behind, as a decimal. */
  lemma NormalizeOutcome(d: Decimal, midVal: nat, mid: int, intVal: nat, scale: int)
    requires d.intVal >= 1
    // after the first loop
    requires midVal >= 1 && mid <= d.scale
    requires d.scale > 0 ==> 0 <= mid
    requires d.scale <= 0 ==> mid == d.scale && midVal == d.intVal
    requires midVal * Pow10(d.scale - mid) == d.intVal
    requires mid > 0 ==> midVal % 10 != 0
    // after the second loop
    requires mid >= 0 ==> intVal == midVal && scale == mid
    requires mid < 0 ==> mid <= scale <= 0 && intVal == midVal * Pow10(scale - mid)
    requires mid < 0 && scale > mid ==> intVal < Pow10(MAX_PRECISION)
    requires scale < 0 ==> intVal >= Pow10(MAX_PRECISION - 1)
    ensures intVal >= 1 && intVal < TWO_128 && -0x8000 <= scale < 0x8000
    ensures 0 <= scale <= d.scale || d.scale <= scale <= 0
    ensures d.intVal <= MAX_I128_REPR ==> intVal <= MAX_I128_REPR
    ensures SameValue(Decimal(intVal, scale, d.negative), d)
    ensures NormalForm(Decimal(intVal, scale, d.negative))
  {
    MaxReprIsPow10();
    if mid < 0 {
      assert midVal == d.intVal;
      if scale == mid {
        assert intVal == d.intVal;
      } else {
        MulLe(1, midVal, Pow10(scale - mid));
        assert 1 <= intVal < TWO_128;
      }
      ScaledUpSameValue(d, intVal, scale);
    } else {
      assert intVal <= d.intVal by {
        MulLe(1, Pow10(d.scale - scale), intVal);
      }
      ScaledDownSameValue(d, intVal, scale);
    }
  }

  /** One more decimal place multiplies by ten. */
  lemma ShiftOnePlace(n: nat, k: nat)
    ensures n * Pow10(k + 1) == (n * Pow10(k)) * 10 == (n * 10) * Pow10(k)
  {
    MulAssoc(n, Pow10(k), 10);
    MulAssoc(n, 10, Pow10(k));
  }

  /** A magnitude with trailing zeros stripped, at a correspondingly coarser scale, has the same value. */
  lemma ScaledDownSameValue(d: Decimal, intVal: u128, scale: i16)
    requires scale <= d.scale && intVal * Pow10(d.scale - scale) == d.intVal
    ensures SameValue(Decimal(intVal, scale, d.negative), d)
  {
    var r := Decimal(intVal, scale, d.negative);
    assert AtScale(r, d.scale) == AtScale(d, d.scale);
    CompareAtAnyScale(r, d, d.scale);
  }

  /** A magnitude multiplied by 10^k, at a scale k places finer, has the same value. */
  lemma ScaledUpSameValue(d: Decimal, intVal: u128, scale: i16)
    requires scale >= d.scale && intVal == d.intVal * Pow10(scale - d.scale)
    ensures SameValue(Decimal(intVal, scale, d.negative), d)
  {
    var r := Decimal(intVal, scale, d.negative);
    assert AtScale(r, scale) == AtScale(d, scale);
    CompareAtAnyScale(r, d, scale);
  }

  /**
   * Two decimals of at most 38 digits in the shape `normalize` produces
   * that denote the same number are the same triple: equal values
   * normalize to equal representations, which is what makes `normalize`
   * a sound basis for hashing.
   */
  lemma NormalFormUnique(a: Decimal, b: Decimal)
    requires a.intVal <= MAX_I128_REPR && b.intVal <= MAX_I128_REPR
    requires NormalForm(a) && NormalForm(b) && SameValue(a, b)
    ensures a == b
  {
    if a.scale <= b.scale {
      NormalFormUniqueOrdered(a, b);
    } else {
      SameValueSymmetric(a, b);
      NormalFormUniqueOrdered(b, a);
    }
  }

  lemma NormalFormUniqueOrdered(a: Decimal, b: Decimal)
    requires a.intVal <= MAX_I128_REPR && b.intVal <= MAX_I128_REPR
    requires NormalForm(a) && NormalForm(b) && SameValue(a, b)
    requires a.scale <= b.scale
    ensures a == b
  {
    var s := b.scale;
    var k: nat := b.scale - a.scale;
    var p := Pow10(k);
    assert Max(a.scale, b.scale) == s;
    assert AtScale(a, s) == AtScale(b, s);
    assert Signed(b) == Signed(a) * p;
    if a.intVal == 0 {
      assert Signed(b) == 0;
      return;
    }
    ScaledMagnitude(a, b, p);
    if k > 0 {
      ShiftedTrailingZero(a.intVal, k);
      ShiftedPastMax(a.intVal, k);
      assert false;
    }
  }

  /** A signed magnitude scaled by p >= 1 keeps its sign and multiplies its magnitude. */
  lemma ScaledMagnitude(a: Decimal, b: Decimal, p: nat)
    requires p >= 1 && a.intVal != 0 && Signed(b) == Signed(a) * p
    ensures b.negative == a.negative && b.intVal == a.intVal * p
  {
    ProductSign(Signed(a), p);
    if a.negative {
      assert -(b.intVal as int) == -(a.intVal as int) * p;
    }
  }

  /** A magnitude shifted one or more places ends in a zero digit. */
  lemma ShiftedTrailingZero(n: nat, k: nat)
    requires k >= 1
    ensures (n * Pow10(k)) % 10 == 0
  {
    var q := Pow10(k - 1);
    assert Pow10(k) == 10 * q;
    MulAssoc(n, 10, q);
    assert n * Pow10(k) == (n * q) * 10;
    DivModUnique(n * Pow10(k), 10, n * q, 0);
  }

  /** A 38-digit magnitude shifted one or more places exceeds every valid magnitude. */
  lemma ShiftedPastMax(n: nat, k: nat)
    requires k >= 1 && n >= Pow10(MAX_PRECISION - 1)
    ensures n * Pow10(k) > MAX_I128_REPR
  {
    var m: nat := MAX_PRECISION;
    Pow10Monotone(1, k);
    MulLe(Pow10(m - 1), n, Pow10(k));
    MulLe(10, Pow10(k), Pow10(m - 1));
    MaxReprIsPow10();
  }

  // ---------------------------------------------------------------------
  // The total order
  // ---------------------------------------------------------------------

  /** Zero carries no sign: what `cmp` needs to agree with the numeric order. */
  predicate UnsignedZero(d: Decimal)
  {
    d.intVal == 0 ==> !d.negative
  }

  /** A non-zero u128 magnitude written 39 or more places finer exceeds every u128. */
  lemma WidenedBeyondWord(n: u128, e: nat, b: u128)
    requires n != 0 && e > MAX_PRECISION
    ensures n * Pow10(e) > b
  {
    Pow10Fits128();
    Pow10Monotone(39, e);
    MulLe(1, n, Pow10(e));
    assert n * Pow10(e) >= Pow10(e) >= Pow10(39) >= TWO_128 > b;
  }

  /**
   * `rescale_cmp`: compares `a`, written at the finer scale of `b`, with
   * `b`'s magnitude; a gap of more than 38 places is decided without
   * multiplying.
   */
  function RescaleCmp(a: Decimal, b: Decimal): (r: Ordering)
    requires a.scale < b.scale
    ensures a.intVal != 0 ==> r == CompareInt(a.intVal * Pow10(b.scale - a.scale), b.intVal)
  {
    var e := b.scale - a.scale;
    if e > MAX_PRECISION then
      if a.intVal != 0 then
        WidenedBeyondWord(a.intVal, e, b.intVal);
        Greater
      else
        Greater
    else
      var n := Mul128(a.intVal, PowerLow(e));
      Words(n);
      Cmp128(n, b.intVal)
  }

  /** A magnitude written at scale `s`, at least its own. */
  function MagnitudeAt(d: Decimal, s: int): nat
    requires s >= d.scale
  {
    d.intVal * Pow10(s - d.scale)
  }

  /**
   * The unsigned part of `cmp`: zeros first, then equal scales, then the
   * coarser operand rescaled to the finer one.
   */
  function CmpMagnitudes(left: Decimal, right: Decimal): (r: Ordering)
    ensures var s := Max(left.scale, right.scale);
      r == CompareInt(MagnitudeAt(left, s), MagnitudeAt(right, s))
  {
    var s := Max(left.scale, right.scale);
    if left.intVal == 0 || right.intVal == 0 then
      ZeroMagnitudes(left, right, s);
      if left.intVal == 0 then
        if right.intVal == 0 then Equal else Less
      else
        Greater
    else if left.scale == right.scale then
      MagnitudeAtOwnScale(left);
      MagnitudeAtOwnScale(right);
      CompareInt(left.intVal, right.intVal)
    else if left.scale < right.scale then
      MagnitudeAtOwnScale(right);
      RescaleCmp(left, right)
    else
      MagnitudeAtOwnScale(left);
      RescaleCmp(right, left).Reverse()
  }

  /** A magnitude written at its own scale is itself. */
  lemma MagnitudeAtOwnScale(d: Decimal)
    ensures MagnitudeAt(d, d.scale) == d.intVal
  {
    assert Pow10(0) == 1;
  }

  /** A zero magnitude is zero at every finer scale, and a non-zero one stays positive. */
  lemma ZeroMagnitudes(left: Decimal, right: Decimal, s: int)
    requires s >= left.scale && s >= right.scale
    ensures left.intVal == 0 <==> MagnitudeAt(left, s) == 0
    ensures right.intVal == 0 <==> MagnitudeAt(right, s) == 0
  {
    ProductSign(left.intVal, Pow10(s - left.scale));
    ProductSign(right.intVal, Pow10(s - right.scale));
  }

  /**
   * `cmp`: a negative sign bit orders first; between two negatives the
   * magnitudes compare in reverse. With unsigned zeros this is the numeric
   * order of the values.
   */
  function Cmp(a: Decimal, b: Decimal): (r: Ordering)
    ensures a.negative != b.negative ==> r == if a.negative then Less else Greater
    ensures UnsignedZero(a) && UnsignedZero(b) ==> r == CompareValues(a, b)
  {
    if a.negative != b.negative then
      if a.negative then Less else Greater
    else
      CmpAgreesWithValues(a, b);
      if a.negative then CmpMagnitudes(b, a) else CmpMagnitudes(a, b)
  }

  lemma CmpAgreesWithValues(a: Decimal, b: Decimal)
    requires a.negative == b.negative
    ensures !a.negative ==> CmpMagnitudes(a, b) == CompareValues(a, b)
    ensures a.negative ==> CmpMagnitudes(b, a) == CompareValues(a, b)
  {
    var s := Max(a.scale, b.scale);
    assert s == Max(b.scale, a.scale);
    if a.negative {
      assert AtScale(a, s) == -(MagnitudeAt(a, s) as int);
      assert AtScale(b, s) == -(MagnitudeAt(b, s) as int);
    } else {
      assert AtScale(a, s) == MagnitudeAt(a, s);
      assert AtScale(b, s) == MagnitudeAt(b, s);
    }
  }

  /** `eq`: equality is `cmp` returning Equal, so 1.1 == 1.10. */
  function Eq(a: Decimal, b: Decimal): (r: bool)
    ensures UnsignedZero(a) && UnsignedZero(b) ==> (r <==> SameValue(a, b))
  {
    Cmp(a, b) == Equal
  }

  /** Swapping the operands reverses the numeric order. */
  lemma CompareValuesAntisymmetric(a: Decimal, b: Decimal)
    ensures CompareValues(b, a) == CompareValues(a, b).Reverse()
  {
    var s := Max(a.scale, b.scale);
    assert s == Max(b.scale, a.scale);
  }

  /** The numeric order is transitive. */
  lemma CompareValuesTransitive(a: Decimal, b: Decimal, c: Decimal)
    requires CompareValues(a, b) != Greater && CompareValues(b, c) != Greater
    ensures CompareValues(a, c) != Greater
    ensures CompareValues(a, b) == Less || CompareValues(b, c) == Less ==> CompareValues(a, c) == Less
  {
    var s := Max(a.scale, Max(b.scale, c.scale));
    CompareAtAnyScale(a, b, s);
    CompareAtAnyScale(b, c, s);
    CompareAtAnyScale(a, c, s);
  }
}
