/**
 * The arithmetic engine of the decimal type (src/decimal.rs): rounding a
 * wide intermediate to 38 significant digits (adjust_scale), scale
 * alignment for addition and subtraction, the widened product, division
 * by a pre-scaled dividend and the remainder.
 */
module Arith {
  import opened Std
  import opened Wide
  import opened Decimals

  // ---------------------------------------------------------------------
  // Rounding to 38 significant digits
  // ---------------------------------------------------------------------

  /** The half-up quotient is the only integer within half a divisor of n / p. */
  lemma DivRoundHalfUpUnique(n: nat, p: nat, q: int)
    requires p > 0
    requires (2 * q - 1) * p <= 2 * n < (2 * q + 1) * p
    ensures DivRoundHalfUp(n, p) == q
  {
    DivRoundHalfUpNearest(n, p);
    NearestUnique(n, p, q, DivRoundHalfUp(n, p));
  }

  /** Two integers both within half a divisor of n / p are equal. */
  lemma NearestUnique(n: int, p: int, q: int, r: int)
    requires p > 0
    requires (2 * q - 1) * p <= 2 * n < (2 * q + 1) * p
    requires p * (2 * r - 1) <= 2 * n < p * (2 * r + 1)
    ensures r == q
  {
    MulCompare(2 * q - 1, 2 * r + 1, p);
    MulCompare(2 * r - 1, 2 * q + 1, p);
  }

  /** A magnitude of k + shift digits, rounded half up by 10^shift, keeps k digits, or becomes 10^k when it carries. */
  lemma RoundedDigits(n: nat, k: nat, shift: nat)
    requires n >= 1 && k >= 1 && NumDigits(n) == k + shift
    ensures Pow10(k - 1) <= DivRoundHalfUp(n, Pow10(shift)) <= Pow10(k)
  {
    var p := Pow10(shift);
    NumDigitsBounds(n);
    Pow10Add(k - 1, shift);
    Pow10Add(k, shift);
    DivRoundHalfUpNearest(n, p);
    NearestBetween(n, p, DivRoundHalfUp(n, p), Pow10(k - 1), Pow10(k));
  }

  /** A value within half a unit of q, lying between lo and hi units, has lo <= q <= hi. */
  lemma NearestBetween(n: int, p: int, q: int, lo: int, hi: int)
    requires p > 0
    requires p * (2 * q - 1) <= 2 * n < p * (2 * q + 1)
    requires lo * p <= n < hi * p
    ensures lo <= q <= hi
  {
    MulCompare(2 * q - 1, 2 * hi, p);
    MulCompare(2 * lo, 2 * q + 1, p);
  }

  /** A rounded quotient that ends in 0 is also the rounded quotient by a ten times larger divisor. */
  lemma RedivideByTen(n: nat, d: nat)
    requires d > 0 && DivRoundHalfUp(n, d) % 10 == 0
    ensures DivRoundHalfUp(n, 10 * d) == DivRoundHalfUp(n, d) / 10
  {
    var q: int := DivRoundHalfUp(n, d);
    var q': int := q / 10;
    DivRoundHalfUpNearest(n, d);
    assert q == 10 * q';
    assert (2 * q' - 1) * (10 * d) == d * (2 * q - 1) - 9 * d;
    assert (2 * q' + 1) * (10 * d) == d * (2 * q + 1) + 9 * d;
    DivRoundHalfUpUnique(n, 10 * d, q');
  }

  /** When rounding k + shift digits to k carries to 10^k, rounding one place further gives exactly 10^(k-1). */
  lemma CarryRedivide(n: nat, k: nat, shift: nat)
    requires k >= 1 && NumDigits(n) == k + shift
    requires DivRoundHalfUp(n, Pow10(shift)) == Pow10(k)
    ensures DivRoundHalfUp(n, Pow10(shift + 1)) == Pow10(k - 1)
  {
    var p := Pow10(shift);
    var t := Pow10(k - 1);
    NumDigitsBounds(n);
    Pow10Add(k, shift);
    DivRoundHalfUpNearest(n, p);
    CarryBounds(n, p, t);
    DivRoundHalfUpUnique(n, 10 * p, t);
  }

  /** The arithmetic of CarryRedivide: within half a unit of 10t at p, hence within half a unit of t at 10p. */
  lemma CarryBounds(n: int, p: int, t: int)
    requires p > 0
    requires p * (2 * (10 * t) - 1) <= 2 * n
    requires n < (10 * t) * p
    ensures (2 * t - 1) * (10 * p) <= 2 * n < (2 * t + 1) * (10 * p)
  {
    assert (2 * t - 1) * (10 * p) == p * (2 * (10 * t) - 1) - 9 * p;
    assert (2 * t + 1) * (10 * p) == 2 * ((10 * t) * p) + 10 * p;
  }

  /** A magnitude of at most 38 digits is a valid int_val. */
  lemma DigitsFit(n: nat)
    requires NumDigits(n) <= MAX_PRECISION
    ensures n <= MAX_I128_REPR
  {
    NumDigitsBelow(n, MAX_PRECISION);
    MaxReprIsPow10();
  }

  /** `n` rounded half up by 10^shift, where that leaves 38 digits or the carry 10^38. */
  function RoundToDigits(n: U256, shift: nat): (q: u128)
    requires shift >= 1 && NumDigits(n) == MAX_PRECISION + shift
    ensures q == DivRoundHalfUp(n, Pow10(shift))
    ensures 1 <= q <= MAX_I128_REPR + 1
  {
    RoundedDigits(n, MAX_PRECISION, shift);
    MaxReprIsPow10();
    DivRoundHalfUp(n, Pow10(shift))
  }

  /** Rounding `n` half up to 38 significant digits carries into a 39th digit. */
  predicate CarriesOver(n: nat)
  {
    NumDigits(n) > MAX_PRECISION && DivRoundHalfUp(n, Pow10(NumDigits(n) - MAX_PRECISION)) > MAX_I128_REPR
  }

  /**
   * `adjust_scale`: the decimal for `n * 10^(-scale)`. Writing s for the
   * scale minus the number of digits of `n`, it flushes to ZERO when s
   * exceeds 130 and overflows when s falls below -126; otherwise it keeps
   * `n` when it has at most 38 digits and rounds it half up to 38
   * significant digits when it has more. This is the corrected form: the
   * digits are counted exactly (NumDigits, which CountDigitsCorrected
   * computes from the tables) and a rounding that carries to 10^38 is
   * divided once more by ten (AdjustScaleAsWritten is the source's form).
   */
  function AdjustScale(n: U256, scale: i16, negative: bool): (r: Option<Decimal>)
    ensures r.Some? ==> Valid(r.value)
    ensures r.None? <==> scale - NumDigits(n) < MIN_SCALE || (scale - NumDigits(n) == MIN_SCALE && CarriesOver(n))
    ensures scale - NumDigits(n) > MAX_SCALE ==> r == Some(ZERO)
    ensures r.Some? ==> (r.value == ZERO <==> n == 0 || scale - NumDigits(n) > MAX_SCALE)
  {
    var digits := NumDigits(n);
    var s := scale - digits;
    if s > MAX_SCALE then
      Some(ZERO)
    else if s < MIN_SCALE then
      None
    else if digits > MAX_PRECISION then
      var shift := digits - MAX_PRECISION;
      var q := RoundToDigits(n, shift);
      if q <= MAX_I128_REPR then
        Some(FromPartsUnchecked(q, scale - shift, negative))
      else if s - 1 < MIN_SCALE then
        None
      else
        Some(FromPartsUnchecked(q / 10, scale - shift - 1, negative))
    else
      DigitsFit(n);
      Some(FromPartsUnchecked(n, scale, negative))
  }

  /** A magnitude of at most 38 digits inside the window is kept as it is. */
  lemma AdjustScaleKeeps(n: U256, scale: i16, negative: bool)
    requires n != 0 && MIN_SCALE <= scale - NumDigits(n) <= MAX_SCALE && NumDigits(n) <= MAX_PRECISION
    ensures n <= MAX_I128_REPR
    ensures AdjustScale(n, scale, negative) == Some(Decimal(n, scale, negative))
  {
    DigitsFit(n);
  }

  /** A longer magnitude that does not carry is rounded once, to 38 digits. */
  lemma AdjustScaleRoundsOnce(n: U256, scale: i16, negative: bool)
    requires MIN_SCALE <= scale - NumDigits(n) <= MAX_SCALE && NumDigits(n) > MAX_PRECISION && !CarriesOver(n)
    ensures var shift := NumDigits(n) - MAX_PRECISION;
      AdjustScale(n, scale, negative) == Some(Decimal(DivRoundHalfUp(n, Pow10(shift)), scale - shift, negative))
  {
    var shift := NumDigits(n) - MAX_PRECISION;
    var q := RoundToDigits(n, shift);
    assert q <= MAX_I128_REPR;
    assert FromPartsUnchecked(q, scale - shift, negative) == Decimal(q, scale - shift, negative);
  }

  /** A longer magnitude that carries is rounded one place further, to 10^37. */
  lemma AdjustScaleRoundsTwice(n: U256, scale: i16, negative: bool)
    requires MIN_SCALE < scale - NumDigits(n) <= MAX_SCALE && CarriesOver(n)
    ensures var shift := NumDigits(n) - MAX_PRECISION;
      AdjustScale(n, scale, negative) == Some(Decimal((MAX_I128_REPR + 1) / 10, scale - shift - 1, negative))
  {
    var q := RoundToDigits(n, NumDigits(n) - MAX_PRECISION);
  }

  /**
   * Inside the scale window a non-zero result is `n` rounded half up at
   * the result's scale: `n` itself when it has at most 38 digits, and
   * exactly 38 significant digits otherwise, dropping one digit more when
   * the rounding carries.
   */
  lemma AdjustScaleRounds(n: U256, scale: i16, negative: bool)
    requires n != 0 && scale - NumDigits(n) <= MAX_SCALE
    requires AdjustScale(n, scale, negative).Some?
    ensures var r := AdjustScale(n, scale, negative).value;
      && r.scale <= scale && r.negative == negative
      && r.intVal == DivRoundHalfUp(n, Pow10(scale - r.scale))
      && (r.scale == scale <==> NumDigits(n) <= MAX_PRECISION)
      && (r.scale < scale ==> NumDigits(r.intVal) == MAX_PRECISION)
      && (r.scale < scale ==> scale - r.scale == NumDigits(n) - MAX_PRECISION + if CarriesOver(n) then 1 else 0)
  {
    if NumDigits(n) <= MAX_PRECISION {
      AdjustScaleKeeps(n, scale, negative);
    } else if CarriesOver(n) {
      RoundedTwice(n, scale, negative);
    } else {
      RoundedOnce(n, scale, negative);
    }
  }

  /** What AdjustScaleRounds states about a result `r` of `adjust_scale(n, scale, negative)`. */
  predicate RoundedAt(n: nat, scale: int, negative: bool, r: Decimal)
  {
    && r.scale <= scale && r.negative == negative
    && r.intVal == DivRoundHalfUp(n, Pow10(scale - r.scale))
    && (r.scale == scale <==> NumDigits(n) <= MAX_PRECISION)
    && (r.scale < scale ==> NumDigits(r.intVal) == MAX_PRECISION)
    && (r.scale < scale ==> scale - r.scale == NumDigits(n) - MAX_PRECISION + if CarriesOver(n) then 1 else 0)
  }

  lemma RoundedOnce(n: U256, scale: i16, negative: bool)
    requires MIN_SCALE <= scale - NumDigits(n) <= MAX_SCALE && NumDigits(n) > MAX_PRECISION && !CarriesOver(n)
    ensures AdjustScale(n, scale, negative).Some?
    ensures RoundedAt(n, scale, negative, AdjustScale(n, scale, negative).value)
  {
    var k: nat := MAX_PRECISION;
    var shift := NumDigits(n) - k;
    var q := DivRoundHalfUp(n, Pow10(shift));
    RoundedDigits(n, k, shift);
    MaxReprIsPow10();
    AdjustScaleRoundsOnce(n, scale, negative);
    NumDigitsUnique(q, k);
  }

  lemma RoundedTwice(n: U256, scale: i16, negative: bool)
    requires MIN_SCALE < scale - NumDigits(n) <= MAX_SCALE && CarriesOver(n)
    ensures AdjustScale(n, scale, negative).Some?
    ensures RoundedAt(n, scale, negative, AdjustScale(n, scale, negative).value)
  {
    AdjustScaleRoundsTwice(n, scale, negative);
    CarryFacts(n, MAX_PRECISION);
  }

  /** A carry leaves 10^37, which is `n` rounded half up one place further, and has 38 digits. */
  lemma CarryFacts(n: nat, k: nat)
    requires k == MAX_PRECISION && CarriesOver(n)
    ensures NumDigits(n) > k
    ensures DivRoundHalfUp(n, Pow10(NumDigits(n) - k + 1)) == (MAX_I128_REPR + 1) / 10
    ensures NumDigits((MAX_I128_REPR + 1) / 10) == k
  {
    var shift := NumDigits(n) - k;
    RoundedDigits(n, k, shift);
    MaxReprIsPow10();
    CarryRedivide(n, k, shift);
    TenthOfPowerDigits(k);
  }

  /** 10^38 / 10 is 10^37, a number of 38 digits. */
  lemma TenthOfPowerDigits(k: nat)
    requires k == MAX_PRECISION
    ensures (MAX_I128_REPR + 1) / 10 == Pow10(k - 1)
    ensures NumDigits(Pow10(k - 1)) == k
  {
    MaxReprIsPow10();
    NumDigitsUnique(Pow10(k - 1), k);
  }

  /** A quotient without remainder rounds to itself. */
  lemma DivExact(n: nat, p: nat)
    requires p > 0 && n % p == 0
    ensures DivRoundHalfUp(n, p) * p == n
  {
  }

  /**
   * When the digits that rounding drops are all zero, the result denotes
   * exactly `n * 10^(-scale)`.
   */
  lemma AdjustScaleExact(n: U256, scale: i16, negative: bool)
    requires n != 0 && MIN_SCALE <= scale - NumDigits(n) <= MAX_SCALE
    requires NumDigits(n) > MAX_PRECISION ==> n % Pow10(NumDigits(n) - MAX_PRECISION) == 0
    ensures AdjustScale(n, scale, negative).Some?
    ensures var r := AdjustScale(n, scale, negative).value;
      r.scale <= scale && AtScale(r, scale) == if negative then -(n as int) else n
  {
    if NumDigits(n) > MAX_PRECISION {
      ExactNoCarry(n, MAX_PRECISION);
      RoundedOnce(n, scale, negative);
      var r := AdjustScale(n, scale, negative).value;
      var p := Pow10(scale - r.scale);
      assert scale - r.scale == NumDigits(n) - MAX_PRECISION;
      DivExact(n, p);
      SignedProduct(r.intVal, p, n, negative);
    } else {
      AdjustScaleKeeps(n, scale, negative);
      assert Pow10(0) == 1;
    }
  }

  /** Dropping only zero digits cannot carry past 38 digits. */
  lemma ExactNoCarry(n: nat, k: nat)
    requires k == MAX_PRECISION && NumDigits(n) > k
    requires n % Pow10(NumDigits(n) - k) == 0
    ensures !CarriesOver(n)
  {
    var shift := NumDigits(n) - k;
    var p := Pow10(shift);
    DivExact(n, p);
    var q := DivRoundHalfUp(n, p);
    NumDigitsBounds(n);
    Pow10Add(k, shift);
    MaxReprIsPow10();
    MulCompare(q, Pow10(k), p);
  }

  /** Applying a sign commutes with scaling. */
  lemma SignedProduct(q: nat, p: nat, n: nat, negative: bool)
    requires q * p == n
    ensures (if negative then -(q as int) else q) * p == if negative then -(n as int) else n
  {
  }

  // ---------------------------------------------------------------------
  // adjust_scale as written
  // ---------------------------------------------------------------------

  /**
   * `adjust_scale` as the source writes it: digits counted by the table
   * search (which stops at 10^76), the quotient's low word kept without
   * checking for a carry to 10^38. The source adds ROUNDINGS[39] in 256
   * bits, so a magnitude within 5 * 10^38 of 2^256 would overflow.
   */
  function AdjustScaleAsWritten(n: U256, scale: i16, negative: bool): (r: Option<Decimal>)
    requires n + 5 * (MAX_I128_REPR + 1) < TWO_256
  {
    CountDigitsAtMost(n);
    AdjustScaleWithDigits(n, CountDigits(n), scale, negative)
  }

  /** The body of `adjust_scale` once the digit count `digits` is known. */
  function AdjustScaleWithDigits(n: U256, digits: nat, scale: i16, negative: bool): (r: Option<Decimal>)
    requires n + 5 * (MAX_I128_REPR + 1) < TWO_256
    requires 1 <= digits <= 77
  {
    var s := scale - digits;
    if s > MAX_SCALE then
      Some(ZERO)
    else if s < MIN_SCALE then
      None
    else if digits > MAX_PRECISION then
      var shift := digits - MAX_PRECISION;
      var q := TableQuotient(n, shift);
      Some(FromPartsUnchecked(Low(q), scale - shift, negative))
    else
      Some(FromPartsUnchecked(Low(n), scale, negative))
  }

  /** The table search never reports more than 77 digits. */
  lemma CountDigitsAtMost(n: U256)
    ensures 1 <= CountDigits(n) <= 77
  {
    CountDigitsCorrect(n);
    if n < Pow10(77) {
      NumDigitsBelow(n, 77);
    }
  }

  /**
   * Finding: 999 * 1001001001001001001001001001001001001 = 10^39 - 1 at
   * scale 0 rounds up to 10^38, which the source keeps as the magnitude:
   * a 39-digit value that is not a valid decimal. The corrected function
   * divides once more and yields 10^37 at scale -2.
   */
  lemma AdjustScaleCarryCounterexample()
    ensures 999 * 1001001001001001001001001001001001001 == 999999999999999999999999999999999999999
    ensures var r := AdjustScaleAsWritten(999999999999999999999999999999999999999, 0, false);
      r == Some(Decimal(100000000000000000000000000000000000000, -1, false)) && !Valid(r.value)
    ensures AdjustScale(999999999999999999999999999999999999999, 0, false)
      == Some(Decimal(10000000000000000000000000000000000000, -2, false))
  {
    var n := 999999999999999999999999999999999999999;
    Pow10Literals30();
    NumDigitsUnique(n, 39);
    Pow10Monotone(39, 77);
    CountDigitsCorrect(n);
    assert PowerLow(1) == 10 && RoundingLow(1) == 5;
    var q := (n + 5) / 10;
    assert q == 100000000000000000000000000000000000000;
    Words(q);
    assert DivRoundHalfUp(n, Pow10(1)) == 100000000000000000000000000000000000000;
    AdjustScaleRoundsTwice(n, 0, false);
  }

  /**
   * Finding: 11 * 10^76 + 1 (the aligned sum of 11 and 10^-76) has 78
   * digits, but the table search reports 77, so the source drops one digit
   * too few and keeps the 39-digit 11 * 10^37. The corrected function
   * drops 40 digits and yields 11 * 10^36 at scale 36.
   */
  lemma AdjustScaleUndercountCounterexample()
    ensures var n := 110000000000000000000000000000000000000000000000000000000000000000000000000001;
      && n < TWO_256 && CountDigits(n) == 77 && NumDigits(n) == 78
      && AdjustScaleAsWritten(n, 76, false) == Some(Decimal(110000000000000000000000000000000000000, 37, false))
      && AdjustScale(n, 76, false) == Some(Decimal(11000000000000000000000000000000000000, 36, false))
  {
    var n := 110000000000000000000000000000000000000000000000000000000000000000000000000001;
    Pow10Literals70();
    Pow10Literals30();
    Pow10Literals40();
    NumDigitsUnique(n, 78);
    CountDigitsCorrect(n);
    var q := (n + Rounding(39)) / Power(39);
    DivModUnique(n + Rounding(39), Power(39), 110000000000000000000000000000000000000,
      500000000000000000000000000000000000001);
    Words(q);
    DivModUnique(n, Pow10(40), 11000000000000000000000000000000000000, 1);
    assert DivRoundHalfUp(n, Pow10(40)) == 11000000000000000000000000000000000000;
    AdjustScaleRoundsOnce(n, 76, false);
  }

  /**
   * Below 10^77 and without a carry, the source's adjust_scale and the
   * corrected one agree: the findings above are the only differences.
   */
  lemma AdjustScaleAsWrittenAgrees(n: U256, scale: i16, negative: bool)
    requires n + 5 * (MAX_I128_REPR + 1) < TWO_256
    requires NumDigits(n) <= 77 && !CarriesOver(n)
    ensures AdjustScaleAsWritten(n, scale, negative) == AdjustScale(n, scale, negative)
  {
    NumDigitsBelow(n, 77);
    CountDigitsCorrect(n);
    assert AdjustScaleAsWritten(n, scale, negative) == AdjustScaleWithDigits(n, NumDigits(n), scale, negative);
    if NumDigits(n) > MAX_PRECISION {
      AgreesWhenRounding(n, scale, negative);
    } else {
      AgreesWhenShort(n, scale, negative);
    }
  }

  /** The branch without rounding of the agreement: the magnitude is kept. */
  lemma AgreesWhenShort(n: U256, scale: i16, negative: bool)
    requires n + 5 * (MAX_I128_REPR + 1) < TWO_256
    requires NumDigits(n) <= MAX_PRECISION
    ensures AdjustScaleWithDigits(n, NumDigits(n), scale, negative) == AdjustScale(n, scale, negative)
  {
    DigitsFit(n);
    MaxReprIsPow10();
    Words(n);
  }

  /** The rounding branch of the agreement: the table quotient is the half-up quotient. */
  lemma AgreesWhenRounding(n: U256, scale: i16, negative: bool)
    requires n + 5 * (MAX_I128_REPR + 1) < TWO_256
    requires MAX_PRECISION < NumDigits(n) <= 77 && !CarriesOver(n)
    ensures AdjustScaleWithDigits(n, NumDigits(n), scale, negative) == AdjustScale(n, scale, negative)
  {
    var s := scale - NumDigits(n);
    if s > MAX_SCALE || s < MIN_SCALE {
      return;
    }
    AdjustScaleRoundsOnce(n, scale, negative);
    var shift := NumDigits(n) - MAX_PRECISION;
    var q := RoundToDigits(n, shift);
    Words(q);
  }

  /**
   * The rounding division of `adjust_scale`: `n` plus ROUNDINGS[shift],
   * divided by POWERS_10[shift], through the tables' low words when
   * `shift` is at most 38 and in 256 bits otherwise. Either way it is the
   * half-up quotient, and it stays within 256 bits.
   */
  function TableQuotient(n: U256, shift: nat): (q: U256)
    requires 1 <= shift <= MAX_PRECISION + 1
    requires n + 5 * (MAX_I128_REPR + 1) < TWO_256
    ensures q == DivRoundHalfUp(n, Pow10(shift))
  {
    HalfUpFits(n, shift);
    if shift <= MAX_PRECISION then
      var p, h := PowerLow(shift), RoundingLow(shift);
      AddHalf(n, shift, p, h);
      (n + h) / p
    else
      var p, h := Power(shift), Rounding(shift);
      AddHalf(n, shift, p, h);
      (n + h) / p
  }

  /** Rounding a U256 half up by a power of ten leaves a U256. */
  lemma HalfUpFits(n: U256, k: nat)
    requires k >= 1
    ensures DivRoundHalfUp(n, Pow10(k)) < TWO_256
  {
    Pow10Monotone(1, k);
    RoundedNotLarger(n, Pow10(k));
  }

  /** Adding half the divisor before dividing rounds half up. */
  lemma AddHalf(n: nat, k: nat, p: nat, h: nat)
    requires k >= 1 && p == Pow10(k) && h == 5 * Pow10(k - 1)
    ensures (n + h) / p == DivRoundHalfUp(n, Pow10(k))
  {
    AddHalfThenDivide(n, k);
  }

  // ---------------------------------------------------------------------
  // Addition
  // ---------------------------------------------------------------------

  /** The magnitudes of `a` and `b`, both written at the finer of their scales, added. */
  function MagnitudeSum(a: Decimal, b: Decimal): nat
  {
    var m := Max(a.scale, b.scale);
    MagnitudeAt(a, m) + MagnitudeAt(b, m)
  }

  /** `U256::mul128(a, b) + c`: a widened product plus one word stays within 256 bits. */
  function MulAdd(a: u128, b: u128, c: u128): (r: U256)
    ensures r == a * b + c
  {
    MulBound(a, b);
    Mul128(a, b) + c
  }

  /**
   * The branches of `rescale_add` as the source writes them, for
   * `a.scale < b.scale`, over the corrected `AdjustScale`: the coarser
   * magnitude is scaled up to `b`'s scale and the sum rounded. Beyond 38 places the product is formed in 256 bits only
   * while the table reaches (below 77) and nothing overflows; otherwise
   * `a` is returned with the result's sign, `b` being negligible.
   */
  function RescaleAddBranches(a: Decimal, b: Decimal, negative: bool): (r: Option<Decimal>)
    requires a.scale < b.scale && b.scale - a.scale < 0x8000
  {
    var e := b.scale - a.scale;
    if e > MAX_PRECISION then
      var wide := if e < 77 then Wide.CheckedMul(Power(e), a.intVal) else None;
      var sum := if wide.Some? then Wide.CheckedAdd(wide.value, b.intVal) else None;
      if sum.Some? then
        AdjustScale(sum.value, b.scale, negative)
      else
        Some(FromPartsUnchecked(a.intVal, a.scale, negative))
    else
      AdjustScale(MulAdd(a.intVal, PowerLow(e), b.intVal), b.scale, negative)
  }

  /**
   * `rescale_add` with the zero case handled up front: a zero coarser
   * operand leaves `b` rounded at its own scale instead of returning the
   * zero.
   */
  function RescaleAdd(a: Decimal, b: Decimal, negative: bool): (r: Option<Decimal>)
    requires a.scale < b.scale && b.scale - a.scale < 0x8000
  {
    if a.intVal == 0 then AdjustScale(b.intVal, b.scale, negative) else RescaleAddBranches(a, b, negative)
  }

  /**
   * `add_internal`: the sum of the magnitudes with the given sign. Equal
   * scales add in 256 bits and keep the scale when the sum has at most 38
   * digits and the scale is not negative; otherwise the sum is rounded.
   */
  function AddInternal(a: Decimal, b: Decimal, negative: bool): (r: Option<Decimal>)
    requires -0x8000 < a.scale - b.scale < 0x8000
    ensures Valid(a) && Valid(b) && r.Some? ==> Valid(r.value)
  {
    if a.scale != b.scale then
      if a.scale < b.scale then RescaleAdd(a, b, negative) else RescaleAdd(b, a, negative)
    else
      var n := Add128(a.intVal, b.intVal);
      if !IsDecimalOverflowed(n) && a.scale >= 0 then
        MaxReprIsPow10();
        Words(n);
        Some(FromPartsUnchecked(Low(n), a.scale, negative))
      else
        AdjustScale(n, a.scale, negative)
  }

  /** `add_internal` does not depend on the order of its operands. */
  lemma AddInternalCommutes(a: Decimal, b: Decimal, negative: bool)
    requires -0x8000 < a.scale - b.scale < 0x8000
    ensures AddInternal(a, b, negative) == AddInternal(b, a, negative)
  {
    if a.scale == b.scale {
      assert Add128(a.intVal, b.intVal) == Add128(b.intVal, a.intVal);
    } else if a.scale < b.scale {
      assert AddInternal(a, b, negative) == RescaleAdd(a, b, negative);
      assert AddInternal(b, a, negative) == RescaleAdd(a, b, negative);
    } else {
      assert AddInternal(a, b, negative) == RescaleAdd(b, a, negative);
      assert AddInternal(b, a, negative) == RescaleAdd(b, a, negative);
    }
  }

  /**
   * The source forms the aligned sum exactly unless the scales are more
   * than 38 apart, the coarser operand is not zero, and the table ends or
   * the sum leaves 256 bits.
   */
  predicate SumFormed(a: Decimal, b: Decimal)
  {
    var coarse := if a.scale < b.scale then a else b;
    var e := if a.scale < b.scale then b.scale - a.scale else a.scale - b.scale;
    e <= MAX_PRECISION || coarse.intVal == 0 || (e < 77 && MagnitudeSum(a, b) < TWO_256)
  }

  /** With the scales apart, `rescale_add` rounds the exact aligned sum. */
  lemma RescaleAddSum(a: Decimal, b: Decimal, negative: bool)
    requires a.scale < b.scale && b.scale - a.scale < 0x8000 && SumFormed(a, b)
    ensures MagnitudeSum(a, b) < TWO_256
    ensures RescaleAdd(a, b, negative) == AdjustScale(MagnitudeSum(a, b), b.scale, negative)
  {
    var e := b.scale - a.scale;
    if a.intVal == 0 {
      assert MagnitudeSum(a, b) == b.intVal;
    } else if e > MAX_PRECISION {
      RescaleAddWide(a, b, negative);
    } else {
      RescaleAddNarrow(a, b, negative);
    }
  }

  lemma RescaleAddWide(a: Decimal, b: Decimal, negative: bool)
    requires MAX_PRECISION < b.scale - a.scale < 77 && MagnitudeSum(a, b) < TWO_256 && a.intVal != 0
    ensures RescaleAdd(a, b, negative) == AdjustScale(MagnitudeSum(a, b), b.scale, negative)
  {
    var e := b.scale - a.scale;
    var w := MagnitudeAt(a, b.scale);
    assert MagnitudeSum(a, b) == w + b.intVal;
    WideProduct(a.intVal, e);
    assert Wide.CheckedMul(Power(e), a.intVal) == Some(w);
    assert Wide.CheckedAdd(w, b.intVal) == Some(w + b.intVal);
  }

  lemma RescaleAddNarrow(a: Decimal, b: Decimal, negative: bool)
    requires 0 < b.scale - a.scale <= MAX_PRECISION && a.intVal != 0
    ensures MagnitudeSum(a, b) < TWO_256
    ensures RescaleAdd(a, b, negative) == AdjustScale(MagnitudeSum(a, b), b.scale, negative)
  {
    var e := b.scale - a.scale;
    var w := MagnitudeAt(a, b.scale);
    assert MagnitudeSum(a, b) == w + b.intVal;
    var p := PowerLow(e);
    assert MulAdd(a.intVal, p, b.intVal) == w + b.intVal;
  }

  /** With the second operand coarser, `add_internal` swaps them and rounds the same aligned sum. */
  lemma CoarserSecondSum(a: Decimal, b: Decimal, negative: bool)
    requires b.scale < a.scale && a.scale - b.scale < 0x8000 && SumFormed(a, b)
    ensures MagnitudeSum(a, b) < TWO_256
    ensures AddInternal(a, b, negative) == AdjustScale(MagnitudeSum(a, b), a.scale, negative)
  {
    assert SumFormed(b, a);
    RescaleAddSum(b, a, negative);
    assert MagnitudeSum(b, a) == MagnitudeSum(a, b);
  }

  /** At one scale the aligned sum is the plain sum, kept when it fits and rounded otherwise. */
  lemma SameScaleSum(a: Decimal, b: Decimal, negative: bool)
    requires a.scale == b.scale
    ensures var n := MagnitudeSum(a, b);
      && n < TWO_256
      && AddInternal(a, b, negative) ==
        if n <= MAX_I128_REPR && a.scale >= 0 then Some(FromPartsUnchecked(n, a.scale, negative))
        else AdjustScale(n, a.scale, negative)
  {
    MagnitudeAtOwnScale(a);
    MagnitudeAtOwnScale(b);
    assert MagnitudeSum(a, b) == a.intVal + b.intVal;
    MaxReprIsPow10();
    Words(Add128(a.intVal, b.intVal));
  }

  /**
   * Whenever the sum is formed exactly, `add_internal` is the aligned sum
   * of the magnitudes, kept on the same-scale fast path and otherwise
   * rounded by adjust_scale at the finer scale.
   */
  lemma AddInternalSum(a: Decimal, b: Decimal, negative: bool)
    requires -0x8000 < a.scale - b.scale < 0x8000 && SumFormed(a, b)
    ensures var n := MagnitudeSum(a, b);
      && n < TWO_256
      && AddInternal(a, b, negative) ==
        if a.scale == b.scale && n <= MAX_I128_REPR && a.scale >= 0 then Some(FromPartsUnchecked(n, a.scale, negative))
        else AdjustScale(n, Max(a.scale, b.scale), negative)
  {
    if a.scale < b.scale {
      RescaleAddSum(a, b, negative);
    } else if b.scale < a.scale {
      CoarserSecondSum(a, b, negative);
    } else {
      SameScaleSum(a, b, negative);
    }
  }

  /**
   * A non-zero sum of at most 38 digits whose leading digit lies in the
   * scale window comes out exact: the result denotes the signed sum.
   */
  lemma AddInternalExact(a: Decimal, b: Decimal, negative: bool)
    requires Valid(a) && Valid(b)
    requires var n := MagnitudeSum(a, b);
      && 0 < n <= MAX_I128_REPR
      && MIN_SCALE <= Max(a.scale, b.scale) - NumDigits(n) <= MAX_SCALE
    ensures AddInternal(a, b, negative).Some?
    ensures var n := MagnitudeSum(a, b); var r := AddInternal(a, b, negative).value; var m := Max(a.scale, b.scale);
      r.scale <= m && AtScale(r, m) == if negative then -(n as int) else n
  {
    var n := MagnitudeSum(a, b);
    var m := Max(a.scale, b.scale);
    MaxReprIsPow10();
    if a.scale != b.scale {
      var coarse := if a.scale < b.scale then a else b;
      var e: nat := if a.scale < b.scale then b.scale - a.scale else a.scale - b.scale;
      if e > MAX_PRECISION && coarse.intVal != 0 {
        Pow10Monotone(MAX_PRECISION, e);
        MulLe(1, coarse.intVal, Pow10(e));
        assert false;
      }
    }
    AddInternalSum(a, b, negative);
    NumDigitsBelow(n, MAX_PRECISION);
    if !(a.scale == b.scale && m >= 0) {
      AdjustScaleExact(n, m, negative);
    }
  }

  /**
   * When the sum is not formed, `add_internal` returns the coarser operand
   * with the result's sign; the finer one it drops is below a 10^39-th of
   * it, so 38-digit rounding of the true sum gives the same digits.
   */
  lemma AddInternalDropsNegligible(a: Decimal, b: Decimal, negative: bool)
    requires Valid(a) && Valid(b) && !SumFormed(a, b)
    ensures var coarse := if a.scale < b.scale then a else b;
      AddInternal(a, b, negative) == Some(Decimal(coarse.intVal, coarse.scale, negative))
    ensures var coarse := if a.scale < b.scale then a else b;
      var fine := if a.scale < b.scale then b else a;
      fine.intVal * (10 * (MAX_I128_REPR + 1)) < MagnitudeAt(coarse, fine.scale)
  {
    var coarse := if a.scale < b.scale then a else b;
    var fine := if a.scale < b.scale then b else a;
    assert !SumFormed(coarse, fine);
    RescaleAddFallback(coarse, fine, negative);
    DroppedBound(coarse, fine);
  }

  /** The operand the fallback drops is below a 10^39-th of the one it keeps. */
  lemma DroppedBound(c: Decimal, f: Decimal)
    requires c.scale < f.scale && f.scale - c.scale < 0x8000 && !SumFormed(c, f) && f.intVal <= MAX_I128_REPR
    ensures f.intVal * (10 * (MAX_I128_REPR + 1)) < MagnitudeAt(c, f.scale)
  {
    var e: nat := f.scale - c.scale;
    RescaleAddFallback(c, f, false);
    assert MagnitudeAt(c, f.scale) == c.intVal * Pow10(e);
    assert MagnitudeSum(c, f) == c.intVal * Pow10(e) + f.intVal;
    if e >= 77 {
      Pow10Monotone(77, e);
      Pow10Literals70();
    }
    NegligibleBound(c.intVal, f.intVal, Pow10(e));
  }

  /** The fallback branch of `rescale_add`. */
  lemma RescaleAddFallback(c: Decimal, f: Decimal, negative: bool)
    requires c.scale < f.scale && f.scale - c.scale < 0x8000 && !SumFormed(c, f)
    ensures RescaleAdd(c, f, negative) == Some(Decimal(c.intVal, c.scale, negative))
    ensures f.scale - c.scale >= 77 || MagnitudeSum(c, f) >= TWO_256
  {
    var e := f.scale - c.scale;
    if e < 77 {
      NarrowSumOverflows(c, f, e);
    }
    assert RescaleAddBranches(c, f, negative) == Some(FromPartsUnchecked(c.intVal, c.scale, negative));
  }

  /** Below 77 places apart, an unformed sum is one the 256-bit product or addition cannot hold. */
  lemma NarrowSumOverflows(c: Decimal, f: Decimal, e: nat)
    requires c.scale < f.scale && e == f.scale - c.scale < 77 && !SumFormed(c, f)
    ensures var w := Wide.CheckedMul(Power(e), c.intVal);
      w.None? || Wide.CheckedAdd(w.value, f.intVal).None?
  {
    assert Power(e) * c.intVal == MagnitudeAt(c, f.scale);
    MagnitudeAtOwnScale(f);
  }

  lemma NegligibleBound(c: int, f: int, p: int)
    requires c >= 1 && 0 <= f <= MAX_I128_REPR && p >= 1
    requires p >= 100000000000000000000000000000000000000000000000000000000000000000000000000000 || c * p + f >= TWO_256
    ensures f * (10 * (MAX_I128_REPR + 1)) < c * p
  {
    MulLe(1, c, p);
  }

  /**
   * Finding: zero plus 10^-80 is zero in the source. The scales are 80
   * apart, beyond the table, so rescale_add returns its zero operand; the
   * corrected function returns 10^-80.
   */
  lemma AddZeroCounterexample()
    ensures RescaleAddBranches(ZERO, Decimal(1, 80, false), false) == Some(ZERO)
    ensures AddInternal(ZERO, Decimal(1, 80, false), false) == Some(Decimal(1, 80, false))
  {
    NumDigitsUnique(1, 1);
    AdjustScaleKeeps(1, 80, false);
  }

  // ---------------------------------------------------------------------
  // Subtraction
  // ---------------------------------------------------------------------

  /** The magnitude of `a` minus that of `b`, both written at the finer of their scales. */
  function MagnitudeDiff(a: Decimal, b: Decimal): int
  {
    var m := Max(a.scale, b.scale);
    MagnitudeAt(a, m) - MagnitudeAt(b, m)
  }

  /**
   * `rescale_sub`, for `a.scale < b.scale`: the coarser magnitude scaled
   * up minus the finer one, the sign flipped when the difference is
   * negative, rounded by adjust_scale. Beyond 38 places the difference is
   * formed in 256 bits while the table reaches and the product fits;
   * otherwise `a` is returned with the given sign.
   */
  function RescaleSub(a: Decimal, b: Decimal, negative: bool): (r: Option<Decimal>)
    requires a.scale < b.scale && b.scale - a.scale < 0x8000
  {
    var e := b.scale - a.scale;
    if e > MAX_PRECISION then
      var wide := if e < 77 then Wide.CheckedMul(Power(e), a.intVal) else None;
      var diff := if wide.Some? then Wide.CheckedSub(wide.value, b.intVal) else None;
      if diff.Some? then
        AdjustScale(diff.value, b.scale, negative)
      else
        Some(FromPartsUnchecked(a.intVal, a.scale, negative))
    else
      var wide := Mul128(a.intVal, PowerLow(e));
      if wide >= b.intVal then
        AdjustScale(wide - b.intVal, b.scale, negative)
      else
        Words(wide);
        AdjustScale(SubU128(b.intVal, wide), b.scale, !negative)
  }

  /**
   * `sub_internal`: the magnitude of `b` taken from that of `a`, under the
   * given sign. A zero `b` leaves `a` as it is; a zero `a` gives `b` with
   * the sign flipped; equal scales subtract the words directly.
   */
  function SubInternal(a: Decimal, b: Decimal, negative: bool): (r: Option<Decimal>)
    requires -0x8000 < a.scale - b.scale < 0x8000
    ensures Valid(a) && Valid(b) && r.Some? ==> Valid(r.value)
  {
    if b.intVal == 0 then
      Some(a)
    else if a.intVal == 0 then
      Some(FromPartsUnchecked(b.intVal, b.scale, !negative))
    else if a.scale != b.scale then
      if a.scale < b.scale then RescaleSub(a, b, negative) else RescaleSub(b, a, !negative)
    else if a.intVal >= b.intVal then
      Some(FromPartsUnchecked(a.intVal - b.intVal, a.scale, negative))
    else
      Some(FromPartsUnchecked(b.intVal - a.intVal, a.scale, !negative))
  }

  /**
   * The source forms the difference exactly unless the scales are more
   * than 38 apart and the table ends or the rescaled coarser magnitude
   * leaves 256 bits.
   */
  predicate DiffFormed(a: Decimal, b: Decimal)
  {
    var coarse := if a.scale < b.scale then a else b;
    var fine := if a.scale < b.scale then b else a;
    fine.scale - coarse.scale <= MAX_PRECISION
      || (fine.scale - coarse.scale < 77 && MagnitudeAt(coarse, fine.scale) < TWO_256)
  }

  /** The sign `sub_internal` gives a difference `d` under the sign `negative`. */
  function DiffSign(d: int, negative: bool): bool
  {
    if d >= 0 then negative else !negative
  }

  /** With the scales apart and both operands non-zero, `rescale_sub` rounds the exact difference. */
  lemma RescaleSubDiff(c: Decimal, f: Decimal, negative: bool)
    requires c.scale < f.scale && f.scale - c.scale < 0x8000 && DiffFormed(c, f)
    requires c.intVal != 0 && f.intVal <= MAX_I128_REPR
    ensures var d := MagnitudeDiff(c, f);
      && (if d >= 0 then d else -d) < TWO_256
      && RescaleSub(c, f, negative) == AdjustScale(if d >= 0 then d else -d, f.scale, DiffSign(d, negative))
  {
    if f.scale - c.scale > MAX_PRECISION {
      RescaleSubWide(c, f, negative);
    } else {
      RescaleSubNarrow(c, f, negative);
    }
  }

  lemma RescaleSubWide(c: Decimal, f: Decimal, negative: bool)
    requires MAX_PRECISION < f.scale - c.scale < 77 && MagnitudeAt(c, f.scale) < TWO_256
    requires c.intVal != 0 && f.intVal <= MAX_I128_REPR
    ensures var d := MagnitudeDiff(c, f);
      && 0 <= d < TWO_256
      && RescaleSub(c, f, negative) == AdjustScale(d, f.scale, negative)
  {
    var e := f.scale - c.scale;
    var w := MagnitudeAt(c, f.scale);
    assert MagnitudeDiff(c, f) == w - f.intVal;
    WideProduct(c.intVal, e);
    assert Wide.CheckedMul(Power(e), c.intVal) == Some(w);
    assert Wide.CheckedSub(w, f.intVal) == Some(w - f.intVal);
  }

  /** Beyond 38 places a non-zero magnitude rescaled exceeds every 38-digit one. */
  lemma WideProduct(c: nat, e: nat)
    requires MAX_PRECISION < e < 77 && c >= 1
    ensures Power(e) * c == c * Pow10(e)
    ensures c * Pow10(e) >= 10 * (MAX_I128_REPR + 1)
  {
    var p := Power(e);
    assert p * c == c * Pow10(e);
    RescaledAtLeast(c, e);
  }

  lemma RescaledAtLeast(c: nat, e: nat)
    requires MAX_PRECISION < e && c >= 1
    ensures c * Pow10(e) >= 10 * (MAX_I128_REPR + 1)
  {
    var k: nat := MAX_PRECISION;
    MaxReprIsPow10();
    Pow10Monotone(k + 1, e);
    MulLe(1, c, Pow10(e));
  }

  lemma RescaleSubNarrow(c: Decimal, f: Decimal, negative: bool)
    requires 0 < f.scale - c.scale <= MAX_PRECISION
    ensures var d := MagnitudeDiff(c, f);
      && (if d >= 0 then d else -d) < TWO_256
      && RescaleSub(c, f, negative) == AdjustScale(if d >= 0 then d else -d, f.scale, DiffSign(d, negative))
  {
    var e := f.scale - c.scale;
    var w := MagnitudeAt(c, f.scale);
    assert MagnitudeDiff(c, f) == w - f.intVal;
    assert Mul128(c.intVal, PowerLow(e)) == w;
  }

  /** A zero difference rounds to the same result under either sign. */
  lemma AdjustScaleZeroSign(scale: i16)
    ensures AdjustScale(0, scale, true) == AdjustScale(0, scale, false)
  {
  }

  /**
   * For non-zero operands whose difference the source forms exactly,
   * `sub_internal` is that difference's magnitude under the sign it
   * implies, kept on equal scales and otherwise rounded by adjust_scale at
   * the finer scale.
   */
  lemma SubInternalDiff(a: Decimal, b: Decimal, negative: bool)
    requires -0x8000 < a.scale - b.scale < 0x8000
    requires Valid(a) && Valid(b) && a.intVal != 0 && b.intVal != 0 && DiffFormed(a, b)
    ensures var d := MagnitudeDiff(a, b); var n := if d >= 0 then d else -d;
      && n < TWO_256
      && SubInternal(a, b, negative) ==
        if a.scale == b.scale then Some(FromPartsUnchecked(n, a.scale, DiffSign(d, negative)))
        else AdjustScale(n, Max(a.scale, b.scale), DiffSign(d, negative))
  {
    var d := MagnitudeDiff(a, b);
    if a.scale < b.scale {
      RescaleSubDiff(a, b, negative);
    } else if b.scale < a.scale {
      RescaleSubDiff(b, a, !negative);
      assert MagnitudeDiff(b, a) == -d;
      AdjustScaleZeroSign(a.scale);
    } else {
      assert d == a.intVal - b.intVal;
    }
  }

  /**
   * A non-zero difference of at most 38 digits whose leading digit lies
   * in the scale window comes out exact: the result denotes the
   * difference under the given sign.
   */
  lemma SubInternalExact(a: Decimal, b: Decimal, negative: bool)
    requires -0x8000 < a.scale - b.scale < 0x8000
    requires Valid(a) && Valid(b) && a.intVal != 0 && b.intVal != 0
    requires var d := MagnitudeDiff(a, b); var n := if d >= 0 then d else -d;
      && 0 < n <= MAX_I128_REPR
      && MIN_SCALE <= Max(a.scale, b.scale) - NumDigits(n) <= MAX_SCALE
    ensures SubInternal(a, b, negative).Some?
    ensures var r := SubInternal(a, b, negative).value; var m := Max(a.scale, b.scale); var d := MagnitudeDiff(a, b);
      r.scale <= m && AtScale(r, m) == if negative then -d else d
  {
    var d := MagnitudeDiff(a, b);
    var n := if d >= 0 then d else -d;
    var m := Max(a.scale, b.scale);
    if a.scale < b.scale && b.scale - a.scale > MAX_PRECISION {
      RescaledAtLeast(a.intVal, b.scale - a.scale);
      assert false;
    }
    if b.scale < a.scale && a.scale - b.scale > MAX_PRECISION {
      RescaledAtLeast(b.intVal, a.scale - b.scale);
      assert false;
    }
    SubInternalDiff(a, b, negative);
    if a.scale != b.scale {
      MaxReprIsPow10();
      NumDigitsBelow(n, MAX_PRECISION);
      AdjustScaleExact(n, m, DiffSign(d, negative));
    }
  }

  /**
   * When the difference is not formed, `sub_internal` returns the coarser
   * operand under the sign it has in the difference; the finer one it
   * drops is below a 10^39-th of it.
   */
  lemma SubInternalDropsNegligible(a: Decimal, b: Decimal, negative: bool)
    requires -0x8000 < a.scale - b.scale < 0x8000
    requires Valid(a) && Valid(b) && a.intVal != 0 && b.intVal != 0 && !DiffFormed(a, b)
    ensures SubInternal(a, b, negative) ==
      if a.scale < b.scale then Some(Decimal(a.intVal, a.scale, negative)) else Some(Decimal(b.intVal, b.scale, !negative))
    ensures var coarse := if a.scale < b.scale then a else b;
      var fine := if a.scale < b.scale then b else a;
      fine.intVal * (10 * (MAX_I128_REPR + 1)) < MagnitudeAt(coarse, fine.scale)
  {
    var coarse := if a.scale < b.scale then a else b;
    var fine := if a.scale < b.scale then b else a;
    var e: nat := fine.scale - coarse.scale;
    if a.scale < b.scale {
      RescaleSubFallback(a, b, negative);
    } else {
      RescaleSubFallback(b, a, !negative);
    }
    if e >= 77 {
      Pow10Monotone(77, e);
      Pow10Literals70();
    }
    NegligibleBound(coarse.intVal, fine.intVal, Pow10(e));
  }

  /** The fallback branch of `rescale_sub`. */
  lemma RescaleSubFallback(c: Decimal, f: Decimal, negative: bool)
    requires c.scale < f.scale && f.scale - c.scale < 0x8000 && !DiffFormed(c, f) && c.intVal != 0
    ensures RescaleSub(c, f, negative) == Some(Decimal(c.intVal, c.scale, negative))
    ensures f.scale - c.scale >= 77 || MagnitudeAt(c, f.scale) >= TWO_256
  {
    var e := f.scale - c.scale;
    assert e > MAX_PRECISION;
    if e < 77 {
      assert Power(e) * c.intVal == MagnitudeAt(c, f.scale);
      assert Wide.CheckedMul(Power(e), c.intVal) == None;
    }
    assert RescaleSub(c, f, negative) == Some(FromPartsUnchecked(c.intVal, c.scale, negative));
  }

  // ---------------------------------------------------------------------
  // checked_add and checked_sub
  // ---------------------------------------------------------------------

  /** `checked_add`: operands of opposite signs subtract, the negative one taken from the other. */
  function CheckedAdd(a: Decimal, b: Decimal): (r: Option<Decimal>)
    requires -0x8000 < a.scale - b.scale < 0x8000
    ensures Valid(a) && Valid(b) && r.Some? ==> Valid(r.value)
  {
    if a.negative != b.negative then
      if b.negative then SubInternal(a, b, a.negative) else SubInternal(b, a, b.negative)
    else
      AddInternal(a, b, a.negative)
  }

  /** `checked_sub`: operands of opposite signs add; equal signs subtract the magnitudes. */
  function CheckedSub(a: Decimal, b: Decimal): (r: Option<Decimal>)
    requires -0x8000 < a.scale - b.scale < 0x8000
    ensures Valid(a) && Valid(b) && r.Some? ==> Valid(r.value)
  {
    if a.negative != b.negative then
      AddInternal(a, b, a.negative)
    else if a.negative then
      SubInternal(b, a, !a.negative)
    else
      SubInternal(a, b, a.negative)
  }

  /** Addition commutes, result for result. */
  lemma CheckedAddCommutes(a: Decimal, b: Decimal)
    requires -0x8000 < a.scale - b.scale < 0x8000
    ensures CheckedAdd(a, b) == CheckedAdd(b, a)
  {
    if a.negative == b.negative {
      AddInternalCommutes(a, b, a.negative);
    }
  }

  /** A decimal written at scale `m` with its sign: the signed magnitude. */
  lemma SignedMagnitude(d: Decimal, m: int)
    requires m >= d.scale
    ensures AtScale(d, m) == if d.negative then -(MagnitudeAt(d, m) as int) else MagnitudeAt(d, m)
  {
  }

  /** The sum of the values `a` and `b` denote, written at the finer of their scales. */
  function SignedSum(a: Decimal, b: Decimal): int
  {
    var m := Max(a.scale, b.scale);
    AtScale(a, m) + AtScale(b, m)
  }

  /**
   * A non-zero sum of at most 38 digits whose leading digit lies in the
   * scale window is computed exactly, whatever the signs of the operands.
   */
  lemma CheckedAddExact(a: Decimal, b: Decimal)
    requires Valid(a) && Valid(b)
    requires var s := SignedSum(a, b); var n := if s >= 0 then s else -s;
      && 0 < n <= MAX_I128_REPR
      && MIN_SCALE <= Max(a.scale, b.scale) - NumDigits(n) <= MAX_SCALE
    ensures CheckedAdd(a, b).Some?
    ensures var r := CheckedAdd(a, b).value; var m := Max(a.scale, b.scale);
      r.scale <= m && AtScale(r, m) == SignedSum(a, b)
  {
    var m := Max(a.scale, b.scale);
    SignedMagnitude(a, m);
    SignedMagnitude(b, m);
    if a.negative == b.negative {
      AddInternalExact(a, b, a.negative);
    } else if b.negative {
      if a.intVal != 0 {
        SubInternalExact(a, b, a.negative);
      }
    } else {
      if b.intVal != 0 {
        assert Max(b.scale, a.scale) == m;
        SubInternalExact(b, a, b.negative);
      }
    }
  }

  /** The difference of the values `a` and `b` denote, written at the finer of their scales. */
  function SignedDifference(a: Decimal, b: Decimal): int
  {
    var m := Max(a.scale, b.scale);
    AtScale(a, m) - AtScale(b, m)
  }

  /**
   * A non-zero difference of at most 38 digits whose leading digit lies in
   * the scale window is computed exactly, whatever the signs.
   */
  lemma CheckedSubExact(a: Decimal, b: Decimal)
    requires Valid(a) && Valid(b)
    requires var s := SignedDifference(a, b); var n := if s >= 0 then s else -s;
      && 0 < n <= MAX_I128_REPR
      && MIN_SCALE <= Max(a.scale, b.scale) - NumDigits(n) <= MAX_SCALE
    ensures CheckedSub(a, b).Some?
    ensures var r := CheckedSub(a, b).value; var m := Max(a.scale, b.scale);
      r.scale <= m && AtScale(r, m) == SignedDifference(a, b)
  {
    if a.negative != b.negative {
      SubExactMixedSigns(a, b);
    } else if a.negative {
      SubExactNegatives(a, b);
    } else if a.intVal != 0 && b.intVal != 0 {
      SubExactPositives(a, b);
    } else if b.intVal == 0 {
      SubExactZeroSubtrahend(a, b);
    } else {
      SubExactZeroMinuend(a, b);
    }
  }

  /** The difference is in the window CheckedSubExact asks for. */
  predicate DifferenceInWindow(a: Decimal, b: Decimal)
  {
    var s := SignedDifference(a, b); var n := if s >= 0 then s else -s;
    && 0 < n <= MAX_I128_REPR
    && MIN_SCALE <= Max(a.scale, b.scale) - NumDigits(n) <= MAX_SCALE
  }

  /** CheckedSub gives the exact difference at the finer scale or one coarser. */
  predicate ExactDifference(a: Decimal, b: Decimal)
    requires -0x8000 < a.scale - b.scale < 0x8000
  {
    CheckedSub(a, b).Some? &&
    var r := CheckedSub(a, b).value; var m := Max(a.scale, b.scale);
    r.scale <= m && AtScale(r, m) == SignedDifference(a, b)
  }

  lemma SubExactMixedSigns(a: Decimal, b: Decimal)
    requires Valid(a) && Valid(b) && DifferenceInWindow(a, b) && a.negative != b.negative
    ensures ExactDifference(a, b)
  {
    var m := Max(a.scale, b.scale);
    SignedMagnitude(a, m);
    SignedMagnitude(b, m);
    AddInternalExact(a, b, a.negative);
  }

  lemma SubExactNegatives(a: Decimal, b: Decimal)
    requires Valid(a) && Valid(b) && DifferenceInWindow(a, b) && a.negative && b.negative
    ensures ExactDifference(a, b)
  {
    var m := Max(a.scale, b.scale);
    SignedMagnitude(a, m);
    SignedMagnitude(b, m);
    assert Max(b.scale, a.scale) == m;
    SubInternalExact(b, a, !a.negative);
  }

  lemma SubExactPositives(a: Decimal, b: Decimal)
    requires Valid(a) && Valid(b) && DifferenceInWindow(a, b) && !a.negative && !b.negative
    requires a.intVal != 0 && b.intVal != 0
    ensures ExactDifference(a, b)
  {
    var m := Max(a.scale, b.scale);
    SignedMagnitude(a, m);
    SignedMagnitude(b, m);
    SubInternalExact(a, b, a.negative);
  }

  lemma SubExactZeroSubtrahend(a: Decimal, b: Decimal)
    requires Valid(a) && Valid(b) && !a.negative && !b.negative && b.intVal == 0
    ensures ExactDifference(a, b)
  {
    var m := Max(a.scale, b.scale);
    assert CheckedSub(a, b) == Some(a);
    assert AtScale(b, m) == 0 * Pow10(m - b.scale) == 0;
  }

  lemma SubExactZeroMinuend(a: Decimal, b: Decimal)
    requires Valid(a) && Valid(b) && !a.negative && !b.negative && a.intVal == 0 && b.intVal != 0
    ensures ExactDifference(a, b)
  {
    var m := Max(a.scale, b.scale);
    var r := Decimal(b.intVal, b.scale, true);
    assert CheckedSub(a, b) == Some(r);
    assert AtScale(a, m) == 0 * Pow10(m - a.scale) == 0;
    assert AtScale(r, m) == -(b.intVal as int) * Pow10(m - b.scale) == -AtScale(b, m);
  }

  // ---------------------------------------------------------------------
  // Multiplication
  // ---------------------------------------------------------------------

  /**
   * `checked_mul`: zero if either operand is zero; otherwise the exact
   * 256-bit product of the magnitudes at the summed scale, kept when it
   * has at most 38 digits at scale 0 and rounded by adjust_scale
   * otherwise. The scale sum is an i16 addition.
   */
  function CheckedMul(a: Decimal, b: Decimal): (r: Option<Decimal>)
    requires a.intVal == 0 || b.intVal == 0 || -0x8000 <= a.scale + b.scale < 0x8000
    ensures r.Some? ==> Valid(r.value)
  {
    if a.intVal == 0 || b.intVal == 0 then
      Some(ZERO)
    else
      var scale := a.scale + b.scale;
      var negative := a.negative != b.negative;
      var n := Mul128(a.intVal, b.intVal);
      if !IsDecimalOverflowed(n) && scale == 0 then
        MaxReprIsPow10();
        Words(n);
        Some(FromPartsUnchecked(Low(n), 0, negative))
      else
        AdjustScale(n, scale, negative)
  }

  /** Multiplication commutes, result for result. */
  lemma CheckedMulCommutes(a: Decimal, b: Decimal)
    requires a.intVal == 0 || b.intVal == 0 || -0x8000 <= a.scale + b.scale < 0x8000
    ensures CheckedMul(a, b) == CheckedMul(b, a)
  {
    if a.intVal != 0 && b.intVal != 0 {
      assert Mul128(a.intVal, b.intVal) == Mul128(b.intVal, a.intVal);
    }
  }

  /** A non-zero product is the magnitudes' product rounded by adjust_scale, or kept on the fast path. */
  lemma CheckedMulProduct(a: Decimal, b: Decimal)
    requires a.intVal != 0 && b.intVal != 0 && -0x8000 <= a.scale + b.scale < 0x8000
    ensures var n := a.intVal * b.intVal;
      && n < TWO_256
      && CheckedMul(a, b) ==
        if n <= MAX_I128_REPR && a.scale + b.scale == 0 then Some(Decimal(n, 0, a.negative != b.negative))
        else AdjustScale(n, a.scale + b.scale, a.negative != b.negative)
  {
    MaxReprIsPow10();
    MulBound(a.intVal, b.intVal);
    Words(Mul128(a.intVal, b.intVal));
  }

  /**
   * A product that does not flush to zero or overflow is the product of
   * the magnitudes rounded half up at the result's scale, with the sign
   * the exclusive or of the operand signs; a rounded result has exactly
   * 38 digits.
   */
  lemma CheckedMulRounds(a: Decimal, b: Decimal)
    requires a.intVal != 0 && b.intVal != 0 && -0x8000 <= a.scale + b.scale < 0x8000
    requires a.scale + b.scale - NumDigits(a.intVal * b.intVal) <= MAX_SCALE
    requires CheckedMul(a, b).Some?
    ensures var r := CheckedMul(a, b).value; var s := a.scale + b.scale;
      && r.negative == (a.negative != b.negative)
      && r.scale <= s
      && r.intVal == DivRoundHalfUp(a.intVal * b.intVal, Pow10(s - r.scale))
      && (r.scale < s ==> NumDigits(r.intVal) == MAX_PRECISION)
  {
    var n := a.intVal * b.intVal;
    CheckedMulProduct(a, b);
    MulLe(1, a.intVal, b.intVal);
    if !(n <= MAX_I128_REPR && a.scale + b.scale == 0) {
      AdjustScaleRounds(n, a.scale + b.scale, a.negative != b.negative);
    }
  }

  /**
   * A product of at most 38 digits whose leading digit lies in the scale
   * window is exact: the result denotes the product of the values.
   */
  lemma CheckedMulExact(a: Decimal, b: Decimal)
    requires a.intVal != 0 && b.intVal != 0 && -0x8000 <= a.scale + b.scale < 0x8000
    requires var n := a.intVal * b.intVal;
      n <= MAX_I128_REPR && MIN_SCALE <= a.scale + b.scale - NumDigits(n) <= MAX_SCALE
    ensures CheckedMul(a, b).Some?
    ensures var r := CheckedMul(a, b).value; var s := a.scale + b.scale;
      r.scale <= s && AtScale(r, s) == Signed(a) * Signed(b)
  {
    CheckedMulProduct(a, b);
    ProductOfSigned(a, b);
    if a.scale + b.scale == 0 {
      CheckedMulExactUnscaled(a, b);
    } else {
      CheckedMulExactScaled(a, b);
    }
  }

  /** At scale 0 a product of at most 38 digits is kept as it is. */
  lemma CheckedMulExactUnscaled(a: Decimal, b: Decimal)
    requires a.intVal != 0 && b.intVal != 0 && a.scale + b.scale == 0
    requires a.intVal * b.intVal <= MAX_I128_REPR
    ensures CheckedMul(a, b).Some?
    ensures var r := CheckedMul(a, b).value;
      r.scale <= 0 && AtScale(r, 0) == if a.negative != b.negative then -(a.intVal * b.intVal) else a.intVal * b.intVal
  {
    CheckedMulProduct(a, b);
    var r := Decimal(a.intVal * b.intVal, 0, a.negative != b.negative);
    assert CheckedMul(a, b) == Some(r);
    assert AtScale(r, 0) == Signed(r);
  }

  /** At any other scale the product passes through adjust_scale, which keeps it exactly. */
  lemma CheckedMulExactScaled(a: Decimal, b: Decimal)
    requires a.intVal != 0 && b.intVal != 0 && -0x8000 <= a.scale + b.scale < 0x8000 && a.scale + b.scale != 0
    requires var n := a.intVal * b.intVal;
      n <= MAX_I128_REPR && MIN_SCALE <= a.scale + b.scale - NumDigits(n) <= MAX_SCALE
    ensures CheckedMul(a, b).Some?
    ensures var r := CheckedMul(a, b).value; var s := a.scale + b.scale;
      r.scale <= s && AtScale(r, s) == if a.negative != b.negative then -(a.intVal * b.intVal) else a.intVal * b.intVal
  {
    var n := a.intVal * b.intVal;
    CheckedMulProduct(a, b);
    MulLe(1, a.intVal, b.intVal);
    MaxReprIsPow10();
    NumDigitsBelow(n, MAX_PRECISION);
    AdjustScaleExact(n, a.scale + b.scale, a.negative != b.negative);
  }

  lemma ProductOfSigned(a: Decimal, b: Decimal)
    ensures Signed(a) * Signed(b) == if a.negative != b.negative then -(a.intVal * b.intVal) else a.intVal * b.intVal
  {
  }

  /** Multiplying by one keeps a non-zero decimal whose leading digit lies in the scale window. */
  lemma CheckedMulOne(a: Decimal)
    requires Valid(a) && a.intVal != 0 && MIN_SCALE <= a.scale - NumDigits(a.intVal) <= MAX_SCALE
    ensures CheckedMul(a, ONE) == Some(a)
  {
    if a.scale == 0 {
      MulOneUnscaled(a, Mul128(a.intVal, ONE.intVal));
    } else {
      MulOneScaled(a, Mul128(a.intVal, ONE.intVal));
    }
  }

  lemma MulOneUnscaled(a: Decimal, n: U256)
    requires Valid(a) && a.intVal != 0 && a.scale == 0 && n == Mul128(a.intVal, ONE.intVal)
    ensures CheckedMul(a, ONE) == Some(a)
  {
    assert n == a.intVal;
    MaxReprIsPow10();
    Words(n);
    assert !IsDecimalOverflowed(n);
    assert FromPartsUnchecked(Low(n), 0, a.negative) == a;
  }

  lemma MulOneScaled(a: Decimal, n: U256)
    requires Valid(a) && a.intVal != 0 && a.scale != 0 && n == Mul128(a.intVal, ONE.intVal)
    requires MIN_SCALE <= a.scale - NumDigits(a.intVal) <= MAX_SCALE
    ensures CheckedMul(a, ONE) == Some(a)
  {
    assert n == a.intVal;
    MaxReprIsPow10();
    NumDigitsBelow(a.intVal, MAX_PRECISION);
    AdjustScaleKeeps(n, a.scale, a.negative);
  }

  /** 123456789.987654321 * 987654321.123456789 = 121932632103337905.662094193112635269. */
  lemma CheckedMulExample()
    ensures CheckedMul(Decimal(123456789987654321, 9, false), Decimal(987654321123456789, 9, false))
      == Some(Decimal(121932632103337905662094193112635269, 18, false))
  {
    var n := 121932632103337905662094193112635269;
    assert 123456789987654321 * 987654321123456789 == n;
    Pow10Literals30();
    NumDigitsUnique(n, 36);
    AdjustScaleKeeps(n, 18, false);
  }

  // ---------------------------------------------------------------------
  // Division
  // ---------------------------------------------------------------------

  /** How many places beyond 38 the dividend is scaled: the divisor's extra digits. */
  function DivShift(a: Decimal, b: Decimal): nat
  {
    if Precision(b) > Precision(a) then Precision(b) - Precision(a) else 0
  }

  /** The pre-scaled dividend: the magnitude of `a` times 10^(38 + shift). */
  function ScaledDividend(a: Decimal, b: Decimal): nat
  {
    a.intVal * Pow10(MAX_PRECISION + DivShift(a, b))
  }

  /**
   * `checked_div`: None for a zero divisor, zero for a zero dividend;
   * otherwise the dividend's magnitude, scaled by 10^38 and by the
   * divisor's extra digits, divided with half-up rounding and passed to
   * adjust_scale at the scale that keeps the quotient's value.
   */
  function CheckedDiv(a: Decimal, b: Decimal): (r: Option<Decimal>)
    requires a.intVal == 0 || b.intVal == 0 ||
      (-0x8000 <= a.scale - b.scale && a.scale - b.scale + MAX_PRECISION + DivShift(a, b) < 0x8000)
    ensures r.Some? ==> Valid(r.value)
  {
    if b.intVal == 0 then
      None
    else if a.intVal == 0 then
      Some(ZERO)
    else
      var dividend := Dividend(a, b);
      var negative := a.negative != b.negative;
      var q := Div128Round(dividend, b.intVal);
      var scale := a.scale - b.scale + MAX_PRECISION + DivShift(a, b);
      AdjustScale(q, scale, negative)
  }

  /**
   * The dividend of `checked_div`: the magnitude of `a` widened by 10^38,
   * and by the divisor's extra digits when it has more than `a`.
   */
  function Dividend(a: Decimal, b: Decimal): (r: U256)
    ensures r == ScaledDividend(a, b)
  {
    var k: nat := MAX_PRECISION;
    var bp := Precision(b);
    var ap := Precision(a);
    if bp > ap then
      MagnitudeDigits(b.intVal);
      DividendFits(a.intVal, ap, bp);
      var p := Power(k + (bp - ap));
      assert a.intVal * p == ScaledDividend(a, b);
      p * a.intVal
    else
      assert a.intVal * Pow10(k) == ScaledDividend(a, b);
      Mul128(a.intVal, PowerLow(k))
  }

  /** A magnitude of `ap` digits scaled by 10^(38 + bp - ap) stays below 10^77. */
  lemma DividendFits(n: nat, ap: nat, bp: nat)
    requires ap == NumDigits(n) && ap < bp <= 39
    ensures MAX_PRECISION + (bp - ap) <= 76
    ensures Power(MAX_PRECISION + (bp - ap)) * n < TWO_256
  {
    var k: nat := MAX_PRECISION + (bp - ap);
    NumDigitsBounds(n);
    Pow10Add(k, ap);
    Pow10Monotone(k + ap, 77);
    Pow10Fits256();
    ScaledBelow(n, Pow10(ap), Pow10(k), TWO_256);
    assert Power(k) == Pow10(k);
  }

  lemma ScaledBelow(n: nat, pa: nat, pk: nat, bound: nat)
    requires n <= pa && pk * pa < bound
    ensures pk * n < bound
  {
    MulLe(n, pa, pk);
  }

  /** A half-up quotient is at least `p` when `p` divisors fit in the dividend, and at most the dividend. */
  lemma QuotientAtLeast(n: nat, d: nat, p: nat)
    requires d > 0 && p * d <= n
    ensures p <= DivRoundHalfUp(n, d) <= n
  {
    var q := DivRoundHalfUp(n, d);
    DivRoundHalfUpNearest(n, d);
    if q < p {
      MulLe(2 * q + 1, 2 * p, d);
      assert false;
    }
    if q > n {
      MulLe(1, d, 2 * q - 1);
      assert false;
    }
  }

  /** A dividend of `NumDigits(n)` digits scaled by 10^(k + shift), past the divisor's digits, holds 10^(k-1) divisors. */
  lemma DividendAtLeast(n: nat, m: nat, shift: nat, k: nat)
    requires n != 0 && m != 0 && k >= 1
    requires NumDigits(m) <= NumDigits(n) + shift
    ensures Pow10(k - 1) * m <= n * Pow10(k + shift)
  {
    var ap, bp := NumDigits(n), NumDigits(m);
    NumDigitsBounds(n);
    NumDigitsBounds(m);
    var unit, low, scaled := Pow10(k - 1), Pow10(ap - 1), Pow10(k + shift);
    calc {
      unit * m;
    <= { MulLe(m, Pow10(bp), unit); }
      Pow10(bp) * unit;
    == { Pow10Add(bp, k - 1); }
      Pow10(bp + (k - 1));
    <= { Pow10Monotone(bp + (k - 1), ap - 1 + (k + shift)); }
      Pow10(ap - 1 + (k + shift));
    == { Pow10Add(ap - 1, k + shift); }
      low * scaled;
    <= { MulLe(low, n, scaled); }
      n * scaled;
    }
  }

  /** A half-up quotient of a dividend holding 10^(k-1) divisors has at least k digits. */
  lemma QuotientDigits(n: nat, d: nat, k: nat)
    requires d > 0 && k >= 1 && Pow10(k - 1) * d <= n
    ensures NumDigits(DivRoundHalfUp(n, d)) >= k && DivRoundHalfUp(n, d) <= n
  {
    var q := DivRoundHalfUp(n, d);
    QuotientAtLeast(n, d, Pow10(k - 1));
    NumDigitsBounds(q);
    if NumDigits(q) < k {
      Pow10Monotone(NumDigits(q), k - 1);
    }
  }

  /**
   * A division by a non-zero divisor rounds the pre-scaled dividend over
   * the divisor half up, and that quotient has at least 38 digits; the
   * result is adjust_scale of it, with the exclusive or of the signs.
   */
  lemma CheckedDivRounds(a: Decimal, b: Decimal)
    requires a.intVal != 0 && b.intVal != 0
    requires -0x8000 <= a.scale - b.scale && a.scale - b.scale + MAX_PRECISION + DivShift(a, b) < 0x8000
    ensures var q := DivRoundHalfUp(ScaledDividend(a, b), b.intVal);
      && MAX_PRECISION <= NumDigits(q) && q < TWO_256
      && CheckedDiv(a, b) ==
        AdjustScale(q, a.scale - b.scale + MAX_PRECISION + DivShift(a, b), a.negative != b.negative)
  {
    ScaledQuotientDigits(a, b, MAX_PRECISION);
    var d := Dividend(a, b);
    assert Div128Round(d, b.intVal) == DivRoundHalfUp(ScaledDividend(a, b), b.intVal);
  }

  /** The half-up quotient of the pre-scaled dividend has at least k digits and is no larger than the dividend. */
  lemma ScaledQuotientDigits(a: Decimal, b: Decimal, k: nat)
    requires a.intVal != 0 && b.intVal != 0 && k == MAX_PRECISION
    ensures var q := DivRoundHalfUp(ScaledDividend(a, b), b.intVal);
      k <= NumDigits(q) && q <= ScaledDividend(a, b)
  {
    MagnitudeDigits(a.intVal);
    MagnitudeDigits(b.intVal);
    DividendAtLeast(a.intVal, b.intVal, DivShift(a, b), k);
    QuotientDigits(ScaledDividend(a, b), b.intVal, k);
  }

  /**
   * A quotient the divisor divides exactly, whose dropped digits are zero
   * and whose leading digit lies in the scale window, is exact: the result
   * times the divisor is the dividend, both written at the result's scale
   * shifted by the dividend's widening.
   */
  lemma CheckedDivExact(a: Decimal, b: Decimal)
    requires a.intVal != 0 && b.intVal != 0
    requires -0x8000 <= a.scale - b.scale && a.scale - b.scale + MAX_PRECISION + DivShift(a, b) < 0x8000
    requires ScaledDividend(a, b) % b.intVal == 0
    requires var q := ScaledDividend(a, b) / b.intVal; var s := a.scale - b.scale + MAX_PRECISION + DivShift(a, b);
      && MIN_SCALE <= s - NumDigits(q) <= MAX_SCALE
      && (NumDigits(q) > MAX_PRECISION ==> q % Pow10(NumDigits(q) - MAX_PRECISION) == 0)
    ensures CheckedDiv(a, b).Some?
    ensures var r := CheckedDiv(a, b).value; var s := a.scale - b.scale + MAX_PRECISION + DivShift(a, b);
      r.scale <= s && AtScale(r, s) * Signed(b) == Signed(a) * Pow10(MAX_PRECISION + DivShift(a, b))
  {
    var d := ScaledDividend(a, b);
    var q := d / b.intVal;
    var s := a.scale - b.scale + MAX_PRECISION + DivShift(a, b);
    var negative := a.negative != b.negative;
    CheckedDivRounds(a, b);
    assert DivRoundHalfUp(d, b.intVal) == q;
    assert q * b.intVal == d;
    AdjustScaleExact(q, s, negative);
    var r := CheckedDiv(a, b).value;
    QuotientSign(AtScale(r, s), q, a, b, Pow10(MAX_PRECISION + DivShift(a, b)));
  }

  /** The signed quotient times the signed divisor is the signed dividend. */
  lemma QuotientSign(x: int, q: nat, a: Decimal, b: Decimal, p: nat)
    requires q * b.intVal == a.intVal * p
    requires x == if a.negative != b.negative then -(q as int) else q
    ensures x * Signed(b) == Signed(a) * p
  {
  }

  /** 1 / 3 rounds half up at 38 digits: 0.33333333333333333333333333333333333333. */
  lemma CheckedDivOneThird()
    ensures CheckedDiv(ONE, Decimal(3, 0, false)) == Some(Decimal(33333333333333333333333333333333333333, 38, false))
  {
    var three := Decimal(3, 0, false);
    var q := 33333333333333333333333333333333333333;
    Pow10Literals30();
    assert NumDigits(1) == 1 && NumDigits(3) == 1;
    assert DivShift(ONE, three) == 0;
    assert ScaledDividend(ONE, three) == 100000000000000000000000000000000000000;
    CheckedDivRounds(ONE, three);
    assert DivRoundHalfUp(ScaledDividend(ONE, three), 3) == q;
    NumDigitsUnique(q, 38);
    AdjustScaleKeeps(q, 38, false);
  }

  /**
   * A non-zero decimal divided by itself is 1.0000000000000000000000000000000000000,
   * 38 digits at scale 37: the quotient 10^38 rounded once to 38 digits.
   */
  lemma CheckedDivSelf(a: Decimal)
    requires a.intVal != 0
    ensures CheckedDiv(a, a) == Some(Decimal(10000000000000000000000000000000000000, 37, false))
    ensures SameValue(CheckedDiv(a, a).value, ONE)
  {
    var k: nat := MAX_PRECISION;
    var p := Pow10(k);
    assert DivShift(a, a) == 0;
    assert ScaledDividend(a, a) == a.intVal * p;
    DivModUnique(a.intVal * p, a.intVal, p, 0);
    CheckedDivRounds(a, a);
    assert DivRoundHalfUp(a.intVal * p, a.intVal) == p;
    Pow10Literals30();
    SelfQuotient();
  }

  /** adjust_scale rounds 10^38 at scale 38 to 10^37 at scale 37, the value one. */
  lemma SelfQuotient()
    ensures AdjustScale(100000000000000000000000000000000000000, MAX_PRECISION, false) == Some(Decimal(10000000000000000000000000000000000000, 37, false))
    ensures SameValue(Decimal(10000000000000000000000000000000000000, 37, false), ONE)
  {
    SelfQuotientRounds(100000000000000000000000000000000000000);
    SelfQuotientValue(Decimal(10000000000000000000000000000000000000, 37, false));
  }

  lemma SelfQuotientRounds(n: U256)
    requires n == 100000000000000000000000000000000000000
    ensures AdjustScale(n, MAX_PRECISION, false) == Some(Decimal(10000000000000000000000000000000000000, 37, false))
  {
    Pow10Literals30();
    NumDigitsUnique(n, 39);
    assert DivRoundHalfUp(n, Pow10(1)) == 10000000000000000000000000000000000000;
    assert !CarriesOver(n);
    AdjustScaleRoundsOnce(n, MAX_PRECISION, false);
  }

  lemma SelfQuotientValue(r: Decimal)
    requires r == Decimal(10000000000000000000000000000000000000, 37, false)
    ensures SameValue(r, ONE)
  {
    Pow10Literals30();
    assert Max(r.scale, ONE.scale) == 37;
    assert AtScale(r, 37) == 10000000000000000000000000000000000000 * Pow10(0);
    assert AtScale(ONE, 37) == 1 * Pow10(37);
  }

  // ---------------------------------------------------------------------
  // Remainder
  // ---------------------------------------------------------------------

  /** Both operands non-zero, the divisor finer by more than 38 places: `checked_rem`'s wide branch. */
  predicate WideRemBranch(a: Decimal, b: Decimal)
  {
    a.intVal != 0 && b.intVal != 0 && a.scale < b.scale && b.scale - a.scale > MAX_PRECISION
  }

  /**
   * In the wide branch with a gap below 77 places, the source multiplies
   * the dividend by 10^gap in 256 bits without a check; this says the
   * product fits.
   */
  predicate RemProductFits(a: Decimal, b: Decimal)
  {
    !WideRemBranch(a, b) || b.scale - a.scale >= 77 || a.intVal * Pow10(b.scale - a.scale) < TWO_256
  }

  /**
   * `checked_rem` as written: None for a zero divisor, zero for a zero
   * dividend; equal scales take the remainder of the magnitudes; a
   * divisor finer by at most 38 places rescales the dividend in 256 bits
   * and passes the remainder to adjust_scale, and one finer by more builds
   * the result from the remainder directly (rescaling by 10^38 only, at
   * the dividend's scale plus 38, when the gap reaches 77); a dividend
   * finer by more than 38 places is returned as it is, and by at most 38
   * places is reduced modulo the rescaled divisor.
   */
  function CheckedRemAsWritten(a: Decimal, b: Decimal): (r: Option<Decimal>)
    requires a.intVal == 0 || b.intVal == 0 || -0x8000 < a.scale - b.scale < 0x8000
    requires RemProductFits(a, b)
    ensures Valid(a) && Valid(b) && r.Some? && (r.value.intVal != 0 || !WideRemBranch(a, b)) ==> Valid(r.value)
  {
    if b.intVal == 0 then
      None
    else if a.intVal == 0 then
      Some(ZERO)
    else if a.scale == b.scale then
      Some(FromPartsUnchecked(a.intVal % b.intVal, a.scale, a.negative))
    else if a.scale < b.scale then
      var e := b.scale - a.scale;
      if e > MAX_PRECISION then
        Some(WideRemAsWritten(a, b))
      else
        AdjustScale(Mul128(a.intVal, PowerLow(e)) % b.intVal, b.scale, a.negative)
    else
      var e := a.scale - b.scale;
      if e > MAX_PRECISION then
        Some(a)
      else
        AdjustScale(a.intVal % Mul128(b.intVal, PowerLow(e)), a.scale, a.negative)
  }

  /**
   * The branch of `checked_rem` for a divisor more than 38 places finer:
   * the dividend is rescaled by 10^gap in 256 bits (by 10^38 only from a
   * gap of 77 on) and the remainder's low word is taken as the magnitude,
   * without canonicalising a zero.
   */
  function WideRemAsWritten(a: Decimal, b: Decimal): (r: Decimal)
    requires WideRemBranch(a, b) && b.scale - a.scale < 0x8000 && RemProductFits(a, b)
    ensures Valid(a) && Valid(b) && r.intVal != 0 ==> Valid(r)
  {
    var e := b.scale - a.scale;
    var k: nat := MAX_PRECISION;
    var (n, scale) :=
      if e >= 77 then (Mul128(a.intVal, PowerLow(k)), a.scale + k)
      else (var p := Power(e); p * a.intVal, b.scale);
    var (_, rem) := DivRem(n, b.intVal);
    Words(rem);
    Decimal(Low(rem), scale, a.negative)
  }

  /**
   * `checked_rem` corrected: the wide branch takes the exact remainder of
   * the rescaled dividend (no 256-bit product) and builds its result with
   * from_parts_unchecked, so a zero remainder is ZERO; a gap of 77 places
   * or more keeps the source's rescaling by 10^38. Everything else is as
   * written.
   */
  function CheckedRem(a: Decimal, b: Decimal): (r: Option<Decimal>)
    requires a.intVal == 0 || b.intVal == 0 || -0x8000 < a.scale - b.scale < 0x8000
    ensures Valid(a) && Valid(b) && r.Some? ==> Valid(r.value)
  {
    if WideRemBranch(a, b) then
      var k: nat := MAX_PRECISION;
      if b.scale - a.scale >= 77 then
        Some(FromPartsUnchecked(a.intVal * Pow10(k) % b.intVal, a.scale + k, a.negative))
      else
        Some(FromPartsUnchecked(MagnitudeAt(a, b.scale) % b.intVal, b.scale, a.negative))
    else
      CheckedRemAsWritten(a, b)
  }

  /** The truncated remainder of the magnitudes, both written at the finer scale. */
  function MagnitudeRem(a: Decimal, b: Decimal): nat
    requires b.intVal != 0
  {
    var m := Max(a.scale, b.scale);
    ProductSign(b.intVal, Pow10(m - b.scale));
    MagnitudeAt(a, m) % MagnitudeAt(b, m)
  }

  /** A remainder of at most 38 digits inside the window passes through adjust_scale unchanged. */
  lemma RemKept(n: nat, m: i16, negative: bool)
    requires n <= MAX_I128_REPR && MIN_SCALE <= m - NumDigits(n)
    requires n != 0 ==> m - NumDigits(n) <= MAX_SCALE
    ensures AdjustScale(n, m, negative) == Some(FromPartsUnchecked(n, m, negative))
  {
    if n != 0 {
      MaxReprIsPow10();
      NumDigitsBelow(n, MAX_PRECISION);
      AdjustScaleKeeps(n, m, negative);
    }
  }

  /** A divisor finer by at most 38 places: the dividend is rescaled exactly. */
  lemma RemFinerDivisor(a: Decimal, b: Decimal)
    requires Valid(a) && Valid(b) && a.intVal != 0 && b.intVal != 0
    requires a.scale < b.scale && b.scale - a.scale <= MAX_PRECISION
    requires var n := MagnitudeRem(a, b);
      MIN_SCALE <= b.scale - NumDigits(n) && (n != 0 ==> b.scale - NumDigits(n) <= MAX_SCALE)
    ensures MagnitudeRem(a, b) <= MAX_I128_REPR
    ensures CheckedRem(a, b) == Some(FromPartsUnchecked(MagnitudeRem(a, b), b.scale, a.negative))
  {
    var e := b.scale - a.scale;
    assert Mul128(a.intVal, PowerLow(e)) == MagnitudeAt(a, b.scale);
    assert MagnitudeAt(b, b.scale) == b.intVal;
    RemKept(MagnitudeRem(a, b), b.scale, a.negative);
  }

  /** A dividend finer by at most 38 places: its magnitude is reduced modulo the rescaled divisor. */
  lemma RemCoarserDivisor(a: Decimal, b: Decimal)
    requires Valid(a) && Valid(b) && a.intVal != 0 && b.intVal != 0
    requires b.scale < a.scale && a.scale - b.scale <= MAX_PRECISION
    requires var n := MagnitudeRem(a, b);
      MIN_SCALE <= a.scale - NumDigits(n) && (n != 0 ==> a.scale - NumDigits(n) <= MAX_SCALE)
    ensures MagnitudeRem(a, b) <= MAX_I128_REPR
    ensures CheckedRem(a, b) == Some(FromPartsUnchecked(MagnitudeRem(a, b), a.scale, a.negative))
  {
    var e := a.scale - b.scale;
    var d := Mul128(b.intVal, PowerLow(e));
    assert d == MagnitudeAt(b, a.scale);
    assert MagnitudeAt(a, a.scale) == a.intVal;
    ProductSign(b.intVal, Pow10(e));
    ModAtMost(a.intVal, d);
    RemKept(MagnitudeRem(a, b), a.scale, a.negative);
  }

  lemma ModAtMost(x: nat, d: nat)
    requires d > 0
    ensures x % d <= x
  {
    if x < d {
      DivModUnique(x, d, 0, x);
    }
  }

  /** A dividend finer by more than 38 places is smaller than the rescaled divisor, so it is its own remainder. */
  lemma RemFarCoarserDivisor(a: Decimal, b: Decimal)
    requires Valid(a) && Valid(b) && a.intVal != 0 && b.intVal != 0
    requires b.scale < a.scale && a.scale - b.scale > MAX_PRECISION
    ensures MagnitudeRem(a, b) == a.intVal
    ensures CheckedRem(a, b) == Some(FromPartsUnchecked(MagnitudeRem(a, b), a.scale, a.negative))
  {
    var e: nat := a.scale - b.scale;
    RescaledAtLeast(b.intVal, e);
    assert MagnitudeAt(a, a.scale) == a.intVal;
    DivModUnique(a.intVal, b.intVal * Pow10(e), 0, a.intVal);
  }

  /**
   * The remainder of the corrected `checked_rem` is the truncated
   * remainder of the magnitudes at the finer scale, with the dividend's
   * sign: the sign and the remainder of Rust's integer `%`. It holds for
   * every gap below 77 places where the scale window admits the remainder.
   */
  lemma CheckedRemExact(a: Decimal, b: Decimal)
    requires Valid(a) && Valid(b) && a.intVal != 0 && b.intVal != 0
    requires !(a.scale < b.scale && b.scale - a.scale >= 77)
    requires var n := MagnitudeRem(a, b); var m := Max(a.scale, b.scale);
      MIN_SCALE <= m - NumDigits(n) && (n != 0 ==> m - NumDigits(n) <= MAX_SCALE)
    ensures MagnitudeRem(a, b) <= MAX_I128_REPR
    ensures CheckedRem(a, b) == Some(FromPartsUnchecked(MagnitudeRem(a, b), Max(a.scale, b.scale), a.negative))
  {
    if a.scale == b.scale {
      assert MagnitudeAt(a, a.scale) == a.intVal && MagnitudeAt(b, a.scale) == b.intVal;
    } else if a.scale < b.scale {
      if b.scale - a.scale <= MAX_PRECISION {
        RemFinerDivisor(a, b);
      } else {
        assert MagnitudeAt(b, b.scale) == b.intVal;
      }
    } else if a.scale - b.scale <= MAX_PRECISION {
      RemCoarserDivisor(a, b);
    } else {
      RemFarCoarserDivisor(a, b);
    }
  }

  /**
   * As written, -1 % 0.000000000000000000000000000000000000001 (a gap of
   * 39 places) builds a zero magnitude with the dividend's sign bit set:
   * not a valid decimal, and one that `cmp` orders below ZERO. The
   * corrected form returns ZERO.
   */
  lemma RemNegativeZeroCounterexample()
    ensures var a, b := Decimal(1, 0, true), Decimal(1, 39, false);
      && Valid(a) && Valid(b) && RemProductFits(a, b)
      && CheckedRemAsWritten(a, b) == Some(Decimal(0, 39, true))
      && !Valid(Decimal(0, 39, true)) && Cmp(Decimal(0, 39, true), ZERO) == Less
      && CheckedRem(a, b) == Some(ZERO)
  {
    var a, b := Decimal(1, 0, true), Decimal(1, 39, false);
    Pow10Literals30();
    assert Power(39) * 1 == 1000000000000000000000000000000000000000;
    assert DivRem(1000000000000000000000000000000000000000, 1).1 == 0;
    assert MagnitudeAt(a, 39) % 1 == 0;
  }

  /**
   * As written, 10000000000000000000000000000000000000 % 3e-76 multiplies
   * the dividend by 10^76 in 256 bits, and 10^113 does not fit (a panic,
   * or a wrapped product without overflow checks), although both operands
   * are valid. The corrected form gives the exact remainder 1e-76.
   */
  lemma RemOverflowCounterexample()
    ensures var a, b := Decimal(10000000000000000000000000000000000000, 0, false), Decimal(3, 76, false);
      && Valid(a) && Valid(b) && !RemProductFits(a, b)
      && CheckedRem(a, b) == Some(Decimal(1, 76, false))
  {
    var a, b := Decimal(10000000000000000000000000000000000000, 0, false), Decimal(3, 76, false);
    Pow10Literals70();
    var n := 10000000000000000000000000000000000000 * Pow10(76);
    assert n == 100000000000000000000000000000000000000000000000000000000000000000000000000000000000000000000000000000000000000000;
    assert n >= TWO_256;
    assert n % 3 == 1;
  }

  /**
   * Where the source's product fits, the two forms fail together, agree on
   * every non-zero result, and differ on a zero remainder only in that the
   * corrected form returns ZERO.
   */
  lemma CheckedRemAsWrittenAgrees(a: Decimal, b: Decimal)
    requires a.intVal == 0 || b.intVal == 0 || -0x8000 < a.scale - b.scale < 0x8000
    requires RemProductFits(a, b)
    ensures var w, c := CheckedRemAsWritten(a, b), CheckedRem(a, b);
      && (w.Some? <==> c.Some?)
      && (w.Some? && w.value.intVal != 0 ==> w == c)
      && (w.Some? && w.value.intVal == 0 ==> c == Some(ZERO))
  {
    if WideRemBranch(a, b) {
      WideRemAgrees(a, b);
    }
  }

  /** In the wide branch the corrected form is the source's, with a zero remainder made ZERO. */
  lemma WideRemAgrees(a: Decimal, b: Decimal)
    requires WideRemBranch(a, b) && b.scale - a.scale < 0x8000 && RemProductFits(a, b)
    ensures var w := WideRemAsWritten(a, b);
      CheckedRem(a, b) == Some(if w.intVal == 0 then ZERO else w)
  {
    if b.scale - a.scale < 77 {
      WideRemNear(a, b);
      var x := MagnitudeAt(a, b.scale) % b.intVal;
      assert CheckedRem(a, b) == Some(FromPartsUnchecked(x, b.scale, a.negative));
    } else {
      var k: nat := MAX_PRECISION;
      WideRemFar(a, b, k);
      var x := a.intVal * Pow10(k) % b.intVal;
      assert CheckedRem(a, b) == Some(FromPartsUnchecked(x, a.scale + k, a.negative));
    }
  }

  /** Below 77 places the source's wide branch is the remainder of the exactly rescaled dividend. */
  lemma WideRemNear(a: Decimal, b: Decimal)
    requires WideRemBranch(a, b) && b.scale - a.scale < 77 && RemProductFits(a, b)
    ensures WideRemAsWritten(a, b) == Decimal(MagnitudeAt(a, b.scale) % b.intVal, b.scale, a.negative)
  {
    var p := Power(b.scale - a.scale);
    assert p * a.intVal == MagnitudeAt(a, b.scale);
    var rem := DivRem(p * a.intVal, b.intVal).1;
    DivModUnique(p * a.intVal, b.intVal, DivRem(p * a.intVal, b.intVal).0, rem);
    Words(rem);
  }

  /** From 77 places on the source's wide branch rescales the dividend by 10^38 only. */
  lemma WideRemFar(a: Decimal, b: Decimal, k: nat)
    requires WideRemBranch(a, b) && 77 <= b.scale - a.scale < 0x8000 && k == MAX_PRECISION
    ensures WideRemAsWritten(a, b) == Decimal(a.intVal * Pow10(k) % b.intVal, a.scale + k, a.negative)
  {
    var n := Mul128(a.intVal, PowerLow(k));
    assert n == a.intVal * Pow10(k);
    var rem := DivRem(n, b.intVal).1;
    DivModUnique(n, b.intVal, DivRem(n, b.intVal).0, rem);
    Words(rem);
  }

  /**
   * A gap of 77 places or more rescales the dividend by 10^38 only: the
   * result is 2e39 for 5e77 % 3, whose exact remainder is 2.
   */
  lemma CheckedRemFarFinerDivisor()
    ensures CheckedRem(Decimal(5, -77, false), Decimal(3, 0, false)) == Some(Decimal(2, -39, false))
    ensures MagnitudeRem(Decimal(5, -77, false), Decimal(3, 0, false)) == 2
  {
    FarFinerRemainder(Decimal(5, -77, false), Decimal(3, 0, false), MAX_PRECISION);
    FarFinerMagnitudeRem(Decimal(5, -77, false), Decimal(3, 0, false), 77);
  }

  lemma FarFinerRemainder(a: Decimal, b: Decimal, k: nat)
    requires a == Decimal(5, -77, false) && b == Decimal(3, 0, false) && k == MAX_PRECISION
    ensures CheckedRem(a, b) == Some(Decimal(2, -39, false))
  {
    Pow10Literals30();
    assert a.intVal * Pow10(k) % b.intVal == 2;
  }

  lemma FarFinerMagnitudeRem(a: Decimal, b: Decimal, e: nat)
    requires a == Decimal(5, -77, false) && b == Decimal(3, 0, false) && e == 77
    ensures MagnitudeRem(a, b) == 2
  {
    Pow10Literals70();
    assert MagnitudeAt(b, 0) == 3;
    assert MagnitudeAt(a, 0) == 5 * Pow10(e);
    assert 5 * Pow10(e) % 3 == 2;
  }
}
