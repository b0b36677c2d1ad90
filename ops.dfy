/**
 * The operator layer (src/ops.rs): negation, the five arithmetic operators
 * as wrappers that panic where the checked operation gives None, their
 * compound-assignment forms, operators with an integer on either side, and
 * the Sum and Product folds.
 */
module Ops {
  import opened Std
  import opened Wide
  import opened Decimals
  import opened Arith
  import opened Convert
  import opened Errors

  // ---------------------------------------------------------------------
  // Negation
  // ---------------------------------------------------------------------

  /** `Neg for Decimal`: the sign bit flipped, except on a zero. */
  function Neg(d: Decimal): (r: Decimal)
    ensures r.intVal == d.intVal && r.scale == d.scale
    ensures Signed(r) == -Signed(d)
    ensures Valid(d) ==> Valid(r)
  {
    if d.intVal != 0 then d.(negative := !d.negative) else d
  }

  /** `Neg for &Decimal`: the parts rebuilt with the sign flipped, a zero becoming ZERO. */
  function NegRef(d: Decimal): (r: Decimal)
    ensures r.intVal == d.intVal
    ensures Signed(r) == -Signed(d)
    ensures r.intVal == 0 ==> r == ZERO
    ensures r.intVal != 0 ==> r.scale == d.scale
    ensures Valid(d) ==> Valid(r)
  {
    if d.intVal != 0 then FromPartsUnchecked(d.intVal, d.scale, !d.negative) else ZERO
  }

  /** Both forms of negation agree on every valid decimal. */
  lemma NegFormsAgree(d: Decimal)
    requires Valid(d)
    ensures Neg(d) == NegRef(d)
  {
  }

  /** Negating twice gives back the decimal itself. */
  lemma NegInvolution(d: Decimal)
    requires Valid(d)
    ensures NegRef(NegRef(d)) == d
  {
  }

  /** Negation lifted to the result of a checked operation. */
  function NegOption(o: Option<Decimal>): (r: Option<Decimal>)
    ensures r.Some? <==> o.Some?
    ensures r.Some? ==> Signed(r.value) == -Signed(o.value)
  {
    match o
    case None => None
    case Some(d) => Some(NegRef(d))
  }

  // ---------------------------------------------------------------------
  // The internal operations under a flipped sign
  // ---------------------------------------------------------------------

  /** Building a magnitude under the opposite sign negates the result. */
  lemma FromPartsFlip(n: u128, scale: i16, negative: bool)
    ensures FromPartsUnchecked(n, scale, !negative) == NegRef(FromPartsUnchecked(n, scale, negative))
  {
  }

  /** adjust_scale under the opposite sign: the same rounding, the result negated. */
  lemma AdjustScaleFlip(n: U256, scale: i16, negative: bool)
    ensures AdjustScale(n, scale, !negative) == NegOption(AdjustScale(n, scale, negative))
  {
    var digits := NumDigits(n);
    var s := scale - digits;
    if s <= MAX_SCALE && s >= MIN_SCALE {
      if digits > MAX_PRECISION {
        var shift := digits - MAX_PRECISION;
        var q := RoundToDigits(n, shift);
        FromPartsFlip(q, scale - shift, negative);
        if q > MAX_I128_REPR && s - 1 >= MIN_SCALE {
          FromPartsFlip(q / 10, scale - shift - 1, negative);
        }
      } else {
        DigitsFit(n);
        FromPartsFlip(n, scale, negative);
      }
    }
  }

  /** rescale_add under the opposite sign. */
  lemma RescaleAddFlip(a: Decimal, b: Decimal, negative: bool)
    requires a.scale < b.scale && b.scale - a.scale < 0x8000
    ensures RescaleAdd(a, b, !negative) == NegOption(RescaleAdd(a, b, negative))
  {
    if a.intVal == 0 {
      AdjustScaleFlip(b.intVal, b.scale, negative);
    } else if b.scale - a.scale > MAX_PRECISION {
      WideRescaleAddFlip(a, b, negative);
    } else {
      var n := MulAdd(a.intVal, PowerLow(b.scale - a.scale), b.intVal);
      NarrowAddArm(a, b, negative, n);
      NarrowAddArm(a, b, !negative, n);
      AdjustScaleFlip(n, b.scale, negative);
    }
  }

  /** With a non-zero coarser operand at most 38 places away, rescale_add rounds the widened sum. */
  lemma NarrowAddArm(a: Decimal, b: Decimal, negative: bool, n: U256)
    requires a.intVal != 0 && 0 < b.scale - a.scale <= MAX_PRECISION
    requires n == MulAdd(a.intVal, PowerLow(b.scale - a.scale), b.intVal)
    ensures RescaleAdd(a, b, negative) == AdjustScale(n, b.scale, negative)
  {
  }

  /** The 256-bit arm of rescale_add under the opposite sign. */
  lemma WideRescaleAddFlip(a: Decimal, b: Decimal, negative: bool)
    requires a.scale < b.scale && MAX_PRECISION < b.scale - a.scale < 0x8000
    ensures RescaleAddBranches(a, b, !negative) == NegOption(RescaleAddBranches(a, b, negative))
  {
    var e := b.scale - a.scale;
    var wide := if e < 77 then Wide.CheckedMul(Power(e), a.intVal) else None;
    var sum := if wide.Some? then Wide.CheckedAdd(wide.value, b.intVal) else None;
    if sum.Some? {
      AdjustScaleFlip(sum.value, b.scale, negative);
    } else {
      FromPartsFlip(a.intVal, a.scale, negative);
    }
  }

  /** add_internal under the opposite sign. */
  lemma AddInternalFlip(a: Decimal, b: Decimal, negative: bool)
    requires -0x8000 < a.scale - b.scale < 0x8000
    ensures AddInternal(a, b, !negative) == NegOption(AddInternal(a, b, negative))
  {
    if a.scale < b.scale {
      RescaleAddFlip(a, b, negative);
    } else if b.scale < a.scale {
      RescaleAddFlip(b, a, negative);
    } else {
      var n := Add128(a.intVal, b.intVal);
      if !IsDecimalOverflowed(n) && a.scale >= 0 {
        MaxReprIsPow10();
        Words(n);
        FromPartsFlip(Low(n), a.scale, negative);
      } else {
        AdjustScaleFlip(n, a.scale, negative);
      }
    }
  }

  /** rescale_sub under the opposite sign. */
  lemma RescaleSubFlip(a: Decimal, b: Decimal, negative: bool)
    requires a.scale < b.scale && b.scale - a.scale < 0x8000
    ensures RescaleSub(a, b, !negative) == NegOption(RescaleSub(a, b, negative))
  {
    if b.scale - a.scale > MAX_PRECISION {
      RescaleSubWideFlip(a, b, negative);
    } else {
      RescaleSubNarrowFlip(a, b, negative);
    }
  }

  /** rescale_sub under the opposite sign, the scales at most 38 places apart. */
  lemma RescaleSubNarrowFlip(a: Decimal, b: Decimal, negative: bool)
    requires 0 < b.scale - a.scale <= MAX_PRECISION
    ensures RescaleSub(a, b, !negative) == NegOption(RescaleSub(a, b, negative))
  {
    var wide := Mul128(a.intVal, PowerLow(b.scale - a.scale));
    if wide >= b.intVal {
      var d := wide - b.intVal;
      assert RescaleSub(a, b, negative) == AdjustScale(d, b.scale, negative);
      assert RescaleSub(a, b, !negative) == AdjustScale(d, b.scale, !negative);
      AdjustScaleFlip(d, b.scale, negative);
    } else {
      Words(wide);
      var d := SubU128(b.intVal, wide);
      assert RescaleSub(a, b, negative) == AdjustScale(d, b.scale, !negative);
      assert RescaleSub(a, b, !negative) == AdjustScale(d, b.scale, negative);
      AdjustScaleFlip(d, b.scale, !negative);
    }
  }

  /** rescale_sub under the opposite sign, the scales more than 38 places apart. */
  lemma RescaleSubWideFlip(a: Decimal, b: Decimal, negative: bool)
    requires a.scale < b.scale && MAX_PRECISION < b.scale - a.scale < 0x8000
    ensures RescaleSub(a, b, !negative) == NegOption(RescaleSub(a, b, negative))
  {
    var e := b.scale - a.scale;
    var wide := if e < 77 then Wide.CheckedMul(Power(e), a.intVal) else None;
    var diff := if wide.Some? then Wide.CheckedSub(wide.value, b.intVal) else None;
    if diff.Some? {
      AdjustScaleFlip(diff.value, b.scale, negative);
    } else {
      FromPartsFlip(a.intVal, a.scale, negative);
    }
  }

  /**
   * sub_internal with its operands swapped gives the negated result. Where
   * an operand is zero the other is returned as it is (or rebuilt with the
   * opposite sign), so there both must carry the sign given.
   */
  lemma SubInternalSwap(x: Decimal, y: Decimal, negative: bool)
    requires Valid(x) && Valid(y)
    requires x.intVal == 0 || y.intVal == 0 ==> !x.negative && !y.negative && !negative
    ensures SubInternal(y, x, negative) == NegOption(SubInternal(x, y, negative))
  {
    if x.intVal != 0 && y.intVal != 0 {
      if x.scale < y.scale {
        RescaleSubFlip(x, y, negative);
      } else if y.scale < x.scale {
        RescaleSubFlip(y, x, !negative);
      } else if x.intVal >= y.intVal {
        FromPartsFlip(x.intVal - y.intVal, x.scale, negative);
      } else {
        FromPartsFlip(y.intVal - x.intVal, x.scale, negative);
      }
    }
  }

  // ---------------------------------------------------------------------
  // Laws of addition and subtraction
  // ---------------------------------------------------------------------

  /** a - b and b - a are negatives of each other, result for result. */
  lemma SubAntisymmetric(a: Decimal, b: Decimal)
    requires Valid(a) && Valid(b)
    ensures Arith.CheckedSub(b, a) == NegOption(Arith.CheckedSub(a, b))
  {
    if a.negative != b.negative {
      AddInternalCommutes(b, a, b.negative);
      AddInternalFlip(a, b, a.negative);
    } else if a.negative {
      SubInternalSwap(b, a, false);
    } else {
      SubInternalSwap(a, b, false);
    }
  }

  /** a + (-a) is ZERO. */
  lemma AddInverse(a: Decimal)
    requires Valid(a)
    ensures Arith.CheckedAdd(a, NegRef(a)) == Some(ZERO)
  {
    if a.intVal == 0 {
      Words(0);
    }
  }

  /** A multiple of 10^e is a multiple of every smaller power of ten. */
  lemma MultipleOfSmallerPower(x: nat, e: nat, k: nat)
    requires k <= e
    ensures (x * Pow10(e)) % Pow10(k) == 0
  {
    var q := x * Pow10(e - k);
    Pow10Add(e - k, k);
    MulAssoc(x, Pow10(e - k), Pow10(k));
    DivModUnique(x * Pow10(e), Pow10(k), q, 0);
  }

  /**
   * a + 0 denotes a, for every valid a whose leading digit lies in the
   * scale window (a negative scale rescales the magnitude, so the
   * representation may change but not the value).
   */
  lemma AddZero(a: Decimal)
    requires Valid(a)
    requires a.intVal != 0 ==> MIN_SCALE <= a.scale - NumDigits(a.intVal) <= MAX_SCALE
    ensures Arith.CheckedAdd(a, ZERO).Some? && SameValue(Arith.CheckedAdd(a, ZERO).value, a)
  {
    if a.intVal == 0 {
      Words(0);
    } else if a.negative {
    } else if a.scale > 0 {
      MaxReprIsPow10();
      NumDigitsBelow(a.intVal, MAX_PRECISION);
      AdjustScaleKeeps(a.intVal, a.scale, false);
    } else if a.scale == 0 {
      MaxReprIsPow10();
      Words(a.intVal);
    } else {
      AddZeroCoarse(a);
    }
  }

  lemma CoarseSumWithZero(a: Decimal)
    requires a.scale < 0
    ensures MagnitudeSum(a, ZERO) == a.intVal * Pow10(-(a.scale as int))
  {
    var m := Max(a.scale, ZERO.scale);
    assert m == 0;
    assert MagnitudeAt(ZERO, m) == 0;
  }

  /** a + 0 for a positive a with a negative scale: the magnitude rescaled to scale 0. */
  lemma AddZeroCoarse(a: Decimal)
    requires Valid(a) && a.intVal != 0 && !a.negative && a.scale < 0
    requires MIN_SCALE <= a.scale - NumDigits(a.intVal) <= MAX_SCALE
    ensures Arith.CheckedAdd(a, ZERO).Some? && SameValue(Arith.CheckedAdd(a, ZERO).value, a)
  {
    if !SumFormed(a, ZERO) {
      AddInternalDropsNegligible(a, ZERO, false);
    } else {
      var n := MagnitudeSum(a, ZERO);
      AddInternalSum(a, ZERO, false);
      assert Arith.CheckedAdd(a, ZERO) == AdjustScale(n, 0, false);
      CoarseSumWithZero(a);
      RescaledToZeroScale(a, n);
    }
  }

  /** The magnitude of a coarse a written at scale 0 passes through adjust_scale without changing its value. */
  lemma RescaledToZeroScale(a: Decimal, n: U256)
    requires Valid(a) && a.intVal != 0 && !a.negative && a.scale < 0
    requires MIN_SCALE <= a.scale - NumDigits(a.intVal) <= MAX_SCALE
    requires n == a.intVal * Pow10(-(a.scale as int))
    ensures AdjustScale(n, 0, false).Some? && SameValue(AdjustScale(n, 0, false).value, a)
  {
    var e: nat := -a.scale;
    NumDigitsShift(a.intVal, e);
    MaxReprIsPow10();
    NumDigitsBelow(a.intVal, MAX_PRECISION);
    if NumDigits(n) > MAX_PRECISION {
      MultipleOfSmallerPower(a.intVal, e, NumDigits(n) - MAX_PRECISION);
    }
    AdjustScaleExact(n, 0, false);
    var r := AdjustScale(n, 0, false).value;
    assert AtScale(a, 0) == n;
    CompareAtAnyScale(r, a, 0);
  }

  // ---------------------------------------------------------------------
  // The operators
  // ---------------------------------------------------------------------

  /** The five binary operators. */
  datatype BinOp = AddOp | SubOp | MulOp | DivOp | RemOp

  /** The checked operation behind each operator. */
  function Checked(op: BinOp, a: Decimal, b: Decimal): (r: Option<Decimal>)
    requires Valid(a) && Valid(b)
    ensures r.Some? ==> Valid(r.value)
  {
    match op
    case AddOp => Arith.CheckedAdd(a, b)
    case SubOp => Arith.CheckedSub(a, b)
    case MulOp => Arith.CheckedMul(a, b)
    case DivOp =>
      assert DivShift(a, b) <= MAX_PRECISION by {
        MagnitudeDigits(a.intVal);
        MagnitudeDigits(b.intVal);
      }
      CheckedDiv(a, b)
    case RemOp => CheckedRem(a, b)
  }

  /**
   * `a + b`, `a - b`, `a * b`, `a / b` and `a % b`: the checked operation's
   * value. Each panics ("Addition overflowed", "Division by zero or
   * overflowed", ...) exactly where the checked operation gives None,
   * which is the precondition here.
   */
  function Apply(op: BinOp, a: Decimal, b: Decimal): (r: Decimal)
    requires Valid(a) && Valid(b) && Checked(op, a, b).Some?
    ensures Valid(r) && Checked(op, a, b) == Some(r)
  {
    Checked(op, a, b).value
  }

  /** A product is ZERO when either operand is zero; otherwise a non-zero product has the exclusive or of the signs. */
  lemma MulSign(a: Decimal, b: Decimal)
    requires Valid(a) && Valid(b)
    ensures a.intVal == 0 || b.intVal == 0 ==> Checked(MulOp, a, b) == Some(ZERO)
    ensures var r := Checked(MulOp, a, b);
      r.Some? && r.value.intVal != 0 ==> r.value.negative == (a.negative != b.negative)
  {
    if a.intVal != 0 && b.intVal != 0 {
      var n := Mul128(a.intVal, b.intVal);
      var negative := a.negative != b.negative;
      if !(!IsDecimalOverflowed(n) && a.scale + b.scale == 0) {
        AdjustScaleSign(n, a.scale + b.scale, negative);
      }
    }
  }

  /** A non-zero result of adjust_scale carries the sign it was given. */
  lemma AdjustScaleSign(n: U256, scale: i16, negative: bool)
    ensures var r := AdjustScale(n, scale, negative);
      r.Some? && r.value.intVal != 0 ==> r.value.negative == negative
  {
    AdjustScaleFlip(n, scale, negative);
  }

  /** Division by zero panics; a zero dividend gives ZERO; a non-zero quotient has the exclusive or of the signs. */
  lemma DivSign(a: Decimal, b: Decimal)
    requires Valid(a) && Valid(b)
    ensures b.intVal == 0 ==> Checked(DivOp, a, b).None?
    ensures a.intVal == 0 && b.intVal != 0 ==> Checked(DivOp, a, b) == Some(ZERO)
    ensures var r := Checked(DivOp, a, b);
      r.Some? && r.value.intVal != 0 ==> r.value.negative == (a.negative != b.negative)
  {
    if a.intVal != 0 && b.intVal != 0 {
      var q := Div128Round(Dividend(a, b), b.intVal);
      AdjustScaleSign(q, a.scale - b.scale + MAX_PRECISION + DivShift(a, b), a.negative != b.negative);
    }
  }

  /** A remainder by zero panics; a non-zero remainder has the dividend's sign. */
  lemma RemSign(a: Decimal, b: Decimal)
    requires Valid(a) && Valid(b)
    ensures b.intVal == 0 ==> Checked(RemOp, a, b).None?
    ensures var r := Checked(RemOp, a, b);
      r.Some? && r.value.intVal != 0 ==> r.value.negative == a.negative
  {
    if a.intVal != 0 && b.intVal != 0 && !WideRemBranch(a, b) && a.scale != b.scale {
      if a.scale < b.scale {
        RemFinerSign(a, b);
      } else if a.scale - b.scale <= MAX_PRECISION {
        RemCoarserSign(a, b);
      }
    }
  }

  lemma RemFinerSign(a: Decimal, b: Decimal)
    requires Valid(a) && Valid(b) && a.intVal != 0 && b.intVal != 0
    requires a.scale < b.scale && b.scale - a.scale <= MAX_PRECISION
    ensures var r := CheckedRem(a, b); r.Some? && r.value.intVal != 0 ==> r.value.negative == a.negative
  {
    var x := Mul128(a.intVal, PowerLow(b.scale - a.scale)) % b.intVal;
    assert CheckedRem(a, b) == AdjustScale(x, b.scale, a.negative);
    AdjustScaleSign(x, b.scale, a.negative);
  }

  lemma RemCoarserSign(a: Decimal, b: Decimal)
    requires Valid(a) && Valid(b) && a.intVal != 0 && b.intVal != 0
    requires b.scale < a.scale && a.scale - b.scale <= MAX_PRECISION
    ensures var r := CheckedRem(a, b); r.Some? && r.value.intVal != 0 ==> r.value.negative == a.negative
  {
    var x := a.intVal % Mul128(b.intVal, PowerLow(a.scale - b.scale));
    assert CheckedRem(a, b) == AdjustScale(x, a.scale, a.negative);
    AdjustScaleSign(x, a.scale, a.negative);
  }

  /** With equal scales a remainder is the magnitudes' remainder at that scale, under the dividend's sign. */
  lemma RemEqualScales(a: Decimal, b: Decimal)
    requires Valid(a) && Valid(b) && a.scale == b.scale && b.intVal != 0
    ensures Checked(RemOp, a, b) == Some(FromPartsUnchecked(a.intVal % b.intVal, a.scale, a.negative))
  {
  }

  // ---------------------------------------------------------------------
  // Operators with an integer operand
  // ---------------------------------------------------------------------

  /**
   * An integer operand: one of the types narrower than 128 bits, which
   * convert with `From`, or an i128 or u128, which convert with
   * `TryFrom(..).unwrap()`.
   */
  datatype IntArg = Small(val: int, range: IntRange) | I128(val: int) | U128(val: int)

  /** The operand lies in its type's range. */
  predicate InRange(x: IntArg)
  {
    match x
    case Small(val, t) => (IsSmallUnsigned(t) || IsSmallSigned(t)) && t.min <= val <= t.max
    case I128(val) => I128_MIN <= val <= I128_MAX
    case U128(val) => 0 <= val < TWO_128
  }

  /** The conversion the operators apply to an integer operand. */
  function IntToDecimal(x: IntArg): (r: Result<Decimal, ConvertError>)
    requires InRange(x)
    ensures x.Small? ==> r.Ok?
    ensures r.Err? <==> x.val > MAX_I128_REPR || x.val < -MAX_I128_REPR
    ensures r.Ok? ==> Valid(r.value) && r.value.scale == 0 && Signed(r.value) == x.val
  {
    match x
    case Small(val, t) => Ok(if IsSmallSigned(t) then FromSigned(val) else FromUnsigned(val))
    case I128(val) => TryFromI128(val)
    case U128(val) => TryFromU128(val)
  }

  /**
   * `a op n`: the integer converted, then the operator applied. An i128
   * or u128 beyond 38 digits panics in the unwrap, as does the operator
   * where its checked form gives None.
   */
  function ApplyInt(op: BinOp, a: Decimal, x: IntArg): (r: Decimal)
    requires Valid(a) && InRange(x) && IntToDecimal(x).Ok?
    requires Checked(op, a, IntToDecimal(x).value).Some?
    ensures Valid(r) && Checked(op, a, IntToDecimal(x).value) == Some(r)
  {
    Apply(op, a, IntToDecimal(x).value)
  }

  /** `n op a`: the integer converted, then the operator applied with it on the left. */
  function IntApply(op: BinOp, x: IntArg, a: Decimal): (r: Decimal)
    requires Valid(a) && InRange(x) && IntToDecimal(x).Ok?
    requires Checked(op, IntToDecimal(x).value, a).Some?
    ensures Valid(r) && Checked(op, IntToDecimal(x).value, a) == Some(r)
  {
    Apply(op, IntToDecimal(x).value, a)
  }

  // ---------------------------------------------------------------------
  // Compound assignment
  // ---------------------------------------------------------------------

  /** A decimal variable, overwritten by `+=`, `-=`, `*=`, `/=` and `%=`. */
  class DecimalVar {
    var value: Decimal

    constructor (d: Decimal)
      ensures value == d
    {
      value := d;
    }

    /** `value op= other`: the operator's result replaces the value; it panics where the operator does. */
    method OpAssign(op: BinOp, other: Decimal)
      requires Valid(value) && Valid(other) && Checked(op, value, other).Some?
      modifies this
      ensures Valid(value)
      ensures value == Apply(op, old(value), other)
    {
      value := Apply(op, value, other);
    }

    /** `value op= n` for an integer operand. */
    method OpAssignInt(op: BinOp, x: IntArg)
      requires Valid(value) && InRange(x) && IntToDecimal(x).Ok?
      requires Checked(op, value, IntToDecimal(x).value).Some?
      modifies this
      ensures Valid(value)
      ensures value == ApplyInt(op, old(value), x)
    {
      value := ApplyInt(op, value, x);
    }
  }

  // ---------------------------------------------------------------------
  // Sum and Product
  // ---------------------------------------------------------------------

  predicate AllValid(xs: seq<Decimal>)
  {
    forall i :: 0 <= i < |xs| ==> Valid(xs[i])
  }

  /**
   * The left fold of an operator over a sequence from `init`, None once a
   * step would panic. Sum is the fold of + from ZERO, Product that of *
   * from ONE.
   */
  function Folded(op: BinOp, init: Decimal, xs: seq<Decimal>): (r: Option<Decimal>)
    requires Valid(init) && AllValid(xs)
    ensures r.Some? ==> Valid(r.value)
    decreases |xs|
  {
    if xs == [] then Some(init)
    else
      match Folded(op, init, xs[..|xs| - 1])
      case None => None
      case Some(acc) => Checked(op, acc, xs[|xs| - 1])
  }

  /** A fold that does not panic does not panic on any prefix either. */
  lemma {:induction false} FoldedPrefix(op: BinOp, init: Decimal, xs: seq<Decimal>, i: nat)
    requires Valid(init) && AllValid(xs) && i <= |xs|
    requires Folded(op, init, xs).Some?
    ensures Folded(op, init, xs[..i]).Some?
    decreases |xs|
  {
    if i < |xs| {
      assert xs[..|xs| - 1][..i] == xs[..i];
      FoldedPrefix(op, init, xs[..|xs| - 1], i);
    } else {
      assert xs[..i] == xs;
    }
  }

  /** Within a fold that does not panic, each step extends the fold of the prefix before it. */
  lemma FoldedNext(op: BinOp, init: Decimal, xs: seq<Decimal>, i: nat, acc: Decimal)
    requires Valid(init) && AllValid(xs) && i < |xs| && Folded(op, init, xs).Some?
    requires Some(acc) == Folded(op, init, xs[..i])
    ensures Valid(acc) && Checked(op, acc, xs[i]).Some?
    ensures Folded(op, init, xs[..i + 1]) == Checked(op, acc, xs[i])
  {
    FoldedPrefix(op, init, xs, i + 1);
    assert xs[..i + 1][..i] == xs[..i];
  }

  /** The fold, element by element. */
  method Fold(op: BinOp, init: Decimal, xs: seq<Decimal>) returns (r: Decimal)
    requires Valid(init) && AllValid(xs)
    requires Folded(op, init, xs).Some?
    ensures Some(r) == Folded(op, init, xs)
  {
    r := init;
    var i := 0;
    while i < |xs|
      invariant 0 <= i <= |xs|
      invariant Some(r) == Folded(op, init, xs[..i])
    {
      FoldedNext(op, init, xs, i, r);
      r := Apply(op, r, xs[i]);
      i := i + 1;
    }
    assert xs[..i] == xs;
  }

  /** `Sum for Decimal`: the decimals added from ZERO; it panics where an addition overflows. */
  method Sum(xs: seq<Decimal>) returns (r: Decimal)
    requires AllValid(xs) && Folded(AddOp, ZERO, xs).Some?
    ensures Some(r) == Folded(AddOp, ZERO, xs)
  {
    r := Fold(AddOp, ZERO, xs);
  }

  /** `Product for Decimal`: the decimals multiplied from ONE; it panics where a multiplication overflows. */
  method Product(xs: seq<Decimal>) returns (r: Decimal)
    requires AllValid(xs) && Folded(MulOp, ONE, xs).Some?
    ensures Some(r) == Folded(MulOp, ONE, xs)
  {
    r := Fold(MulOp, ONE, xs);
  }

  /** The number of negative decimals in a sequence. */
  function Negatives(xs: seq<Decimal>): nat
  {
    if xs == [] then 0 else Negatives(xs[..|xs| - 1]) + if xs[|xs| - 1].negative then 1 else 0
  }

  /** Once a factor is zero the product is ZERO, whatever follows. */
  lemma {:induction false} ProductWithZero(init: Decimal, xs: seq<Decimal>, i: nat)
    requires Valid(init) && AllValid(xs) && i < |xs| && xs[i].intVal == 0
    requires Folded(MulOp, init, xs).Some?
    ensures Folded(MulOp, init, xs) == Some(ZERO)
    decreases |xs|
  {
    var prefix := xs[..|xs| - 1];
    FoldedPrefix(MulOp, init, xs, |xs| - 1);
    if i < |xs| - 1 {
      ProductWithZero(init, prefix, i);
    }
  }

  /** A non-zero product from ONE is negative exactly when an odd number of factors are. */
  lemma {:induction false} ProductNegativeParity(xs: seq<Decimal>)
    requires AllValid(xs) && Folded(MulOp, ONE, xs).Some?
    ensures var r := Folded(MulOp, ONE, xs).value;
      r.intVal != 0 ==> r.negative == (Negatives(xs) % 2 == 1)
    decreases |xs|
  {
    if xs != [] {
      var prefix := xs[..|xs| - 1];
      var last := xs[|xs| - 1];
      FoldedPrefix(MulOp, ONE, xs, |xs| - 1);
      assert xs[..|xs| - 1] == prefix;
      ProductNegativeParity(prefix);
      var acc := Folded(MulOp, ONE, prefix).value;
      var r := Folded(MulOp, ONE, xs).value;
      assert Some(r) == Checked(MulOp, acc, last);
      MulSign(acc, last);
      if r.intVal != 0 {
        assert acc.intVal != 0;
        assert r.negative == (acc.negative != last.negative);
        OddStep(Negatives(prefix), last.negative);
      }
    }
  }

  lemma OddStep(n: nat, b: bool)
    ensures ((n + if b then 1 else 0) % 2 == 1) == ((n % 2 == 1) != b)
  {
  }

  /** The sum of a single decimal denotes that decimal, inside the scale window. */
  lemma SumOfOne(a: Decimal)
    requires Valid(a)
    requires a.intVal != 0 ==> MIN_SCALE <= a.scale - NumDigits(a.intVal) <= MAX_SCALE
    ensures Folded(AddOp, ZERO, [a]).Some? && SameValue(Folded(AddOp, ZERO, [a]).value, a)
  {
    assert [a][..0] == [];
    assert Folded(AddOp, ZERO, [a]) == Arith.CheckedAdd(ZERO, a);
    Arith.CheckedAddCommutes(ZERO, a);
    AddZero(a);
  }

  /** The product of a single non-zero decimal is that decimal, inside the scale window. */
  lemma ProductOfOne(a: Decimal)
    requires Valid(a) && a.intVal != 0 && MIN_SCALE <= a.scale - NumDigits(a.intVal) <= MAX_SCALE
    ensures Folded(MulOp, ONE, [a]) == Some(a)
  {
    assert [a][..0] == [];
    CheckedMulCommutes(ONE, a);
    CheckedMulOne(a);
  }

  // ---------------------------------------------------------------------
  // Worked folds
  // ---------------------------------------------------------------------

  /** Folding one more element. */
  lemma FoldedSnoc(op: BinOp, init: Decimal, xs: seq<Decimal>, x: Decimal)
    requires Valid(init) && AllValid(xs) && Valid(x)
    ensures AllValid(xs + [x])
    ensures Folded(op, init, xs + [x]) ==
      match Folded(op, init, xs) case None => None case Some(acc) => Checked(op, acc, x)
  {
    assert (xs + [x])[..|xs|] == xs;
  }

  /** Integers of one sign at scale 0 add exactly while the sum has at most 38 digits. */
  lemma AddIntegers(x: nat, y: nat, negative: bool)
    requires 0 < x && 0 < y && x + y <= MAX_I128_REPR
    ensures Checked(AddOp, Decimal(x, 0, negative), Decimal(y, 0, negative)) == Some(Decimal(x + y, 0, negative))
  {
    MaxReprIsPow10();
    Words(x + y);
  }

  /** ZERO plus an integer at scale 0 is that integer. */
  lemma ZeroAddInteger(y: nat, negative: bool)
    requires 0 < y <= MAX_I128_REPR
    ensures Checked(AddOp, ZERO, Decimal(y, 0, negative)) == Some(Decimal(y, 0, negative))
  {
    if !negative {
      MaxReprIsPow10();
      Words(y);
    }
  }

  /** Integers at scale 0 multiply exactly while the product has at most 38 digits. */
  lemma MulIntegers(x: nat, y: nat, nx: bool, ny: bool)
    requires 0 < x && 0 < y && x * y <= MAX_I128_REPR
    requires Valid(Decimal(x, 0, nx)) && Valid(Decimal(y, 0, ny))
    ensures Checked(MulOp, Decimal(x, 0, nx), Decimal(y, 0, ny)) == Some(Decimal(x * y, 0, nx != ny))
  {
    MaxReprIsPow10();
    MulLe(1, x, y);
    Words(x * y);
  }

  /** 1 + 10 + 100 + 1000 + 10000 = 11111, and the same with every sign negative. */
  lemma SumExample(negative: bool)
    ensures AllValid([Decimal(1, 0, negative), Decimal(10, 0, negative), Decimal(100, 0, negative),
      Decimal(1000, 0, negative), Decimal(10000, 0, negative)])
    ensures Folded(AddOp, ZERO, [Decimal(1, 0, negative), Decimal(10, 0, negative), Decimal(100, 0, negative),
      Decimal(1000, 0, negative), Decimal(10000, 0, negative)]) == Some(Decimal(11111, 0, negative))
  {
    var d1, d10, d100, d1000, d10000 :=
      Decimal(1, 0, negative), Decimal(10, 0, negative), Decimal(100, 0, negative),
      Decimal(1000, 0, negative), Decimal(10000, 0, negative);
    assert Folded(AddOp, ZERO, [d1]) == Some(d1) by {
      assert [d1] == [] + [d1];
      FoldedSnoc(AddOp, ZERO, [], d1);
      ZeroAddInteger(1, negative);
    }
    var s2 := [d1] + [d10];
    SumStep([d1], d10, 1, 10, negative);
    var s3 := s2 + [d100];
    SumStep(s2, d100, 11, 100, negative);
    var s4 := s3 + [d1000];
    SumStep(s3, d1000, 111, 1000, negative);
    SumStep(s4, d10000, 1111, 10000, negative);
    assert [d1] + [d10] + [d100] + [d1000] + [d10000] == [d1, d10, d100, d1000, d10000];
  }

  /** One more integer term in a running sum of integers with one sign. */
  lemma SumStep(xs: seq<Decimal>, x: Decimal, acc: nat, y: nat, negative: bool)
    requires 0 < acc && 0 < y && acc + y <= MAX_I128_REPR
    requires AllValid(xs) && Folded(AddOp, ZERO, xs) == Some(Decimal(acc, 0, negative))
    requires x == Decimal(y, 0, negative)
    ensures AllValid(xs + [x]) && Folded(AddOp, ZERO, xs + [x]) == Some(Decimal(acc + y, 0, negative))
  {
    FoldedSnoc(AddOp, ZERO, xs, x);
    AddIntegers(acc, y, negative);
  }

  /** 1 * 2 * 3 * 4 * 5 = 120; with every factor negative the product is -120. */
  lemma ProductExample(negative: bool)
    ensures AllValid([Decimal(1, 0, negative), Decimal(2, 0, negative), Decimal(3, 0, negative),
      Decimal(4, 0, negative), Decimal(5, 0, negative)])
    ensures Folded(MulOp, ONE, [Decimal(1, 0, negative), Decimal(2, 0, negative), Decimal(3, 0, negative),
      Decimal(4, 0, negative), Decimal(5, 0, negative)]) == Some(Decimal(120, 0, negative))
  {
    var d1, d2, d3, d4, d5 :=
      Decimal(1, 0, negative), Decimal(2, 0, negative), Decimal(3, 0, negative),
      Decimal(4, 0, negative), Decimal(5, 0, negative);
    FoldedSnoc(MulOp, ONE, [], d1);
    MulIntegers(1, 1, false, negative);
    assert [d1, d2] == [d1] + [d2];
    FoldedSnoc(MulOp, ONE, [d1], d2);
    MulIntegers(1, 2, negative, negative);
    assert [d1, d2, d3] == [d1, d2] + [d3];
    FoldedSnoc(MulOp, ONE, [d1, d2], d3);
    MulIntegers(2, 3, false, negative);
    assert [d1, d2, d3, d4] == [d1, d2, d3] + [d4];
    FoldedSnoc(MulOp, ONE, [d1, d2, d3], d4);
    MulIntegers(6, 4, negative, negative);
    assert [d1, d2, d3, d4, d5] == [d1, d2, d3, d4] + [d5];
    FoldedSnoc(MulOp, ONE, [d1, d2, d3, d4], d5);
    MulIntegers(24, 5, false, negative);
  }
}
