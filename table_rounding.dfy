/**
 * `round_with_precision` (src/decimal.rs) exactly as written, reading its
 * ceilings, factor and divisor from the low words of POWERS_10 for every
 * u8 precision; the corrected rounding is `Decimals.RoundOutcome`.
 */
module TableRounding {
  import opened Std
  import opened Wide
  import opened Decimals

  /**
   * The indices `round_with_precision` reads from POWERS_10 lie inside the
   * table: precision - e for a finer scale, e itself when the magnitude is
   * multiplied up, and -e and precision for a coarser scale.
   */
  predicate TableIndexed(d: Decimal, precision: u8, scale: int)
  {
    var e := scale - d.scale;
    d.intVal == 0 || e >= precision ||
    (0 <= e && precision - e <= 76 && (e == 0 || e <= 76 || d.intVal >= TableLow(precision - e))) ||
    (e < 0 && -e <= 76 && precision <= 76)
  }

  /**
   * `round_with_precision` as written, wherever its table reads stay inside
   * POWERS_10: the ceilings and the factor are the low words of table
   * entries, the product is cut to its low word, and the divisor is
   * `DivRoundByTableLowAsWritten`'s.
   */
  function RoundTable(d: Decimal, precision: u8, scale: i16): (bool, Decimal)
    requires TableIndexed(d, precision, scale)
  {
    var e := scale - d.scale;
    if d.intVal == 0 then (false, d)
    else if e >= precision then (true, d)
    else if e >= 0 then ShiftByTable(d, precision, scale)
    else DivideByTable(d, precision, scale)
  }

  /** The finer arm of `RoundTable`: ceiling and factor read from the table, the product cut to its low word. */
  function ShiftByTable(d: Decimal, precision: u8, scale: i16): (bool, Decimal)
    requires d.intVal != 0 && 0 <= scale - d.scale < precision && TableIndexed(d, precision, scale)
  {
    var e := scale - d.scale;
    if d.intVal >= TableLow(precision - e) then (true, d)
    else if e == 0 then (false, d)
    else (false, Decimal(Low(Mul128(d.intVal, TableLow(e))), scale, d.negative))
  }

  /** The coarser arm of `RoundTable`: the table's divisor and ceiling. */
  function DivideByTable(d: Decimal, precision: u8, scale: i16): (bool, Decimal)
    requires 0 < d.scale - scale <= 76 && precision <= 76
  {
    var q := Low(DivRoundByTableLowAsWritten(d.intVal, d.scale - scale));
    if q >= TableLow(precision) then (true, d.(intVal := q))
    else (false, Decimal(q, scale, d.negative))
  }

  /**
   * Up to 38 digits and 38 places coarser, the table reads are exact and
   * the source's rounding is `RoundOutcome`.
   */
  lemma RoundTableAgrees(d: Decimal, precision: u8, scale: i16)
    requires precision <= MAX_PRECISION && d.scale - scale <= MAX_PRECISION
    ensures TableIndexed(d, precision, scale)
    ensures RoundTable(d, precision, scale) == RoundOutcome(d, precision, scale)
  {
    var e := scale - d.scale;
    if d.intVal == 0 {
    } else if e >= precision {
      FarShiftOverflows(d, scale, precision);
    } else if e < 0 {
      RoundTableCoarser(d, precision, scale);
    } else if d.intVal >= Pow10(precision - e) {
        NearShiftOverflows(d, scale, precision);
    } else if e == 0 {
        UnshiftedFits(d, scale, precision);
    } else {
      RoundTableShifted(d, precision, scale);
    }
  }

  /** The coarser arm of `RoundTableAgrees`. */
  lemma RoundTableCoarser(d: Decimal, precision: u8, scale: i16)
    requires precision <= MAX_PRECISION && d.intVal != 0 && 0 < d.scale - scale <= MAX_PRECISION
    ensures TableIndexed(d, precision, scale)
    ensures RoundTable(d, precision, scale) == RoundOutcome(d, precision, scale)
  {
    var k := d.scale - scale;
    var q := DivRoundByTableLowAsWritten(d.intVal, k);
    assert Low(q) == Rescaled(d, scale) by {
      Pow10Monotone(1, k);
      RoundedNotLarger(d.intVal, Pow10(k));
      Words(q);
    }
    var overflow := Low(q) >= Pow10(precision);
    var r := if overflow then d.(intVal := Low(q)) else Decimal(Low(q), scale, d.negative);
    assert RoundTable(d, precision, scale) == (overflow, r) by {
      assert TableLow(precision) == Pow10(precision);
      assert DivideByTable(d, precision, scale) == (overflow, r);
    }
    CoarserRounds(d, scale, precision, r, overflow);
  }

  /** The arm of `RoundTableAgrees` that multiplies the magnitude up. */
  lemma RoundTableShifted(d: Decimal, precision: u8, scale: i16)
    requires precision <= MAX_PRECISION && d.intVal != 0 && 0 < scale - d.scale < precision
    requires d.intVal < Pow10(precision - (scale - d.scale))
    ensures TableIndexed(d, precision, scale)
    ensures RoundTable(d, precision, scale) == RoundOutcome(d, precision, scale)
  {
    NearShiftBound(d, scale, precision);
    var r := Decimal(Rescaled(d, scale), scale, d.negative);
    TableShiftsExactly(d, precision, scale, r);
    NearShiftFits(d, scale, precision, r);
  }

  /** Within 38 digits the table's factor is exact and the product fits its low word. */
  lemma TableShiftsExactly(d: Decimal, precision: u8, scale: i16, r: Decimal)
    requires precision <= MAX_PRECISION && d.intVal != 0 && 0 < scale - d.scale < precision
    requires d.intVal < Pow10(precision - (scale - d.scale))
    requires r.intVal == Rescaled(d, scale) && r.scale == scale && r.negative == d.negative
    ensures TableIndexed(d, precision, scale)
    ensures RoundTable(d, precision, scale) == (false, r)
  {
    var e := scale - d.scale;
    var val := Mul128(d.intVal, TableLow(e));
    assert Low(val) == Rescaled(d, scale) by {
      assert TableLow(e) == PowerLow(e);
      ShiftedUpFits(d, scale, precision, val);
    }
    assert ShiftByTable(d, precision, scale) == (false, Decimal(Low(val), scale, d.negative)) by {
      assert d.intVal < TableLow(precision - e);
      ShiftByTableBelowCeiling(d, precision, scale);
    }
  }

  /** Below the table's ceiling and strictly finer, the finer arm multiplies by the table's factor. */
  lemma ShiftByTableBelowCeiling(d: Decimal, precision: u8, scale: i16)
    requires d.intVal != 0 && 0 < scale - d.scale < precision && TableIndexed(d, precision, scale)
    requires d.intVal < TableLow(precision - (scale - d.scale))
    ensures ShiftByTable(d, precision, scale)
      == (false, Decimal(Low(Mul128(d.intVal, TableLow(scale - d.scale))), scale, d.negative))
  {
  }

  /**
   * Above 38 digits the source's ceiling lets a magnitude past the 38
   * digits a decimal holds: 10^33 at scale 0, rounded with precision 40 to
   * scale 5, becomes 10^38 at scale 5 without overflow, where the
   * corrected rounding reports the overflow.
   */
  lemma RoundTableCounterexample()
    ensures RoundTable(Decimal(1000000000000000000000000000000000, 0, false), 40, 5)
      == (false, Decimal(100000000000000000000000000000000000000, 5, false))
    ensures !Valid(Decimal(100000000000000000000000000000000000000, 5, false))
    ensures RoundOutcome(Decimal(1000000000000000000000000000000000, 0, false), 40, 5)
      == (true, Decimal(1000000000000000000000000000000000, 0, false))
  {
    Pow10Literals0();
    Pow10Literals30();
  }
}
