/**
 * Conversions between decimals and Rust's integer types (src/convert.rs):
 * exact conversions from the integer types narrower than 128 bits and from
 * bool, checked conversions from i128 and u128, and the conversions back,
 * which round to the nearest integer (halves away from zero) and then check
 * the target's range. Integer types are modelled by their ranges; usize
 * and isize are taken to be 64 bits wide.
 */
module Convert {
  import opened Std
  import opened Wide
  import opened Decimals
  import opened Errors

  const I128_MIN: int := -0x8000_0000_0000_0000_0000_0000_0000_0000
  const I128_MAX: int := 0x7fff_ffff_ffff_ffff_ffff_ffff_ffff_ffff

  /** The range of one of Rust's integer types narrower than 128 bits. */
  datatype IntRange = IntRange(min: int, max: int)

  const U8_RANGE: IntRange := IntRange(0, 0xff)
  const U16_RANGE: IntRange := IntRange(0, 0xffff)
  const U32_RANGE: IntRange := IntRange(0, 0xffff_ffff)
  const U64_RANGE: IntRange := IntRange(0, 0xffff_ffff_ffff_ffff)
  const I8_RANGE: IntRange := IntRange(-0x80, 0x7f)
  const I16_RANGE: IntRange := IntRange(-0x8000, 0x7fff)
  const I32_RANGE: IntRange := IntRange(-0x8000_0000, 0x7fff_ffff)
  const I64_RANGE: IntRange := IntRange(-0x8000_0000_0000_0000, 0x7fff_ffff_ffff_ffff)

  /** u8, u16, u32, u64 and usize. */
  predicate IsSmallUnsigned(t: IntRange)
  {
    t == U8_RANGE || t == U16_RANGE || t == U32_RANGE || t == U64_RANGE
  }

  /** i8, i16, i32, i64 and isize. */
  predicate IsSmallSigned(t: IntRange)
  {
    t == I8_RANGE || t == I16_RANGE || t == I32_RANGE || t == I64_RANGE
  }

  // ---------------------------------------------------------------------
  // Integers to decimals
  // ---------------------------------------------------------------------

  /** `From<u8 | u16 | u32 | u64 | usize>`: the value itself at scale 0. */
  function FromUnsigned(val: int): (r: Decimal)
    requires U64_RANGE.min <= val <= U64_RANGE.max
    ensures Valid(r) && r.scale == 0 && Signed(r) == val
  {
    Decimal(val, 0, false)
  }

  /**
   * `From<i8 | i16 | i32 | i64 | isize>`: the magnitude is taken after
   * widening to i128, so even the type's MIN converts exactly.
   */
  function FromSigned(val: int): (r: Decimal)
    requires I64_RANGE.min <= val <= I64_RANGE.max
    ensures Valid(r) && r.scale == 0 && Signed(r) == val
    ensures r.negative <==> val < 0
  {
    if val < 0 then Decimal(-val, 0, true) else Decimal(val, 0, false)
  }

  /** `From<bool>`: ONE for true and ZERO for false. */
  function FromBool(b: bool): (r: Decimal)
    ensures Valid(r) && r.scale == 0 && Signed(r) == if b then 1 else 0
  {
    if b then ONE else ZERO
  }

  /** `TryFrom<i128>`: Overflow when the magnitude has more than 38 digits, the value at scale 0 otherwise. */
  function TryFromI128(val: int): (r: Result<Decimal, ConvertError>)
    requires I128_MIN <= val <= I128_MAX
    ensures r.Err? <==> val > MAX_I128_REPR || val < -MAX_I128_REPR
    ensures r.Err? ==> r.error == ConvertOverflow
    ensures r.Ok? ==> Valid(r.value) && r.value.scale == 0 && Signed(r.value) == val
  {
    if val > MAX_I128_REPR || val < -MAX_I128_REPR then Err(ConvertOverflow)
    else if val < 0 then Ok(Decimal(-val, 0, true))
    else Ok(Decimal(val, 0, false))
  }

  /** `TryFrom<u128>`: Overflow above 10^38 - 1, the value at scale 0 otherwise. */
  function TryFromU128(val: u128): (r: Result<Decimal, ConvertError>)
    ensures r.Err? <==> val > MAX_I128_REPR
    ensures r.Err? ==> r.error == ConvertOverflow
    ensures r.Ok? ==> Valid(r.value) && r.value.scale == 0 && Signed(r.value) == val
  {
    if val > MAX_I128_REPR then Err(ConvertOverflow) else Ok(Decimal(val, 0, false))
  }

  // ---------------------------------------------------------------------
  // Decimals to integers
  // ---------------------------------------------------------------------

  /** The magnitude of the integer nearest to the value of `d`, halves rounded away from zero. */
  function NearestMagnitude(d: Decimal): nat
  {
    if d.scale > 0 then DivRoundHalfUp(d.intVal, Pow10(d.scale)) else d.intVal * Pow10(-(d.scale as int))
  }

  /** The integer nearest to the value of `d`, halves rounded away from zero. */
  function Nearest(d: Decimal): int
  {
    var n: int := NearestMagnitude(d);
    if d.negative then -n else n
  }

  /** `round(0)` cannot overflow on a valid decimal: 10^38 - 1 plus half of 10^38 fits a u128. */
  lemma ValidRoundFits(d: Decimal)
    requires Valid(d)
    ensures RoundAddFits(d, 0)
  {
    if 1 <= d.scale <= MAX_PRECISION {
      MaxReprIsPow10();
      Pow10Monotone(d.scale - 1, MAX_PRECISION - 1);
      assert Pow10(MAX_PRECISION) == 10 * Pow10(MAX_PRECISION - 1);
    }
  }

  /** 10^39 is beyond every u128. */
  lemma Pow10Beyond128(k: nat)
    requires k > MAX_PRECISION
    ensures Pow10(k) >= TWO_128
  {
    Pow10Literals30();
    Pow10Monotone(39, k);
  }

  /**
   * The magnitude of `d` rounded to scale 0, as the conversions do it:
   * `round(0)`, then a negative scale multiplied out with a table entry;
   * Overflow past 38 places or 128 bits.
   */
  function RoundedMagnitude(d: Decimal): (r: Result<u128, ConvertError>)
    requires Valid(d)
    ensures r.Ok? <==> NearestMagnitude(d) < TWO_128
    ensures r.Ok? ==> r.value == NearestMagnitude(d)
    ensures r.Err? ==> r.error == ConvertOverflow
  {
    ValidRoundFits(d);
    var rounded := Round(d, 0);
    if rounded.scale == 0 then
      assert d.scale > 0 ==> d.intVal != 0 ==> rounded.intVal == DivRoundHalfUp(d.intVal, Pow10(d.scale));
      Ok(rounded.intVal)
    else if -rounded.scale > MAX_PRECISION then
      Pow10Beyond128(-d.scale);
      MulLe(1, d.intVal, Pow10(-d.scale));
      Err(ConvertOverflow)
    else
      match Wide.CheckedMul(Power(-rounded.scale), rounded.intVal)
      case None => Err(ConvertOverflow)
      case Some(prod) =>
        Words(prod);
        if High(prod) != 0 then Err(ConvertOverflow) else Ok(Low(prod))
  }

  /** `TryFrom<Decimal> for u128`: Overflow for any negative sign, else the nearest integer if it fits. */
  function ToU128(d: Decimal): (r: Result<u128, ConvertError>)
    requires Valid(d)
    ensures d.negative ==> r == Err(ConvertOverflow)
    ensures !d.negative ==> (r.Ok? <==> Nearest(d) < TWO_128)
    ensures r.Ok? ==> r.value == Nearest(d)
    ensures r.Err? ==> r.error == ConvertOverflow
  {
    if d.negative then Err(ConvertOverflow) else RoundedMagnitude(d)
  }

  /** `to_i128`: a magnitude and a sign as an i128, if it fits. */
  function ToI128Signed(intVal: u128, negative: bool): (r: Result<int, ConvertError>)
    ensures r.Ok? <==> (if negative then intVal <= I128_MAX + 1 else intVal <= I128_MAX)
    ensures r.Ok? ==> r.value == if negative then -(intVal as int) else intVal as int
    ensures r.Err? ==> r.error == ConvertOverflow
  {
    if negative then
      if intVal > I128_MAX + 1 then Err(ConvertOverflow) else Ok(-(intVal as int))
    else if intVal > I128_MAX then Err(ConvertOverflow)
    else Ok(intVal)
  }

  /** `TryFrom<Decimal> for i128`: the nearest integer, if it lies in i128's range. */
  function ToI128(d: Decimal): (r: Result<int, ConvertError>)
    requires Valid(d)
    ensures r.Ok? <==> I128_MIN <= Nearest(d) <= I128_MAX
    ensures r.Ok? ==> r.value == Nearest(d)
    ensures r.Err? ==> r.error == ConvertOverflow
  {
    match RoundedMagnitude(d)
    case Err(e) => Err(e)
    case Ok(n) => ToI128Signed(n, d.negative)
  }

  /** `TryFrom<Decimal>` for u8 .. u64 and usize: through u128, then the type's MAX. */
  function ToUnsigned(d: Decimal, t: IntRange): (r: Result<int, ConvertError>)
    requires Valid(d) && IsSmallUnsigned(t)
    ensures r.Ok? <==> !d.negative && Nearest(d) <= t.max
    ensures r.Ok? ==> r.value == Nearest(d) && t.min <= r.value <= t.max
    ensures r.Err? ==> r.error == ConvertOverflow
  {
    match ToU128(d)
    case Err(e) => Err(e)
    case Ok(val) => if val > t.max then Err(ConvertOverflow) else Ok(val)
  }

  /** `TryFrom<Decimal>` for i8 .. i64 and isize: through i128, then the type's MIN and MAX. */
  function ToSigned(d: Decimal, t: IntRange): (r: Result<int, ConvertError>)
    requires Valid(d) && IsSmallSigned(t)
    ensures r.Ok? <==> t.min <= Nearest(d) <= t.max
    ensures r.Ok? ==> r.value == Nearest(d)
    ensures r.Err? ==> r.error == ConvertOverflow
  {
    match ToI128(d)
    case Err(e) => Err(e)
    case Ok(val) => if val > t.max || val < t.min then Err(ConvertOverflow) else Ok(val)
  }

  // ---------------------------------------------------------------------
  // Round trips and examples
  // ---------------------------------------------------------------------

  /** An integer at scale 0 is its own nearest integer. */
  lemma NearestOfInteger(d: Decimal)
    requires d.scale == 0
    ensures Nearest(d) == Signed(d)
  {
  }

  /** Every small signed integer converts to a decimal and back to the same integer. */
  lemma SignedRoundTrip(val: int, t: IntRange)
    requires IsSmallSigned(t) && t.min <= val <= t.max
    ensures ToSigned(FromSigned(val), t) == Ok(val)
    ensures ToI128(FromSigned(val)) == Ok(val)
  {
    NearestOfInteger(FromSigned(val));
  }

  /** Every small unsigned integer converts to a decimal and back to the same integer. */
  lemma UnsignedRoundTrip(val: int, t: IntRange)
    requires IsSmallUnsigned(t) && t.min <= val <= t.max
    ensures ToUnsigned(FromUnsigned(val), t) == Ok(val)
    ensures ToU128(FromUnsigned(val)) == Ok(val)
  {
    NearestOfInteger(FromUnsigned(val));
  }

  /** An i128 of at most 38 digits converts to a decimal and back unchanged. */
  lemma I128RoundTrip(val: int)
    requires -MAX_I128_REPR <= val <= MAX_I128_REPR
    ensures TryFromI128(val).Ok? && ToI128(TryFromI128(val).value) == Ok(val)
  {
    NearestOfInteger(TryFromI128(val).value);
  }

  /** A u128 of at most 38 digits converts to a decimal and back unchanged. */
  lemma U128RoundTrip(val: u128)
    requires val <= MAX_I128_REPR
    ensures TryFromU128(val).Ok? && ToU128(TryFromU128(val).value) == Ok(val)
  {
    NearestOfInteger(TryFromU128(val).value);
  }

  /** 1e39 does not fit a u128 or an i128; -1 is refused as a u128; 2.5 and -2.5 round away from zero. */
  lemma ConversionExamples()
    ensures ToU128(Decimal(1, -39, false)) == Err(ConvertOverflow)
    ensures ToI128(Decimal(1, -39, false)) == Err(ConvertOverflow)
    ensures ToU128(Decimal(1, 0, true)) == Err(ConvertOverflow)
    ensures ToI128(Decimal(25, 1, false)) == Ok(3)
    ensures ToI128(Decimal(25, 1, true)) == Ok(-3)
    ensures ToUnsigned(Decimal(256, 0, false), U8_RANGE) == Err(ConvertOverflow)
    ensures ToSigned(Decimal(129, 0, true), I8_RANGE) == Err(ConvertOverflow)
    ensures ToSigned(Decimal(128, 0, true), I8_RANGE) == Ok(-128)
  {
    Pow10Beyond128(39);
    assert Pow10(1) == 10;
    assert DivRoundHalfUp(25, 10) == 3;
  }
}
