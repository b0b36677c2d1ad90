# decimal-rs core, modelled in Dafny

This project models the core of decimal-rs, a Rust crate that provides a
128-bit decimal number. A `Decimal` is a magnitude `int_val` (a `u128`
of at most 38 digits), a signed 16-bit `scale` and a sign bit. It denotes
(-1)^negative · int_val · 10^(-scale).

The model covers:

- the 256-bit helper integer with its power-of-ten and half-unit tables
  (`u256.rs`);
- construction with a canonical zero, precision, absolute value, and the
  rounding primitives `trunc`, `round`, `round_with_precision`,
  `normalize` and `adjust_scale`;
- the arithmetic engine: scale alignment, `checked_add`/`sub`/`mul`/`div`/`rem`,
  and the total order;
- the binary codec (`encode`, `compact_encode`, `decode`);
- the plain-text formatter (`fmt_internal`, `Display`) and the 256-byte
  buffer it writes into: `Buf` of `buf.rs`, which stands in for the
  `StackVec<u8, 256>` that `fmt_internal` takes (both append only and
  panic when full);
- the string parser (`parse.rs`);
- the operator layer (`ops.rs`): negation, the panicking operators, the
  compound assignments, `Sum`/`Product` and integer operands;
- the integer conversions (`convert.rs`);
- the error enums and their conversions (`error.rs`).

Integers are unbounded in Dafny. The source's `u8`, `i16`, `u128` and `U256`
are subset types (`Std.u8`, `Std.i16`, `Std.u128`, `Wide.U256`), so every
value the source stores is checked to fit its width. A decimal's value is
stated as an integer at a common scale (`Decimals.AtScale`, `Decimals.CompareValues`,
`Decimals.SameValue`). The representation invariant is `Decimals.Valid`: at
most 38 digits, |scale| ≤ 255 (so the scale fits the codec's byte), and a
single positive zero.

Modules, one per source file: `Std` (Option, Result, Ordering), `Errors`
(`error.rs`), `Wide` (`u256.rs`), `Decimals` (the value type and its
rounding and ordering, `decimal.rs`), `Arith` (the arithmetic of
`decimal.rs`), `Codec` (the binary form, `decimal.rs`), `Buffer` (`buf.rs`, standing in for the formatter's `StackVec`),
`Format` (`fmt_internal` and `Display`, `decimal.rs`), `Parse` (`parse.rs`),
`Ops` (`ops.rs`), `Convert` (`convert.rs`).

Where the source has a defect, the model keeps the source's form as an
`...AsWritten` member and uses a corrected form elsewhere. Each such pair is
listed under "## Findings".

## Model

| member | source | states |
|---|---|---|
| Std.Ordering.Reverse | src/decimal.rs:841-852 | reversing an ordering swaps Less and Greater and keeps Equal, as `cmp` does for two negatives |
| Std.CompareInt | src/u256.rs:390-393 | the ordering of two integers: Less, Equal or Greater exactly as a < b, a == b, a > b |
| Errors.ParseErrorMessagesDistinct | src/error.rs:33-43 | two parse-error variants with the same Display message are the same variant |
| Errors.FormatErrorSource | src/error.rs:73-80 | `source()` is present exactly for the wrapped formatter error |
| Errors.ConvertFromParseError | src/error.rs:93-101 | Empty and Invalid convert to Invalid; Overflow and Underflow convert to Overflow; both directions |
| Errors.ConvertFromParseErrorMessage | src/error.rs:33-62 | the conversion keeps the message exactly for Invalid and Overflow, the two variants both enums share |
| Errors.ConvertFromParseFloatError | src/error.rs:103-108 | every float-parse failure converts to Invalid |
| Errors.FormatFromFmtError | src/error.rs:110-115 | `From<fmt::Error>` wraps the formatter error: it becomes the source, and the message (the Display of error.rs:83-90) is the formatter's |
| Wide.Pow10Add | src/u256.rs:22-154 | 10^(a+b) = 10^a · 10^b |
| Wide.Pow10StrictlyIncreasing | src/u256.rs:22-154 | powers of ten strictly increase |
| Wide.NumDigitsBounds | src/u256.rs:317-329 | n < 10^digits(n), and 10^(digits(n)-1) ≤ n for n ≥ 1 |
| Wide.NumDigitsUnique | src/u256.rs:317-329 | the digit count is the unique k with 10^(k-1) ≤ n < 10^k |
| Wide.NumDigitsMonotone | src/u256.rs:317-329 | a larger number has at least as many digits |
| Wide.NumDigitsBelow | src/u256.rs:331-338 | n has at most k digits exactly when n < 10^k |
| Wide.DivRoundHalfUpNearest | src/u256.rs:371-388 | the half-up quotient q satisfies d(2q−1) ≤ 2n < d(2q+1): it is the nearest integer to n/d, ties going up |
| Wide.AddHalfThenDivide | src/u256.rs:156-291 | adding ROUNDINGS' half-unit 5·10^(k−1) and truncating is half-up division by 10^k |
| Wide.Words | src/u256.rs:302-315 | a U256 is rebuilt from its low and high words; it fits one word exactly when the high word is 0 |
| Wide.TablesExact | src/u256.rs:22-291 | every POWERS_10 entry, as its two words are written, is 10^i; ROUNDINGS[0] = 0 and ROUNDINGS[i] = 5·10^(i−1), for 0 ≤ i ≤ 76 |
| Wide.Powers10Ratio | src/u256.rs:22-154 | POWERS_10 starts at 1 and each entry is 10 times the previous one, so the table strictly increases |
| Wide.Pow10Fits128 | src/u256.rs:22-154 | 10^38 < 2^128 ≤ 10^39: 10^38 is the last power of ten a u128 holds |
| Wide.Pow10Fits256 | src/u256.rs:22-154 | 10^77 < 2^256 < 10^78 |
| Wide.Powers10LowWord | src/u256.rs:22-154 | POWERS_10[k].low() is 10^k exactly when k ≤ 38; from k = 39 on the high word is non-zero |
| Wide.RoundingsLowWord | src/u256.rs:156-291 | ROUNDINGS[k].low() is the whole entry, 5·10^(k−1), for k ≤ 38 |
| Wide.Power | src/u256.rs:22-154 | the table entry POWERS_10[k] is 10^k |
| Wide.Rounding | src/u256.rs:156-291 | the table entry ROUNDINGS[k] is half of 10^k |
| Wide.PowerIsTableEntry | src/u256.rs:22-154 | `Power(k)` is the table's literal entry |
| Wide.RoundingIsTableEntry | src/u256.rs:156-291 | `Rounding(k)` is the table's literal entry |
| Wide.PowerLow | src/u256.rs:307-310 | the low word of POWERS_10[k] is 10^k for k ≤ 38 |
| Wide.RoundingLow | src/u256.rs:307-310 | the low word of ROUNDINGS[k] is half of 10^k for 1 ≤ k ≤ 38 |
| Wide.PowerLowIsTableEntry | src/u256.rs:22-154 | for k ≤ 38, `PowerLow(k)` is the low word of the literal POWERS_10[k] |
| Wide.RoundingLowIsTableEntry | src/u256.rs:156-291 | for 1 ≤ k ≤ 38, `RoundingLow(k)` is the low word of the literal ROUNDINGS[k] |
| Wide.SearchAgrees | src/u256.rs:317-329 | binary search over the literal table gives the same answer as over the exact powers |
| Wide.SearchExactPowersResult | src/u256.rs:317-329 | for n ≥ 1 the search finds Ok(digits−1) when n is a power of ten, otherwise Err(digits), and Err(77) beyond the table |
| Wide.CountDigitsCorrect | src/u256.rs:317-329 | `count_digits(n)` is the number of decimal digits of n for every n < 10^77 (1 for zero), and 77 at or above 10^77 |
| Wide.CountDigitsUndercounts | src/u256.rs:317-329 | 10^77 is a U256 with 78 digits, yet `count_digits` reports 77 |
| Wide.CountDigitsCorrected | src/u256.rs:317-329 | digit counting with the missing step 10^77 added is the exact digit count of every U256 |
| Wide.IsDecimalOverflowed | src/u256.rs:331-338 | holds exactly when n ≥ 10^38 |
| Wide.DivRem | src/u256.rs:362-369 | quotient·d + remainder = n and remainder < d |
| Wide.SubU128 | src/u256.rs:467-478 | `u128 - U256` is defined only when the U256 fits one word and is at most the u128; then r + n = a |
| Wide.Div128Round | src/u256.rs:371-388 | `div128_round(n, d)` is the half-up quotient: n div d, plus 1 exactly when 2·(n mod d) ≥ d |
| Wide.Cmp128 | src/u256.rs:390-393 | a U256 with a non-zero high word exceeds every u128; otherwise the low words decide |
| Wide.Add128 | src/u256.rs:395-398 | the widened sum is the exact sum; its high word is at most 1 and is 1 exactly when the 128-bit sum overflows |
| Wide.Mul128 | src/u256.rs:400-402 | the widened product is the exact product; its high word is at most 2^128 − 2 and dividing it by a non-zero factor gives back the other |
| Wide.MulBound | src/u256.rs:400-402 | a product of two u128 values is below 2^256 |
| Wide.CheckedMul | src/u256.rs:352-355 | None exactly when the product leaves 256 bits; otherwise the product |
| Wide.CheckedAdd | src/u256.rs:340-344 | None exactly when the sum leaves 256 bits; otherwise the sum |
| Wide.CheckedSub | src/u256.rs:346-350 | None exactly when the difference is negative; otherwise the difference |
| Decimals.MaxReprIsPow10 | src/convert.rs:22 | MAX_I128_REPR is 10^38 − 1 and 10^38 fits a u128 |
| Decimals.AtScaleRefine | src/decimal.rs:444-455 | writing a decimal k places finer multiplies its integer by 10^k |
| Decimals.CompareAtAnyScale | src/decimal.rs:813-853 | comparing two decimals at any common scale gives the same order |
| Decimals.AtScaleSign | src/decimal.rs:817-823 | a decimal's value is negative exactly when its sign bit is set and the magnitude is non-zero |
| Decimals.SameValueSymmetric | src/decimal.rs:771-776 | equality of value is symmetric |
| Decimals.SameValueTransitive | src/decimal.rs:771-776 | equality of value is transitive |
| Decimals.FromPartsUnchecked | src/decimal.rs:75-89 | the parts as given, except that a zero magnitude becomes ZERO; valid parts give a valid decimal |
| Decimals.FromPartsUncheckedSameValue | src/decimal.rs:75-89 | replacing a zero magnitude by ZERO keeps the value |
| Decimals.FromParts | src/decimal.rs:91-101 | Overflow exactly when the magnitude exceeds 10^38 − 1 or the scale leaves [−126, 130]; otherwise a valid decimal with that magnitude and value, ZERO for a zero magnitude |
| Decimals.Precision | src/decimal.rs:111-116 | the number of digits of the magnitude, between 1 and 38 for a valid decimal |
| Decimals.MagnitudeDigits | src/decimal.rs:111-116 | `count_digits` of a u128 is its exact digit count, at most 39 |
| Decimals.Abs | src/decimal.rs:142-146 | the same magnitude and scale with the sign cleared: the absolute value; validity is kept |
| Decimals.ClampScale | src/decimal.rs:312-337 | the requested scale limited to [−126, 130], unchanged inside it |
| Decimals.DivPow10 | src/decimal.rs:312-337 | the magnitude divided by 10^e toward zero |
| Decimals.Trunc | src/decimal.rs:312-337 | zero gives ZERO; a scale already at most the target is returned as is; otherwise the magnitude is divided toward zero, keeping the sign, and a zero result is ZERO; validity is kept |
| Decimals.QuotientBounds | src/decimal.rs:312-337 | the truncated quotient lies between 0 and the dividend |
| Decimals.Round | src/decimal.rs:339-360 | like `trunc`, but the magnitude is divided half-up, so the result is the nearest multiple of the coarser unit, ties away from zero |
| Decimals.RoundsToZero | src/decimal.rs:339-360 | beyond 38 places every u128 magnitude rounds to 0 |
| Decimals.AddHalfDivPow10 | src/decimal.rs:339-360 | `(n + ROUNDINGS[e].low()) / POWERS_10[e].low()` is half-up division by 10^e |
| Decimals.RoundedNotLarger | src/decimal.rs:339-360 | half-up division by at least 2 never grows a magnitude |
| Decimals.DivRoundByTableLowAsWritten | src/decimal.rs:394-396 | the source's division by `POWERS_10[k].low()` is half-up division by 10^k for k ≤ 38 |
| Decimals.DivRoundByPow10 | src/decimal.rs:394-396 | the corrected division is half-up division by 10^k for every k ≥ 1 |
| Decimals.DivRoundByTableLowCounterexample | src/decimal.rs:394-396 | at 40 places the low word is not 10^40: 10^38 − 1 rounds to 1 instead of 0 |
| Decimals.RescaledUpBound | src/decimal.rs:383-391 | the magnitude at a finer scale reaches 10^precision exactly when the original reaches the correspondingly smaller power |
| Decimals.RescaledUpSameValue | src/decimal.rs:391-392 | writing a decimal at a finer scale keeps its value |
| Decimals.MagnitudeFits | src/convert.rs:22 | a magnitude of at most MAX_I128_REPR = 10^38 − 1 has at most 38 digits |
| Decimals.CappedCeiling | src/decimal.rs:384-397 | reaching 10^min(precision, 38) is reaching 10^precision or exceeding 10^38 − 1, the largest magnitude a decimal holds |
| Decimals.RoundOutcomeCapped | src/decimal.rs:366-406 | rounding with a precision above 38 is rounding with 38 digits |
| Decimals.RoundOutcomeKeepsPromises | src/decimal.rs:366-406 | the outcome of `round_with_precision`, for every u8 precision: a zero never overflows; overflow exactly when the magnitude at the target scale (half-up when coarser) needs more than `precision` digits or more than 38, the scale then kept and, when coarser, the magnitude already replaced; otherwise that magnitude at the target scale, of the same value when no rounding was needed (corrected form) |
| Decimals.RoundWithPrecision | src/decimal.rs:366-406 | for every u8 precision, the overflow flag and the decimal left behind are exactly `RoundOutcome` (corrected form) |
| Decimals.RoundFiner | src/decimal.rs:383-394 | a finer target scale within min(precision, 38) places: overflow exactly at the ceiling 10^(min(precision, 38) − e); otherwise the magnitude times 10^e at the target scale, as `RoundOutcome` |
| Decimals.ShiftUp | src/decimal.rs:393-394 | below the ceiling and strictly finer: the magnitude times 10^e fits the low word and is the magnitude at the target scale, the result `RoundOutcome` gives without overflow, for every u8 precision |
| Decimals.RoundCoarser | src/decimal.rs:395-405 | a coarser target scale: the magnitude divided half up by 10^−e replaces the old one; overflow when it reaches 10^min(precision, 38), otherwise the target scale is set, as `RoundOutcome` |
| Decimals.FarShiftOverflows | src/decimal.rs:378-380 | for every precision, a non-zero magnitude moved `precision` or more places finer (or 38 or more) overflows and is left as it was |
| Decimals.Normalize | src/decimal.rs:410-441 | the result has the input's value and sign, is in normal form (no trailing zero at a positive scale, a negative scale only with 38 digits), moves the scale toward zero, and keeps a valid magnitude valid |
| Decimals.StripTrailingZeros | src/decimal.rs:422-429 | the first loop: while the scale is positive, drop a trailing zero; the value is kept and no trailing zero is left |
| Decimals.RaiseNegativeScale | src/decimal.rs:431-438 | the second loop: while the scale is negative and the magnitude below 10^37, multiply by ten; the value is kept |
| Decimals.NormalizeOutcome | src/decimal.rs:410-441 | what the two loops leave is a decimal of the input's value in normal form |
| Decimals.ScaledDownSameValue | src/decimal.rs:422-429 | stripping trailing zeros at a coarser scale keeps the value |
| Decimals.ScaledUpSameValue | src/decimal.rs:431-438 | multiplying by 10^k at a scale k places finer keeps the value |
| Decimals.NormalFormUnique | src/decimal.rs:856-864 | two decimals in normal form with the same value are the same triple, so equal values normalize (and hash) alike |
| Decimals.WidenedBeyondWord | src/decimal.rs:444-455 | a non-zero magnitude written more than 38 places finer exceeds every u128 |
| Decimals.RescaleCmp | src/decimal.rs:444-455 | `rescale_cmp` compares the coarser magnitude, written at the finer scale, with the finer one |
| Decimals.CmpMagnitudes | src/decimal.rs:824-853 | the unsigned part of `cmp` compares the magnitudes at the finer scale |
| Decimals.Cmp | src/decimal.rs:813-853 | the sign bit decides first; with zeros unsigned, `cmp` is the numeric order of the values |
| Decimals.CmpAgreesWithValues | src/decimal.rs:813-853 | for equal signs, `cmp` is the numeric order (reversed magnitudes for two negatives) |
| Decimals.Eq | src/decimal.rs:771-776 | `eq` holds exactly when the values are equal, so 1.1 == 1.10 |
| Decimals.CompareValuesAntisymmetric | src/decimal.rs:813-853 | swapping the operands reverses the order |
| Decimals.CompareValuesTransitive | src/decimal.rs:813-853 | the order is transitive, strictly when either step is strict |
| TableRounding.RoundTableAgrees | src/decimal.rs:366-406 | for precision ≤ 38 and at most 38 places coarser, every table read of `round_with_precision` as written is in range and its outcome is `RoundOutcome` |
| TableRounding.RoundTableCoarser | src/decimal.rs:395-405 | the coarser arm as written, reading divisor and ceiling from the table, gives `RoundOutcome` within 38 digits and 38 places |
| TableRounding.RoundTableShifted | src/decimal.rs:383-394 | the finer arm as written, multiplying by the table factor below the table ceiling, gives `RoundOutcome` within 38 digits |
| TableRounding.TableShiftsExactly | src/decimal.rs:393-394 | within 38 digits the table factor is 10^e and the low word of the product is the magnitude at the target scale |
| TableRounding.RoundTableCounterexample | src/decimal.rs:384-394 | with precision 40, 10^33 moved 5 places finer becomes 10^38 without overflow, a 39-digit magnitude that is not a valid decimal, where `RoundOutcome` reports overflow |
| Arith.DivRoundHalfUpUnique | src/decimal.rs:471-481 | the half-up quotient is the only integer within half a divisor of n/p |
| Arith.RoundedDigits | src/decimal.rs:471-481 | rounding k + shift digits by 10^shift leaves k digits, or the carry 10^k |
| Arith.CarryRedivide | src/decimal.rs:471-481 | when rounding carries to 10^k, rounding one place further gives exactly 10^(k−1) |
| Arith.DigitsFit | src/decimal.rs:458-485 | a magnitude of at most 38 digits is at most 10^38 − 1 |
| Arith.RoundToDigits | src/decimal.rs:471-481 | rounding to 38 significant digits yields a half-up quotient between 1 and 10^38 |
| Arith.AdjustScale | src/decimal.rs:458-485 | None exactly when scale − digits < −126 (or equals −126 and rounding carries); ZERO when scale − digits > 130 or n = 0; every result valid |
| Arith.AdjustScaleKeeps | src/decimal.rs:458-470 | a magnitude of at most 38 digits inside the window is kept as it is |
| Arith.AdjustScaleRoundsOnce | src/decimal.rs:471-485 | a longer magnitude that does not carry is rounded half-up once, to 38 digits |
| Arith.AdjustScaleRoundsTwice | src/decimal.rs:471-485 | a longer magnitude that carries is rounded one place further, to 10^37 |
| Arith.AdjustScaleRounds | src/decimal.rs:458-485 | a non-zero result is n rounded half-up at its scale: exact with at most 38 digits, otherwise exactly 38 significant digits |
| Arith.AdjustScaleExact | src/decimal.rs:458-485 | when the dropped digits are zero the result denotes n · 10^(−scale) exactly |
| Arith.AdjustScaleAsWrittenAgrees | src/decimal.rs:458-485 | below 10^77 and without a carry, the source's `adjust_scale` and the corrected one agree |
| Arith.AdjustScaleCarryCounterexample | src/decimal.rs:471-481 | as written, 10^39 − 1 at scale 0 becomes the invalid 10^38 at scale −1; corrected, 10^37 at scale −2 |
| Arith.AdjustScaleUndercountCounterexample | src/decimal.rs:458-469 | as written, 11·10^76 + 1 keeps the 39-digit 11·10^37; corrected, 11·10^36 at scale 36 |
| Arith.CountDigitsAtMost | src/u256.rs:317-329 | the table search reports between 1 and 77 digits |
| Arith.MulAdd | src/decimal.rs:488-508 | `mul128(a, b) + c` is the exact a·b + c |
| Arith.AddInternal | src/decimal.rs:511-526 | on valid operands every result is valid (corrected form) |
| Arith.AddInternalCommutes | src/decimal.rs:511-526 | `add_internal` does not depend on the order of its operands |
| Arith.RescaleAddSum | src/decimal.rs:488-508 | when the aligned sum is formed, `rescale_add` is `adjust_scale` of the exact aligned sum at the finer scale |
| Arith.AddInternalSum | src/decimal.rs:511-526 | `add_internal` is the aligned sum of the magnitudes, kept on the same-scale fast path, otherwise rounded by `adjust_scale` |
| Arith.AddInternalExact | src/decimal.rs:511-526 | a non-zero sum of at most 38 digits inside the window is exact: it denotes the signed sum |
| Arith.AddInternalDropsNegligible | src/decimal.rs:488-508 | when the sum is not formed the coarser operand is returned, and the dropped one is below 10^−39 of it |
| Arith.RescaleAddFallback | src/decimal.rs:488-508 | the fallback branch returns the coarser operand, and happens only at a gap of 77 places or a sum beyond 256 bits |
| Arith.AddZeroCounterexample | src/decimal.rs:488-508 | as written, 0 + 10^−80 is 0; corrected, 10^−80 |
| Arith.SubInternal | src/decimal.rs:559-584 | on valid operands every result is valid |
| Arith.RescaleSubDiff | src/decimal.rs:529-556 | when the difference is formed, `rescale_sub` is `adjust_scale` of its magnitude under the sign it implies |
| Arith.RescaleSubNarrow | src/decimal.rs:529-556 | scales at most 38 apart always form the difference exactly |
| Arith.AdjustScaleZeroSign | src/decimal.rs:458-485 | a zero difference gives the same result under either sign |
| Arith.SubInternalDiff | src/decimal.rs:559-584 | for non-zero operands, `sub_internal` is the difference's magnitude with its sign, kept on equal scales, otherwise rounded |
| Arith.SubInternalExact | src/decimal.rs:559-584 | a non-zero difference of at most 38 digits inside the window is exact |
| Arith.SubInternalDropsNegligible | src/decimal.rs:529-556 | when the difference is not formed the coarser operand is returned with its sign in the difference, the dropped one being negligible |
| Arith.RescaleSubFallback | src/decimal.rs:529-556 | the fallback branch returns the coarser operand, and happens only at a gap of 77 places or a product beyond 256 bits |
| Arith.CheckedAdd | src/decimal.rs:589-602 | on valid operands every result is valid (corrected form) |
| Arith.CheckedSub | src/decimal.rs:604-612 | on valid operands every result is valid (corrected form) |
| Arith.CheckedAddCommutes | src/decimal.rs:589-602 | addition commutes, result for result |
| Arith.SignedMagnitude | src/decimal.rs:589-612 | a decimal at scale m is its signed magnitude there |
| Arith.CheckedAddExact | src/decimal.rs:589-602 | a non-zero sum of at most 38 digits inside the window is computed exactly, whatever the signs |
| Arith.CheckedSubExact | src/decimal.rs:604-612 | a non-zero difference of at most 38 digits inside the window is computed exactly, whatever the signs |
| Arith.CheckedMul | src/decimal.rs:617-631 | every result is valid |
| Arith.CheckedMulCommutes | src/decimal.rs:617-631 | multiplication commutes, result for result |
| Arith.CheckedMulProduct | src/decimal.rs:617-631 | a non-zero product is the magnitudes' product, kept at scale 0 with ≤ 38 digits, otherwise rounded by `adjust_scale` with the XOR of the signs |
| Arith.CheckedMulRounds | src/decimal.rs:617-631 | a product that neither flushes nor overflows is the product rounded half-up at the result's scale, with 38 digits when rounded, sign the XOR of the signs |
| Arith.CheckedMulExact | src/decimal.rs:617-631 | a product of at most 38 digits inside the window denotes the product of the values |
| Arith.CheckedMulOne | src/decimal.rs:617-631 | multiplying by ONE keeps a non-zero decimal inside the window |
| Arith.CheckedMulExample | src/lib.rs:53-56 | 123456789.987654321 × 987654321.123456789 = 121932632103337905.662094193112635269 |
| Arith.CheckedDiv | src/decimal.rs:636-660 | every result is valid |
| Arith.Dividend | src/decimal.rs:640-652 | the pre-scaled dividend is the magnitude times 10^(38 + the divisor's extra digits) |
| Arith.DividendFits | src/decimal.rs:640-652 | the pre-scaled dividend stays below 2^256 |
| Arith.QuotientDigits | src/decimal.rs:652-660 | a dividend holding 10^(k−1) divisors gives a half-up quotient of at least k digits |
| Arith.CheckedDivRounds | src/decimal.rs:636-660 | a division by a non-zero divisor is `adjust_scale` of the half-up quotient of the pre-scaled dividend, which has at least 38 digits, with the XOR of the signs |
| Arith.CheckedDivExact | src/decimal.rs:636-660 | an exact quotient inside the window times the divisor is the dividend, both at the result's scale |
| Arith.CheckedDivOneThird | src/ops.rs:576-641 | 1 / 3 = 0.33333333333333333333333333333333333333 |
| Arith.CheckedDivSelf | src/ops.rs:576-641 | x / x = 1.0000000000000000000000000000000000000 for every non-zero x, the value one |
| Arith.SelfQuotient | src/decimal.rs:458-485 | `adjust_scale` rounds 10^38 at scale 38 to 10^37 at scale 37, the value one |
| Arith.CheckedRemAsWritten | src/decimal.rs:665-721 | the source's remainder: valid on valid operands except the zero the wide branch builds |
| Arith.CheckedRem | src/decimal.rs:665-721 | the corrected remainder: on valid operands every result is valid |
| Arith.RemKept | src/decimal.rs:706-719 | a remainder of at most 38 digits inside the window passes through `adjust_scale` unchanged |
| Arith.RemFinerDivisor | src/decimal.rs:678-708 | a divisor finer by at most 38 places: the remainder of the exactly rescaled dividend |
| Arith.RemCoarserDivisor | src/decimal.rs:709-720 | a dividend finer by at most 38 places: reduced modulo the rescaled divisor |
| Arith.RemFarCoarserDivisor | src/decimal.rs:709-714 | a dividend finer by more than 38 places is its own remainder |
| Arith.CheckedRemExact | src/decimal.rs:665-721 | for gaps below 77 places inside the window, the remainder is the truncated remainder of the magnitudes at the finer scale with the dividend's sign, as Rust's `%` |
| Arith.RemNegativeZeroCounterexample | src/decimal.rs:698-702 | as written, −1 % 10^−39 is a zero with the sign set, which `cmp` orders below ZERO; corrected, ZERO |
| Arith.RemOverflowCounterexample | src/decimal.rs:689-691 | as written, 10^37 % 3·10^−76 needs 10^113 in 256 bits; corrected, the exact 10^−76 |
| Arith.CheckedRemAsWrittenAgrees | src/decimal.rs:665-721 | where the source's product fits, both forms fail together and agree except that a zero remainder is ZERO |
| Arith.CheckedRemFarFinerDivisor | src/ops.rs:717-720 | a gap of 77 places rescales by 10^38 only: 5e77 % 3 = 2e39 |
| Codec.Pow256Words | src/decimal.rs:273-306 | 256^2 = 65536 and 256^16 = 2^128 |
| Codec.LeBytes | src/decimal.rs:229-231 | `to_le_bytes` gives k bytes |
| Codec.FromLeBound | src/decimal.rs:273-306 | k little-endian bytes denote less than 256^k |
| Codec.FromLeAppend | src/decimal.rs:273-306 | bytes then more bytes: the second part is worth 256^(length of the first) per unit |
| Codec.FromLeLeBytes | src/decimal.rs:226-306 | reading back the low k bytes of a number below 256^k gives the number |
| Codec.FromLeZeros | src/decimal.rs:273-306 | zero bytes denote zero |
| Codec.LeBytesSplit | src/decimal.rs:226-252 | the low a + b bytes are the low a bytes and then b bytes of what remains |
| Codec.TopIndex | src/decimal.rs:231-237 | the index of the last non-zero byte: every byte above it is zero |
| Codec.TopIndexAtMost | src/decimal.rs:231-237 | any index above which all bytes are zero bounds the top index |
| Codec.TrimmedValue | src/decimal.rs:231-252 | dropping zero bytes above the top index keeps the value |
| Codec.FindTop | src/decimal.rs:231-237 | the trimming loop stops at the top non-zero byte, or at index 0 |
| Codec.KeptBytes | src/decimal.rs:231-252 | an encoding keeps 1 to 16 magnitude bytes |
| Codec.EncodeHeader | src/decimal.rs:210-222 | the flags byte has bit 0 set exactly for a negative sign and bit 1 exactly for a scale ≥ 0; the second byte is the absolute scale |
| Codec.InternalEncode | src/decimal.rs:226-252 | writes the specified bytes and returns their count, at most 18 |
| Codec.Encode | src/decimal.rs:257-263 | writes the full form and returns its size, at most 18 |
| Codec.CompactEncode | src/decimal.rs:267-269 | writes the compact form and returns its size, at most 18 |
| Codec.MagnitudeBytes | src/decimal.rs:286-298 | `decode` assembles sixteen magnitude bytes |
| Codec.Decode | src/decimal.rs:273-306 | one or two bytes are a non-negative integer below 65536 at scale 0; longer input takes the sign from bit 0 of the flags byte |
| Codec.KeptBytesValue | src/decimal.rs:231-252 | the kept bytes denote the magnitude |
| Codec.EncodingSize | src/decimal.rs:226-252 | the full form takes 3 to 18 bytes, and the compact form is never longer |
| Codec.CompactSize | src/decimal.rs:238-245 | the compact form is one or two bytes exactly for non-negative scale-0 integers below 65536, one byte exactly below 256 |
| Codec.HeaderDecodes | src/decimal.rs:273-306 | the header of a valid decimal reads back as its sign and scale |
| Codec.MagnitudeDecodes | src/decimal.rs:286-298 | the magnitude `decode` assembles from the kept bytes is what they denote |
| Codec.DecodeEncode | src/decimal.rs:949-972 | decoding the full encoding of a valid decimal gives it back |
| Codec.DecodeCompactEncode | src/lib.rs:64-68 | decoding the compact encoding of a valid decimal gives it back |
| Buffer.Repeat | src/buf.rs:58-65 | count copies of a byte |
| Buffer.Buf.AsSlice | src/buf.rs:37-40 | the bytes written so far: exactly `len` of them |
| Buffer.Buf.constructor | src/buf.rs:24-30 | a new buffer is empty |
| Buffer.Buf.WriteU8 | src/buf.rs:43-47 | appends one byte; `len` grows by one; requires room |
| Buffer.Buf.WriteSlice | src/buf.rs:50-55 | appends the slice; `len` grows by its length |
| Buffer.Buf.WriteBytes | src/buf.rs:58-65 | appends `count` copies of the byte |
| Buffer.Buf.Truncate | src/buf.rs:68-72 | `len` becomes min(len, n); the kept prefix is unchanged; never grows |
| Buffer.Buf.Write | src/buf.rs:75-81 | appends all bytes and returns their count |
| Format.Digits | src/decimal.rs:176-177 | the text of `{}` for a u128: as many digits as the number has, no leading zero |
| Format.DigitsValueDigits | src/decimal.rs:176-177 | reading the printed digits back gives the number |
| Format.DigitsValueAppend | src/decimal.rs:176-207 | digits then more digits: the first run is worth 10^(length of the second) per unit |
| Format.TrailingZeros | src/decimal.rs:194-203 | the number of '0' bytes ending the text |
| Format.CountTrailingZeros | src/decimal.rs:194-203 | the stripping loop counts the trailing zeros |
| Format.DropTrailingZeros | src/decimal.rs:194-203 | cutting off the trailing zeros divides the value by 10 per zero |
| Format.WrapI16 | src/decimal.rs:153-156 | `prec as i16` is the precision modulo 2^16 |
| Format.ValidRoundAddFits | src/decimal.rs:153-156 | rounding a valid decimal never overflows u128 |
| Format.Rounded | src/decimal.rs:153-156 | the decimal printed is the input rounded to the precision, or the input |
| Format.WritePadded | src/decimal.rs:187-193 | writes a point and the digits padded with zeros, or cut, to the precision |
| Format.WriteStripped | src/decimal.rs:194-203 | writes a point and the digits less their trailing zeros, nothing if none remain |
| Format.WriteFraction | src/decimal.rs:186-203 | writes the fraction, with or without a precision |
| Format.WriteWhole | src/decimal.rs:163-175 | writes the digits, −scale zeros and, with a precision, a point and that many zeros |
| Format.WriteShort | src/decimal.rs:180-183 | writes "0" then the fraction of the digits padded to the scale (corrected form) |
| Format.WriteSplit | src/decimal.rs:184-203 | writes the digits before the point, then the fraction |
| Format.WriteBody | src/decimal.rs:161-205 | writes the unsigned text of a non-zero value |
| Format.WriteSign | src/decimal.rs:157-159 | writes a minus sign when negative |
| Format.WriteSigned | src/decimal.rs:149-207 | writes the sign and then the body |
| Format.FmtInternal | src/decimal.rs:149-207 | appends exactly the text `FmtText` specifies to the buffer (corrected form) |
| Format.Display | src/decimal.rs:754-761 | the text is the unsigned text after a minus sign for negative values (corrected form) |
| Format.FmtTextDenotes | src/decimal.rs:149-207 | the text denotes the value printed: the input's sign (when asked) and the rounded magnitude at the rounded scale |
| Format.FmtTextAsWrittenDenotes | src/decimal.rs:180-183 | the source's text denotes the same number |
| Format.FmtTextWellShaped | src/decimal.rs:149-207 | a non-zero value shows exactly p digits after the point with precision p, and no trailing zero after the point without one |
| Format.FmtShortFractionCounterexample | src/decimal.rs:180-183 | as written, 0.01 with four places prints "0.01" and 0.010 prints "0.010"; corrected, "0.0100" and "0.01" |
| Format.NoRounding | src/decimal.rs:153-156 | a precision at least the scale does not round |
| Format.FmtWholeExample | src/decimal.rs:871-896 | −128e2 prints "-12800" |
| Format.FmtShortExample | src/decimal.rs:871-896 | −0.0128 prints "-0.0128" |
| Format.FmtStrippedExample | src/decimal.rs:871-896 | 1.28560 prints "1.2856" |
| Format.FmtPaddedExample | src/decimal.rs:871-896 | 1.2856 with six places and no sign prints "1.285600" |
| Format.FmtRoundedExample | src/decimal.rs:871-896 | 1.2856 with two places prints "1.29" |
| Format.DisplayIsSignedFmt | src/decimal.rs:754-761 | Display's text is the signed `fmt_internal` text |
| Format.DisplayDenotes | src/decimal.rs:754-761 | Display without a precision denotes exactly the decimal, sign included |
| Parse.ExtractSign | src/parse.rs:41-47 | a leading '+' or '-' is removed; the sign is negative exactly for '-' |
| Parse.EatDigits | src/parse.rs:51-54 | splits off the longest run of digits |
| Parse.Exponent | src/parse.rs:57-88 | an exponent is at most 999 in magnitude; an error is never Empty |
| Parse.ExponentDigits | src/parse.rs:65-74 | more than three significant digits is exactly a magnitude of at least 1000 |
| Parse.ExtractExponent | src/parse.rs:57-88 | the loop computes the specified exponent or error |
| Parse.TrimLeadingZeros | src/parse.rs:92-150 | removes leading zeros, keeping one zero when nothing else is left |
| Parse.TrimTrailingZeros | src/parse.rs:92-150 | removes trailing zeros |
| Parse.WithExponent | src/parse.rs:57-88 | the parts with the exponent read from the text |
| Parse.ParseDecimal | src/parse.rs:92-150 | computes the specified decomposition |
| Parse.DecomposedWellFormed | src/parse.rs:92-150 | the parts read are digits of the expected shape and no longer than the text |
| Parse.LeadingZeros | src/parse.rs:203-206 | the number of leading '0' bytes |
| Parse.RoundedFits | src/parse.rs:246-250 | the mantissa rounded to 38 digits is at most 10^38 |
| Parse.TruncationScale | src/parse.rs:192-232 | the scale before the fractional digits stays inside 16 bits |
| Parse.TruncationFits | src/parse.rs:192-232 | what the branch keeps fits in 38 digits |
| Parse.CutRounding | src/parse.rs:208-232 | cutting digits is half-up rounding on the first dropped digit ('5' or more rounds up) |
| Parse.TruncationRounds | src/parse.rs:192-232 | every branch keeps the mantissa rounded half-up to 38 significant digits |
| Parse.FinishAssembles | src/parse.rs:234-262 | the rest of `parse_str` on those digits gives the specified decimal |
| Parse.Truncate | src/parse.rs:192-232 | the branch computes the specified digits, carry and exponent (corrected form) |
| Parse.Accumulate | src/parse.rs:234-244 | the loops accumulate the value of the kept digits |
| Parse.ParseStr | src/parse.rs:181-263 | computes the specified result (corrected form) |
| Parse.Complete | src/parse.rs:244-262 | the end of `parse_str` computes the specified result |
| Parse.KeptDigits | src/parse.rs:192-232 | at most 38 significant digits are kept, all of them when there are no more |
| Parse.AssembleValid | src/parse.rs:181-263 | a parsed decimal is valid with scale in [−126, 167] |
| Parse.AssembleRounds | src/parse.rs:181-263 | a non-zero parsed magnitude is the mantissa rounded half-up at the result's scale |
| Parse.AssembleExact | src/parse.rs:181-263 | a mantissa of at most 38 significant digits is kept exactly, at the scale its text gives |
| Parse.AssembleZero | src/parse.rs:259 | the result is ZERO exactly when every digit is 0; a zero is never negative |
| Parse.AsWrittenAgrees | src/parse.rs:203-214 | with an integral part present, the source's branch test gives the corrected result |
| Parse.AssembleDependsOnValue | src/parse.rs:192-262 | the result depends on the integral digits only through the mantissa's value and significant digits |
| Parse.LeadingPointAgrees | src/parse.rs:203-214 | corrected, ".5" and "0.5" parse alike |
| Parse.LeadingPointCounterexample | src/parse.rs:203-214 | as written, ".000…0123" with 38 zeros parses as 0, "0.000…0123" as 123e−41; corrected, both are 123e−41 |
| Parse.EatWhitespaces | src/parse.rs:154-157 | drops exactly the leading whitespace |
| Parse.ExtractNan | src/parse.rs:161-173 | takes off "nan" in any case, exactly when present |
| Parse.FromStr | src/parse.rs:270-290 | computes the specified result (corrected form) |
| Parse.ParsedNotEmpty | src/parse.rs:181-263 | parsing itself never reports Empty |
| Parse.FromTextEmpty | src/parse.rs:270-290 | the result is Empty exactly for blank input |
| Parse.FromTextNan | src/parse.rs:270-290 | a "nan" prefix in any case, after whitespace, is Invalid whatever follows |
| Parse.ParsedAppend | src/parse.rs:181-263 | parsing a number does not look past its end |
| Parse.FromTextTrims | src/parse.rs:270-290 | surrounding whitespace does not change the result |
| Parse.FromTextParses | src/parse.rs:270-290 | a non-blank text without NaN is parsed and accepted if only whitespace follows |
| Parse.AssembleShort | src/parse.rs:181-263 | a short mantissa with the scale in bounds is taken as it is |
| Parse.EmptyExponentExample | src/parse.rs:326-352 | "-1e" is Invalid |
| Parse.LonePointExample | src/parse.rs:326-352 | "." is Invalid |
| Parse.LoneSignExample | src/parse.rs:326-352 | "-" is Invalid |
| Parse.SpaceAfterSignExample | src/parse.rs:326-352 | "- 1" is Invalid |
| Parse.NanExample | src/parse.rs:326-352 | "NaN1" is Invalid |
| Parse.BlankExample | src/parse.rs:326-352 | "" and "   " are Empty |
| Parse.OverflowExample | src/parse.rs:252-257 | 1e127 overflows |
| Parse.UnderflowExample | src/parse.rs:252-257 | 1e−131 underflows |
| Parse.SmallestScaleExample | src/parse.rs:446-456 | 100E−131 is 100 at scale 131 |
| Parse.FractionExponentExample | src/parse.rs:361-442 | "0000001.23456000e3" is 123456 at scale 2 |
| Parse.FractionExponentTextExample | src/parse.rs:441 | "0000001.23456000e3" reads as 123456 at scale 2, whose Display text is "1234.56" |
| Parse.RoundTripExample | src/parse.rs:407 | "128.128" is the Display text of 128128 at scale 3 and reads back as that decimal |
| Parse.NegativeRoundTripExample | src/parse.rs:438 | "-0.1" is the Display text of −1 at scale 1 and reads back as that decimal |
| Parse.TrimLeadingZerosOf | src/parse.rs:101-103 | zeros in front of digits that do not start with 0 are all removed |
| Parse.TrimTrailingZerosOf | src/parse.rs:120-122 | zeros after digits that do not end in 0 are all removed |
| Parse.SignificantDigits | src/parse.rs:199-231 | the significant digits of a mantissa with a non-zero value are the digits of that value |
| Parse.DivRoundHalfUpExact | src/parse.rs:208-228 | rounding an exact multiple of 10^k half up at k places loses nothing |
| Parse.DropsExactly | src/parse.rs:215-222 | a magnitude of at most 38 digits followed by zeros, cut to 38 significant digits, loses only zeros and still fits 38 digits |
| Parse.WholeDropsZeros | src/parse.rs:215-222 | for a mantissa that is a magnitude times 10^(−scale), the digits cut past the 38 kept are zeros, so the kept value is the magnitude times a smaller power of ten |
| Parse.AssembleWhole | src/parse.rs:181-263 | a mantissa with no fraction that is a decimal's magnitude times 10^(−scale) assembles to a decimal of that value, and to that decimal itself at scale 0 |
| Parse.AssembleFiner | src/parse.rs:181-263 | a mantissa that is a decimal's magnitude read z places coarser assembles to a decimal of that value, and to that decimal itself when z is 0 |
| Parse.AssembleFinerExact | src/parse.rs:224-262 | such a mantissa is taken as it is, at the fraction's length as scale |
| Parse.FractionPartsValue | src/decimal.rs:174-205 | the whole and stripped fraction digits the formatter writes for a positive scale are worth the magnitude once the stripped zeros are put back, and none is stripped when the last digit is not 0 |
| Parse.WholeDisplayPartsValue | src/decimal.rs:167-173 | for a scale of 0 or less, the parts the parser reads from Display's text have no fraction and are worth the magnitude times 10^(−scale) |
| Parse.FractionDisplayPartsValue | src/decimal.rs:174-205 | for a positive scale, those parts are worth the magnitude once the stripped zeros are put back |
| Parse.DisplayPartsValue | src/decimal.rs:149-207 | the parts read from Display's text are worth the decimal's magnitude, at its scale less the stripped zeros |
| Parse.DisplayParses | src/parse.rs:92-150 | Display's text of a non-zero decimal fits the parser's input bound and is read as those parts with no exponent |
| Parse.DisplayPartsAssemble | src/parse.rs:181-263 | those parts assemble into a decimal of the same value, and into the decimal itself at scale 0 or at a positive scale whose last digit is not 0 |
| Parse.ZeroReadsBack | src/parse.rs:270-290 | zero displays as "0", which reads back as ZERO |
| Parse.DisplayReadsBack | src/parse.rs:270-290 | Display's text of every valid decimal within the parser's exponent window reads back through `from_str` as a decimal of the same value, and as the decimal itself at scale 0 or at a positive scale whose last digit is not 0 |
| Parse.NegativeZeroExample | src/parse.rs:361-442 | "-0.0" is ZERO |
| Convert.FromUnsigned | src/convert.rs:24-36 | an unsigned integer becomes a valid decimal at scale 0 with that value |
| Convert.FromSigned | src/convert.rs:37-54 | a signed integer becomes a valid decimal at scale 0 with that value, negative exactly when it is below zero |
| Convert.FromBool | src/convert.rs:66-75 | true is ONE, false is ZERO |
| Convert.TryFromI128 | src/convert.rs:77-98 | Overflow exactly when the magnitude exceeds 10^38 − 1; otherwise the exact value |
| Convert.TryFromU128 | src/convert.rs:100-115 | Overflow exactly when the value exceeds 10^38 − 1; otherwise the exact value |
| Convert.ValidRoundFits | src/convert.rs:426-455 | rounding a valid decimal to scale 0 cannot overflow |
| Convert.Pow10Beyond128 | src/convert.rs:426-455 | past 38 places the scale-up leaves 128 bits |
| Convert.RoundedMagnitude | src/convert.rs:426-455 | Ok exactly when the half-up nearest integer magnitude is below 2^128, and then it is that integer |
| Convert.ToU128 | src/convert.rs:422-455 | negative values overflow; otherwise Ok exactly when the nearest integer is below 2^128, and then it is that integer |
| Convert.ToI128Signed | src/convert.rs:467-479 | a magnitude becomes an i128 exactly when it fits, up to 2^127 when negative |
| Convert.ToI128 | src/convert.rs:481-511 | Ok exactly when the nearest integer lies in the i128 range, and then it is that integer |
| Convert.ToUnsigned | src/convert.rs:522-547 | Ok exactly when the nearest integer lies in the target's range, and then it is that integer |
| Convert.ToSigned | src/convert.rs:548-576 | Ok exactly when the nearest integer lies in the target's range, and then it is that integer |
| Convert.SignedRoundTrip | src/convert.rs:604-637 | a signed integer converted and converted back is itself |
| Convert.UnsignedRoundTrip | src/convert.rs:650-676 | an unsigned integer converted and converted back is itself |
| Convert.I128RoundTrip | src/convert.rs:639-649 | an i128 of at most 38 digits converted and converted back is itself |
| Convert.U128RoundTrip | src/convert.rs:679-684 | a u128 of at most 38 digits converted and converted back is itself |
| Convert.ConversionExamples | src/convert.rs:836-937 | 1e39 overflows u128 and i128; −1 overflows u128; 2.5 → 3 and −2.5 → −3; 256 overflows u8; −129 overflows i8, −128 does not |
| Ops.Neg | src/ops.rs:24-34 | same magnitude and scale, the value negated; validity kept |
| Ops.NegRef | src/ops.rs:36-47 | same magnitude, the value negated, a zero result is ZERO; validity kept |
| Ops.NegFormsAgree | src/ops.rs:24-47 | on a valid decimal the by-value and by-reference negations agree |
| Ops.NegInvolution | src/ops.rs:36-47 | negating twice gives the decimal back |
| Ops.AdjustScaleFlip | src/decimal.rs:458-485 | flipping the requested sign negates `adjust_scale`'s result |
| Ops.RescaleAddFlip | src/decimal.rs:488-508 | flipping the sign negates `rescale_add`'s result |
| Ops.AddInternalFlip | src/decimal.rs:511-526 | flipping the sign negates `add_internal`'s result |
| Ops.RescaleSubFlip | src/decimal.rs:529-556 | flipping the sign negates `rescale_sub`'s result |
| Ops.SubInternalSwap | src/decimal.rs:559-584 | swapping the operands of `sub_internal` negates its result |
| Ops.SubAntisymmetric | src/ops.rs:429-524 | b − a is the negation of a − b, result for result |
| Ops.AddInverse | src/ops.rs:403-417 | a + (−a) is ZERO |
| Decimals.NumDigitsShift | src/decimal.rs:488-508 | multiplying by 10^e adds e digits |
| Ops.AddZero | src/ops.rs:403-417 | a + 0 has a's value, for a inside the scale window |
| Ops.Checked | src/decimal.rs:589-721 | the checked form of each operator; every result on valid operands is valid |
| Ops.Apply | src/ops.rs:49-138 | an operator returns what its checked form gives; it panics (is not callable) exactly where that is None |
| Ops.MulSign | src/ops.rs:527-573 | a zero factor gives ZERO; a non-zero product has the XOR of the signs |
| Ops.DivSign | src/ops.rs:576-641 | a zero divisor gives None, a zero dividend ZERO; a non-zero quotient has the XOR of the signs |
| Ops.RemSign | src/ops.rs:643-727 | a zero divisor gives None; a non-zero remainder has the dividend's sign |
| Ops.RemEqualScales | src/decimal.rs:674-677 | with equal scales the remainder is int_val % other.int_val |
| Ops.IntToDecimal | src/ops.rs:163-247 | a narrow integer always converts; an i128 or u128 fails exactly beyond 38 digits; the result has the integer's value at scale 0 |
| Ops.ApplyInt | src/ops.rs:163-247 | `a op n` is the operator applied to the converted integer |
| Ops.IntApply | src/ops.rs:163-247 | `n op a` is the operator applied with the converted integer on the left |
| Ops.DecimalVar.constructor | src/ops.rs:60-66 | a variable holding a decimal |
| Ops.DecimalVar.OpAssign | src/ops.rs:60-146 | `x op= y` replaces x by the operator's result |
| Ops.DecimalVar.OpAssignInt | src/ops.rs:289-363 | `x op= n` replaces x by the operator's result with the converted integer |
| Ops.Folded | src/ops.rs:149-161 | every step of a non-panicking fold is valid |
| Ops.FoldedPrefix | src/ops.rs:149-161 | a fold that does not panic does not panic on any prefix |
| Ops.Fold | src/ops.rs:149-161 | the loop computes the left fold |
| Ops.Sum | src/ops.rs:149-154 | the fold of + from ZERO |
| Ops.Product | src/ops.rs:156-161 | the fold of × from ONE |
| Ops.ProductWithZero | src/ops.rs:156-161 | a zero factor makes the product ZERO |
| Ops.ProductNegativeParity | src/ops.rs:156-161 | a non-zero product is negative exactly when an odd number of factors is |
| Ops.SumOfOne | src/ops.rs:149-154 | the sum of one decimal has its value |
| Ops.ProductOfOne | src/ops.rs:156-161 | the product of one decimal is that decimal |
| Ops.FoldedSnoc | src/ops.rs:149-161 | folding one more element applies the operator once more |
| Ops.AddIntegers | src/ops.rs:391-427 | integers of one sign add exactly within 38 digits |
| Ops.MulIntegers | src/ops.rs:527-573 | integers multiply exactly within 38 digits, sign the XOR |
| Ops.SumExample | src/ops.rs:729-756 | 1 + 10 + 100 + 1000 + 10000 = 11111, and the same negated |
| Ops.ProductExample | src/ops.rs:729-756 | 1 · 2 · 3 · 4 · 5 = 120; with all factors negative, −120 |

## Left out

- `sqrt` (src/decimal.rs:726-751): a Newton iteration run until a fixed point, with no decreasing measure to prove termination.
- Float conversions (`TryFrom<f32>`, `TryFrom<f64>`, `base2_to_decimal`, `From<Decimal>` for f32/f64): floating point, and a loop with no termination argument. f32/f64 operands of the operators are left out for the same reason.
- `Hash` and `Formatter::pad_integral` (width and fill): library behaviour. Display is the sign prefix plus the `fmt_internal` text. For hashing, `Decimals.NormalFormUnique` states the property `normalize` supplies.
- The `std::io::Write` writer of `encode`: the encoders return the bytes they write. I/O errors are not modelled.
- ethnum's `udivmod4` and multiplication: specified by integer arithmetic. `stack_buf::StackVec` is `Buffer.Buf` for the 256-byte text buffer and a byte sequence for the 40-byte digit buffer of `fmt_internal`.
- serde.rs, lib.rs wiring and benches/benchmark.rs: adapters, wiring and benchmarks.
- The table-printing tests of u256.rs: console output only.
- `usize` and `isize` are taken as 64 bits wide.
- Operator panics are preconditions (`Ops.Apply`, `Ops.ApplyInt`, `Ops.DecimalVar.OpAssign`). A panic inside `Buf` on overflow is also a precondition.
- Parse.ParseStr: inputs longer than 30000 bytes (`Parse.MAX_INPUT`) are not modelled. Below that bound none of the source's 16-bit lengths and exponents wraps, and the wrap-around above it is not modelled.
- Parse.FromStr: restricted to inputs of at most 30000 bytes, for the same reason.
- Format.FmtInternal: the text must fit the 256-byte buffer (the source panics otherwise).
- Arith.CheckedRem: for a divisor 77 or more places finer, the result keeps the source's rescaling by 10^38 only, which is not the mathematical remainder (5e77 % 3 = 2e39, as the source's tests pin).
- Ops.AddZero: a + 0 is proved equal in value, not in representation, and only for a inside the scale window. A negative scale can change the representation.
- Arith.AdjustScale, Arith.RescaleAdd, Arith.CheckedRem, Format.FmtText, Parse.Assemble, Decimals.DivRoundByPow10 and Decimals.RoundOutcome are the corrected forms. The source's forms are kept beside them (see "## Findings"). Arith.AddInternal, Arith.CheckedAdd, Arith.CheckedSub, Ops.Apply and Ops.Sum add through the corrected Arith.RescaleAdd, so 0 + 1e-80 is 1e-80. Decimals.RoundWithPrecision follows the corrected rounding for precisions above 38. Parse.Truncate, Parse.ParseStr and Parse.FromStr read through the corrected Parse.Assemble. Format.FmtInternal and Format.Display write the corrected Format.FmtText.
- Parse.DisplayReadsBack: covers only decimals whose leading digit lies in the parser's exponent window (a normalized exponent above −130 and at most 126). It proves the same value in general. It proves the same decimal only at scale 0, or at a positive scale whose last digit is not 0. At a negative scale, or with trailing zeros that Display strips, the parser returns another representation of the value.
- Decimals.RoundWithPrecision: above 38 digits the source reads ceilings and factors from the 256-bit table's low words. It indexes past POWERS_10 and panics in three cases: on a finer scale, when precision − e is above 76, or when e is above 76 and the magnitude is below the ceiling; on a coarser scale, when −e or precision is above 76. The model rounds with min(precision, 38) digits instead. The as-written form is `TableRounding.RoundTable`, defined only where its table reads stay in range and shown to agree within 38 digits. The member also requires scale − self.scale to fit i16, so it leaves out the case where that difference, computed in i16 by the source, leaves the range: there a debug build panics and a release build wraps.
- Some decimal/ops/convert tests parse "1e126" and "5e126". This parse.rs rejects both as Overflow, so those vectors are not used.

## Findings

| source | as written | input that shows it | evidently intended | confidence | as-written member | corrected member |
|---|---|---|---|---|---|---|
| src/u256.rs:317-329 | `count_digits` searches POWERS_10, which stops at 10^76, so every U256 from 10^77 to 2^256 is counted as 77 digits; `adjust_scale` then drops one digit too few | 11 + 1e-76: the aligned sum 11·10^76 + 1 has 78 digits, and the result keeps the 39-digit 11·10^37 | the exact digit count, so 38 digits are kept | not executed | Arith.AdjustScaleUndercountCounterexample | Wide.CountDigitsCorrected |
| src/decimal.rs:471-481 | `adjust_scale` rounds to 38 digits and keeps the quotient even when rounding carries to 10^38 | 999 × 1001001001001001001001001001001001001 = 10^39 − 1 becomes 10^38 at scale −1, a 39-digit magnitude | divide a carry once more by ten, as parse.rs:246-250 does | not executed | Arith.AdjustScaleCarryCounterexample | Arith.AdjustScaleRounds |
| src/decimal.rs:488-508 | when the scales are 77 or more apart, `rescale_add` returns the coarser operand even when it is zero | 0 + 1e-80 gives 0 | the finer operand, as it stands, when the coarser one is zero | not executed | Arith.AddZeroCounterexample | Arith.RescaleAddSum |
| src/decimal.rs:384-394 | for a precision above 38, `round_with_precision` takes its finer ceiling from `POWERS_10[precision − e].low()`, so a magnitude of 39 digits passes | 10^33 at scale 0, rounded with precision 40 to scale 5, becomes 10^38 at scale 5 without overflow | overflow once the result needs more than the 38 digits a decimal holds | not executed | TableRounding.RoundTableCounterexample | Decimals.RoundOutcomeKeepsPromises |
| src/decimal.rs:394-396 | `round_with_precision` divides by `POWERS_10[-e].low()`, which is 10^−e only for −e ≤ 38 | 99999999999999999999999999999999999999 rounded to scale −40 with precision 38 becomes 1e40 instead of 0 | half-up division by 10^−e, which gives 0 beyond 38 places | not executed | Decimals.DivRoundByTableLowCounterexample | Decimals.DivRoundByPow10 |
| src/decimal.rs:698-702 | the wide branch of `checked_rem` builds the result without canonicalising a zero remainder | −1 % 1e-39 gives a zero with the sign bit set, which `cmp` orders below 0 | ZERO, as `from_parts_unchecked` gives | not executed | Arith.RemNegativeZeroCounterexample | Arith.CheckedRem |
| src/decimal.rs:689-691 | for gaps of 39 to 76 places `checked_rem` multiplies the dividend by 10^gap in 256 bits without a check | 10000000000000000000000000000000000000 % 3e-76 needs 10^113 | the exact remainder, 1e-76 | not executed | Arith.RemOverflowCounterexample | Arith.CheckedRemExact |
| src/decimal.rs:180-183 | the branch for a scale at least the digit count neither pads to the precision nor strips trailing zeros | 0.01 with four places prints "0.01"; 0.010 without a precision prints "0.010" | "0.0100" and "0.01", as the other branches print | not executed | Format.FmtShortFractionCounterexample | Format.FmtTextWellShaped |
| src/parse.rs:203-214 | leading zeros of the fraction are discounted only when the integral part is exactly "0", so a missing integral part counts them among the 38 digits | ".00000000000000000000000000000000000000123" (38 zeros) parses as 0, while "0.000…0123" parses as 123e-41 | the same result with and without the integral zero | not executed | Parse.LeadingPointCounterexample | Parse.LeadingPointAgrees |
