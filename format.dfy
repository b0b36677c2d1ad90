// The plain-text formatter: `fmt_internal` appends the decimal's digits,
// with the point placed `scale` digits from the right, into a byte
// buffer; Display puts a minus sign in front of a negative value.

module Format {
  import opened Std
  import opened Wide
  import opened Decimals
  import opened Buffer

  /** The ASCII bytes the formatter writes. */
  const ZERO_CHAR: u8 := 48
  const POINT: u8 := 46
  const MINUS: u8 := 45

  predicate IsDigit(c: u8)
  {
    ZERO_CHAR <= c < ZERO_CHAR + 10
  }

  predicate AllDigits(s: seq<u8>)
  {
    forall i :: 0 <= i < |s| ==> IsDigit(s[i])
  }

  /** `count` ASCII zeros. */
  function Zeros(count: nat): (r: seq<u8>)
    ensures |r| == count && AllDigits(r)
  {
    Repeat(ZERO_CHAR, count)
  }

  /** The ASCII text of a string literal, one byte per character. */
  function Ascii(s: string): (r: seq<u8>)
    ensures |r| == |s|
  {
    seq(|s|, i requires 0 <= i < |s| => (s[i] as int % 0x100) as u8)
  }

  // ---------------------------------------------------------------------
  // Decimal digits of an integer
  // ---------------------------------------------------------------------

  function DigitChar(k: nat): (c: u8)
    requires k < 10
    ensures IsDigit(c)
  {
    (ZERO_CHAR as int + k) as u8
  }

  /** The decimal text of `n` that `write!(buf, "{}", n)` produces: no leading zero, "0" for zero. */
  function Digits(n: nat): (r: seq<u8>)
    ensures |r| == NumDigits(n)
    ensures AllDigits(r)
    ensures n > 0 ==> r[0] != ZERO_CHAR
    decreases n
  {
    if n < 10 then [DigitChar(n)] else Digits(n / 10) + [DigitChar(n % 10)]
  }

  /** The number a run of ASCII digits denotes, most significant first. */
  function DigitsValue(s: seq<u8>): int
  {
    if s == [] then 0 else DigitsValue(s[..|s| - 1]) * 10 + (s[|s| - 1] as int - ZERO_CHAR as int)
  }

  /** Reading the digits of `n` back gives `n`. */
  lemma {:induction false} DigitsValueDigits(n: nat)
    ensures DigitsValue(Digits(n)) == n
    decreases n
  {
    if n >= 10 {
      var head := Digits(n / 10);
      DigitsValueDigits(n / 10);
      assert (head + [DigitChar(n % 10)])[..|head|] == head;
    }
  }

  lemma ShiftDigit(v: int, p: int, w: int, c: int)
    ensures (v * p + w) * 10 + c == v * (p * 10) + (w * 10 + c)
  {
  }

  /** Digits followed by more digits: the first run is worth 10^(length of the second) per unit. */
  lemma {:induction false} DigitsValueAppend(a: seq<u8>, b: seq<u8>)
    ensures DigitsValue(a + b) == DigitsValue(a) * Pow10(|b|) + DigitsValue(b)
    decreases |b|
  {
    if b == [] {
      assert a + b == a;
    } else {
      var b' := b[..|b| - 1];
      var c := b[|b| - 1] as int - ZERO_CHAR as int;
      assert (a + b)[..|a + b| - 1] == a + b';
      DigitsValueAppend(a, b');
      ShiftDigit(DigitsValue(a), Pow10(|b'|), DigitsValue(b'), c);
    }
  }

  /** Zeros denote zero. */
  lemma {:induction false} DigitsValueZeros(k: nat)
    ensures DigitsValue(Zeros(k)) == 0
    decreases k
  {
    if k > 0 {
      assert Zeros(k)[..k - 1] == Zeros(k - 1);
      DigitsValueZeros(k - 1);
    }
  }

  /** Appending k zeros multiplies by 10^k. */
  lemma AppendZeros(a: seq<u8>, k: nat)
    ensures DigitsValue(a + Zeros(k)) == DigitsValue(a) * Pow10(k)
  {
    DigitsValueAppend(a, Zeros(k));
    DigitsValueZeros(k);
  }

  /** Leading zeros do not change the value. */
  lemma PrependZeros(k: nat, b: seq<u8>)
    ensures DigitsValue(Zeros(k) + b) == DigitsValue(b)
  {
    DigitsValueAppend(Zeros(k), b);
    DigitsValueZeros(k);
  }

  // ---------------------------------------------------------------------
  // Trailing zeros
  // ---------------------------------------------------------------------

  /** How many '0' bytes end `s`. */
  function TrailingZeros(s: seq<u8>): (r: nat)
    ensures r <= |s|
    ensures forall i :: |s| - r <= i < |s| ==> s[i] == ZERO_CHAR
    ensures r < |s| ==> s[|s| - 1 - r] != ZERO_CHAR
    decreases |s|
  {
    if s != [] && s[|s| - 1] == ZERO_CHAR then
      var r := TrailingZeros(s[..|s| - 1]);
      1 + r
    else 0
  }

  /** The count in `fmt_internal`: walk back from the end while the byte is '0'. */
  method CountTrailingZeros(after: seq<u8>) returns (count: nat)
    ensures count == TrailingZeros(after)
  {
    count := 0;
    while count < |after| && after[|after| - 1 - count] == ZERO_CHAR
      invariant count <= |after|
      invariant TrailingZeros(after) == count + TrailingZeros(after[..|after| - count])
      decreases |after| - count
    {
      var rest := after[..|after| - count];
      assert rest[..|rest| - 1] == after[..|after| - (count + 1)];
      count := count + 1;
    }
  }

  /** Cutting off the trailing zeros divides the value by 10 per zero. */
  lemma DropTrailingZeros(s: seq<u8>)
    ensures DigitsValue(s) == DigitsValue(s[..|s| - TrailingZeros(s)]) * Pow10(TrailingZeros(s))
  {
    var z := TrailingZeros(s);
    assert s[|s| - z..] == Zeros(z);
    assert s == s[..|s| - z] + Zeros(z);
    AppendZeros(s[..|s| - z], z);
  }

  // ---------------------------------------------------------------------
  // The text `fmt_internal` appends
  // ---------------------------------------------------------------------

  /**
   * `prec as i16`: a usize precision reinterpreted in 16 bits, wrapping
   * modulo 2^16.
   */
  function WrapI16(p: nat): (r: i16)
    ensures p < 0x8000 ==> r == p
    ensures (p - r) % 0x1_0000 == 0
  {
    var w := p % 0x1_0000;
    if w < 0x8000 then w else w - 0x1_0000
  }

  /** Rounding never overflows a valid magnitude. */
  lemma ValidRoundAddFits(d: Decimal, scale: i16)
    requires Valid(d)
    ensures RoundAddFits(d, scale)
  {
    var rs := ClampScale(scale);
    if d.intVal != 0 && d.scale > rs && d.scale - rs <= MAX_PRECISION {
      var e: nat := d.scale - rs;
      Pow10Monotone(e - 1, 37);
      Pow10Literals30();
    }
  }

  /** The decimal `fmt_internal` prints: rounded to the precision when one is given. */
  function Rounded(d: Decimal, precision: Option<nat>): (r: Decimal)
    requires Valid(d)
    ensures Valid(r)
    ensures precision.None? ==> r == d
    ensures precision.Some? ==> r.scale <= precision.value
  {
    match precision
    case None => d
    case Some(p) =>
      ValidRoundAddFits(d, WrapI16(p));
      Round(d, WrapI16(p))
  }

  /**
   * The digits after the point in the branch where the point falls inside
   * the digits: with a precision, a point and the digits padded with zeros
   * (or cut) to the precision; without one, the digits less their trailing
   * zeros, after a point only if any remain.
   */
  function Fraction(after: seq<u8>, precision: Option<nat>): seq<u8>
  {
    match precision
    case Some(p) => [POINT] + (if p > |after| then after + Zeros(p - |after|) else after[..p])
    case None =>
      var z := TrailingZeros(after);
      if z < |after| then [POINT] + after[..|after| - z] else []
  }

  /** The body for a scale at most 0: the digits and -scale zeros, then a point and `p` zeros with a precision. */
  function WholeText(digits: seq<u8>, scale: int, precision: Option<nat>): seq<u8>
    requires scale <= 0
  {
    match precision
    case Some(p) => (digits + Zeros(-scale)) + ([POINT] + Zeros(p))
    case None => digits + Zeros(-scale)
  }

  /** The body for a positive scale not below the digit count: "0.", zeros up to the scale, the digits. */
  function LeadingZerosText(digits: seq<u8>, scale: int): seq<u8>
    requires |digits| <= scale
  {
    [ZERO_CHAR] + ([POINT] + (Zeros(scale - |digits|) + digits))
  }

  /** The body when the point falls inside the digits: the digits before it, then the fraction. */
  function SplitText(digits: seq<u8>, scale: int, precision: Option<nat>): seq<u8>
    requires 0 < scale < |digits|
  {
    var cut := |digits| - scale;
    digits[..cut] + Fraction(digits[cut..], precision)
  }

  /**
   * The body for a positive scale not below the digit count, as the
   * split case treats its digits after the point: "0", then the fraction
   * of the digits padded in front with zeros to the scale.
   */
  function ShortText(digits: seq<u8>, scale: int, precision: Option<nat>): seq<u8>
    requires |digits| <= scale
  {
    [ZERO_CHAR] + Fraction(Zeros(scale - |digits|) + digits, precision)
  }

  /** The unsigned text of a non-zero value from its digits and its scale. */
  function Body(digits: seq<u8>, scale: int, precision: Option<nat>): seq<u8>
  {
    if scale <= 0 then WholeText(digits, scale, precision)
    else if |digits| <= scale then ShortText(digits, scale, precision)
    else SplitText(digits, scale, precision)
  }

  /**
   * `Body` as the source writes it: when the scale is at least the digit
   * count, "0." and the padded digits, neither padded to the precision nor
   * stripped of trailing zeros.
   */
  function BodyAsWritten(digits: seq<u8>, scale: int, precision: Option<nat>): seq<u8>
  {
    if scale <= 0 then WholeText(digits, scale, precision)
    else if |digits| <= scale then LeadingZerosText(digits, scale)
    else SplitText(digits, scale, precision)
  }

  function SignPrefix(negative: bool): seq<u8>
  {
    if negative then [MINUS] else []
  }

  /** The minus sign `fmt_internal` writes when asked to and the input is negative. */
  function SignText(d: Decimal, appendSign: bool): seq<u8>
  {
    SignPrefix(appendSign && d.negative)
  }

  /**
   * `fmt_internal`: "0" for zero whatever the precision; otherwise the
   * sign (of the unrounded value, when asked for) and the body of the
   * rounded value.
   */
  function FmtText(d: Decimal, appendSign: bool, precision: Option<nat>): seq<u8>
    requires Valid(d)
  {
    if d.intVal == 0 then [ZERO_CHAR]
    else var dec := Rounded(d, precision);
    SignText(d, appendSign) + Body(Digits(dec.intVal), dec.scale, precision)
  }

  /** `fmt_internal` as the source writes it, with `BodyAsWritten`. */
  function FmtTextAsWritten(d: Decimal, appendSign: bool, precision: Option<nat>): seq<u8>
    requires Valid(d)
  {
    if d.intVal == 0 then [ZERO_CHAR]
    else var dec := Rounded(d, precision);
    SignText(d, appendSign) + BodyAsWritten(Digits(dec.intVal), dec.scale, precision)
  }

  /** Concatenation regrouped, for the buffer's contents after several writes. */
  lemma AppendAssoc(a: seq<u8>, b: seq<u8>, c: seq<u8>)
    ensures (a + b) + c == a + (b + c)
  {
  }

  /** The two cases of `Fraction` with a precision, one equation each. */
  lemma PaddedCases(after: seq<u8>, prec: nat)
    ensures prec > |after| ==> Fraction(after, Some(prec)) == [POINT] + after + Zeros(prec - |after|)
    ensures prec <= |after| ==> Fraction(after, Some(prec)) == [POINT] + after[..prec]
  {
    if prec > |after| {
      assert ([POINT] + after) + Zeros(prec - |after|) == [POINT] + (after + Zeros(prec - |after|));
    }
  }

  /** The two cases of `Fraction` without a precision, one equation each. */
  lemma StrippedCases(after: seq<u8>)
    ensures TrailingZeros(after) < |after| ==>
      Fraction(after, None) == [POINT] + after[..|after| - TrailingZeros(after)]
    ensures TrailingZeros(after) == |after| ==> Fraction(after, None) == []
  {
  }

  /** The fraction with a precision: a point, then the digits padded with zeros or cut to `prec`. */
  method WritePadded(after: seq<u8>, prec: nat, buf: Buf)
    requires buf.Valid() && buf.len + |Fraction(after, Some(prec))| <= CAPACITY
    modifies buf, buf.buf
    ensures buf.Valid() && buf.buf == old(buf.buf)
    ensures buf.AsSlice() == old(buf.AsSlice()) + Fraction(after, Some(prec))
  {
    PaddedCases(after, prec);
    ghost var start := buf.AsSlice();
    if prec > |after| {
      buf.WriteU8(POINT);
      buf.WriteSlice(after);
      buf.WriteBytes(ZERO_CHAR, prec - |after|);
      AppendAssoc(start + [POINT], after, Zeros(prec - |after|));
      AppendAssoc(start, [POINT], after);
      AppendAssoc(start, [POINT] + after, Zeros(prec - |after|));
      return;
    }
    buf.WriteU8(POINT);
    buf.WriteSlice(after[0..prec]);
    AppendAssoc(start, [POINT], after[..prec]);
  }

  /** The fraction without a precision: a point and the digits less their trailing zeros, if any remain. */
  method WriteStripped(after: seq<u8>, buf: Buf)
    requires buf.Valid() && buf.len + |Fraction(after, None)| <= CAPACITY
    modifies buf, buf.buf
    ensures buf.Valid() && buf.buf == old(buf.buf)
    ensures buf.AsSlice() == old(buf.AsSlice()) + Fraction(after, None)
  {
    StrippedCases(after);
    var zeroNum := CountTrailingZeros(after);
    if zeroNum < |after| {
      buf.WriteU8(POINT);
      buf.WriteSlice(after[0..|after| - zeroNum]);
    }
  }

  /** The fraction part of `fmt_internal`, with or without a precision. */
  method WriteFraction(after: seq<u8>, precision: Option<nat>, buf: Buf)
    requires buf.Valid() && buf.len + |Fraction(after, precision)| <= CAPACITY
    modifies buf, buf.buf
    ensures buf.Valid() && buf.buf == old(buf.buf)
    ensures buf.AsSlice() == old(buf.AsSlice()) + Fraction(after, precision)
  {
    match precision {
      case Some(prec) => WritePadded(after, prec, buf);
      case None => WriteStripped(after, buf);
    }
  }

  /** The body when the scale is at most 0. */
  method WriteWhole(digits: seq<u8>, scale: int, precision: Option<nat>, buf: Buf)
    requires scale <= 0
    requires buf.Valid() && buf.len + |WholeText(digits, scale, precision)| <= CAPACITY
    modifies buf, buf.buf
    ensures buf.Valid() && buf.buf == old(buf.buf)
    ensures buf.AsSlice() == old(buf.AsSlice()) + WholeText(digits, scale, precision)
  {
    buf.WriteSlice(digits);
    buf.WriteBytes(ZERO_CHAR, -scale);
    if precision.Some? {
      buf.WriteU8(POINT);
      buf.WriteBytes(ZERO_CHAR, precision.value);
    }
  }

  /** The body when the scale is at least the digit count: "0", then the fraction of the padded digits. */
  method WriteShort(digits: seq<u8>, scale: int, precision: Option<nat>, buf: Buf)
    requires |digits| <= scale
    requires buf.Valid() && buf.len + |ShortText(digits, scale, precision)| <= CAPACITY
    modifies buf, buf.buf
    ensures buf.Valid() && buf.buf == old(buf.buf)
    ensures buf.AsSlice() == old(buf.AsSlice()) + ShortText(digits, scale, precision)
  {
    ghost var start := buf.AsSlice();
    var after := Zeros(scale - |digits|) + digits;
    buf.WriteU8(ZERO_CHAR);
    WriteFraction(after, precision, buf);
    AppendAssoc(start, [ZERO_CHAR], Fraction(after, precision));
  }


  /** The body when the point falls inside the digits. */
  method WriteSplit(digits: seq<u8>, scale: int, precision: Option<nat>, buf: Buf)
    requires 0 < scale < |digits|
    requires buf.Valid() && buf.len + |SplitText(digits, scale, precision)| <= CAPACITY
    modifies buf, buf.buf
    ensures buf.Valid() && buf.buf == old(buf.buf)
    ensures buf.AsSlice() == old(buf.AsSlice()) + SplitText(digits, scale, precision)
  {
    var len := |digits|;
    var before, after := digits[..len - scale], digits[len - scale..];
    ghost var fraction := Fraction(after, precision);
    assert SplitText(digits, scale, precision) == before + fraction;
    buf.WriteSlice(before);
    WriteFraction(after, precision, buf);
  }

  /** The unsigned part of `fmt_internal` for a non-zero rounded value, written into the buffer. */
  method WriteBody(digits: seq<u8>, scale: int, precision: Option<nat>, buf: Buf)
    requires buf.Valid() && buf.len + |Body(digits, scale, precision)| <= CAPACITY
    modifies buf, buf.buf
    ensures buf.Valid() && buf.buf == old(buf.buf)
    ensures buf.AsSlice() == old(buf.AsSlice()) + Body(digits, scale, precision)
  {
    if scale <= 0 {
      WriteWhole(digits, scale, precision, buf);
    } else if |digits| <= scale {
      WriteShort(digits, scale, precision, buf);
    } else {
      WriteSplit(digits, scale, precision, buf);
    }
  }

  /** A minus sign when `negative`, written into the buffer. */
  method WriteSign(negative: bool, buf: Buf)
    requires buf.Valid() && buf.len + |SignPrefix(negative)| <= CAPACITY
    modifies buf, buf.buf
    ensures buf.Valid() && buf.buf == old(buf.buf)
    ensures buf.AsSlice() == old(buf.AsSlice()) + SignPrefix(negative)
  {
    if negative {
      buf.WriteU8(MINUS);
    } else {
      assert buf.AsSlice() + [] == buf.AsSlice();
    }
  }

  /** The sign, when there is one, then the body of a non-zero value, written into the buffer. */
  method WriteSigned(negative: bool, digits: seq<u8>, scale: int, precision: Option<nat>, buf: Buf)
    requires buf.Valid() && buf.len + |SignPrefix(negative) + Body(digits, scale, precision)| <= CAPACITY
    modifies buf, buf.buf
    ensures buf.Valid() && buf.buf == old(buf.buf)
    ensures buf.AsSlice() == old(buf.AsSlice()) + (SignPrefix(negative) + Body(digits, scale, precision))
  {
    ghost var start := buf.AsSlice();
    ghost var sign := SignPrefix(negative);
    ghost var body := Body(digits, scale, precision);
    WriteSign(negative, buf);
    WriteBody(digits, scale, precision, buf);
    AppendAssoc(start, sign, body);
  }

  /**
   * `fmt_internal` writing into the buffer. The buffer must have room for
   * the text; the source panics otherwise.
   */
  method FmtInternal(d: Decimal, appendSign: bool, precision: Option<nat>, buf: Buf)
    requires Valid(d) && buf.Valid()
    requires buf.len + |FmtText(d, appendSign, precision)| <= CAPACITY
    modifies buf, buf.buf
    ensures buf.Valid() && buf.buf == old(buf.buf)
    ensures buf.AsSlice() == old(buf.AsSlice()) + FmtText(d, appendSign, precision)
  {
    if d.intVal == 0 {
      buf.WriteU8(ZERO_CHAR);
      return;
    }
    var dec := Rounded(d, precision);
    WriteSigned(appendSign && d.negative, Digits(dec.intVal), dec.scale, precision, buf);
  }

  /** Display: the unsigned text, after a minus sign when the value is negative. */
  function DisplayText(d: Decimal, precision: Option<nat>): seq<u8>
    requires Valid(d)
  {
    SignPrefix(d.negative) + FmtText(d, false, precision)
  }

  /**
   * `Display::fmt`: formats into a fresh buffer without the sign, then
   * pads with the sign of the value. Width and fill are not modelled.
   */
  method Display(d: Decimal, precision: Option<nat>) returns (text: seq<u8>)
    requires Valid(d)
    requires |FmtText(d, false, precision)| <= CAPACITY
    ensures text == DisplayText(d, precision)
  {
    var buf := new Buf();
    FmtInternal(d, false, precision, buf);
    text := SignPrefix(d.negative) + buf.AsSlice();
  }

  // ---------------------------------------------------------------------
  // Reading the text back
  // ---------------------------------------------------------------------

  /** A plain numeral: a minus sign or not, the integer digits, and the digits after the point. */
  datatype Numeral = Numeral(negative: bool, whole: seq<u8>, fraction: seq<u8>)

  /** The index of the first point, or the length when there is none. */
  function PointIndex(s: seq<u8>): (i: nat)
    ensures i <= |s|
    ensures i < |s| ==> s[i] == POINT
    ensures forall j :: 0 <= j < i ==> s[j] != POINT
  {
    if s == [] || s[0] == POINT then 0 else 1 + PointIndex(s[1..])
  }

  /** Splits text into its sign, the digits before the point and the digits after it. */
  function Scan(text: seq<u8>): Numeral
  {
    var negative := |text| > 0 && text[0] == MINUS;
    var rest := if negative then text[1..] else text;
    var i := PointIndex(rest);
    Numeral(negative, rest[..i], if i < |rest| then rest[i + 1..] else [])
  }

  /**
   * The text denotes the sign `negative` and the number intVal * 10^(-scale):
   * its digits, read at the scale its fraction gives them, equal `intVal`
   * once both are written at the finer of the two scales.
   */
  predicate Denotes(text: seq<u8>, negative: bool, intVal: nat, scale: int)
  {
    var n := Scan(text);
    var f := |n.fraction|;
    var s := Max(f, scale);
    n.negative == negative && DigitsValue(n.whole + n.fraction) * Pow10(s - f) == intVal * Pow10(s - scale)
  }

  lemma {:induction false} PointIndexAfterDigits(a: seq<u8>, b: seq<u8>)
    requires AllDigits(a)
    ensures PointIndex(a + b) == |a| + PointIndex(b)
    decreases |a|
  {
    if a != [] {
      assert (a + b)[1..] == a[1..] + b;
      PointIndexAfterDigits(a[1..], b);
    } else {
      assert a + b == b;
    }
  }

  /** A minus sign in front of unsigned text only sets the sign of what it scans to. */
  lemma ScanSigned(negative: bool, rest: seq<u8>)
    requires rest != [] && rest[0] != MINUS
    ensures Scan(SignPrefix(negative) + rest) == Scan(rest).(negative := negative)
  {
    if negative {
      assert (SignPrefix(negative) + rest)[1..] == rest;
    } else {
      assert SignPrefix(negative) + rest == rest;
    }
  }

  /** Digits, a point and more digits scan back into those parts. */
  lemma ScanUnsignedPoint(whole: seq<u8>, fraction: seq<u8>)
    requires AllDigits(whole) && whole != []
    ensures Scan(whole + ([POINT] + fraction)) == Numeral(false, whole, fraction)
  {
    var rest := whole + ([POINT] + fraction);
    PointIndexAfterDigits(whole, [POINT] + fraction);
    assert rest[..|whole|] == whole;
    assert rest[|whole| + 1..] == fraction;
  }

  /** A sign, digits, a point and more digits scan back into those parts. */
  lemma ScanPoint(negative: bool, whole: seq<u8>, fraction: seq<u8>)
    requires AllDigits(whole) && whole != []
    ensures Scan(SignPrefix(negative) + (whole + ([POINT] + fraction))) == Numeral(negative, whole, fraction)
  {
    ScanUnsignedPoint(whole, fraction);
    ScanSigned(negative, whole + ([POINT] + fraction));
  }

  /** A sign and digits scan back into those parts, with no fraction. */
  lemma ScanNoPoint(negative: bool, whole: seq<u8>)
    requires AllDigits(whole) && whole != []
    ensures Scan(SignPrefix(negative) + whole) == Numeral(negative, whole, [])
  {
    PointIndexAfterDigits(whole, []);
    assert whole + [] == whole;
    assert Scan(whole) == Numeral(false, whole, []);
    ScanSigned(negative, whole);
  }

  /** A numeral with at least `scale` fractional digits denotes intVal * 10^(-scale) when its digits are intVal padded to its scale. */
  lemma DenotesFiner(text: seq<u8>, negative: bool, whole: seq<u8>, fraction: seq<u8>, intVal: nat, scale: int)
    requires Scan(text) == Numeral(negative, whole, fraction)
    requires scale <= |fraction|
    requires DigitsValue(whole + fraction) == intVal * Pow10(|fraction| - scale)
    ensures Denotes(text, negative, intVal, scale)
  {
    assert Max(|fraction|, scale) == |fraction|;
  }

  /** A numeral with at most `scale` fractional digits denotes intVal * 10^(-scale) when intVal is its digits padded to `scale`. */
  lemma DenotesCoarser(text: seq<u8>, negative: bool, whole: seq<u8>, fraction: seq<u8>, intVal: nat, scale: int)
    requires Scan(text) == Numeral(negative, whole, fraction)
    requires |fraction| <= scale
    requires DigitsValue(whole + fraction) * Pow10(scale - |fraction|) == intVal
    ensures Denotes(text, negative, intVal, scale)
  {
    assert Max(|fraction|, scale) == scale;
  }

  /** Signed digits, a point and at least `scale` more digits denote intVal at `scale`. */
  lemma PointFiner(negative: bool, whole: seq<u8>, fraction: seq<u8>, intVal: nat, scale: int)
    requires AllDigits(whole) && whole != []
    requires scale <= |fraction|
    requires DigitsValue(whole + fraction) == intVal * Pow10(|fraction| - scale)
    ensures Denotes(SignPrefix(negative) + (whole + ([POINT] + fraction)), negative, intVal, scale)
  {
    ScanPoint(negative, whole, fraction);
    DenotesFiner(SignPrefix(negative) + (whole + ([POINT] + fraction)), negative, whole, fraction, intVal, scale);
  }

  /** Signed digits, a point and at most `scale` more digits denote intVal at `scale`. */
  lemma PointCoarser(negative: bool, whole: seq<u8>, fraction: seq<u8>, intVal: nat, scale: int)
    requires AllDigits(whole) && whole != []
    requires |fraction| <= scale
    requires DigitsValue(whole + fraction) * Pow10(scale - |fraction|) == intVal
    ensures Denotes(SignPrefix(negative) + (whole + ([POINT] + fraction)), negative, intVal, scale)
  {
    ScanPoint(negative, whole, fraction);
    DenotesCoarser(SignPrefix(negative) + (whole + ([POINT] + fraction)), negative, whole, fraction, intVal, scale);
  }

  /** Signed digits without a point denote intVal at a scale at most 0. */
  lemma NoPointFiner(negative: bool, whole: seq<u8>, intVal: nat, scale: int)
    requires AllDigits(whole) && whole != []
    requires scale <= 0
    requires DigitsValue(whole) == intVal * Pow10(-scale)
    ensures Denotes(SignPrefix(negative) + whole, negative, intVal, scale)
  {
    ScanNoPoint(negative, whole);
    assert whole + [] == whole;
    DenotesFiner(SignPrefix(negative) + whole, negative, whole, [], intVal, scale);
  }

  /** Signed digits without a point denote intVal at a scale of at least 0. */
  lemma NoPointCoarser(negative: bool, whole: seq<u8>, intVal: nat, scale: int)
    requires AllDigits(whole) && whole != []
    requires 0 <= scale
    requires DigitsValue(whole) * Pow10(scale) == intVal
    ensures Denotes(SignPrefix(negative) + whole, negative, intVal, scale)
  {
    ScanNoPoint(negative, whole);
    assert whole + [] == whole;
    DenotesCoarser(SignPrefix(negative) + whole, negative, whole, [], intVal, scale);
  }

  lemma ScaleTwice(n: nat, a: nat, b: nat)
    ensures n * Pow10(a) * Pow10(b) == n * Pow10(a + b)
  {
    Pow10Add(a, b);
    MulAssoc(n, Pow10(a), Pow10(b));
  }

  lemma ScaledTwice(v: int, w: int, n: nat, a: nat, b: nat)
    requires v == n * Pow10(a) && w == v * Pow10(b)
    ensures w == n * Pow10(a + b)
  {
    ScaleTwice(n, a, b);
  }

  /** Digits worth `n`, then `k` zeros, then `f` zeros, are worth n * 10^(k + f). */
  lemma WholeValue(digits: seq<u8>, n: nat, k: nat, f: nat)
    requires DigitsValue(digits) == n
    ensures DigitsValue(digits + Zeros(k) + Zeros(f)) == n * Pow10(k + f)
  {
    AppendZeros(digits, k);
    AppendZeros(digits + Zeros(k), f);
    ScaledTwice(DigitsValue(digits + Zeros(k)), DigitsValue(digits + Zeros(k) + Zeros(f)), n, k, f);
  }

  /** Digits worth `n`, -scale zeros, a point and `p` zeros denote `n` at `scale`. */
  lemma WholePointDenotes(negative: bool, digits: seq<u8>, n: nat, scale: int, p: nat)
    requires AllDigits(digits) && digits != [] && DigitsValue(digits) == n
    requires scale <= 0
    ensures Denotes(SignPrefix(negative) + ((digits + Zeros(-scale)) + ([POINT] + Zeros(p))), negative, n, scale)
  {
    WholeValue(digits, n, -scale, p);
    assert DigitsValue(digits + Zeros(-scale) + Zeros(p)) == n * Pow10(|Zeros(p)| - scale);
    PointFiner(negative, digits + Zeros(-scale), Zeros(p), n, scale);
  }

  /** Digits worth `n` and -scale zeros denote `n` at `scale`. */
  lemma WholeNoPointDenotes(negative: bool, digits: seq<u8>, n: nat, scale: int)
    requires AllDigits(digits) && digits != [] && DigitsValue(digits) == n
    requires scale <= 0
    ensures Denotes(SignPrefix(negative) + (digits + Zeros(-scale)), negative, n, scale)
  {
    WholeValue(digits, n, -scale, 0);
    assert digits + Zeros(-scale) + Zeros(0) == digits + Zeros(-scale);
    NoPointFiner(negative, digits + Zeros(-scale), n, scale);
  }

  /** Digits worth `n`, then -scale zeros, and a point and zeros with a precision, denote `n` at `scale`. */
  lemma WholeTextDenotes(negative: bool, digits: seq<u8>, n: nat, scale: int, precision: Option<nat>)
    requires AllDigits(digits) && digits != [] && DigitsValue(digits) == n
    requires scale <= 0
    ensures Denotes(SignPrefix(negative) + WholeText(digits, scale, precision), negative, n, scale)
  {
    match precision {
      case Some(p) => WholePointDenotes(negative, digits, n, scale, p);
      case None => WholeNoPointDenotes(negative, digits, n, scale);
    }
  }

  /** "0", zeros, then digits, are worth what the digits are worth. */
  lemma LeadingZerosValue(digits: seq<u8>, k: nat)
    ensures DigitsValue([ZERO_CHAR] + (Zeros(k) + digits)) == DigitsValue(digits)
  {
    PrependZeros(k, digits);
    assert [ZERO_CHAR] + (Zeros(k) + digits) == Zeros(1) + (Zeros(k) + digits);
    PrependZeros(1, Zeros(k) + digits);
  }

  /** The source's "0." text of a number below one unit of its own scale denotes it. */
  lemma LeadingZerosDenotes(negative: bool, digits: seq<u8>, n: nat, scale: int)
    requires AllDigits(digits) && DigitsValue(digits) == n
    requires 0 < scale && |digits| <= scale
    ensures Denotes(SignPrefix(negative) + LeadingZerosText(digits, scale), negative, n, scale)
  {
    var fraction := Zeros(scale - |digits|) + digits;
    LeadingZerosValue(digits, scale - |digits|);
    assert n * Pow10(|fraction| - scale) == n by {
      assert |fraction| - scale == 0;
    }
    PointFiner(negative, [ZERO_CHAR], fraction, n, scale);
  }

  /** "0" and the fraction of the padded digits denote the number at its scale. */
  lemma ShortDenotes(negative: bool, digits: seq<u8>, n: nat, scale: int, precision: Option<nat>)
    requires AllDigits(digits) && DigitsValue(digits) == n
    requires |digits| <= scale
    requires precision.Some? ==> scale <= precision.value
    ensures Denotes(SignPrefix(negative) + ShortText(digits, scale, precision), negative, n, scale)
  {
    LeadingZerosValue(digits, scale - |digits|);
    FractionDenotes(negative, [ZERO_CHAR], Zeros(scale - |digits|) + digits, precision, n, scale);
  }


  /** The value of digits, then the digits after a point padded with zeros. */
  lemma PaddedValue(before: seq<u8>, after: seq<u8>, p: nat)
    requires |after| < p
    ensures DigitsValue(before + (after + Zeros(p - |after|))) == DigitsValue(before + after) * Pow10(p - |after|)
  {
    assert before + (after + Zeros(p - |after|)) == (before + after) + Zeros(p - |after|);
    AppendZeros(before + after, p - |after|);
  }

  /** The value of digits, then the digits after a point less their trailing zeros. */
  lemma StrippedValue(before: seq<u8>, after: seq<u8>)
    ensures var k := |after| - TrailingZeros(after);
      DigitsValue(before + after[..k]) * Pow10(TrailingZeros(after)) == DigitsValue(before + after)
  {
    var z := TrailingZeros(after);
    var k := |after| - z;
    assert after == after[..k] + Zeros(z);
    assert before + after == (before + after[..k]) + Zeros(z);
    AppendZeros(before + after[..k], z);
  }

  /** Digits, a point, and the digits after it padded with zeros to `p`, denote the digits at the scale of `after`. */
  lemma PaddedDenotes(negative: bool, before: seq<u8>, after: seq<u8>, p: nat)
    requires AllDigits(before) && before != []
    requires DigitsValue(before + after) >= 0
    requires |after| < p
    ensures Denotes(SignPrefix(negative) + (before + ([POINT] + (after + Zeros(p - |after|)))), negative,
                    DigitsValue(before + after), |after|)
  {
    PaddedValue(before, after, p);
    PointFiner(negative, before, after + Zeros(p - |after|), DigitsValue(before + after), |after|);
  }

  /** Digits, a point, and the digits after it denote the digits at the scale of `after`. */
  lemma ExactDenotes(negative: bool, before: seq<u8>, after: seq<u8>)
    requires AllDigits(before) && before != []
    requires DigitsValue(before + after) >= 0
    ensures Denotes(SignPrefix(negative) + (before + ([POINT] + after)), negative,
                    DigitsValue(before + after), |after|)
  {
    PointFiner(negative, before, after, DigitsValue(before + after), |after|);
  }

  /** Digits, a point, and the digits after it less their trailing zeros denote the digits at the scale of `after`. */
  lemma StrippedDenotes(negative: bool, before: seq<u8>, after: seq<u8>)
    requires AllDigits(before) && before != []
    requires DigitsValue(before + after) >= 0
    requires TrailingZeros(after) < |after|
    ensures Denotes(SignPrefix(negative) + (before + ([POINT] + after[..|after| - TrailingZeros(after)]))
                    , negative, DigitsValue(before + after), |after|)
  {
    StrippedValue(before, after);
    PointCoarser(negative, before, after[..|after| - TrailingZeros(after)], DigitsValue(before + after), |after|);
  }

  /** Digits followed by nothing but zeros after the point denote the digits at the scale of `after`, without the zeros. */
  lemma AllZerosDenotes(negative: bool, before: seq<u8>, after: seq<u8>)
    requires AllDigits(before) && before != []
    requires DigitsValue(before + after) >= 0
    requires TrailingZeros(after) == |after|
    ensures Denotes(SignPrefix(negative) + before, negative, DigitsValue(before + after), |after|)
  {
    StrippedValue(before, after);
    assert before + after[..0] == before;
    NoPointCoarser(negative, before, DigitsValue(before + after), |after|);
  }

  /**
   * Digits, then the fraction `fmt_internal` writes for the digits after
   * the point, denote the digits read at the scale of `after`, provided a
   * precision, when given, does not cut `after`.
   */
  lemma FractionDenotes(negative: bool, before: seq<u8>, after: seq<u8>, precision: Option<nat>, intVal: nat, scale: int)
    requires AllDigits(before) && before != []
    requires DigitsValue(before + after) == intVal && |after| == scale
    requires precision.Some? ==> scale <= precision.value
    ensures Denotes(SignPrefix(negative) + (before + Fraction(after, precision)), negative, intVal, scale)
  {
    match precision {
      case Some(p) =>
        if p > |after| {
          assert Fraction(after, precision) == [POINT] + (after + Zeros(p - |after|));
          PaddedDenotes(negative, before, after, p);
        } else {
          assert after[..p] == after;
          assert Fraction(after, precision) == [POINT] + after;
          ExactDenotes(negative, before, after);
        }
      case None =>
        if TrailingZeros(after) < |after| {
          assert Fraction(after, precision) == [POINT] + after[..|after| - TrailingZeros(after)];
          StrippedDenotes(negative, before, after);
        } else {
          assert Fraction(after, precision) == [];
          assert before + [] == before;
          AllZerosDenotes(negative, before, after);
        }
    }
  }

  lemma {:induction false} DigitsValueNonNegative(s: seq<u8>)
    requires AllDigits(s)
    ensures DigitsValue(s) >= 0
    decreases |s|
  {
    if s != [] {
      DigitsValueNonNegative(s[..|s| - 1]);
    }
  }

  /** The two parts of the digits `SplitText` writes, which put together give the digits back. */
  lemma SplitTextParts(digits: seq<u8>, scale: int, precision: Option<nat>)
    requires 0 < scale < |digits|
    ensures var cut := |digits| - scale;
      SplitText(digits, scale, precision) == digits[..cut] + Fraction(digits[cut..], precision) &&
      digits[..cut] + digits[cut..] == digits
  {
    var cut := |digits| - scale;
    assert digits[..cut] + digits[cut..] == digits;
  }

  /** Digits cut `scale` places from the end, point inserted, denote their value at that scale. */
  lemma CutDenotes(negative: bool, digits: seq<u8>, n: nat, scale: int, precision: Option<nat>)
    requires AllDigits(digits) && DigitsValue(digits) == n
    requires 0 < scale < |digits|
    requires precision.Some? ==> scale <= precision.value
    ensures Denotes(SignPrefix(negative) + SplitText(digits, scale, precision), negative, n, scale)
  {
    var cut := |digits| - scale;
    SplitTextParts(digits, scale, precision);
    FractionDenotes(negative, digits[..cut], digits[cut..], precision, n, scale);
  }

  /** The signed body of digits worth `n` denotes `n` at `scale`, when a precision does not cut the scale. */
  lemma BodyDenotes(negative: bool, digits: seq<u8>, n: nat, scale: int, precision: Option<nat>)
    requires AllDigits(digits) && digits != [] && DigitsValue(digits) == n
    requires precision.Some? ==> scale <= precision.value
    ensures Denotes(SignPrefix(negative) + Body(digits, scale, precision), negative, n, scale)
  {
    if scale <= 0 {
      WholeTextDenotes(negative, digits, n, scale, precision);
    } else if |digits| <= scale {
      ShortDenotes(negative, digits, n, scale, precision);
    } else {
      CutDenotes(negative, digits, n, scale, precision);
    }
  }

  /** The source's signed body denotes the same number as `Body`'s. */
  lemma BodyAsWrittenDenotes(negative: bool, digits: seq<u8>, n: nat, scale: int, precision: Option<nat>)
    requires AllDigits(digits) && digits != [] && DigitsValue(digits) == n
    requires precision.Some? ==> scale <= precision.value
    ensures Denotes(SignPrefix(negative) + BodyAsWritten(digits, scale, precision), negative, n, scale)
  {
    if scale <= 0 {
      WholeTextDenotes(negative, digits, n, scale, precision);
    } else if |digits| <= scale {
      LeadingZerosDenotes(negative, digits, n, scale);
    } else {
      CutDenotes(negative, digits, n, scale, precision);
    }
  }

  /** The text "0" denotes zero at every scale. */
  lemma ZeroDenotes(scale: int)
    ensures Denotes([ZERO_CHAR], false, 0, scale)
  {
    ScanNoPoint(false, [ZERO_CHAR]);
    assert SignPrefix(false) + [ZERO_CHAR] == [ZERO_CHAR];
  }

  /**
   * What `fmt_internal` writes denotes the value it prints: the sign
   * (when asked for) of the input and the rounded magnitude at the rounded
   * scale. Without a precision that is the input itself.
   */
  lemma FmtTextDenotes(d: Decimal, appendSign: bool, precision: Option<nat>)
    requires Valid(d)
    ensures var dec := Rounded(d, precision);
      Denotes(FmtText(d, appendSign, precision), appendSign && d.negative, dec.intVal, dec.scale)
  {
    var dec := Rounded(d, precision);
    if d.intVal == 0 {
      ZeroDenotes(dec.scale);
    } else {
      DigitsValueDigits(dec.intVal);
      BodyDenotes(appendSign && d.negative, Digits(dec.intVal), dec.intVal, dec.scale, precision);
    }
  }

  /** The source's text denotes the same number: the short-fraction defect is one of presentation only. */
  lemma FmtTextAsWrittenDenotes(d: Decimal, appendSign: bool, precision: Option<nat>)
    requires Valid(d)
    ensures var dec := Rounded(d, precision);
      Denotes(FmtTextAsWritten(d, appendSign, precision), appendSign && d.negative, dec.intVal, dec.scale)
  {
    var dec := Rounded(d, precision);
    if d.intVal == 0 {
      ZeroDenotes(dec.scale);
    } else {
      DigitsValueDigits(dec.intVal);
      BodyAsWrittenDenotes(appendSign && d.negative, Digits(dec.intVal), dec.intVal, dec.scale, precision);
    }
  }

  // ---------------------------------------------------------------------
  // The digits after the point
  // ---------------------------------------------------------------------

  /**
   * The digits the fraction shows after its point: with a precision, the
   * digits padded with zeros or cut to it; without one, the digits less
   * their trailing zeros.
   */
  function Shown(after: seq<u8>, precision: Option<nat>): (r: seq<u8>)
    ensures precision.Some? && |after| <= precision.value ==> |r| == precision.value
    ensures precision.None? ==> r == [] || r[|r| - 1] != ZERO_CHAR
    ensures precision.None? ==> |r| <= |after| && r == after[..|r|] && forall i :: |r| <= i < |after| ==> after[i] == ZERO_CHAR
  {
    match precision
    case Some(p) => if p > |after| then after + Zeros(p - |after|) else after[..p]
    case None => after[..|after| - TrailingZeros(after)]
  }

  /** The fraction is a point and the shown digits, except that nothing at all is written when no precision is given and nothing is shown. */
  lemma FractionShown(after: seq<u8>, precision: Option<nat>)
    ensures precision.Some? || Shown(after, precision) != [] ==>
      Fraction(after, precision) == [POINT] + Shown(after, precision)
    ensures precision.None? && Shown(after, precision) == [] ==> Fraction(after, precision) == []
  {
  }

  /** The shown digits have the conventional shape when a precision does not cut them. */
  lemma ShownShape(after: seq<u8>, precision: Option<nat>)
    requires precision.Some? ==> |after| <= precision.value
    ensures var f := Shown(after, precision);
      match precision
      case Some(p) => |f| == p
      case None => f == [] || f[|f| - 1] != ZERO_CHAR
  {
  }

  /** Digits and then a fraction scan back into the digits and the shown digits. */
  lemma ScanShown(negative: bool, before: seq<u8>, after: seq<u8>, precision: Option<nat>)
    requires AllDigits(before) && before != []
    ensures Scan(SignPrefix(negative) + (before + Fraction(after, precision)))
      == Numeral(negative, before, Shown(after, precision))
  {
    FractionShown(after, precision);
    if precision.Some? || Shown(after, precision) != [] {
      ScanPoint(negative, before, Shown(after, precision));
    } else {
      assert before + Fraction(after, precision) == before;
      ScanNoPoint(negative, before);
    }
  }

  /**
   * What a conventional formatter promises about the digits after the
   * point: with a precision, exactly that many; without one, no trailing
   * zero.
   */
  predicate WellShaped(text: seq<u8>, precision: Option<nat>)
  {
    var f := Scan(text).fraction;
    match precision
    case Some(p) => |f| == p
    case None => f == [] || f[|f| - 1] != ZERO_CHAR
  }

  /** A whole number's text shows `p` zeros after the point with precision `p`, and no point without one. */
  lemma WholeWellShaped(negative: bool, digits: seq<u8>, scale: int, precision: Option<nat>)
    requires AllDigits(digits) && digits != [] && scale <= 0
    ensures WellShaped(SignPrefix(negative) + WholeText(digits, scale, precision), precision)
  {
    match precision {
      case Some(p) => ScanPoint(negative, digits + Zeros(-scale), Zeros(p));
      case None => ScanNoPoint(negative, digits + Zeros(-scale));
    }
  }

  /** The "0" text of a short number shows what its fraction shows. */
  lemma ShortWellShaped(negative: bool, digits: seq<u8>, scale: int, precision: Option<nat>)
    requires |digits| <= scale
    requires precision.Some? ==> scale <= precision.value
    ensures WellShaped(SignPrefix(negative) + ShortText(digits, scale, precision), precision)
  {
    var after := Zeros(scale - |digits|) + digits;
    assert ShortText(digits, scale, precision) == [ZERO_CHAR] + Fraction(after, precision);
    assert |after| == scale;
    ScanShown(negative, [ZERO_CHAR], after, precision);
    ShownShape(after, precision);
  }

  /** The text of a number whose point falls inside its digits shows what its fraction shows. */
  lemma SplitWellShaped(negative: bool, digits: seq<u8>, scale: int, precision: Option<nat>)
    requires AllDigits(digits) && 0 < scale < |digits|
    requires precision.Some? ==> scale <= precision.value
    ensures WellShaped(SignPrefix(negative) + SplitText(digits, scale, precision), precision)
  {
    var cut := |digits| - scale;
    SplitTextParts(digits, scale, precision);
    ScanShown(negative, digits[..cut], digits[cut..], precision);
    ShownShape(digits[cut..], precision);
  }

  /** The signed body of digits has the conventional shape when a precision does not cut the scale. */
  lemma BodyWellShaped(negative: bool, digits: seq<u8>, scale: int, precision: Option<nat>)
    requires AllDigits(digits) && digits != []
    requires precision.Some? ==> scale <= precision.value
    ensures WellShaped(SignPrefix(negative) + Body(digits, scale, precision), precision)
  {
    if scale <= 0 {
      WholeWellShaped(negative, digits, scale, precision);
    } else if |digits| <= scale {
      ShortWellShaped(negative, digits, scale, precision);
    } else {
      SplitWellShaped(negative, digits, scale, precision);
    }
  }

  /**
   * What `fmt_internal` writes for a non-zero value has exactly `p` digits
   * after the point with precision `p`, and no trailing zero after the
   * point without a precision.
   */
  lemma FmtTextWellShaped(d: Decimal, appendSign: bool, precision: Option<nat>)
    requires Valid(d) && d.intVal != 0
    ensures WellShaped(FmtText(d, appendSign, precision), precision)
  {
    var dec := Rounded(d, precision);
    BodyWellShaped(appendSign && d.negative, Digits(dec.intVal), dec.scale, precision);
  }

  /**
   * The source's text for 0.01 with four places is "0.01", not "0.0100",
   * and for 0.010 without a precision "0.010", not "0.01": the branch for a
   * scale at least the digit count neither pads nor strips.
   */
  lemma FmtShortFractionCounterexample()
    ensures FmtTextAsWritten(Decimal(1, 2, false), false, Some(4)) == Ascii("0.01")
    ensures !WellShaped(FmtTextAsWritten(Decimal(1, 2, false), false, Some(4)), Some(4))
    ensures FmtText(Decimal(1, 2, false), false, Some(4)) == Ascii("0.0100")
    ensures FmtTextAsWritten(Decimal(10, 3, false), false, None) == Ascii("0.010")
    ensures !WellShaped(FmtTextAsWritten(Decimal(10, 3, false), false, None), None)
    ensures FmtText(Decimal(10, 3, false), false, None) == Ascii("0.01")
  {
    PaddedShortExample();
    StrippedShortExample();
  }

  /** With a precision at least the scale, and at most the largest scale, formatting does not round. */
  lemma NoRounding(d: Decimal, precision: Option<nat>)
    requires Valid(d)
    requires precision.Some? ==> d.scale <= precision.value <= MAX_SCALE
    ensures Rounded(d, precision) == d
  {
  }

  lemma PaddedShortExample()
    ensures FmtTextAsWritten(Decimal(1, 2, false), false, Some(4)) == Ascii("0.01")
    ensures !WellShaped(FmtTextAsWritten(Decimal(1, 2, false), false, Some(4)), Some(4))
    ensures FmtText(Decimal(1, 2, false), false, Some(4)) == Ascii("0.0100")
  {
    assert Ascii("0.01") == [48, 46, 48, 49];
    assert Ascii("0.0100") == [48, 46, 48, 49, 48, 48];
    var d := Decimal(1, 2, false);
    NoRounding(d, Some(4));
    assert Digits(1) == [49];
    assert Zeros(1) + [49] == [48, 49];
    assert Zeros(2) == [48, 48];
    assert Fraction([48, 49], Some(4)) == [46, 48, 49, 48, 48];
    assert LeadingZerosText([49], 2) == [48, 46, 48, 49];
    assert ShortText([49], 2, Some(4)) == [48, 46, 48, 49, 48, 48];
    assert FmtTextAsWritten(d, false, Some(4)) == [] + [48, 46, 48, 49];
    assert FmtText(d, false, Some(4)) == [] + [48, 46, 48, 49, 48, 48];
    ScanPoint(false, [48], [48, 49]);
  }

  lemma StrippedShortExample()
    ensures FmtTextAsWritten(Decimal(10, 3, false), false, None) == Ascii("0.010")
    ensures !WellShaped(FmtTextAsWritten(Decimal(10, 3, false), false, None), None)
    ensures FmtText(Decimal(10, 3, false), false, None) == Ascii("0.01")
  {
    assert Ascii("0.010") == [48, 46, 48, 49, 48];
    assert Ascii("0.01") == [48, 46, 48, 49];
    var d := Decimal(10, 3, false);
    assert Digits(10) == [49, 48];
    assert Zeros(1) + [49, 48] == [48, 49, 48];
    assert TrailingZeros([48, 49, 48]) == 1;
    assert Fraction([48, 49, 48], None) == [46, 48, 49];
    assert LeadingZerosText([49, 48], 3) == [48, 46, 48, 49, 48];
    assert ShortText([49, 48], 3, None) == [48, 46, 48, 49];
    assert FmtTextAsWritten(d, false, None) == [] + [48, 46, 48, 49, 48];
    assert FmtText(d, false, None) == [] + [48, 46, 48, 49];
    ScanPoint(false, [48], [48, 49, 48]);
  }

  // ---------------------------------------------------------------------
  // Examples from the formatter's own tests
  // ---------------------------------------------------------------------

  /** The digit strings of the magnitudes in the formatter's tests. */
  lemma DigitsExamples()
    ensures Digits(128) == [49, 50, 56]
    ensures Digits(129) == [49, 50, 57]
    ensures Digits(12856) == [49, 50, 56, 53, 54]
    ensures Digits(1285600) == [49, 50, 56, 53, 54, 48, 48]
  {
    assert Digits(12) == [49, 50];
    assert Digits(1285) == [49, 50, 56, 53];
    assert Digits(128560) == [49, 50, 56, 53, 54, 48];
  }

  lemma WholeTextExample()
    ensures WholeText([49, 50, 56], -2, None) == [49, 50, 56, 48, 48]
  {
    assert Zeros(2) == [48, 48];
  }

  lemma ShortTextExample()
    ensures ShortText([49, 50, 56], 4, None) == [48, 46, 48, 49, 50, 56]
  {
    assert Zeros(1) + [49, 50, 56] == [48, 49, 50, 56];
    assert TrailingZeros([48, 49, 50, 56]) == 0;
  }

  lemma StrippedTextExample()
    ensures SplitText([49, 50, 56, 53, 54, 48, 48], 6, None) == [49, 46, 50, 56, 53, 54]
  {
    var digits: seq<u8> := [49, 50, 56, 53, 54, 48, 48];
    var after: seq<u8> := [50, 56, 53, 54, 48, 48];
    assert digits[..1] == [49] && digits[1..] == after;
    assert TrailingZeros(after) == 2;
    assert after[..4] == [50, 56, 53, 54];
  }

  lemma PaddedTextExample()
    ensures SplitText([49, 50, 56, 53, 54], 4, Some(6)) == [49, 46, 50, 56, 53, 54, 48, 48]
  {
    var digits: seq<u8> := [49, 50, 56, 53, 54];
    assert digits[..1] == [49] && digits[1..] == [50, 56, 53, 54];
    assert Zeros(2) == [48, 48];
  }

  lemma CutTextExample()
    ensures SplitText([49, 50, 57], 2, Some(2)) == [49, 46, 50, 57]
  {
    var digits: seq<u8> := [49, 50, 57];
    assert digits[..1] == [49] && digits[1..] == [50, 57];
    assert digits[1..][..2] == [50, 57];
  }

  /** The expected texts of the formatter's tests, as bytes. */
  lemma AsciiTestExamples()
    ensures Ascii("-12800") == [45, 49, 50, 56, 48, 48]
    ensures Ascii("-0.0128") == [45, 48, 46, 48, 49, 50, 56]
    ensures Ascii("1.2856") == [49, 46, 50, 56, 53, 54]
    ensures Ascii("1.285600") == [49, 46, 50, 56, 53, 54, 48, 48]
    ensures Ascii("1.29") == [49, 46, 50, 57]
  {
  }

  /** A negative whole number with a negative scale, signed: "-12800". */
  lemma FmtWholeExample()
    ensures FmtText(Decimal(128, -2, true), true, None) == Ascii("-12800")
  {
    DigitsExamples();
    WholeTextExample();
    AsciiTestExamples();
  }

  /** A negative number below one, signed: "-0.0128". */
  lemma FmtShortExample()
    ensures FmtText(Decimal(128, 4, true), true, None) == Ascii("-0.0128")
  {
    DigitsExamples();
    ShortTextExample();
    AsciiTestExamples();
  }

  /** Trailing zeros after the point are dropped without a precision: "1.2856". */
  lemma FmtStrippedExample()
    ensures FmtText(Decimal(1285600, 6, false), false, None) == Ascii("1.2856")
  {
    DigitsExamples();
    StrippedTextExample();
    AsciiTestExamples();
    assert [] + [49, 46, 50, 56, 53, 54] == [49, 46, 50, 56, 53, 54];
  }

  /** A precision beyond the scale pads with zeros, and the sign is left out when not asked for: "1.285600". */
  lemma FmtPaddedExample()
    ensures FmtText(Decimal(12856, 4, true), false, Some(6)) == Ascii("1.285600")
  {
    NoRounding(Decimal(12856, 4, true), Some(6));
    DigitsExamples();
    PaddedTextExample();
    AsciiTestExamples();
    assert [] + [49, 46, 50, 56, 53, 54, 48, 48] == [49, 46, 50, 56, 53, 54, 48, 48];
  }

  /** A precision below the scale rounds half up first: "1.29". */
  lemma FmtRoundedExample()
    ensures FmtText(Decimal(12856, 4, true), false, Some(2)) == Ascii("1.29")
  {
    var d := Decimal(12856, 4, true);
    assert Pow10(2) == 100;
    assert DivRoundHalfUp(12856, 100) == 129;
    assert Rounded(d, Some(2)) == Decimal(129, 2, true);
    DigitsExamples();
    CutTextExample();
    AsciiTestExamples();
    assert [] + [49, 46, 50, 57] == [49, 46, 50, 57];
  }

  /** For a valid decimal, Display's text is the signed `fmt_internal` text. */
  lemma DisplayIsSignedFmt(d: Decimal, precision: Option<nat>)
    requires Valid(d)
    ensures DisplayText(d, precision) == FmtText(d, true, precision)
  {
    if d.intVal != 0 {
      var dec := Rounded(d, precision);
      var body := Body(Digits(dec.intVal), dec.scale, precision);
      assert FmtText(d, true, precision) == SignPrefix(d.negative) + body;
      assert FmtText(d, false, precision) == SignPrefix(false) + body;
      assert SignPrefix(false) + body == body;
    }
  }

  /** Display without a precision denotes exactly the decimal, sign included. */
  lemma DisplayDenotes(d: Decimal)
    requires Valid(d)
    ensures Denotes(DisplayText(d, None), d.negative, d.intVal, d.scale)
  {
    DisplayIsSignedFmt(d, None);
    FmtTextDenotes(d, true, None);
  }

  // ---------------------------------------------------------------------
  // The shape of Display's text
  // ---------------------------------------------------------------------

  /** The digits after the point with their trailing zeros cut off. */
  function Stripped(after: seq<u8>): (r: seq<u8>)
    ensures |r| == |after| - TrailingZeros(after)
  {
    after[..|after| - TrailingZeros(after)]
  }

  /** A numeral: the integer digits, then a point and the fraction when there is one. */
  function Plain(whole: seq<u8>, fraction: seq<u8>): seq<u8>
  {
    if fraction == [] then whole else whole + ([POINT] + fraction)
  }

  /**
   * The numerals Display writes without a precision: integer digits with
   * no superfluous leading zero, and a fraction that does not end in zero.
   */
  predicate PlainShape(whole: seq<u8>, fraction: seq<u8>)
  {
    AllDigits(whole) && whole != [] && (|whole| > 1 ==> whole[0] != ZERO_CHAR) &&
    AllDigits(fraction) && (fraction != [] ==> fraction[|fraction| - 1] != ZERO_CHAR)
  }

  /** The integer digits and the fraction of the numeral for `digits` at `scale`. */
  function PlainParts(digits: seq<u8>, scale: int): (seq<u8>, seq<u8>)
  {
    if scale <= 0 then (digits + Zeros(-scale), [])
    else if |digits| <= scale then ([ZERO_CHAR], Stripped(Zeros(scale - |digits|) + digits))
    else (digits[..|digits| - scale], Stripped(digits[|digits| - scale..]))
  }

  /** Without a precision the fraction is the stripped digits, after a point only if any remain. */
  lemma StrippedFraction(after: seq<u8>)
    requires AllDigits(after)
    ensures AllDigits(Stripped(after))
    ensures Stripped(after) != [] ==> Stripped(after)[|Stripped(after)| - 1] != ZERO_CHAR
    ensures Fraction(after, None) == if Stripped(after) == [] then [] else [POINT] + Stripped(after)
  {
  }

  /** The unsigned text of a non-zero magnitude is the numeral of its parts, in Display's shape. */
  lemma BodyIsPlain(digits: seq<u8>, scale: int)
    requires AllDigits(digits) && digits != [] && digits[0] != ZERO_CHAR
    ensures PlainShape(PlainParts(digits, scale).0, PlainParts(digits, scale).1)
    ensures Body(digits, scale, None) == Plain(PlainParts(digits, scale).0, PlainParts(digits, scale).1)
  {
    if scale <= 0 {
      assert AllDigits(digits + Zeros(-scale));
    } else if |digits| <= scale {
      var after := Zeros(scale - |digits|) + digits;
      assert AllDigits(after);
      StrippedFraction(after);
      if Stripped(after) == [] {
        assert [ZERO_CHAR] + [] == [ZERO_CHAR];
      }
    } else {
      var cut := |digits| - scale;
      StrippedFraction(digits[cut..]);
      if Stripped(digits[cut..]) == [] {
        assert digits[..cut] + [] == digits[..cut];
      }
    }
  }

  /** Display's text of a non-zero decimal is the signed numeral of its parts. */
  lemma DisplayIsPlain(d: Decimal)
    requires Valid(d) && d.intVal != 0
    ensures PlainShape(PlainParts(Digits(d.intVal), d.scale).0, PlainParts(Digits(d.intVal), d.scale).1)
    ensures DisplayText(d, None)
      == SignPrefix(d.negative) + Plain(PlainParts(Digits(d.intVal), d.scale).0, PlainParts(Digits(d.intVal), d.scale).1)
  {
    var body := Body(Digits(d.intVal), d.scale, None);
    BodyIsPlain(Digits(d.intVal), d.scale);
    assert FmtText(d, false, None) == SignPrefix(false) + body;
    assert SignPrefix(false) + body == body;
  }

  /** The last digit of `n` is n % 10. */
  lemma DigitsLast(n: nat)
    ensures Digits(n)[|Digits(n)| - 1] == DigitChar(n % 10)
  {
  }

  /**
   * The parts read as a number are the magnitude: for a scale at most 0
   * the integer digits are n * 10^(-scale) and there is no fraction;
   * otherwise the digits read at the fraction's length are n read at the
   * scale, and the fraction has all `scale` digits when n does not end in 0.
   */
  lemma PlainPartsValue(n: nat, scale: int)
    requires n > 0
    ensures var (whole, fraction) := PlainParts(Digits(n), scale);
      (scale <= 0 ==> fraction == [] && DigitsValue(whole) == n * Pow10(-scale)) &&
      (scale > 0 ==>
        |fraction| <= scale && DigitsValue(whole + fraction) * Pow10(scale - |fraction|) == n &&
        (n % 10 != 0 ==> |fraction| == scale))
  {
    var digits := Digits(n);
    DigitsValueDigits(n);
    if scale <= 0 {
      AppendZeros(digits, -scale);
    } else if |digits| <= scale {
      ShortPartsValue(n, scale);
    } else {
      SplitPartsValue(n, scale);
    }
  }

  /** `PlainPartsValue` when the scale is at least the digit count: "0." and the padded digits. */
  lemma ShortPartsValue(n: nat, scale: int)
    requires n > 0 && 0 < |Digits(n)| <= scale
    ensures var fraction := PlainParts(Digits(n), scale).1;
      PlainParts(Digits(n), scale).0 == [ZERO_CHAR] &&
      |fraction| <= scale && DigitsValue([ZERO_CHAR] + fraction) * Pow10(scale - |fraction|) == n &&
      (n % 10 != 0 ==> |fraction| == scale)
  {
    var digits := Digits(n);
    var after := Zeros(scale - |digits|) + digits;
    var fraction := Stripped(after);
    var z := TrailingZeros(after);
    assert |fraction| + z == scale;
    assert DigitsValue(after) == n by {
      DigitsValueDigits(n);
      PrependZeros(scale - |digits|, digits);
    }
    assert DigitsValue(after) == DigitsValue(fraction) * Pow10(z) by {
      DropTrailingZeros(after);
    }
    assert DigitsValue([ZERO_CHAR] + fraction) == DigitsValue(fraction) by {
      assert [ZERO_CHAR] + fraction == Zeros(1) + fraction;
      PrependZeros(1, fraction);
    }
    if n % 10 != 0 {
      LastDigitKept(n, after);
    }
  }

  /** `PlainPartsValue` when the point falls inside the digits. */
  lemma SplitPartsValue(n: nat, scale: int)
    requires n > 0 && 0 < scale < |Digits(n)|
    ensures var (whole, fraction) := PlainParts(Digits(n), scale);
      |fraction| <= scale && DigitsValue(whole + fraction) * Pow10(scale - |fraction|) == n &&
      (n % 10 != 0 ==> |fraction| == scale)
  {
    var digits := Digits(n);
    var cut := |digits| - scale;
    var whole, fraction := digits[..cut], Stripped(digits[cut..]);
    assert PlainParts(digits, scale) == (whole, fraction);
    assert |fraction| == scale - TrailingZeros(digits[cut..]);
    DigitsValueDigits(n);
    StrippedTailValue(digits, cut);
    if n % 10 != 0 {
      LastDigitKept(n, digits[cut..]);
    }
  }

  /** Stripping the trailing zeros of a tail of digits divides their value by 10 per zero stripped. */
  lemma StrippedTailValue(digits: seq<u8>, cut: nat)
    requires cut <= |digits|
    ensures DigitsValue(digits[..cut] + Stripped(digits[cut..])) * Pow10(TrailingZeros(digits[cut..]))
      == DigitsValue(digits)
  {
    assert digits == digits[..cut] + digits[cut..];
    StrippedAppendValue(digits[..cut], digits[cut..]);
  }

  /** Stripping the trailing zeros of the digits after `whole` divides their value by 10 per zero stripped. */
  lemma StrippedAppendValue(whole: seq<u8>, after: seq<u8>)
    ensures DigitsValue(whole + Stripped(after)) * Pow10(TrailingZeros(after)) == DigitsValue(whole + after)
  {
    var fraction := Stripped(after);
    var z := TrailingZeros(after);
    var w, f, p, q := DigitsValue(whole), DigitsValue(fraction), Pow10(|fraction|), Pow10(z);
    var pa := Pow10(|after|);
    assert w * pa + DigitsValue(after) == DigitsValue(whole + after) by {
      DigitsValueAppend(whole, after);
    }
    assert DigitsValue(after) == f * q by {
      DropTrailingZeros(after);
    }
    assert pa == p * q by {
      StrippedSplitsPower(after);
    }
    assert DigitsValue(whole + fraction) == w * p + f by {
      DigitsValueAppend(whole, fraction);
    }
    PlainSplitValue(w, f, p, q, pa, DigitsValue(after), DigitsValue(whole + after));
  }

  /** 10^|after| is 10^|Stripped(after)| times 10 per stripped zero. */
  lemma StrippedSplitsPower(after: seq<u8>)
    ensures Pow10(|after|) == Pow10(|Stripped(after)|) * Pow10(TrailingZeros(after))
  {
    var n, z := |Stripped(after)|, TrailingZeros(after);
    assert |after| == n + z;
    Pow10Add(n, z);
  }

  /** A magnitude not ending in 0 leaves nothing to strip from any tail of its digits. */
  lemma LastDigitKept(n: nat, after: seq<u8>)
    requires n % 10 != 0 && after != []
    requires after[|after| - 1] == Digits(n)[|Digits(n)| - 1]
    ensures TrailingZeros(after) == 0
  {
    DigitsLast(n);
  }

  lemma PlainSplitValue(w: int, f: int, p: int, q: int, pq: int, fq: int, v: int)
    requires pq == p * q && fq == f * q && w * pq + fq == v
    ensures (w * p + f) * q == v
  {
  }
}
