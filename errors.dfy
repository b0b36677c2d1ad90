/**
 * The error values of the decimal crate (src/error.rs): why a parse, a
 * conversion or a formatting request failed, their messages, and the
 * conversions between them.
 */
module Errors {
  import opened Std

  /** Why a string could not be parsed as a decimal. */
  datatype ParseError = Empty | Invalid | Overflow | Underflow

  /** Why a conversion between a decimal and another type failed. */
  datatype ConvertError = ConvertInvalid | ConvertOverflow

  /** The formatter's own (unit) error, `std::fmt::Error`. */
  datatype FmtError = FmtError

  /** The (unit) error of the standard float parser, `ParseFloatError`. */
  datatype ParseFloatError = ParseFloatError

  /** Why a decimal could not be formatted. */
  datatype FormatError = Format(cause: FmtError) | OutOfRange

  /** The Display text of a parse error. */
  function ParseErrorMessage(e: ParseError): string
  {
    match e
    case Empty => "cannot parse number from empty string"
    case Invalid => "invalid number"
    case Overflow => "numeric overflow"
    case Underflow => "numeric underflow"
  }

  /** Each parse-error variant has a message of its own. */
  lemma ParseErrorMessagesDistinct(e1: ParseError, e2: ParseError)
    requires ParseErrorMessage(e1) == ParseErrorMessage(e2)
    ensures e1 == e2
  {
  }

  /** The Display text of a conversion error. */
  function ConvertErrorMessage(e: ConvertError): string
  {
    match e
    case ConvertInvalid => "invalid number"
    case ConvertOverflow => "numeric overflow"
  }

  /** The Display text the standard library gives `std::fmt::Error`. */
  const FMT_ERROR_MESSAGE: string := "an error occurred when formatting an argument"

  /** The Display text of a formatting error: the wrapped error's text, or the range message. */
  function FormatErrorMessage(e: FormatError): string
  {
    match e
    case Format(_) => FMT_ERROR_MESSAGE
    case OutOfRange => "Data value out of range"
  }

  /** `Error::source`: the wrapped formatter error, if any. */
  function FormatErrorSource(e: FormatError): (r: Option<FmtError>)
    ensures r.Some? <==> e.Format?
  {
    match e
    case Format(cause) => Some(cause)
    case OutOfRange => None
  }

  /**
   * `From<DecimalParseError> for DecimalConvertError`: an empty or malformed
   * string is an invalid number, either range error an overflow.
   */
  function ConvertFromParseError(e: ParseError): (r: ConvertError)
    ensures r == ConvertInvalid <==> e == Empty || e == Invalid
    ensures r == ConvertOverflow <==> e == Overflow || e == Underflow
  {
    match e
    case Empty => ConvertInvalid
    case Invalid => ConvertInvalid
    case Overflow => ConvertOverflow
    case Underflow => ConvertOverflow
  }

  /** The conversion keeps the message of the two variants both enums share, and changes the other two. */
  lemma ConvertFromParseErrorMessage(e: ParseError)
    ensures (e == Invalid || e == Overflow) <==> ConvertErrorMessage(ConvertFromParseError(e)) == ParseErrorMessage(e)
  {
    var m, c := ParseErrorMessage(e), ConvertErrorMessage(ConvertFromParseError(e));
    if e == Empty {
      assert m[0] != c[0];
    } else if e == Underflow {
      assert m[8] != c[8];
    }
  }

  /** `From<ParseFloatError> for DecimalConvertError`: every float-parse failure is an invalid number. */
  function ConvertFromParseFloatError(e: ParseFloatError): (r: ConvertError)
    ensures r == ConvertInvalid
  {
    ConvertInvalid
  }

  /** `From<fmt::Error> for DecimalFormatError`: the formatter error is wrapped and is its source. */
  function FormatFromFmtError(e: FmtError): (r: FormatError)
    ensures FormatErrorSource(r) == Some(e)
    ensures FormatErrorMessage(r) == FMT_ERROR_MESSAGE
  {
    Format(e)
  }
}
