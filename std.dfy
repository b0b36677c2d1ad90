/**
 * The few standard-library shapes the decimal core relies on: `Option`
 * and `Result` for fallible operations, and `Ordering` for comparisons.
 */
module Std {

  /** 2^128, one past the largest `u128`. */
  const TWO_128: int := 0x1_0000_0000_0000_0000_0000_0000_0000_0000

  /** Rust's fixed-width integers as ranges of the unbounded `int`. */
  type u8 = x: int | 0 <= x < 0x100
  type i16 = x: int | -0x8000 <= x < 0x8000
  type u128 = x: int | 0 <= x < TWO_128

  datatype Option<+T> = None | Some(value: T)

  datatype Result<+T, +E> = Ok(value: T) | Err(error: E)

  /** The outcome of a three-way comparison. */
  datatype Ordering = Less | Equal | Greater {

    /** The comparison seen from the other side. */
    function Reverse(): (r: Ordering)
      ensures r == Less <==> this == Greater
      ensures r == Equal <==> this == Equal
      ensures r == Greater <==> this == Less
    {
      match this
      case Less => Greater
      case Equal => Equal
      case Greater => Less
    }
  }

  /** Three-way comparison of two integers. */
  function CompareInt(a: int, b: int): (r: Ordering)
    ensures r == Less <==> a < b
    ensures r == Equal <==> a == b
    ensures r == Greater <==> a > b
  {
    if a < b then Less else if a == b then Equal else Greater
  }
}
