// The fixed-capacity byte buffer of buf.rs: a 256-byte array and a length,
// updated in place. It also stands in for the `StackVec<u8, 256>` that
// `fmt_internal` writes into: both append only and panic when full.

module Buffer {
  import opened Std

  /** The capacity of every buffer, in bytes. */
  const CAPACITY: nat := 256

  /** `count` copies of `value`. */
  function Repeat(value: u8, count: nat): (r: seq<u8>)
    ensures |r| == count
    ensures forall i :: 0 <= i < count ==> r[i] == value
  {
    seq(count, _ => value)
  }

  class Buf {
    var buf: array<u8>
    var len: nat

    ghost predicate Valid()
      reads this
    {
      buf.Length == CAPACITY && len <= CAPACITY
    }

    /** `as_slice`: the bytes written so far, the first `len` of the array. */
    function AsSlice(): (r: seq<u8>)
      reads this, buf
      requires Valid()
      ensures |r| == len
    {
      buf[..len]
    }

    /** `new`: an empty buffer. */
    constructor ()
      ensures Valid() && fresh(buf)
      ensures len == 0 && AsSlice() == []
    {
      buf := new u8[CAPACITY](_ => 0);
      len := 0;
    }

    /** `write_u8`: appends one byte; the source indexes past the end when the buffer is full. */
    method WriteU8(value: u8)
      requires Valid() && len < CAPACITY
      modifies this`len, buf
      ensures Valid() && buf == old(buf)
      ensures len == old(len) + 1
      ensures AsSlice() == old(AsSlice()) + [value]
    {
      buf[len] := value;
      len := len + 1;
    }

    /** `write_slice`: copies the slice after the bytes written so far. */
    method WriteSlice(slice: seq<u8>)
      requires Valid() && len + |slice| <= CAPACITY
      modifies this`len, buf
      ensures Valid() && buf == old(buf)
      ensures len == old(len) + |slice|
      ensures AsSlice() == old(AsSlice()) + slice
    {
      forall i | 0 <= i < |slice| {
        buf[len + i] := slice[i];
      }
      len := len + |slice|;
    }

    /** `write_bytes`: appends `count` copies of `value`. */
    method WriteBytes(value: u8, count: nat)
      requires Valid() && len + count <= CAPACITY
      modifies this`len, buf
      ensures Valid() && buf == old(buf)
      ensures len == old(len) + count
      ensures AsSlice() == old(AsSlice()) + Repeat(value, count)
    {
      forall i | len <= i < len + count {
        buf[i] := value;
      }
      len := len + count;
    }

    /** `truncate`: shortens to `n` bytes when longer, keeping the prefix; never grows. */
    method Truncate(n: nat)
      requires Valid()
      modifies this`len
      ensures Valid()
      ensures len == if n < old(len) then n else old(len)
      ensures AsSlice() == old(AsSlice())[..len]
    {
      if n < len {
        len := n;
      }
    }

    /** `Write::write`: appends every byte and reports how many were written. */
    method Write(bytes: seq<u8>) returns (count: nat)
      requires Valid() && len + |bytes| <= CAPACITY
      modifies this`len, buf
      ensures Valid() && buf == old(buf)
      ensures count == |bytes|
      ensures AsSlice() == old(AsSlice()) + bytes
    {
      WriteSlice(bytes);
      count := |bytes|;
    }
  }
}
