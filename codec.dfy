// The binary codec of decimals: a two-byte header (flags, then the
// absolute scale) followed by the little-endian magnitude with its high
// zero bytes trimmed, or, in the compact form, just one or two magnitude
// bytes for small non-negative integers.

module Codec {
  import opened Std
  import opened Wide
  import opened Decimals

  /** The longest encoding: two header bytes and sixteen magnitude bytes. */
  const MAX_BINARY_SIZE: nat := 18

  /** 256^k. */
  function Pow256(k: nat): (r: nat)
    ensures r >= 1
  {
    if k == 0 then 1 else 256 * Pow256(k - 1)
  }

  lemma Pow256Words()
    ensures Pow256(2) == 0x1_0000
    ensures Pow256(16) == TWO_128
  {
  }

  // ---------------------------------------------------------------------
  // Little-endian bytes
  // ---------------------------------------------------------------------

  /** The low `k` bytes of `n`, least significant first (`to_le_bytes` for k = 16). */
  function LeBytes(n: nat, k: nat): (r: seq<u8>)
    ensures |r| == k
  {
    if k == 0 then [] else [n % 256] + LeBytes(n / 256, k - 1)
  }

  /** The number little-endian bytes denote (`from_le_bytes`). */
  function FromLe(bytes: seq<u8>): nat
  {
    if bytes == [] then 0 else bytes[0] + 256 * FromLe(bytes[1..])
  }

  lemma {:induction false} FromLeBound(bytes: seq<u8>)
    ensures FromLe(bytes) < Pow256(|bytes|)
    decreases |bytes|
  {
    if bytes != [] {
      FromLeBound(bytes[1..]);
    }
  }

  /** Bytes then more bytes: the second part is worth 256^(length of the first) per unit. */
  lemma {:induction false} FromLeAppend(a: seq<u8>, b: seq<u8>)
    ensures FromLe(a + b) == FromLe(a) + Pow256(|a|) * FromLe(b)
    decreases |a|
  {
    if a != [] {
      assert (a + b)[1..] == a[1..] + b;
      FromLeAppend(a[1..], b);
      var p, x, y := Pow256(|a| - 1), FromLe(a[1..]), FromLe(b);
      calc {
        FromLe(a + b);
        a[0] + 256 * FromLe(a[1..] + b);
        a[0] + 256 * (x + p * y);
        { Spread(x, p, y); }
        (a[0] + 256 * x) + (256 * p) * y;
        FromLe(a) + Pow256(|a|) * FromLe(b);
      }
    } else {
      assert a + b == b;
    }
  }

  lemma Spread(x: nat, p: nat, y: nat)
    ensures 256 * (x + p * y) == 256 * x + (256 * p) * y
  {
  }

  /** Reading back the low `k` bytes of a number below 256^k gives the number. */
  lemma {:induction false} FromLeLeBytes(n: nat, k: nat)
    requires n < Pow256(k)
    ensures FromLe(LeBytes(n, k)) == n
    decreases k
  {
    if k > 0 {
      FromLeLeBytes(n / 256, k - 1);
    }
  }

  /** Bytes that are all zero denote zero. */
  lemma {:induction false} FromLeZeros(bytes: seq<u8>)
    requires forall i :: 0 <= i < |bytes| ==> bytes[i] == 0
    ensures FromLe(bytes) == 0
    decreases |bytes|
  {
    if bytes != [] {
      FromLeZeros(bytes[1..]);
    }
  }

  /** `n` with its low `a` bytes dropped. */
  function Shifted(n: nat, a: nat): nat
  {
    if a == 0 then n else Shifted(n / 256, a - 1)
  }

  /** The low a + b bytes are the low a bytes, then b bytes of what remains. */
  lemma {:induction false} LeBytesSplit(n: nat, a: nat, b: nat)
    ensures LeBytes(n, a + b) == LeBytes(n, a) + LeBytes(Shifted(n, a), b)
    decreases a
  {
    if a > 0 {
      var m := n / 256;
      LeBytesSplit(m, a - 1, b);
      assert LeBytes(n, a + b) == [n % 256] + LeBytes(m, (a - 1) + b);
    }
  }

  /** The bytes of zero are all zero. */
  lemma {:induction false} LeBytesZero(k: nat)
    ensures forall i :: 0 <= i < k ==> LeBytes(0, k)[i] == 0
    decreases k
  {
    if k > 0 {
      LeBytesZero(k - 1);
    }
  }

  // ---------------------------------------------------------------------
  // The highest significant byte
  // ---------------------------------------------------------------------

  /** The index of the last non-zero byte, or 0 when every byte after the first is zero. */
  function TopIndex(bytes: seq<u8>): (t: nat)
    requires |bytes| >= 1
    ensures t < |bytes|
    ensures t == 0 || bytes[t] != 0
    ensures forall j :: t < j < |bytes| ==> bytes[j] == 0
    decreases |bytes|
  {
    if |bytes| == 1 || bytes[|bytes| - 1] != 0 then |bytes| - 1 else TopIndex(bytes[..|bytes| - 1])
  }

  /** Any index above which every byte is zero bounds the top index. */
  lemma TopIndexAtMost(bytes: seq<u8>, t: nat)
    requires t < |bytes|
    requires forall j :: t < j < |bytes| ==> bytes[j] == 0
    ensures TopIndex(bytes) <= t
  {
  }

  /** Dropping zero bytes above the top index keeps the value. */
  lemma TrimmedValue(bytes: seq<u8>, t: nat)
    requires t < |bytes|
    requires forall j :: t < j < |bytes| ==> bytes[j] == 0
    ensures FromLe(bytes[..t + 1]) == FromLe(bytes)
  {
    assert bytes == bytes[..t + 1] + bytes[t + 1..];
    FromLeAppend(bytes[..t + 1], bytes[t + 1..]);
    FromLeZeros(bytes[t + 1..]);
  }

  /**
   * The trimming loop of `internal_encode`: from the top byte down, stop
   * at the first non-zero byte or at index 0.
   */
  method FindTop(bytes: seq<u8>) returns (id: nat)
    requires |bytes| == 16
    ensures id == TopIndex(bytes)
  {
    id := 15;
    while id > 0 && bytes[id] == 0
      invariant id < 16
      invariant forall j :: id < j < 16 ==> bytes[j] == 0
      decreases id
    {
      id := id - 1;
    }
    TopIndexAtMost(bytes, id);
  }

  // ---------------------------------------------------------------------
  // Encoding
  // ---------------------------------------------------------------------

  /** The magnitude bytes of `int_val`, the sixteen of `to_le_bytes`. */
  function IntBytes(d: Decimal): (r: seq<u8>)
    ensures |r| == 16
  {
    LeBytes(d.intVal, 16)
  }

  /** How many magnitude bytes an encoding keeps: up to and including the top non-zero one. */
  function KeptBytes(d: Decimal): (k: nat)
    ensures 1 <= k <= 16
  {
    TopIndex(IntBytes(d)) + 1
  }

  /**
   * `encode_header`: the flags byte (bit 0 the sign, bit 1 set when the
   * scale is at least zero) and the absolute scale cut to its low byte.
   */
  function EncodeHeader(d: Decimal): (r: seq<u8>)
    ensures |r| == 2
    ensures r[0] % 2 == 1 <==> d.negative
    ensures (r[0] / 2) % 2 == 1 <==> d.scale >= 0
    ensures r[0] < 4
    ensures -255 <= d.scale <= 255 ==> r[1] == if d.scale < 0 then -d.scale else d.scale
  {
    var sign := if d.negative then 1 else 0;
    var scaleSign := if d.scale < 0 then 0 else 1;
    var absScale := if d.scale < 0 then (-(d.scale as int)) % 256 else d.scale % 256;
    [scaleSign * 2 + sign, absScale]
  }

  /**
   * The bytes `internal_encode` writes: in the compact form, a
   * non-negative scale-0 value whose top byte index is below 2 is written
   * as its one or two low bytes; otherwise the header then the kept
   * magnitude bytes.
   */
  function Encoding(d: Decimal, compact: bool): seq<u8>
  {
    var k := KeptBytes(d);
    if compact && k <= 2 && d.scale == 0 && !d.negative then
      IntBytes(d)[..k]
    else
      EncodeHeader(d) + IntBytes(d)[..k]
  }

  /**
   * `internal_encode`, with the writer replaced by the returned bytes: the
   * bytes written and their count.
   */
  method InternalEncode(d: Decimal, compact: bool) returns (written: seq<u8>, size: nat)
    ensures written == Encoding(d, compact)
    ensures size == |written| <= MAX_BINARY_SIZE
  {
    var intBytes := LeBytes(d.intVal, 16);
    var id := FindTop(intBytes);
    if compact && id < 2 && d.scale == 0 && !d.negative {
      if id == 0 {
        written, size := intBytes[0..1], 1;
      } else {
        written, size := intBytes[0..2], 2;
      }
      return;
    }
    var header := EncodeHeader(d);
    written := header + intBytes[0..id + 1];
    size := id + 3;
  }

  /** `encode`: the full form. */
  method Encode(d: Decimal) returns (written: seq<u8>, size: nat)
    ensures written == Encoding(d, false)
    ensures size == |written| <= MAX_BINARY_SIZE
  {
    written, size := InternalEncode(d, false);
  }

  /** `compact_encode`: the compact form for small non-negative integers, the full form otherwise. */
  method CompactEncode(d: Decimal) returns (written: seq<u8>, size: nat)
    ensures written == Encoding(d, true)
    ensures size == |written| <= MAX_BINARY_SIZE
  {
    written, size := InternalEncode(d, true);
  }

  // ---------------------------------------------------------------------
  // Decoding
  // ---------------------------------------------------------------------

  /**
   * The sixteen magnitude bytes `decode` assembles: the bytes after the
   * header, zero-filled when fewer than sixteen, the first sixteen when more.
   */
  function MagnitudeBytes(bytes: seq<u8>): (r: seq<u8>)
    requires |bytes| > 2
    ensures |r| == 16
  {
    if |bytes| < MAX_BINARY_SIZE then bytes[2..] + seq(MAX_BINARY_SIZE - |bytes|, _ => 0)
    else bytes[2..MAX_BINARY_SIZE]
  }

  /**
   * `decode`: one or two bytes are a little-endian non-negative integer at
   * scale 0; longer input is a header and magnitude bytes, read with
   * from_parts_unchecked so a zero magnitude becomes ZERO. The source
   * asserts that the input is not empty.
   */
  function Decode(bytes: seq<u8>): (r: Decimal)
    requires |bytes| > 0
    ensures |bytes| <= 2 ==> r.scale == 0 && !r.negative && r.intVal < 0x1_0000
    ensures |bytes| > 2 && r.intVal != 0 ==> (r.negative <==> bytes[0] % 2 == 1)
  {
    if |bytes| <= 2 then
      var intVal: int := if |bytes| == 1 then bytes[0] as int else (bytes[1] as int) * 256 + bytes[0] as int;
      FromPartsUnchecked(intVal, 0, false)
    else
      var flags := bytes[0];
      var absScale := bytes[1];
      var negative := flags % 2 == 1;
      var scale: int := if (flags / 2) % 2 != 0 then absScale else -(absScale as int);
      var intBytes := MagnitudeBytes(bytes);
      FromLeBound(intBytes);
      Pow256Words();
      FromPartsUnchecked(FromLe(intBytes), scale, negative)
  }

  // ---------------------------------------------------------------------
  // Properties
  // ---------------------------------------------------------------------

  /** The kept magnitude bytes denote the magnitude. */
  lemma KeptBytesValue(d: Decimal)
    ensures FromLe(IntBytes(d)[..KeptBytes(d)]) == d.intVal
    ensures d.intVal < Pow256(KeptBytes(d))
  {
    var bytes := IntBytes(d);
    var t := TopIndex(bytes);
    Pow256Words();
    FromLeLeBytes(d.intVal, 16);
    TrimmedValue(bytes, t);
    FromLeBound(bytes[..t + 1]);
  }

  /** A magnitude below 256^2 keeps at most two bytes. */
  lemma SmallKeepsTwo(d: Decimal)
    requires d.intVal < 0x1_0000
    ensures KeptBytes(d) <= 2
  {
    var n: nat := d.intVal;
    var bytes := IntBytes(d);
    Pow256Words();
    LeBytesSplit(n, 2, 14);
    assert n / 256 < 256;
    assert Shifted(n, 2) == Shifted(n / 256 / 256, 0) == 0;
    LeBytesZero(14);
    forall j | 1 < j < 16
      ensures bytes[j] == 0
    {
      assert bytes[j] == LeBytes(0, 14)[j - 2];
    }
    TopIndexAtMost(bytes, 1);
  }

  /** The full form is the header and one to sixteen magnitude bytes; the compact form is never longer. */
  lemma EncodingSize(d: Decimal)
    ensures 3 <= |Encoding(d, false)| <= MAX_BINARY_SIZE
    ensures 1 <= |Encoding(d, true)| <= |Encoding(d, false)|
  {
  }

  /**
   * The compact form is one or two bytes exactly for non-negative
   * integers at scale 0 below 65536, and one byte exactly below 256.
   */
  lemma CompactSize(d: Decimal)
    ensures |Encoding(d, true)| <= 2 <==> d.scale == 0 && !d.negative && d.intVal < 0x1_0000
    ensures |Encoding(d, true)| == 1 <==> d.scale == 0 && !d.negative && d.intVal < 0x100
  {
    KeptBytesValue(d);
    Pow256Words();
    if d.intVal < 0x1_0000 {
      SmallKeepsTwo(d);
    }
    if d.intVal < 0x100 {
      TopIndexAtMost(IntBytes(d), 0);
    }
  }

  /** The header of a valid decimal reads back as its sign and scale. */
  lemma HeaderDecodes(d: Decimal)
    requires Valid(d)
    ensures var h := EncodeHeader(d);
      && (h[0] % 2 == 1 <==> d.negative)
      && d.scale == if (h[0] / 2) % 2 != 0 then h[1] as int else -(h[1] as int)
  {
  }

  /** The magnitude bytes `decode` assembles from kept bytes denote what the kept bytes denote. */
  lemma MagnitudeDecodes(header: seq<u8>, kept: seq<u8>)
    requires |header| == 2 && 1 <= |kept| <= 16
    ensures FromLe(MagnitudeBytes(header + kept)) == FromLe(kept)
  {
    var bytes := header + kept;
    assert bytes[2..] == kept;
    if |bytes| < MAX_BINARY_SIZE {
      PaddedMagnitude(bytes, kept);
    } else {
      FullMagnitude(bytes, kept);
    }
  }

  /** Sixteen kept bytes are the magnitude as they stand. */
  lemma FullMagnitude(bytes: seq<u8>, kept: seq<u8>)
    requires |bytes| == MAX_BINARY_SIZE && bytes[2..] == kept
    ensures MagnitudeBytes(bytes) == kept
  {
    assert bytes[2..MAX_BINARY_SIZE] == bytes[2..];
  }

  /** Zero padding after the kept bytes adds nothing to the magnitude. */
  lemma PaddedMagnitude(bytes: seq<u8>, kept: seq<u8>)
    requires 2 < |bytes| < MAX_BINARY_SIZE && bytes[2..] == kept
    ensures FromLe(MagnitudeBytes(bytes)) == FromLe(kept)
  {
    var zeros: seq<u8> := seq(MAX_BINARY_SIZE - |bytes|, _ => 0);
    assert MagnitudeBytes(bytes) == kept + zeros;
    FromLeZeros(zeros);
    FromLeAppend(kept, zeros);
    var p := Pow256(|kept|);
    assert p * FromLe(zeros) == 0;
  }

  /** Decoding the full encoding of a valid decimal gives it back. */
  lemma DecodeEncode(d: Decimal)
    requires Valid(d)
    ensures Decode(Encoding(d, false)) == d
  {
    var k := KeptBytes(d);
    var kept := IntBytes(d)[..k];
    var header := EncodeHeader(d);
    KeptBytesValue(d);
    MagnitudeDecodes(header, kept);
    HeaderDecodes(d);
    var bytes := header + kept;
    assert bytes[0] == header[0] && bytes[1] == header[1];
    assert FromLe(MagnitudeBytes(bytes)) == d.intVal;
  }

  /** Decoding the compact encoding of a valid decimal gives it back. */
  lemma DecodeCompactEncode(d: Decimal)
    requires Valid(d)
    ensures Decode(Encoding(d, true)) == d
  {
    var k := KeptBytes(d);
    if k <= 2 && d.scale == 0 && !d.negative {
      KeptBytesValue(d);
      var kept := IntBytes(d)[..k];
      if k == 2 {
        assert kept[1..] == [kept[1]];
      }
    } else {
      DecodeEncode(d);
    }
  }
}
