/**
 * The bytes of Rust's fixed-width integers in native, little-endian and
 * big-endian order (`to_ne_bytes`, `to_le_bytes`, `to_be_bytes`) and their
 * inverses. The host is taken to be little-endian with a 64-bit `usize`, so
 * native order is little-endian order. Each width is written out byte by
 * byte; a `u128` is encoded through its two 64-bit halves.
 */
module Encoding {
  import Bytes

  type byte = Bytes.byte

  /** The 2 bytes of `x`, least significant first. */
  function Le2(x: bv16): (r: seq<byte>)
    ensures |r| == 2
  {
    [(x & 0xff) as byte,
      ((x >> 8) & 0xff) as byte]
  }

  /** The number whose 2 little-endian bytes are `s`. */
  function FromLe2(s: seq<byte>): bv16
    requires |s| == 2
  {
    (s[0] as bv16) |
    ((s[1] as bv16) << 8)
  }

  lemma Le2FromLe2(s: seq<byte>)
    requires |s| == 2
    ensures Le2(FromLe2(s)) == s
  {}

  lemma FromLe2Le2(x: bv16)
    ensures FromLe2(Le2(x)) == x
  {}

  /** The 4 bytes of `x`, least significant first. */
  function Le4(x: bv32): (r: seq<byte>)
    ensures |r| == 4
  {
    [(x & 0xff) as byte,
      ((x >> 8) & 0xff) as byte,
      ((x >> 16) & 0xff) as byte,
      ((x >> 24) & 0xff) as byte]
  }

  /** The number whose 4 little-endian bytes are `s`. */
  function FromLe4(s: seq<byte>): bv32
    requires |s| == 4
  {
    (s[0] as bv32) |
    ((s[1] as bv32) << 8) |
    ((s[2] as bv32) << 16) |
    ((s[3] as bv32) << 24)
  }

  lemma Le4FromLe4(s: seq<byte>)
    requires |s| == 4
    ensures Le4(FromLe4(s)) == s
  {}

  lemma FromLe4Le4(x: bv32)
    ensures FromLe4(Le4(x)) == x
  {}

  /** The 8 bytes of `x`, least significant first. */
  function Le8(x: bv64): (r: seq<byte>)
    ensures |r| == 8
  {
    [(x & 0xff) as byte,
      ((x >> 8) & 0xff) as byte,
      ((x >> 16) & 0xff) as byte,
      ((x >> 24) & 0xff) as byte,
      ((x >> 32) & 0xff) as byte,
      ((x >> 40) & 0xff) as byte,
      ((x >> 48) & 0xff) as byte,
      ((x >> 56) & 0xff) as byte]
  }

  /** The number whose 8 little-endian bytes are `s`. */
  function FromLe8(s: seq<byte>): bv64
    requires |s| == 8
  {
    (s[0] as bv64) |
    ((s[1] as bv64) << 8) |
    ((s[2] as bv64) << 16) |
    ((s[3] as bv64) << 24) |
    ((s[4] as bv64) << 32) |
    ((s[5] as bv64) << 40) |
    ((s[6] as bv64) << 48) |
    ((s[7] as bv64) << 56)
  }

  lemma Le8FromLe8(s: seq<byte>)
    requires |s| == 8
    ensures Le8(FromLe8(s)) == s
  {}

  lemma FromLe8Le8(x: bv64)
    ensures FromLe8(Le8(x)) == x
  {}

  /** The low half of `x`. */
  function Lo64(x: bv128): bv64
  {
    (x & 0xffff_ffff_ffff_ffff) as bv64
  }

  /** The high half of `x`. */
  function Hi64(x: bv128): bv64
  {
    (x >> 64) as bv64
  }

  /** The 128-bit number with halves `lo` and `hi`. */
  function Join(lo: bv64, hi: bv64): bv128
  {
    (lo as bv128) | ((hi as bv128) << 64)
  }

  lemma JoinHalves(x: bv128)
    ensures Join(Lo64(x), Hi64(x)) == x
  {}

  lemma HalvesJoin(lo: bv64, hi: bv64)
    ensures Lo64(Join(lo, hi)) == lo && Hi64(Join(lo, hi)) == hi
  {}

  /** The 16 bytes of `x`, least significant first: those of its low half, then those of its high half. */
  function Le16(x: bv128): (r: seq<byte>)
    ensures |r| == 16
  {
    Le8(Lo64(x)) + Le8(Hi64(x))
  }

  /** The number whose 16 little-endian bytes are `s`. */
  function FromLe16(s: seq<byte>): bv128
    requires |s| == 16
  {
    Join(FromLe8(s[..8]), FromLe8(s[8..]))
  }

  lemma Le16FromLe16(s: seq<byte>)
    requires |s| == 16
    ensures Le16(FromLe16(s)) == s
  {
    HalvesJoin(FromLe8(s[..8]), FromLe8(s[8..]));
    Le8FromLe8(s[..8]);
    Le8FromLe8(s[8..]);
    assert s == s[..8] + s[8..];
  }

  lemma FromLe16Le16(x: bv128)
    ensures FromLe16(Le16(x)) == x
  {
    var s := Le16(x);
    assert s[..8] == Le8(Lo64(x)) && s[8..] == Le8(Hi64(x));
    FromLe8Le8(Lo64(x));
    FromLe8Le8(Hi64(x));
    JoinHalves(x);
  }

  /** The integer types the write methods take. */
  datatype Width = W8 | W16 | W32 | W64 | W128 | WSize

  /** The width in bytes; `usize` is 8 bytes wide on the host. */
  function Size(w: Width): (n: nat)
    ensures 1 <= n <= 16
  {
    match w
    case W8 => 1
    case W16 => 2
    case W32 => 4
    case W64 => 8
    case W128 => 16
    case WSize => 8
  }

  /**
   * A value of an unsigned integer type, one constructor per width. A value
   * `i` of the signed type of the same width is its two's-complement bit
   * pattern `i as uN`, which has the same bytes.
   */
  datatype Int = U8(u8: bv8) | U16(u16: bv16) | U32(u32: bv32) | U64(u64: bv64) | U128(u128: bv128) | Usize(usize: bv64)

  function WidthOf(x: Int): Width
  {
    match x
    case U8(_) => W8
    case U16(_) => W16
    case U32(_) => W32
    case U64(_) => W64
    case U128(_) => W128
    case Usize(_) => WSize
  }

  /** `x.to_le_bytes()`. */
  function LeBytes(x: Int): (r: seq<byte>)
    ensures |r| == Size(WidthOf(x))
  {
    match x
    case U8(v) => [v]
    case U16(v) => Le2(v)
    case U32(v) => Le4(v)
    case U64(v) => Le8(v)
    case U128(v) => Le16(v)
    case Usize(v) => Le8(v)
  }

  /** `from_le_bytes` of the type of width `w`. */
  function FromLeBytes(w: Width, s: seq<byte>): (x: Int)
    requires |s| == Size(w)
    ensures WidthOf(x) == w
  {
    match w
    case W8 => U8(s[0])
    case W16 => U16(FromLe2(s))
    case W32 => U32(FromLe4(s))
    case W64 => U64(FromLe8(s))
    case W128 => U128(FromLe16(s))
    case WSize => Usize(FromLe8(s))
  }

  /** Byte orders of `to_ne_bytes`, `to_le_bytes` and `to_be_bytes`. */
  datatype Order = Native | Little | Big

  /** `x.to_ne_bytes()`, `x.to_le_bytes()` or `x.to_be_bytes()`. */
  function ToBytes(x: Int, order: Order): (r: seq<byte>)
    ensures |r| == Size(WidthOf(x))
  {
    if order == Big then Bytes.Reverse(LeBytes(x)) else LeBytes(x)
  }

  /** `from_ne_bytes`, `from_le_bytes` or `from_be_bytes` of the type of width `w`. */
  function FromBytes(w: Width, order: Order, bytes: seq<byte>): (x: Int)
    requires |bytes| == Size(w)
    ensures WidthOf(x) == w
  {
    FromLeBytes(w, if order == Big then Bytes.Reverse(bytes) else bytes)
  }

  lemma {:induction false} FromLeLe(x: Int)
    ensures FromLeBytes(WidthOf(x), LeBytes(x)) == x
  {
    match x
    case U8(v) =>
    case U16(v) => FromLe2Le2(v);
    case U32(v) => FromLe4Le4(v);
    case U64(v) => FromLe8Le8(v);
    case U128(v) => FromLe16Le16(v);
    case Usize(v) => FromLe8Le8(v);
  }

  lemma {:induction false} LeFromLe(w: Width, s: seq<byte>)
    requires |s| == Size(w)
    ensures LeBytes(FromLeBytes(w, s)) == s
  {
    match w
    case W8 => assert s == [s[0]];
    case W16 => Le2FromLe2(s);
    case W32 => Le4FromLe4(s);
    case W64 => Le8FromLe8(s);
    case W128 => Le16FromLe16(s);
    case WSize => Le8FromLe8(s);
  }

  /** Reading back the bytes of an integer, in the same order, gives the integer. */
  lemma {:induction false} ToBytesFromBytes(x: Int, order: Order)
    ensures FromBytes(WidthOf(x), order, ToBytes(x, order)) == x
  {
    FromLeLe(x);
    if order == Big {
      Bytes.ReverseReverse(LeBytes(x));
    }
  }

  /** Writing out the integer read from some bytes, in the same order, gives those bytes. */
  lemma {:induction false} FromBytesToBytes(w: Width, order: Order, bytes: seq<byte>)
    requires |bytes| == Size(w)
    ensures ToBytes(FromBytes(w, order, bytes), order) == bytes
  {
    LeFromLe(w, if order == Big then Bytes.Reverse(bytes) else bytes);
    if order == Big {
      Bytes.ReverseReverse(bytes);
    }
  }

  /** Big-endian bytes are the little-endian ones back to front, and native order is little-endian order. */
  lemma Orders(x: Int)
    ensures ToBytes(x, Big) == Bytes.Reverse(ToBytes(x, Little))
    ensures ToBytes(x, Native) == ToBytes(x, Little)
  {}

  /** Two integers of the same width with the same bytes in the same order are equal. */
  lemma ToBytesInjective(x: Int, y: Int, order: Order)
    requires WidthOf(x) == WidthOf(y) && ToBytes(x, order) == ToBytes(y, order)
    ensures x == y
  {
    ToBytesFromBytes(x, order);
    ToBytesFromBytes(y, order);
  }
}
