/**
 * Bytes and the fixed-width little-endian integers assembled from them, as
 * `int.from_bytes(..., "little")` and `struct.unpack("<d"/"<B")` read them.
 */
module Bytes {

  type byte = b: int | 0 <= b < 0x100

  /** A 64-bit pattern: the raw content of one little-endian 8-byte double. */
  type bits64 = x: int | 0 <= x < 0x1_0000_0000_0000_0000

  /** Two's-complement 32-bit signed integers. */
  type int32 = x: int | -0x8000_0000 <= x < 0x8000_0000

  type uint16 = x: int | 0 <= x < 0x1_0000

  type uint8 = x: int | 0 <= x < 0x100

  /** 256 to the power n: one more than the largest n-byte unsigned value. */
  function Pow256(n: nat): (r: nat)
    ensures r > 0
  {
    if n == 0 then 1 else 256 * Pow256(n - 1)
  }

  /** `int.from_bytes(s, "little")`: s[0] is the least significant byte. */
  function LeUnsigned(s: seq<byte>): (r: nat)
    ensures r < Pow256(|s|)
  {
    if s == [] then 0 else s[0] + 256 * LeUnsigned(s[1..])
  }

  /** The n-byte little-endian representation of v modulo 256^n. */
  function LeBytes(v: nat, n: nat): (r: seq<byte>)
    ensures |r| == n
  {
    if n == 0 then [] else [v % 256] + LeBytes(v / 256, n - 1)
  }

  /** Reading back the n bytes written for a value that fits gives the value. */
  lemma {:induction false} LeUnsignedOfLeBytes(v: nat, n: nat)
    requires v < Pow256(n)
    ensures LeUnsigned(LeBytes(v, n)) == v
  {
    if n > 0 {
      LeUnsignedOfLeBytes(v / 256, n - 1);
      assert LeBytes(v, n)[1..] == LeBytes(v / 256, n - 1);
    }
  }

  /** Writing back the value read from s gives s itself. */
  lemma {:induction false} LeBytesOfLeUnsigned(s: seq<byte>)
    ensures LeBytes(LeUnsigned(s), |s|) == s
  {
    if s != [] {
      var v := LeUnsigned(s);
      LeBytesOfLeUnsigned(s[1..]);
      assert v % 256 == s[0] && v / 256 == LeUnsigned(s[1..]);
    }
  }

  /** Values below 256^n are determined by their n bytes. */
  lemma {:induction false} LeBytesInjective(a: nat, b: nat, n: nat)
    requires a < Pow256(n) && b < Pow256(n) && LeBytes(a, n) == LeBytes(b, n)
    ensures a == b
  {
    LeUnsignedOfLeBytes(a, n);
    LeUnsignedOfLeBytes(b, n);
  }

  lemma {:induction false} Pow256Widths()
    ensures Pow256(4) == 0x1_0000_0000
    ensures Pow256(8) == 0x1_0000_0000_0000_0000
  {
  }

  /** The unsigned value of an 8-byte group, the bit pattern of the double it holds. */
  function LeBits64(s: seq<byte>): (r: bits64)
    requires |s| == 8
    ensures LeBytes(r, 8) == s
  {
    Pow256Widths();
    LeBytesOfLeUnsigned(s);
    LeUnsigned(s)
  }

  /** `int.from_bytes(s, "little", signed=True)` for a 4-byte s. */
  function LeSigned32(s: seq<byte>): (r: int32)
    requires |s| == 4
    ensures r % 0x1_0000_0000 == LeUnsigned(s)
  {
    Pow256Widths();
    var u := LeUnsigned(s);
    if u < 0x8000_0000 then u else u - 0x1_0000_0000
  }

  /** The four little-endian two's-complement bytes of v. */
  function LeBytes32(v: int32): (r: seq<byte>)
    ensures |r| == 4
  {
    LeBytes(v % 0x1_0000_0000, 4)
  }

  lemma {:induction false} LeSigned32OfLeBytes32(v: int32)
    ensures LeSigned32(LeBytes32(v)) == v
  {
    Pow256Widths();
    LeUnsignedOfLeBytes(v % 0x1_0000_0000, 4);
  }

  /** Every 4 bytes are the two's-complement bytes of their signed reading. */
  lemma {:induction false} LeBytes32OfLeSigned32(s: seq<byte>)
    requires |s| == 4
    ensures LeBytes32(LeSigned32(s)) == s
  {
    LeBytesOfLeUnsigned(s);
  }

  /** NumPy's (pre-2.0) conversion of an integer to `uint16`: keep the low 16 bits. */
  function ToUint16(v: int): (r: uint16)
    ensures (r - v) % 0x1_0000 == 0
  {
    v % 0x1_0000
  }

  /** NumPy's (pre-2.0) conversion of an integer to `uint8`: keep the low 8 bits. */
  function ToUint8(v: int): (r: uint8)
    ensures (r - v) % 0x100 == 0
  {
    v % 0x100
  }

  /** Narrowing to 8 bits is narrowing the 16-bit value further. */
  lemma {:induction false} ToUint8OfToUint16(v: int)
    ensures ToUint8(v) == ToUint16(v) % 0x100
  {
    var q, t := v / 0x1_0000, v % 0x1_0000;
    assert v == 0x1_0000 * q + t;
    var a, b := t / 0x100, t % 0x100;
    assert t == 0x100 * a + b;
    assert v == 0x100 * (0x100 * q + a) + b;
  }
}
