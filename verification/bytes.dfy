/** Bytes and the fixed-width integers of the wire format: uint16/uint32
    values and their big-endian (network order) encodings as produced by
    htons/htonl and read back by ntohs/ntohl, plus two's-complement
    reinterpretation for the signed fields. */
module Bytes {

  newtype byte = x: int | 0 <= x < 256

  const TWO_8: nat := 0x100
  const TWO_15: nat := 0x8000
  const TWO_16: nat := 0x1_0000
  const TWO_24: nat := 0x100_0000
  const TWO_31: nat := 0x8000_0000
  const TWO_32: nat := 0x1_0000_0000
  const TWO_63: nat := 0x8000_0000_0000_0000
  const TWO_64: nat := 0x1_0000_0000_0000_0000

  type uint16 = x: int | 0 <= x < 0x1_0000
  type uint32 = x: int | 0 <= x < 0x1_0000_0000
  type int16 = x: int | -0x8000 <= x < 0x8000
  type int32 = x: int | -0x8000_0000 <= x < 0x8000_0000
  type uint64 = x: int | 0 <= x < 0x1_0000_0000_0000_0000

  /** htonl: most significant byte first. */
  function EncodeU32(x: uint32): (r: seq<byte>)
    ensures |r| == 4
  {
    [(x / 0x100_0000) as byte, (x / 0x1_0000 % 0x100) as byte,
     (x / 0x100 % 0x100) as byte, (x % 0x100) as byte]
  }

  /** ntohl. */
  function DecodeU32(s: seq<byte>): (x: uint32)
    requires |s| == 4
  {
    ((s[0] as int * 0x100 + s[1] as int) * 0x100 + s[2] as int) * 0x100 + s[3] as int
  }

  function EncodeU16(x: uint16): (r: seq<byte>)
    ensures |r| == 2
  {
    [(x / 0x100) as byte, (x % 0x100) as byte]
  }

  function DecodeU16(s: seq<byte>): (x: uint16)
    requires |s| == 2
  {
    s[0] as int * 0x100 + s[1] as int
  }

  /** Bytes read as `char`s, the way a `char*` is handed to the C library. */
  function AsText(b: seq<byte>): (s: string)
    ensures |s| == |b| && forall i :: 0 <= i < |b| ==> s[i] as int == b[i] as int
  {
    seq(|b|, i requires 0 <= i < |b| => b[i] as int as char)
  }

  predicate Narrow(s: string) {
    forall i :: 0 <= i < |s| ==> s[i] as int < 0x100
  }

  /** The bytes of a string whose characters all fit in a byte. */
  function AsBytes(s: string): (b: seq<byte>)
    requires Narrow(s)
    ensures |b| == |s| && forall i :: 0 <= i < |s| ==> b[i] as int == s[i] as int
  {
    seq(|s|, i requires 0 <= i < |s| => s[i] as int as byte)
  }

  lemma AsTextOfAsBytes(s: string)
    requires Narrow(s)
    ensures AsText(AsBytes(s)) == s
  {
  }

  /** Splitting off the low byte: `x == 256 * q + r` with `r` a byte fixes both. */
  lemma LowByte(x: int, q: int, r: int)
    requires 0 <= r < 0x100 && x == q * 0x100 + r
    ensures x / 0x100 == q && x % 0x100 == r
  {
  }

  lemma DecodeEncodeU32(x: uint32)
    ensures DecodeU32(EncodeU32(x)) == x
  {
    var q1 := x / 0x100;
    var q2 := q1 / 0x100;
    var q3 := q2 / 0x100;
    assert x == q1 * 0x100 + x % 0x100;
    assert q1 == q2 * 0x100 + q1 % 0x100;
    assert q2 == q3 * 0x100 + q2 % 0x100;
    assert x / 0x1_0000 == q2;
    assert x / 0x100_0000 == q3;
  }

  lemma EncodeDecodeU32(s: seq<byte>)
    requires |s| == 4
    ensures EncodeU32(DecodeU32(s)) == s
  {
    var a := s[0] as int * 0x100 + s[1] as int;
    var b := a * 0x100 + s[2] as int;
    var x := b * 0x100 + s[3] as int;
    LowByte(x, b, s[3] as int);
    LowByte(b, a, s[2] as int);
    LowByte(a, s[0] as int, s[1] as int);
    assert x / 0x1_0000 == a;
    assert x / 0x100_0000 == s[0] as int;
  }

  lemma DecodeEncodeU16(x: uint16)
    ensures DecodeU16(EncodeU16(x)) == x
  {
  }

  lemma EncodeDecodeU16(s: seq<byte>)
    requires |s| == 2
    ensures EncodeU16(DecodeU16(s)) == s
  {
  }

  /** A signed value as the unsigned bit pattern the C casts produce. */
  function I32ToU32(i: int32): (u: uint32)
    ensures u as int % TWO_32 == i % TWO_32
  {
    if i < 0 then i + TWO_32 else i
  }

  function U32ToI32(u: uint32): (i: int32)
    ensures i % TWO_32 == u as int % TWO_32
  {
    if u >= TWO_31 then u - TWO_32 else u
  }

  function U16ToI16(u: uint16): (i: int16)
    ensures i % TWO_16 == u as int % TWO_16
  {
    if u >= TWO_15 then u - TWO_16 else u
  }

  lemma SignedRoundTrip(i: int32)
    ensures U32ToI32(I32ToU32(i)) == i
  {
  }

  // ---------------------------------------------------------------------------
  // Bitwise operations on unsigned values, as the C code's `^`, `<<` and `>>`
  // on unsigned operands of a fixed width.

  function Pow2(k: nat): (p: nat)
    ensures p >= 1
  {
    if k == 0 then 1 else 2 * Pow2(k - 1)
  }

  /** Bitwise exclusive or of two naturals, one bit at a time from the
      least significant; the width is that of the wider operand. */
  function Xor(a: nat, b: nat): nat
    decreases a + b
  {
    if a == 0 && b == 0 then 0 else (if a % 2 == b % 2 then 0 else 1) + 2 * Xor(a / 2, b / 2)
  }

  // Arithmetic facts about halving, kept apart from the recursive definitions.

  lemma HalfOf(bit: nat, x: nat)
    requires bit < 2
    ensures (bit + 2 * x) / 2 == x && (bit + 2 * x) % 2 == bit
  {
  }

  lemma SplitLow(x: nat)
    ensures x % 2 < 2 && x == x % 2 + 2 * (x / 2)
  {
  }

  lemma HalfBelow(x: nat, p: nat)
    requires x < 2 * p
    ensures x / 2 < p
  {
  }

  /** Operands of at most `k` bits give a result of at most `k` bits. */
  lemma {:induction false} XorBound(a: nat, b: nat, k: nat)
    requires a < Pow2(k) && b < Pow2(k)
    ensures Xor(a, b) < Pow2(k)
    decreases a + b
  {
    if a + b > 0 {
      if k == 0 {
        assert false;
      } else {
        HalfBelow(a, Pow2(k - 1));
        HalfBelow(b, Pow2(k - 1));
        XorBound(a / 2, b / 2, k - 1);
      }
    }
  }

  lemma {:induction false} XorComm(a: nat, b: nat)
    ensures Xor(a, b) == Xor(b, a)
    decreases a + b
  {
    if a + b > 0 {
      XorComm(a / 2, b / 2);
    }
  }

  lemma {:induction false} XorAssoc(a: nat, b: nat, c: nat)
    ensures Xor(Xor(a, b), c) == Xor(a, Xor(b, c))
    decreases a + b + c
  {
    if a + b + c > 0 {
      var lab, lbc := Xor(a / 2, b / 2), Xor(b / 2, c / 2);
      XorHalves(a, b);
      XorHalves(b, c);
      XorHalves(Xor(a, b), c);
      XorHalves(a, Xor(b, c));
      XorAssoc(a / 2, b / 2, c / 2);
    }
  }

  /** The low bit and the remaining bits of a result, whatever the operands. */
  lemma XorHalves(a: nat, b: nat)
    ensures Xor(a, b) % 2 == (if a % 2 == b % 2 then 0 else 1)
    ensures Xor(a, b) / 2 == Xor(a / 2, b / 2)
  {
    if a != 0 || b != 0 {
      HalfOf(if a % 2 == b % 2 then 0 else 1, Xor(a / 2, b / 2));
    }
  }

  /** Zero is the identity. */
  lemma {:induction false} XorZero(a: nat)
    ensures Xor(a, 0) == a && Xor(0, a) == a
    decreases a
  {
    if a > 0 {
      XorZero(a / 2);
      SplitLow(a);
    }
  }

  /** Every value cancels itself. */
  lemma {:induction false} XorSelf(a: nat)
    ensures Xor(a, a) == 0
    decreases a
  {
    if a > 0 {
      XorSelf(a / 2);
    }
  }

  /** Only equal operands cancel. */
  lemma {:induction false} XorZeroOnlyEqual(a: nat, b: nat)
    requires Xor(a, b) == 0
    ensures a == b
    decreases a + b
  {
    if a + b > 0 {
      XorHalves(a, b);
      XorZeroOnlyEqual(a / 2, b / 2);
    }
  }

  /** Flipping the low bit of an odd value clears it. */
  lemma OddLessOne(a: nat)
    requires a % 2 == 1
    ensures Xor(a, 1) == a - 1
  {
    XorHalves(a, 1);
    XorZero(a / 2);
  }

  /** Eight more bits multiply by 256. */
  lemma Pow2Plus8(k: nat)
    ensures Pow2(k + 8) == 0x100 * Pow2(k)
  {
    assert Pow2(k + 2) == 4 * Pow2(k);
    assert Pow2(k + 4) == 4 * Pow2(k + 2);
    assert Pow2(k + 6) == 4 * Pow2(k + 4);
    assert Pow2(k + 8) == 4 * Pow2(k + 6);
  }

  lemma Pow2of32()
    ensures Pow2(32) == TWO_32
  {
    Pow2Plus8(0);
    Pow2Plus8(8);
    Pow2Plus8(16);
    Pow2Plus8(24);
  }

  lemma Pow2of64()
    ensures Pow2(64) == TWO_64
  {
    Pow2of32();
    Pow2Plus8(32);
    Pow2Plus8(40);
    Pow2Plus8(48);
    Pow2Plus8(56);
  }

  /** `a ^ b` on two uint32 operands. */
  function Xor32(a: uint32, b: uint32): (r: uint32)
  {
    Pow2of32();
    XorBound(a, b, 32);
    Xor(a, b)
  }

  /** `a ^ b` on two uint64 operands. */
  function Xor64(a: uint64, b: uint64): (r: uint64)
  {
    Pow2of64();
    XorBound(a, b, 64);
    Xor(a, b)
  }

  /** `a * b` on two uint32 operands: the product modulo 2^32. */
  function Mul32(a: uint32, b: uint32): (r: uint32)
  {
    (a * b) % TWO_32
  }
}
