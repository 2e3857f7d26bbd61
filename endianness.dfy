// endianness.h: packing bytes into the little-endian words that hold
// network-order (big-endian) fields on the AVR.
module Endianness {

  /** ByteToBE16(a, b) = a | b << 8: on a little-endian target, a is the byte at the lower address. */
  function ByteToBE16(a: bv8, b: bv8): (r: bv16)
    ensures (r & 0xFF) as bv8 == a && (r >> 8) as bv8 == b
  {
    (a as bv16) | ((b as bv16) << 8)
  }

  /** ByteToBE32(a, b, c, d) = a | b << 8 | c << 16 | d << 24. */
  function ByteToBE32(a: bv8, b: bv8, c: bv8, d: bv8): (r: bv32)
    ensures (r & 0xFF) as bv8 == a && ((r >> 8) & 0xFF) as bv8 == b
    ensures ((r >> 16) & 0xFF) as bv8 == c && (r >> 24) as bv8 == d
  {
    (a as bv32) | ((b as bv32) << 8) | ((c as bv32) << 16) | ((d as bv32) << 24)
  }

  /** BE32ToBE16(x) = x >> 16: the word made of the upper two bytes. */
  function BE32ToBE16(be32: bv32): (r: bv16)
    ensures r as bv32 == be32 >> 16
  {
    (be32 >> 16) as bv16
  }

  /** BE32ToBE8(x) = x >> 24: the upper byte. */
  function BE32ToBE8(be32: bv32): (r: bv8)
    ensures r as bv32 == be32 >> 24
  {
    (be32 >> 24) as bv8
  }

  /** The upper byte of a packed 32-bit value is its fourth byte. */
  lemma BE8OfBE32(a: bv8, b: bv8, c: bv8, d: bv8)
    ensures BE32ToBE8(ByteToBE32(a, b, c, d)) == d
  {
  }

  /** The upper word of a packed 32-bit value packs its third and fourth bytes. */
  lemma BE16OfBE32(a: bv8, b: bv8, c: bv8, d: bv8)
    ensures BE32ToBE16(ByteToBE32(a, b, c, d)) == ByteToBE16(c, d)
  {
  }

  /** A 16-bit word is determined by its two bytes. */
  lemma BytesDetermine16(x: bv16, y: bv16)
    requires (x & 0xFF) as bv8 == (y & 0xFF) as bv8 && (x >> 8) as bv8 == (y >> 8) as bv8
    ensures x == y
  {
  }
}

// c++/endianness.h: big-endian composition of bytes and the ByteSwap wrapper
// that stores a value in the opposite byte order.
module ByteSwapping {

  /** FromBytes(a, b) = a << 8 | b. */
  function FromBytes2(a: bv8, b: bv8): (r: bv16)
    ensures (r >> 8) as bv8 == a && (r & 0xFF) as bv8 == b
  {
    ((a as bv16) << 8) | (b as bv16)
  }

  /** FromBytes(a, b, c, d) = a << 24 | b << 16 | c << 8 | d. */
  function FromBytes4(a: bv8, b: bv8, c: bv8, d: bv8): (r: bv32)
    ensures (r >> 24) as bv8 == a && ((r >> 16) & 0xFF) as bv8 == b
    ensures ((r >> 8) & 0xFF) as bv8 == c && (r & 0xFF) as bv8 == d
  {
    ((a as bv32) << 24) | ((b as bv32) << 16) | ((c as bv32) << 8) | (d as bv32)
  }

  /** The eight-byte FromBytes with every argument unsigned: the first argument is the most
      significant byte, the last one the least significant. */
  function FromBytes8(a: bv8, b: bv8, c: bv8, d: bv8, e: bv8, f: bv8, g: bv8, h: bv8): (r: bv64)
    ensures (r >> 56) as bv8 == a && ((r >> 48) & 0xFF) as bv8 == b
    ensures ((r >> 40) & 0xFF) as bv8 == c && ((r >> 32) & 0xFF) as bv8 == d
    ensures ((r >> 24) & 0xFF) as bv8 == e && ((r >> 16) & 0xFF) as bv8 == f
    ensures ((r >> 8) & 0xFF) as bv8 == g && (r & 0xFF) as bv8 == h
  {
    ((a as bv64) << 56) | ((b as bv64) << 48) | ((c as bv64) << 40) | ((d as bv64) << 32)
    | ((e as bv64) << 24) | ((f as bv64) << 16) | ((g as bv64) << 8) | (h as bv64)
  }

  /** (uint64_t)e for an int8_t e given by its bit pattern: a negative e (bit 7 set) is sign
      extended, so bits 8 to 63 are set as well. */
  function SignExtend8(e: bv8): (r: bv64)
    ensures r & 0xFF == e as bv64
    ensures e < 0x80 ==> r == e as bv64
    ensures e >= 0x80 ==> r >> 8 == 0xFF_FFFF_FFFF_FFFF
  {
    if e < 0x80 then e as bv64 else (e as bv64) | 0xFFFF_FFFF_FFFF_FF00
  }

  /** The eight-byte FromBytes as declared, with e an int8_t. */
  function FromBytes8AsWritten(a: bv8, b: bv8, c: bv8, d: bv8, e: bv8, f: bv8, g: bv8, h: bv8): (r: bv64)
    ensures e < 0x80 ==> r == FromBytes8(a, b, c, d, e, f, g, h)
    ensures e >= 0x80 ==> r == FromBytes8(a, b, c, d, e, f, g, h) | 0xFFFF_FFFF_0000_0000
  {
    ((a as bv64) << 56) | ((b as bv64) << 48) | ((c as bv64) << 40) | ((d as bv64) << 32)
    | (SignExtend8(e) << 24) | ((f as bv64) << 16) | ((g as bv64) << 8) | (h as bv64)
  }

  /** With the fifth byte 0x80 the declared FromBytes sets the four upper bytes. */
  lemma FromBytes8SignExtends()
    ensures FromBytes8AsWritten(0, 0, 0, 0, 0x80, 0, 0, 0) == 0xFFFF_FFFF_8000_0000
    ensures FromBytes8(0, 0, 0, 0, 0x80, 0, 0, 0) == 0x8000_0000
  {
  }

  /** __builtin_bswap16. */
  function Swap16(v: bv16): bv16
  {
    (v << 8) | (v >> 8)
  }

  /** __builtin_bswap32. */
  function Swap32(v: bv32): bv32
  {
    ((v & 0xFF) << 24) | (((v >> 8) & 0xFF) << 16) | (((v >> 16) & 0xFF) << 8) | (v >> 24)
  }

  /** __builtin_bswap64. */
  function Swap64(v: bv64): bv64
  {
    ((v & 0xFF) << 56) | (((v >> 8) & 0xFF) << 48) | (((v >> 16) & 0xFF) << 40)
    | (((v >> 24) & 0xFF) << 32) | (((v >> 32) & 0xFF) << 24) | (((v >> 40) & 0xFF) << 16)
    | (((v >> 48) & 0xFF) << 8) | (v >> 56)
  }

  /** The integer held by two bytes of memory, the lower address first (little-endian). */
  function Load16(s: seq<bv8>): bv16
    requires |s| == 2
  {
    (s[0] as bv16) | ((s[1] as bv16) << 8)
  }

  /** The integer held by four bytes of memory. */
  function Load32(s: seq<bv8>): bv32
    requires |s| == 4
  {
    (s[0] as bv32) | ((s[1] as bv32) << 8) | ((s[2] as bv32) << 16) | ((s[3] as bv32) << 24)
  }

  /** The integer held by eight bytes of memory. */
  function Load64(s: seq<bv8>): bv64
    requires |s| == 8
  {
    (s[0] as bv64) | ((s[1] as bv64) << 8) | ((s[2] as bv64) << 16) | ((s[3] as bv64) << 24)
    | ((s[4] as bv64) << 32) | ((s[5] as bv64) << 40) | ((s[6] as bv64) << 48) | ((s[7] as bv64) << 56)
  }

  /** The sizes a ByteSwap basetype may have (the static_assert in byteswap). */
  predicate IsBaseSize(n: nat)
  {
    n == 1 || n == 2 || n == 4 || n == 8
  }

  /** byteswap on a value given by its bytes in memory: the bytes in the opposite order. */
  function Byteswap(b: seq<bv8>): (r: seq<bv8>)
    ensures |r| == |b|
    ensures forall i :: 0 <= i < |b| ==> r[i] == b[|b| - 1 - i]
  {
    seq(|b|, i requires 0 <= i < |b| => b[|b| - 1 - i])
  }

  /** byteswap of a two-byte value is __builtin_bswap16 of the integer it holds. */
  lemma Byteswap16(s: seq<bv8>)
    requires |s| == 2
    ensures Load16(Byteswap(s)) == Swap16(Load16(s))
  {
  }

  /** byteswap of a four-byte value is __builtin_bswap32 of the integer it holds. */
  lemma Byteswap32(s: seq<bv8>)
    requires |s| == 4
    ensures Load32(Byteswap(s)) == Swap32(Load32(s))
  {
  }

  /** byteswap of an eight-byte value is __builtin_bswap64 of the integer it holds. */
  lemma Byteswap64(s: seq<bv8>)
    requires |s| == 8
    ensures Load64(Byteswap(s)) == Swap64(Load64(s))
  {
  }

  /** byteswap is an involution: swapping twice gives the value back. */
  lemma ByteswapTwice(b: seq<bv8>)
    ensures Byteswap(Byteswap(b)) == b
  {
    var r := Byteswap(Byteswap(b));
    assert forall i :: 0 <= i < |b| ==> r[i] == b[i];
  }

  /** byteswap is one to one, so comparing stored values compares the original values. */
  lemma ByteswapInjective(u: seq<bv8>, v: seq<bv8>)
    ensures Byteswap(u) == Byteswap(v) <==> u == v
  {
    if Byteswap(u) == Byteswap(v) {
      ByteswapTwice(u);
      ByteswapTwice(v);
    }
  }

  /** The three compound assignment operators of ByteSwap. */
  datatype BitOp = And | Or | Xor

  /** A bitwise operator on one byte. */
  function ApplyByte(op: BitOp, x: bv8, y: bv8): bv8
  {
    match op
    case And => x & y
    case Or => x | y
    case Xor => x ^ y
  }

  /** `&`, `|` and `^` on two values of the same type: every bit, so every byte, on its own. */
  function Bitwise(op: BitOp, u: seq<bv8>, v: seq<bv8>): (r: seq<bv8>)
    requires |u| == |v|
    ensures |r| == |u|
    ensures forall i :: 0 <= i < |u| ==> r[i] == ApplyByte(op, u[i], v[i])
  {
    seq(|u|, i requires 0 <= i < |u| => ApplyByte(op, u[i], v[i]))
  }

  /** `~` on a value: every byte complemented. */
  function Complement(u: seq<bv8>): (r: seq<bv8>)
    ensures |r| == |u|
    ensures forall i :: 0 <= i < |u| ==> r[i] == !u[i]
  {
    seq(|u|, i requires 0 <= i < |u| => !u[i])
  }

  /** On the integer a four-byte value holds, the bytewise `&` is C's `&`. */
  lemma And32(u: seq<bv8>, v: seq<bv8>)
    requires |u| == 4 && |v| == 4
    ensures Load32(Bitwise(And, u, v)) == Load32(u) & Load32(v)
  {
    var r := Bitwise(And, u, v);
    assert r[0] == u[0] & v[0] && r[1] == u[1] & v[1];
    assert r[2] == u[2] & v[2] && r[3] == u[3] & v[3];
  }

  /** The same for `|`. */
  lemma Or32(u: seq<bv8>, v: seq<bv8>)
    requires |u| == 4 && |v| == 4
    ensures Load32(Bitwise(Or, u, v)) == Load32(u) | Load32(v)
  {
    var r := Bitwise(Or, u, v);
    assert r[0] == u[0] | v[0] && r[1] == u[1] | v[1];
    assert r[2] == u[2] | v[2] && r[3] == u[3] | v[3];
  }

  /** The same for `^`. */
  lemma Xor32(u: seq<bv8>, v: seq<bv8>)
    requires |u| == 4 && |v| == 4
    ensures Load32(Bitwise(Xor, u, v)) == Load32(u) ^ Load32(v)
  {
    var r := Bitwise(Xor, u, v);
    assert r[0] == u[0] ^ v[0] && r[1] == u[1] ^ v[1];
    assert r[2] == u[2] ^ v[2] && r[3] == u[3] ^ v[3];
  }

  /** On the integer a four-byte value holds, the bytewise complement is C's `~`. */
  lemma Complement32(u: seq<bv8>)
    requires |u| == 4
    ensures Load32(Complement(u)) == !Load32(u)
  {
  }

  /** The bitwise operators work byte by byte, so they commute with byteswap. */
  lemma ByteswapBitwise(op: BitOp, u: seq<bv8>, v: seq<bv8>)
    requires |u| == |v|
    ensures Byteswap(Bitwise(op, u, v)) == Bitwise(op, Byteswap(u), Byteswap(v))
  {
  }

  /** `~` commutes with byteswap. */
  lemma ByteswapComplement(u: seq<bv8>)
    ensures Byteswap(Complement(u)) == Complement(Byteswap(u))
  {
  }

  /**
   * ByteSwap<basetype>: holds a value in the opposite byte order. The field is the stored
   * (swapped) representation, as bytes in memory; conversion back to the basetype swaps again.
   */
  class ByteSwap {
    const size: nat
    var value: seq<bv8>

    ghost predicate Valid()
      reads this
    {
      IsBaseSize(size) && |value| == size
    }

    /** explicit ByteSwap(basetype value): stores byteswap(value). */
    constructor (v: seq<bv8>)
      requires IsBaseSize(|v|)
      ensures Valid() && size == |v| && value == Byteswap(v)
      ensures Get() == v
    {
      size := |v|;
      value := Byteswap(v);
      ByteswapTwice(v);
    }

    /** operator targettype(): the original value, byteswap of the stored one. */
    function Get(): (v: seq<bv8>)
      requires Valid()
      reads this
      ensures |v| == size && Byteswap(v) == value
    {
      ByteswapTwice(value);
      Byteswap(value)
    }

    /** operator== compares the stored values; it agrees with == on the original values. */
    predicate Equals(other: ByteSwap)
      requires Valid() && other.Valid() && other.size == size
      reads this, other
      ensures Equals(other) <==> Get() == other.Get()
    {
      ByteswapInjective(Get(), other.Get());
      value == other.value
    }

    /** operator!= is the negation of operator==. */
    predicate NotEquals(other: ByteSwap)
      requires Valid() && other.Valid() && other.size == size
      reads this, other
      ensures NotEquals(other) <==> Get() != other.Get()
    {
      !Equals(other)
    }

    /** operator&=: and on the stored values is and on the original values. */
    method AndAssign(other: ByteSwap)
      requires Valid() && other.Valid() && other.size == size
      modifies this
      ensures Valid() && value == Bitwise(And, old(value), old(other.value))
      ensures Get() == Bitwise(And, old(Get()), old(other.Get()))
    {
      ByteswapBitwise(And, Get(), other.Get());
      value := Bitwise(And, value, other.value);
    }

    /** operator|=. */
    method OrAssign(other: ByteSwap)
      requires Valid() && other.Valid() && other.size == size
      modifies this
      ensures Valid() && value == Bitwise(Or, old(value), old(other.value))
      ensures Get() == Bitwise(Or, old(Get()), old(other.Get()))
    {
      ByteswapBitwise(Or, Get(), other.Get());
      value := Bitwise(Or, value, other.value);
    }

    /** operator^=. */
    method XorAssign(other: ByteSwap)
      requires Valid() && other.Valid() && other.size == size
      modifies this
      ensures Valid() && value == Bitwise(Xor, old(value), old(other.value))
      ensures Get() == Bitwise(Xor, old(Get()), old(other.Get()))
    {
      ByteswapBitwise(Xor, Get(), other.Get());
      value := Bitwise(Xor, value, other.value);
    }
  }

  /** operator~ on a ByteSwap passed by value: the complement of the stored value is the
      stored form of the complement of the original value. */
  function NotSwapped(stored: seq<bv8>): (r: seq<bv8>)
    ensures Byteswap(r) == Complement(Byteswap(stored))
  {
    ByteswapComplement(Byteswap(stored));
    ByteswapTwice(stored);
    Complement(stored)
  }

  /** operator&, operator| and operator^ on ByteSwap values passed by value: the operation
      on the stored values yields the stored form of the operation on the original values. */
  function BitwiseSwapped(op: BitOp, l: seq<bv8>, r: seq<bv8>): (s: seq<bv8>)
    requires |l| == |r|
    ensures Byteswap(s) == Bitwise(op, Byteswap(l), Byteswap(r))
  {
    ByteswapBitwise(op, l, r);
    Bitwise(op, l, r)
  }
}
