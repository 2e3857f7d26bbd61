// Bytes and fixed-width words of the frame buffers, the two byte orders in
// which the stack reads and writes them, and in-place field writes.
// On the AVR a uint16_t in memory is little-endian; protocol fields are in
// network order (big-endian), converted with be16_to_cpu / cpu_to_be16.
module Bytes {
  import Bits

  /** uint8_t. */
  type Byte = x: int | 0 <= x < 0x100

  /** uint16_t. */
  type U16 = x: int | 0 <= x < 0x1_0000

  /** uint32_t. */
  type U32 = x: int | 0 <= x < 0x1_0000_0000

  /** int8_t, the type of the generate functions' offsets, negative for
      "an ARP request was written instead". */
  type Int8 = x: int | -0x80 <= x < 0x80

  /** int16_t and int32_t. */
  type Int16 = x: int | -0x8000 <= x < 0x8000
  type Int32 = x: int | -0x8000_0000 <= x < 0x8000_0000

  /** Conversion of an int to int8_t: two's-complement wrap-around. */
  function ToInt8(x: int): (r: Int8)
    ensures r % 0x100 == x % 0x100
    ensures -0x80 <= x < 0x80 ==> r == x
  {
    (x + 0x80) % 0x100 - 0x80
  }

  /** be16_to_cpu of the two bytes at i: the first byte is the high one. */
  function Be16(s: seq<Byte>, i: nat): (v: U16)
    requires i + 2 <= |s|
    ensures v / 0x100 == s[i] && v % 0x100 == s[i + 1]
  {
    s[i] as int * 0x100 + s[i + 1]
  }

  /** cpu_to_be16: the two bytes of v in network order. */
  function Be16Bytes(v: U16): (b: seq<Byte>)
    ensures |b| == 2 && Be16(b, 0) == v
  {
    [v / 0x100, v % 0x100]
  }

  /** Reading a big-endian word and writing it back gives the same bytes. */
  lemma Be16Bytes16(s: seq<Byte>, i: nat)
    requires i + 2 <= |s|
    ensures Be16Bytes(Be16(s, i)) == s[i..i + 2]
  {
  }

  /** be32_to_cpu of the four bytes at i. */
  function Be32(s: seq<Byte>, i: nat): (v: U32)
    requires i + 4 <= |s|
    ensures v / 0x100_0000 == s[i] && v % 0x100 == s[i + 3]
    ensures v == Be16(s, i) * 0x1_0000 + Be16(s, i + 2)
  {
    s[i] as int * 0x100_0000 + s[i + 1] as int * 0x1_0000 + s[i + 2] as int * 0x100 + s[i + 3]
  }

  /** cpu_to_be32: the four bytes of v in network order. */
  function Be32Bytes(v: U32): (b: seq<Byte>)
    ensures |b| == 4 && Be32(b, 0) == v
  {
    Be16Bytes(v / 0x1_0000) + Be16Bytes(v % 0x1_0000)
  }

  /** Reading a big-endian 32-bit word and writing it back gives the same bytes. */
  lemma Be32Bytes32(s: seq<Byte>, i: nat)
    requires i + 4 <= |s|
    ensures Be32Bytes(Be32(s, i)) == s[i..i + 4]
  {
    Bits.DivModUnique(Be32(s, i), 0x1_0000, Be16(s, i), Be16(s, i + 2));
    Be16Bytes16(s, i);
    Be16Bytes16(s, i + 2);
  }

  /** The uint16_t that the little-endian CPU reads from the two bytes at i. */
  function Le16(s: seq<Byte>, i: nat): (v: U16)
    requires i + 2 <= |s|
    ensures v % 0x100 == s[i] && v / 0x100 == s[i + 1]
  {
    s[i] as int + 0x100 * s[i + 1] as int
  }

  /** The bytes a uint16_t store of v writes, low byte first. */
  function Le16Bytes(v: U16): (b: seq<Byte>)
    ensures |b| == 2 && Le16(b, 0) == v
  {
    [v % 0x100, v / 0x100]
  }

  /** `|` of two bytes. */
  function OrByte(x: Byte, y: Byte): (r: Byte)
    ensures x <= r && y <= r
  {
    Bits.Pow2Byte();
    Bits.OrBound(x, y, 8);
    Bits.Or(x, y)
  }

  /** Masking with 0xFF keeps a byte; masking with 0 clears it. */
  lemma AndFull(x: Byte)
    ensures Bits.And(x, 0xFF) == x && Bits.And(x, 0) == 0
  {
    Bits.AndByteMask(x);
    Bits.DivModUnique(x, 0x100, 0, x);
  }

  /** Or-ing 0xFF sets every bit; or-ing 0 keeps a byte. */
  lemma OrFull(x: Byte)
    ensures OrByte(x, 0xFF) == 0xFF && OrByte(x, 0) == x
  {
  }

  /** s with the bytes from off on replaced by w: a field write into a buffer. */
  function Splice(s: seq<Byte>, off: nat, w: seq<Byte>): (r: seq<Byte>)
    requires off + |w| <= |s|
    ensures |r| == |s|
    ensures forall i :: 0 <= i < |s| ==> r[i] == if off <= i < off + |w| then w[i - off] else s[i]
  {
    s[..off] + w + s[off + |w|..]
  }

  /** A field just written reads back as written. */
  lemma SpliceRead(s: seq<Byte>, off: nat, w: seq<Byte>)
    requires off + |w| <= |s|
    ensures Splice(s, off, w)[off..off + |w|] == w
  {
  }

  /** A field write leaves the bytes outside the field as they were. */
  lemma SpliceOutside(s: seq<Byte>, off: nat, w: seq<Byte>, a: nat, b: nat)
    requires off + |w| <= |s| && a <= b <= |s| && (b <= off || off + |w| <= a)
    ensures Splice(s, off, w)[a..b] == s[a..b]
  {
  }

  /** Two adjacent field writes are one write of both fields. */
  lemma SpliceAdjacent(s: seq<Byte>, off: nat, w1: seq<Byte>, w2: seq<Byte>)
    requires off + |w1| + |w2| <= |s|
    ensures Splice(Splice(s, off, w1), off + |w1|, w2) == Splice(s, off, w1 + w2)
  {
  }

  /** Writing the bytes a buffer already holds changes nothing. */
  lemma SpliceSame(s: seq<Byte>, off: nat, n: nat)
    requires off + n <= |s|
    ensures Splice(s, off, s[off..off + n]) == s
  {
  }

  /** A write inside a region just written is a write into that region's bytes. */
  lemma SpliceNested(s: seq<Byte>, off: nat, u: seq<Byte>, p: nat, w: seq<Byte>)
    requires off + |u| <= |s| && p + |w| <= |u|
    ensures Splice(Splice(s, off, u), off + p, w) == Splice(s, off, Splice(u, p, w))
  {
  }

  /** Stores w into a at off, byte by byte. */
  method Store(a: array<Byte>, off: nat, w: seq<Byte>)
    requires off + |w| <= a.Length
    modifies a
    ensures a[..] == Splice(old(a[..]), off, w)
  {
    for k := 0 to |w|
      invariant forall i :: 0 <= i < a.Length ==>
                  a[i] == if off <= i < off + k then w[i - off] else old(a[i])
    {
      a[off + k] := w[k];
    }
  }
}
