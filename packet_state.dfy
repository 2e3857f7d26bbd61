// The 16-bit `state` word that heads every record of the packet ring:
// a 14-bit length and two flag bits (PacketBuffer.h, c++/Packet.h).
module PacketState {
  import Bits

  /** A 16-bit unsigned word (uint16_t). */
  type Word = x: int | 0 <= x < 0x1_0000

  // Flag values of the state word (PacketBuffer.c:52-56, c++/Packet.h:12-19).
  const LengthMask: Word := 0x3FFF
  const FlagsMask: Word := 0xC000
  const EndOfRing: Word := 0x0000
  const Input: Word := 0x4000
  const Output: Word := 0x8000
  const Skip: Word := 0xC000
  const StartOver: Word := 0xFFFF

  /** One of the four flag combinations of the two top bits. */
  predicate IsFlag(f: Word)
  {
    f == EndOfRing || f == Input || f == Output || f == Skip
  }

  /** operator & on states: bitwise and of the 16-bit representation. */
  function BitAnd(l: Word, r: Word): (v: Word)
    ensures v <= l && v <= r
  {
    Bits.And(l, r)
  }

  /** operator | on states: bitwise or of the 16-bit representation. */
  function BitOr(l: Word, r: Word): (v: Word)
    ensures l <= v && r <= v && v <= l + r
  {
    Bits.Pow2Values();
    Bits.OrBound(l, r, 16);
    Bits.Or(l, r)
  }

  /** Packet_getLen / Packet::getLen: the state with both flag bits masked off. */
  function GetLen(s: Word): (len: nat)
    ensures len <= 0x3FFF
    ensures len == s % 0x4000
  {
    Bits.Pow2Values();
    Bits.AndLowMask(s, 14);
    BitAnd(s, LengthMask)
  }

  /** state & Flags: the two flag bits in place. */
  function Flags(s: Word): (f: Word)
    ensures IsFlag(f)
    ensures f == s / 0x4000 * 0x4000
  {
    ShiftedAnd(s, 3);
    TwoBitAnd(s / 0x4000);
    BitAnd(s, FlagsMask)
  }

  /** (state & Input) != 0. */
  predicate HasInput(s: Word)
    ensures HasInput(s) <==> (s / 0x4000) % 2 == 1
  {
    ShiftedAnd(s, 1);
    TwoBitAnd(s / 0x4000);
    BitAnd(s, Input) != 0
  }

  /** (state & Output) != 0. */
  predicate HasOutput(s: Word)
    ensures HasOutput(s) <==> s >= 0x8000
  {
    ShiftedAnd(s, 2);
    TwoBitAnd(s / 0x4000);
    BitAnd(s, Output) != 0
  }

  /** (state & Skip) == Skip: both flag bits are set. */
  predicate IsSkip(s: Word)
    ensures IsSkip(s) <==> s >= 0xC000
  {
    ShiftedAnd(s, 3);
    TwoBitAnd(s / 0x4000);
    BitAnd(s, Skip) == Skip
  }

  /** The flag field of a word whose two flag tests are known. */
  lemma FlagsOf(s: Word)
    ensures HasInput(s) && !HasOutput(s) ==> Flags(s) == Input
    ensures HasOutput(s) && !IsSkip(s) ==> Flags(s) == Output
    ensures HasOutput(s) && !HasInput(s) ==> Flags(s) == Output
  {
    var q := s / 0x4000;
    assert q < 4;
  }

  /** s & (g << 14) in terms of the two flag bits q = s >> 14, for g < 4. */
  lemma ShiftedAnd(s: Word, g: nat)
    requires 1 <= g <= 3
    ensures Bits.And(s, g * 0x4000) == Bits.And(s / 0x4000, g) * 0x4000
  {
    Bits.Pow2Values();
    Bits.ShrIsDiv(s, 14);
    Bits.AndShifted(s, g, 14);
    ShlFlag(g);
    ShlFlag(Bits.And(s / 0x4000, g));
  }

  /** `&` on two-bit values against the masks 1, 2 and 3. */
  lemma TwoBitAnd(q: nat)
    requires q < 4
    ensures Bits.And(q, 1) == q % 2
    ensures Bits.And(q, 2) == q / 2 * 2
    ensures Bits.And(q, 3) == q
  {
    if q == 0 {
    } else if q == 1 {
      assert Bits.And(1, 2) == 0;
    } else if q == 2 {
      assert Bits.And(2, 1) == 0 && Bits.And(2, 2) == 2 && Bits.And(2, 3) == 2;
    } else {
      assert Bits.And(3, 1) == 1 && Bits.And(3, 2) == 2 && Bits.And(3, 3) == 3;
    }
  }

  /** s | f for a flag value f: the length is kept and f is or-ed into the flag bits. */
  lemma OrFlag(s: Word, f: Word)
    requires IsFlag(f)
    ensures GetLen(BitOr(s, f)) == GetLen(s)
    ensures Flags(BitOr(s, f)) == BitOr(Flags(s), f)
    ensures BitOr(s, f) == GetLen(s) + BitOr(Flags(s), f)
  {
    var q, g := s / 0x4000, f / 0x4000;
    OrFlagValue(s, f);
    OrFlagValue(Flags(s), f);
    assert Flags(s) / 0x4000 == q;
    assert GetLen(Flags(s)) == 0;
    var o := Bits.Or(q, g);
    Bits.DivModUnique(BitOr(s, f), 0x4000, o, GetLen(s));
  }

  /** s | f splits into the length of s and the or of the two-bit flag fields. */
  lemma OrFlagValue(s: Word, f: Word)
    requires IsFlag(f)
    ensures Bits.Or(s / 0x4000, f / 0x4000) < 4
    ensures BitOr(s, f) == GetLen(s) + Bits.Or(s / 0x4000, f / 0x4000) * 0x4000
  {
    Bits.Pow2Values();
    var q, g := s / 0x4000, f / 0x4000;
    assert f == g * 0x4000 && g < 4;
    assert Bits.Pow2(2) == 4;
    Bits.OrBound(q, g, 2);
    ShlFlag(g);
    ShlFlag(Bits.Or(q, g));
    Bits.OrShifted(s, g, 14);
    Bits.ShrIsDiv(s, 14);
  }

  /** g << 14 for a two-bit g. */
  lemma ShlFlag(g: nat)
    requires g < 4
    ensures Bits.Shl(g, 14) == g * 0x4000
  {
    if g == 0 { assert Bits.Shl(0, 14) == 0; }
    else if g == 1 { assert Bits.Shl(1, 14) == 0x4000; }
    else if g == 2 { assert Bits.Shl(2, 14) == 0x8000; }
    else { assert Bits.Shl(3, 14) == 0xC000; }
  }

  /** Setting a flag: on an unflagged record it adds f, Skip (or Input onto Output) yields Skip. */
  lemma SetFlag(s: Word, f: Word)
    requires IsFlag(f)
    ensures Flags(s) == EndOfRing ==> BitOr(s, f) == s + f
    ensures f == Skip ==> BitOr(s, f) == GetLen(s) + Skip
    ensures HasOutput(s) && f == Input ==> BitOr(s, f) == GetLen(s) + Skip
  {
    OrFlagValue(s, f);
    TwoBitOr(s / 0x4000, f / 0x4000);
  }

  /** `|` on two-bit values. */
  lemma TwoBitOr(q: nat, g: nat)
    requires q < 4 && g < 4
    ensures q == 0 ==> Bits.Or(q, g) == g
    ensures g == 3 ==> Bits.Or(q, g) == 3
    ensures q >= 2 && g == 1 ==> Bits.Or(q, g) == 3
  {
    if g == 3 {
      assert Bits.Or(1, 3) == 3 && Bits.Or(2, 3) == 3 && Bits.Or(3, 3) == 3;
    } else if q >= 2 && g == 1 {
      assert Bits.Or(2, 1) == 3 && Bits.Or(3, 1) == 3;
    }
  }

  /** A length below 2^14 is its own Packet_getLen. */
  lemma ShortLen(s: Word)
    requires s < 0x4000
    ensures GetLen(s) == s
  {
    Bits.DivModUnique(s, 0x4000, 0, s);
  }

  /** Packet_getLen(len | f) == len: a 14-bit length and a flag pack into one word and unpack again. */
  lemma LenOrFlag(len: nat, f: Word)
    requires len < 0x4000 && IsFlag(f)
    ensures BitOr(len, f) == len + f
    ensures GetLen(BitOr(len, f)) == len && Flags(BitOr(len, f)) == f
  {
    OrFlag(len, f);
    assert Flags(len) == 0;
    assert Bits.Or(0, f) == f;
  }

  /** Skip is Input | Output, and EndOfRing is a zero-length record with no flag. */
  lemma FlagConstants()
    ensures BitOr(Input, Output) == Skip
    ensures Flags(EndOfRing) == EndOfRing && GetLen(EndOfRing) == 0
  {
    OrFlagValue(Input, Output);
    assert GetLen(Input) == 0;
    assert Bits.Or(1, 2) == 3;
  }

  /** StartOver carries both flag bits, so every test for Skip also matches it. */
  lemma StartOverIsSkip()
    ensures Flags(StartOver) == Skip && IsSkip(StartOver)
    ensures HasInput(StartOver) && HasOutput(StartOver)
  {
  }

  /** Packet_t's alignment: that of uint32_t when it exceeds 2, else 2 (the size of the state word). */
  function PacketAlignment(uint32Align: nat): (a: nat)
    ensures a >= 2 && a >= uint32Align
    ensures a == 2 || a == uint32Align
  {
    if uint32Align > 2 then uint32Align else 2
  }
}
