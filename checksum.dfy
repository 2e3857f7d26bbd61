// The Internet checksum of RFC 1071 as the firmware computes it
// (IP_ChecksumAdd / IP_Checksum in Lib/IP.c, and their copies
// Ethernet_ChecksumAdd / Ethernet_Checksum in Lib/Ethernet.c).
// The CPU adds the buffer as little-endian 16-bit words; RFC 1071 section 2(B)
// shows that the one's-complement sum does not depend on the byte order, so
// a checksum stored back as a uint16_t is valid in network order too.
module Checksum {
  import opened Bytes
  import Bits

  /** One's-complement modulus: 2^16 - 1. */
  const Ones: nat := 0xFFFF

  /** IP_ChecksumAdd: 16-bit addition whose carry out of bit 15 is added back
      in (end-around carry), the one's-complement addition of RFC 1071. */
  function Add(c: U16, w: U16): (r: U16)
    ensures r % Ones == (c + w) % Ones
    ensures r == 0 <==> c == 0 && w == 0
  {
    if c + w >= 0x1_0000 then c + w - 0x1_0000 + 1 else c + w
  }

  /** The i-th 16-bit word the checksum loop reads, i even: two bytes read as a
      little-endian uint16_t, or a trailing odd byte masked with
      CPU_TO_BE16(0xFF00), which keeps that byte and clears the other. */
  function Word(s: seq<Byte>, i: nat): U16
    requires i < |s|
  {
    if i + 1 < |s| then Le16(s, i) else s[i]
  }

  /** The words summed over s: one per byte pair, the last one padded. */
  function Words(s: seq<Byte>): (ws: seq<U16>)
    ensures |ws| == (|s| + 1) / 2
    ensures forall k :: 0 <= k < |ws| ==> ws[k] == Word(s, 2 * k)
  {
    seq((|s| + 1) / 2, k requires 0 <= k < (|s| + 1) / 2 => Word(s, 2 * k))
  }

  /** The running value of the checksum accumulator after adding ws in order. */
  function Sum(ws: seq<U16>): U16
  {
    if ws == [] then 0 else Add(Sum(ws[..|ws| - 1]), ws[|ws| - 1])
  }

  /** The plain integer sum of ws: the reference the one's-complement sum is
      compared with. */
  function Total(ws: seq<U16>): nat
  {
    if ws == [] then 0 else Total(ws[..|ws| - 1]) + ws[|ws| - 1]
  }

  /** IP_Checksum: the complement of the one's-complement sum of the words. */
  function ChecksumOf(s: seq<Byte>): U16
  {
    Ones - Sum(Words(s))
  }

  /** A value in [1, Ones] is determined by its residue. */
  lemma ResidueInRange(x: int, t: int)
    requires 1 <= x <= Ones && t > 0 && x % Ones == t % Ones
    ensures x == (t - 1) % Ones + 1
  {
    var q := t / Ones;
    assert t == Ones * q + x % Ones;
    if x == Ones {
      assert t - 1 == Ones * (q - 1) + (Ones - 1);
    } else {
      assert t - 1 == Ones * q + (x - 1);
    }
  }

  /** The accumulator is the one's-complement value of the integer sum: zero
      only for an all-zero input, otherwise the integer sum folded into
      [1, 0xFFFF]. */
  lemma {:induction false} SumClosedForm(ws: seq<U16>)
    ensures Sum(ws) == if Total(ws) == 0 then 0 else (Total(ws) - 1) % Ones + 1
  {
    if ws != [] {
      var init, w := ws[..|ws| - 1], ws[|ws| - 1];
      SumClosedForm(init);
      var s, t := Sum(init), Total(init);
      if t > 0 {
        Bits.ModAdd(t - 1, w + 1, Ones);
      }
      if t + w > 0 {
        assert (s + w) % Ones == (t + w) % Ones;
        ResidueInRange(Add(s, w), t + w);
      }
    }
  }

  /** Replacing one word changes the integer sum by the difference. */
  lemma {:induction false} TotalUpdate(ws: seq<U16>, i: nat, v: U16)
    requires i < |ws|
    ensures Total(ws[i := v]) == Total(ws) - ws[i] + v
  {
    var n := |ws| - 1;
    var ws' := ws[i := v];
    assert ws'[..n] == if i == n then ws[..n] else ws[..n][i := v];
    if i < n {
      TotalUpdate(ws[..n], i, v);
    }
  }

  /** A buffer checks out (recomputing IP_Checksum over it gives 0) iff its
      integer word sum is a non-zero multiple of 0xFFFF. */
  lemma ValidIff(s: seq<Byte>)
    ensures ChecksumOf(s) == 0 <==> Total(Words(s)) > 0 && Total(Words(s)) % Ones == 0
  {
    var t := Total(Words(s));
    SumClosedForm(Words(s));
    if t > 0 {
      var d, r := (t - 1) / Ones, (t - 1) % Ones;
      assert t == Ones * d + r + 1;
      if r == Ones - 1 {
        assert Ones * d + Ones == Ones * (d + 1);
        Bits.DivModUnique(t, Ones, d + 1, 0);
      } else {
        Bits.DivModUnique(t, Ones, d, r + 1);
      }
    }
  }

  /** Storing a uint16_t at an even offset replaces exactly one word. */
  lemma StoreWord(s: seq<Byte>, p: nat, v: U16)
    requires p % 2 == 0 && p + 2 <= |s|
    ensures Words(Splice(s, p, Le16Bytes(v))) == Words(s)[p / 2 := v]
  {
    var s' := Splice(s, p, Le16Bytes(v));
    forall k | 0 <= k < |Words(s)|
      ensures Words(s')[k] == Words(s)[p / 2 := v][k]
    {
      if 2 * k == p {
        assert Le16(s', p) == v;
      } else if 2 * k < p {
        assert s'[2 * k] == s[2 * k] && s'[2 * k + 1] == s[2 * k + 1];
      } else {
        assert s'[2 * k] == s[2 * k];
        if 2 * k + 1 < |s| {
          assert s'[2 * k + 1] == s[2 * k + 1];
        }
      }
    }
  }

  /** RFC 1071 section 1(2): with the checksum field zeroed, storing the
      computed checksum in it makes the checksum over the whole buffer 0.
      This is how IP_WriteHeader seals an IP header. */
  lemma Seal(s: seq<Byte>, p: nat)
    requires p % 2 == 0 && p + 2 <= |s| && s[p] == 0 && s[p + 1] == 0
    ensures ChecksumOf(Splice(s, p, Le16Bytes(ChecksumOf(s)))) == 0
  {
    var ws, c := Words(s), ChecksumOf(s);
    assert ws[p / 2] == 0;
    StoreWord(s, p, c);
    TotalUpdate(ws, p / 2, c);
    SumClosedForm(ws);
    var t, t2 := Total(ws), Total(ws[p / 2 := c]);
    var q := if t == 0 then 1 else (t - 1) / Ones + 1;
    assert t2 == t + c;
    if t > 0 {
      var d, r := (t - 1) / Ones, (t - 1) % Ones;
      assert t - 1 == Ones * d + r && c == Ones - r - 1;
      assert Ones * d + Ones == Ones * q;
    }
    assert t2 == Ones * q;
    Bits.DivModUnique(t2, Ones, q, 0);
    ValidIff(Splice(s, p, Le16Bytes(c)));
  }

  /** Lowering the word at 0 by d and one's-complement adding d to the
      checksum word at 1 keeps a valid checksum valid (RFC 1624): the update
      ICMP_ProcessPacket makes when it turns an echo request into a reply. */
  lemma Adjust(ws: seq<U16>, d: U16)
    requires |ws| >= 2 && ws[0] >= d && Total(ws) > 0 && Total(ws) % Ones == 0
    ensures Total(ws[0 := ws[0] - d][1 := Add(ws[1], d)]) > 0
    ensures Total(ws[0 := ws[0] - d][1 := Add(ws[1], d)]) % Ones == 0
  {
    var ws1 := ws[0 := ws[0] - d];
    TotalUpdate(ws, 0, ws[0] - d);
    TotalUpdate(ws1, 1, Add(ws[1], d));
    var ws2 := ws1[1 := Add(ws[1], d)];
    assert Total(ws2) == Total(ws) - d - ws[1] + Add(ws[1], d);
    if Total(ws2) == 0 {
      TotalAtLeast(ws2, 1);
    }
  }

  /** Every word is at most the integer sum. */
  lemma {:induction false} TotalAtLeast(ws: seq<U16>, i: nat)
    requires i < |ws|
    ensures ws[i] <= Total(ws)
  {
    if i < |ws| - 1 {
      TotalAtLeast(ws[..|ws| - 1], i);
    }
  }

  /** IP_Checksum over length bytes at off: adds length / 2 words, then a
      trailing odd byte, and returns the complement of the sum. */
  method Compute(a: array<Byte>, off: nat, length: U16) returns (r: U16)
    requires off + length <= a.Length
    ensures r == ChecksumOf(a[off..off + length])
  {
    ghost var s := a[off..off + length];
    var length16 := length / 2;
    var c: U16 := 0;
    var i := 0;
    while i < length16
      invariant 0 <= i <= length16
      invariant c == Sum(Words(s)[..i])
    {
      assert Words(s)[..i + 1][..i] == Words(s)[..i];
      assert Le16(a[..], off + 2 * i) == Word(s, 2 * i);
      c := Add(c, Le16(a[..], off + 2 * i));
      i := i + 1;
    }
    if length % 2 == 1 {
      assert Words(s)[..i + 1][..i] == Words(s)[..i];
      assert Words(s)[..i + 1] == Words(s);
      c := Add(c, a[off + length - 1]);
    } else {
      assert Words(s)[..i] == Words(s);
    }
    r := Ones - c;
  }
}
