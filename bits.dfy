// Bitwise operators of C (`&`, `|`, `1 << k`) on non-negative integers, as
// used by the state words, header fields and masks throughout the firmware.
module Bits {

  /** 1 << k, the value of bit k. */
  function Pow2(k: nat): (p: nat)
    ensures p >= 1
  {
    if k == 0 then 1 else 2 * Pow2(k - 1)
  }

  /** The powers of two the firmware's masks are built from. */
  lemma Pow2Values()
    ensures Pow2(8) == 0x100 && Pow2(14) == 0x4000 && Pow2(16) == 0x1_0000
    ensures Pow2(24) == 0x100_0000 && Pow2(32) == 0x1_0000_0000
  {
    assert Pow2(4) == 16;
    assert Pow2(8) == 0x100;
    assert Pow2(12) == 0x1000;
    assert Pow2(16) == 0x1_0000;
    assert Pow2(20) == 0x10_0000;
    assert Pow2(24) == 0x100_0000;
    assert Pow2(28) == 0x1000_0000;
  }

  /** 1 << 8, the size of a byte. */
  lemma Pow2Byte()
    ensures Pow2(8) == 0x100
  {
    assert Pow2(4) == 16;
  }

  /** a & b: bit i of the result is set iff bit i is set in both operands. */
  function And(a: nat, b: nat): (r: nat)
    decreases a
    ensures r <= a && r <= b
  {
    if a == 0 || b == 0 then 0
    else 2 * And(a / 2, b / 2) + (if a % 2 == 1 && b % 2 == 1 then 1 else 0)
  }

  /** a | b: bit i of the result is set iff bit i is set in either operand. */
  function Or(a: nat, b: nat): (r: nat)
    decreases a + b
    ensures a <= r && b <= r && r <= a + b
  {
    if a == 0 then b
    else if b == 0 then a
    else 2 * Or(a / 2, b / 2) + (if a % 2 == 1 || b % 2 == 1 then 1 else 0)
  }

  /** Euclidean division is unique: a quotient and remainder in range are a / d and a % d. */
  lemma DivModUnique(a: int, d: int, q: int, r: int)
    requires d > 0 && 0 <= r < d && a == d * q + r
    ensures a / d == q && a % d == r
  {
    var q0, r0 := a / d, a % d;
    assert d * q + r == d * q0 + r0;
    assert d * (q - q0) == d * q - d * q0;
    assert d * (q0 - q) == d * q0 - d * q;
    if q > q0 {
      MulAtLeast(q - q0, d);
    } else if q < q0 {
      MulAtLeast(q0 - q, d);
    }
  }

  lemma MulAtLeast(t: int, d: int)
    requires t >= 1 && d > 0
    ensures d * t >= d
  {
    assert d * t == d + d * (t - 1);
    assert d * (t - 1) >= 0;
  }

  /** Halving first and then dividing by p is dividing by 2 * p. */
  lemma HalfThenDiv(a: nat, p: nat)
    requires p >= 1
    ensures a / 2 / p == a / (2 * p)
    ensures a % (2 * p) == 2 * ((a / 2) % p) + a % 2
  {
    var h := a / 2;
    var q, r := h / p, h % p;
    assert a == 2 * h + a % 2;
    assert h == p * q + r;
    assert a == (2 * p) * q + (2 * r + a % 2);
    DivModUnique(a, 2 * p, q, 2 * r + a % 2);
  }

  /** One step of `&`: the low bits combine, the rest is shifted down. */
  lemma AndStep(a: nat, b: nat)
    requires a > 0 && b > 0
    ensures And(a, b) == 2 * And(a / 2, b / 2) + (if a % 2 == 1 && b % 2 == 1 then 1 else 0)
  {
  }

  /** a & (2^k - 1) keeps the k low bits: it is a % 2^k. */
  lemma {:induction false} AndLowMask(a: nat, k: nat)
    ensures And(a, Pow2(k) - 1) == a % Pow2(k)
  {
    if k == 0 {
      assert Pow2(k) == 1;
    } else if a == 0 {
      assert And(a, Pow2(k) - 1) == 0;
      DivModUnique(0, Pow2(k), 0, 0);
    } else {
      var p, P := Pow2(k - 1), Pow2(k);
      var m := P - 1;
      assert P == 2 * p && m == 2 * p - 1;
      assert m / 2 == p - 1 && m % 2 == 1;
      var h := a / 2;
      AndStep(a, m);
      AndLowMask(h, k - 1);
      assert And(a, m) == 2 * (h % p) + a % 2;
      HalfThenDiv(a, p);
      assert a % P == 2 * (h % p) + a % 2;
    }
  }

  /** a & 0xFF is the low byte of a. */
  lemma AndByteMask(a: nat)
    ensures And(a, 0xFF) == a % 0x100
  {
    Pow2Byte();
    AndLowMask(a, 8);
  }

  /** a & (1 << k) is 1 << k when bit k of a is set, and 0 otherwise. */
  lemma {:induction false} AndSingleBit(a: nat, k: nat)
    ensures And(a, Pow2(k)) == if (a / Pow2(k)) % 2 == 1 then Pow2(k) else 0
  {
    if a == 0 {
      assert And(a, Pow2(k)) == 0;
    } else if k == 0 {
      assert Pow2(k) == 1;
      AndStep(a, 1);
      assert And(a / 2, 0) == 0;
    } else {
      var p := Pow2(k - 1);
      assert Pow2(k) == 2 * p;
      AndStep(a, 2 * p);
      assert (2 * p) / 2 == p && (2 * p) % 2 == 0;
      assert And(a, 2 * p) == 2 * And(a / 2, p);
      AndSingleBit(a / 2, k - 1);
      HalfThenDiv(a, p);
      assert a / 2 / p == a / (2 * p);
    }
  }

  /** f << k. */
  function Shl(f: nat, k: nat): (r: nat)
    ensures f > 0 <==> r > 0
  {
    if k == 0 then f else 2 * Shl(f, k - 1)
  }

  /** a >> k. */
  function Shr(a: nat, k: nat): (r: nat)
    ensures r <= a
  {
    if k == 0 then a else Shr(a / 2, k - 1)
  }

  /** a >> k is a / 2^k. */
  lemma {:induction false} ShrIsDiv(a: nat, k: nat)
    ensures Shr(a, k) == a / Pow2(k)
  {
    if k > 0 {
      ShrIsDiv(a / 2, k - 1);
      HalfThenDiv(a, Pow2(k - 1));
    }
  }

  /** a & (f << k) is ((a >> k) & f) << k. */
  lemma {:induction false} AndShifted(a: nat, f: nat, k: nat)
    ensures And(a, Shl(f, k)) == Shl(And(Shr(a, k), f), k)
  {
    if k > 0 {
      AndShifted(a / 2, f, k - 1);
      var h := Shl(f, k - 1);
      var r := And(Shr(a, k), f);
      assert Shl(f, k) == 2 * h && Shr(a, k) == Shr(a / 2, k - 1);
      assert Shl(r, k) == 2 * Shl(r, k - 1);
      if a > 0 && f > 0 {
        AndStep(a, 2 * h);
        assert (2 * h) / 2 == h && (2 * h) % 2 == 0;
      }
    }
  }

  /** When l fits in the k low bits, l | (f << k) is l + (f << k). */
  lemma {:induction false} OrDisjoint(l: nat, f: nat, k: nat)
    requires l < Pow2(k)
    ensures Or(l, Shl(f, k)) == l + Shl(f, k)
  {
    if k > 0 && l > 0 && f > 0 {
      assert l / 2 < Pow2(k - 1);
      OrDisjoint(l / 2, f, k - 1);
      var b := Shl(f, k);
      assert b / 2 == Shl(f, k - 1) && b % 2 == 0;
      assert Or(l, b) == 2 * Or(l / 2, b / 2) + l % 2;
    }
  }

  /** a | (g << k) keeps the k low bits of a and ors g into the rest. */
  lemma {:induction false} OrShifted(a: nat, g: nat, k: nat)
    ensures Or(a, Shl(g, k)) == a % Pow2(k) + Shl(Or(Shr(a, k), g), k)
  {
    if k > 0 {
      var p, P := Pow2(k - 1), Pow2(k);
      var h, r := Shl(g, k - 1), Or(Shr(a, k), g);
      assert P == 2 * p && Shl(g, k) == 2 * h && Shr(a, k) == Shr(a / 2, k - 1);
      assert Shl(r, k) == 2 * Shl(r, k - 1);
      OrShifted(a / 2, g, k - 1);
      assert Or(a / 2, h) == (a / 2) % p + Shl(r, k - 1);
      HalfThenDiv(a, p);
      assert a % P == 2 * ((a / 2) % p) + a % 2;
      if a == 0 {
        assert r == g;
      } else {
        if g > 0 {
          OrEvenStep(a, h);
        } else {
          assert Or(a / 2, 0) == a / 2 && h == 0;
        }
        assert Or(a, Shl(g, k)) == 2 * Or(a / 2, h) + a % 2;
      }
    }
  }

  /** Two values below 2^k have their `|` below 2^k. */
  lemma {:induction false} OrBound(a: nat, b: nat, k: nat)
    requires a < Pow2(k) && b < Pow2(k)
    ensures Or(a, b) < Pow2(k)
  {
    if k > 0 && a > 0 && b > 0 {
      OrBound(a / 2, b / 2, k - 1);
    }
  }

  /** One step of `|` against an even, non-zero operand. */
  lemma OrEvenStep(a: nat, h: nat)
    requires a > 0 && h > 0
    ensures Or(a, 2 * h) == 2 * Or(a / 2, h) + a % 2
  {
  }
  /** 2^(a + b) is 2^a * 2^b. */
  lemma {:induction false} Pow2Add(a: nat, b: nat)
    ensures Pow2(a + b) == Pow2(a) * Pow2(b)
  {
    if b > 0 {
      Pow2Add(a, b - 1);
      var p := Pow2(b - 1);
      assert Pow2(b) == 2 * p;
      assert Pow2(a) * (2 * p) == 2 * (Pow2(a) * p);
    }
  }

  /** f << k is f * 2^k. */
  lemma {:induction false} ShlIsMul(f: nat, k: nat)
    ensures Shl(f, k) == f * Pow2(k)
  {
    if k > 0 {
      ShlIsMul(f, k - 1);
      var p := Pow2(k - 1);
      assert Pow2(k) == 2 * p;
      assert f * (2 * p) == 2 * (f * p);
    }
  }

  /** Keeping the k low bits and then the j <= k low bits keeps the j low bits. */
  lemma LowBitsTwice(a: nat, j: nat, k: nat)
    requires j <= k
    ensures a % Pow2(k) % Pow2(j) == a % Pow2(j)
  {
    Pow2Add(j, k - j);
    ModOfMod(a, Pow2(j), Pow2(k - j));
  }

  /** Adding to a remainder modulo d and reducing again is reducing the sum. */
  lemma ModAdd(a: int, b: int, d: int)
    requires d > 0
    ensures (a % d + b) % d == (a + b) % d
  {
    var q, r := (a % d + b) / d, (a % d + b) % d;
    assert a == d * (a / d) + a % d;
    assert a % d + b == d * q + r;
    assert d * (a / d) + d * q == d * (a / d + q);
    DivModUnique(a + b, d, a / d + q, r);
  }

  /** A remainder modulo p * q, taken modulo p, is the remainder modulo p. */
  lemma ModOfMod(a: nat, p: nat, q: nat)
    requires p > 0 && q > 0
    ensures a % (p * q) % p == a % p
  {
    var n := p * q;
    var r, t := a % n, a / n;
    assert a == n * t + r;
    assert n * t == p * (q * t);
    assert r == p * (r / p) + r % p;
    DivModUnique(a, p, q * t + r / p, r % p);
  }
}
