// Arithmetic macros of helper.h: rounding divisions, MIN/MAX and ARRAY_SIZE.
// The macros work on the caller's integer type; the model uses unbounded
// integers.
module Helper {

  /** DIV_ROUND_UP(n, d): the number of d-sized units needed to hold n. */
  function DivRoundUp(n: nat, d: nat): (k: nat)
    requires d > 0
    ensures k * d >= n
    ensures k == 0 || (k - 1) * d < n
  {
    var q := (n + d - 1) / d;
    DivModFacts(n + d - 1, d);
    assert (q - 1) * d == q * d - d;
    q
  }

  /** DIV_ROUND_DOWN(n, d): the number of whole d-sized units in n. */
  function DivRoundDown(n: nat, d: nat): (k: nat)
    requires d > 0
    ensures k * d <= n < (k + 1) * d
  {
    DivModFacts(n, d);
    assert (n / d + 1) * d == n / d * d + d;
    n / d
  }

  /** ROUND_UP(n, d): n rounded up to a multiple of d. */
  function RoundUp(n: nat, d: nat): (r: nat)
    requires d > 0
    ensures r % d == 0
    ensures n <= r < n + d
  {
    var k := DivRoundUp(n, d);
    assert (k * d) % d == 0 by { MulMod(k, d); }
    assert k * d - d == (k - 1) * d;
    k * d
  }

  /** ROUND_DOWN(n, d): n rounded down to a multiple of d. */
  function RoundDown(n: nat, d: nat): (r: nat)
    requires d > 0
    ensures r % d == 0
    ensures n - d < r <= n
  {
    var k := DivRoundDown(n, d);
    assert (k * d) % d == 0 by { MulMod(k, d); }
    assert (k + 1) * d == k * d + d;
    k * d
  }

  /** MIN(x, y): the smaller argument; on a tie the second one. */
  function Min(x: int, y: int): (m: int)
    ensures m == x || m == y
    ensures m <= x && m <= y
  {
    if x < y then x else y
  }

  /** MAX(x, y): the larger argument; on a tie the second one. */
  function Max(x: int, y: int): (m: int)
    ensures m == x || m == y
    ensures m >= x && m >= y
  {
    if x > y then x else y
  }

  /** ARRAY_SIZE(a): sizeof(a) / sizeof(a[0]), the element count. */
  function ArraySize<T>(a: seq<T>, elementSize: nat): (n: nat)
    requires elementSize > 0
    ensures n == |a|
  {
    MulDiv(|a|, elementSize);
    (|a| * elementSize) / elementSize
  }

  /** DIV_ROUND_UP is the least quotient that covers n. */
  lemma DivRoundUpLeast(n: nat, d: nat, k: nat)
    requires d > 0
    requires k * d >= n
    ensures DivRoundUp(n, d) <= k
  {
    var q := DivRoundUp(n, d);
    if q > k {
      assert (q - 1) * d >= k * d by {
        assert q - 1 >= k;
        MulMonotone(k, q - 1, d);
      }
      assert false;
    }
  }

  lemma MulMonotone(a: nat, b: nat, d: nat)
    requires a <= b
    ensures a * d <= b * d
  {
    assert b * d == a * d + (b - a) * d;
  }

  lemma DivModFacts(n: nat, d: nat)
    requires d > 0
    ensures n == n / d * d + n % d
    ensures 0 <= n % d < d
  {
  }

  lemma MulMod(k: nat, d: nat)
    requires d > 0
    ensures (k * d) % d == 0 && (k * d) / d == k
  {
    DivModFacts(k * d, d);
    var q := (k * d) / d;
    assert (k - q) * d == (k * d) % d;
    MulSmall(k - q, d);
  }

  /** The only multiple of d in [0, d) is zero. */
  lemma MulSmall(t: int, d: nat)
    requires d > 0
    requires 0 <= t * d < d
    ensures t == 0
  {
    if t >= 1 {
      MulMonotone(1, t, d);
    } else if t <= -1 {
      MulNonPos(t, d);
    }
  }

  lemma MulNonPos(t: int, d: int)
    requires t < 0 && d >= 0
    ensures t * d <= -d
  {
    MulMonotone(1, -t, d);
    assert t * d == -((-t) * d);
  }

  lemma MulDiv(k: nat, d: nat)
    requires d > 0
    ensures (k * d) / d == k
  {
    MulMod(k, d);
  }

  /** Adding whole units to n adds exactly that many units to DIV_ROUND_UP. */
  lemma DivRoundUpAddUnits(n: nat, d: nat, m: nat)
    requires d > 0
    ensures DivRoundUp(n + m * d, d) == DivRoundUp(n, d) + m
  {
    var q := DivRoundUp(n, d);
    DivRoundUpLeast(n + m * d, d, q + m);
    var k := DivRoundUp(n + m * d, d);
    if k < q + m {
      assert k >= m by {
        if k < m {
          MulMonotone(k, m - 1, d);
          MulSub(m, 1, d);
        }
      }
      MulSub(k, m, d);
      DivRoundUpLeast(n, d, k - m);
    }
  }

  lemma MulSub(a: nat, b: nat, d: nat)
    requires b <= a
    ensures (a - b) * d == a * d - b * d
  {
  }
}
