/** Integer facts shared by the three engines: powers of two and Euclidean
    division. Everything here is about unbounded mathematical integers. */
module Arith {

  function Pow2(n: nat): (r: nat)
    ensures r >= 1
  {
    if n == 0 then 1 else 2 * Pow2(n - 1)
  }

  lemma Pow2Zero()
    ensures Pow2(0) == 1
  {
  }

  lemma Pow2Succ(n: nat)
    ensures Pow2(n + 1) == 2 * Pow2(n)
  {
  }

  lemma {:induction false} Pow2Add(a: nat, b: nat)
    ensures Pow2(a + b) == Pow2(a) * Pow2(b)
  {
    if a == 0 {
      assert Pow2(a) == 1;
    } else {
      Pow2Add(a - 1, b);
      assert Pow2(a + b) == 2 * Pow2(a - 1 + b);
      assert 2 * (Pow2(a - 1) * Pow2(b)) == (2 * Pow2(a - 1)) * Pow2(b);
    }
  }

  lemma {:induction false} Pow2Monotone(a: nat, b: nat)
    requires a <= b
    ensures Pow2(a) <= Pow2(b)
    ensures a < b ==> 2 * Pow2(a) <= Pow2(b)
    decreases b
  {
    if a < b {
      Pow2Monotone(a, b - 1);
    }
  }

  /** The exponent of the largest power of two below `x` is determined by `x`. */
  lemma Pow2Bracket(x: int, a: nat, b: nat)
    requires Pow2(a) <= x < Pow2(a + 1)
    requires Pow2(b) <= x < Pow2(b + 1)
    ensures a == b
  {
    if a < b {
      Pow2Monotone(a + 1, b);
    } else if b < a {
      Pow2Monotone(b + 1, a);
    }
  }

  lemma MulLe(x: int, y: int, z: int)
    requires x <= y && 0 <= z
    ensures x * z <= y * z
    ensures z * x <= z * y
  {
  }

  lemma MulLt(x: int, y: int, z: int)
    requires x < y && 0 < z
    ensures x * z < y * z
    ensures z * x < z * y
  {
  }

  lemma MulCancelLt(x: int, y: int, z: int)
    requires x * z < y * z && 0 < z
    ensures x < y
  {
    if y <= x {
      MulLe(y, x, z);
    }
  }

  lemma MulAssoc(x: int, y: int, z: int)
    ensures x * y * z == x * (y * z)
  {
  }

  lemma MulAdd(x: int, y: int, z: int)
    ensures (x + y) * z == x * z + y * z
    ensures z * (x + y) == z * x + z * y
  {
  }

  lemma MulSub(x: int, y: int, z: int)
    ensures (x - y) * z == x * z - y * z
    ensures z * (x - y) == z * x - z * y
  {
  }

  lemma DivMod(n: int, d: int)
    requires d > 0
    ensures n == (n / d) * d + n % d
    ensures 0 <= n % d < d
  {
  }

  /** Quotient and remainder are the only numbers of their kind. */
  lemma DivModUnique(n: int, d: int, q: int, r: int)
    requires d > 0
    requires n == q * d + r
    requires 0 <= r < d
    ensures q == n / d
    ensures r == n % d
  {
    DivMod(n, d);
    var q', r' := n / d, n % d;
    assert (q - q') * d == r' - r;
    if q - q' >= 1 {
      MulLe(1, q - q', d);
    } else if q - q' <= -1 {
      MulLe(q - q', -1, d);
    }
  }

  lemma DivLe(n: nat, d: int, k: int)
    requires d > 0
    requires n < k * d
    ensures n / d < k
  {
    DivMod(n, d);
    if k <= n / d {
      MulLe(k, n / d, d);
    }
  }

  lemma DivMonotone(x: int, y: int, d: int)
    requires d > 0 && x <= y
    ensures x / d <= y / d
  {
    DivMod(x, d);
    DivMod(y, d);
    if y / d < x / d {
      MulLe(y / d + 1, x / d, d);
      MulAdd(y / d, 1, d);
    }
  }

  lemma ModAddMultiple(x: int, k: int, d: int)
    requires d > 0
    ensures (x + k * d) % d == x % d
    ensures (x + k * d) / d == x / d + k
  {
    DivMod(x, d);
    MulAdd(x / d, k, d);
    DivModUnique(x + k * d, d, x / d + k, x % d);
  }

  lemma DivDiv(x: int, a: int, b: int)
    requires a > 0 && b > 0
    ensures a * b > 0
    ensures x / (a * b) == x / a / b
    ensures x % (a * b) == x % a + a * (x / a % b)
  {
    var q := x / a;
    DivMod(x, a);
    DivMod(q, b);
    var t := q % b;
    MulLe(t, b - 1, a);
    assert a * (b - 1) == a * b - a;
    assert x == (q / b * b + t) * a + x % a;
    MulAdd(q / b * b, t, a);
    MulAssoc(q / b, b, a);
    assert x == (q / b) * (a * b) + (x % a + a * t);
    assert a * b > 0 by { MulLe(1, b, a); }
    MulLe(0, t, a);
    DivModUnique(x, a * b, q / b, x % a + a * t);
  }

  lemma MulDiv(k: int, d: int)
    requires d > 0
    ensures k * d / d == k
    ensures k * d % d == 0
  {
    DivModUnique(k * d, d, k, 0);
  }
}
