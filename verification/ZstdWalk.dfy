/** The walk that spreads symbols over a table of 2^al slots: an odd step visits
    every slot once and then is back at the start. */
module ZstdWalk {
  import opened Arith

  /** The slot reached after k steps. */
  function Walk(k: nat, step: nat, size: nat): (r: nat)
    requires size > 0
    ensures r < size
  {
    MulLe(0, k, step);
    k * step % size
  }

  lemma WalkNext(k: nat, step: nat, size: nat)
    requires size > 0
    ensures Walk(0, step, size) == 0
    ensures Walk(k + 1, step, size) == (Walk(k, step, size) + step) % size
  {
    MulAdd(k, 1, step);
    var q := k * step / size;
    DivMod(k * step, size);
    ModAddMultiple(Walk(k, step, size) + step, q, size);
    DivModUnique(0, size, 0, 0);
  }

  lemma WalkReturns(step: nat, size: nat)
    requires size > 0
    ensures Walk(size, step, size) == 0
  {
    MulDiv(step, size);
  }

  lemma ModMul(x: int, y: int, m: int)
    requires m > 0
    ensures x % m * y % m == x * y % m
  {
    DivMod(x, m);
    MulAdd(x / m * m, x % m, y);
    assert x / m * m * y == x / m * y * m;
    ModAddMultiple(x % m * y, x / m * y, m);
  }

  /** An odd number has an inverse modulo every power of two. */
  lemma {:induction false} OddInverse(step: nat, al: nat) returns (inv: nat)
    requires step % 2 == 1
    ensures inv * step % Pow2(al) == 1 % Pow2(al)
  {
    if al == 0 {
      inv := 0;
      DivModUnique(0, Pow2(al), 0, 0);
      DivModUnique(1, Pow2(al), 1, 0);
      assert inv * step == 0;
    } else {
      inv := OddInverse(step, al - 1);
      inv := Lift(step, Pow2(al - 1), inv);
    }
  }

  /** From an inverse modulo p to one modulo 2 * p. */
  lemma Lift(step: nat, p: nat, v: nat) returns (inv: nat)
    requires p > 0 && step % 2 == 1 && v * step % p == 1 % p
    ensures inv * step % (2 * p) == 1 % (2 * p)
  {
    var c := v * step / p;
    DivMod(v * step, p);
    if p == 1 {
      inv := 1;
      assert inv * step == step;
    } else {
      DivModUnique(1, p, 0, 1);
      DivModUnique(1, 2 * p, 0, 1);
      DivMod(c, 2);
      if c % 2 == 0 {
        inv := v;
        Regroup(c / 2, p);
        DivModUnique(v * step, 2 * p, c / 2, 1);
      } else {
        inv := v + p;
        MulAdd(v, p, step);
        DivMod(step, 2);
        Regroup(c / 2, p);
        Regroup(step / 2, p);
        MulAdd(c / 2, step / 2 + 1, 2 * p);
        MulAdd(step / 2, 1, 2 * p);
        MulAdd(c / 2 * 2, 1, p);
        MulAdd(step / 2 * 2, 1, p);
        assert p * step == step * p;
        DivModUnique(inv * step, 2 * p, c / 2 + (step / 2 + 1), 1);
      }
    }
  }

  lemma Regroup(x: int, p: int)
    ensures x * 2 * p == x * (2 * p)
  {
  }

  /** Every slot is on the walk. */
  lemma WalkCovers(x: nat, step: nat, al: nat) returns (k: nat)
    requires step % 2 == 1 && x < Pow2(al)
    ensures k < Pow2(al) && Walk(k, step, Pow2(al)) == x
  {
    var m := Pow2(al);
    var inv := OddInverse(step, al);
    MulLe(0, x, inv);
    DivMod(x * inv, m);
    k := x * inv % m;
    ModMul(x * inv, step, m);
    MulAssoc(x, inv, step);
    ModMul(inv * step, x, m);
    assert inv * step * x == x * (inv * step);
    ModMul(1, x, m);
    DivModUnique(x, m, 0, x);
  }

  /** No slot is on the walk twice. */
  lemma WalkInjective(j: nat, k: nat, step: nat, al: nat)
    requires step % 2 == 1 && j < Pow2(al) && k < Pow2(al)
    requires Walk(j, step, Pow2(al)) == Walk(k, step, Pow2(al))
    ensures j == k
  {
    var m := Pow2(al);
    var inv := OddInverse(step, al);
    Unwalk(j, step, inv, m);
    Unwalk(k, step, inv, m);
  }

  lemma Unwalk(k: nat, step: nat, inv: nat, m: nat)
    requires m > 0 && k < m && inv * step % m == 1 % m
    ensures Walk(k, step, m) * inv % m == k
  {
    ModMul(k * step, inv, m);
    Rotate(k, step, inv);
    ModMul(inv * step, k, m);
    ModMul(1, k, m);
    DivModUnique(k, m, 0, k);
  }

  lemma Rotate(x: int, y: int, z: int)
    ensures x * y * z == z * y * x
  {
  }

  /** The step of the format is odd once the table has 32 slots. */
  lemma StepIsOdd(al: nat)
    requires al >= 5
    ensures (Pow2(al) / 2 + Pow2(al) / 8 + 3) % 2 == 1
  {
    Pow2Add(5, al - 5);
    assert Pow2(3) == 8;
    Pow2Succ(3);
    Pow2Succ(4);
    hide *;
    StepArith(Pow2(al - 5), Pow2(al));
  }

  lemma StepArith(p: nat, size: nat)
    requires size == 32 * p
    ensures (size / 2 + size / 8 + 3) % 2 == 1
  {
    assert size / 2 == 16 * p && size / 8 == 4 * p;
  }
}
