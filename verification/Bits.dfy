/** Bits of integers. Negative integers are read in two's complement with
    infinitely many sign bits, as floor division by powers of two does. */
module Bits {
  import opened Arith

  datatype BitOp = And | Or | Xor {
    predicate Apply(a: bool, b: bool) {
      match this
      case And => a && b
      case Or => a || b
      case Xor => a != b
    }
  }

  predicate BitAt(x: int, i: nat) {
    x / Pow2(i) % 2 == 1
  }

  /** The C operators &, | and ^ on unsigned words. */
  function Bitwise(op: BitOp, x: nat, y: nat): nat
    decreases x + y
  {
    if x == 0 && y == 0 then 0
    else (if op.Apply(x % 2 == 1, y % 2 == 1) then 1 else 0) + 2 * Bitwise(op, x / 2, y / 2)
  }

  lemma BitZero(x: int)
    ensures BitAt(x, 0) <==> x % 2 == 1
  {
    assert Pow2(0) == 1;
  }

  lemma BitSucc(x: int, i: nat)
    ensures BitAt(x, i + 1) == BitAt(x / 2, i)
  {
    DivDiv(x, 2, Pow2(i));
  }

  lemma BitwiseStep(op: BitOp, x: nat, y: nat)
    ensures Bitwise(op, x, y) % 2 == 1 <==> op.Apply(x % 2 == 1, y % 2 == 1)
    ensures Bitwise(op, x, y) / 2 == Bitwise(op, x / 2, y / 2)
  {
  }

  lemma {:induction false} BitwiseBit(op: BitOp, x: nat, y: nat, i: nat)
    ensures BitAt(Bitwise(op, x, y), i) == op.Apply(BitAt(x, i), BitAt(y, i))
    decreases i
  {
    hide BitAt, Bitwise, Pow2;
    BitwiseStep(op, x, y);
    if i == 0 {
      BitZero(x);
      BitZero(y);
      BitZero(Bitwise(op, x, y));
    } else {
      BitSucc(x, i - 1);
      BitSucc(y, i - 1);
      BitSucc(Bitwise(op, x, y), i - 1);
      BitwiseBit(op, x / 2, y / 2, i - 1);
    }
  }

  lemma {:induction false} BitwiseBound(op: BitOp, x: nat, y: nat, n: nat)
    requires x < Pow2(n) && y < Pow2(n)
    ensures Bitwise(op, x, y) < Pow2(n)
    decreases n
  {
    if n > 0 {
      BitwiseBound(op, x / 2, y / 2, n - 1);
    }
  }

  /** Joining a shifted word and a short one with | is addition. */
  lemma {:induction false} OrDisjoint(x: nat, y: nat, k: nat)
    requires y < Pow2(k)
    ensures x * Pow2(k) >= 0
    ensures Bitwise(Or, x * Pow2(k), y) == x * Pow2(k) + y
    ensures Bitwise(Or, y, x * Pow2(k)) == x * Pow2(k) + y
    decreases k
  {
    hide *;
    if k == 0 {
      Pow2Zero();
      OrZero(x);
    } else {
      Pow2Succ(k - 1);
      OrDisjoint(x, y / 2, k - 1);
      DoubleRight(x, Pow2(k - 1), Pow2(k));
      OrEven(x * Pow2(k - 1), y);
    }
  }

  lemma DoubleRight(x: int, p: int, q: int)
    requires q == 2 * p
    ensures x * q == 2 * (x * p)
  {
  }

  lemma OrEven(z: nat, y: nat)
    ensures Bitwise(Or, 2 * z, y) == y % 2 + 2 * Bitwise(Or, z, y / 2)
    ensures Bitwise(Or, y, 2 * z) == y % 2 + 2 * Bitwise(Or, y / 2, z)
  {
    assert 2 * z / 2 == z && 2 * z % 2 == 0;
  }

  lemma {:induction false} OrZero(x: nat)
    ensures Bitwise(Or, x, 0) == x == Bitwise(Or, 0, x)
  {
    if x > 0 {
      OrZero(x / 2);
    }
  }

  /** Masking the low k bits is taking the remainder. */
  lemma {:induction false} AndMask(x: nat, k: nat)
    ensures Bitwise(And, x, Pow2(k) - 1) == x % Pow2(k)
    decreases k
  {
    hide Bitwise, Pow2;
    if k == 0 {
      Pow2Zero();
      AndZero(x);
    } else {
      AndMask(x / 2, k - 1);
      Pow2Succ(k - 1);
      AndMaskStep(x, Pow2(k - 1), Pow2(k));
    }
  }

  lemma AndMaskStep(x: nat, p: nat, q: nat)
    requires p > 0 && q == 2 * p && Bitwise(And, x / 2, p - 1) == x / 2 % p
    ensures Bitwise(And, x, q - 1) == x % q
  {
    hide Bitwise;
    DivDiv(x, 2, p);
    AndOdd(x, p - 1);
  }

  lemma AndOdd(x: nat, m: nat)
    ensures Bitwise(And, x, 2 * m + 1) == x % 2 + 2 * Bitwise(And, x / 2, m)
  {
    assert (2 * m + 1) / 2 == m && (2 * m + 1) % 2 == 1;
  }

  lemma {:induction false} AndZero(x: nat)
    ensures Bitwise(And, x, 0) == 0
  {
    if x > 0 {
      AndZero(x / 2);
    }
  }

  lemma ComplementBit(x: int, i: nat)
    ensures BitAt(-x - 1, i) == !BitAt(x, i)
  {
    hide Pow2;
    ComplementDiv(x, Pow2(i));
  }

  lemma ComplementDiv(x: int, d: int)
    requires d > 0
    ensures (-x - 1) / d == -(x / d) - 1
  {
    DivMod(x, d);
    var q, r := x / d, x % d;
    MulSub(-q, 1, d);
    MulSub(0, q, d);
    DivModUnique(-x - 1, d, -q - 1, d - 1 - r);
  }

  /** An integer is determined by its bits. */
  lemma {:induction false} BitsDetermine(x: int, y: int)
    requires forall i: nat :: BitAt(x, i) == BitAt(y, i)
    ensures x == y
    decreases (if x < 0 then -x else x) + (if y < 0 then -y else y)
  {
    BitZero(x);
    BitZero(y);
    assert BitAt(x, 0) == BitAt(y, 0);
    if !(x in {0, -1} && y in {0, -1}) {
      forall i: nat
        ensures BitAt(x / 2, i) == BitAt(y / 2, i)
      {
        BitSucc(x, i);
        BitSucc(y, i);
        assert BitAt(x, i + 1) == BitAt(y, i + 1);
      }
      BitsDetermine(x / 2, y / 2);
    }
  }
}
