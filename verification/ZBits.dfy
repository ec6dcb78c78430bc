/** Bit operations on Zarith integers. An integer is an infinite two's-complement
    string, but is kept as sign and magnitude: the bits of a negative one are the
    complement of those of its magnitude less one. */
module ZBits {
  import opened Arith
  import opened Bits
  import opened Words
  import opened ZRepr
  import Mpn
  import ZShift

  /** Bit i of r is op of the bits i of x and y, for every i. */
  ghost predicate BitsOf(op: BitOp, x: int, y: int, r: int) {
    forall i: nat :: BitAt(r, i) == op.Apply(BitAt(x, i), BitAt(y, i))
  }

  /** There is only one such integer. */
  lemma BitsOfUnique(op: BitOp, x: int, y: int, r: int, r': int)
    requires BitsOf(op, x, y, r) && BitsOf(op, x, y, r')
    ensures r == r'
  {
    hide BitAt;
    BitsDetermine(r, r');
  }

  // Bits of a number made of a low and a high part

  lemma LowBit(x: int, h: int, n: nat, i: nat)
    requires i < n
    ensures BitAt(x + h * Pow2(n), i) == BitAt(x, i)
  {
    Pow2Add(n - i, i);
    Pow2Succ(n - i - 1);
    hide Pow2;
    EvenMultiple(x, h, Pow2(i), Pow2(n - i - 1), Pow2(n - i), Pow2(n));
  }

  lemma EvenMultiple(x: int, h: int, p: int, q: int, q2: int, r: int)
    requires p > 0 && q2 == 2 * q && r == q2 * p
    ensures (x + h * r) / p % 2 == x / p % 2
  {
    assert h * r == (h * q * 2) * p;
    ModAddMultiple(x, h * q * 2, p);
    ModAddMultiple(x / p, h * q, 2);
  }

  lemma HighBit(x: int, h: int, n: nat, j: nat)
    requires 0 <= x < Pow2(n)
    ensures BitAt(x + h * Pow2(n), n + j) == BitAt(h, j)
  {
    Pow2Add(n, j);
    hide Pow2;
    DivModUnique(x + h * Pow2(n), Pow2(n), h, x);
    DivDiv(x + h * Pow2(n), Pow2(n), Pow2(j));
  }

  lemma NoBit(i: nat)
    ensures !BitAt(0, i)
  {
    hide Pow2;
    DivModUnique(0, Pow2(i), 0, 0);
  }

  lemma NoHighBit(x: int, n: nat, i: nat)
    requires 0 <= x < Pow2(n) && n <= i
    ensures !BitAt(x, i)
  {
    hide Pow2, BitAt;
    HighBit(x, 0, n, i - n);
    NoBit(i - n);
  }

  /** C's ~ on limbs. */
  function Not(d: digit): digit {
    BASE - 1 - d as int
  }

  /** Complementing a limb flips its bits. */
  lemma FlippedLimb(d: digit, t: nat)
    requires t < W
    ensures BitAt(Not(d), t) == !BitAt(d, t)
  {
    hide Pow2, BitAt;
    ZShift.BaseIsPow2();
    ComplementBit(d, t);
    LowBit(0 - d as int - 1, 1, W, t);
  }

  // Testing a bit

  method TestBit(z: Z, index: nat) returns (bit: bool)
    requires Canonical(z)
    ensures bit == BitAt(ToInt(z), index)
    ensures bit == (ToInt(z) / Pow2(index) % 2 == 1)
  {
    hide Val, P, Pow2, FitsInt;
    var i := index;
    ZShift.LimbsAndBits(i);
    if z.Small? {
      ZShift.ClampedShift(z.n, i);
      if i >= W {
        i := W - 1;
      }
      return z.n / Pow2(i) % 2 == 1;
    }
    TrimmedPositive(z.mag);
    bit := TestLimbs(z.neg, z.mag, i, i / W, i % W);
  }

  method TestLimbs(neg: bool, s: seq<digit>, i: nat, l: nat, t: nat) returns (bit: bool)
    requires i == l * W + t && t < W && Val(s) > 0
    ensures bit == BitAt(Signed(neg, Val(s)), i)
  {
    hide Val, P, BitAt;
    if l >= |s| {
      BeyondLimbs(neg, s, i, l, t);
      return neg;
    }
    var limb := s[l];
    if neg {
      var any := ZShift.AnyBelow(s, l);
      NegativeLimb(s, i, l, t);
      FlippedLimb(s[l], t);
      if any {
        limb := Not(limb);
      } else {
        limb := SubW(0, limb);
        NegatedLimb(s[l], t);
      }
    } else {
      PositiveLimb(s, i, l, t);
    }
    return LimbBit(limb, t);
  }

  predicate LimbBit(d: digit, t: nat)
    ensures LimbBit(d, t) == BitAt(d, t)
  {
    d as int / Pow2(t) % 2 == 1
  }

  lemma BeyondLimbs(neg: bool, s: seq<digit>, i: nat, l: nat, t: nat)
    requires i == l * W + t && l >= |s| && Val(s) > 0
    ensures BitAt(Signed(neg, Val(s)), i) == neg
  {
    hide Val, P, Pow2, BitAt;
    ValBound(s);
    PMonotone(|s|, l);
    PIsPow2(l);
    SignedBit(neg, Val(s), i);
    NoHighBit(Decremented(neg, Val(s)), l * W, i);
  }

  /** The limbs from number l on, as one number. */
  lemma FromLimb(s: seq<digit>, l: nat)
    requires l < |s|
    ensures Val(s) == Val(s[..l]) + Val(s[l..]) * Pow2(l * W)
    ensures Val(s[..l]) < Pow2(l * W)
    ensures Val(s[l..]) == s[l] + Val(s[l + 1..]) * Pow2(W)
  {
    hide Val, P, Pow2;
    PIsPow2(l);
    ValBound(s[..l]);
    assert s == s[..l] + s[l..];
    ValAppend(s[..l], s[l..]);
    assert s[l..] == [s[l]] + s[l + 1..];
    ValAppend([s[l]], s[l + 1..]);
    ValOne([s[l]]);
    POne();
    ZShift.BaseIsPow2();
  }

  lemma PositiveLimb(s: seq<digit>, i: nat, l: nat, t: nat)
    requires i == l * W + t && t < W && l < |s|
    ensures BitAt(Val(s), i) == BitAt(s[l], t)
  {
    hide Val, P, Pow2, BitAt;
    FromLimb(s, l);
    HighBit(Val(s[..l]), Val(s[l..]), l * W, t);
    LowBit(s[l], Val(s[l + 1..]), W, t);
  }

  lemma NegativeLimb(s: seq<digit>, i: nat, l: nat, t: nat)
    requires i == l * W + t && t < W && l < |s|
    ensures BitAt(0 - Val(s), i) == if Val(s[..l]) == 0 then BitAt(0 - s[l] as int, t) else !BitAt(s[l], t)
  {
    hide Val, P, Pow2, BitAt;
    FromLimb(s, l);
    var low: int, high: int, p := Val(s[..l]), Val(s[l..]), Pow2(l * W);
    var above: int := Val(s[l + 1..]);
    if low == 0 {
      MulSub(0, high, p);
      HighBit(0, 0 - high, l * W, t);
      MulSub(0, above, Pow2(W));
      LowBit(0 - s[l] as int, 0 - above, W, t);
    } else {
      MulSub(0 - high, 1, p);
      MulSub(0, high, p);
      HighBit(p - low, 0 - high - 1, l * W, t);
      ComplementBit(high, t);
      LowBit(s[l], above, W, t);
    }
  }

  lemma NegatedLimb(d: digit, t: nat)
    requires t < W
    ensures BitAt(SubW(0, d), t) == BitAt(0 - d as int, t)
  {
    hide Pow2, BitAt;
    ZShift.BaseIsPow2();
    LowBit(0 - d as int, 1, W, t);
  }

  // Sign and magnitude as bits

  /** The number whose bits, flipped when negative, are those of the integer. */
  function Decremented(neg: bool, m: nat): (r: int)
    ensures r >= 0 || (neg && m == 0)
  {
    if neg then m - 1 else m
  }

  lemma SignedBit(neg: bool, m: nat, i: nat)
    ensures BitAt(Signed(neg, m), i) == (BitAt(Decremented(neg, m), i) != neg)
  {
    hide BitAt;
    if neg {
      ComplementBit(m - 1, i);
    }
  }

  /** The n low bits of z are op of those of x and y, either one flipped first if
      asked; the others are those of x, or none. */
  ghost predicate Joined(op: BitOp, n: nat, x: int, notX: bool, y: int, notY: bool, z: int, wide: bool) {
    forall i: nat ::
      BitAt(z, i) ==
      if i < n then op.Apply(BitAt(x, i) != notX, BitAt(y, i) != notY) else wide && BitAt(x, i)
  }

  /** What the limb operation has to compute when the operands are negative (n1, n2)
      and the result is (rn), for each pair of bits; and whether bits beyond the
      second operand are to be kept. */
  predicate Table(op: BitOp, lop: BitOp, not1: bool, not2: bool, n1: bool, n2: bool, rn: bool, wide: bool) {
    && lop.Apply(not1, not2) == (op.Apply(n1, n2) != rn)
    && lop.Apply(not1, !not2) == (op.Apply(n1, !n2) != rn)
    && lop.Apply(!not1, not2) == (op.Apply(!n1, n2) != rn)
    && lop.Apply(!not1, !not2) == (op.Apply(!n1, !n2) != rn)
    && op.Apply(n1, n2) == rn
    && wide == (op.Apply(!n1, n2) != rn)
  }

  lemma TableRow(op: BitOp, lop: BitOp, not1: bool, not2: bool, n1: bool, n2: bool, rn: bool, wide: bool,
                 a: bool, b: bool)
    requires Table(op, lop, not1, not2, n1, n2, rn, wide)
    ensures lop.Apply(a != not1, b != not2) == (op.Apply(a != n1, b != n2) != rn)
    ensures (wide && a) == (op.Apply(a != n1, n2) != rn)
  {
    hide BitAt, Bitwise;
    assert (a != not1) == (if a then !not1 else not1) && (b != not2) == (if b then !not2 else not2);
    assert (a != n1) == (if a then !n1 else n1) && (b != n2) == (if b then !n2 else n2);
  }

  lemma SignsAgree(op: BitOp, lop: BitOp, not1: bool, not2: bool, n1: bool, n2: bool, rn: bool, wide: bool,
                   n: nat, m1: nat, m2: nat, d: nat)
    requires Table(op, lop, not1, not2, n1, n2, rn, wide)
    requires Joined(lop, n, Decremented(n1, m1), not1, Decremented(n2, m2), not2, d, wide)
    requires 0 <= Decremented(n2, m2) < Pow2(n)
    ensures BitsOf(op, Signed(n1, m1), Signed(n2, m2), Signed(rn, if rn then d + 1 else d))
  {
    hide BitAt, Bitwise, Pow2, Table;
    var x, y, m := Signed(n1, m1), Signed(n2, m2), if rn then d + 1 else d;
    forall i: nat
      ensures BitAt(Signed(rn, m), i) == op.Apply(BitAt(x, i), BitAt(y, i))
    {
      SignedBit(n1, m1, i);
      SignedBit(n2, m2, i);
      SignedBit(rn, m, i);
      TableRow(op, lop, not1, not2, n1, n2, rn, wide,
               BitAt(Decremented(n1, m1), i), BitAt(Decremented(n2, m2), i));
      if n <= i {
        NoHighBit(Decremented(n2, m2), n, i);
      }
    }
  }

  lemma SplitAt(s: seq<digit>, m: nat)
    requires m <= |s|
    ensures Val(s) == Val(s[..m]) + Val(s[m..]) * P(m)
  {
    hide Val, P;
    assert s == s[..m] + s[m..];
    ValAppend(s[..m], s[m..]);
  }

  /** A combined low part under the high part of the first operand, or alone. */
  lemma JoinParts(op: BitOp, m: nat, x: int, notX: bool, y: int, notY: bool, low: seq<digit>, z: seq<digit>,
                  h: int, high: seq<digit>, wide: bool)
    requires |low| == m == |z| && x == Val(low) + h * P(m)
    requires Joined(op, m * W, Val(low), notX, y, notY, Val(z), false)
    requires if wide then h == Val(high) else high == []
    ensures Joined(op, m * W, x, notX, y, notY, Val(z + high), wide)
  {
    hide Val, P, Pow2, Joined;
    PIsPow2(m);
    ValBound(z);
    ValBound(low);
    assert (z + high)[..m] == z && (z + high)[m..] == high;
    SplitAt(z + high, m);
    NoLimbs();
    JoinNumbers(op, m * W, notX, y, notY, wide, Val(low), Val(z), h, Val(high), x, Val(z + high));
  }

  lemma JoinNumbers(op: BitOp, n: nat, notX: bool, y: int, notY: bool, wide: bool,
                    low: nat, z: nat, h: int, high: nat, x: int, r: nat)
    requires low < Pow2(n) && z < Pow2(n) && x == low + h * Pow2(n) && r == z + high * Pow2(n)
    requires Joined(op, n, low, notX, y, notY, z, false)
    requires high == if wide then h else 0
    ensures Joined(op, n, x, notX, y, notY, r, wide)
  {
    hide Pow2, BitAt;
    forall i: nat
      ensures BitAt(r, i) ==
              if i < n then op.Apply(BitAt(x, i) != notX, BitAt(y, i) != notY) else wide && BitAt(x, i)
    {
      if i < n {
        LowBit(low, h, n, i);
        LowBit(z, high, n, i);
      } else {
        HighBit(low, h, n, i - n);
        HighBit(z, high, n, i - n);
        NoBit(i - n);
      }
    }
  }

  // The limb loops

  lemma JoinNothing(op: BitOp, notX: bool, notY: bool)
    ensures Val([]) == 0
    ensures Joined(op, 0, 0, notX, 0, notY, 0, false)
  {
    hide BitAt;
    forall i: nat
      ensures !BitAt(0, i)
    {
      NoBit(i);
    }
  }

  function Flip(d: digit, not: bool): digit {
    if not then Not(d) else d
  }

  lemma FlipBit(d: digit, not: bool, t: nat)
    requires t < W
    ensures BitAt(Flip(d, not), t) == (BitAt(d, t) != not)
  {
    hide BitAt;
    FlippedLimb(d, t);
  }

  function LimbOp(op: BitOp, x: digit, y: digit): digit {
    ZShift.BaseIsPow2();
    BitwiseBound(op, x, y, W);
    Bitwise(op, x, y)
  }

  /** One more limb. */
  lemma JoinLimb(op: BitOp, k: nat, notX: bool, notY: bool, x: nat, y: nat, z: nat,
                 dx: digit, dy: digit, dz: digit, x': nat, y': nat, z': nat)
    requires x < P(k) && y < P(k) && z < P(k)
    requires x' == x + dx * P(k) && y' == y + dy * P(k) && z' == z + dz * P(k)
    requires Joined(op, k * W, x, notX, y, notY, z, false)
    requires dz == LimbOp(op, Flip(dx, notX), Flip(dy, notY))
    ensures Joined(op, (k + 1) * W, x', notX, y', notY, z', false)
  {
    hide P, Pow2, BitAt, Flip, Bitwise;
    var n := k * W;
    PIsPow2(k);
    MulAdd(k, 1, W);
    forall i: nat
      ensures BitAt(z', i) == (i < n + W && op.Apply(BitAt(x', i) != notX, BitAt(y', i) != notY))
    {
      if i < n {
        LowBit(x, dx, n, i);
        LowBit(y, dy, n, i);
        LowBit(z, dz, n, i);
      } else {
        HighBit(z, dz, n, i - n);
        if i < n + W {
          HighBit(x, dx, n, i - n);
          HighBit(y, dy, n, i - n);
          FlipBit(dx, notX, i - n);
          FlipBit(dy, notY, i - n);
          BitwiseBit(op, Flip(dx, notX), Flip(dy, notY), i - n);
        } else {
          ZShift.BaseIsPow2();
          NoHighBit(dz, W, i - n);
        }
      }
    }
  }

  /** Combines the limbs of s and t, some flipped, into r. */
  method CombineLimbs(r: array<digit>, s: seq<digit>, t: seq<digit>, op: BitOp, notS: bool, notT: bool)
    requires |s| == |t| <= r.Length
    modifies r
    ensures r[|t|..] == old(r[|t|..])
    ensures Joined(op, |t| * W, Val(s), notS, Val(t), notT, Val(r[..|t|]), false)
  {
    hide Val, P, Joined, LimbOp, Flip;
    JoinNothing(op, notS, notT);
    for i := 0 to |t|
      invariant r[i..] == old(r[i..])
      invariant Joined(op, i * W, Val(s[..i]), notS, Val(t[..i]), notT, Val(r[..i]), false)
    {
      ghost var low := r[..i];
      r[i] := LimbOp(op, Flip(s[i], notS), Flip(t[i], notT));
      assert r[..i + 1] == low + [r[i]];
      JoinNextLimb(op, s[..i], notS, t[..i], notT, low, s[i], t[i], r[i]);
      assert s[..i + 1] == s[..i] + [s[i]] && t[..i + 1] == t[..i] + [t[i]];
    }
    assert s[..|t|] == s && t[..|t|] == t;
  }

  lemma ValSnocAt(s: seq<digit>, d: digit, n: nat)
    requires |s| == n
    ensures Val(s + [d]) == Val(s) + d * P(n)
  {
    ValSnoc(s, d);
  }

  lemma JoinNextLimb(op: BitOp, x: seq<digit>, notX: bool, y: seq<digit>, notY: bool, z: seq<digit>,
                     dx: digit, dy: digit, dz: digit)
    requires |x| == |y| == |z|
    requires Joined(op, |z| * W, Val(x), notX, Val(y), notY, Val(z), false)
    requires dz == LimbOp(op, Flip(dx, notX), Flip(dy, notY))
    ensures Joined(op, (|z| + 1) * W, Val(x + [dx]), notX, Val(y + [dy]), notY, Val(z + [dz]), false)
  {
    hide Val, P, Joined, LimbOp, Flip;
    ValBound(x);
    ValBound(y);
    ValBound(z);
    ValSnocAt(x, dx, |z|);
    ValSnocAt(y, dy, |z|);
    ValSnocAt(z, dz, |z|);
    JoinLimb(op, |z|, notX, notY, Val(x), Val(y), Val(z), dx, dy, dz, Val(x + [dx]), Val(y + [dy]), Val(z + [dz]));
  }

  /** Combines the limbs of s with those of t less one, whose borrow is carried
      along. */
  method CombineDecremented(r: array<digit>, s: seq<digit>, t: seq<digit>, op: BitOp)
    requires |s| == |t| <= r.Length && Val(t) > 0
    modifies r
    ensures r[|t|..] == old(r[|t|..])
    ensures Joined(op, |t| * W, Val(s), false, Val(t) - 1, false, Val(r[..|t|]), false)
  {
    hide Val, P, Joined, LimbOp;
    JoinNothing(op, false, false);
    NothingDecremented();
    var c: digit := 1;
    ghost var e: seq<digit> := [];
    for i := 0 to |t|
      invariant |e| == i && c <= 1
      invariant Val(e) + 1 == Val(t[..i]) + c * P(i)
      invariant r[i..] == old(r[i..])
      invariant Joined(op, i * W, Val(s[..i]), false, Val(e), false, Val(r[..i]), false)
    {
      var v := t[i];
      ghost var low, d := r[..i], SubW(v, c);
      r[i] := LimbOp(op, s[i], SubW(v, c));
      assert r[..i + 1] == low + [r[i]];
      JoinNextLimb(op, s[..i], false, e, false, low, s[i], d, r[i]);
      assert s[..i + 1] == s[..i] + [s[i]] && t[..i + 1] == t[..i] + [v];
      DecrementLimb(t[..i], e, c, v, d);
      e := e + [d];
      c := if c != 0 && v == 0 then 1 else 0;
    }
    assert s[..|t|] == s && t[..|t|] == t;
    NoBorrow(e, |t|, c);
  }

  lemma NothingDecremented()
    ensures Val([]) + 1 == Val([]) + 1 * P(0)
  {
  }

  lemma DecrementLimb(t: seq<digit>, e: seq<digit>, c: digit, v: digit, d: digit)
    requires |e| == |t| && c <= 1 && d == SubW(v, c)
    requires Val(e) + 1 == Val(t) + c * P(|t|)
    ensures Val(e + [d]) + 1 == Val(t + [v]) + (if c != 0 && v == 0 then 1 else 0) * P(|t| + 1)
  {
    hide Val, P;
    ValSnoc(t, v);
    ValSnoc(e, d);
    PSucc(|t|);
    var p := P(|t|);
    MulSub(v, c, p);
    if v < c {
      MulAdd(v - c, BASE, p);
    }
  }

  /** Fills r above limb m with limbs of s. */
  method CopyAbove(r: array<digit>, s: seq<digit>, m: nat)
    requires m <= |s| <= r.Length
    modifies r
    ensures r[..m] == old(r[..m])
    ensures r[m..|s|] == s[m..]
  {
    for i := m to |s|
      invariant r[..m] == old(r[..m])
      invariant r[m..i] == s[m..i]
    {
      r[i] := s[i];
      assert r[m..i + 1] == r[m..i] + [s[i]];
    }
  }

  lemma LimbsAgree(op: BitOp, lop: BitOp, not1: bool, not2: bool, n1: bool, n2: bool, rn: bool, wide: bool,
                   s: seq<digit>, t: seq<digit>, d: nat)
    requires Val(t) > 0
    requires Table(op, lop, not1, not2, n1, n2, rn, wide)
    requires Joined(lop, |t| * W, Decremented(n1, Val(s)), not1, Decremented(n2, Val(t)), not2, d, wide)
    ensures BitsOf(op, Signed(n1, Val(s)), Signed(n2, Val(t)), Signed(rn, if rn then d + 1 else d))
  {
    hide Val, P, Pow2, Joined, BitsOf, Table;
    ValBound(t);
    PIsPow2(|t|);
    SignsAgree(op, lop, not1, not2, n1, n2, rn, wide, |t| * W, Val(s), Val(t), d);
  }

  /** The negative result whose magnitude less one is in the low n limbs. */
  method NegateAndReduce(r: array<digit>, n: nat) returns (z: Z)
    requires n < r.Length
    modifies r
    ensures Canonical(z) && ToInt(z) == Signed(true, old(Val(r[..n])) + 1)
  {
    hide Val, P, Canonical;
    var c := Mpn.Add1(r, r[..n]);
    ghost var low := r[..n];
    r[n] := c;
    assert r[..n + 1] == low + [c];
    ValSnoc(low, c);
    z := Reduce(r, n + 1, true);
  }

  /** Packs the limbs of the result, incremented first when it is negative. */
  method Finish(op: BitOp, lop: BitOp, not1: bool, not2: bool, n1: bool, n2: bool, negative: bool, wide: bool,
                s: seq<digit>, t: seq<digit>, r: array<digit>, n: nat) returns (z: Z)
    requires n < r.Length && Val(t) > 0
    requires Table(op, lop, not1, not2, n1, n2, negative, wide)
    requires Joined(lop, |t| * W, Decremented(n1, Val(s)), not1, Decremented(n2, Val(t)), not2, Val(r[..n]), wide)
    modifies r
    ensures Canonical(z) && BitsOf(op, Signed(n1, Val(s)), Signed(n2, Val(t)), ToInt(z))
  {
    hide Val, P, Canonical, Joined, Table, BitsOf;
    LimbsAgree(op, lop, not1, not2, n1, n2, negative, wide, s, t, Val(r[..n]));
    if negative {
      z := NegateAndReduce(r, n);
    } else {
      z := Reduce(r, n, false);
    }
  }

  // The four sign cases, up to the limb operation and the width of the result

  /** Both operands negative. */
  method BothNegative(op: BitOp, s: seq<digit>, t: seq<digit>, lop: BitOp, negative: bool, wide: bool)
    returns (z: Z)
    requires |s| >= |t| && Val(s) > 0 && Val(t) > 0
    requires Table(op, lop, false, false, true, true, negative, wide)
    ensures Canonical(z) && BitsOf(op, Signed(true, Val(s)), Signed(true, Val(t)), ToInt(z))
  {
    hide Val, P, Canonical, Joined, Table, BitsOf;
    var n := if wide then |s| else |t|;
    var r := new digit[n + 1](_ => 0);
    var c := Mpn.Sub1(r, s[..n]);
    ghost var was, d := r[..], r[..n];
    assert d[..|t|] == r[..|t|];
    CombineDecremented(r, r[..|t|], t, lop);
    HighLimbsKept(was, r[..], |t|, n);
    FirstDecremented(s, d, n, c, |t|, wide);
    JoinParts(lop, |t|, Val(s) - 1, false, Val(t) - 1, false, d[..|t|], r[..|t|],
              if wide then Val(d[|t|..]) else Val(s[|t|..]) - c, d[|t|..], wide);
    z := Finish(op, lop, false, false, true, true, negative, wide, s, t, r, n);
  }

  /** Only the first, longer operand negative. */
  method FirstNegative(op: BitOp, s: seq<digit>, t: seq<digit>, lop: BitOp, not1: bool, not2: bool,
                       negative: bool, wide: bool)
    returns (z: Z)
    requires |s| >= |t| && Val(s) > 0 && Val(t) > 0
    requires Table(op, lop, not1, not2, true, false, negative, wide)
    ensures Canonical(z) && BitsOf(op, Signed(true, Val(s)), Signed(false, Val(t)), ToInt(z))
  {
    hide Val, P, Canonical, Joined, Table, BitsOf;
    var n := if wide then |s| else |t|;
    var r := new digit[n + 1](_ => 0);
    var c := Mpn.Sub1(r, s[..n]);
    ghost var was, d := r[..], r[..n];
    assert d[..|t|] == r[..|t|];
    CombineLimbs(r, r[..|t|], t, lop, not1, not2);
    HighLimbsKept(was, r[..], |t|, n);
    FirstDecremented(s, d, n, c, |t|, wide);
    JoinParts(lop, |t|, Val(s) - 1, not1, Val(t), not2, d[..|t|], r[..|t|],
              if wide then Val(d[|t|..]) else Val(s[|t|..]) - c, d[|t|..], wide);
    z := Finish(op, lop, not1, not2, true, false, negative, wide, s, t, r, n);
  }

  lemma HighLimbsKept(was: seq<digit>, now: seq<digit>, m: nat, n: nat)
    requires m <= n <= |now| == |was| && now[m..] == was[m..]
    ensures now[..n] == now[..m] + was[..n][m..]
    ensures n == m ==> was[..n][m..] == []
  {
    assert forall k :: m <= k < n ==> now[k] == now[m..][k - m] == was[k];
  }

  /** The first operand less one, where only its n low limbs were decremented. */
  lemma FirstDecremented(s: seq<digit>, d: seq<digit>, n: nat, c: nat, m: nat, wide: bool)
    requires m <= n == |d| && n <= |s| && n == (if wide then |s| else m) && Val(s) > 0
    requires Val(d) + 1 == Val(s[..n]) + c * P(n)
    ensures Val(s) - 1 == Val(d[..m]) + (if wide then Val(d[m..]) else Val(s[m..]) - c) * P(m)
  {
    hide Val, P;
    if wide {
      assert s[..n] == s;
      NoBorrow(d, n, c);
      SplitAt(d, m);
    } else {
      assert d[..m] == d;
      SplitAt(s, m);
      MulSub(Val(s[m..]), c, P(m));
    }
  }

  /** Only the second, shorter operand negative. */
  method SecondNegative(op: BitOp, s: seq<digit>, t: seq<digit>, lop: BitOp, not1: bool, not2: bool,
                        negative: bool, wide: bool)
    returns (z: Z)
    requires |s| >= |t| && Val(s) > 0 && Val(t) > 0
    requires Table(op, lop, not1, not2, false, true, negative, wide)
    ensures Canonical(z) && BitsOf(op, Signed(false, Val(s)), Signed(true, Val(t)), ToInt(z))
  {
    hide Val, P, Canonical, Joined, Table, BitsOf;
    var n := if wide then |s| else |t|;
    var r := new digit[n + 1](_ => 0);
    var c := Mpn.Sub1(r, t);
    NoBorrow(r[..|t|], |t|, c);
    CombineLimbs(r, s[..|t|], r[..|t|], lop, not1, not2);
    ghost var low := r[..|t|];
    if wide {
      CopyAbove(r, s, |t|);
    }
    JoinHigh(s, low, r[..n], lop, not1, Val(t) - 1, not2, wide);
    z := Finish(op, lop, not1, not2, false, true, negative, wide, s, t, r, n);
  }

  method NoneNegative(op: BitOp, s: seq<digit>, t: seq<digit>, lop: BitOp, negative: bool, wide: bool)
    returns (z: Z)
    requires |s| >= |t| && Val(s) > 0 && Val(t) > 0
    requires Table(op, lop, false, false, false, false, negative, wide)
    ensures Canonical(z) && BitsOf(op, Signed(false, Val(s)), Signed(false, Val(t)), ToInt(z))
  {
    hide Val, P, Canonical, Joined, Table, BitsOf;
    var n := if wide then |s| else |t|;
    var r := new digit[n + 1](_ => 0);
    CombineLimbs(r, s[..|t|], t, lop, false, false);
    ghost var low := r[..|t|];
    if wide {
      CopyAbove(r, s, |t|);
    }
    JoinHigh(s, low, r[..n], lop, false, Val(t), false, wide);
    z := Finish(op, lop, false, false, false, false, negative, wide, s, t, r, n);
  }

  lemma JoinHigh(s: seq<digit>, low: seq<digit>, z: seq<digit>, op: BitOp, notX: bool, y: int, notY: bool, wide: bool)
    requires |low| <= |s| && |z| == (if wide then |s| else |low|)
    requires z[..|low|] == low && (wide ==> z[|low|..] == s[|low|..])
    requires Joined(op, |low| * W, Val(s[..|low|]), notX, y, notY, Val(low), false)
    ensures Joined(op, |low| * W, Val(s), notX, y, notY, Val(z), wide)
  {
    hide Val, P, Joined;
    var m := |low|;
    var high := if wide then s[m..] else [];
    assert z == low + high;
    SplitAt(s, m);
    JoinParts(op, m, Val(s), notX, y, notY, s[..m], low, Val(s[m..]), high, wide);
  }

  lemma WithZero(x: int)
    ensures BitsOf(And, x, 0, 0) && BitsOf(And, 0, x, 0)
    ensures BitsOf(Or, x, 0, x) && BitsOf(Or, 0, x, x)
    ensures BitsOf(Xor, x, 0, x) && BitsOf(Xor, 0, x, x)
  {
    hide BitAt;
    forall i: nat
      ensures !BitAt(0, i)
    {
      NoBit(i);
    }
  }

  lemma BitsOfCommutes(op: BitOp, x: int, y: int, r: int)
    requires BitsOf(op, x, y, r)
    ensures BitsOf(op, y, x, r)
  {
  }


  lemma AndBits(x: int, y: int, r: int)
    requires BitsOf(And, x, y, r)
    ensures forall i: nat :: BitAt(r, i) == (BitAt(x, i) && BitAt(y, i))
  {
    hide BitAt;
  }

  method LogAnd(arg1: Z, arg2: Z) returns (z: Z)
    requires Canonical(arg1) && Canonical(arg2)
    ensures Canonical(z) && BitsOf(And, ToInt(arg1), ToInt(arg2), ToInt(z))
    ensures forall i: nat :: BitAt(ToInt(z), i) == (BitAt(ToInt(arg1), i) && BitAt(ToInt(arg2), i))
  {
    hide Val, P, Canonical, Arg, BitsOf, BitAt, ToInt;
    var x, y := arg1, arg2;
    if |Arg(x).mag| < |Arg(y).mag| {
      x, y := y, x;
    }
    ArgValue(x);
    ArgValue(y);
    var a, b := Arg(x), Arg(y);
    if |b.mag| == 0 {
      WithZero(ToInt(x));
      z := y;
    } else {
      z := LogAndLimbs(a.neg, a.mag, b.neg, b.mag);
    }
    BitsOfCommutes(And, ToInt(x), ToInt(y), ToInt(z));
    AndBits(ToInt(arg1), ToInt(arg2), ToInt(z));
  }

  lemma AndTables()
    ensures Table(And, Or, false, false, true, true, true, true)
    ensures Table(And, And, true, false, true, false, false, false)
    ensures Table(And, And, false, true, false, true, false, true)
    ensures Table(And, And, false, false, false, false, false, false)
  {
    hide BitAt, Bitwise, Pow2, Val, P;
  }

  method LogAndLimbs(n1: bool, s: seq<digit>, n2: bool, t: seq<digit>) returns (z: Z)
    requires |s| >= |t| && Val(s) > 0 && Val(t) > 0
    ensures Canonical(z) && BitsOf(And, Signed(n1, Val(s)), Signed(n2, Val(t)), ToInt(z))
  {
    hide Val, P, Canonical, BitsOf, Table, Signed, ToInt;
    AndTables();
    if n1 && n2 {
      z := BothNegative(And, s, t, Or, true, true);
    } else if n1 {
      z := FirstNegative(And, s, t, And, true, false, false, false);
    } else if n2 {
      z := SecondNegative(And, s, t, And, false, true, false, true);
    } else {
      z := NoneNegative(And, s, t, And, false, false);
    }
  }

  lemma OrBits(x: int, y: int, r: int)
    requires BitsOf(Or, x, y, r)
    ensures forall i: nat :: BitAt(r, i) == (BitAt(x, i) || BitAt(y, i))
  {
    hide BitAt;
  }

  method LogOr(arg1: Z, arg2: Z) returns (z: Z)
    requires Canonical(arg1) && Canonical(arg2)
    ensures Canonical(z) && BitsOf(Or, ToInt(arg1), ToInt(arg2), ToInt(z))
    ensures forall i: nat :: BitAt(ToInt(z), i) == (BitAt(ToInt(arg1), i) || BitAt(ToInt(arg2), i))
  {
    hide Val, P, Canonical, Arg, BitsOf, BitAt, ToInt;
    var x, y := arg1, arg2;
    if |Arg(x).mag| < |Arg(y).mag| {
      x, y := y, x;
    }
    ArgValue(x);
    ArgValue(y);
    var a, b := Arg(x), Arg(y);
    if |b.mag| == 0 {
      WithZero(ToInt(x));
      z := x;
    } else {
      z := LogOrLimbs(a.neg, a.mag, b.neg, b.mag);
    }
    BitsOfCommutes(Or, ToInt(x), ToInt(y), ToInt(z));
    OrBits(ToInt(arg1), ToInt(arg2), ToInt(z));
  }

  lemma OrTables()
    ensures Table(Or, And, false, false, true, true, true, false)
    ensures Table(Or, And, false, true, true, false, true, true)
    ensures Table(Or, And, true, false, false, true, true, false)
    ensures Table(Or, Or, false, false, false, false, false, true)
  {
    hide BitAt, Bitwise, Pow2, Val, P;
  }

  method LogOrLimbs(n1: bool, s: seq<digit>, n2: bool, t: seq<digit>) returns (z: Z)
    requires |s| >= |t| && Val(s) > 0 && Val(t) > 0
    ensures Canonical(z) && BitsOf(Or, Signed(n1, Val(s)), Signed(n2, Val(t)), ToInt(z))
  {
    hide Val, P, Canonical, BitsOf, Table, Signed, ToInt;
    OrTables();
    if n1 && n2 {
      z := BothNegative(Or, s, t, And, true, false);
    } else if n1 {
      z := FirstNegative(Or, s, t, And, false, true, true, true);
    } else if n2 {
      z := SecondNegative(Or, s, t, And, true, false, true, false);
    } else {
      z := NoneNegative(Or, s, t, Or, false, true);
    }
  }

  lemma XorBits(x: int, y: int, r: int)
    requires BitsOf(Xor, x, y, r)
    ensures forall i: nat :: BitAt(r, i) == (BitAt(x, i) != BitAt(y, i))
  {
    hide BitAt;
  }

  method LogXor(arg1: Z, arg2: Z) returns (z: Z)
    requires Canonical(arg1) && Canonical(arg2)
    ensures Canonical(z) && BitsOf(Xor, ToInt(arg1), ToInt(arg2), ToInt(z))
    ensures forall i: nat :: BitAt(ToInt(z), i) == (BitAt(ToInt(arg1), i) != BitAt(ToInt(arg2), i))
  {
    hide Val, P, Canonical, Arg, BitsOf, BitAt, ToInt;
    var x, y := arg1, arg2;
    if |Arg(x).mag| < |Arg(y).mag| {
      x, y := y, x;
    }
    ArgValue(x);
    ArgValue(y);
    var a, b := Arg(x), Arg(y);
    if |b.mag| == 0 {
      WithZero(ToInt(x));
      z := x;
    } else {
      z := LogXorLimbs(a.neg, a.mag, b.neg, b.mag);
    }
    BitsOfCommutes(Xor, ToInt(x), ToInt(y), ToInt(z));
    XorBits(ToInt(arg1), ToInt(arg2), ToInt(z));
  }

  lemma XorTables()
    ensures Table(Xor, Xor, false, false, true, true, false, true)
    ensures Table(Xor, Xor, false, false, true, false, true, true)
    ensures Table(Xor, Xor, false, false, false, true, true, true)
    ensures Table(Xor, Xor, false, false, false, false, false, true)
  {
    hide BitAt, Bitwise, Pow2, Val, P;
  }

  method LogXorLimbs(n1: bool, s: seq<digit>, n2: bool, t: seq<digit>) returns (z: Z)
    requires |s| >= |t| && Val(s) > 0 && Val(t) > 0
    ensures Canonical(z) && BitsOf(Xor, Signed(n1, Val(s)), Signed(n2, Val(t)), ToInt(z))
  {
    hide Val, P, Canonical, BitsOf, Table, Signed, ToInt;
    XorTables();
    if n1 && n2 {
      z := BothNegative(Xor, s, t, Xor, false, true);
    } else if n1 {
      z := FirstNegative(Xor, s, t, Xor, false, false, true, true);
    } else if n2 {
      z := SecondNegative(Xor, s, t, Xor, false, false, true, true);
    } else {
      z := NoneNegative(Xor, s, t, Xor, false, true);
    }
  }

  /** The logical operation on the whole integers is the one on any bit, as the bit
      test reads the three numbers. */
  method ReadBack(op: BitOp, x: Z, y: Z, i: nat) returns (z: Z, xi: bool, yi: bool, zi: bool)
    requires Canonical(x) && Canonical(y)
    ensures Canonical(z) && zi == op.Apply(xi, yi)
    ensures zi == match op case And => xi && yi case Or => xi || yi case Xor => xi != yi
    ensures xi == BitAt(ToInt(x), i) && yi == BitAt(ToInt(y), i) && zi == BitAt(ToInt(z), i)
  {
    hide Canonical, BitAt, ToInt;
    match op {
      case And => z := LogAnd(x, y);
      case Or => z := LogOr(x, y);
      case Xor => z := LogXor(x, y);
    }
    xi := TestBit(x, i);
    yi := TestBit(y, i);
    zi := TestBit(z, i);
  }
}
