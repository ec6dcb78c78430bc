/** Multiply-accumulate and squaring of bng.c. */
module BngMul {
  import opened Arith
  import opened Bits
  import opened Words
  import opened Bng
  import BngDigit

  // One digit times a number

  /** A digit, a product of two digits and a carried digit fit in two digits. */
  lemma AccumulateFits(x: nat, y: nat, d: nat, out: nat, ph: nat, pl: nat, base: nat)
    requires base >= 2 && x < base && y < base && d < base && out < base && pl < base
    requires ph * base + pl == y * d
    ensures (ph + (x + pl + out) / base) % base == ph + (x + pl + out) / base
    ensures (x + pl + out) % base + (ph + (x + pl + out) / base) * base == x + d * y + out
  {
    BngDigit.ProductBound(y, d, base, base * base);
    var t := x + pl + out;
    DivMod(t, base);
    DivMonotone(0, t, base);
    MulAdd(ph, t / base, base);
    DigitFits(ph + t / base, t % base, base);
    DivModUnique(ph + t / base, base, 0, ph + t / base);
  }

  lemma DigitFits(h: int, l: int, base: nat)
    requires h * base + l <= base * base - 1 && l >= 0 && base > 0
    ensures h < base
  {
    if h >= base {
      MulLe(base, h, base);
    }
  }

  /** The loop body of the addition: ph takes the carries of pl + out. */
  method Accumulate(x: digit, bd: digit, d: digit, out: digit) returns (res: digit, ph: digit)
    ensures res + ph * BASE == x + d * bd + out
  {
    hide *;
    BaseFacts();
    var pl: digit;
    ph, pl := BngDigit.Mult(bd, d);
    AccumulateFits(x, bd, d, out, ph, pl, BASE);
    res, ph := BngDigit.Add3(ph, x, pl, out);
  }

  method MultAddDigit(a: array<digit>, ao: nat, alen: nat, b: array<digit>, bo: nat, blen: nat, d: digit)
    returns (c: digit)
    requires ao + alen <= a.Length && bo + blen <= b.Length && blen <= alen
    requires a != b
    modifies a
    ensures OnlyChanged(a, ao, ao + alen)
    ensures alen > blen ==> c <= 1
    ensures Grew(a[..], old(a[..]), ao, alen, c, d * Val(b[bo..bo + blen]))
  {
    hide Val, P, Grew;
    BaseFacts();
    GrewStart(a[..], ao, 0);
    GrewStart(b[..], bo, 0);
    ghost var was := a[..];
    var out: digit := 0;
    for i := 0 to blen
      invariant forall k :: 0 <= k < a.Length && !(ao <= k < ao + i) ==> a[k] == was[k]
      invariant Grew(a[..], was, ao, i, out, d * Val(b[bo..bo + i]))
    {
      ghost var prev, c := a[..], out;
      var res: digit;
      res, out := Accumulate(a[ao + i], b[bo + i], d, out);
      a[ao + i] := res;
      GrewStep(prev, a[..], was, was, ao, b[..], bo, i, d, c, out, 0);
    }
    c := AddDigitTail(a, ao, was, blen, alen, out, d * Val(b[bo..bo + blen]));
  }

  /** The end of both digit routines' additions: out is added to the next digit
      and the carry from there ripples up. */
  method AddDigitTail(a: array<digit>, o: nat, ghost was: seq<digit>, m: nat, n: nat, out: digit, ghost x: int)
    returns (c: digit)
    requires m <= n && o + n <= a.Length == |was|
    requires forall k :: o + m <= k < a.Length ==> a[k] == was[k]
    requires Grew(a[..], was, o, m, out, x)
    modifies a
    ensures forall k :: 0 <= k < a.Length && !(o + m <= k < o + n) ==> a[k] == old(a[k])
    ensures n > m ==> c <= 1
    ensures Grew(a[..], was, o, n, c, x)
  {
    if n == m {
      return out;
    }
    hide Val, P, Grew;
    ghost var prev := a[..];
    var res: digit, carry: nat;
    res, carry := BngDigit.Add2(a[o + m], out);
    a[o + m] := res;
    RippleStep(prev, a[..], was, was, o, m, out, carry, x);
    ghost var mid := a[..];
    BaseFacts();
    c := AddCarry(a, o + (m + 1), n - (m + 1), carry);
    GrewJoinFrom(mid, was, a[..], mid, a[..], was, o, m + 1, n, carry, c, x);
  }

  lemma BorrowFits(x: nat, y: nat, d: nat, out: nat, ph: nat, pl: nat, base: nat)
    requires base >= 2 && x < base && y < base && d < base && out < base && pl < base
    requires ph * base + pl == y * d
    ensures (ph - (x - pl - out) / base) % base == ph - (x - pl - out) / base
    ensures (x - pl - out) % base - (ph - (x - pl - out) / base) * base == x - d * y - out
  {
    BngDigit.ProductBound(y, d, base, base * base);
    var t := x - pl - out;
    DivMod(t, base);
    DivMonotone(t, base - 1, base);
    DivModUnique(base - 1, base, 0, base - 1);
    MulSub(ph, t / base, base);
    MulLe(0, ph, base);
    DigitFits(ph - t / base, base - 1 - t % base, base);
    DivModUnique(ph - t / base, base, 0, ph - t / base);
  }

  /** The loop body of the subtraction: ph takes the borrows of pl + out. */
  method Deduct(x: digit, bd: digit, d: digit, out: digit) returns (res: digit, ph: digit)
    ensures x + ph * BASE == res + d * bd + out
  {
    hide *;
    BaseFacts();
    var pl: digit;
    ph, pl := BngDigit.Mult(bd, d);
    BorrowFits(x, bd, d, out, ph, pl, BASE);
    res, ph := BngDigit.Sub3(ph, x, pl, out);
  }

  method MultSubDigit(a: array<digit>, ao: nat, alen: nat, b: array<digit>, bo: nat, blen: nat, d: digit)
    returns (c: digit)
    requires ao + alen <= a.Length && bo + blen <= b.Length && blen <= alen
    requires a != b
    modifies a
    ensures OnlyChanged(a, ao, ao + alen)
    ensures alen > blen ==> c <= 1
    ensures Grew(old(a[..]), a[..], ao, alen, c, d * Val(b[bo..bo + blen]))
  {
    hide Val, P, Grew;
    BaseFacts();
    GrewStart(a[..], ao, 0);
    GrewStart(b[..], bo, 0);
    ghost var was := a[..];
    var out: digit := 0;
    for i := 0 to blen
      invariant forall k :: 0 <= k < a.Length && !(ao <= k < ao + i) ==> a[k] == was[k]
      invariant Grew(was, a[..], ao, i, out, d * Val(b[bo..bo + i]))
    {
      ghost var prev, c := a[..], out;
      var res: digit;
      res, out := Deduct(a[ao + i], b[bo + i], d, out);
      a[ao + i] := res;
      GrewStep(was, was, prev, a[..], ao, b[..], bo, i, d, c, out, 0);
    }
    c := SubDigitTail(a, ao, was, blen, alen, out, d * Val(b[bo..bo + blen]));
  }

  /** The end of the subtraction: out is taken from the next digit and the borrow
      from there ripples up. */
  method SubDigitTail(a: array<digit>, o: nat, ghost was: seq<digit>, m: nat, n: nat, out: digit, ghost x: int)
    returns (c: digit)
    requires m <= n && o + n <= a.Length == |was|
    requires forall k :: o + m <= k < a.Length ==> a[k] == was[k]
    requires Grew(was, a[..], o, m, out, x)
    modifies a
    ensures forall k :: 0 <= k < a.Length && !(o + m <= k < o + n) ==> a[k] == old(a[k])
    ensures n > m ==> c <= 1
    ensures Grew(was, a[..], o, n, c, x)
  {
    if n == m {
      return out;
    }
    hide Val, P, Grew;
    ghost var prev := a[..];
    var res: digit, carry: nat;
    res, carry := BngDigit.Sub2(a[o + m], out);
    a[o + m] := res;
    RippleStep(was, was, prev, a[..], o, m, out, carry, x);
    ghost var mid := a[..];
    BaseFacts();
    c := SubCarry(a, o + (m + 1), n - (m + 1), carry);
    GrewJoinFrom(was, mid, mid, a[..], was, a[..], o, m + 1, n, carry, c, x);
  }

  // Numbers times numbers

  /** Growing the digits from offset i on by y grows the whole by P(i) * y. */
  lemma GrewAbove(was: seq<digit>, prev: seq<digit>, now: seq<digit>, o: nat, i: nat, n: nat, c: int, k: int,
                  x: int, y: int)
    requires i <= n && o + n <= |was| == |prev| == |now|
    requires forall j :: o <= j < o + i ==> now[j] == prev[j]
    requires Grew(prev, was, o, n, c, x)
    requires Grew(now, prev, o + i, n - i, k, y)
    ensures Grew(now, was, o, n, c + k, x + P(i) * y)
  {
    hide Val, P;
    SuffixReplaced(prev, now, o, i, n);
    PAdd(i, n - i);
    AboveWeight(Val(now[o + i..o + n]), Val(prev[o + i..o + n]), k, y, P(i), P(n - i), P(n), c);
  }

  lemma AboveWeight(v': int, v: int, k: int, y: int, p: int, q: int, pq: int, c: int)
    requires v' + k * q == v + y && pq == p * q
    ensures p * (v' - v) + (c + k) * pq == c * pq + p * y
  {
    assert v' - v == y - k * q;
    MulSub(y, k * q, p);
    MulAdd(c, k, pq);
    assert k * q * p == k * (p * q);
  }

  /** A sum of at most m + 1 full-length parts carries at most m. */
  lemma GrewCarry(now: seq<digit>, was: seq<digit>, o: nat, n: nat, c: int, x: int, m: nat)
    requires o + n <= |now| && o + n <= |was|
    requires Grew(now, was, o, n, c, x)
    requires x <= m * P(n)
    ensures c <= m
    ensures x >= 0 ==> c >= 0
  {
    hide Val, P;
    ValBound(was[o..o + n]);
    ValBound(now[o..o + n]);
    MulAdd(m, 1, P(n));
    MulCancelLt(c, m + 1, P(n));
    if x >= 0 {
      MulAdd(c, 1, P(n));
      MulCancelLt(0, c + 1, P(n));
    }
  }

  lemma ProductValBound(s: seq<digit>, t: seq<digit>, n: nat)
    requires |s| + |t| <= n
    ensures 0 <= Val(s) * Val(t) <= P(n)
  {
    hide Val, P;
    ValBound(s);
    ValBound(t);
    PAdd(|s|, |t|);
    PMonotone(|s| + |t|, n);
    MulLe(Val(s), P(|s|), Val(t));
    MulLe(Val(t), P(|t|), P(|s|));
    MulLe(0, Val(s), Val(t));
  }

  method MultAdd(a: array<digit>, ao: nat, alen: nat, b: array<digit>, bo: nat, blen: nat,
                 c: array<digit>, co: nat, clen: nat)
    returns (carry: nat)
    requires ao + alen <= a.Length && bo + blen <= b.Length && co + clen <= c.Length
    requires blen + clen <= alen && a != b && a != c
    modifies a
    ensures OnlyChanged(a, ao, ao + alen)
    ensures carry <= 1
    ensures Grew(a[..], old(a[..]), ao, alen, carry, Val(b[bo..bo + blen]) * Val(c[co..co + clen]))
  {
    hide Val, P, Grew;
    ghost var was := a[..];
    ghost var bv := Val(b[bo..bo + blen]);
    carry := 0;
    GrewStart(a[..], ao, 0);
    GrewStop(was, was, ao, 0, alen, 0);
    GrewStart(c[..], co, 0);
    for i := 0 to clen
      invariant carry <= 1
      invariant forall k :: 0 <= k < a.Length && !(ao <= k < ao + alen) ==> a[k] == was[k]
      invariant Grew(a[..], was, ao, alen, carry, bv * Val(c[co..co + i]))
    {
      ghost var prev := a[..];
      var k := MultAddDigit(a, ao + i, alen - i, b, bo, blen, c[co + i]);
      GrewAbove(was, prev, a[..], ao, i, alen, carry, k, bv * Val(c[co..co + i]), c[co + i] * bv);
      ValExtend(c[..], co, i);
      NextProduct(bv, Val(c[co..co + i]), c[co + i], P(i));
      carry := carry + k;
      ProductValBound(b[bo..bo + blen], c[co..co + i + 1], alen);
      GrewCarry(a[..], was, ao, alen, carry, bv * Val(c[co..co + i + 1]), 1);
    }
  }

  lemma NextProduct(b: int, v: int, d: int, p: int)
    ensures b * (v + d * p) == b * v + p * (d * b)
  {
    MulAdd(v, d * p, b);
    assert b * (d * p) == p * (d * b);
  }

  // Squares

  /** The first k digits' products with the digits above them, in place. */
  ghost function Cross(s: seq<digit>, k: nat): (r: nat)
    requires k <= |s|
  {
    if k == 0 then 0
    else
      MulLe(0, s[k - 1], Val(s[k..]));
      MulLe(0, s[k - 1] * Val(s[k..]), P(2 * k - 1));
      Cross(s, k - 1) + P(2 * k - 1) * (s[k - 1] * Val(s[k..]))
  }

  /** The squares of the first k digits, in place. */
  ghost function Squares(s: seq<digit>, k: nat): (r: nat)
    requires k <= |s|
  {
    if k == 0 then 0
    else
      MulLe(0, s[k - 1], s[k - 1]);
      MulLe(0, (s[k - 1] as int) * s[k - 1], P(2 * k - 2));
      Squares(s, k - 1) + P(2 * k - 2) * ((s[k - 1] as int) * s[k - 1])
  }

  /** The square of a number: its digits' squares, each cross product twice,
      and what is left of the square above them. */
  lemma {:induction false} SquareSplit(s: seq<digit>, k: nat)
    requires k <= |s|
    ensures Val(s) * Val(s) == Squares(s, k) + 2 * Cross(s, k) + P(2 * k) * (Val(s[k..]) * Val(s[k..]))
    decreases k
  {
    if k == 0 {
      assert s[0..] == s;
    } else {
      SquareSplit(s, k - 1);
      ValConsFrom(s, k - 1);
      PSucc(2 * k - 2);
      PSucc(2 * k - 1);
      hide *;
      SquareWeight(s[k - 1], Val(s[k..]), Val(s[k - 1..]), P(2 * k - 2), P(2 * k - 1), P(2 * k));
    }
  }

  lemma ValConsFrom(s: seq<digit>, k: nat)
    requires k < |s|
    ensures Val(s[k..]) == s[k] + BASE * Val(s[k + 1..])
  {
    hide *;
    ValCons(s, k, |s| - k);
    assert s[k..] == s[k..k + (|s| - k)];
    assert s[k + 1..] == s[k + 1..k + (|s| - k)];
  }

  lemma SquareWeight(d: int, v: int, w: int, p: int, p1: int, p2: int)
    requires w == d + BASE * v && p1 == BASE * p && p2 == BASE * p1
    ensures p * (w * w) == p * (d * d) + 2 * (p1 * (d * v)) + p2 * (v * v)
  {
    var b := BASE;
    SquareOfSum(d, v, b, w);
    MoveUp(p, b, d * d, d * v, v * v, p1, p2);
  }

  lemma MoveUp(p: int, b: int, x: int, y: int, z: int, p1: int, p2: int)
    requires p1 == b * p && p2 == b * p1
    ensures p * (x + 2 * (b * y) + b * b * z) == p * x + 2 * (p1 * y) + p2 * z
  {
    MulAdd(x + 2 * (b * y), b * b * z, p);
    MulAdd(x, 2 * (b * y), p);
    assert p * (2 * (b * y)) == 2 * (b * p * y);
    assert p * (b * b * z) == b * (b * p) * z;
  }

  lemma SquareOfSum(d: int, v: int, b: int, w: int)
    requires w == d + b * v
    ensures w * w == d * d + 2 * (b * (d * v)) + b * b * (v * v)
  {
    MulAdd(d, b * v, w);
    MulAdd(d, b * v, d);
    MulAdd(d, b * v, b * v);
    assert d * (b * v) == b * (d * v);
    assert b * v * (b * v) == b * b * (v * v);
  }

  lemma CrossBound(s: seq<digit>, k: nat, n: nat)
    requires k <= |s| && 2 * |s| <= n
    ensures Cross(s, k) <= P(n)
  {
    hide Cross, Squares, Val, P;
    SquareSplit(s, k);
    ProductValBound(s, s, n);
    MulLe(0, Val(s[k..]), Val(s[k..]));
    MulLe(0, Val(s[k..]) * Val(s[k..]), P(2 * k));
  }

  method SquareAdd(a: array<digit>, ao: nat, alen: nat, b: array<digit>, bo: nat, blen: nat) returns (carry: nat)
    requires ao + alen <= a.Length && bo + blen <= b.Length && 2 * blen <= alen
    requires a != b
    modifies a
    ensures OnlyChanged(a, ao, ao + alen)
    ensures carry <= 2
    ensures Val(a[ao..ao + alen]) + carry * P(alen)
         == 2 * old(Val(a[ao..ao + alen])) + Val(b[bo..bo + blen]) * Val(b[bo..bo + blen])
  {
    hide Val, P, Grew, Scaled, Cross, Squares;
    ghost var was, bs := a[..], b[bo..bo + blen];
    var carry1 := CrossProducts(a, ao, alen, b, bo, blen);
    ghost var mid := a[..];
    assert Pow2(1) == 2;
    OneFits();
    var bit := ShiftLeft(a, ao, alen, 1);
    OrDisjoint(carry1, bit, 1);
    carry1 := Bitwise(Or, carry1 * 2, bit);
    Doubled(was, mid, a[..], ao, alen, carry1 - bit, bit, Cross(bs, blen));
    ghost var twice := a[..];
    var carry2 := AddSquares(a, ao, alen, b, bo, blen);
    SquareTotal(was, twice, a[..], ao, alen, carry1, carry2, bs);
    carry := carry1 + carry2;
  }

  lemma OneFits()
    ensures 1 < W
  {
    BaseFacts();
  }

  /** The double products, each once. */
  method CrossProducts(a: array<digit>, ao: nat, alen: nat, b: array<digit>, bo: nat, blen: nat)
    returns (carry1: nat)
    requires ao + alen <= a.Length && bo + blen <= b.Length && 2 * blen <= alen
    requires a != b
    modifies a
    ensures OnlyChanged(a, ao, ao + alen)
    ensures carry1 <= 1
    ensures Grew(a[..], old(a[..]), ao, alen, carry1, Cross(b[bo..bo + blen], blen))
  {
    hide Val, P, Grew, Cross;
    ghost var was, bs := a[..], b[bo..bo + blen];
    GrewStart(was, ao, 0);
    GrewStop(was, was, ao, 0, alen, 0);
    CrossEnds(bs);
    carry1 := 0;
    var i := 1;
    while i < blen
      invariant 1 <= i && (i <= blen || i == 1)
      invariant carry1 <= 1
      invariant forall k :: 0 <= k < a.Length && !(ao <= k < ao + alen) ==> a[k] == was[k]
      invariant Grew(a[..], was, ao, alen, carry1, Cross(bs, if i <= blen then i - 1 else 0))
    {
      ghost var prev := a[..];
      var aofs := 2 * i - 1;
      var k := MultAddDigit(a, ao + aofs, alen - aofs, b, bo + i, blen - i, b[bo + i - 1]);
      assert b[bo + i..bo + i + (blen - i)] == bs[i..];
      GrewAbove(was, prev, a[..], ao, aofs, alen, carry1, k, Cross(bs, i - 1), bs[i - 1] * Val(bs[i..]));
      CrossNext(bs, i);
      carry1 := carry1 + k;
      CrossBound(bs, i, alen);
      GrewCarry(a[..], was, ao, alen, carry1, Cross(bs, i), 1);
      i := i + 1;
    }
  }

  lemma CrossNext(s: seq<digit>, i: nat)
    requires 0 < i <= |s|
    ensures Cross(s, i) == Cross(s, i - 1) + P(2 * i - 1) * (s[i - 1] * Val(s[i..]))
  {
  }

  /** There is nothing above the last digit. */
  lemma CrossEnds(s: seq<digit>)
    ensures Cross(s, 0) == 0
    ensures |s| > 0 ==> Cross(s, |s|) == Cross(s, |s| - 1)
  {
    if |s| > 0 {
      CrossNext(s, |s|);
      assert s[|s|..] == [];
    }
  }

  lemma Doubled(was: seq<digit>, mid: seq<digit>, now: seq<digit>, o: nat, n: nat, c: int, bit: int, x: int)
    requires o + n <= |was| && o + n <= |mid| && o + n <= |now|
    requires c % 2 == 0 && Grew(mid, was, o, n, c / 2, x)
    requires Scaled(now, mid, o, n, bit, 2)
    ensures Grew(now, was, o, n, c + bit, Val(was[o..o + n]) + 2 * x)
  {
    hide Val, P;
    MulAdd(c, bit, P(n));
    assert c * P(n) == 2 * (c / 2 * P(n));
  }

  /** Adds the squares of the digits, two digits each, and lets the carry ripple. */
  method AddSquares(a: array<digit>, ao: nat, alen: nat, b: array<digit>, bo: nat, blen: nat)
    returns (carry2: nat)
    requires ao + alen <= a.Length && bo + blen <= b.Length && 2 * blen <= alen
    requires a != b
    modifies a
    ensures OnlyChanged(a, ao, ao + alen)
    ensures carry2 <= 1
    ensures Grew(a[..], old(a[..]), ao, alen, carry2, Squares(b[bo..bo + blen], blen))
  {
    hide Val, P, Grew, Squares;
    ghost var was, bs := a[..], b[bo..bo + blen];
    GrewStart(was, ao, 0);
    SquaresNext(bs, 0);
    carry2 := 0;
    for i := 0 to blen
      invariant carry2 <= 1
      invariant forall k :: 0 <= k < a.Length && !(ao <= k < ao + 2 * i) ==> a[k] == was[k]
      invariant Grew(a[..], was, ao, 2 * i, carry2, Squares(bs, i))
    {
      ghost var prev := a[..];
      var d := b[bo + i];
      var ph, pl := BngDigit.Mult(d, d);
      ghost var c0 := carry2;
      var res: digit;
      res, carry2 := BngDigit.Add2Carry(a[ao + 2 * i], pl, carry2);
      a[ao + 2 * i] := res;
      ghost var half, c1 := a[..], carry2;
      DigitStep(prev, half, was, was, ao, 2 * i, pl, c0, c1, Squares(bs, i));
      res, carry2 := BngDigit.Add2Carry(a[ao + 2 * i + 1], ph, carry2);
      a[ao + 2 * i + 1] := res;
      DigitStep(half, a[..], was, was, ao, 2 * i + 1, ph, c1, carry2, Squares(bs, i) + pl * P(2 * i));
      SquaresNext(bs, i);
      PSucc(2 * i);
      TwoDigitWeight(ph, pl, d, P(2 * i));
    }
    ghost var mid, c := a[..], carry2;
    carry2 := AddCarry(a, ao + 2 * blen, alen - 2 * blen, carry2);
    GrewJoinFrom(mid, was, a[..], mid, a[..], was, ao, 2 * blen, alen, c, carry2, Squares(bs, blen));
  }

  lemma SquaresNext(s: seq<digit>, i: nat)
    requires i <= |s|
    ensures Squares(s, 0) == 0
    ensures i < |s| ==> Squares(s, i + 1) == Squares(s, i) + P(2 * i) * ((s[i] as int) * s[i])
  {
  }

  lemma TwoDigitWeight(ph: int, pl: int, d: int, p: int)
    requires ph * BASE + pl == d * d
    ensures pl * p + ph * (BASE * p) == p * (d * d)
  {
    MulAdd(ph * BASE, pl, p);
    MulAssoc(ph, BASE, p);
  }

  lemma SquareTotal(was: seq<digit>, twice: seq<digit>, now: seq<digit>, o: nat, n: nat, c1: int, c2: int,
                    s: seq<digit>)
    requires o + n <= |was| && o + n <= |twice| && o + n <= |now| && 2 * |s| <= n
    requires Grew(twice, was, o, n, c1, Val(was[o..o + n]) + 2 * Cross(s, |s|))
    requires Grew(now, twice, o, n, c2, Squares(s, |s|))
    ensures c1 + c2 <= 2
    ensures Val(now[o..o + n]) + (c1 + c2) * P(n) == 2 * Val(was[o..o + n]) + Val(s) * Val(s)
  {
    hide Val, P, Cross, Squares;
    SquareSplit(s, |s|);
    EmptyTop(s);
    MulAdd(c1, c2, P(n));
    ValBound(was[o..o + n]);
    ProductValBound(s, s, n);
    GrewCarry(now, was, o, n, c1 + c2, Val(was[o..o + n]) + Val(s) * Val(s), 2);
  }

  lemma EmptyTop(s: seq<digit>)
    ensures Val(s[|s|..]) == 0
  {
  }
}
