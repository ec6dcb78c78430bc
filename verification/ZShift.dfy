/** Right shift and bit-field extraction: floor division by a power of two, of
    numbers kept as sign and magnitude. */
module ZShift {
  import opened Arith
  import opened Bits
  import opened Words
  import opened ZRepr
  import Mpn
  import ZDiv

  /** Dropping k limbs divides by their place value. */
  lemma DropLimbs(s: seq<digit>, k: nat)
    requires k <= |s|
    ensures Val(s) / P(k) == Val(s[k..])
    ensures Val(s) % P(k) == Val(s[..k])
  {
    hide Val, P;
    assert s == s[..k] + s[k..];
    ValAppend(s[..k], s[k..]);
    ValBound(s[..k]);
    DivModUnique(Val(s), P(k), Val(s[k..]), Val(s[..k]));
  }

  /** Splitting a shift into whole limbs and the rest. */
  lemma SplitShift(s: seq<digit>, c: nat, c1: nat, c2: nat)
    requires c1 <= |s| && c == c1 * W + c2
    ensures Val(s) / Pow2(c) == Val(s[c1..]) / Pow2(c2)
    ensures Val(s) % Pow2(c) == 0 <==> Val(s[..c1]) == 0 && Val(s[c1..]) % Pow2(c2) == 0
  {
    hide Val, P, Pow2;
    PIsPow2(c1);
    Pow2Add(c1 * W, c2);
    DropLimbs(s, c1);
    DivDiv(Val(s), P(c1), Pow2(c2));
    DivMod(Val(s[c1..]), Pow2(c2));
    var rest := Val(s[c1..]) % Pow2(c2);
    if rest == 0 {
      assert P(c1) * rest == 0;
    } else {
      MulLe(1, rest, P(c1));
    }
  }

  /** A negative number's floor quotient rounds its magnitude up. */
  lemma NegativeFloor(m: nat, p: nat)
    requires p > 0
    ensures (0 - m) / p == 0 - (m / p + (if m % p == 0 then 0 else 1))
  {
    DivMod(m, p);
    MulSub(0, m / p, p);
    MulSub(0 - m / p, 1, p);
    if m % p == 0 {
      DivModUnique(0 - m, p, 0 - m / p, 0);
    } else {
      DivModUnique(0 - m, p, 0 - m / p - 1, p - m % p);
    }
  }

  lemma SmallMagnitudeFloor(m: nat, p: nat)
    requires m < p
    ensures m / p == 0
    ensures (0 - m) / p == if m == 0 then 0 else -1
  {
    DivModUnique(m, p, 0, m);
    NegativeFloor(m, p);
  }

  /** Whether any of the lowest k limbs is not zero. */
  method AnyBelow(s: seq<digit>, k: nat) returns (yes: bool)
    requires k <= |s|
    ensures yes <==> Val(s[..k]) != 0
  {
    hide Val, P;
    for i := 0 to k
      invariant forall j :: 0 <= j < i ==> s[j] == 0
    {
      if s[i] != 0 {
        ZDiv.SomeLimb(s[..k], i);
        return true;
      }
    }
    ValZeros(s[..k]);
    return false;
  }

  method ShiftRight(x: Z, c: int) returns (res: Result<Z>)
    requires Canonical(x)
    ensures res == InvalidArgument <==> c < 0
    ensures c >= 0 ==> res.Ok? && Canonical(res.value) && ToInt(res.value) == ToInt(x) / Pow2(c)
  {
    hide Val, P, Pow2, Canonical, Arg, FitsInt;
    if c < 0 {
      return InvalidArgument;
    }
    Pow2Zero();
    if c == 0 {
      return Ok(x);
    }
    BaseFacts();
    var c1, c2 := c / W, c % W;
    ArgValue(x);
    var a := Arg(x);
    ZDiv.SmallUnits();
    if c1 >= |a.mag| {
      TooFar(a.mag, c, c1, c2);
      return Ok(Small(if a.neg then -1 else 0));
    }
    var z := ShiftMagnitude(a.mag, a.neg, c, c1, c2);
    res := Ok(z);
  }

  lemma TooFar(s: seq<digit>, c: nat, c1: nat, c2: nat)
    requires c1 >= |s| && c == c1 * W + c2
    ensures Val(s) < Pow2(c)
    ensures Val(s) / Pow2(c) == 0
    ensures (0 - Val(s)) / Pow2(c) == if Val(s) == 0 then 0 else -1
  {
    hide Val, P, Pow2;
    LimbsBelow(s, c1);
    Pow2Monotone(c1 * W, c);
    SmallMagnitudeFloor(Val(s), Pow2(c));
  }

  lemma LimbsBelow(s: seq<digit>, n: nat)
    requires |s| <= n
    ensures n * W >= 0 && Val(s) < Pow2(n * W)
  {
    hide Val, P, Pow2;
    ValBound(s);
    PMonotone(|s|, n);
    PIsPow2(n);
  }

  /** The case where limbs are left: shifts the magnitude, and rounds a negative
      one up when a bit that was shifted out was set. */
  method ShiftMagnitude(s: seq<digit>, neg: bool, c: nat, c1: nat, c2: nat) returns (z: Z)
    requires c1 < |s| && c == c1 * W + c2 && c2 < W
    ensures Canonical(z) && ToInt(z) == Signed(neg, Val(s)) / Pow2(c)
  {
    hide Val, P, Pow2, Canonical;
    var n := |s| - c1;
    var r := new digit[n + 1](_ => 0);
    var cr: digit;
    SplitShift(s, c, c1, c2);
    Pow2Zero();
    if c2 != 0 {
      cr := Mpn.Rshift(r, s[c1..], c2);
      ShiftedOut(Val(s[c1..]), c2, cr);
    } else {
      Mpn.Copy(r, s[c1..]);
      cr := 0;
    }
    ghost var q := Val(r[..n]);
    if neg {
      var any := cr != 0;
      if !any {
        any := AnyBelow(s, c1);
      }
      NegativeFloor(Val(s), Pow2(c));
      cr := 0;
      if any {
        cr := Mpn.Add1(r, r[..n]);
      }
    } else {
      cr := 0;
    }
    ghost var low := r[..n];
    r[n] := cr;
    assert r[..n + 1] == low + [cr];
    ValSnoc(low, cr);
    z := Reduce(r, n + 1, neg);
  }

  lemma ShiftedOut(v: nat, c2: nat, out: int)
    requires c2 < W && out == v % Pow2(c2) * Pow2(W - c2)
    ensures out == 0 <==> v % Pow2(c2) == 0
  {
    DivMod(v, Pow2(c2));
    if v % Pow2(c2) > 0 {
      MulLe(1, v % Pow2(c2), Pow2(W - c2));
    }
  }

  /** Shifting right is flooring division by a power of two, to the bit. */
  method ShiftAndFdiv(x: Z, c: nat, y: Z) returns (s: Result<Z>, f: Result<Z>)
    requires Canonical(x) && Canonical(y) && ToInt(y) == Pow2(c)
    ensures s.Ok? && s == f
  {
    s := ShiftRight(x, c);
    f := ZDiv.RoundedDiv(x, y, true);
    CanonicalUnique(s.value, f.value);
  }

  // Extraction

  /** Shifting by more than a word's width replicates the sign, as shifting by
      one less than the width does. */
  lemma ClampedShift(n: int, o: nat)
    requires FitsInt(n)
    ensures n / Pow2(if o >= W then W - 1 else o) == n / Pow2(o)
  {
    if o >= W {
      BaseFacts();
      Pow2Succ(W - 1);
      Pow2Monotone(W - 1, o);
      hide Pow2;
      SignOnly(n, Pow2(W - 1));
      SignOnly(n, Pow2(o));
    }
  }

  lemma SignOnly(n: int, p: int)
    requires 0 - p <= n < p
    ensures n / p == if n < 0 then -1 else 0
  {
    DivModUnique(n, p, if n < 0 then -1 else 0, if n < 0 then n + p else n);
  }

  /** The value modulo a whole number of limbs, in two's complement: complementing
      the limbs of the quotient and adding one when the division was exact. */
  lemma ComplementOfQuotient(m: nat, p: nat, q: nat, size: nat, low: nat)
    requires p > 0 && q == m / p && size > 0 && low == q % size
    ensures ((0 - m) / p) % size == (if m % p == 0 then size - low else size - 1 - low) % size
  {
    NegativeFloor(m, p);
    DivMod(q, size);
    var k := q / size;
    MulSub(0, k, size);
    MulSub(0 - k, 1, size);
    if m % p == 0 {
      ModAddMultiple(size - low, 0 - k - 1, size);
    } else {
      ModAddMultiple(size - 1 - low, 0 - k - 1, size);
    }
  }

  /** Bits o to o + l - 1 of x, as a natural. */
  method Extract(x: Z, off: int, len: int) returns (res: Result<Z>)
    requires Canonical(x)
    ensures res == InvalidArgument <==> off < 0 || len <= 0
    ensures off >= 0 && len > 0 ==>
              res.Ok? && Canonical(res.value) && ToInt(res.value) == ToInt(x) / Pow2(off) % Pow2(len)
  {
    hide Val, P, Pow2, Canonical, Arg, MaxInt, MinInt;
    var o, l := off, len;
    if o < 0 {
      return InvalidArgument;
    }
    if l <= 0 {
      return InvalidArgument;
    }
    BaseFacts();
    if x.Small? {
      SmallFits(x);
      ClampedShift(x.n, o);
      if o >= W {
        o := W - 1;
      }
      var n := x.n / Pow2(o);
      FieldFits(x.n, o, n, l);
      if l < W - 1 {
        return Ok(Small(n % Pow2(l)));
      } else if n >= 0 {
        return Ok(Small(n));
      }
    }
    ArgValue(x);
    var a := Arg(x);
    var z := ExtractLimbs(a, o, l);
    res := Ok(z);
  }

  lemma SmallFits(x: Z)
    requires Canonical(x) && x.Small?
    ensures FitsInt(x.n)
  {
  }

  /** On the fast path the field is an OCaml int. */
  lemma FieldFits(x: int, o: nat, n: int, l: nat)
    requires FitsInt(x) && n == x / Pow2(o)
    ensures l < W - 1 ==> Canonical(Small(n % Pow2(l)))
    ensures l >= W - 1 && n >= 0 ==> n % Pow2(l) == n && Canonical(Small(n))
  {
    hide Pow2, Val, P;
    BaseFacts();
    QuarterOfBase();
    if l < W - 1 {
      DivMod(n, Pow2(l));
      Pow2Monotone(l, W - 2);
    } else if n >= 0 {
      Pow2Monotone(W - 2, l);
      ShiftedBelow(x, Pow2(o));
      DivModUnique(n, Pow2(l), 0, n);
    }
  }

  lemma QuarterOfBase()
    ensures W >= 2 && BASE / 4 == Pow2(W - 2)
  {
    BaseFacts();
    Pow2Succ(W - 1);
    Pow2Succ(W - 2);
  }

  lemma ShiftedBelow(x: int, p: int)
    requires p >= 1 && x / p >= 0
    ensures x / p <= x
  {
    DivMod(x, p);
    MulLe(1, p, x / p);
  }

  /** Limbs beyond the one above the field do not matter. */
  lemma TruncatedShift(v: nat, h: nat, c2: nat, n: nat)
    requires c2 < W
    ensures (v + P(n + 1) * h) / Pow2(c2) % P(n) == v / Pow2(c2) % P(n)
    ensures (v + P(n + 1) * h) % Pow2(c2) == v % Pow2(c2)
  {
    hide Val, P, Pow2;
    PSucc(n);
    BaseIsPow2();
    Pow2Add(W - c2, c2);
    TruncatedArith(v, h, Pow2(c2), Pow2(W - c2), P(n), BASE, P(n + 1));
  }

  lemma BaseIsPow2()
    ensures BASE == Pow2(W)
  {
  }

  lemma TruncatedArith(v: nat, h: nat, a: nat, b: nat, p: nat, base: nat, p1: nat)
    requires a > 0 && p > 0 && base == b * a && p1 == base * p
    ensures (v + p1 * h) / a % p == v / a % p
    ensures (v + p1 * h) % a == v % a
  {
    assert p1 * h == (h * b * p) * a;
    ModAddMultiple(v, h * b * p, a);
    ModAddMultiple(v / a, h * b, p);
  }

  /** A remainder by a multiple keeps the remainder by a part. */
  lemma ModMod(x: int, p: int, q: int)
    requires p > 0 && q > 0
    ensures p * q > 0 && x % (p * q) % p == x % p
  {
    DivDiv(x, p, q);
    DivMod(x, p);
    ModAddMultiple(x % p, x / p % q, p);
    DivModUnique(x % p, p, 0, x % p);
  }

  /** The limbs of the quotient by 2^o that the field reaches, and whether any bit
      of the limb it starts in was shifted out. */
  method FieldLimbs(r: array<digit>, s: seq<digit>, o: nat, c1: nat, c2: nat, sz: nat) returns (cr: digit)
    requires r.Length == sz + 1 && o == c1 * W + c2 && c2 < W
    modifies r
    ensures Val(r[..sz]) == Val(s) / Pow2(o) % P(sz)
    ensures c1 <= |s| ==> (cr == 0 <==> Val(s[c1..]) % Pow2(c2) == 0)
  {
    hide Val, P, Pow2;
    var csz: int := |s| - c1;
    if csz > sz + 1 {
      csz := sz + 1;
    }
    cr := 0;
    if csz > 0 {
      SplitShift(s, o, c1, c2);
      FieldIsEnough(s, c1, csz, c2, sz);
      cr := ShiftOrCopy(r, s[c1..c1 + csz], c2);
    } else {
      csz := 0;
      TooFar(s, o, c1, c2);
      NothingAbove(s, c1, c2);
    }
    ghost var low := r[..csz];
    var i := csz;
    while i < sz
      invariant r[..csz] == low && csz <= i <= sz + 1 && forall k :: csz <= k < i ==> r[k] == 0
    {
      r[i] := 0;
      i := i + 1;
    }
    FieldPadded(r[..], low, csz, sz, if c1 < |s| then Val(s[c1..]) / Pow2(c2) else 0);
  }

  lemma FieldPadded(r: seq<digit>, low: seq<digit>, csz: nat, sz: nat, v: nat)
    requires csz <= sz + 1 == |r| && r[..csz] == low
    requires forall k :: csz <= k < sz ==> r[k] == 0
    requires if csz == 0 then v == 0 else v % P(sz) == Val(low) % P(sz)
    ensures Val(r[..sz]) == v % P(sz)
  {
    hide Val, P;
    PaddedLow(r, low, csz, sz);
    if csz == 0 {
      NoLimbs();
    }
  }

  /** Shifts a block down by less than a limb, if at all. */
  method ShiftOrCopy(r: array<digit>, s: seq<digit>, c2: nat) returns (cr: digit)
    requires |s| <= r.Length && c2 < W
    modifies r
    ensures Val(r[..|s|]) == Val(s) / Pow2(c2)
    ensures cr == 0 <==> Val(s) % Pow2(c2) == 0
  {
    hide Val, P, Pow2;
    if c2 != 0 {
      cr := Mpn.Rshift(r, s, c2);
      ShiftedOut(Val(s), c2, cr);
    } else {
      Mpn.Copy(r, s);
      cr := 0;
      Pow2Zero();
    }
  }

  lemma NothingAbove(s: seq<digit>, c1: nat, c2: nat)
    requires c1 >= |s|
    ensures c1 == |s| ==> Val(s[c1..]) % Pow2(c2) == 0
  {
    DivModUnique(0, Pow2(c2), 0, 0);
  }

  lemma FieldIsEnough(s: seq<digit>, c1: nat, csz: nat, c2: nat, sz: nat)
    requires c1 + csz <= |s| && c2 < W && (csz == sz + 1 || c1 + csz == |s|)
    ensures Val(s[c1..]) / Pow2(c2) % P(sz) == Val(s[c1..c1 + csz]) / Pow2(c2) % P(sz)
    ensures Val(s[c1..]) % Pow2(c2) == Val(s[c1..c1 + csz]) % Pow2(c2)
  {
    hide Val, P, Pow2;
    if c1 + csz == |s| {
      assert s[c1..c1 + csz] == s[c1..];
    } else {
      assert s[c1..] == s[c1..c1 + csz] + s[c1 + csz..];
      ValAppend(s[c1..c1 + csz], s[c1 + csz..]);
      TruncatedShift(Val(s[c1..c1 + csz]), Val(s[c1 + csz..]), c2, sz);
    }
  }

  /** The low limbs of a block filled up with zeros, or cut off. */
  lemma PaddedLow(r: seq<digit>, low: seq<digit>, csz: nat, sz: nat)
    requires csz <= sz + 1 == |r| && r[..csz] == low
    requires forall k :: csz <= k < sz ==> r[k] == 0
    ensures Val(r[..sz]) == Val(low) % P(sz)
  {
    hide Val, P;
    if csz <= sz {
      assert r[..sz] == low + r[csz..sz];
      ValAppend(low, r[csz..sz]);
      ValZeros(r[csz..sz]);
      ValBound(r[..sz]);
      DivModUnique(Val(low), P(sz), 0, Val(low));
    } else {
      DropLimbs(low, sz);
      assert low[..sz] == r[..sz];
    }
  }

  /** Complements the lowest sz limbs. */
  method Complement(r: array<digit>, sz: nat)
    requires sz <= r.Length
    modifies r
    ensures Val(r[..sz]) == P(sz) - 1 - old(Val(r[..sz]))
  {
    hide Val, P;
    ghost var was := r[..];
    NoneComplemented();
    for i := 0 to sz
      invariant Val(r[..i]) == P(i) - 1 - Val(was[..i])
      invariant r[i..] == was[i..]
    {
      ghost var low := r[..i];
      assert r[i] == r[i..][0] == was[i..][0];
      r[i] := BASE - 1 - r[i] as int;
      assert r[..i + 1] == low + [r[i]] && was[..i + 1] == was[..i] + [was[i]];
      ValSnoc(low, r[i]);
      ValSnoc(was[..i], was[i]);
      PSucc(i);
      MulSub(BASE - 1, was[i], P(i));
      MulSub(BASE, 1, P(i));
    }
  }

  lemma NoneComplemented()
    ensures Val([]) == P(0) - 1 - Val([])
  {
  }

  /** The field of an operand, limb by limb. */
  method ExtractLimbs(a: Operand, o: nat, l: nat) returns (z: Z)
    requires a.Trimmed() && l > 0
    ensures Canonical(z) && ToInt(z) == a.Value() / Pow2(o) % Pow2(l)
  {
    hide Val, P, Pow2, Canonical;
    LimbsAndBits(o);
    LimbCount(l);
    var sz, c1, c2 := (l + W - 1) / W, o / W, o % W;
    var r := new digit[sz + 1](_ => 0);
    var cr := FieldLimbs(r, a.mag, o, c1, c2, sz);
    if a.neg {
      NegateField(r, a.mag, o, c1, c2, sz, cr);
    }
    z := MaskAndReduce(r, l, l % W, sz, a.Value() / Pow2(o));
  }

  lemma LimbsAndBits(o: nat)
    ensures W > 0 && o / W >= 0 && 0 <= o % W < W && o == o / W * W + o % W
  {
    BaseFacts();
    DivMod(o, W);
    DivMonotone(0, o, W);
  }

  /** A field of l bits needs l / W limbs, rounded up. */
  lemma LimbCount(l: nat)
    requires l > 0
    ensures W > 0 && (l + W - 1) / W >= 1 && 0 <= l % W < W
    ensures l == if l % W == 0 then (l + W - 1) / W * W else ((l + W - 1) / W - 1) * W + l % W
  {
    BaseFacts();
    LimbsAndBits(l);
    var q, t := l / W, l % W;
    if t == 0 {
      DivModUnique(l + W - 1, W, q, W - 1);
    } else {
      MulAdd(q, 1, W);
      DivModUnique(l + W - 1, W, q + 1, t - 1);
    }
  }

  /** Turns the field of a magnitude into that of its negation. */
  method NegateField(r: array<digit>, s: seq<digit>, o: nat, c1: nat, c2: nat, sz: nat, cr: digit)
    requires r.Length == sz + 1 && o == c1 * W + c2
    requires |s| > 0 && s[|s| - 1] != 0
    requires Val(r[..sz]) == Val(s) / Pow2(o) % P(sz)
    requires c1 <= |s| ==> (cr == 0 <==> Val(s[c1..]) % Pow2(c2) == 0)
    modifies r
    ensures Val(r[..sz]) == (0 - Val(s)) / Pow2(o) % P(sz)
  {
    hide Val, P, Pow2;
    ghost var low := Val(r[..sz]);
    var any := cr != 0;
    Complement(r, sz);
    if !any {
      any := AnyBelow(s, if c1 < |s| then c1 else |s|);
    }
    ExactBelow(s, o, c1, c2, cr);
    ComplementOfQuotient(Val(s), Pow2(o), Val(s) / Pow2(o), P(sz), low);
    var carry: digit := 0;
    if !any {
      carry := Mpn.Add1(r, r[..sz]);
    }
    WrapCarry(r[..sz], sz, carry);
  }

  lemma WrapCarry(r: seq<digit>, sz: nat, carry: nat)
    requires |r| == sz
    ensures Val(r) == (Val(r) + carry * P(sz)) % P(sz)
  {
    hide Val, P;
    ValBound(r);
    ModAddMultiple(Val(r), carry, P(sz));
    DivModUnique(Val(r), P(sz), 0, Val(r));
  }

  /** No bit below the field is set just when neither the partial limb nor a lower
      one has any. */
  lemma ExactBelow(s: seq<digit>, o: nat, c1: nat, c2: nat, cr: digit)
    requires |s| > 0 && s[|s| - 1] != 0 && o == c1 * W + c2
    requires c1 <= |s| ==> (cr == 0 <==> Val(s[c1..]) % Pow2(c2) == 0)
    ensures c1 < |s| ==> (Val(s) % Pow2(o) == 0 <==> cr == 0 && Val(s[..c1]) == 0)
    ensures c1 >= |s| ==> Val(s) % Pow2(o) != 0 && Val(s[..|s|]) != 0
  {
    hide Val, P, Pow2;
    if c1 < |s| {
      SplitShift(s, o, c1, c2);
    } else {
      assert s[..|s|] == s;
      TrimmedPositive(s);
      TooFar(s, o, c1, c2);
      DivModUnique(Val(s), Pow2(o), 0, Val(s));
    }
  }

  /** Masks the limbs down to l bits and packs them. */
  method MaskAndReduce(r: array<digit>, l: nat, l': nat, sz: nat, ghost x: int) returns (z: Z)
    requires sz >= 1 && r.Length == sz + 1 && l' < W
    requires l == if l' == 0 then sz * W else (sz - 1) * W + l'
    requires Val(r[..sz]) == x % P(sz)
    modifies r
    ensures Canonical(z) && ToInt(z) == x % Pow2(l)
  {
    hide Val, P, Pow2, Canonical, Bitwise, ShrW;
    if l' != 0 {
      ghost var low, top := r[..sz - 1], r[sz - 1];
      assert r[..sz] == low + [top];
      ValSnoc(low, top);
      MaskLimb(top, l');
      r[sz - 1] := Bitwise(And, r[sz - 1], ShrW(AllOnes(), W - l'));
      assert r[..sz] == low + [r[sz - 1]];
      ValSnoc(low, r[sz - 1]);
      MaskedTop(low, top, sz - 1, l', l, x);
    } else {
      PIsPow2(sz);
    }
    z := Reduce(r, sz, false);
  }

  function AllOnes(): digit {
    BaseFacts();
    BASE - 1
  }

  lemma MaskLimb(x: digit, k: nat)
    requires 0 < k < W
    ensures Bitwise(And, x, ShrW(AllOnes(), W - k)) == x % Pow2(k) < BASE
  {
    BaseIsPow2();
    Pow2Add(W - k, k);
    Pow2Monotone(k, W);
    hide Pow2;
    MulSub(Pow2(k), 1, Pow2(W - k));
    DivModUnique(BASE - 1, Pow2(W - k), Pow2(k) - 1, Pow2(W - k) - 1);
    AndMask(x, k);
    DivMod(x, Pow2(k));
  }

  lemma MaskedTop(low: seq<digit>, top: digit, n: nat, k: nat, l: nat, x: int)
    requires |low| == n && l == n * W + k && k < W
    requires Val(low) + top * P(n) == x % P(n + 1)
    ensures Val(low) + top % Pow2(k) * P(n) == x % Pow2(l)
  {
    hide Val, P, Pow2;
    PIsPow2(n);
    Pow2Add(n * W, k);
    PSucc(n);
    BaseIsPow2();
    Pow2Add(W - k, k);
    ValBound(low);
    var v, q, p := x % P(n + 1), Pow2(k), P(n);
    DivModUnique(v, p, top, Val(low));
    DivDiv(v, p, q);
    assert p * (top % q) == top % q * p;
    BaseTimes(BASE, q, Pow2(W - k), p, P(n + 1));
    ModMod(x, p * q, Pow2(W - k));
  }

  lemma BaseTimes(base: int, q: int, q': int, p: int, p1: int)
    requires base == q' * q && p1 == base * p
    ensures p1 == p * q * q'
  {
    assert q' * q * p == p * q * q';
  }
}
