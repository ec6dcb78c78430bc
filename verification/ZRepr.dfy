/** Zarith integers: small ones unboxed, the others a sign and a block of limbs
    without leading zeros. Canonical form, comparison, addition, division. */
module ZRepr {
  import opened Arith
  import opened Words
  import Mpn

  datatype Z = Small(n: int) | Big(neg: bool, mag: seq<digit>)

  /** Raised exceptions. */
  datatype Result<+T> = Ok(value: T) | DivisionByZero | InvalidArgument

  /** The bounds of an OCaml int, two bits less than a limb apart from the sign. */
  function MaxInt(): int {
    BASE / 4 - 1
  }

  function MinInt(): int {
    0 - BASE / 4
  }

  predicate FitsInt(n: int) {
    MinInt() <= n <= MaxInt()
  }

  function Signed(neg: bool, m: nat): int {
    if neg then 0 - m else m
  }

  function ToInt(z: Z): int {
    match z
    case Small(n) => n
    case Big(neg, mag) => Signed(neg, Val(mag))
  }

  ghost predicate Canonical(z: Z) {
    match z
    case Small(n) => FitsInt(n)
    case Big(neg, mag) => |mag| > 0 && mag[|mag| - 1] != 0 && !FitsInt(ToInt(z))
  }

  /** An argument as sign and limbs; a small one has at most one limb. */
  datatype Operand = Operand(neg: bool, mag: seq<digit>) {
    function Value(): int {
      Signed(neg, Val(mag))
    }

    predicate Trimmed() {
      && (|mag| > 0 ==> mag[|mag| - 1] != 0)
      && (neg ==> |mag| > 0)
    }
  }

  function Arg(z: Z): Operand
    requires Canonical(z)
  {
    match z
    case Small(n) =>
      BaseFacts();
      if n == 0 then Operand(false, []) else Operand(n < 0, [if n < 0 then 0 - n else n])
    case Big(neg, mag) => Operand(neg, mag)
  }

  lemma ArgValue(z: Z)
    requires Canonical(z)
    ensures Arg(z).Trimmed() && Arg(z).Value() == ToInt(z)
    ensures |Arg(z).mag| == 0 <==> ToInt(z) == 0
    ensures Val(Arg(z).mag) > 0 <==> |Arg(z).mag| > 0
  {
    BaseFacts();
    if z.Small? {
      if z.n != 0 {
        ValOne(Arg(z).mag);
      }
    } else {
      TrimmedPositive(z.mag);
    }
  }

  lemma TrimmedPositive(s: seq<digit>)
    requires |s| > 0 && s[|s| - 1] != 0
    ensures Val(s) >= P(|s| - 1) > 0
  {
    ValTop(s);
    MulLe(1, s[|s| - 1], P(|s| - 1));
  }

  /** More limbs make the larger number. */
  lemma LongerLarger(s: seq<digit>, t: seq<digit>)
    requires |s| > |t| && s[|s| - 1] != 0
    ensures Val(s) > Val(t)
  {
    hide Val, P;
    TrimmedPositive(s);
    ValBound(t);
    PMonotone(|t|, |s| - 1);
  }

  /** A trimmed magnitude fits an OCaml int just when ml_z_reduce finds so. */
  lemma FitsOneLimb(neg: bool, s: seq<digit>)
    requires |s| > 0 && s[|s| - 1] != 0
    ensures FitsInt(Signed(neg, Val(s))) <==> |s| == 1 && (s[0] <= MaxInt() || (s[0] == 0 - MinInt() && neg))
    ensures |s| == 1 ==> Val(s) == s[0]
  {
    hide Val, P;
    BaseFacts();
    if |s| == 1 {
      ValOne(s);
    } else {
      TrimmedPositive(s);
      PMonotone(1, |s| - 1);
      POne();
    }
  }

  lemma POne()
    ensures P(0) == 1 && P(1) == BASE
  {
    assert P(0) == 1;
  }

  /** The result block r, sz limbs and a sign, as a canonical integer. */
  method Reduce(r: array<digit>, sz0: nat, sign: bool) returns (z: Z)
    requires sz0 <= r.Length
    ensures Canonical(z)
    ensures ToInt(z) == Signed(sign, Val(r[..sz0]))
  {
    hide Val, P, MaxInt, MinInt;
    var sz := sz0;
    while sz > 0 && r[sz - 1] == 0
      invariant 0 <= sz <= sz0
      invariant Val(r[..sz]) == Val(r[..sz0])
    {
      sz := sz - 1;
      assert r[..sz + 1] == r[..sz] + [r[sz]];
      ValSnoc(r[..sz], r[sz]);
    }
    IntBounds();
    if sz == 0 {
      NoLimbs();
      return Small(0);
    }
    FitsOneLimb(sign, r[..sz]);
    if sz <= 1 {
      if r[0] <= MaxInt() {
        if sign {
          return Small(0 - r[0] as int);
        } else {
          return Small(r[0]);
        }
      }
      if r[0] == 0 - MinInt() && sign {
        return Small(MinInt());
      }
    }
    return Big(sign, r[..sz]);
  }

  lemma IntBounds()
    ensures MinInt() < 0 <= MaxInt() == 0 - MinInt() - 1
    ensures 0 - MinInt() < BASE
  {
    BaseFacts();
  }

  lemma NoLimbs()
    ensures Val([]) == 0
  {
  }

  /** A canonical integer is unboxed just when it is in the range of OCaml ints, which
      are two bits narrower than limbs, sign included. */
  lemma SmallIsRange(z: Z)
    requires Canonical(z)
    ensures W >= 2 && (z.Small? <==> 0 - Pow2(W - 2) <= ToInt(z) < Pow2(W - 2))
  {
    BaseFacts();
    Pow2Succ(W - 1);
    Pow2Succ(W - 2);
  }

  /** A canonical integer is determined by its value. */
  lemma CanonicalUnique(x: Z, y: Z)
    requires Canonical(x) && Canonical(y) && ToInt(x) == ToInt(y)
    ensures x == y
  {
    if x.Big? && y.Big? {
      TrimmedPositive(x.mag);
      TrimmedPositive(y.mag);
      assert x.neg == y.neg && Val(x.mag) == Val(y.mag);
      if |x.mag| > |y.mag| {
        LongerLarger(x.mag, y.mag);
      } else if |y.mag| > |x.mag| {
        LongerLarger(y.mag, x.mag);
      } else {
        ValInjective(x.mag, y.mag);
      }
    }
  }

  /** A boxed integer is below or above every unboxed one. */
  lemma BigBeyondSmall(z: Z, n: int)
    requires Canonical(z) && z.Big? && FitsInt(n)
    ensures ToInt(z) < n <==> z.neg
    ensures ToInt(z) != n
  {
    BaseFacts();
    TrimmedPositive(z.mag);
  }

  /** Three-way comparison. `same` says that the arguments are one word: equal
      small integers, or one block. */
  method Compare(x: Z, y: Z, same: bool) returns (r: int)
    requires Canonical(x) && Canonical(y)
    requires same ==> x == y
    requires x.Small? && x == y ==> same
    ensures r == -1 || r == 0 || r == 1
    ensures r > 0 <==> ToInt(x) > ToInt(y)
    ensures r < 0 <==> ToInt(x) < ToInt(y)
    ensures r == 0 <==> ToInt(x) == ToInt(y)
  {
    hide Val, P, FitsInt;
    if same {
      return 0;
    }
    if y.Small? {
      if x.Small? {
        return if x.n > y.n then 1 else -1;
      } else {
        BigBeyondSmall(x, y.n);
        return if x.neg then -1 else 1;
      }
    } else if x.Small? {
      BigBeyondSmall(y, x.n);
      return if y.neg then 1 else -1;
    }
    TrimmedPositive(x.mag);
    TrimmedPositive(y.mag);
    r := 0;
    if x.neg != y.neg {
      r := 1;
    } else if |x.mag| > |y.mag| {
      LongerLarger(x.mag, y.mag);
      r := 1;
    } else if |x.mag| < |y.mag| {
      LongerLarger(y.mag, x.mag);
      r := -1;
    } else {
      r := CompareLimbs(x.mag, y.mag);
    }
    if x.neg {
      r := 0 - r;
    }
  }

  /** The limb loop of the comparison, from the top down. */
  method CompareLimbs(s: seq<digit>, t: seq<digit>) returns (r: int)
    requires |s| == |t|
    ensures r == -1 || r == 0 || r == 1
    ensures r > 0 <==> Val(s) > Val(t)
    ensures r < 0 <==> Val(s) < Val(t)
    ensures r == 0 <==> Val(s) == Val(t)
  {
    hide Val, P;
    r := 0;
    var i: int := |s| - 1;
    while i >= 0
      invariant -1 <= i < |s|
      invariant forall k :: i < k < |s| ==> s[k] == t[k]
    {
      if s[i] > t[i] {
        HigherLimb(s, t, i);
        return 1;
      }
      if s[i] < t[i] {
        HigherLimb(t, s, i);
        return -1;
      }
      i := i - 1;
    }
    assert s == t;
  }

  lemma HigherLimb(s: seq<digit>, t: seq<digit>, i: nat)
    requires i < |s| == |t| && s[i] > t[i] && forall k :: i < k < |s| ==> s[k] == t[k]
    ensures Val(s) > Val(t)
  {
    hide Val, P;
    assert s[i + 1..] == t[i + 1..];
    Mpn.HigherDigit(s, t, i);
  }

  method Equal(x: Z, y: Z, same: bool) returns (r: bool)
    requires Canonical(x) && Canonical(y)
    requires same ==> x == y
    requires x.Small? && x == y ==> same
    ensures r <==> ToInt(x) == ToInt(y)
  {
    hide Val, P, FitsInt;
    if ToInt(x) == ToInt(y) {
      CanonicalUnique(x, y);
    }
    if same {
      return true;
    }
    if y.Small? || x.Small? {
      return false;
    }
    if x.neg != y.neg || |x.mag| != |y.mag| {
      return false;
    }
    for i := 0 to |x.mag|
      invariant x.mag[..i] == y.mag[..i]
    {
      if x.mag[i] != y.mag[i] {
        return false;
      }
      assert x.mag[..i + 1] == x.mag[..i] + [x.mag[i]];
      assert y.mag[..i + 1] == y.mag[..i] + [y.mag[i]];
    }
    assert x.mag[..|x.mag|] == x.mag && y.mag[..|x.mag|] == y.mag;
    return true;
  }

  /** x + y, or x - y when `minus` is set. */
  method AddSub(x: Z, y: Z, minus: bool) returns (z: Z)
    requires Canonical(x) && Canonical(y)
    ensures Canonical(z)
    ensures ToInt(z) == if minus then ToInt(x) - ToInt(y) else ToInt(x) + ToInt(y)
  {
    hide Val, P, Canonical, Arg;
    ArgValue(x);
    ArgValue(y);
    var a, b := Arg(x), Arg(y);
    var s, t := a.mag, b.mag;
    var sign2 := if minus then !b.neg else b.neg;
    if |t| == 0 {
      return x;
    } else if |s| == 0 {
      if minus {
        var r := new digit[|t|](_ => 0);
        Mpn.Copy(r, t);
        z := Reduce(r, |t|, sign2);
      } else {
        z := y;
      }
    } else if a.neg == sign2 {
      if |s| >= |t| {
        z := AddMagnitudes(s, t, a.neg);
      } else {
        z := AddMagnitudes(t, s, a.neg);
      }
    } else if |s| > |t| {
      LongerLarger(s, t);
      z := SubMagnitudes(s, t, a.neg);
    } else if |s| < |t| {
      LongerLarger(t, s);
      z := SubMagnitudes(t, s, sign2);
    } else {
      var cmp := Mpn.Cmp(s, t);
      if cmp > 0 {
        z := SubMagnitudes(s, t, a.neg);
      } else if cmp < 0 {
        z := SubMagnitudes(t, s, sign2);
      } else {
        ZeroIsCanonical();
        return Small(0);
      }
    }
  }

  lemma ZeroIsCanonical()
    ensures Canonical(Small(0))
  {
    BaseFacts();
  }

  method AddMagnitudes(s: seq<digit>, t: seq<digit>, neg: bool) returns (z: Z)
    requires |s| >= |t|
    ensures Canonical(z) && ToInt(z) == Signed(neg, Val(s) + Val(t))
  {
    hide Val, P, Canonical;
    var r := new digit[|s| + 1](_ => 0);
    var c := Mpn.Add(r, s, t);
    ghost var low := r[..|s|];
    r[|s|] := c;
    assert r[..|s| + 1] == low + [c];
    ValSnoc(low, c);
    z := Reduce(r, |s| + 1, neg);
  }

  method SubMagnitudes(s: seq<digit>, t: seq<digit>, neg: bool) returns (z: Z)
    requires |s| >= |t| && Val(s) >= Val(t)
    ensures Canonical(z) && ToInt(z) == Signed(neg, Val(s) - Val(t))
  {
    hide Val, P, Canonical;
    var r := new digit[|s|](_ => 0);
    var c := Mpn.Sub(r, s, t);
    NoBorrow(r[..|s|], |s|, c);
    z := Reduce(r, |s|, neg);
  }

  lemma NoBorrow(low: seq<digit>, n: nat, c: nat)
    requires |low| == n && Val(low) >= c * P(n)
    ensures c == 0
  {
    hide Val, P;
    ValBound(low);
    if c > 0 {
      MulLe(1, c, P(n));
    }
  }
}
