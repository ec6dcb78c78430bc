/** Division with rounding towards plus or minus infinity. */
module ZDiv {
  import opened Arith
  import opened Words
  import opened ZRepr
  import Mpn

  /** The greatest integer not above a / b. */
  function FloorDiv(a: int, b: int): int
    requires b != 0
  {
    if b > 0 then a / b else (0 - a) / (0 - b)
  }

  /** The least integer not below a / b. */
  function CeilDiv(a: int, b: int): int
    requires b != 0
  {
    0 - FloorDiv(0 - a, b)
  }

  /** They are what their names say, and adjacent unless the division is exact. */
  lemma RoundedQuotients(a: int, b: int)
    requires b != 0
    ensures var f, c := FloorDiv(a, b), CeilDiv(a, b);
            && (if b > 0 then f * b <= a < (f + 1) * b else (f + 1) * b < a <= f * b)
            && (if b > 0 then (c - 1) * b < a <= c * b else c * b <= a < (c - 1) * b)
            && c == (if f * b == a then f else f + 1)
  {
    if b > 0 {
      FloorCeil(a, b);
    } else {
      FloorCeil(0 - a, 0 - b);
      var f, c := FloorDiv(a, b), CeilDiv(a, b);
      hide FloorDiv, CeilDiv;
      NegMul(f, b);
      NegMul(f + 1, b);
      NegMul(c, b);
      NegMul(c - 1, b);
    }
  }

  lemma NegMul(x: int, y: int)
    ensures x * (0 - y) == 0 - x * y
  {
  }

  lemma FloorCeil(a: int, b: int)
    requires b > 0
    ensures a / b * b <= a < (a / b + 1) * b
    ensures (0 - (0 - a) / b - 1) * b < a <= (0 - (0 - a) / b) * b
    ensures 0 - (0 - a) / b == if a / b * b == a then a / b else a / b + 1
  {
    DivMod(a, b);
    MulAdd(a / b, 1, b);
    MulSub(0, (0 - a) / b, b);
    MulSub(0 - (0 - a) / b, 1, b);
    DivMod(0 - a, b);
    var q, r := a / b, a % b;
    MulSub(0, q, b);
    MulSub(0 - q, 1, b);
    if r == 0 {
      DivModUnique(0 - a, b, 0 - q, 0);
    } else {
      DivModUnique(0 - a, b, 0 - q - 1, b - r);
    }
  }

  /** C's division, towards zero. */
  function TruncDiv(a: int, b: int): int
    requires b != 0
  {
    if a >= 0 then (if b > 0 then a / b else 0 - a / (0 - b))
    else if b > 0 then 0 - (0 - a) / b
    else (0 - a) / (0 - b)
  }

  /** Quotient of magnitudes, one more when rounding goes outward and the
      division is not exact. */
  lemma RoundMagnitudes(m: nat, n: nat, q: int, r: nat, negM: bool, negN: bool)
    requires n > 0 && m == q * n + r && r < n
    ensures q >= 0
    ensures var a, b, up := Signed(negM, m), Signed(negN, n), q + (if r > 0 then 1 else 0);
            && FloorDiv(a, b) == (if negM == negN then q else 0 - up)
            && CeilDiv(a, b) == (if negM == negN then up else 0 - q)
  {
    DivModUnique(m, n, q, r);
    DivMonotone(0, m, n);
    MulSub(0, q, n);
    MulSub(0 - q, 1, n);
    if r == 0 {
      DivModUnique(0 - m, n, 0 - q, 0);
    } else {
      DivModUnique(0 - m, n, 0 - q - 1, n - r);
    }
  }

  function Rounded(a: int, b: int, down: bool): int
    requires b != 0
  {
    if down then FloorDiv(a, b) else CeilDiv(a, b)
  }

  /** Which integers they are. */
  lemma RoundedIs(a: int, b: int, down: bool, q: int)
    requires b != 0 && q == Rounded(a, b, down)
    ensures b > 0 && down ==> q * b <= a < (q + 1) * b
    ensures b > 0 && !down ==> (q - 1) * b < a <= q * b
    ensures b < 0 && down ==> (q + 1) * b < a <= q * b
    ensures b < 0 && !down ==> q * b <= a < (q - 1) * b
  {
    hide FloorDiv, CeilDiv;
    RoundedQuotients(a, b);
  }

  /** The general case: divides the magnitudes and adds one when the sign of the
      result points the way of the rounding and the remainder is not zero. */
  method RDiv(x: Z, y: Z, down: bool) returns (res: Result<Z>)
    requires Canonical(x) && Canonical(y)
    ensures res == DivisionByZero <==> ToInt(y) == 0
    ensures ToInt(y) != 0 ==>
              res.Ok? && Canonical(res.value) && ToInt(res.value) == Rounded(ToInt(x), ToInt(y), down)
    ensures ToInt(y) > 0 && down ==>
              ToInt(res.value) * ToInt(y) <= ToInt(x) < (ToInt(res.value) + 1) * ToInt(y)
    ensures ToInt(y) > 0 && !down ==>
              (ToInt(res.value) - 1) * ToInt(y) < ToInt(x) <= ToInt(res.value) * ToInt(y)
    ensures ToInt(y) < 0 && down ==>
              (ToInt(res.value) + 1) * ToInt(y) < ToInt(x) <= ToInt(res.value) * ToInt(y)
    ensures ToInt(y) < 0 && !down ==>
              ToInt(res.value) * ToInt(y) <= ToInt(x) < (ToInt(res.value) - 1) * ToInt(y)
  {
    hide Val, P, Canonical, Arg, FloorDiv, CeilDiv, FitsInt;
    ArgValue(x);
    ArgValue(y);
    var a, b := Arg(x), Arg(y);
    var s, t := a.mag, b.mag;
    if |t| == 0 {
      return DivisionByZero;
    }
    if |s| >= |t| {
      var z := DivideMagnitudes(s, t, a.neg, b.neg, down);
      res := Ok(z);
    } else {
      LongerLarger(t, s);
      RoundMagnitudes(Val(s), Val(t), 0, Val(s), a.neg, b.neg);
      SmallUnits();
      if |s| != 0 && (a.neg != b.neg) == down {
        res := Ok(Small(if down then -1 else 1));
      } else {
        res := Ok(Small(0));
      }
    }
    RoundedIs(ToInt(x), ToInt(y), down, ToInt(res.value));
  }

  /** The case of at least as many limbs above as below. */
  method DivideMagnitudes(s: seq<digit>, t: seq<digit>, neg1: bool, neg2: bool, down: bool) returns (z: Z)
    requires 0 < |t| <= |s| && t[|t| - 1] != 0
    ensures Canonical(z) && Val(t) > 0
    ensures ToInt(z) == Rounded(Signed(neg1, Val(s)), Signed(neg2, Val(t)), down)
  {
    hide Val, P, Canonical, FloorDiv, CeilDiv;
    TrimmedPositive(t);
    var n := |s| - |t| + 1;
    var c: digit := 0;
    var q := new digit[n + 1](_ => 0);
    var r := new digit[|t|](_ => 0);
    Mpn.TdivQr(q, r, s, t);
    RoundMagnitudes(Val(s), Val(t), Val(q[..n]), Val(r[..|t|]), neg1, neg2);
    ghost var quo := Val(q[..n]);
    if (neg1 != neg2) == down {
      var nonzero := NonZero(r);
      assert r[..|t|] == r[..];
      if nonzero {
        c := Mpn.Add1(q, q[..n]);
      }
    }
    ghost var low := q[..n];
    q[n] := c;
    assert q[..n + 1] == low + [c];
    ValSnoc(low, c);
    z := Reduce(q, n + 1, neg1 != neg2);
  }

  /** Whether any limb is not zero, looking from the top. */
  method NonZero(r: array<digit>) returns (yes: bool)
    ensures yes <==> Val(r[..]) > 0
  {
    hide Val, P;
    var sz := r.Length;
    while sz > 0 && r[sz - 1] == 0
      invariant 0 <= sz <= r.Length
      invariant forall k :: sz <= k < r.Length ==> r[k] == 0
    {
      sz := sz - 1;
    }
    if sz == 0 {
      ValZeros(r[..]);
    } else {
      SomeLimb(r[..], sz - 1);
    }
    return sz > 0;
  }

  lemma SomeLimb(s: seq<digit>, i: nat)
    requires i < |s| && s[i] != 0
    ensures Val(s) > 0
  {
    hide Val, P;
    assert s == s[..i + 1] + s[i + 1..];
    ValAppend(s[..i + 1], s[i + 1..]);
    TrimmedPositive(s[..i + 1]);
    MulLe(0, Val(s[i + 1..]), P(i + 1));
  }

  lemma SmallUnits()
    ensures Canonical(Small(0)) && Canonical(Small(-1)) && Canonical(Small(1))
  {
    BaseFacts();
  }

  /** Floor or ceiling division: small operands natively, by adjusting the
      dividend before C's division, the rest and overflowing quotients by RDiv. */
  method RoundedDiv(x: Z, y: Z, down: bool) returns (res: Result<Z>)
    requires Canonical(x) && Canonical(y)
    ensures res == DivisionByZero <==> ToInt(y) == 0
    ensures ToInt(y) != 0 ==>
              res.Ok? && Canonical(res.value) && ToInt(res.value) == Rounded(ToInt(x), ToInt(y), down)
    ensures ToInt(y) > 0 && down ==>
              ToInt(res.value) * ToInt(y) <= ToInt(x) < (ToInt(res.value) + 1) * ToInt(y)
    ensures ToInt(y) > 0 && !down ==>
              (ToInt(res.value) - 1) * ToInt(y) < ToInt(x) <= ToInt(res.value) * ToInt(y)
    ensures ToInt(y) < 0 && down ==>
              (ToInt(res.value) + 1) * ToInt(y) < ToInt(x) <= ToInt(res.value) * ToInt(y)
    ensures ToInt(y) < 0 && !down ==>
              ToInt(res.value) * ToInt(y) <= ToInt(x) < (ToInt(res.value) - 1) * ToInt(y)
  {
    hide FloorDiv, CeilDiv, TruncDiv, Val, P, MaxInt, MinInt;
    if x.Small? && y.Small? {
      var a1, a2 := x.n, y.n;
      if a2 == 0 {
        return DivisionByZero;
      }
      var a := Adjust(a1, a2, down);
      AdjustThenTruncate(a1, a2, down);
      var q := TruncDiv(a, a2);
      if FitsInt(q) {
        RoundedIs(a1, a2, down, q);
        return Ok(Small(q));
      }
    }
    res := RDiv(x, y, down);
  }

  /** What the source adds to a dividend so that truncating rounds as wanted. */
  function Adjust(a1: int, a2: int, down: bool): int {
    if down then
      if a1 < 0 && a2 > 0 then a1 - (a2 - 1)
      else if a1 > 0 && a2 < 0 then a1 - (a2 + 1)
      else a1
    else
      if a1 > 0 && a2 > 0 then a1 + (a2 - 1)
      else if a1 < 0 && a2 < 0 then a1 + (a2 + 1)
      else a1
  }

  /** The adjusted dividend still fits a signed word: C's arithmetic does not wrap. */
  lemma AdjustFitsWord(a1: int, a2: int, down: bool)
    requires FitsInt(a1) && FitsInt(a2)
    ensures 0 - BASE / 2 <= Adjust(a1, a2, down) < BASE / 2
  {
    BaseFacts();
  }

  lemma AdjustThenTruncate(a1: int, a2: int, down: bool)
    requires a2 != 0
    ensures TruncDiv(Adjust(a1, a2, down), a2) == Rounded(a1, a2, down)
    ensures var q := TruncDiv(Adjust(a1, a2, down), a2);
            && (a2 > 0 && down ==> q * a2 <= a1 < (q + 1) * a2)
            && (a2 > 0 && !down ==> (q - 1) * a2 < a1 <= q * a2)
            && (a2 < 0 && down ==> (q + 1) * a2 < a1 <= q * a2)
            && (a2 < 0 && !down ==> q * a2 <= a1 < (q - 1) * a2)
  {
    RoundedIs(a1, a2, down, Rounded(a1, a2, down));
    hide FloorDiv, CeilDiv;
    var m, n: nat := if a1 < 0 then 0 - a1 else a1, if a2 < 0 then 0 - a2 else a2;
    DivMod(m, n);
    DivMonotone(0, m, n);
    RoundMagnitudes(m, n, m / n, m % n, a1 < 0, a2 < 0);
    RoundedUp(m, n);
    DivModUnique(0, n, 0, 0);
  }

  lemma RoundedUp(m: int, n: int)
    requires n > 0
    ensures (m + (n - 1)) / n == m / n + (if m % n > 0 then 1 else 0)
  {
    DivMod(m, n);
    MulAdd(m / n, 1, n);
    if m % n == 0 {
      DivModUnique(m + (n - 1), n, m / n, n - 1);
    } else {
      DivModUnique(m + (n - 1), n, m / n + 1, m % n - 1);
    }
  }
}
