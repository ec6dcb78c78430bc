/** Division of bng.c: by one digit, and normalised long division in place. */
module BngDiv {
  import opened Arith
  import opened Words
  import opened Bng
  import BngDigit
  import BngMul

  // Division by one digit

  /** The digits of u from i up are d times those of q from i up, plus r. The
      quotient has one digit less. */
  ghost predicate Quotient(q: seq<digit>, qo: nat, u: seq<digit>, uo: nat, i: nat, len: nat, d: int, r: int)
    requires i < len && qo + len - 1 <= |q| && uo + len <= |u|
  {
    Val(u[uo + i..uo + len]) == Val(q[qo + i..qo + (len - 1)]) * d + r
  }

  lemma QuotientStart(q: seq<digit>, qo: nat, u: seq<digit>, uo: nat, len: nat, d: int)
    requires 0 < len && qo + len - 1 <= |q| && uo + len <= |u|
    ensures Quotient(q, qo, u, uo, len - 1, len, d, u[uo + len - 1])
  {
    ValOne(u[uo + (len - 1)..uo + len]);
  }

  lemma QuotientStep(q': seq<digit>, q: seq<digit>, qo: nat, u: seq<digit>, uo: nat, i: nat, len: nat,
                     d: digit, r: digit, quo: digit, rem: digit)
    requires i + 1 < len && qo + len - 1 <= |q| == |q'| && uo + len <= |u|
    requires q == q'[qo + i := quo]
    requires r * BASE + u[uo + i] == quo * d + rem
    requires Quotient(q', qo, u, uo, i + 1, len, d, r)
    ensures Quotient(q, qo, u, uo, i, len, d, rem)
  {
    hide Val, P;
    ValCons(u, uo + i, len - i);
    ValCons(q, qo + i, len - 1 - i);
    assert q[qo + i + 1..qo + (len - 1)] == q'[qo + (i + 1)..qo + (len - 1)];
    assert u[uo + i + 1..uo + len] == u[uo + (i + 1)..uo + len];
    QuotientWeight(u[uo + i], quo, d, r, rem, Val(q'[qo + (i + 1)..qo + (len - 1)]),
                   Val(u[uo + (i + 1)..uo + len]));
  }

  lemma QuotientWeight(x: int, quo: int, d: int, r: int, rem: int, v: int, w: int)
    requires r * BASE + x == quo * d + rem
    requires w == v * d + r
    ensures x + BASE * w == (quo + BASE * v) * d + rem
  {
    MulAdd(v * d, r, BASE);
    MulAssoc(BASE, v, d);
    MulAdd(quo, BASE * v, d);
  }

  /** The quotient may overwrite the numerator, as long as it does not run ahead
      of the digits still to be read. */
  method DivRemNormDigit(a: array<digit>, ao: nat, b: array<digit>, bo: nat, len: nat, d: digit)
    returns (topdigit: digit)
    requires 0 < len && ao + len - 1 <= a.Length && bo + len <= b.Length
    requires a == b ==> bo <= ao
    requires b[bo + len - 1] < d
    modifies a
    ensures OnlyChanged(a, ao, ao + (len - 1))
    ensures topdigit < d
    ensures old(Val(b[bo..bo + len])) == Val(a[ao..ao + (len - 1)]) * d + topdigit
  {
    hide Val, P, Quotient;
    ghost var was, u := a[..], b[..];
    topdigit := b[bo + len - 1];
    QuotientStart(a[..], ao, u, bo, len, d);
    var i: int := len - 2;
    while i >= 0
      invariant -1 <= i <= len - 2
      invariant topdigit < d
      invariant forall k :: 0 <= k < a.Length && !(ao + i + 1 <= k < ao + (len - 1)) ==> a[k] == was[k]
      invariant forall k :: bo <= k <= bo + i ==> b[k] == u[k]
      invariant Quotient(a[..], ao, u, bo, i + 1, len, d, topdigit)
    {
      ghost var prev, top := a[..], topdigit;
      var quo: digit, rem: digit;
      quo, rem := BngDigit.Div(topdigit, b[bo + i], d);
      a[ao + i] := quo;
      topdigit := rem;
      QuotientStep(prev, a[..], ao, u, bo, i, len, d, top, quo, rem);
      i := i - 1;
    }
    QuotientWhole(a[..], ao, u, bo, len, d, topdigit);
  }

  lemma QuotientWhole(q: seq<digit>, qo: nat, u: seq<digit>, uo: nat, len: nat, d: int, r: int)
    requires 0 < len && qo + len - 1 <= |q| && uo + len <= |u|
    requires Quotient(q, qo, u, uo, 0, len, d, r)
    ensures Val(u[uo..uo + len]) == Val(q[qo..qo + (len - 1)]) * d + r
  {
    hide Val, P;
  }

  // Normalisation

  /** Shifting loses no bits when there is room above the top digit. */
  lemma NoBitsLost(now: seq<digit>, was: seq<digit>, o: nat, n: nat, c: nat, m: int, t: int)
    requires 0 < n && o + n <= |now| && o + n <= |was| && m > 0
    requires was[o + n - 1] <= t && (t + 1) * m <= BASE
    requires Scaled(now, was, o, n, c, m)
    ensures c == 0 && Val(now[o..o + n]) == Val(was[o..o + n]) * m
  {
    hide Val, P;
    TopBelow(was, o, n, t + 1);
    PSucc(n - 1);
    NoBitsArith(t, Val(was[o..o + n]), P(n - 1), m, BASE, Val(now[o..o + n]), c);
  }

  lemma NoBitsArith(t: int, v: int, p: int, m: int, base: int, w: int, c: int)
    requires v < (t + 1) * p && (t + 1) * m <= base
    requires w + c * (base * p) == v * m
    requires w >= 0 && c >= 0 && p > 0 && m > 0 && base > 0
    ensures c == 0
  {
    MulLt(v, (t + 1) * p, m);
    BngDigit.Swap(t + 1, p, m);
    MulLe((t + 1) * m, base, p);
    MulLe(0, base, p);
    if c > 0 {
      MulLe(1, c, base * p);
    }
  }

  lemma Normalised(d: digit, s: nat)
    requires d > 0 && LeadingZeros(d, s)
    ensures s < W
    ensures ((d as int) + 1) * Pow2(s) <= BASE
    ensures ShlW(d, s) == d * Pow2(s)
    ensures 2 * (d * Pow2(s)) >= BASE
  {
    hide Pow2;
    Pow2Add(W - 1 - s, s);
    Pow2Succ(W - 1 - s);
    Pow2Succ(W - 1);
    NormalisedArith(d, Pow2(W - 1 - s), Pow2(s), BASE);
    DivModUnique(d * Pow2(s), BASE, 0, d * Pow2(s));
  }

  lemma NormalisedArith(d: int, q: int, p: int, base: int)
    requires base == 2 * (q * p) && q <= d < 2 * q && p > 0
    ensures (d + 1) * p <= base && 0 <= d * p < base <= 2 * (d * p)
  {
    MulLe(d + 1, 2 * q, p);
    MulLe(q, d, p);
    MulAdd(d, 1, p);
    MulLe(0, d, p);
    MulAssoc(2, q, p);
  }

  /** A number's top digit is below d just when it is below d top places. */
  lemma TopBelow(s: seq<digit>, o: nat, n: nat, d: int)
    requires 0 < n && o + n <= |s|
    ensures s[o + n - 1] < d <==> Val(s[o..o + n]) < d * P(n - 1)
  {
    hide Val, P;
    ValTop(s[o..o + n]);
    var t: int := s[o + n - 1];
    assert t * P(n - 1) <= Val(s[o..o + n]) < (t + 1) * P(n - 1);
    if t < d {
      MulLe(t + 1, d, P(n - 1));
    } else {
      MulLe(d, t, P(n - 1));
    }
  }

  /** Undoing the scale of numerator and divisor leaves quotient and remainder. */
  lemma Unscale(x: nat, q: nat, d: nat, r: nat, m: nat, x': int, d': int)
    requires m > 0 && x' == x * m && d' == d * m
    requires x' == q * d' + r && r < d'
    ensures r % m == 0 && x == q * d + r / m && r / m < d
  {
    MulAssoc(q, d, m);
    MulSub(x, q * d, m);
    MulDiv(x - q * d, m);
    MulCancelLt(x - q * d, d, m);
  }

  method DivRemDigit(a: array<digit>, ao: nat, b: array<digit>, bo: nat, len: nat, d0: digit) returns (rem: digit)
    requires 0 < len && ao + len - 1 <= a.Length && bo + len <= b.Length
    requires a != b && b[bo + len - 1] < d0
    modifies a, b
    ensures b[..] == old(b[..])
    ensures OnlyChanged(a, ao, ao + (len - 1))
    ensures rem < d0
    ensures Val(b[bo..bo + len]) == Val(a[ao..ao + (len - 1)]) * d0 + rem
  {
    hide Val, P, Scaled, ShlW, ShrW, LeadingZeros, Pow2;
    ghost var was := b[..];
    ghost var v := Val(b[bo..bo + len]);
    var shift := LeadingZeroBits(d0);
    Normalised(d0, shift);
    var d := ShlW(d0, shift);
    var lost := ShiftLeft(b, bo, len, shift);
    NoBitsLost(b[..], was, bo, len, lost, Pow2(shift), d0);
    ScaledTop(was, b[..], bo, len, d0, Pow2(shift), d);
    rem := DivRemNormDigit(a, ao, b, bo, len, d);
    ghost var mid := b[..];
    var bits := ShiftRight(b, bo, len, shift);
    Restored(was, mid, b[..], bo, len, Pow2(shift));
    Unscale(v, Val(a[ao..ao + (len - 1)]), d0, rem, Pow2(shift), Val(mid[bo..bo + len]), d);
    ShrIsDiv(rem, shift);
    rem := ShrW(rem, shift);
  }

  lemma ShrIsDiv(x: digit, s: nat)
    ensures ShrW(x, s) == x / Pow2(s)
  {
  }

  /** Scaling numerator and divisor alike keeps the top digit below the divisor. */
  lemma ScaledTop(was: seq<digit>, now: seq<digit>, o: nat, n: nat, d: nat, m: nat, d': int)
    requires 0 < n && o + n <= |was| && o + n <= |now| && m > 0
    requires was[o + n - 1] < d && d' == d * m
    requires Val(now[o..o + n]) == Val(was[o..o + n]) * m
    ensures now[o + n - 1] < d'
  {
    hide Val, P;
    TopBelow(was, o, n, d);
    MulLt(Val(was[o..o + n]), d * P(n - 1), m);
    BngDigit.Swap(d, P(n - 1), m);
    MulLe(0, d, m);
    TopBelow(now, o, n, d');
  }

  /** Shifting back by as much restores every digit. */
  lemma Restored(was: seq<digit>, mid: seq<digit>, now: seq<digit>, o: nat, n: nat, m: nat)
    requires o + n <= |was| == |mid| == |now| && m > 0
    requires forall k :: 0 <= k < |was| && !(o <= k < o + n) ==> was[k] == now[k]
    requires Val(mid[o..o + n]) == Val(was[o..o + n]) * m
    requires Val(now[o..o + n]) == Val(mid[o..o + n]) / m
    ensures now == was
  {
    hide Val, P;
    MulDiv(Val(was[o..o + n]), m);
    ValInjective(now[o..o + n], was[o..o + n]);
    forall k | 0 <= k < |was|
      ensures was[k] == now[k]
    {
      if o <= k < o + n {
        assert now[o..o + n][k - o] == was[o..o + n][k - o];
      }
    }
  }

  // Long division

  /** The quotient of the two top digits of the window by one more than the top
      digit of the divisor; a divisor of BASE just drops a digit. */
  function Estimate(hi: digit, lo: digit, topden: digit): nat {
    BaseFacts();
    MulLe(0, hi, BASE);
    DivMonotone(0, hi * BASE + lo, topden + 1);
    (hi * BASE + lo) / (topden + 1)
  }

  method EstimateDigit(hi: digit, lo: digit, topden: digit) returns (quo: digit)
    requires hi <= topden
    ensures quo == Estimate(hi, lo, topden)
  {
    var rem: digit;
    BaseFacts();
    if AddW(topden, 1) == 0 {
      quo := hi;
      DivModUnique(hi * BASE + lo, BASE, hi, lo);
    } else {
      quo, rem := BngDigit.Div(hi, lo, AddW(topden, 1));
      DivModUnique(hi * BASE + lo, topden + 1, quo, rem);
    }
  }

  /** What the estimate guarantees about a window x of m + 1 digits and a
      normalised divisor y of m digits. */
  lemma EstimateOk(s: seq<digit>, i: nat, m: nat, d: seq<digit>, do: nat, q: nat)
    requires m >= 2 && i + m < |s| && do + m <= |d|
    requires s[i + m] <= d[do + m - 1] && 2 * d[do + m - 1] >= BASE
    ensures var e := Estimate(s[i + m], s[i + m - 1], d[do + m - 1]);
            && e * Val(d[do..do + m]) <= Val(s[i..i + m + 1])
            && (e < BASE && q * Val(d[do..do + m]) <= Val(s[i..i + m + 1]) ==> q <= e + 2)
  {
    hide Val, P;
    WindowSplit(s, i, m);
    ValExtend(d, do, m - 1);
    ValBound(s[i..i + (m - 1)]);
    ValBound(d[do..do + (m - 1)]);
    var e, t := Estimate(s[i + m], s[i + m - 1], d[do + m - 1]), d[do + m - 1];
    var nh := s[i + m] * BASE + s[i + m - 1];
    BngDigit.UnderEstimate(nh, Val(s[i..i + (m - 1)]), P(m - 1), t, Val(d[do..do + (m - 1)]), e);
    if e < BASE && q * Val(d[do..do + m]) <= Val(s[i..i + m + 1]) {
      BngDigit.EstimateMissesByTwo(nh, Val(s[i..i + (m - 1)]), P(m - 1), t, Val(d[do..do + (m - 1)]), e, q);
    }
  }

  lemma WindowSplit(s: seq<digit>, i: nat, m: nat)
    requires m >= 1 && i + m < |s|
    ensures Val(s[i..i + m + 1]) == (s[i + m] * BASE + s[i + m - 1]) * P(m - 1) + Val(s[i..i + (m - 1)])
  {
    hide Val, P;
    ValExtend(s, i, m);
    ValExtend(s, i, m - 1);
    PSucc(m - 1);
    MulAdd(s[i + m] * BASE, s[i + m - 1], P(m - 1));
    MulAssoc(s[i + m], BASE, P(m - 1));
  }

  /** The value of the window s[i..i+m], top digit apart. */
  ghost function Window(s: seq<digit>, i: nat, m: nat): nat
    requires i + m < |s|
  {
    MulLe(0, s[i + m], P(m));
    s[i + m] * P(m) + Val(s[i..i + m])
  }

  lemma WindowIsVal(s: seq<digit>, i: nat, m: nat)
    requires i + m < |s|
    ensures Window(s, i, m) == Val(s[i..i + m + 1])
    ensures s[i + m] == 0 ==> Window(s, i, m) == Val(s[i..i + m])
  {
    hide Val, P;
    ValExtend(s, i, m);
  }

  lemma TopOfWindow(s: seq<digit>, i: nat, m: nat, d: seq<digit>, do: nat)
    requires m >= 1 && i + m < |s| && do + m <= |d|
    requires Val(s[i..i + m + 1]) < Val(d[do..do + m]) * BASE
    ensures s[i + m] <= d[do + m - 1]
  {
    hide Val, P;
    var t: int := d[do + m - 1];
    TopBelow(d, do, m, t + 1);
    MulLe(Val(d[do..do + m]), (t + 1) * P(m - 1), BASE);
    BngDigit.Swap(t + 1, P(m - 1), BASE);
    MulAssoc(t + 1, BASE, P(m - 1));
    PSucc(m - 1);
    TopBelow(s, i, m + 1, t + 1);
  }

  /** A divisor whose top digit is at least half of BASE is positive and has no
      more digits than it says. */
  lemma DivisorBounds(d: seq<digit>, do: nat, m: nat)
    requires m >= 1 && do + m <= |d| && 2 * d[do + m - 1] >= BASE
    ensures 0 < Val(d[do..do + m]) < P(m)
  {
    hide Val, P;
    BaseFacts();
    ValTop(d[do..do + m]);
    ValBound(d[do..do + m]);
    MulLe(1, d[do + m - 1], P(m - 1));
  }

  /** Taking z from the low digits of a window of at least z, and the borrow from
      its top digit, takes z from the window. */
  lemma WindowMinus(prev: seq<digit>, mid: seq<digit>, now: seq<digit>, i: nat, m: nat, c: digit, z: nat)
    requires i + m < |prev| == |mid| && mid[i + m] == prev[i + m]
    requires now == mid[i + m := SubW(mid[i + m], c)]
    requires Grew(prev, mid, i, m, c, z)
    requires Window(prev, i, m) >= z
    ensures Window(now, i, m) == Window(prev, i, m) - z
  {
    hide Val, P;
    assert now[i..i + m] == mid[i..i + m];
    ValBound(mid[i..i + m]);
    BorrowFromTop(prev[i + m], c, P(m), Val(prev[i..i + m]), Val(mid[i..i + m]), z);
  }

  lemma BorrowFromTop(t: int, c: int, p: int, v: int, v': int, z: int)
    requires v + c * p == v' + z && t * p + v >= z && 0 <= v' < p
    ensures c <= t && (t - c) * p + v' == t * p + v - z
  {
    MulSub(t, c, p);
    if t < c {
      MulLe(t - c, -1, p);
    }
  }

  lemma LargeWindow(s: seq<digit>, i: nat, m: nat, y: nat)
    requires i + m < |s| && y < P(m)
    requires s[i + m] != 0 || Val(s[i..i + m]) >= y
    ensures Window(s, i, m) >= y
  {
    hide Val, P;
    MulLe(if s[i + m] == 0 then 0 else 1, s[i + m], P(m));
  }

  /** One turn of the long-division loop: estimates the quotient digit of the
      window n[i..i+m], subtracts, corrects, and stores the digit on top. */
  method QuotientDigit(n: array<digit>, i: nat, d: array<digit>, do: nat, m: nat)
    requires m >= 2 && i + m < n.Length && do + m <= d.Length && n != d
    requires 2 * d[do + m - 1] >= BASE
    requires Val(n[i..i + m + 1]) < Val(d[do..do + m]) * BASE
    modifies n
    ensures OnlyChanged(n, i, i + m + 1)
    ensures n[i + m] * Val(d[do..do + m]) + Val(n[i..i + m]) == old(Val(n[i..i + m + 1]))
    ensures Val(n[i..i + m]) < Val(d[do..do + m])
    ensures old(Estimate(n[i + m], n[i + m - 1], d[do + m - 1])) <= n[i + m]
    ensures n[i + m] <= old(Estimate(n[i + m], n[i + m - 1], d[do + m - 1])) + 2
  {
    hide Val, P, Grew, Estimate, Window;
    ghost var was := n[..];
    ghost var y, x := Val(d[do..do + m]), Window(was, i, m);
    WindowIsVal(was, i, m);
    TopOfWindow(was, i, m, d[..], do);
    DivisorBounds(d[..], do, m);
    var quo := EstimateDigit(n[i + m], n[i + m - 1], d[do + m - 1]);
    ghost var est: nat := quo;
    EstimateOk(was, i, m, d[..], do, 0);
    MulLe(0, est, y);
    var c := BngMul.MultSubDigit(n, i, m, d, do, m, quo);
    ghost var mid := n[..];
    n[i + m] := SubW(n[i + m], c);
    WindowMinus(was, mid, n[..], i, m, c, est * y);
    quo := Correct(n, i, d, do, m, quo, x);
    EstimateOk(was, i, m, d[..], do, quo);
    WindowIsVal(n[..], i, m);
    ghost var last := n[..];
    n[i + m] := quo;
    assert n[i..i + m] == last[i..i + m];
  }

  /** The correction loop: while the window is still above the divisor, subtracts
      the divisor once more. */
  method Correct(n: array<digit>, i: nat, d: array<digit>, do: nat, m: nat, est: digit, ghost x: nat)
    returns (quo: digit)
    requires m >= 1 && i + m < n.Length && do + m <= d.Length && n != d
    requires 0 < Val(d[do..do + m]) < P(m)
    requires est * Val(d[do..do + m]) + Window(n[..], i, m) == x
    requires x < Val(d[do..do + m]) * BASE
    modifies n
    ensures OnlyChanged(n, i, i + m + 1)
    ensures est <= quo
    ensures quo * Val(d[do..do + m]) + Window(n[..], i, m) == x
    ensures n[i + m] == 0 && Val(n[i..i + m]) < Val(d[do..do + m])
  {
    hide Val, P, Grew, Window;
    ghost var y := Val(d[do..do + m]);
    ghost var w := Window(n[..], i, m);
    quo := est;
    var cmp := Compare(n, i, m, d, do, m);
    while n[i + m] != 0 || cmp >= 0
      invariant OnlyChanged(n, i, i + m + 1)
      invariant w == Window(n[..], i, m)
      invariant est <= quo && quo * y + w == x
      invariant cmp >= 0 <==> Val(n[i..i + m]) >= y
      decreases w
    {
      LargeWindow(n[..], i, m, y);
      BngDigit.CorrectStep(quo, w, y, x, BASE);
      quo := AddW(quo, 1);
      ghost var prev := n[..];
      var k := Sub(n, i, m, d, do, m, 0);
      BaseFacts();
      ghost var mid := n[..];
      n[i + m] := SubW(n[i + m], k);
      WindowMinus(prev, mid, n[..], i, m, k, y);
      w := w - y;
      cmp := Compare(n, i, m, d, do, m);
    }
  }

  /** Midway: the digits from j up are quotient digits, those below j are what is
      left of the numerator x, less than the shifted divisor y. */
  ghost predicate Midway(s: seq<digit>, o: nat, nlen: nat, m: nat, j: nat, y: nat, x: nat)
    requires m <= j <= nlen && o + nlen <= |s|
  {
    && Val(s[o..o + j]) + y * (P(j - m) * Val(s[o + j..o + nlen])) == x
    && Val(s[o..o + j]) < y * P(j - m)
  }

  lemma MidwayStart(s: seq<digit>, o: nat, nlen: nat, m: nat, y: nat)
    requires m <= nlen && o + nlen <= |s|
    requires Val(s[o..o + nlen]) < y * P(nlen - m)
    ensures Midway(s, o, nlen, m, nlen, y, Val(s[o..o + nlen]))
  {
    hide P;
  }

  lemma MidwayEnd(s: seq<digit>, o: nat, nlen: nat, m: nat, y: nat, x: nat)
    requires m <= nlen && o + nlen <= |s|
    requires Midway(s, o, nlen, m, m, y, x)
    ensures x == Val(s[o + m..o + nlen]) * y + Val(s[o..o + m])
    ensures Val(s[o..o + m]) < y
  {
    hide Val;
    BottomPlace(y, P(m - m), Val(s[o + m..o + nlen]));
  }

  lemma BottomPlace(y: int, p: int, v: int)
    requires p == 1
    ensures y * (p * v) == v * y && y * p == y
  {
  }

  lemma MidwayWindow(s: seq<digit>, o: nat, nlen: nat, m: nat, i: nat, y: nat, x: nat)
    requires i + m + 1 <= nlen && o + nlen <= |s|
    requires Midway(s, o, nlen, m, i + m + 1, y, x)
    ensures Val(s[o + i..o + i + m + 1]) < y * BASE
  {
    hide P, Val;
    ValSplit(s, o, i, i + m + 1);
    PSucc(i);
    assert o + i + m + 1 == o + (i + m + 1);
    WindowBelow(Val(s[o..o + i]), Val(s[o + i..o + i + m + 1]), P(i), y, BASE);
  }

  lemma WindowBelow(low: int, w: int, p: int, y: int, base: int)
    requires low >= 0 && p > 0 && low + p * w < y * (base * p)
    ensures w < y * base
  {
    MulAssoc(y, base, p);
    MulCancelLt(w, y * base, p);
  }

  lemma MidwayStep(prev: seq<digit>, now: seq<digit>, o: nat, nlen: nat, m: nat, i: nat, y: nat, x: nat)
    requires i + m + 1 <= nlen && o + nlen <= |prev| == |now|
    requires Agree(prev, now, o, o + i) && Agree(prev, now, o + (i + m + 1), o + nlen)
    requires now[o + i + m] * y + Val(now[o + i..o + i + m]) == Val(prev[o + i..o + i + m + 1])
    requires Val(now[o + i..o + i + m]) < y
    requires Midway(prev, o, nlen, m, i + m + 1, y, x)
    ensures Midway(now, o, nlen, m, i + m, y, x)
  {
    hide P, Val;
    assert prev[o..o + i] == now[o..o + i];
    assert prev[o + (i + m + 1)..o + nlen] == now[o + (i + m + 1)..o + nlen];
    ValSplit(prev, o, i, i + m + 1);
    assert o + i + m + 1 == o + (i + m + 1) && o + i + m == o + (i + m);
    ValSplit(now, o, i, i + m);
    ValCons(now, o + i + m, nlen - i - m);
    assert now[o + i + m + 1..o + i + m + (nlen - i - m)] == now[o + (i + m + 1)..o + nlen];
    PSucc(i);
    ValBound(now[o..o + i]);
    MidwayWeight(Val(now[o..o + i]), Val(prev[o + i..o + i + m + 1]), Val(now[o + i..o + i + m]),
                 now[o + i + m], Val(now[o + (i + m + 1)..o + nlen]), P(i), P(i + 1), y, x, BASE,
                 Val(now[o + (i + m)..o + nlen]));
  }

  lemma MidwayWeight(low: int, w: int, r: int, quo: int, q: int, p: int, p1: int, y: int, x: int, base: int, q': int)
    requires low + p * w + y * (p1 * q) == x
    requires quo * y + r == w && 0 <= r < y && 0 <= low < p
    requires p1 == base * p && q' == quo + base * q
    ensures low + p * r + y * (p * q') == x
    ensures low + p * r < y * p
  {
    MulAdd(quo * y, r, p);
    MulAdd(quo, base * q, p);
    MulAdd(p * quo, p * (base * q), y);
    assert p * (base * q) == base * p * q;
    assert quo * y * p == y * (p * quo);
    MulLe(r + 1, y, p);
    MulAdd(r, 1, p);
  }

  /** A numerator whose top digit is below the divisor's is below the divisor
      moved up to its length. */
  lemma NumeratorBelow(n: seq<digit>, no: nat, nlen: nat, d: seq<digit>, do: nat, dlen: nat)
    requires 0 < dlen < nlen && no + nlen <= |n| && do + dlen <= |d|
    requires n[no + nlen - 1] < d[do + dlen - 1]
    ensures Val(n[no..no + nlen]) < Val(d[do..do + dlen]) * P(nlen - dlen)
  {
    hide P, Val;
    var t: int := d[do + dlen - 1];
    TopBelow(n, no, nlen, t);
    ValTop(d[do..do + dlen]);
    PAdd(dlen - 1, nlen - dlen);
    MulLe(t * P(dlen - 1), Val(d[do..do + dlen]), P(nlen - dlen));
    MulAssoc(t, P(dlen - 1), P(nlen - dlen));
  }

  lemma ScaleBelow(x: int, y: int, p: int, m: int)
    requires x < y * p && m > 0
    ensures x * m < y * m * p
  {
    MulLt(x, y * p, m);
    BngDigit.Swap(y, p, m);
  }

  /** The digits of n from dlen up become the quotient, those below it the
      remainder; d is as before. */
  method DivRem(n: array<digit>, no: nat, nlen: nat, d: array<digit>, do: nat, dlen: nat)
    requires 0 < dlen < nlen && no + nlen <= n.Length && do + dlen <= d.Length && n != d
    requires n[no + nlen - 1] < d[do + dlen - 1]
    modifies n, d
    ensures OnlyChanged(n, no, no + nlen)
    ensures d[..] == old(d[..])
    ensures old(Val(n[no..no + nlen])) == Val(n[no + dlen..no + nlen]) * Val(d[do..do + dlen]) + Val(n[no..no + dlen])
    ensures Val(n[no..no + dlen]) < Val(d[do..do + dlen])
  {
    hide Val, P, Pow2, Scaled, LeadingZeros, ShlW;
    ghost var wasN, wasD := n[..], d[..];
    ghost var x, y := Val(n[no..no + nlen]), Val(d[do..do + dlen]);
    var shift := LeadingZeroBits(d[do + dlen - 1]);
    Normalised(d[do + dlen - 1], shift);
    NumeratorBelow(wasN, no, nlen, wasD, do, dlen);
    ghost var m := Pow2(shift);
    var lost := ShiftLeft(n, no, nlen, shift);
    NoBitsLost(n[..], wasN, no, nlen, lost, m, d[do + dlen - 1]);
    var lost' := ShiftLeft(d, do, dlen, shift);
    NoBitsLost(d[..], wasD, do, dlen, lost', m, wasD[do + dlen - 1]);
    ghost var midD := d[..];
    NormalisedTop(wasD, midD, do, dlen, m);
    ScaleBelow(x, y, P(nlen - dlen), m);
    LongDivision(n, no, nlen, d, do, dlen);
    ghost var midN := n[..];
    var r := ShiftRight(n, no, dlen, shift);
    var r' := ShiftRight(d, do, dlen, shift);
    Restored(wasD, midD, d[..], do, dlen, m);
    assert n[no + dlen..no + nlen] == midN[no + dlen..no + nlen];
    Unscale(x, Val(midN[no + dlen..no + nlen]), y, Val(midN[no..no + dlen]), m, x * m, y * m);
  }

  lemma NormalisedTop(was: seq<digit>, now: seq<digit>, o: nat, n: nat, m: nat)
    requires 0 < n && o + n <= |was| && o + n <= |now|
    requires 2 * (was[o + n - 1] * m) >= BASE
    requires Val(now[o..o + n]) == Val(was[o..o + n]) * m
    ensures 2 * now[o + n - 1] >= BASE
  {
    hide Val, P;
    var t, t': int := was[o + n - 1], now[o + n - 1];
    ValTop(was[o..o + n]);
    ValTop(now[o..o + n]);
    MulLe(t * P(n - 1), Val(was[o..o + n]), m);
    BngDigit.Swap(t, P(n - 1), m);
    MulCancelLt(t * m, t' + 1, P(n - 1));
  }

  /** The middle of the division, on normalised operands. */
  method LongDivision(n: array<digit>, no: nat, nlen: nat, d: array<digit>, do: nat, dlen: nat)
    requires 0 < dlen < nlen && no + nlen <= n.Length && do + dlen <= d.Length && n != d
    requires 2 * d[do + dlen - 1] >= BASE
    requires Val(n[no..no + nlen]) < Val(d[do..do + dlen]) * P(nlen - dlen)
    modifies n
    ensures OnlyChanged(n, no, no + nlen)
    ensures old(Val(n[no..no + nlen])) == Val(n[no + dlen..no + nlen]) * Val(d[do..do + dlen]) + Val(n[no..no + dlen])
    ensures Val(n[no..no + dlen]) < Val(d[do..do + dlen])
  {
    hide Val, P, Midway, Estimate;
    ghost var x, y := Val(n[no..no + nlen]), Val(d[do..do + dlen]);
    if dlen == 1 {
      ValOne(d[do..do + 1]);
      TopBelow(n[..], no, nlen, d[do]);
      var rem := DivRemNormDigit(n, no + 1, n, no, nlen, d[do]);
      ghost var mid := n[..];
      n[no] := rem;
      ValOne(n[no..no + 1]);
      assert n[no + 1..no + nlen] == mid[no + 1..no + nlen];
    } else {
      MidwayStart(n[..], no, nlen, dlen, y);
      var j := nlen - 1;
      while j >= dlen
        invariant dlen - 1 <= j <= nlen - 1
        invariant OnlyChanged(n, no, no + nlen)
        invariant Midway(n[..], no, nlen, dlen, j + 1, y, x)
      {
        var i := j - dlen;
        ghost var prev := n[..];
        MidwayWindow(prev, no, nlen, dlen, i, y, x);
        QuotientDigit(n, no + i, d, do, dlen);
        MidwayStep(prev, n[..], no, nlen, dlen, i, y, x);
        j := j - 1;
      }
      MidwayEnd(n[..], no, nlen, dlen, y, x);
    }
  }
}
