/** The digit primitives of bng_digit.c, in their generic C form. Carries are
    small naturals; every digit operation wraps modulo BASE. */
module BngDigit {
  import opened Arith
  import opened Bits
  import opened Words

  // Addition and subtraction

  method Add2(arg1: digit, arg2: digit) returns (res: digit, carryout: nat)
    ensures carryout <= 1
    ensures res + carryout * BASE == arg1 + arg2
  {
    hide *;
    var tmp1 := arg1;
    var tmp2 := AddW(tmp1, arg2);
    carryout := if tmp2 < tmp1 then 1 else 0;
    res := tmp2;
  }

  method Add2Carry(arg1: digit, arg2: digit, carryin: nat) returns (res: digit, carryout: nat)
    requires carryin <= 1
    ensures carryout <= 1
    ensures res + carryout * BASE == arg1 + arg2 + carryin
  {
    hide *;
    BaseFacts();
    var tmp1 := arg1;
    var tmp2 := AddW(tmp1, arg2);
    var tmp3 := AddW(tmp2, carryin);
    carryout := (if tmp2 < tmp1 then 1 else 0) + (if tmp3 < tmp2 then 1 else 0);
    res := tmp3;
  }

  /** Splitting off a known small multiple of BASE. */
  lemma WrapSmall(x: int, c: int, r: int)
    requires x == r + c * BASE && 0 <= r < BASE
    ensures x % BASE == r && x / BASE == c
  {
    hide *;
    DivModUnique(x, BASE, c, r);
  }

  predicate Wrapped(x: int, c: int, r: int) {
    x == if c == -2 then r - 2 * BASE else if c == -1 then r - BASE
         else if c == 0 then r else if c == 1 then r + BASE else r + 2 * BASE
  }

  lemma WrapThree(x: int, c: int, r: int)
    requires -2 <= c <= 2 && 0 <= r < BASE && Wrapped(x, c, r)
    ensures x % BASE == r && x / BASE == c
  {
    WrapSmall(x, c, r);
  }

  /** A result wrapped c times, and an accumulator that counts the wraps. */
  lemma WrapAndCount(accu: digit, x: int, c: int, res: digit, carryaccu: digit)
    requires -2 <= c <= 2 && Wrapped(x, c, res)
    requires var k := if c >= 0 then c else 0 - c;
             carryaccu == if accu + k < BASE then accu + k else accu + k - BASE
    ensures res == x % BASE
    ensures carryaccu == (accu + (if c >= 0 then x / BASE else 0 - x / BASE)) % BASE
  {
    BaseFacts();
    var k := if c >= 0 then c else 0 - c;
    WrapThree(x, c, res);
    WrapThree(accu + k, if accu + k < BASE then 0 else 1, carryaccu);
  }

  /** The sum of three digits; the carry out of it is added to `accu`. */
  method Add3(accu: digit, arg1: digit, arg2: digit, arg3: digit) returns (res: digit, carryaccu: digit)
    ensures res == (arg1 + arg2 + arg3) % BASE
    ensures carryaccu == (accu + (arg1 + arg2 + arg3) / BASE) % BASE
  {
    hide *;
    BaseFacts();
    var tmp1 := arg1;
    var tmp2 := AddW(tmp1, arg2);
    carryaccu := AddW(accu, if tmp2 < tmp1 then 1 else 0);
    var tmp3 := AddW(tmp2, arg3);
    carryaccu := AddW(carryaccu, if tmp3 < tmp2 then 1 else 0);
    res := tmp3;
    ghost var c := (if tmp2 < tmp1 then 1 else 0) + (if tmp3 < tmp2 then 1 else 0);
    WrapAndCount(accu, arg1 + arg2 + arg3, c, res, carryaccu);
  }

  method Sub2(arg1: digit, arg2: digit) returns (res: digit, carryout: nat)
    ensures carryout <= 1
    ensures res - carryout * BASE == arg1 - arg2
  {
    hide *;
    res := SubW(arg1, arg2);
    carryout := if arg1 < arg2 then 1 else 0;
  }

  method Sub2Carry(arg1: digit, arg2: digit, carryin: nat) returns (res: digit, carryout: nat)
    requires carryin <= 1
    ensures carryout <= 1
    ensures res - carryout * BASE == arg1 - arg2 - carryin
  {
    hide *;
    BaseFacts();
    var tmp3 := SubW(arg1, arg2);
    res := SubW(tmp3, carryin);
    carryout := (if arg1 < arg2 then 1 else 0) + (if tmp3 < carryin then 1 else 0);
  }

  /** The difference; the borrow it takes is added to `accu`. */
  method Sub3(accu: digit, arg1: digit, arg2: digit, arg3: digit) returns (res: digit, carryaccu: digit)
    ensures res == (arg1 - arg2 - arg3) % BASE
    ensures carryaccu == (accu - (arg1 - arg2 - arg3) / BASE) % BASE
  {
    hide *;
    BaseFacts();
    var tmp4 := SubW(arg1, arg2);
    res := SubW(tmp4, arg3);
    var c := (if arg1 < arg2 then 1 else 0) + (if tmp4 < arg3 then 1 else 0);
    carryaccu := AddW(accu, c);
    WrapAndCount(accu, arg1 - arg2 - arg3, 0 - c, res, carryaccu);
  }

  // Half digits

  function LowHalf(d: digit): (r: digit)
    ensures r < B
  {
    BaseFacts();
    d % B
  }

  function HighHalf(d: digit): (r: digit)
    ensures r < B
    ensures d == r * B + LowHalf(d)
  {
    BaseFacts();
    DivMod(d, B);
    DivLe(d, B, B);
    DivMonotone(0, d, B);
    d / B
  }

  lemma Halves(x: digit)
    ensures ShrW(x, HalfBits) == HighHalf(x) < B
    ensures LowHalf(x) < B
    ensures x == HighHalf(x) * B + LowHalf(x)
    ensures x < B ==> LowHalf(x) == x
  {
    if x < B {
      DivModUnique(x, B, 0, x);
    }
  }

  lemma HalfProduct(x: nat, y: nat)
    requires x < B && y < B
    ensures 0 <= x * y <= BASE - 2 * B + 1
  {
    hide *;
    BaseFacts();
    ProductBound(x, y, B, BASE);
  }

  lemma ProductBound(x: nat, y: nat, b: nat, base: nat)
    requires x < b && y < b && base == b * b
    ensures 0 <= x * y <= base - 2 * b + 1
  {
    MulLe(x, b - 1, y);
    MulLe(y, b - 1, b - 1);
    MulLe(0, x, y);
    MulSub(b, 1, b);
    MulSub(b, 1, b - 1);
  }

  /** x << HalfBits keeps the low half of x, moved up. */
  lemma ShiftUp(x: digit)
    ensures ShlW(x, HalfBits) == LowHalf(x) * B
  {
    BaseFacts();
    ShiftUpArith(x, B, BASE);
  }

  lemma ShiftUpArith(x: nat, b: nat, base: nat)
    requires b > 0 && base == b * b
    ensures base > 0 && x * b % base == x % b * b
  {
    DivDiv(x * b, b, b);
    MulDiv(x, b);
  }

  /** Moving a digit up by half a digit, across two digits. */
  lemma SplitShift(p: digit)
    ensures p * B == LowHalf(p) * B + HighHalf(p) * BASE
  {
    hide *;
    Halves(p);
    BaseFacts();
    SplitShiftArith(p, HighHalf(p), LowHalf(p), B, BASE);
  }

  lemma SplitShiftArith(p: int, hi: int, lo: int, b: int, base: int)
    requires p == hi * b + lo && base == b * b
    ensures p * b == lo * b + hi * base
  {
    MulAdd(hi * b, lo, b);
    MulAssoc(hi, b, b);
  }

  // Multiplication

  /** Recombining the four partial products of two split digits. */
  lemma PartialProducts(xh: int, xl: int, yh: int, yl: int, b: int, x: int, y: int)
    requires x == xh * b + xl && y == yh * b + yl
    ensures x * y == xl * yl + (xl * yh * b + xh * yl * b) + xh * yh * (b * b)
  {
    MulAdd(xh * b, xl, yh * b + yl);
    MulAdd(yh * b, yl, xh * b);
    MulAdd(yh * b, yl, xl);
    FourFactors(xh, b, yh);
    Swap(xh, b, yl);
    MulAssoc(xl, yh, b);
  }

  lemma FourFactors(x: int, b: int, y: int)
    ensures x * b * (y * b) == x * y * (b * b)
  {
  }

  lemma Swap(x: int, y: int, z: int)
    ensures x * y * z == x * z * y
  {
  }

  /** The product of two digits from the products of their halves. */
  lemma MultSplit(x: digit, y: digit, p11: digit, p12: digit, p21: digit, p22: digit)
    requires p11 == LowHalf(x) * LowHalf(y) && p12 == LowHalf(x) * HighHalf(y)
    requires p21 == HighHalf(x) * LowHalf(y) && p22 == HighHalf(x) * HighHalf(y)
    ensures x * y == p11 + LowHalf(p12) * B + LowHalf(p21) * B
                   + (p22 + HighHalf(p12) + HighHalf(p21)) * BASE
  {
    hide *;
    Halves(x);
    Halves(y);
    PartialProducts(HighHalf(x), LowHalf(x), HighHalf(y), LowHalf(y), B, x, y);
    SplitShift(p12);
    SplitShift(p21);
    BaseFacts();
    CollectHigh(p22, HighHalf(p12), HighHalf(p21), B, BASE);
  }

  lemma CollectHigh(x: int, y: int, z: int, b: int, base: int)
    requires base == b * b
    ensures (x + y + z) * base == x * (b * b) + y * base + z * base
  {
    MulAdd(x + y, z, base);
    MulAdd(x, y, base);
  }

  /** resh:resl is the double-width product. */
  method Mult(arg1: digit, arg2: digit) returns (resh: digit, resl: digit)
    ensures resh * BASE + resl == arg1 * arg2
    ensures resh <= BASE - 2
  {
    hide *;
    HalfProduct(LowHalf(arg1), LowHalf(arg2));
    HalfProduct(LowHalf(arg1), HighHalf(arg2));
    HalfProduct(HighHalf(arg1), LowHalf(arg2));
    HalfProduct(HighHalf(arg1), HighHalf(arg2));
    BaseFacts();
    var p11 := MulW(LowHalf(arg1), LowHalf(arg2));
    var p12 := MulW(LowHalf(arg1), HighHalf(arg2));
    var p21 := MulW(HighHalf(arg1), LowHalf(arg2));
    var p22 := MulW(HighHalf(arg1), HighHalf(arg2));
    MultSplit(arg1, arg2, p11, p12, p21, p22);
    resh, resl := Recombine(p11, p12, p21, p22, arg1, arg2);
  }

  /** The second half of the multiplication: adds up the partial products. */
  method Recombine(p11: digit, p12: digit, p21: digit, p22: digit, ghost x: digit, ghost y: digit)
    returns (resh: digit, resl: digit)
    requires x * y == p11 + LowHalf(p12) * B + LowHalf(p21) * B
                    + (p22 + HighHalf(p12) + HighHalf(p21)) * BASE
    ensures resh * BASE + resl == x * y
    ensures resh <= BASE - 2
  {
    hide *;
    Halves(p12);
    Halves(p21);
    ShiftUp(p12);
    ShiftUp(p21);
    BaseFacts();
    ghost var high := p22 + HighHalf(p12) + HighHalf(p21);
    ghost var low := p11 + ShlW(p12, HalfBits) + ShlW(p21, HalfBits);
    MultCarry(x, y, high, low, BASE);
    resh := AddW(AddW(p22, ShrW(p12, HalfBits)), ShrW(p21, HalfBits));
    resl, resh := Add3(resh, p11, ShlW(p12, HalfBits), ShlW(p21, HalfBits));
  }

  /** The high digit of a product has room for the carry out of the low one. */
  lemma MultCarry(x: nat, y: nat, high: nat, low: nat, base: nat)
    requires 2 <= base && x < base && y < base
    requires x * y == low + high * base
    ensures high < base
    ensures 0 <= (high + low / base) % base <= base - 2
    ensures (high + low / base) % base * base + low % base == x * y
  {
    ProductBound(x, y, base, base * base);
    DivMod(low, base);
    DivMonotone(0, low, base);
    MulAdd(high, low / base, base);
    HighBound(high + low / base, low % base, base);
    DivModUnique(high + low / base, base, 0, high + low / base);
  }

  lemma HighBound(h: int, l: int, base: nat)
    requires h * base + l <= base * base - 2 * base + 1 && l >= 0 && base >= 2
    ensures h <= base - 2
  {
    if h >= base - 1 {
      MulLe(base - 1, h, base);
      MulSub(base, 1, base);
    }
  }

  // Division

  /** The quotient of the upper part by one more than the upper part of the
      divisor is never above the quotient of the whole. */
  lemma UnderEstimate(nh: nat, x: nat, r: nat, dh: nat, dl: nat, q: int)
    requires r > 0 && x < r && dl < r
    requires q == nh / (dh + 1)
    ensures q >= 0
    ensures q * dh <= nh
    ensures q * (dh * r + dl) <= nh * r + x
  {
    DivMod(nh, dh + 1);
    DivMonotone(0, nh, dh + 1);
    MulLe(dh, dh + 1, q);
    MulAdd(dh, 1, r);
    MulLe(dh * r + dl, (dh + 1) * r, q);
    MulAssoc(q, dh + 1, r);
    MulLe(q * (dh + 1), nh, r);
  }

  /** With a normalised divisor the estimate misses the quotient by two at most. */
  lemma EstimateMissesByTwo(nh: nat, x: nat, r: nat, dh: nat, dl: nat, e: int, q: nat)
    requires r > 0 && x < r && dl < r
    requires e == nh / (dh + 1) && e + 1 <= 2 * dh
    requires q * (dh * r + dl) <= nh * r + x
    ensures q <= e + 2
  {
    if q >= e + 3 {
      DivMod(nh, dh + 1);
      DivMonotone(0, nh, dh + 1);
      EstimateGap(nh, dh, e);
      MulLe(nh + 1, (e + 3) * dh, r);
      MulAdd(nh, 1, r);
      MulAssoc(e + 3, dh, r);
      MulLe(dh * r, dh * r + dl, e + 3);
      MulLe(e + 3, q, dh * r + dl);
    }
  }

  lemma EstimateGap(nh: int, dh: int, e: int)
    requires e * (dh + 1) + dh >= nh && e + 1 <= 2 * dh
    ensures (e + 3) * dh >= nh + 1
  {
    MulAdd(e, 3, dh);
    MulAdd(dh, 1, e);
  }

  /** Subtracting d from the double word nh:nl, with the borrow written out. */
  lemma BorrowStep(nh: digit, nl: digit, d: digit)
    requires nh * BASE + nl >= d
    ensures nl < d ==> nh >= 1
    ensures SubW(nh, if nl < d then 1 else 0) * BASE + SubW(nl, d) == nh * BASE + nl - d
  {
    hide *;
    BaseFacts();
    MulSub(nh, 1, BASE);
  }

  /** A digit below d followed by half a digit has a half-digit quotient by d. */
  lemma HalfQuotientFits(h: digit, x: nat, d: digit)
    requires x < B && h < d
    ensures h * B + x < d * B
  {
    hide *;
    MulLe(h, d - 1, B);
    MulSub(d, 1, B);
  }

  lemma EstimateFits(h: digit, d: digit)
    requires h < d
    ensures 0 <= h / (HighHalf(d) + 1) < B
  {
    hide *;
    BaseFacts();
    Halves(d);
    var dh := HighHalf(d);
    MulAdd(dh, 1, B);
    DivMonotone(0, h, dh + 1);
    DivLe(h, dh + 1, B);
  }

  /** Subtracting est * dh before the shift and est * dl after it subtracts est * d. */
  lemma SplitSubtraction(h: int, x: int, est: int, d: int, dh: int, dl: int, b: int)
    requires d == dh * b + dl
    ensures (h - est * dh) * b + x - est * dl == h * b + x - est * d
  {
    MulAdd(dh * b, dl, est);
    MulAssoc(est, dh, b);
    MulSub(h, est * dh, b);
  }

  /** The source shifts the high digit h up by half a digit, across two words. */
  lemma ShiftDouble(h: digit, x: nat)
    requires x < B
    ensures Bitwise(Or, ShlW(h, HalfBits), x) == Bitwise(Or, x, ShlW(h, HalfBits)) < BASE
    ensures Bitwise(Or, ShlW(h, HalfBits), x) == LowHalf(h) * B + x
    ensures ShrW(h, HalfBits) * BASE + (LowHalf(h) * B + x) == h * B + x
  {
    hide *;
    ShiftUp(h);
    Halves(h);
    BIsPow2();
    OrDisjoint(LowHalf(h), x, HalfBits);
    SplitShift(h);
    BaseFacts();
    MulLe(LowHalf(h), B - 1, B);
    MulSub(B, 1, B);
  }

  lemma BIsPow2()
    ensures B == Pow2(HalfBits)
  {
  }

  /** The quotient digit so far and the rest nh:nl make up the numerator. */
  ghost predicate Divides(q: digit, nh: digit, nl: digit, d: digit, total: int) {
    q * d + (nh * BASE + nl) == total
  }

  /** Under-estimates the half quotient of h:x by d and subtracts its multiple of
      d, around the shift by half a digit. */
  method HalfEstimate(h: digit, x: nat, d: digit) returns (q: digit, nh: digit, nl: digit)
    requires x < B && h < d
    ensures q == h / (HighHalf(d) + 1)
    ensures Divides(q, nh, nl, d, h * B + x)
  {
    hide MulW, SubW, ShlW, ShrW, LowHalf, HighHalf, Bitwise, Pow2;
    var dl, dh := LowHalf(d), HighHalf(d);
    Halves(d);
    BaseFacts();
    EstimateFits(h, d);
    UnderEstimate(h, x, B, dh, dl, h / (dh + 1));
    HalfProduct(h / (dh + 1), dl);
    SplitSubtraction(h, x, h / (dh + 1), d, dh, dl, B);
    q := h / (dh + 1);
    var ph := MulW(q, dh);
    var pl := MulW(q, dl);
    nh := SubW(h, ph);
    ShiftDouble(nh, x);
    nl := Bitwise(Or, ShlW(nh, HalfBits), x);
    nh := ShrW(nh, HalfBits);
    BorrowStep(nh, nl, pl);
    nh := SubW(nh, if nl < pl then 1 else 0);
    nl := SubW(nl, pl);
  }

  lemma CorrectStep(q: nat, n: nat, d: nat, total: nat, bound: nat)
    requires q * d + n == total < d * bound
    requires d > 0
    ensures q < bound
    ensures n >= d ==> (q + 1) * d + (n - d) == total && q + 1 < bound
  {
    MulAdd(q, 1, d);
    MulCancelLt(q, bound, d);
    if n >= d {
      MulCancelLt(q + 1, bound, d);
    }
  }

  lemma LargeHigh(nh: digit, nl: digit, d: digit)
    requires nh != 0 || nl >= d
    ensures nh * BASE + nl >= d
  {
    hide *;
    MulLe(if nh == 0 then 0 else 1, nh, BASE);
  }

  lemma HalfMissesByTwo(h: digit, x: nat, d: digit, q: nat, rest: nat)
    requires x < B && h < d
    requires q * d + rest == h * B + x
    ensures 2 * HighHalf(d) >= B ==> q <= h / (HighHalf(d) + 1) + 2
  {
    hide *;
    if 2 * HighHalf(d) >= B {
      Halves(d);
      EstimateFits(h, d);
      EstimateMissesByTwo(h, x, B, HighHalf(d), LowHalf(d), h / (HighHalf(d) + 1), q);
    }
  }

  /** Divides h:x, a digit below d followed by half a digit, by d. The estimate is
      never too large and, for a normalised d, at most two corrections are made. */
  method HalfDiv(h: digit, x: nat, d: digit) returns (q: digit, nl: digit)
    requires x < B && h < d
    ensures q < B && nl < d
    ensures q * d + nl == h * B + x
    ensures h / (HighHalf(d) + 1) <= q
    ensures 2 * HighHalf(d) >= B ==> q <= h / (HighHalf(d) + 1) + 2
  {
    hide *;
    var nh: digit;
    HalfBelow(h, x, d);
    q, nh, nl := HalfEstimate(h, x, d);
    q, nl := CorrectHalf(q, nh, nl, d, h * B + x);
    HalfDivided(h, x, d, q, nl);
  }

  lemma HalfBelow(h: digit, x: nat, d: digit)
    requires x < B && h < d
    ensures h * B + x < d * BASE
  {
    hide *;
    BaseFacts();
    HalfQuotientFits(h, x, d);
    MulLe(B, BASE, d);
  }

  lemma HalfDivided(h: digit, x: nat, d: digit, q: digit, nl: digit)
    requires x < B && h < d && nl < d
    requires Divides(q, 0, nl, d, h * B + x)
    ensures q < B && q * d + nl == h * B + x
    ensures 2 * HighHalf(d) >= B ==> q <= h / (HighHalf(d) + 1) + 2
  {
    hide HighHalf;
    HalfQuotientFits(h, x, d);
    CorrectStep(q, nl, d, h * B + x, B);
    HalfMissesByTwo(h, x, d, q, nl);
  }

  /** The correction loop: subtracts d as long as the rest is not below it. */
  method CorrectHalf(est: digit, nh0: digit, nl0: digit, d: digit, ghost total: int) returns (q: digit, nl: digit)
    requires d > 0 && total < d * BASE && Divides(est, nh0, nl0, d, total)
    ensures nl < d && est <= q
    ensures Divides(q, 0, nl, d, total)
  {
    hide *;
    var nh := nh0;
    q, nl := est, nl0;
    while nh != 0 || nl >= d
      invariant est <= q
      invariant Divides(q, nh, nl, d, total)
      decreases nh, nl
    {
      CorrectTurn(q, nh, nl, d, total);
      nh := SubW(nh, if nl < d then 1 else 0);
      nl := SubW(nl, d);
      q := AddW(q, 1);
    }
  }

  /** One correction: the divisor goes from the rest to the quotient, nothing wraps. */
  lemma CorrectTurn(q: digit, nh: digit, nl: digit, d: digit, total: int)
    requires d > 0 && total < d * BASE && Divides(q, nh, nl, d, total)
    requires nh != 0 || nl >= d
    ensures AddW(q, 1) == q as int + 1 && (nl < d ==> nh >= 1)
    ensures Divides(AddW(q, 1), SubW(nh, if nl < d then 1 else 0), SubW(nl, d), d, total)
  {
    hide AddW, SubW;
    BaseFacts();
    LargeHigh(nh, nl, d);
    BorrowStep(nh, nl, d);
    CorrectStep(q, nh * BASE + nl, d, total, BASE);
    MulAdd(q, 1, d);
  }

  /** Divides nh:nl by d, half a digit at a time. */
  method Div(nh: digit, nl: digit, d: digit) returns (quo: digit, rem: digit)
    requires nh < d
    ensures rem < d
    ensures nh * BASE + nl == quo * d + rem
  {
    hide *;
    Halves(nl);
    var nsaved := LowHalf(nl);
    var qh, n := HalfDiv(nh, ShrW(nl, HalfBits), d);
    var ql, r := HalfDiv(n, nsaved, d);
    ShiftDouble(qh, ql);
    Halves(qh);
    quo := Bitwise(Or, ShlW(qh, HalfBits), ql);
    rem := r;
    BaseFacts();
    JoinHalves(nh, nl, HighHalf(nl), LowHalf(nl), d, qh, ql, quo, n, r, B, BASE);
  }

  /** Two half steps of long division make a whole one. */
  lemma JoinHalves(nh: int, nl: int, hi: int, lo: int, d: int, qh: int, ql: int, quo: int, n: int, r: int,
                   b: int, base: int)
    requires base == b * b && nl == hi * b + lo && quo == qh * b + ql
    requires qh * d + n == nh * b + hi
    requires ql * d + r == n * b + lo
    ensures nh * base + nl == quo * d + r
  {
    assert (qh * d + n) * b == (nh * b + hi) * b;
    MulAdd(qh * d, n, b);
    MulAdd(nh * b, hi, b);
    MulAdd(qh * b, ql, d);
    Swap(qh, d, b);
    MulAssoc(nh, b, b);
  }
}
