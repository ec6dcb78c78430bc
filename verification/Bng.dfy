/** The linear routines of bng.c on digit arrays updated in place. A pointer and
    its length are an array, an offset and a length. */
module Bng {
  import opened Arith
  import opened Bits
  import opened Words
  import BngDigit

  /** Only digits lo..hi-1 of a may have changed. */
  twostate predicate OnlyChanged(a: array<digit>, lo: nat, hi: nat)
    reads a
  {
    forall k :: 0 <= k < a.Length && !(lo <= k < hi) ==> a[k] == old(a[k])
  }

  // Slices under update

  lemma ValUpdate(s: seq<digit>, t: seq<digit>, o: nat, i: nat, d: digit)
    requires o + i < |s| && t == s[o + i := d]
    ensures Val(t[o..o + i + 1]) == Val(s[o..o + i]) + d * P(i)
  {
    ValExtend(t, o, i);
    assert t[o..o + i] == s[o..o + i];
  }

  /** Changing only the low m digits of a slice changes its value by as much. */
  lemma PrefixReplaced(s: seq<digit>, t: seq<digit>, o: nat, m: nat, n: nat)
    requires m <= n && o + n <= |s| == |t|
    requires forall k :: o + m <= k < o + n ==> s[k] == t[k]
    ensures Val(t[o..o + n]) - Val(s[o..o + n]) == Val(t[o..o + m]) - Val(s[o..o + m])
  {
    hide Val, P;
    ValSplit(s, o, m, n);
    ValSplit(t, o, m, n);
    assert s[o + m..o + n] == t[o + m..o + n];
  }

  lemma SuffixReplaced(s: seq<digit>, t: seq<digit>, o: nat, m: nat, n: nat)
    requires m <= n && o + n <= |s| == |t|
    requires forall k :: o <= k < o + m ==> s[k] == t[k]
    ensures Val(t[o..o + n]) - Val(s[o..o + n]) == P(m) * (Val(t[o + m..o + n]) - Val(s[o + m..o + n]))
  {
    hide Val, P;
    ValSplit(s, o, m, n);
    ValSplit(t, o, m, n);
    assert s[o..o + m] == t[o..o + m];
    MulSub(Val(t[o + m..o + n]), Val(s[o + m..o + n]), P(m));
  }

  /** Splits off the lowest digit of a slice. */
  lemma ValCons(s: seq<digit>, o: nat, n: nat)
    requires 0 < n && o + n <= |s|
    ensures Val(s[o..o + n]) == s[o] + BASE * Val(s[o + 1..o + n])
  {
    ValSplit(s, o, 1, n);
    ValOne(s[o..o + 1]);
    assert P(1) == BASE * P(0);
  }

  /** The n digits at offset o of s, followed by a carry c, denote x more than
      those of t. An addition makes `now` grow over `was`; a subtraction leaves
      `was` grown over `now`. */
  ghost predicate Grew(s: seq<digit>, t: seq<digit>, o: nat, n: nat, c: int, x: int)
    requires o + n <= |s| && o + n <= |t|
  {
    Val(s[o..o + n]) + c * P(n) == Val(t[o..o + n]) + x
  }

  ghost predicate Agree(s: seq<digit>, t: seq<digit>, lo: nat, hi: nat)
    requires lo <= hi <= |s| && hi <= |t|
  {
    forall k :: lo <= k < hi ==> s[k] == t[k]
  }

  lemma GrewStart(s: seq<digit>, o: nat, c: int)
    requires o <= |s|
    ensures Grew(s, s, o, 0, c, c)
    ensures Val(s[o..o]) == 0
  {
    assert P(0) == 1;
  }

  lemma GrewFrame(s': seq<digit>, s: seq<digit>, t': seq<digit>, t: seq<digit>, o: nat, n: nat, c: int, x: int)
    requires o + n <= |s| && o + n <= |s'| && o + n <= |t| && o + n <= |t'|
    requires Agree(s', s, o, o + n) && Agree(t', t, o, o + n)
    requires Grew(s', t', o, n, c, x)
    ensures Grew(s, t, o, n, c, x)
  {
    hide Val, P;
    assert s'[o..o + n] == s[o..o + n];
    assert t'[o..o + n] == t[o..o + n];
  }

  /** The next digit of t + m * b, with c coming in and c' going out. */
  lemma GrewStep(s': seq<digit>, s: seq<digit>, t': seq<digit>, t: seq<digit>, o: nat, b: seq<digit>, bo: nat,
                 i: nat, m: int, c: int, c': int, x: int)
    requires o + i < |s'| == |s| && o + i < |t'| == |t| && bo + i < |b|
    requires Agree(s', s, o, o + i) && Agree(t', t, o, o + i)
    requires s[o + i] + c' * BASE == t[o + i] + m * b[bo + i] + c
    requires Grew(s', t', o, i, c, m * Val(b[bo..bo + i]) + x)
    ensures Grew(s, t, o, i + 1, c', m * Val(b[bo..bo + i + 1]) + x)
  {
    hide Val, P, Agree;
    GrewFrame(s', s, t', t, o, i, c, m * Val(b[bo..bo + i]) + x);
    ValExtend(s, o, i);
    ValExtend(t, o, i);
    ValExtend(b, bo, i);
    PSucc(i);
    StepWeight(s[o + i], c', t[o + i], m, b[bo + i], c, P(i), Val(b[bo..bo + i]));
  }

  /** A digit equation, moved to place value p. */
  lemma StepWeight(res: int, c': int, x: int, m: int, y: int, c: int, p: int, v: int)
    requires res + c' * BASE == x + m * y + c
    ensures res * p + c' * (BASE * p) == x * p + m * (v + y * p) - m * v + c * p
  {
    MulAdd(res, c' * BASE, p);
    MulAssoc(c', BASE, p);
    MulAdd(x + m * y, c, p);
    MulAdd(x, m * y, p);
    MulAdd(v, y * p, m);
    MulAssoc(m, y, p);
  }

  /** The next digit of t + y, where y is a digit value. */
  lemma DigitStep(s': seq<digit>, s: seq<digit>, t': seq<digit>, t: seq<digit>, o: nat, i: nat, y: int,
                  c: int, c': int, x: int)
    requires o + i < |s'| == |s| && o + i < |t'| == |t|
    requires Agree(s', s, o, o + i) && Agree(t', t, o, o + i)
    requires s[o + i] + c' * BASE == t[o + i] + y + c
    requires Grew(s', t', o, i, c, x)
    ensures Grew(s, t, o, i + 1, c', x + y * P(i))
  {
    hide Val, P, Agree;
    GrewFrame(s', s, t', t, o, i, c, x);
    ValExtend(s, o, i);
    ValExtend(t, o, i);
    PSucc(i);
    StepWeight(s[o + i], c', t[o + i], 1, y, c, P(i), 0);
  }

  /** The next digit when only a carry moves up. */
  lemma RippleStep(s': seq<digit>, s: seq<digit>, t': seq<digit>, t: seq<digit>, o: nat, i: nat,
                   c: int, c': int, x: int)
    requires o + i < |s'| == |s| && o + i < |t'| == |t|
    requires Agree(s', s, o, o + i) && Agree(t', t, o, o + i)
    requires s[o + i] + c' * BASE == t[o + i] + c
    requires Grew(s', t', o, i, c, x)
    ensures Grew(s, t, o, i + 1, c', x)
  {
    hide *;
    DigitStep(s', s, t', t, o, i, 0, c, c', x);
  }

  /** A carry of zero goes no further. */
  lemma GrewStop(s: seq<digit>, t: seq<digit>, o: nat, m: nat, n: nat, x: int)
    requires m <= n && o + n <= |s| == |t|
    requires Agree(s, t, o + m, o + n)
    requires Grew(s, t, o, m, 0, x)
    ensures Grew(s, t, o, n, 0, x)
  {
    hide Val, P;
    PrefixReplaced(t, s, o, m, n);
  }

  /** A low part that overflowed by c, then a high part that took c in. */
  lemma GrewJoin(s: seq<digit>, t: seq<digit>, o: nat, m: nat, n: nat, c: int, c': int, x: int)
    requires m <= n && o + n <= |s| == |t|
    requires Grew(s, t, o, m, c, x)
    requires Grew(s, t, o + m, n - m, c', c)
    ensures Grew(s, t, o, n, c', x)
  {
    hide Val, P;
    ValSplit(s, o, m, n);
    ValSplit(t, o, m, n);
    PAdd(m, n - m);
    TailWeight(Val(s[o + m..o + n]), Val(t[o + m..o + n]), c, c', P(m), P(n - m));
  }

  /** Joins a low part and a high part that were established on other strings. */
  lemma GrewJoinFrom(lowS: seq<digit>, lowT: seq<digit>, highS: seq<digit>, highT: seq<digit>,
                     s: seq<digit>, t: seq<digit>, o: nat, m: nat, n: nat, c: int, c': int, x: int)
    requires m <= n && o + n <= |s| == |t| == |lowS| == |lowT| == |highS| == |highT|
    requires Agree(lowS, s, o, o + m) && Agree(lowT, t, o, o + m)
    requires Agree(highS, s, o + m, o + n) && Agree(highT, t, o + m, o + n)
    requires Grew(lowS, lowT, o, m, c, x)
    requires Grew(highS, highT, o + m, n - m, c', c)
    ensures Grew(s, t, o, n, c', x)
  {
    hide *;
    GrewFrame(lowS, s, lowT, t, o, m, c, x);
    GrewFrame(highS, s, highT, t, o + m, n - m, c', c);
    GrewJoin(s, t, o, m, n, c, c', x);
  }

  lemma TailWeight(v': int, v: int, c: int, c': int, p: int, q: int)
    requires v' + c' * q == v + c
    ensures p * v' + c' * (p * q) == p * v + c * p
  {
    assert (v' + c' * q) * p == (v + c) * p;
    MulAdd(v', c' * q, p);
    MulAdd(v, c, p);
    assert c' * q * p == c' * (p * q);
  }

  ghost predicate LeadingZeros(d: digit, n: nat) {
    && n <= W
    && (d == 0 <==> n == W)
    && (d != 0 ==> Pow2(W - 1 - n) <= d < Pow2(W - n))
  }

  /** The top W - n bits of d0 are in d, and only the low 2^k of them may be set. */
  ghost predicate Window(d0: digit, d: nat, n: nat, k: nat) {
    && Pow2(k) <= n <= W
    && d == d0 / Pow2(W - n)
    && d < Pow2(Pow2(k))
    && (d == 0 <==> d0 == 0)
    && (d == 0 ==> n == W)
  }

  /** Number of leading zero bits: halving the window from half a word down. */
  method LeadingZeroBits(d0: digit) returns (n: nat)
    ensures LeadingZeros(d0, n)
  {
    var d: nat := d0;
    n := W;
    var k: nat := LogHalf + 1;
    FirstWindow(d0);
    while k > 0
      invariant Window(d0, d, n, k)
    {
      k := k - 1;
      var step := Pow2(k);
      WindowStep(d0, d, n, k);
      if d / Pow2(step) != 0 {
        n := n - step;
        d := d / Pow2(step);
      }
    }
    LastWindow(d0, d, n);
    n := n - d;
  }

  lemma FirstWindow(d0: digit)
    ensures Window(d0, d0, W, LogHalf + 1)
  {
    assert d0 / Pow2(0) == d0;
    assert Pow2(LogHalf + 1) == W;
  }

  lemma WindowStep(d0: digit, d: nat, n: nat, k: nat)
    requires Window(d0, d, n, k + 1)
    ensures d / Pow2(Pow2(k)) >= 0
    ensures if d / Pow2(Pow2(k)) != 0
            then n >= Pow2(k) && Window(d0, d / Pow2(Pow2(k)), n - Pow2(k), k)
            else Window(d0, d, n, k)
  {
    var step := Pow2(k);
    Pow2Add(W - n, step);
    DivDiv(d0, Pow2(W - n), Pow2(step));
    Pow2Add(step, step);
    DivLe(d, Pow2(step), Pow2(step));
    DivMonotone(0, d, Pow2(step));
    DivMod(d, Pow2(step));
  }

  lemma LastWindow(d0: digit, d: nat, n: nat)
    requires Window(d0, d, n, 0)
    ensures d <= n && LeadingZeros(d0, n - d)
  {
    assert Pow2(0) == 1 && Pow2(1) == 2 * Pow2(0);
    DivMod(d0, Pow2(W - n));
  }

  method Compare(a: array<digit>, ao: nat, alen0: nat, b: array<digit>, bo: nat, blen0: nat) returns (r: int)
    requires ao + alen0 <= a.Length && bo + blen0 <= b.Length
    ensures var x, y := Val(a[ao..ao + alen0]), Val(b[bo..bo + blen0]);
            r == if x > y then 1 else if x < y then -1 else 0
  {
    hide Val, P;
    var alen, blen := alen0, blen0;
    while alen > 0 && a[ao + alen - 1] == 0
      invariant 0 <= alen <= alen0
      invariant Val(a[ao..ao + alen]) == Val(a[ao..ao + alen0])
    {
      alen := alen - 1;
      ValExtend(a[..], ao, alen);
    }
    while blen > 0 && b[bo + blen - 1] == 0
      invariant 0 <= blen <= blen0
      invariant Val(b[bo..bo + blen]) == Val(b[bo..bo + blen0])
    {
      blen := blen - 1;
      ValExtend(b[..], bo, blen);
    }
    if alen > blen {
      LongerIsLarger(a[..], ao, alen, b[..], bo, blen);
      return 1;
    }
    if alen < blen {
      LongerIsLarger(b[..], bo, blen, a[..], ao, alen);
      return -1;
    }
    r := CompareSame(a, ao, b, bo, alen);
  }

  /** The digit-by-digit part of the comparison, from the top down. */
  method CompareSame(a: array<digit>, ao: nat, b: array<digit>, bo: nat, len: nat) returns (r: int)
    requires ao + len <= a.Length && bo + len <= b.Length
    ensures var x, y := Val(a[ao..ao + len]), Val(b[bo..bo + len]);
            r == if x > y then 1 else if x < y then -1 else 0
  {
    var n := len;
    while n > 0
      invariant 0 <= n <= len
      invariant a[ao + n..ao + len] == b[bo + n..bo + len]
    {
      n := n - 1;
      var da, db := a[ao + n], b[bo + n];
      if da > db {
        assert a[ao..ao + len][n + 1..] == b[bo..bo + len][n + 1..];
        HigherDigitWins(a[ao..ao + len], b[bo..bo + len], n);
        return 1;
      }
      if da < db {
        assert a[ao..ao + len][n + 1..] == b[bo..bo + len][n + 1..];
        HigherDigitWins(b[bo..bo + len], a[ao..ao + len], n);
        return -1;
      }
    }
    return 0;
  }

  lemma HigherDigitWins(s: seq<digit>, t: seq<digit>, n: nat)
    requires n < |s| == |t| && s[n] > t[n]
    requires s[n + 1..] == t[n + 1..]
    ensures Val(s) > Val(t)
  {
    hide Val, P;
    ValTop(s[..n + 1]);
    ValTop(t[..n + 1]);
    MulLe(t[n] + 1, s[n], P(n));
    ValAppend(s[..n + 1], s[n + 1..]);
    ValAppend(t[..n + 1], t[n + 1..]);
    assert s == s[..n + 1] + s[n + 1..];
    assert t == t[..n + 1] + t[n + 1..];
  }

  lemma LongerIsLarger(s: seq<digit>, so: nat, slen: nat, t: seq<digit>, to: nat, tlen: nat)
    requires so + slen <= |s| && to + tlen <= |t|
    requires slen > tlen && s[so + slen - 1] != 0
    ensures Val(s[so..so + slen]) > Val(t[to..to + tlen])
  {
    hide Val, P;
    ValTop(s[so..so + slen]);
    ValBound(t[to..to + tlen]);
    PMonotone(tlen, slen - 1);
    MulLe(1, s[so + slen - 1], P(slen - 1));
  }

  method AddCarry(a: array<digit>, o: nat, len: nat, carry: nat) returns (c: nat)
    requires o + len <= a.Length && carry <= 1
    modifies a
    ensures OnlyChanged(a, o, o + len)
    ensures c <= 1
    ensures Grew(a[..], old(a[..]), o, len, c, carry)
  {
    hide P, Val, Grew;
    GrewStart(a[..], o, carry);
    ghost var was := a[..];
    if carry == 0 || len == 0 {
      if carry == 0 {
        GrewStop(was, was, o, 0, len, 0);
      }
      return carry;
    }
    OneIsDigit();
    var i := 0;
    while i < len
      invariant 0 <= i <= len
      invariant forall k :: 0 <= k < a.Length && !(o <= k < o + i) ==> a[k] == was[k]
      invariant Grew(a[..], was, o, i, 1, 1)
    {
      ghost var prev := a[..];
      a[o + i] := AddW(a[o + i], 1);
      RippleStep(prev, a[..], was, was, o, i, 1, if a[o + i] != 0 then 0 else 1, 1);
      if a[o + i] != 0 {
        GrewStop(a[..], was, o, i + 1, len, 1);
        return 0;
      }
      i := i + 1;
    }
    return 1;
  }

  lemma OneIsDigit()
    ensures BASE >= 4
  {
    BaseFacts();
  }

  method Add(a: array<digit>, ao: nat, alen: nat, b: array<digit>, bo: nat, blen: nat, carry0: nat)
    returns (carry: nat)
    requires ao + alen <= a.Length && bo + blen <= b.Length && blen <= alen && carry0 <= 1
    requires a != b
    modifies a
    ensures OnlyChanged(a, ao, ao + alen)
    ensures carry <= 1
    ensures Grew(a[..], old(a[..]), ao, alen, carry, Val(b[bo..bo + blen]) + carry0)
  {
    hide P, Val, Grew;
    GrewStart(a[..], ao, carry0);
    GrewStart(b[..], bo, 0);
    ghost var was := a[..];
    carry := carry0;
    for i := 0 to blen
      invariant carry <= 1
      invariant forall k :: 0 <= k < a.Length && !(ao <= k < ao + i) ==> a[k] == was[k]
      invariant Grew(a[..], was, ao, i, carry, Val(b[bo..bo + i]) + carry0)
    {
      ghost var prev := a[..];
      ghost var c := carry;
      var res: digit;
      res, carry := BngDigit.Add2Carry(a[ao + i], b[bo + i], carry);
      a[ao + i] := res;
      GrewStep(prev, a[..], was, was, ao, b[..], bo, i, 1, c, carry, carry0);
    }
    ghost var mid := a[..];
    ghost var c := carry;
    carry := AddCarry(a, ao + blen, alen - blen, carry);
    GrewJoinFrom(mid, was, a[..], mid, a[..], was, ao, blen, alen, c, carry, Val(b[bo..bo + blen]) + carry0);
  }

  method SubCarry(a: array<digit>, o: nat, len: nat, carry: nat) returns (c: nat)
    requires o + len <= a.Length && carry <= 1
    modifies a
    ensures OnlyChanged(a, o, o + len)
    ensures c <= 1
    ensures Grew(old(a[..]), a[..], o, len, c, carry)
  {
    hide P, Val, Grew;
    GrewStart(a[..], o, carry);
    ghost var was := a[..];
    if carry == 0 || len == 0 {
      if carry == 0 {
        GrewStop(was, was, o, 0, len, 0);
      }
      return carry;
    }
    OneIsDigit();
    var i := 0;
    while i < len
      invariant 0 <= i <= len
      invariant forall k :: 0 <= k < a.Length && !(o <= k < o + i) ==> a[k] == was[k]
      invariant Grew(was, a[..], o, i, 1, 1)
    {
      ghost var prev := a[..];
      var d := a[o + i];
      a[o + i] := SubW(d, 1);
      RippleStep(was, was, prev, a[..], o, i, 1, if d != 0 then 0 else 1, 1);
      if d != 0 {
        GrewStop(was, a[..], o, i + 1, len, 1);
        return 0;
      }
      i := i + 1;
    }
    return 1;
  }

  method Sub(a: array<digit>, ao: nat, alen: nat, b: array<digit>, bo: nat, blen: nat, carry0: nat)
    returns (carry: nat)
    requires ao + alen <= a.Length && bo + blen <= b.Length && blen <= alen && carry0 <= 1
    requires a != b
    modifies a
    ensures OnlyChanged(a, ao, ao + alen)
    ensures carry <= 1
    ensures Grew(old(a[..]), a[..], ao, alen, carry, Val(b[bo..bo + blen]) + carry0)
  {
    hide P, Val, Grew;
    GrewStart(a[..], ao, carry0);
    GrewStart(b[..], bo, 0);
    ghost var was := a[..];
    carry := carry0;
    for i := 0 to blen
      invariant carry <= 1
      invariant forall k :: 0 <= k < a.Length && !(ao <= k < ao + i) ==> a[k] == was[k]
      invariant Grew(was, a[..], ao, i, carry, Val(b[bo..bo + i]) + carry0)
    {
      ghost var prev := a[..];
      ghost var c := carry;
      var res: digit;
      res, carry := BngDigit.Sub2Carry(a[ao + i], b[bo + i], carry);
      a[ao + i] := res;
      GrewStep(was, was, prev, a[..], ao, b[..], bo, i, 1, c, carry, carry0);
    }
    ghost var mid := a[..];
    ghost var c := carry;
    carry := SubCarry(a, ao + blen, alen - blen, carry);
    GrewJoinFrom(was, mid, mid, a[..], was, a[..], ao, blen, alen, c, carry, Val(b[bo..bo + blen]) + carry0);
  }

  // Shifts

  /** The n digits at offset o, followed by a carry c, denote m times what they
      do in `was`. */
  ghost predicate Scaled(now: seq<digit>, was: seq<digit>, o: nat, n: nat, c: int, m: int)
    requires o + n <= |now| && o + n <= |was|
  {
    Val(now[o..o + n]) + c * P(n) == Val(was[o..o + n]) * m
  }

  lemma ScaledStart(s: seq<digit>, o: nat, n: nat, m: int)
    requires o + n <= |s|
    ensures Scaled(s, s, o, 0, 0, m)
    ensures Scaled(s, s, o, n, 0, 1)
  {
  }

  lemma ScaledStep(was: seq<digit>, prev: seq<digit>, now: seq<digit>, o: nat, i: nat, m: int, c: int, c': int)
    requires o + i < |now| == |prev| == |was| && now == prev[o + i := now[o + i]]
    requires prev[o + i] == was[o + i]
    requires now[o + i] + c' * BASE == was[o + i] * m + c
    requires Scaled(prev, was, o, i, c, m)
    ensures Scaled(now, was, o, i + 1, c', m)
  {
    hide Val, P;
    ValUpdate(prev, now, o, i, now[o + i]);
    ValExtend(was, o, i);
    PSucc(i);
    ScaledWeight(now[o + i], c', was[o + i], m, c, P(i), Val(was[o..o + i]));
  }

  lemma ScaledWeight(res: int, c': int, x: int, m: int, c: int, p: int, v: int)
    requires res + c' * BASE == x * m + c
    ensures res * p + c' * (BASE * p) == (v + x * p) * m - v * m + c * p
  {
    MulAdd(res, c' * BASE, p);
    MulAssoc(c', BASE, p);
    MulAdd(x * m, c, p);
    MulAdd(v, x * p, m);
    BngDigit.Swap(x, m, p);
  }

  /** The two halves a digit is torn into when it is shifted by s. */
  lemma TornDigit(d: digit, s: nat)
    requires s <= W
    ensures d % Pow2(W - s) * Pow2(s) == ShlW(d, s)
    ensures d * Pow2(s) == ShlW(d, s) + ShrW(d, W - s) * BASE
    ensures ShrW(d, W - s) < Pow2(s)
    ensures 0 <= ShlW(d, s) <= BASE - Pow2(s)
    ensures d / Pow2(s) < Pow2(W - s)
  {
    Pow2Add(W - s, s);
    TornArith(d, Pow2(W - s), Pow2(s), BASE);
  }

  lemma TornArith(d: nat, q: nat, p: nat, base: nat)
    requires q > 0 && p > 0 && base == q * p && d < base
    ensures base > 0
    ensures d * p % base == d % q * p <= base - p
    ensures d * p == d % q * p + d / q * base
    ensures d / q < p && d / p < q
  {
    DivMod(d, q);
    MulAdd(d / q * q, d % q, p);
    MulAssoc(d / q, q, p);
    MulLe(d % q, q - 1, p);
    MulSub(q, 1, p);
    MulLe(0, d % q, p);
    DivModUnique(d * p, base, d / q, d % q * p);
    DivLe(d, q, p);
    DivLe(d, p, q);
  }

  method ShiftLeft(a: array<digit>, o: nat, len: nat, shift: nat) returns (carry: digit)
    requires o + len <= a.Length && shift < W
    modifies a
    ensures OnlyChanged(a, o, o + len)
    ensures carry < Pow2(shift)
    ensures Scaled(a[..], old(a[..]), o, len, carry, Pow2(shift))
  {
    hide Val, P, Scaled, Bitwise, ShlW, ShrW;
    BaseFacts();
    Pow2Zero();
    var shift2 := W - shift;
    carry := 0;
    ghost var was := a[..];
    ScaledStart(was, o, len, Pow2(shift));
    if shift > 0 {
      for i := 0 to len
        invariant carry < Pow2(shift)
        invariant forall k :: 0 <= k < a.Length && !(o <= k < o + i) ==> a[k] == was[k]
        invariant Scaled(a[..], was, o, i, carry, Pow2(shift))
      {
        ghost var prev := a[..];
        var d := a[o + i];
        JoinShifted(d, shift, carry);
        a[o + i] := Bitwise(Or, ShlW(d, shift), carry);
        ScaledStep(was, prev, a[..], o, i, Pow2(shift), carry, ShrW(d, shift2));
        carry := ShrW(d, shift2);
      }
    }
  }

  lemma JoinShifted(d: digit, s: nat, c: nat)
    requires s <= W && c < Pow2(s)
    ensures Bitwise(Or, ShlW(d, s), c) == ShlW(d, s) + c < BASE
    ensures ShlW(d, s) + c + ShrW(d, W - s) * BASE == d * Pow2(s) + c
    ensures ShrW(d, W - s) < Pow2(s)
  {
    hide *;
    TornDigit(d, s);
    OrDisjoint(d % Pow2(W - s), c, s);
  }

  /** The digits of was from o + i up are m times those of now, plus a rest. */
  ghost predicate Divided(now: seq<digit>, was: seq<digit>, o: nat, i: nat, n: nat, m: int, rest: int)
    requires i <= n && o + n <= |now| && o + n <= |was|
  {
    Val(was[o + i..o + n]) == Val(now[o + i..o + n]) * m + rest
  }

  lemma DividedStep(was: seq<digit>, prev: seq<digit>, now: seq<digit>, o: nat, i: nat, n: nat, s: nat, rest: nat)
    requires i < n && o + n <= |now| == |prev| == |was| && now == prev[o + i := now[o + i]]
    requires prev[o + i] == was[o + i]
    requires s <= W
    requires now[o + i] == was[o + i] / Pow2(s) + rest * Pow2(W - s)
    requires Divided(prev, was, o, i + 1, n, Pow2(s), rest)
    ensures Divided(now, was, o, i, n, Pow2(s), was[o + i] % Pow2(s))
  {
    hide Val, P;
    ValCons(was, o + i, n - i);
    ValCons(now, o + i, n - i);
    assert now[o + i + 1..o + n] == prev[o + i + 1..o + n];
    Pow2Add(W - s, s);
    DividedWeight(was[o + i], now[o + i], rest, Pow2(W - s), Pow2(s), BASE, Val(prev[o + i + 1..o + n]),
                  Val(was[o + i + 1..o + n]));
  }

  lemma DividedWeight(x: int, y: int, rest: int, q: int, p: int, base: int, v: int, w: int)
    requires p > 0 && base == q * p
    requires y == x / p + rest * q
    requires w == v * p + rest
    ensures x + base * w == (y + base * v) * p + x % p
  {
    DivMod(x, p);
    MulAdd(x / p, rest * q, p);
    MulAssoc(rest, q, p);
    MulAdd(y, base * v, p);
    MulAdd(v * p, rest, base);
    MulAssoc(base, v, p);
  }

  method ShiftRight(a: array<digit>, o: nat, len: nat, shift: nat) returns (carry: digit)
    requires o + len <= a.Length && shift < W
    modifies a
    ensures OnlyChanged(a, o, o + len)
    ensures Val(a[o..o + len]) == old(Val(a[o..o + len])) / Pow2(shift)
    ensures carry == old(Val(a[o..o + len])) % Pow2(shift) * Pow2(W - shift)
  {
    hide Val, P, Divided, Bitwise, ShlW, ShrW, Pow2;
    BaseFacts();
    Pow2Zero();
    var shift2 := W - shift;
    carry := 0;
    ghost var was, rest := a[..], 0;
    if shift > 0 {
      DividedStart(was, o, len, Pow2(shift));
      var i := len;
      while i > 0
        invariant 0 <= i <= len
        invariant 0 <= rest < Pow2(shift) && carry == rest * Pow2(shift2)
        invariant forall k :: 0 <= k < a.Length && !(o + i <= k < o + len) ==> a[k] == was[k]
        invariant Divided(a[..], was, o, i, len, Pow2(shift), rest)
      {
        i := i - 1;
        ghost var prev := a[..];
        var d := a[o + i];
        JoinShiftedDown(d, shift, rest);
        a[o + i] := Bitwise(Or, ShrW(d, shift), carry);
        DividedStep(was, prev, a[..], o, i, len, shift, rest);
        carry := ShlW(d, shift2);
        rest := d % Pow2(shift);
      }
      DividedEnd(a[..], was, o, len, Pow2(shift), rest);
    }
  }

  lemma JoinShiftedDown(d: digit, s: nat, rest: nat)
    requires s <= W && rest < Pow2(s)
    ensures rest * Pow2(W - s) >= 0
    ensures Bitwise(Or, ShrW(d, s), rest * Pow2(W - s)) == d / Pow2(s) + rest * Pow2(W - s) < BASE
    ensures ShlW(d, W - s) == d % Pow2(s) * Pow2(W - s)
    ensures 0 <= d % Pow2(s) < Pow2(s)
  {
    hide Pow2, Bitwise;
    TornDigit(d, W - s);
    TornDigit(d, s);
    OrDisjoint(rest, d / Pow2(s), W - s);
    Pow2Add(W - s, s);
    MulLe(rest, Pow2(s) - 1, Pow2(W - s));
    MulSub(Pow2(s), 1, Pow2(W - s));
    DivMod(d, Pow2(s));
  }

  lemma DividedStart(s: seq<digit>, o: nat, n: nat, m: int)
    requires o + n <= |s|
    ensures Divided(s, s, o, n, n, m, 0)
  {
  }

  lemma DividedEnd(now: seq<digit>, was: seq<digit>, o: nat, n: nat, m: int, rest: int)
    requires o + n <= |now| && o + n <= |was| && 0 <= rest < m
    requires Divided(now, was, o, 0, n, m, rest)
    ensures Val(now[o..o + n]) == Val(was[o..o + n]) / m
    ensures Val(was[o..o + n]) % m == rest
  {
    hide Val;
    DivModUnique(Val(was[o..o + n]), m, Val(now[o..o + n]), rest);
  }
}
