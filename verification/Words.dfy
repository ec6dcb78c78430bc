/** Machine words and the naturals that little-endian arrays of words denote.

    The word width is left arbitrary: `LogHalf` has no value here, so every
    result holds for each width 2 * 2^LogHalf from 4 on, in particular for 32
    and 64. */
module Words {
  import opened Arith

  type WidthLog = k: int | k >= 1 witness 1

  /** Base-two logarithm of the number of bits of half a word. */
  const LogHalf: WidthLog

  const HalfBits: nat := Pow2(LogHalf)
  const W: nat := 2 * HalfBits
  const B: nat := Pow2(HalfBits)
  const BASE: nat := Pow2(W)

  lemma BaseFacts()
    ensures BASE == B * B
    ensures B >= 2 && B % 2 == 0
    ensures W >= 2 && HalfBits >= 1
    ensures BASE >= 16 && BASE % 4 == 0
    ensures BASE > B
  {
    PowerDefinitions();
    hide *;
    Pow2Add(HalfBits, HalfBits);
    EvenSquare(Pow2(HalfBits - 1), B);
  }

  lemma PowerDefinitions()
    ensures HalfBits >= 2 && W == HalfBits + HalfBits
    ensures B == Pow2(HalfBits) == 2 * Pow2(HalfBits - 1)
    ensures Pow2(HalfBits - 1) >= 2
    ensures BASE == Pow2(W)
  {
    assert HalfBits == 2 * Pow2(LogHalf - 1);
    assert Pow2(HalfBits - 1) == 2 * Pow2(HalfBits - 2);
  }

  lemma EvenSquare(k: nat, b: int)
    requires k >= 2 && b == 2 * k
    ensures b * b % 4 == 0
    ensures b * b >= 16
    ensures b * b > b
  {
    assert b * b == 4 * (k * k);
    MulLe(2, k, k);
  }

  type digit = d: int | 0 <= d < BASE witness 0

  /** The place value of digit number n. */
  function P(n: nat): (r: nat)
    ensures r >= 1
  {
    if n == 0 then 1 else BASE * P(n - 1)
  }

  lemma PSucc(n: nat)
    ensures P(n + 1) == BASE * P(n)
  {
  }

  lemma {:induction false} PAdd(m: nat, n: nat)
    ensures P(m + n) == P(m) * P(n)
  {
    if m == 0 {
      assert P(m) == 1;
    } else {
      PAdd(m - 1, n);
      assert P(m + n) == BASE * P(m - 1 + n);
      MulAssoc(BASE, P(m - 1), P(n));
    }
  }

  lemma {:induction false} PIsPow2(n: nat)
    ensures P(n) == Pow2(n * W)
  {
    if n > 0 {
      PIsPow2(n - 1);
      assert n * W == W + (n - 1) * W;
      Pow2Add(W, (n - 1) * W);
    }
  }

  lemma {:induction false} PMonotone(m: nat, n: nat)
    requires m <= n
    ensures P(m) <= P(n)
  {
    PAdd(m, n - m);
    MulLe(1, P(n - m), P(m));
  }

  /** The natural denoted by a little-endian digit string. */
  function Val(s: seq<digit>): nat
  {
    if |s| == 0 then 0 else Val(s[..|s| - 1]) + s[|s| - 1] * P(|s| - 1)
  }

  lemma ValSnoc(s: seq<digit>, d: digit)
    ensures Val(s + [d]) == Val(s) + d * P(|s|)
  {
    assert (s + [d])[..|s|] == s;
  }

  /** Extends the slice of i digits at offset o by one. */
  lemma ValExtend(s: seq<digit>, o: nat, i: nat)
    requires o + i < |s|
    ensures Val(s[o..o + i + 1]) == Val(s[o..o + i]) + s[o + i] * P(i)
  {
    hide Val, P;
    assert s[o..o + i + 1] == s[o..o + i] + [s[o + i]];
    ValSnoc(s[o..o + i], s[o + i]);
  }

  lemma {:induction false} ValAppend(s: seq<digit>, t: seq<digit>)
    ensures Val(s + t) == Val(s) + P(|s|) * Val(t)
  {
    if |t| == 0 {
      assert s + t == s;
    } else {
      var t', d := t[..|t| - 1], t[|t| - 1];
      ValAppend(s, t');
      ValAppendStep(s, t', d);
      assert s + t == (s + t') + [d];
      assert t == t' + [d];
    }
  }

  lemma ValAppendStep(s: seq<digit>, t: seq<digit>, d: digit)
    requires Val(s + t) == Val(s) + P(|s|) * Val(t)
    ensures Val((s + t) + [d]) == Val(s) + P(|s|) * Val(t + [d])
  {
    hide *;
    ValSnoc(s + t, d);
    ValSnoc(t, d);
    PAdd(|s|, |t|);
    Distribute(P(|s|), Val(t), d, P(|t|));
  }

  lemma Distribute(p: int, v: int, d: int, q: int)
    ensures p * (v + d * q) == p * v + d * (p * q)
  {
    MulAdd(v, d * q, p);
    assert p * (d * q) == d * (p * q);
  }

  /** Splits the slice of n digits at offset o after m of them. */
  lemma ValSplit(s: seq<digit>, o: nat, m: nat, n: nat)
    requires m <= n && o + n <= |s|
    ensures Val(s[o..o + n]) == Val(s[o..o + m]) + P(m) * Val(s[o + m..o + n])
  {
    hide Val, P;
    assert s[o..o + n] == s[o..o + m] + s[o + m..o + n];
    ValAppend(s[o..o + m], s[o + m..o + n]);
  }

  lemma {:induction false} ValBound(s: seq<digit>)
    ensures Val(s) < P(|s|)
  {
    if |s| > 0 {
      ValBound(s[..|s| - 1]);
      var p := P(|s| - 1);
      MulLe(s[|s| - 1], BASE - 1, p);
      MulAdd(BASE, -1, p);
    }
  }

  lemma ValOne(s: seq<digit>)
    requires |s| == 1
    ensures Val(s) == s[0]
  {
    assert s == [] + [s[0]];
    ValSnoc([], s[0]);
    assert P(0) == 1;
  }

  lemma {:induction false} ValZeros(s: seq<digit>)
    requires forall i :: 0 <= i < |s| ==> s[i] == 0
    ensures Val(s) == 0
  {
    if |s| > 0 {
      ValZeros(s[..|s| - 1]);
    }
  }

  /** The top digit brackets the value. */
  lemma ValTop(s: seq<digit>)
    requires |s| > 0
    ensures s[|s| - 1] * P(|s| - 1) <= Val(s) < (s[|s| - 1] + 1) * P(|s| - 1)
  {
    ValBound(s[..|s| - 1]);
    MulAdd(s[|s| - 1], 1, P(|s| - 1));
  }

  /** Digit strings of one length denote distinct naturals. */
  lemma {:induction false} ValInjective(s: seq<digit>, t: seq<digit>)
    requires |s| == |t| && Val(s) == Val(t)
    ensures s == t
  {
    if |s| > 0 {
      var n := |s| - 1;
      var p := P(n);
      ValBound(s[..n]);
      ValBound(t[..n]);
      DivModUnique(Val(s), p, s[n], Val(s[..n]));
      DivModUnique(Val(t), p, t[n], Val(t[..n]));
      ValInjective(s[..n], t[..n]);
      assert s == s[..n] + [s[n]];
      assert t == t[..n] + [t[n]];
    }
  }

  // Word arithmetic: what the unsigned C operators compute.

  function AddW(x: digit, y: digit): (r: digit)
    ensures r == if x + y < BASE then x + y else x + y - BASE
  {
    DivModUnique(x + y, BASE, if x + y < BASE then 0 else 1, if x + y < BASE then x + y else x + y - BASE);
    (x + y) % BASE
  }

  function SubW(x: digit, y: digit): (r: digit)
    ensures r == if y <= x then x - y else x - y + BASE
  {
    DivModUnique(x - y, BASE, if y <= x then 0 else -1, if y <= x then x - y else x - y + BASE);
    (x - y) % BASE
  }

  function MulW(x: digit, y: digit): (r: digit)
    ensures x * y < BASE ==> r == x * y
  {
    MulLe(0, x, y);
    if x * y < BASE then
      DivModUnique(x * y, BASE, 0, x * y);
      (x * y) % BASE
    else
      (x * y) % BASE
  }

  /** x << k on words. */
  function ShlW(x: digit, k: nat): digit
  {
    MulLe(0, x, Pow2(k));
    (x * Pow2(k)) % BASE
  }

  /** x >> k on words. */
  function ShrW(x: digit, k: nat): (r: digit)
  {
    MulLe(1, Pow2(k), BASE);
    DivLe(x, Pow2(k), BASE);
    DivMonotone(0, x, Pow2(k));
    x / Pow2(k)
  }
}
