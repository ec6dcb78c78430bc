/** The low-level GMP routines that the Zarith stubs call: source operands are
    digit strings, the destination is an array. GMP's own code is not part of
    this model; schoolbook routines with the same results stand in for it. */
module Mpn {
  import opened Arith
  import opened Words
  import opened Bng
  import BngDiv

  method Copy(r: array<digit>, s: seq<digit>)
    requires |s| <= r.Length
    modifies r
    ensures r[..|s|] == s && r[|s|..] == old(r[|s|..])
  {
    for i := 0 to |s|
      invariant r[..i] == s[..i]
      invariant r[i..] == old(r[i..])
    {
      r[i] := s[i];
      assert r[..i + 1] == s[..i + 1];
    }
  }

  lemma WholeSlice(s: seq<digit>, n: nat)
    requires n <= |s|
    ensures s[0..n] == s[..n] && s[0..0 + n] == s[..n]
  {
  }

  /** What Grew says of the lowest n digits. */
  lemma GrewLow(s: seq<digit>, t: seq<digit>, n: nat, c: int, x: int)
    requires n <= |s| && n <= |t| && Grew(s, t, 0, n, c, x)
    ensures Val(s[..n]) + c * P(n) == Val(t[..n]) + x
  {
    hide Val, P;
    WholeSlice(s, n);
    WholeSlice(t, n);
  }

  lemma HighUnchanged(s: seq<digit>, t: seq<digit>, n: nat)
    requires n <= |s| == |t| && forall k :: 0 <= k < |s| && !(0 <= k < n) ==> s[k] == t[k]
    ensures s[n..] == t[n..]
  {
  }

  method Add(r: array<digit>, s: seq<digit>, t: seq<digit>) returns (c: digit)
    requires |t| <= |s| <= r.Length
    modifies r
    ensures r[|s|..] == old(r[|s|..]) && c <= 1
    ensures Val(r[..|s|]) + c * P(|s|) == Val(s) + Val(t)
  {
    hide Val, P, Grew;
    Copy(r, s);
    ghost var was := r[..];
    var b := new digit[|t|](i requires 0 <= i < |t| => t[i]);
    assert b[0..|t|] == t;
    BaseFacts();
    var k := Bng.Add(r, 0, |s|, b, 0, |t|, 0);
    GrewLow(r[..], was, |s|, k, Val(t));
    HighUnchanged(r[..], was, |s|);
    c := k;
  }

  /** The difference; a borrow is possible only when t is larger. */
  method Sub(r: array<digit>, s: seq<digit>, t: seq<digit>) returns (c: digit)
    requires |t| <= |s| <= r.Length
    modifies r
    ensures r[|s|..] == old(r[|s|..]) && c <= 1
    ensures Val(r[..|s|]) + Val(t) == Val(s) + c * P(|s|)
  {
    hide Val, P, Grew;
    Copy(r, s);
    ghost var was := r[..];
    var b := new digit[|t|](i requires 0 <= i < |t| => t[i]);
    assert b[0..|t|] == t;
    BaseFacts();
    var k := Bng.Sub(r, 0, |s|, b, 0, |t|, 0);
    GrewLow(was, r[..], |s|, k, Val(t));
    HighUnchanged(r[..], was, |s|);
    c := k;
  }

  method Add1(r: array<digit>, s: seq<digit>) returns (c: digit)
    requires |s| <= r.Length
    modifies r
    ensures r[|s|..] == old(r[|s|..]) && c <= 1
    ensures Val(r[..|s|]) + c * P(|s|) == Val(s) + 1
  {
    hide Val, P, Grew;
    Copy(r, s);
    ghost var was := r[..];
    BaseFacts();
    var k := AddCarry(r, 0, |s|, 1);
    GrewLow(r[..], was, |s|, k, 1);
    HighUnchanged(r[..], was, |s|);
    c := k;
  }

  method Sub1(r: array<digit>, s: seq<digit>) returns (c: digit)
    requires |s| <= r.Length
    modifies r
    ensures r[|s|..] == old(r[|s|..]) && c <= 1
    ensures Val(r[..|s|]) + 1 == Val(s) + c * P(|s|)
  {
    hide Val, P, Grew;
    Copy(r, s);
    ghost var was := r[..];
    BaseFacts();
    var k := SubCarry(r, 0, |s|, 1);
    GrewLow(was, r[..], |s|, k, 1);
    HighUnchanged(r[..], was, |s|);
    c := k;
  }

  /** Shifts down by less than a digit; returns the bits shifted out, at the top
      of a digit. */
  method Rshift(r: array<digit>, s: seq<digit>, count: nat) returns (out: digit)
    requires |s| <= r.Length && 0 < count < W
    modifies r
    ensures r[|s|..] == old(r[|s|..])
    ensures Val(r[..|s|]) == Val(s) / Pow2(count)
    ensures out == Val(s) % Pow2(count) * Pow2(W - count)
  {
    hide Val, P, Pow2;
    Copy(r, s);
    ghost var was := r[..];
    WholeSlice(r[..], |s|);
    out := ShiftRight(r, 0, |s|, count);
    WholeSlice(r[..], |s|);
    HighUnchanged(r[..], was, |s|);
  }

  method Cmp(s: seq<digit>, t: seq<digit>) returns (r: int)
    requires |s| == |t|
    ensures r == if Val(s) > Val(t) then 1 else if Val(s) < Val(t) then -1 else 0
  {
    hide Val, P;
    var a := new digit[|s|](i requires 0 <= i < |s| => s[i]);
    var b := new digit[|t|](i requires 0 <= i < |t| => t[i]);
    assert a[0..0 + |s|] == s && b[0..0 + |t|] == t;
    r := CompareSame(a, 0, b, 0, |s|);
  }

  /** Equal above, larger at limb n: larger altogether. */
  lemma HigherDigit(s: seq<digit>, t: seq<digit>, n: nat)
    requires n < |s| == |t| && s[n] > t[n] && s[n + 1..] == t[n + 1..]
    ensures Val(s) > Val(t)
  {
    hide Val, P;
    HigherDigitWins(s, t, n);
  }

  /** Quotient and remainder, truncated, of naturals; the divisor's top digit is
      not zero. */
  method TdivQr(q: array<digit>, r: array<digit>, n: seq<digit>, d: seq<digit>)
    requires 0 < |d| <= |n| && d[|d| - 1] != 0 && q != r
    requires |n| - |d| + 1 <= q.Length && |d| <= r.Length
    modifies q, r
    ensures q[|n| - |d| + 1..] == old(q[|n| - |d| + 1..])
    ensures Val(n) == Val(q[..|n| - |d| + 1]) * Val(d) + Val(r[..|d|])
    ensures Val(r[..|d|]) < Val(d)
  {
    hide Val, P;
    var nlen, dlen := |n| + 1, |d|;
    var a := new digit[nlen](i requires 0 <= i < nlen => if i < |n| then n[i] else 0);
    var b := new digit[dlen](i requires 0 <= i < dlen => d[i]);
    assert a[0..nlen] == n + [0] && b[0..dlen] == d;
    ValSnoc(n, 0);
    BngDiv.DivRem(a, 0, nlen, b, 0, dlen);
    assert b[0..dlen] == d;
    assert a[0 + dlen..0 + nlen] == a[dlen..];
    Copy(q, a[dlen..]);
    assert a[0..0 + dlen] == a[..dlen];
    Copy(r, a[..dlen]);
  }
}
