/** Occurrences of a value in a sequence, and their ranks. */
module Counting {

  function Count<T(==)>(s: seq<T>, v: T): (n: nat)
    ensures n <= |s|
  {
    if |s| == 0 then 0 else Count(s[..|s| - 1], v) + (if s[|s| - 1] == v then 1 else 0)
  }

  /** The positions below n that hold v. */
  ghost function Holding<T>(s: seq<T>, n: nat, v: T): (r: set<nat>)
    requires n <= |s|
    ensures forall j: nat :: j in r <==> j < n && s[j] == v
  {
    set j: nat | j < n && s[j] == v
  }

  lemma {:induction false} CountHolding<T>(s: seq<T>, n: nat, v: T)
    requires n <= |s|
    ensures Count(s[..n], v) == |Holding(s, n, v)|
  {
    if n == 0 {
      assert Holding(s, 0, v) == {};
    } else {
      CountHolding(s, n - 1, v);
      CountNext(s, n - 1, v);
      if s[n - 1] == v {
        assert Holding(s, n, v) == Holding(s, n - 1, v) + {n - 1};
      } else {
        assert Holding(s, n, v) == Holding(s, n - 1, v);
      }
    }
  }

  lemma CountSnoc<T>(s: seq<T>, x: T, v: T)
    ensures Count(s + [x], v) == Count(s, v) + (if x == v then 1 else 0)
  {
    assert (s + [x])[..|s|] == s;
  }

  lemma CountNext<T>(s: seq<T>, i: nat, v: T)
    requires i < |s|
    ensures Count(s[..i + 1], v) == Count(s[..i], v) + (if s[i] == v then 1 else 0)
  {
    assert s[..i + 1][..i] == s[..i];
  }

  lemma {:induction false} CountAppend<T>(s: seq<T>, t: seq<T>, v: T)
    ensures Count(s + t, v) == Count(s, v) + Count(t, v)
  {
    if |t| == 0 {
      assert s + t == s;
    } else {
      CountAppend(s, t[..|t| - 1], v);
      assert (s + t)[..|s + t| - 1] == s + t[..|t| - 1];
    }
  }

  lemma CountUpdate<T>(s: seq<T>, i: nat, x: T, v: T)
    requires i < |s|
    ensures Count(s[i := x], v) == Count(s, v) - (if s[i] == v then 1 else 0) + (if x == v then 1 else 0)
  {
    hide Count;
    var tail := s[i + 1..];
    assert s == (s[..i] + [s[i]]) + tail;
    assert s[i := x] == (s[..i] + [x]) + tail;
    CountAppend(s[..i] + [s[i]], tail, v);
    CountAppend(s[..i] + [x], tail, v);
    CountSnoc(s[..i], s[i], v);
    CountSnoc(s[..i], x, v);
  }

  lemma {:induction false} CountMonotone<T>(s: seq<T>, i: nat, j: nat, v: T)
    requires i <= j <= |s|
    ensures Count(s[..i], v) <= Count(s[..j], v) <= Count(s, v)
    ensures i < j && s[i] == v ==> Count(s[..i], v) < Count(s[..j], v)
    decreases j - i
  {
    hide Count;
    assert s == s[..j] + s[j..];
    CountAppend(s[..j], s[j..], v);
    if i < j {
      CountNext(s, i, v);
      CountMonotone(s, i + 1, j, v);
    }
  }

  /** For every rank below the count there is an occurrence of that rank. */
  lemma {:induction false} NthOccurrence<T>(s: seq<T>, v: T, r: nat) returns (i: nat)
    requires r < Count(s, v)
    ensures i < |s| && s[i] == v && Count(s[..i], v) == r
  {
    var n := |s| - 1;
    if r < Count(s[..n], v) {
      i := NthOccurrence(s[..n], v, r);
      assert s[..n][..i] == s[..i];
    } else {
      i := n;
    }
  }

  lemma {:induction false} CountZero<T>(s: seq<T>, v: T)
    ensures Count(s, v) == 0 <==> forall i :: 0 <= i < |s| ==> s[i] != v
  {
    if |s| > 0 {
      CountZero(s[..|s| - 1], v);
    }
  }

  lemma {:induction false} CountAll<T>(s: seq<T>, v: T)
    requires forall i :: 0 <= i < |s| ==> s[i] == v
    ensures Count(s, v) == |s|
  {
    if |s| > 0 {
      CountAll(s[..|s| - 1], v);
    }
  }
}
