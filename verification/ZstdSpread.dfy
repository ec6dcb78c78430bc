/** The second part of rfse: spreading the symbols over the table below ht. */
module ZstdSpread {
  import opened Arith
  import opened Counting
  import opened ZstdCommon
  import opened ZstdDistribution
  import opened ZstdWalk

  /** The symbols below n of positive frequency, each repeated as often as that. */
  ghost function Listing(freq: seq<int>, n: nat): seq<byte>
    requires n <= |freq| && n <= 256
  {
    if n == 0 then [] else Listing(freq, n - 1) + seq(if freq[n - 1] < 1 then 0 else freq[n - 1], _ => n - 1)
  }

  lemma {:induction false} ListingCount(freq: seq<int>, n: nat, v: byte)
    requires n <= |freq| && n <= 256
    ensures Count(Listing(freq, n), v) == if v < n && freq[v] >= 1 then freq[v] else 0
  {
    if n > 0 {
      ListingCount(freq, n - 1, v);
      var run: seq<byte> := seq(if freq[n - 1] < 1 then 0 else freq[n - 1], _ => n - 1);
      CountAppend(Listing(freq, n - 1), run, v);
      if v == n - 1 {
        CountAll(run, v);
      } else {
        CountZero(run, v);
      }
    }
  }

  lemma {:induction false} ListingLength(freq: seq<int>, n: nat)
    requires n <= |freq| && n <= 256
    requires forall k :: 0 <= k < |freq| ==> freq[k] >= -1
    ensures |Listing(freq, n)| == SlotSum(freq[..n]) - Count(freq[..n], -1)
  {
    if n > 0 {
      ListingLength(freq, n - 1);
      assert freq[..n][..n - 1] == freq[..n - 1];
    }
  }

  lemma {:induction false} ListingPrefix(freq: seq<int>, m: nat, n: nat)
    requires m <= n <= |freq| && n <= 256
    ensures |Listing(freq, m)| <= |Listing(freq, n)|
    ensures Listing(freq, n)[..|Listing(freq, m)|] == Listing(freq, m)
    decreases n
  {
    if m < n {
      ListingPrefix(freq, m, n - 1);
    }
  }

  /** Entry i of the run of symbol s in the listing. */
  lemma ListingAt(freq: seq<int>, s: nat, i: nat, n: nat)
    requires s < n <= |freq| && n <= 256 && i < freq[s]
    ensures |Listing(freq, s)| + i < |Listing(freq, n)|
    ensures |Listing(freq, s + 1)| == |Listing(freq, s)| + freq[s]
    ensures Listing(freq, n)[|Listing(freq, s)| + i] == s
  {
    ListingPrefix(freq, s + 1, n);
    var l := Listing(freq, s + 1);
    assert l[|Listing(freq, s)| + i] == s;
    assert Listing(freq, n)[..|l|][|Listing(freq, s)| + i] == s;
  }

  lemma {:induction false} ListingSorted(freq: seq<int>, n: nat, i: nat, j: nat)
    requires n <= |freq| && n <= 256 && i <= j < |Listing(freq, n)|
    ensures Listing(freq, n)[i] <= Listing(freq, n)[j] < n
  {
    if n > 0 {
      var m := |Listing(freq, n - 1)|;
      if j < m {
        ListingSorted(freq, n - 1, i, j);
      } else if i < m {
        ListingSorted(freq, n - 1, i, i);
      }
    }
  }

  /** How many of the first k slots of the walk lie below ht. */
  ghost function Visited(k: nat, step: nat, size: nat, ht: nat): nat
    requires size > 0
  {
    if k == 0 then 0 else Visited(k - 1, step, size, ht) + (if Walk(k - 1, step, size) < ht then 1 else 0)
  }

  /** After k steps: exactly the slots below ht that the walk has been at hold
      the first t listed symbols, in the order of the walk. `g` is the table below
      ht with -1 in the slots still free. */
  ghost predicate Placed(g: seq<int>, syms: seq<byte>, list: seq<byte>, t: nat, k: nat, step: nat, ht: nat)
    requires |syms| > 0
  {
    && |g| == ht <= |syms| && k <= |syms| && t <= |list|
    && Visited(k, step, |syms|, ht) == t
    && (forall x :: 0 <= x < ht && g[x] != -1 ==> g[x] == syms[x])
    && Reached(g, |syms|, k, step, ht)
    && Count(g, -1) == ht - t
    && (forall v: byte :: Count(g, v) == Count(list[..t], v))
    && InOrder(syms, list, t, k, step, ht)
  }

  /** The slots below ht are taken that the first k steps led to, and only they. */
  ghost predicate Reached(g: seq<int>, size: nat, k: nat, step: nat, ht: nat)
    requires size > 0 && |g| == ht
  {
    && (forall j: nat :: j < k && Walk(j, step, size) < ht ==> g[Walk(j, step, size)] != -1)
    && (forall j: nat :: k <= j < size && Walk(j, step, size) < ht ==> g[Walk(j, step, size)] == -1)
  }

  /** The slots below ht of the first k steps hold the first t listed symbols. */
  ghost predicate InOrder(syms: seq<byte>, list: seq<byte>, t: nat, k: nat, step: nat, ht: nat)
    requires |syms| > 0
  {
    t <= |list| && forall j: nat :: j < k && Walk(j, step, |syms|) < ht ==>
      && Visited(j, step, |syms|, ht) < t
      && syms[Walk(j, step, |syms|)] == list[Visited(j, step, |syms|, ht)]
  }

  lemma PlacedStart(g: seq<int>, syms: seq<byte>, list: seq<byte>, step: nat, ht: nat)
    requires |syms| > 0 && |g| == ht <= |syms|
    requires forall x :: 0 <= x < ht ==> g[x] == -1
    ensures Placed(g, syms, list, 0, 0, step, ht)
  {
    CountAll(g, -1);
    forall v: byte
      ensures Count(g, v) == 0
    {
      CountZero(g, v);
    }
  }

  /** Putting the next symbol into the slot the walk is at. */
  lemma PlaceOne(g: seq<int>, syms: seq<byte>, list: seq<byte>, t: nat, k: nat, step: nat, ht: nat, al: nat)
    requires |syms| == Pow2(al) && step % 2 == 1 && k < |syms| && t < |list|
    requires Placed(g, syms, list, t, k, step, ht) && Walk(k, step, |syms|) < ht
    ensures var x := Walk(k, step, |syms|);
            Placed(g[x := list[t]], syms[x := list[t]], list, t + 1, k + 1, step, ht)
  {
    hide Count, Walk, Pow2;
    var x := Walk(k, step, |syms|);
    forall j: nat | j < |syms| && Walk(j, step, |syms|) == x
      ensures j == k
    {
      WalkInjective(j, k, step, al);
    }
    CountUpdate(g, x, list[t], -1);
    var g', list' := g[x := list[t]], list[..t + 1];
    forall v: byte
      ensures Count(g', v) == Count(list', v)
    {
      CountUpdate(g, x, list[t], v);
      CountNext(list, t, v);
    }
  }

  /** Stepping over a slot that is taken by a symbol of frequency -1. */
  lemma StepOver(g: seq<int>, syms: seq<byte>, list: seq<byte>, t: nat, k: nat, step: nat, ht: nat)
    requires 0 < |syms| && k < |syms|
    requires Placed(g, syms, list, t, k, step, ht) && Walk(k, step, |syms|) >= ht
    ensures Placed(g, syms, list, t, k + 1, step, ht)
  {
    VisitedNext(k, step, |syms|, ht);
    InOrderSkip(syms, list, t, k, step, ht);
    ReachedSkip(g, |syms|, k, step, ht);
    hide Count, Walk, Visited, InOrder, Reached;
  }

  lemma ReachedSkip(g: seq<int>, size: nat, k: nat, step: nat, ht: nat)
    requires size > 0 && |g| == ht && Reached(g, size, k, step, ht) && Walk(k, step, size) >= ht
    ensures Reached(g, size, k + 1, step, ht)
  {
    hide Walk;
  }

  lemma InOrderSkip(syms: seq<byte>, list: seq<byte>, t: nat, k: nat, step: nat, ht: nat)
    requires 0 < |syms| && InOrder(syms, list, t, k, step, ht) && Walk(k, step, |syms|) >= ht
    ensures InOrder(syms, list, t, k + 1, step, ht)
  {
    hide Walk, Visited;
  }

  lemma VisitedNext(k: nat, step: nat, size: nat, ht: nat)
    requires size > 0
    ensures Visited(k + 1, step, size, ht) == Visited(k, step, size, ht) + (if Walk(k, step, size) < ht then 1 else 0)
  {
  }

  lemma {:induction false} VisitedMonotone(j: nat, k: nat, step: nat, size: nat, ht: nat)
    requires size > 0 && j <= k
    ensures Visited(j, step, size, ht) <= Visited(k, step, size, ht)
    decreases k - j
  {
    hide Walk;
    if j < k {
      VisitedMonotone(j, k - 1, step, size, ht);
    }
  }

  /** The walk is complete exactly when every symbol has been placed. */
  lemma WalkEnds(g: seq<int>, syms: seq<byte>, list: seq<byte>, t: nat, k: nat, step: nat, ht: nat, al: nat)
    requires |syms| == Pow2(al) && step % 2 == 1
    requires Placed(g, syms, list, t, k, step, ht)
    requires k < |syms| ==> Walk(k, step, |syms|) < ht
    ensures t <= ht
    ensures k == |syms| <==> t == ht
  {
    hide Walk, Pow2;
    CountZero(g, -1);
    if k == |syms| {
      forall x | 0 <= x < ht
        ensures g[x] != -1
      {
        var j := WalkCovers(x, step, al);
      }
    } else {
      assert g[Walk(k, step, |syms|)] == -1;
    }
  }

  /** The walk so far, and where it stands: below ht, unless there is nothing
      to place there at all. */
  ghost predicate Spreading(syms: seq<byte>, top: seq<byte>, list: seq<byte>, t: nat, sympos: nat, step: nat, ht: nat) {
    && 0 < |syms| && ht <= |syms| && syms[ht..] == top
    && (ht == 0 ==> sympos == 0)
    && exists g, k: nat :: PlacedAt(g, syms, list, t, k, sympos, step, ht)
  }

  ghost predicate PlacedAt(g: seq<int>, syms: seq<byte>, list: seq<byte>, t: nat, k: nat, sympos: nat, step: nat,
                           ht: nat)
    requires |syms| > 0
  {
    && Placed(g, syms, list, t, k, step, ht)
    && Walk(k, step, |syms|) == sympos
    && (ht > 0 ==> sympos < ht)
  }

  lemma SpreadingStart(syms: seq<byte>, list: seq<byte>, step: nat, ht: nat)
    requires 0 < |syms| && ht <= |syms|
    ensures Spreading(syms, syms[ht..], list, 0, 0, step, ht)
  {
    var g := seq(ht, _ => -1);
    PlacedStart(g, syms, list, step, ht);
    WalkNext(0, step, |syms|);
    assert PlacedAt(g, syms, list, 0, 0, 0, step, ht);
  }

  /** At the end the walk is back at slot 0, every slot is filled, and each symbol
      has as many slots as it has in the list and on top. */
  lemma SpreadingEnd(syms: seq<byte>, top: seq<byte>, list: seq<byte>, sympos: nat, step: nat, ht: nat, al: nat)
    requires |syms| == Pow2(al) && step % 2 == 1 && |list| == ht
    requires Spreading(syms, top, list, ht, sympos, step, ht)
    ensures sympos == 0
    ensures forall v: byte :: Count(syms, v) == Count(list, v) + Count(top, v)
    ensures InOrder(syms, list, ht, |syms|, step, ht)
    ensures syms[ht..] == top
  {
    hide Count, Walk, Pow2, Visited;
    var g, k: nat :| PlacedAt(g, syms, list, ht, k, sympos, step, ht);
    if ht > 0 {
      WalkEnds(g, syms, list, ht, k, step, ht, al);
      WalkReturns(step, |syms|);
    }
    CountZero(g, -1);
    assert list[..ht] == list;
    assert syms == syms[..ht] + syms[ht..];
    forall v: byte
      ensures Count(syms, v) == Count(list, v) + Count(top, v)
    {
      SameCount(g, syms[..ht], v);
      CountAppend(syms[..ht], syms[ht..], v);
    }
  }

  lemma {:induction false} SameCount(s: seq<int>, t: seq<byte>, v: byte)
    requires |s| == |t| && forall i :: 0 <= i < |s| ==> s[i] == t[i]
    ensures Count(s, v) == Count(t, v)
  {
    if |s| > 0 {
      SameCount(s[..|s| - 1], t[..|t| - 1], v);
    }
  }

  /** Puts one symbol and moves on to the next slot below ht; that search ends. */
  method PlaceAndMove(syms: array<byte>, s: byte, sympos0: nat, ghost t: nat, ghost list: seq<byte>,
                      ghost top: seq<byte>, step: nat, ht: nat, ghost al: nat)
    returns (sympos: nat)
    requires syms.Length == Pow2(al) && step % 2 == 1 && ht <= syms.Length
    requires t < |list| <= ht && list[t] == s
    requires Spreading(syms[..], top, list, t, sympos0, step, ht)
    modifies syms
    ensures Spreading(syms[..], top, list, t + 1, sympos, step, ht)
  {
    hide Count, Walk, Pow2, Visited, Placed, Spreading;
    ghost var size, before := syms.Length, syms[..];
    ghost var g, k: nat := Position(before, top, list, t, sympos0, step, ht, al);
    syms[sympos0] := s;
    ghost var now := syms[..];
    assert now == before[sympos0 := s];
    g := g[sympos0 := s];
    WalkNext(k, step, size);
    sympos := (sympos0 + step) % syms.Length;
    k := k + 1;
    while sympos >= ht
      invariant syms[..] == now
      invariant k <= size && Walk(k, step, size) == sympos
      invariant Placed(g, now, list, t + 1, k, step, ht)
      decreases size - k
    {
      WalkReturns(step, size);
      StepOver(g, now, list, t + 1, k, step, ht);
      WalkNext(k, step, size);
      sympos := (sympos + step) % syms.Length;
      k := k + 1;
    }
    SpreadingIntro(g, now, top, list, t + 1, k, sympos, step, ht);
  }

  /** Where the walk stands while there is still something to place, and what
      placing it there does. */
  lemma Position(syms: seq<byte>, top: seq<byte>, list: seq<byte>, t: nat, sympos: nat, step: nat, ht: nat, al: nat)
    returns (g: seq<int>, k: nat)
    requires |syms| == Pow2(al) && step % 2 == 1 && t < |list| <= ht <= |syms|
    requires Spreading(syms, top, list, t, sympos, step, ht)
    ensures k < |syms| && Walk(k, step, |syms|) == sympos < ht == |g|
    ensures syms[sympos := list[t]][ht..] == top
    ensures Placed(g[sympos := list[t]], syms[sympos := list[t]], list, t + 1, k + 1, step, ht)
  {
    hide Count, Walk, Pow2, Visited, Placed;
    g, k :| PlacedAt(g, syms, list, t, k, sympos, step, ht);
    NotYetDone(g, syms, list, t, k, step, ht, al);
    PlaceOne(g, syms, list, t, k, step, ht, al);
    assert syms[sympos := list[t]][ht..] == syms[ht..];
  }

  lemma SpreadingIntro(g: seq<int>, syms: seq<byte>, top: seq<byte>, list: seq<byte>, t: nat, k: nat, sympos: nat,
                       step: nat, ht: nat)
    requires 0 < |syms| && 0 < ht <= |syms| && syms[ht..] == top
    requires Placed(g, syms, list, t, k, step, ht) && Walk(k, step, |syms|) == sympos < ht
    ensures Spreading(syms, top, list, t, sympos, step, ht)
  {
    assert PlacedAt(g, syms, list, t, k, sympos, step, ht);
  }

  lemma NotYetDone(g: seq<int>, syms: seq<byte>, list: seq<byte>, t: nat, k: nat, step: nat, ht: nat, al: nat)
    requires |syms| == Pow2(al) && step % 2 == 1 && t < ht
    requires Placed(g, syms, list, t, k, step, ht)
    requires ht > 0 ==> Walk(k, step, |syms|) < ht
    ensures k < |syms| && |g| == ht && Walk(k, step, |syms|) < ht
  {
    hide Walk, Visited, Count;
    WalkEnds(g, syms, list, t, k, step, ht, al);
  }

  /** Spreads the symbols and turns freq into the number of slots of each. The
      position ends at 0, so the source's final check never fails. */
  method Spread(syms: array<byte>, freq: array<int>, sym: int, ht: nat, al: nat) returns (sympos: nat)
    requires 5 <= al && syms.Length == Pow2(al) && freq.Length == 256 && sym < 256
    requires Booked(sym, 0, freq[..], ht, syms[..])
    modifies syms, freq
    ensures sympos == 0
    ensures forall v :: 0 <= v < 256 ==> freq[v] == Slots(old(freq[v]))
    ensures forall v: byte :: Count(syms[..], v) == freq[v]
    ensures syms[ht..] == old(syms[ht..])
    ensures InOrder(syms[..], Listing(old(freq[..]), 256), ht, syms.Length,
                    syms.Length / 2 + syms.Length / 8 + 3, ht)
  {
    hide Count, SlotSum, Listing, Spreading, InOrder, Pow2;
    StepIsOdd(al);
    BookedRange(sym, 0, freq[..], ht, syms[..]);
    ghost var f0, list, top := freq[..], Listing(freq[..], 256), syms[ht..];
    ListHasRoom(sym, f0, ht, syms[..]);
    var sstep := syms.Length / 2 + syms.Length / 8 + 3;
    sympos := 0;
    SpreadingStart(syms[..], list, sstep, ht);
    ListingEmpty(f0);
    for s := 0 to sym + 1
      invariant forall v :: 0 <= v < 256 ==> freq[v] == if v < s then Slots(f0[v]) else f0[v]
      invariant |Listing(f0, s)| <= |list|
      invariant Spreading(syms[..], top, list, |Listing(f0, s)|, sympos, sstep, ht)
    {
      var sf := freq[s];
      ListingNext(f0, s);
      if sf < 1 {
        freq[s] := 0 - sf;
        continue;
      }
      for i := 0 to sf
        invariant forall v :: 0 <= v < 256 ==> freq[v] == if v < s then Slots(f0[v]) else f0[v]
        invariant Spreading(syms[..], top, list, |Listing(f0, s)| + i, sympos, sstep, ht)
      {
        ListingAt(f0, s, i, 256);
        sympos := PlaceAndMove(syms, s, sympos, |Listing(f0, s)| + i, list, top, sstep, ht, al);
      }
    }
    ListingTail(f0, sym);
    SpreadingEnd(syms[..], top, list, sympos, sstep, ht, al);
    forall v: byte
      ensures Count(syms[..], v) == freq[v]
    {
      ListingCount(f0, 256, v);
    }
  }

  lemma ListHasRoom(sym: int, freq: seq<int>, ht: nat, syms: seq<byte>)
    requires Booked(sym, 0, freq, ht, syms)
    ensures |Listing(freq, 256)| == ht
    ensures forall v: byte :: Count(syms[ht..], v) == if freq[v] == -1 then 1 else 0
    ensures forall v :: 0 <= v < 256 ==> freq[v] >= -1
    ensures forall v :: sym < v < 256 ==> freq[v] == 0
  {
    ListingLength(freq, 256);
    assert freq[..256] == freq;
    forall v: byte
      ensures Count(syms[ht..], v) == if freq[v] == -1 then 1 else 0
    {
      LowListingCount(freq, 256, v);
    }
  }

  lemma ListingEmpty(freq: seq<int>)
    ensures Listing(freq, 0) == []
  {
  }

  lemma ListingNext(freq: seq<int>, s: nat)
    requires s < |freq| && s < 256
    ensures |Listing(freq, s + 1)| == |Listing(freq, s)| + (if freq[s] < 1 then 0 else freq[s])
    ensures forall n :: s + 1 <= n <= |freq| && n <= 256 ==> |Listing(freq, s + 1)| <= |Listing(freq, n)|
  {
    forall n | s + 1 <= n <= |freq| && n <= 256
      ensures |Listing(freq, s + 1)| <= |Listing(freq, n)|
    {
      ListingPrefix(freq, s + 1, n);
    }
  }

  /** Symbols past the last one read have no frequency. */
  lemma {:induction false} ListingTail(freq: seq<int>, sym: int)
    requires |freq| == 256 && -1 <= sym < 256 && forall v :: sym < v < 256 ==> freq[v] == 0
    ensures |Listing(freq, 256)| == |Listing(freq, sym + 1)|
    decreases 256 - sym
  {
    if sym < 255 {
      ListingTail(freq, sym + 1);
    }
  }
}
