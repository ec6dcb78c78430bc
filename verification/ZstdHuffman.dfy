/** The second half of rhu: from symbol weights to a lookup table. */
module ZstdHuffman {
  import opened Arith
  import opened Bits
  import opened Counting
  import opened ZstdCommon
  import opened ZstdKraft

  datatype HufTable = HufTable(mb: nat, nb: seq<byte>, syms: seq<byte>)

  // Weights

  function WeightTerm(w: nat): nat {
    if w == 0 then 0 else Pow2(w - 1)
  }

  ghost function WeightSum(ws: seq<nat>): nat {
    if |ws| == 0 then 0 else WeightSum(ws[..|ws| - 1]) + WeightTerm(ws[|ws| - 1])
  }

  lemma WeightSumSnoc(ws: seq<nat>, w: nat)
    ensures WeightSum(ws + [w]) == WeightSum(ws) + WeightTerm(w)
  {
    assert (ws + [w])[..|ws|] == ws;
  }

  lemma {:induction false} WeightTermBelow(ws: seq<nat>, i: nat)
    requires i < |ws|
    ensures WeightTerm(ws[i]) <= WeightSum(ws)
  {
    if i < |ws| - 1 {
      WeightTermBelow(ws[..|ws| - 1], i);
    }
  }

  /** The table's index width: one more than the position of the sum's top bit. */
  ghost function MaxBits(ws: seq<nat>): nat {
    if WeightSum(ws) == 0 then 0 else Log2(WeightSum(ws)) + 1
  }

  /** What the last, unwritten weight has to make up for. */
  ghost function Missing(ws: seq<nat>): (r: int)
    ensures r > 0
  {
    assert Pow2(0) == 1;
    Pow2(MaxBits(ws)) - WeightSum(ws)
  }

  ghost function Completed(ws: seq<nat>): seq<nat> {
    ws + [Log2(Missing(ws)) + 1]
  }

  function BitLength(mb: nat, w: nat): nat
    requires w <= mb + 1
  {
    if w == 0 then 0 else mb + 1 - w
  }

  ghost function Lengths(ws: seq<nat>, mb: nat): (r: seq<nat>)
    requires forall i :: 0 <= i < |ws| ==> ws[i] <= mb + 1
    ensures |r| == |ws|
    ensures forall i :: 0 <= i < |ws| ==> r[i] == BitLength(mb, ws[i])
  {
    seq(|ws|, i requires 0 <= i < |ws| => BitLength(mb, ws[i]))
  }

  /** One more symbol of length b takes the entries of one run. */
  lemma {:induction false} RankSnoc(lens: seq<nat>, b: nat, mb: nat, i: nat)
    requires i <= mb && b <= mb
    ensures RankStart(lens + [b], mb, i) == RankStart(lens, mb, i) + (if b > i then Pow2(mb - b) else 0)
    decreases mb - i
  {
    if i < mb {
      RankSnoc(lens, b, mb, i + 1);
      EntriesSnoc(lens, b, mb, i + 1);
      hide Entries, Pow2;
    }
  }

  lemma EntriesSnoc(lens: seq<nat>, b: nat, mb: nat, i: nat)
    requires i <= mb
    ensures Entries(lens + [b], mb, i) == Entries(lens, mb, i) + (if b == i then Pow2(mb - i) else 0)
  {
    hide Count, Pow2;
    CountSnoc(lens, b, i);
    MulAdd(Count(lens, i), 1, Pow2(mb - i));
  }

  lemma {:induction false} RankNone(mb: nat, i: nat)
    requires i <= mb
    ensures RankStart([], mb, i) == 0
    decreases mb - i
  {
    if i < mb {
      RankNone(mb, i + 1);
    }
  }

  /** Kraft's sum over the lengths is the sum over the weights. */
  lemma {:induction false} KraftIsWeightSum(ws: seq<nat>, mb: nat)
    requires forall i :: 0 <= i < |ws| ==> ws[i] <= mb
    ensures RankStart(Lengths(ws, mb), mb, 0) == WeightSum(ws)
  {
    if |ws| == 0 {
      RankNone(mb, 0);
      assert Lengths(ws, mb) == [];
    } else {
      var ws', w := ws[..|ws| - 1], ws[|ws| - 1];
      KraftIsWeightSum(ws', mb);
      RankSnoc(Lengths(ws', mb), BitLength(mb, w), mb, 0);
      assert Lengths(ws, mb) == Lengths(ws', mb) + [BitLength(mb, w)];
    }
  }

  // The test for a power of two

  ghost predicate IsPow2(x: int) {
    exists k: nat :: x == Pow2(k)
  }

  lemma {:induction false} AndSelf(x: nat)
    ensures Bitwise(And, x, x) == x
  {
    if x > 0 {
      AndSelf(x / 2);
    }
  }

  lemma OddPow2(x: nat)
    requires x % 2 == 1
    ensures IsPow2(x) <==> x == 1
  {
    assert Pow2(0) == 1;
    forall k: nat | x == Pow2(k)
      ensures k == 0
    {
    }
  }

  lemma EvenPow2(x: nat)
    requires x > 0 && x % 2 == 0
    ensures IsPow2(x) <==> IsPow2(x / 2)
  {
    forall k: nat | x == Pow2(k)
      ensures IsPow2(x / 2)
    {
      assert x / 2 == Pow2(k - 1);
    }
    forall k: nat | x / 2 == Pow2(k)
      ensures IsPow2(x)
    {
      assert x == Pow2(k + 1);
    }
  }

  /** x & (x - 1) is zero for the powers of two and for them only. */
  lemma {:induction false} Pow2Test(x: nat)
    requires x > 0
    ensures Bitwise(And, x, x - 1) == 0 <==> IsPow2(x)
  {
    hide IsPow2, Pow2;
    if x % 2 == 1 {
      OddPow2(x);
      assert (x - 1) / 2 == x / 2;
      AndSelf(x / 2);
    } else {
      EvenPow2(x);
      assert (x - 1) / 2 == x / 2 - 1;
      Pow2Test(x / 2);
    }
  }

  lemma Exponents(a: nat, b: nat)
    requires Pow2(a) <= Pow2(b)
    ensures a <= b
  {
    if b < a {
      Pow2Monotone(b, a);
    }
  }

  lemma MaxBitsBracket(ws: seq<nat>)
    requires WeightSum(ws) > 0
    ensures MaxBits(ws) >= 1
    ensures Pow2(MaxBits(ws) - 1) <= WeightSum(ws) < Pow2(MaxBits(ws)) == 2 * Pow2(MaxBits(ws) - 1)
  {
    hide Log2;
    Pow2Succ(Log2(WeightSum(ws)));
  }

  lemma WeightFits(ws: seq<nat>, i: nat)
    requires WeightSum(ws) > 0 && i < |ws|
    ensures ws[i] <= MaxBits(ws)
  {
    WeightTermBelow(ws, i);
    MaxBitsBracket(ws);
    if ws[i] > MaxBits(ws) {
      Pow2Monotone(MaxBits(ws), ws[i] - 1);
    }
  }

  lemma LastWeight(ws: seq<nat>, k: nat)
    requires WeightSum(ws) > 0 && Missing(ws) == Pow2(k)
    ensures Log2(Missing(ws)) == k < MaxBits(ws)
  {
    hide Pow2, MaxBits, WeightSum, Log2;
    MaxBitsBracket(ws);
    Pow2Succ(k);
    Pow2Bracket(Missing(ws), k, Log2(Missing(ws)));
    Exponents(k, MaxBits(ws) - 1);
  }

  /** When the missing part is a power of two, 2^k, the completed weights fit the
      table and fill it. */
  lemma CompletedFills(ws: seq<nat>, k: nat, full: seq<nat>)
    requires WeightSum(ws) > 0 && Missing(ws) == Pow2(k) && full == ws + [k + 1]
    ensures Completed(ws) == full
    ensures forall i :: 0 <= i < |full| ==> full[i] <= MaxBits(ws)
    ensures Complete(Lengths(full, MaxBits(ws)), MaxBits(ws))
  {
    hide Pow2, MaxBits, WeightSum, RankStart, Log2, Missing;
    LastWeight(ws, k);
    forall i | 0 <= i < |ws|
      ensures ws[i] <= MaxBits(ws)
    {
      WeightFits(ws, i);
    }
    WeightSumSnoc(ws, k + 1);
    MissingIs(ws);
    KraftIsWeightSum(full, MaxBits(ws));
  }

  lemma MissingIs(ws: seq<nat>)
    ensures WeightSum(ws) + Missing(ws) == Pow2(MaxBits(ws))
  {
  }

  // The table

  /** Symbol k owns its run of entries: they name it and its length. */
  ghost predicate Tiled(t: HufTable, lens: seq<nat>) {
    && |t.nb| == |t.syms| == Pow2(t.mb)
    && Complete(lens, t.mb)
    && forall k: nat, x: nat :: InRun(lens, t.mb, k, x) ==> x < |t.nb| && t.syms[x] == k && t.nb[x] == lens[k]
  }

  /** Every entry names an occurring symbol and that symbol's length. */
  lemma EntryNames(t: HufTable, lens: seq<nat>, x: nat)
    requires Tiled(t, lens) && x < |t.syms|
    ensures t.syms[x] as nat < |lens| && |t.nb| == |t.syms| == Pow2(t.mb)
    ensures lens[t.syms[x]] == t.nb[x] as nat > 0
  {
    hide Pow2, Start, RankStart;
    var k := RunsCover(lens, t.mb, x);
  }

  /** Longer codes come first, codes of one length in the order of their symbols. */
  lemma TableOrder(t: HufTable, lens: seq<nat>, x: nat, y: nat)
    requires Tiled(t, lens) && x < y < |t.syms|
    ensures |t.nb| == |t.syms|
    ensures t.nb[x] > t.nb[y] || (t.nb[x] == t.nb[y] && t.syms[x] <= t.syms[y])
  {
    hide Pow2, Start, RankStart;
    var k := RunsCover(lens, t.mb, x);
    var m := RunsCover(lens, t.mb, y);
    RunWithin(lens, t.mb, k);
    RunWithin(lens, t.mb, m);
    if lens[k] < lens[m] {
      RankStartMonotone(lens, t.mb, lens[k], lens[m] - 1);
    } else if lens[k] == lens[m] && m < k {
      SameLengthApart(lens, t.mb, m, k);
    }
  }

  /** A symbol of length b has 2^(mb - b) entries. */
  lemma SymbolEntries(t: HufTable, lens: seq<nat>, k: byte)
    requires Tiled(t, lens) && k as nat < |lens|
    ensures lens[k] <= t.mb
    ensures |Holding(t.syms, |t.syms|, k)| == if lens[k] == 0 then 0 else Pow2(t.mb - lens[k])
  {
    hide Pow2, Start, RankStart;
    var h := Holding(t.syms, |t.syms|, k);
    forall x | x in h
      ensures InRun(lens, t.mb, k, x)
    {
      var m := RunsCover(lens, t.mb, x);
      assert m == k as nat;
    }
    if lens[k] == 0 {
      assert h == {};
    } else {
      var s, e := Start(lens, t.mb, k), Start(lens, t.mb, k) + Pow2(t.mb - lens[k]);
      forall x | x in Interval(s, e)
        ensures x in h
      {
        assert InRun(lens, t.mb, k, x);
      }
      assert h == Interval(s, e);
    }
  }

  ghost function Interval(s: nat, e: nat): (r: set<nat>)
    requires s <= e
    ensures forall x: nat :: x in r <==> s <= x < e
    ensures |r| == e - s
  {
    if s == e then {} else Interval(s, e - 1) + {e - 1}
  }

  method Fill(a: array<byte>, v: byte, s: nat, e: nat)
    requires s <= e <= a.Length
    modifies a
    ensures forall x :: 0 <= x < a.Length ==> a[x] == if s <= x < e then v else old(a[x])
  {
    for x := s to e
      invariant forall y :: 0 <= y < a.Length ==> a[y] == if s <= y < x then v else old(a[y])
    {
      a[x] := v;
    }
  }

  /** The sum of the weights, unless one is over 11. */
  method SumWeights(hw: array<byte>, wc: nat) returns (ok: bool, wes: nat)
    requires wc <= hw.Length
    ensures ok <==> forall i :: 0 <= i < wc ==> hw[i] <= 11
    ensures ok ==> wes == WeightSum(hw[..wc])
  {
    hide WeightSum, WeightTerm;
    wes := 0;
    NoWeights();
    for i := 0 to wc
      invariant forall k :: 0 <= k < i ==> hw[k] <= 11
      invariant wes == WeightSum(hw[..i])
    {
      var wt := hw[i];
      if wt > 11 {
        return false, 0;
      }
      WeightSumSnoc(hw[..i], wt);
      assert hw[..i + 1] == hw[..i] + [wt];
      wes := wes + WeightTerm(wt);
    }
    return true, wes;
  }

  lemma NoWeights()
    ensures WeightSum([]) == 0
  {
  }

  /** Turns weights into lengths and counts the lengths. The counters are bytes. */
  method CountLengths(hw: array<byte>, wc: nat, mb: nat) returns (rc: array<byte>)
    requires wc <= hw.Length && mb <= 11
    requires forall i :: 0 <= i < wc ==> hw[i] <= mb + 1
    modifies hw
    ensures fresh(rc) && rc.Length == 12
    ensures hw[..wc] == Lengths(old(hw[..wc]), mb)
    ensures forall b: nat :: b < 12 ==> rc[b] == Count<nat>(hw[..wc], b) % 256
  {
    hide Count, Lengths;
    ghost var ws := hw[..wc];
    rc := new byte[12](_ => 0);
    ghost var lens: seq<nat> := [];
    CountNothing();
    for i := 0 to wc
      invariant forall k :: 0 <= k < wc ==> hw[k] == if k < i then BitLength(mb, ws[k]) else ws[k]
      invariant |lens| == i && forall k :: 0 <= k < i ==> lens[k] == hw[k]
      invariant forall b: nat :: b < 12 ==> rc[b] == Count(lens, b) % 256
    {
      var wt := hw[i];
      var bits := BitLength(mb, wt);
      hw[i] := bits;
      CountAndWrap(lens, bits);
      lens := lens + [bits];
      rc[bits] := (rc[bits] as int + 1) % 256;
    }
    assert hw[..wc] == lens;
    assert lens == Lengths(ws, mb);
  }

  lemma CountNothing()
    ensures forall b: nat {:trigger Count([], b)} :: Count([], b) == 0
  {
  }

  lemma CountAndWrap(s: seq<nat>, x: nat)
    ensures forall b: nat {:trigger Count(s + [x], b)} ::
              Count(s + [x], b) % 256 == if b == x then (Count(s, b) % 256 + 1) % 256 else Count(s, b) % 256
  {
    var s' := s + [x];
    forall b: nat
      ensures Count(s', b) % 256 == if b == x then (Count(s, b) % 256 + 1) % 256 else Count(s, b) % 256
    {
      CountSnoc(s, x, b);
    }
  }

  /** RankStart for given counts of the lengths. */
  ghost function RankOf(cs: seq<nat>, mb: nat, i: nat): nat
    requires i <= mb < |cs|
    decreases mb - i
  {
    if i == mb then 0
    else
      MulLe(0, cs[i + 1], Pow2(mb - (i + 1)));
      RankOf(cs, mb, i + 1) + cs[i + 1] * Pow2(mb - (i + 1))
  }

  lemma {:induction false} RankOfCounts(cs: seq<nat>, lens: seq<nat>, mb: nat, i: nat)
    requires i <= mb < |cs| && forall b: nat :: i < b <= mb ==> cs[b] == Count(lens, b)
    ensures RankOf(cs, mb, i) == RankStart(lens, mb, i)
    decreases mb - i
  {
    if i < mb {
      RankOfCounts(cs, lens, mb, i + 1);
      EntriesAre(lens, mb, i + 1, cs[i + 1]);
      hide Entries, Pow2;
    }
  }

  lemma EntriesAre(lens: seq<nat>, mb: nat, b: nat, c: nat)
    requires b <= mb && c == Count(lens, b)
    ensures Entries(lens, mb, b) == c * Pow2(mb - b)
  {
  }

  lemma {:induction false} RankOfZeros(cs: seq<nat>, mb: nat, i: nat)
    requires i <= mb < |cs| && forall b :: i < b <= mb ==> cs[b] == 0
    ensures RankOf(cs, mb, i) == 0
    decreases mb - i
  {
    if i < mb {
      RankOfZeros(cs, mb, i + 1);
    }
  }

  lemma {:induction false} RankOfMonotone(cs: seq<nat>, mb: nat, i: nat, j: nat)
    requires i <= j <= mb < |cs|
    ensures RankOf(cs, mb, j) <= RankOf(cs, mb, i)
    decreases j - i
  {
    if i < j {
      RankOfMonotone(cs, mb, i + 1, j);
    }
  }

  lemma RankOfNext(cs: seq<nat>, mb: nat, i: nat)
    requires 0 < i <= mb < |cs|
    ensures cs[i] * Pow2(mb - i) >= 0
    ensures RankOf(cs, mb, i - 1) == RankOf(cs, mb, i) + cs[i] * Pow2(mb - i)
    ensures RankOf(cs, mb, mb) == 0
  {
    RankOfMonotone(cs, mb, i - 1, i);
    var j := i - 1;
    assert RankOf(cs, mb, j) == RankOf(cs, mb, j + 1) + cs[j + 1] * Pow2(mb - (j + 1));
  }

  /** Entry x lies in the part of the table that belongs to length b. */
  ghost predicate InRank(cs: seq<nat>, mb: nat, b: nat, x: nat)
    requires mb < |cs|
  {
    0 < b <= mb && RankOf(cs, mb, b) <= x < RankOf(cs, mb, b - 1)
  }

  /** Lays out the lengths, longest first, and records them in nb. */
  method RankStarts(rc: array<byte>, mb: nat, nb: array<byte>, ghost cs: seq<nat>) returns (ri: array<nat>)
    requires rc.Length == 12 && mb <= 11 && nb.Length == Pow2(mb) && rc != nb
    requires |cs| == 12 && forall b :: 0 <= b < 12 ==> rc[b] == cs[b]
    requires RankOf(cs, mb, 0) <= Pow2(mb)
    modifies nb
    ensures fresh(ri) && ri.Length == 12
    ensures forall b :: 0 <= b <= mb ==> ri[b] == RankOf(cs, mb, b)
    ensures forall b: nat, x: nat :: InRank(cs, mb, b, x) ==> x < nb.Length && nb[x] == b
  {
    hide RankOf, Pow2, InRank;
    ri := new nat[12](_ => 0);
    ri[mb] := 0;
    RankOfZero(cs, mb);
    var i := mb;
    while i > 0
      invariant 0 <= i <= mb
      invariant forall b :: i <= b <= mb ==> ri[b] == RankOf(cs, mb, b)
      invariant forall b :: 0 <= b < 12 ==> rc[b] == cs[b]
      invariant forall b: nat, x: nat :: i < b && InRank(cs, mb, b, x) ==> x < nb.Length && nb[x] == b
    {
      var pv := ri[i];
      RankOfNext(cs, mb, i);
      RankOfMonotone(cs, mb, 0, i - 1);
      ghost var before := nb[..];
      ri[i - 1] := pv + rc[i] * Pow2(mb - i);
      Fill(nb, i, pv, ri[i - 1]);
      RankFilled(cs, mb, i, before, nb[..]);
      i := i - 1;
    }
    forall b: nat, x: nat | InRank(cs, mb, b, x)
      ensures x < nb.Length && nb[x] == b
    {
      InRankPositive(cs, mb, b, x);
    }
  }

  lemma InRankPositive(cs: seq<nat>, mb: nat, b: nat, x: nat)
    requires mb < |cs| && InRank(cs, mb, b, x)
    ensures 0 < b
  {
  }

  lemma RankOfZero(cs: seq<nat>, mb: nat)
    requires mb < |cs|
    ensures RankOf(cs, mb, mb) == 0
    ensures forall b: nat, x: nat :: InRank(cs, mb, b, x) ==> b <= mb
  {
  }

  /** Filling in length i leaves the longer lengths' entries alone. */
  lemma RankFilled(cs: seq<nat>, mb: nat, i: nat, before: seq<byte>, now: seq<byte>)
    requires 0 < i <= mb < |cs| && |before| == |now| && i < 256
    requires RankOf(cs, mb, i - 1) <= |now|
    requires forall x :: 0 <= x < |now| ==>
               now[x] == if RankOf(cs, mb, i) <= x < RankOf(cs, mb, i - 1) then i else before[x]
    requires forall b: nat, x: nat :: i < b && InRank(cs, mb, b, x) ==> x < |before| && before[x] == b
    ensures forall b: nat, x: nat :: i - 1 < b && InRank(cs, mb, b, x) ==> x < |now| && now[x] == b
  {
    hide RankOf;
    forall b: nat, x: nat | i - 1 < b && InRank(cs, mb, b, x)
      ensures x < |now| && now[x] == b
    {
      if b > i {
        RankOfMonotone(cs, mb, i, b - 1);
      }
    }
  }

  /** Gives each symbol its run of entries; ri moves on through each length. */
  method FillSymbols(hw: array<byte>, wc: nat, mb: nat, ri: array<nat>, syms: array<byte>)
    requires wc <= hw.Length && wc <= 256 && mb <= 11 && ri.Length == 12 && syms.Length == Pow2(mb)
    requires hw != syms
    requires Complete(hw[..wc], mb)
    requires forall b: nat :: 0 < b <= mb ==> ri[b] == RankStart(hw[..wc], mb, b)
    modifies ri, syms
    ensures forall k: nat, x: nat :: InRun(old(hw[..wc]), mb, k, x) ==> x < syms.Length && syms[x] == k
  {
    hide Count, RankStart, Pow2, InRun, Start;
    ghost var lens: seq<nat> := hw[..wc];
    CountNone(lens);
    for i := 0 to wc
      invariant hw[..wc] == lens
      invariant forall b: nat :: 0 < b <= mb ==> ri[b] == RankStart(lens, mb, b) + Count(lens[..i], b) * Pow2(mb - b)
      invariant forall k: nat, x: nat :: k < i && InRun(lens, mb, k, x) ==> x < syms.Length && syms[x] == k
    {
      var bits := hw[i];
      assert bits == lens[i];
      ghost var before, ri0, s, e := syms[..], ri[..], 0, 0;
      if bits > 0 {
        var code := ri[bits];
        StartIs(lens, mb, i, bits);
        RunWithin(lens, mb, i);
        ri[bits] := code + Pow2(mb - bits);
        s, e := code, code + Pow2(mb - bits);
        Fill(syms, i, code, ri[bits]);
      }
      RunFilled(lens, mb, i, before, syms[..], s, e);
      NextStarts(lens, mb, i, ri0, ri[..]);
    }
    forall k: nat, x: nat | InRun(lens, mb, k, x)
      ensures x < syms.Length && syms[x] == k
    {
      InRunBound(lens, mb, k, x);
    }
  }

  lemma CountNone(lens: seq<nat>)
    ensures forall b: nat :: Count(lens[..0], b) == 0
  {
  }

  lemma InRunBound(lens: seq<nat>, mb: nat, k: nat, x: nat)
    requires forall j :: 0 <= j < |lens| ==> lens[j] <= mb
    requires InRun(lens, mb, k, x)
    ensures k < |lens|
  {
  }

  lemma StartIs(lens: seq<nat>, mb: nat, k: nat, b: nat)
    requires k < |lens| && lens[k] == b <= mb
    ensures Start(lens, mb, k) == RankStart(lens, mb, b) + Count(lens[..k], b) * Pow2(mb - b)
  {
  }

  lemma RunFilled(lens: seq<nat>, mb: nat, i: nat, before: seq<byte>, now: seq<byte>, s: nat, e: nat)
    requires i < |lens| && i < 256 && |before| == |now| == Pow2(mb)
    requires Complete(lens, mb)
    requires if lens[i] > 0 then s == Start(lens, mb, i) && e == s + Pow2(mb - lens[i]) else s == e
    requires forall x :: 0 <= x < |now| ==> now[x] == if s <= x < e then i else before[x]
    requires forall k: nat, x: nat :: k < i && InRun(lens, mb, k, x) ==> x < |before| && before[x] == k
    ensures forall k: nat, x: nat :: k < i + 1 && InRun(lens, mb, k, x) ==> x < |now| && now[x] == k
  {
    hide RankStart, Start, Count, Pow2;
    forall k: nat, x: nat | k < i + 1 && InRun(lens, mb, k, x)
      ensures x < |now| && now[x] == k
    {
      if k < i && InRun(lens, mb, i, x) {
        RunsDisjoint(lens, mb, k, i, x);
      }
      RunWithin(lens, mb, k);
    }
  }

  lemma NextStarts(lens: seq<nat>, mb: nat, i: nat, ri: seq<nat>, ri': seq<nat>)
    requires i < |lens| && mb < |ri| == |ri'| && lens[i] <= mb
    requires forall b: nat :: 0 < b <= mb ==> ri[b] == RankStart(lens, mb, b) + Count(lens[..i], b) * Pow2(mb - b)
    requires ri' == if lens[i] > 0 then ri[lens[i] := ri[lens[i]] + Pow2(mb - lens[i])] else ri
    ensures forall b: nat :: 0 < b <= mb ==> ri'[b] == RankStart(lens, mb, b) + Count(lens[..i + 1], b) * Pow2(mb - b)
  {
    hide RankStart, Count, Pow2;
    forall b: nat | 0 < b <= mb
      ensures ri'[b] == RankStart(lens, mb, b) + Count(lens[..i + 1], b) * Pow2(mb - b)
    {
      CountNext(lens, i, b);
      MulAdd(Count(lens[..i], b), 1, Pow2(mb - b));
    }
  }

  // The byte counters

  /** 256 symbols of one weight. */
  ghost predicate Uniform256(ws: seq<nat>) {
    |ws| == 255 && ws[0] != 0 && forall i :: 0 <= i < 255 ==> ws[i] == ws[0]
  }

  lemma {:induction false} UniformSum(ws: seq<nat>, w: nat)
    requires forall i :: 0 <= i < |ws| ==> ws[i] == w
    ensures WeightSum(ws) == |ws| * WeightTerm(w)
  {
    if |ws| > 0 {
      UniformSum(ws[..|ws| - 1], w);
      MulAdd(|ws| - 1, 1, WeightTerm(w));
    }
  }

  lemma {:induction false} CountFull(s: seq<nat>, b: nat)
    requires Count(s, b) == |s|
    ensures forall i :: 0 <= i < |s| ==> s[i] == b
  {
    if |s| > 0 {
      CountFull(s[..|s| - 1], b);
    }
  }

  /** 255 equal weights complete to 256 symbols of length 8. */
  lemma UniformLengths(ws: seq<nat>, k: nat, lens: seq<nat>)
    requires Uniform256(ws) && WeightSum(ws) > 0 && Missing(ws) == Pow2(k)
    requires (forall i :: 0 <= i < 255 ==> ws[i] <= MaxBits(ws)) && k < MaxBits(ws)
    requires lens == Lengths(ws + [k + 1], MaxBits(ws))
    ensures Count(lens, 8) == 256 && MaxBits(ws) >= 8
  {
    hide Pow2, MaxBits, WeightSum, Lengths, Count;
    var p := Pow2(ws[0] - 1);
    UniformSum(ws, ws[0]);
    MaxBitsBracket(ws);
    MissingIs(ws);
    PowersUpTo8(ws[0] - 1);
    Pow2Bracket(WeightSum(ws), MaxBits(ws) - 1, ws[0] + 6);
    Pow2Succ(MaxBits(ws) - 1);
    Pow2Succ(k);
    Pow2Succ(ws[0] - 1);
    Pow2Bracket(p, k, ws[0] - 1);
    CountAll(lens, 8);
  }

  /** Such weights do form a complete code: refusing them is the byte counter's
      doing, not the format's. */
  lemma UniformIsComplete(ws: seq<nat>)
    requires Uniform256(ws)
    ensures WeightSum(ws) > 0 && IsPow2(Missing(ws)) && MaxBits(ws) == ws[0] + 7
    ensures (forall i :: 0 <= i < 256 ==> Completed(ws)[i] == ws[0])
    ensures Complete(Lengths(Completed(ws), MaxBits(ws)), MaxBits(ws))
  {
    hide Pow2, MaxBits, WeightSum, Lengths, Missing, Complete, Completed, Log2;
    UniformSum(ws, ws[0]);
    MaxBitsBracket(ws);
    MissingIs(ws);
    PowersUpTo8(ws[0] - 1);
    Pow2Bracket(WeightSum(ws), MaxBits(ws) - 1, ws[0] + 6);
    CompletedFills(ws, ws[0] - 1, ws + [ws[0] - 1 + 1]);
  }

  lemma PowersUpTo8(n: nat)
    ensures Pow2(n + 7) == 128 * Pow2(n) && Pow2(n + 8) == 256 * Pow2(n)
  {
    Pow2Succ(n);
    Pow2Succ(n + 1);
    Pow2Succ(n + 2);
    Pow2Succ(n + 3);
    Pow2Succ(n + 4);
    Pow2Succ(n + 5);
    Pow2Succ(n + 6);
    Pow2Succ(n + 7);
  }

  /** A counter wraps exactly for 256 symbols of one weight. */
  lemma WrapIffUniform(ws: seq<nat>, k: nat, lens: seq<nat>)
    requires WeightSum(ws) > 0 && Missing(ws) == Pow2(k) && |ws| <= 255
    requires (forall i :: 0 <= i < |ws| ==> ws[i] <= MaxBits(ws)) && k < MaxBits(ws)
    requires lens == Lengths(ws + [k + 1], MaxBits(ws))
    ensures Uniform256(ws) <==> exists b: nat :: 0 < b <= MaxBits(ws) && Count(lens, b) == 256
  {
    hide Pow2, MaxBits, WeightSum, Count;
    if Uniform256(ws) {
      UniformLengths(ws, k, lens);
    }
    if b: nat :| 0 < b <= MaxBits(ws) && Count(lens, b) == 256 {
      CountFull(lens, b);
      assert lens[0] == b;
      forall i | 0 <= i < 255
        ensures ws[i] == ws[0]
      {
        assert lens[i] == BitLength(MaxBits(ws), ws[i]);
      }
    }
  }

  /** The counters give the true layout, unless one wraps; then they give nothing. */
  lemma CountersLayout(cs: seq<nat>, lens: seq<nat>, mb: nat)
    requires mb < |cs| == 12 && |lens| <= 256
    requires forall b: nat :: b < 12 ==> cs[b] == Count(lens, b) % 256
    ensures if exists b: nat :: 0 < b <= mb && Count(lens, b) == 256 then RankOf(cs, mb, 0) == 0
            else forall i :: 0 <= i <= mb ==> RankOf(cs, mb, i) == RankStart(lens, mb, i)
  {
    hide Count;
    if b: nat :| 0 < b <= mb && Count(lens, b) == 256 {
      CountFull(lens, b);
      forall c: nat | 0 < c <= mb
        ensures cs[c] == 0
      {
        CountZero(lens, c);
      }
      RankOfZeros(cs, mb, 0);
    } else {
      forall i | 0 <= i <= mb
        ensures RankOf(cs, mb, i) == RankStart(lens, mb, i)
      {
        RankOfCounts(cs, lens, mb, i);
      }
    }
  }

  /** The inputs that are refused: a weight over 11, no weight at all, a missing
      part that is no power of two, and 256 symbols of one weight, for which the
      byte counter wraps although the code is complete. */
  ghost predicate Rejected(ws: seq<nat>) {
    || (exists i :: 0 <= i < |ws| && ws[i] > 11)
    || WeightSum(ws) == 0
    || !IsPow2(Missing(ws))
    || Uniform256(ws)
  }

  /** What is accepted, said of the code: weights of at most 11 that some last weight
      completes, unless all of 256 lengths are the same. */
  lemma AcceptedIff(ws: seq<nat>)
    requires |ws| <= 255
    ensures !Rejected(ws) <==>
            && (forall i :: 0 <= i < |ws| ==> ws[i] <= 11)
            && exists w: nat ::
                 && 1 <= w <= MaxBits(ws)
                 && (forall i :: 0 <= i < |ws| ==> ws[i] <= MaxBits(ws))
                 && Complete(Lengths(ws + [w], MaxBits(ws)), MaxBits(ws))
                 && (|ws| == 255 ==>
                       exists i :: 0 <= i < 256
                                   && Lengths(ws + [w], MaxBits(ws))[i] != Lengths(ws + [w], MaxBits(ws))[0])
  {
    hide Pow2, WeightSum, MaxBits, Missing, Complete, Uniform256, Lengths, IsPow2;
    if !Rejected(ws) {
      var k := ExponentOf(Missing(ws));
      AcceptedCompletes(ws, k, k + 1);
    }
    if forall i :: 0 <= i < |ws| ==> ws[i] <= 11 {
      forall w: nat |
        && 1 <= w <= MaxBits(ws)
        && (forall i :: 0 <= i < |ws| ==> ws[i] <= MaxBits(ws))
        && Complete(Lengths(ws + [w], MaxBits(ws)), MaxBits(ws))
        && (|ws| == 255 ==>
              exists i :: 0 <= i < 256
                          && Lengths(ws + [w], MaxBits(ws))[i] != Lengths(ws + [w], MaxBits(ws))[0])
        ensures !Rejected(ws)
      {
        CompleteIsAccepted(ws, w);
      }
    }
  }

  lemma ExponentOf(x: int) returns (k: nat)
    requires IsPow2(x)
    ensures x == Pow2(k)
  {
    k :| x == Pow2(k);
  }

  lemma AcceptedCompletes(ws: seq<nat>, k: nat, w: nat)
    requires |ws| <= 255 && WeightSum(ws) > 0 && Missing(ws) == Pow2(k) && !Uniform256(ws)
    requires w == k + 1
    ensures 1 <= w <= MaxBits(ws)
    ensures forall i :: 0 <= i < |ws| ==> ws[i] <= MaxBits(ws)
    ensures Complete(Lengths(ws + [w], MaxBits(ws)), MaxBits(ws))
    ensures |ws| == 255 ==>
              exists i :: 0 <= i < 256
                          && Lengths(ws + [w], MaxBits(ws))[i] != Lengths(ws + [w], MaxBits(ws))[0]
  {
    hide Pow2, WeightSum, MaxBits, Missing, Complete, Uniform256, Count;
    LastWeight(ws, k);
    CompletedFills(ws, k, ws + [w]);
    var full, mb := ws + [w], MaxBits(ws);
    forall i | 0 <= i < |ws|
      ensures ws[i] <= mb
    {
      assert ws[i] == full[i];
    }
    var lens := Lengths(full, mb);
    if |ws| == 255 && forall i :: 0 <= i < 256 ==> lens[i] == lens[0] {
      CountAll(lens, lens[0]);
      assert lens[255] == BitLength(mb, w);
      WrapIffUniform(ws, k, lens);
      assert false;
    }
  }

  lemma CompleteIsAccepted(ws: seq<nat>, w: nat)
    requires |ws| <= 255 && 1 <= w <= MaxBits(ws)
    requires (forall i :: 0 <= i < |ws| ==> ws[i] <= 11) && forall i :: 0 <= i < |ws| ==> ws[i] <= MaxBits(ws)
    requires Complete(Lengths(ws + [w], MaxBits(ws)), MaxBits(ws))
    requires |ws| == 255 ==>
               exists i :: 0 <= i < 256
                           && Lengths(ws + [w], MaxBits(ws))[i] != Lengths(ws + [w], MaxBits(ws))[0]
    ensures !Rejected(ws)
  {
    hide Pow2, WeightSum, Missing, Uniform256, Count, RankStart;
    KraftIsWeightSum(ws + [w], MaxBits(ws));
    WeightSumSnoc(ws, w);
    MissingIs(ws);
    assert Missing(ws) == Pow2(w - 1);
    if Uniform256(ws) {
      UniformIs255(ws);
      UniformLengths(ws, w - 1, Lengths(ws + [w], MaxBits(ws)));
      CountFull(Lengths(ws + [w], MaxBits(ws)), 8);
      assert false;
    }
  }

  lemma UniformIs255(ws: seq<nat>)
    requires Uniform256(ws)
    ensures |ws| == 255
  {
  }

  ghost function CodeLengths(ws: seq<nat>): seq<nat>
    requires !Rejected(ws)
  {
    var k: nat :| Missing(ws) == Pow2(k);
    CompletedFills(ws, k, ws + [k + 1]);
    Lengths(Completed(ws), MaxBits(ws))
  }

  /** The weights with the last one filled in, in case they are completable. */
  ghost predicate Completion(ws: seq<nat>, k: nat, full: seq<nat>, mb: nat) {
    && full == ws + [k + 1] && mb == MaxBits(ws) && Missing(ws) == Pow2(k)
    && (forall i :: 0 <= i < |full| ==> full[i] <= mb + 1)
    && (WeightSum(ws) > 0 ==> (forall i :: 0 <= i < |full| ==> full[i] <= mb) && Complete(Lengths(full, mb), mb))
  }

  lemma MakeCompletion(ws: seq<nat>, k: nat, full: seq<nat>)
    requires full == ws + [k + 1] && Missing(ws) == Pow2(k)
    ensures Completion(ws, k, full, MaxBits(ws))
  {
    if WeightSum(ws) > 0 {
      CompletedFills(ws, k, full);
    } else {
      Pow2Bracket(1, 0, k);
      forall i | 0 <= i < |ws|
        ensures ws[i] == 0
      {
        WeightTermBelow(ws, i);
      }
    }
  }

  /** From the weights of all symbols but the last to the lookup table. */
  method BuildTable(hw: array<byte>, wc0: nat) returns (r: Result<HufTable>)
    requires hw.Length == 256 && wc0 <= 255
    requires (forall i :: 0 <= i < wc0 ==> hw[i] <= 11) ==> WeightSum(hw[..wc0]) < Pow2(11)
    modifies hw
    ensures r == Err(0) <==> Rejected(old(hw[..wc0]))
    ensures r.Ok? || r == Err(0)
    ensures var ws: seq<nat> := old(hw[..wc0]);
            r.Ok? <==>
            && (forall i :: 0 <= i < |ws| ==> ws[i] <= 11)
            && exists w: nat ::
                 && 1 <= w <= MaxBits(ws)
                 && (forall i :: 0 <= i < |ws| ==> ws[i] <= MaxBits(ws))
                 && Complete(Lengths(ws + [w], MaxBits(ws)), MaxBits(ws))
                 && (|ws| == 255 ==>
                       exists i :: 0 <= i < 256
                                   && Lengths(ws + [w], MaxBits(ws))[i] != Lengths(ws + [w], MaxBits(ws))[0])
    ensures !Rejected(old(hw[..wc0])) ==>
              r.Ok? && r.value.mb == MaxBits(old(hw[..wc0])) && Tiled(r.value, CodeLengths(old(hw[..wc0])))
  {
    hide Pow2, WeightSum, MaxBits, Missing, Tiled, Complete, Completion, IsPow2, Uniform256, Completed, Lengths;
    ghost var ws: seq<nat> := hw[..wc0];
    AcceptedIff(ws);
    var ok, wes := SumWeights(hw, wc0);
    if !ok {
      return Err(0);
    }
    Pow2Monotone(11, 29);
    Pow2Succ(29);
    var top := Msb(wes);
    var mb := top + 1;
    MaxBitsOf(ws, mb);
    var ts := Pow2(mb);
    MissingIs(ws);
    var rem: nat := ts - wes;
    Pow2Monotone(mb, 11);
    Pow2Test(rem);
    if Bitwise(And, rem, rem - 1) != 0 {
      return Err(0);
    }
    var last := Msb(rem);
    PowerIs(rem, last);
    Exponents(last, 11);
    hw[wc0] := last + 1;
    assert hw[..wc0 + 1] == ws + [last + 1];
    MakeCompletion(ws, last, hw[..wc0 + 1]);
    r := LayOut(hw, wc0 + 1, mb, ws, last);
    LengthsAre(ws, last, mb);
  }

  lemma PowerIs(x: nat, k: nat)
    requires IsPow2(x) && Pow2(k) <= x < Pow2(k + 1)
    ensures x == Pow2(k)
  {
    var j: nat :| x == Pow2(j);
    Pow2Succ(j);
    Pow2Bracket(x, j, k);
  }

  lemma LengthsAre(ws: seq<nat>, k: nat, mb: nat)
    requires Completion(ws, k, ws + [k + 1], mb)
    ensures !Rejected(ws) ==> CodeLengths(ws) == Lengths(ws + [k + 1], mb)
  {
    if !Rejected(ws) {
      CompletedFills(ws, k, ws + [k + 1]);
    }
  }

  /** Counts the lengths, lays the table out and fills it in. */
  method LayOut(hw: array<byte>, wc: nat, mb: nat, ghost ws: seq<nat>, ghost k: nat) returns (r: Result<HufTable>)
    requires hw.Length == 256 && wc <= 256 && mb <= 11 && wc == |ws| + 1
    requires Completion(ws, k, hw[..wc], mb)
    modifies hw
    ensures r == Err(0) <==> WeightSum(ws) == 0 || Uniform256(ws)
    ensures WeightSum(ws) > 0 && !Uniform256(ws) ==>
              r.Ok? && r.value.mb == mb && |ws + [k + 1]| == wc && Completion(ws, k, ws + [k + 1], mb)
              && Tiled(r.value, Lengths(ws + [k + 1], mb))
  {
    hide Pow2, WeightSum, MaxBits, Missing, Tiled, Uniform256, Complete, RankStart, RankOf, Lengths, InRank, InRun;
    ghost var full: seq<nat> := hw[..wc];
    var rc := CountLengths(hw, wc, mb);
    var ts := Pow2(mb);
    var nb := new byte[ts](_ => 0);
    var syms := new byte[ts](_ => 0);
    ghost var lens: seq<nat> := hw[..wc];
    ghost var cs: seq<nat> := rc[..];
    LayoutTotal(ws, k, full, mb, lens, cs);
    var ri := RankStarts(rc, mb, nb, cs);
    if ri[0] != ts {
      return Err(0);
    }
    FillSymbols(hw, wc, mb, ri, syms);
    r := Ok(HufTable(mb, nb[..], syms[..]));
    TiledBy(r.value, lens, cs);
  }

  /** Either the counters lay out the whole table or nothing at all. */
  lemma LayoutTotal(ws: seq<nat>, k: nat, full: seq<nat>, mb: nat, lens: seq<nat>, cs: seq<nat>)
    requires |ws| <= 255 && mb < |cs| == 12
    requires Completion(ws, k, full, mb) && lens == Lengths(full, mb)
    requires forall b: nat :: b < 12 ==> cs[b] == Count(lens, b) % 256
    ensures RankOf(cs, mb, 0) <= Pow2(mb)
    ensures RankOf(cs, mb, 0) == Pow2(mb) <==> WeightSum(ws) > 0 && !Uniform256(ws)
    ensures RankOf(cs, mb, 0) == Pow2(mb) ==>
              Complete(lens, mb) && forall i :: 0 <= i <= mb ==> RankOf(cs, mb, i) == RankStart(lens, mb, i)
  {
    hide Pow2, WeightSum, Missing, Uniform256, RankStart, RankOf, Lengths, Count;
    if WeightSum(ws) == 0 {
      RankOfZero(cs, mb);
    } else {
      LastWeight(ws, k);
      forall i | 0 <= i < |ws|
        ensures ws[i] <= mb
      {
        assert full[i] <= mb;
      }
      CountersLayout(cs, lens, mb);
      WrapIffUniform(ws, k, lens);
    }
  }

  lemma TiledBy(t: HufTable, lens: seq<nat>, cs: seq<nat>)
    requires |t.nb| == |t.syms| == Pow2(t.mb) && t.mb < |cs| && Complete(lens, t.mb)
    requires forall i :: 0 <= i <= t.mb ==> RankOf(cs, t.mb, i) == RankStart(lens, t.mb, i)
    requires forall b: nat, x: nat :: InRank(cs, t.mb, b, x) ==> x < |t.nb| && t.nb[x] == b
    requires forall k: nat, x: nat :: InRun(lens, t.mb, k, x) ==> x < |t.syms| && t.syms[x] == k
    ensures Tiled(t, lens)
  {
    hide Pow2, RankOf, RankStart, Start, Count;
    forall k: nat, x: nat | InRun(lens, t.mb, k, x)
      ensures x < |t.nb| && t.nb[x] == lens[k]
    {
      RunWithin(lens, t.mb, k);
      assert InRank(cs, t.mb, lens[k], x);
    }
  }

  lemma MaxBitsOf(ws: seq<nat>, mb: int)
    requires if WeightSum(ws) == 0 then mb == 0 else mb >= 1 && Pow2(mb - 1) <= WeightSum(ws) < Pow2(mb)
    requires WeightSum(ws) < Pow2(11)
    ensures mb == MaxBits(ws) <= 11
  {
    hide Pow2, Log2, WeightSum;
    if WeightSum(ws) > 0 {
      MaxBitsBracket(ws);
      Pow2Bracket(WeightSum(ws), mb - 1, MaxBits(ws) - 1);
      Exponents(mb - 1, 11);
    }
  }

  // Decoding with the table

  /** n symbols off the front of the bits, and the bits left. */
  ghost function Decode(t: HufTable, lens: seq<nat>, bits: BitString, n: nat): (seq<nat>, BitString)
    requires Tiled(t, lens)
    decreases n
  {
    var x := Peek(bits, t.mb);
    if n == 0 || x >= |t.syms| || t.nb[x] > bits.length then ([], bits)
    else
      var b := t.nb[x];
      DivMod(bits.value, Pow2(bits.length - b));
      var (msg, rest) := Decode(t, lens, BitString(bits.value % Pow2(bits.length - b), bits.length - b), n - 1);
      ([t.syms[x] as nat] + msg, rest)
  }

  /** Looking up and skipping as many bits as the table says gives back every
      message, and consumes exactly its bits. */
  lemma {:induction false} DecodeEncode(t: HufTable, lens: seq<nat>, msg: seq<nat>)
    requires Tiled(t, lens) && Occurs(lens, msg)
    ensures Decode(t, lens, Encode(lens, t.mb, msg), |msg|) == (msg, BitString(0, 0))
  {
    hide Encode, Peek, InRun, Pow2, Complete;
    if |msg| > 0 {
      DecodeEncode(t, lens, msg[1..]);
      EncodedHead(lens, t.mb, msg);
      assert msg == [msg[0]] + msg[1..];
    } else {
      EncodeNothing(lens, t.mb, msg);
    }
  }

  lemma EncodeNothing(lens: seq<nat>, mb: nat, msg: seq<nat>)
    requires Complete(lens, mb) && Occurs(lens, msg) && msg == []
    ensures Encode(lens, mb, msg) == BitString(0, 0)
  {
  }
}
