/** rfse as a whole: the state table, and what makes it a code. */
module ZstdFse {
  import opened Arith
  import opened Counting
  import opened ZstdCommon
  import opened ZstdDistribution
  import opened ZstdSpread
  import opened ZstdWalk

  datatype FseTable = FseTable(al: nat, syms: seq<byte>, nbits: seq<nat>, nstate: seq<nat>)

  /** Slots of a symbol are numbered on from the symbol's count. */
  ghost function StateNumber(syms: seq<byte>, i: nat): nat
    requires i < |syms|
  {
    Count(syms, syms[i]) + Count(syms[..i], syms[i])
  }

  /** Slot i reads just the bits its state number is short of a full table, and
      its baseline is that number moved up by as many. */
  ghost predicate Entry(al: nat, syms: seq<byte>, i: nat, nbits: nat, nstate: int)
    requires i < |syms|
  {
    && nbits <= al
    && Pow2(al - nbits) <= StateNumber(syms, i) < Pow2(al - nbits + 1)
    && nstate == StateNumber(syms, i) * Pow2(nbits) - Pow2(al)
  }

  ghost predicate WellFormed(t: FseTable) {
    && |t.syms| == |t.nbits| == |t.nstate| == Pow2(t.al)
    && forall i :: 0 <= i < |t.syms| ==> Entry(t.al, t.syms, i, t.nbits[i], t.nstate[i])
  }

  lemma StateNumberRange(syms: seq<byte>, i: nat)
    requires i < |syms|
    ensures 1 <= Count(syms, syms[i]) <= StateNumber(syms, i) < 2 * Count(syms, syms[i])
    ensures StateNumber(syms, i) < 2 * |syms|
  {
    hide Count;
    CountMonotone(syms, i, |syms|, syms[i]);
    assert syms[..|syms|] == syms;
  }

  /** The states a slot leads to lie within the table. */
  lemma EntryRange(al: nat, syms: seq<byte>, i: nat, nbits: nat, nstate: int)
    requires i < |syms| && Entry(al, syms, i, nbits, nstate)
    ensures 0 <= nstate && nstate + Pow2(nbits) <= Pow2(al)
  {
    hide StateNumber, Pow2;
    var ns := StateNumber(syms, i);
    Pow2Add(al - nbits, nbits);
    Pow2Succ(al - nbits);
    RangeArith(ns, Pow2(al - nbits), Pow2(nbits), Pow2(al));
  }

  lemma RangeArith(ns: int, q: int, p: int, size: int)
    requires q <= ns < 2 * q && p > 0 && size == q * p
    ensures 0 <= ns * p - size && ns * p - size + p <= size
  {
    MulLe(q, ns, p);
    MulLe(ns + 1, 2 * q, p);
    MulAdd(ns, 1, p);
    MulAssoc(2, q, p);
  }

  lemma MakeEntry(al: nat, syms: seq<byte>, i: nat, ns: nat, msb: nat)
    requires i < |syms| == Pow2(al) && ns == StateNumber(syms, i)
    requires Pow2(msb) <= ns < Pow2(msb + 1)
    ensures msb <= al && ns * Pow2(al - msb) - Pow2(al) >= 0
    ensures Entry(al, syms, i, al - msb, ns * Pow2(al - msb) - Pow2(al))
  {
    hide StateNumber, Pow2;
    StateNumberRange(syms, i);
    Pow2Succ(al);
    if msb > al {
      Pow2Monotone(al + 1, msb);
    }
    EntryRange(al, syms, i, al - msb, ns * Pow2(al - msb) - Pow2(al));
  }

  /** Numbers the slots of each symbol and derives bits and baselines. dstate
      starts with the symbols' slot counts. */
  method BuildStates(syms: array<byte>, dstate: array<int>, al: nat) returns (nbits: array<nat>, nstate: array<nat>)
    requires 5 <= al <= 14 && syms.Length == Pow2(al) && dstate.Length == 256
    requires forall v: byte :: Count(syms[..], v) == dstate[v]
    modifies dstate
    ensures fresh(nbits) && fresh(nstate) && syms[..] == old(syms[..])
    ensures WellFormed(FseTable(al, syms[..], nbits[..], nstate[..]))
    ensures var t := FseTable(al, syms[..], nbits[..], nstate[..]);
            && |t.syms| == |t.nbits| == |t.nstate| == Pow2(t.al)
            && forall i {:trigger t.nstate[i]} :: 0 <= i < |t.syms| ==>
                 && 0 <= t.nstate[i] < Pow2(t.al)
                 && t.nstate[i] + Pow2(t.al) ==
                    (|Holding(t.syms, |t.syms|, t.syms[i])| + |Holding(t.syms, i, t.syms[i])|) * Pow2(t.nbits[i])
  {
    hide Count, Pow2, Entry, WellFormed, Holding;
    ghost var s := syms[..];
    Pow2Monotone(al + 1, 29);
    Pow2Succ(al);
    Pow2Succ(29);
    nbits := new nat[syms.Length](_ => 0);
    nstate := new nat[syms.Length](_ => 0);
    CountNone(s);
    for i := 0 to syms.Length
      invariant syms[..] == s
      invariant forall v: byte :: dstate[v] == Count(s, v) + Count(s[..i], v)
      invariant forall k :: 0 <= k < i ==> Entry(al, s, k, nbits[k], nstate[k])
    {
      StateNumberRange(s, i);
      var ns := dstate[syms[i]];
      dstate[syms[i]] := ns + 1;
      var msb := Msb(ns);
      MakeEntry(al, s, i, ns, msb);
      nbits[i] := al - msb;
      nstate[i] := ns * Pow2(al - msb) - syms.Length;
      CountStep(s, i);
    }
    MakeTable(FseTable(al, s, nbits[..], nstate[..]));
    SlotNumbers(FseTable(al, s, nbits[..], nstate[..]));
  }

  lemma MakeTable(t: FseTable)
    requires |t.syms| == |t.nbits| == |t.nstate| == Pow2(t.al)
    requires forall i :: 0 <= i < |t.syms| ==> Entry(t.al, t.syms, i, t.nbits[i], t.nstate[i])
    ensures WellFormed(t)
  {
  }

  /** A symbol with c slots numbers them from c on in the order of the table: slot
      number c + r, where r earlier slots hold the symbol, stands for the states
      from nstate on. */
  lemma SlotNumbers(t: FseTable)
    requires WellFormed(t)
    ensures |t.syms| == |t.nbits| == |t.nstate| == Pow2(t.al)
    ensures forall i {:trigger t.nstate[i]} :: 0 <= i < |t.syms| ==>
              && 0 <= t.nstate[i] < Pow2(t.al)
              && t.nstate[i] + Pow2(t.al) ==
                 (|Holding(t.syms, |t.syms|, t.syms[i])| + |Holding(t.syms, i, t.syms[i])|) * Pow2(t.nbits[i])
  {
    hide Count, Pow2, Entry, Holding;
    forall i | 0 <= i < |t.syms|
      ensures 0 <= t.nstate[i] < Pow2(t.al)
      ensures t.nstate[i] + Pow2(t.al) ==
              (|Holding(t.syms, |t.syms|, t.syms[i])| + |Holding(t.syms, i, t.syms[i])|) * Pow2(t.nbits[i])
    {
      SlotNumber(t.al, t.syms, i, t.nbits[i], t.nstate[i]);
    }
  }

  lemma SlotNumber(al: nat, syms: seq<byte>, i: nat, nbits: nat, nstate: int)
    requires i < |syms| && Entry(al, syms, i, nbits, nstate)
    ensures 0 <= nstate < Pow2(al)
    ensures nstate + Pow2(al) == (|Holding(syms, |syms|, syms[i])| + |Holding(syms, i, syms[i])|) * Pow2(nbits)
  {
    hide Count, Pow2, Holding;
    CountHolding(syms, |syms|, syms[i]);
    CountHolding(syms, i, syms[i]);
    assert syms[..|syms|] == syms;
    EntryRange(al, syms, i, nbits, nstate);
  }

  /** Later slots of a symbol have higher numbers and read no more bits. */
  lemma SlotsAscend(t: FseTable, i: nat, j: nat)
    requires WellFormed(t) && i < j < |t.syms| && t.syms[i] == t.syms[j]
    ensures |t.nbits| == |t.nstate| == |t.syms| && t.nbits[j] <= t.nbits[i]
    ensures (t.nstate[i] + Pow2(t.al)) / Pow2(t.nbits[i]) < (t.nstate[j] + Pow2(t.al)) / Pow2(t.nbits[j])
    ensures (forall k :: i < k < j ==> t.syms[k] != t.syms[i]) ==>
              (t.nstate[j] + Pow2(t.al)) / Pow2(t.nbits[j]) == (t.nstate[i] + Pow2(t.al)) / Pow2(t.nbits[i]) + 1
  {
    hide Count, Pow2;
    assert Entry(t.al, t.syms, i, t.nbits[i], t.nstate[i]);
    assert Entry(t.al, t.syms, j, t.nbits[j], t.nstate[j]);
    NumberOfNext(t.syms, i, j);
    var m, n := StateNumber(t.syms, i), StateNumber(t.syms, j);
    MulDiv(m, Pow2(t.nbits[i]));
    MulDiv(n, Pow2(t.nbits[j]));
    if t.nbits[j] > t.nbits[i] {
      Pow2Monotone(t.al - t.nbits[j] + 1, t.al - t.nbits[i]);
    }
  }

  lemma NumberOfNext(syms: seq<byte>, i: nat, j: nat)
    requires i < j < |syms| && syms[i] == syms[j]
    ensures StateNumber(syms, i) < StateNumber(syms, j)
    ensures (forall k :: i < k < j ==> syms[k] != syms[i]) ==> StateNumber(syms, j) == StateNumber(syms, i) + 1
  {
    hide Count;
    CountMonotone(syms, i, j, syms[i]);
    if forall k :: i < k < j ==> syms[k] != syms[i] {
      CountNext(syms, i, syms[i]);
      assert syms[..j] == syms[..i + 1] + syms[i + 1..j];
      CountAppend(syms[..i + 1], syms[i + 1..j], syms[i]);
      CountZero(syms[i + 1..j], syms[i]);
    }
  }

  lemma CountNone(s: seq<byte>)
    ensures forall v: byte :: Count(s[..0], v) == 0
  {
  }

  lemma CountStep(s: seq<byte>, i: nat)
    requires i < |s|
    ensures forall v: byte {:trigger Count(s[..i + 1], v)} ::
              Count(s[..i + 1], v) == Count(s[..i], v) + (if s[i] == v then 1 else 0)
  {
    var s', s'' := s[..i + 1], s[..i];
    forall v: byte
      ensures Count(s', v) == Count(s'', v) + (if s[i] == v then 1 else 0)
    {
      CountNext(s, i, v);
    }
  }

  /** Where the header of a table starts reading: after four bits for the accuracy. */
  ghost function HeaderOf(dat: seq<byte>, bt: nat): Header {
    ReadFreqs(dat, Header(bt * 8 + 4, -1, Pow2(At(dat, bt) % 16 + 5), seq(256, _ => 0)))
  }

  /** Reads a table. It fails when the accuracy is above the caller's maximum, or
      when the frequencies name more than 256 symbols or leave slots over. */
  method Rfse(dat: seq<byte>, bt: nat, mal: nat) returns (r: Result<(nat, FseTable)>)
    requires mal <= 14
    ensures var al, h := At(dat, bt) % 16 + 5, HeaderOf(dat, bt);
            if al > mal then r == Err(3)
            else if h.sym > 255 || h.probs != 0 then r == Err(0)
            else r.Ok? && r.value.0 == (h.tpos + 7) / 8 && r.value.1.al == al
    ensures r.Ok? ==>
            var t, freq := r.value.1, HeaderOf(dat, bt).freq;
            && WellFormed(t) && |freq| == 256
            && (forall v: byte :: Count(t.syms, v) == Slots(freq[v]))
            && SpreadAs(t.syms, freq, |t.syms| - Count(freq, -1))
    ensures r.Ok? ==>
            var t := r.value.1;
            && |t.syms| == |t.nbits| == |t.nstate| == Pow2(t.al)
            && forall i {:trigger t.nstate[i]} :: 0 <= i < |t.syms| ==>
                 && 0 <= t.nstate[i] < Pow2(t.al)
                 && t.nstate[i] + Pow2(t.al) ==
                    (|Holding(t.syms, |t.syms|, t.syms[i])| + |Holding(t.syms, i, t.syms[i])|) * Pow2(t.nbits[i])
  {
    hide Booked, Count, SlotSum, Pow2, Listing, LowListing, InOrder, ReadFreqs, WellFormed, Holding;
    var tpos := bt * 8 + 4;
    var al := At(dat, bt) % 16 + 5;
    if al > mal {
      return Err(3);
    }
    TableSizes(al);
    var sz := Pow2(al);
    var freq := new int[256](_ => 0);
    var syms := new byte[sz](_ => 0);
    assert freq[..] == seq(256, _ => 0);
    var sym, probs, ht;
    tpos, sym, probs, ht := ReadDistribution(dat, tpos, freq, syms);
    BookedRange(sym, probs, freq[..], ht, syms[..]);
    ghost var f := freq[..];
    BookedTop(sym, probs, f, ht, syms[..]);
    if sym > 255 || probs != 0 {
      return Err(0);
    }
    var sympos := Spread(syms, freq, sym, ht, al);
    if sympos != 0 {
      // The source throws here; the walk always returns to slot 0.
      assert false;
    }
    assert SpreadAs(syms[..], f, ht);
    var nbits, nstate := BuildStates(syms, freq, al);
    r := Ok(((tpos + 7) / 8, FseTable(al, syms[..], nbits[..], nstate[..])));
  }

  lemma BookedTop(sym: int, probs: int, freq: seq<int>, ht: int, syms: seq<byte>)
    requires Booked(sym, probs, freq, ht, syms)
    ensures ht == |syms| - Count(freq, -1)
    ensures 0 <= ht <= |syms| && |freq| == 256 && syms[ht..] == LowListing(freq, 256)
  {
  }

  /** The symbols of positive frequency follow the walk of the format, those of
      frequency -1 sit at the top, last first. */
  ghost predicate SpreadAs(syms: seq<byte>, freq: seq<int>, ht: int) {
    && |syms| > 0 && |freq| == 256
    && 0 <= ht <= |syms| && syms[ht..] == LowListing(freq, 256)
    && InOrder(syms, Listing(freq, 256), ht, |syms|, |syms| / 2 + |syms| / 8 + 3, ht)
  }

  /** Below ht the walk from slot 0, in steps of 5/8 of the table and 3, meets the
      symbols in ascending order. */
  lemma SpreadAscends(syms: seq<byte>, freq: seq<int>, ht: int, j: nat, k: nat)
    requires SpreadAs(syms, freq, ht) && j < k < |syms|
    requires var step := |syms| / 2 + |syms| / 8 + 3;
             0 <= j * step % |syms| < ht && 0 <= k * step % |syms| < ht
    ensures var step := |syms| / 2 + |syms| / 8 + 3;
            syms[j * step % |syms|] <= syms[k * step % |syms|]
  {
    hide Listing, LowListing, Visited;
    var step := |syms| / 2 + |syms| / 8 + 3;
    assert Walk(j, step, |syms|) < ht && Walk(k, step, |syms|) < ht;
    hide Walk;
    VisitedMonotone(j, k, step, |syms|, ht);
    ListingSorted(freq, 256, Visited(j, step, |syms|, ht), Visited(k, step, |syms|, ht));
  }

  /** From ht up the symbols, each there once, descend. */
  lemma TopDescends(syms: seq<byte>, freq: seq<int>, ht: int, x: nat, y: nat)
    requires SpreadAs(syms, freq, ht) && ht <= x < y < |syms|
    ensures syms[x] > syms[y]
  {
    hide Listing, LowListing, InOrder;
    LowListingSorted(freq, 256, x - ht, y - ht);
    assert syms[x] == syms[ht..][x - ht] && syms[y] == syms[ht..][y - ht];
  }

  lemma TableSizes(al: nat)
    requires 5 <= al <= 14
    ensures 32 <= Pow2(al) < Pow2(15)
  {
    Pow2Monotone(5, al);
    Pow2Monotone(al, 15);
    assert Pow2(5) == 32 by {
      assert Pow2(3) == 8;
    }
  }

  // The table as a code

  /** From slot i of symbol s the decoder can go to state x. */
  ghost predicate LeadsTo(t: FseTable, i: nat, s: byte, x: int)
    requires WellFormed(t)
  {
    i < |t.syms| && t.syms[i] == s && t.nstate[i] <= x < t.nstate[i] + Pow2(t.nbits[i])
  }

  /** Halving a number that starts above c meets the range from c to 2c. */
  lemma {:induction false} HalvingHits(y: nat, c: nat) returns (b: nat)
    requires 1 <= c <= y
    ensures c <= y / Pow2(b) < 2 * c
    decreases y
  {
    if y < 2 * c {
      b := 0;
      assert y / Pow2(0) == y;
    } else {
      b := HalvingHits(y / 2, c);
      DivDiv(y, 2, Pow2(b));
      b := b + 1;
    }
  }

  /** A state number is the top of the states it leads to. */
  lemma LeadsIsTop(t: FseTable, i: nat, s: byte, x: nat)
    requires WellFormed(t) && LeadsTo(t, i, s, x)
    ensures (x + Pow2(t.al)) / Pow2(t.nbits[i]) == StateNumber(t.syms, i)
  {
    hide StateNumber, Pow2;
    assert Entry(t.al, t.syms, i, t.nbits[i], t.nstate[i]);
    var ns, p := StateNumber(t.syms, i), Pow2(t.nbits[i]);
    DivModUnique(x + Pow2(t.al), p, ns, x - t.nstate[i]);
  }

  /** Conversely the slot whose state number is such a top leads there. */
  lemma TopLeads(t: FseTable, i: nat, x: nat, b: nat)
    requires WellFormed(t) && i < |t.syms| && x < Pow2(t.al)
    requires (x + Pow2(t.al)) / Pow2(b) == StateNumber(t.syms, i)
    ensures LeadsTo(t, i, t.syms[i], x)
  {
    hide Pow2, StateNumber;
    assert Entry(t.al, t.syms, i, t.nbits[i], t.nstate[i]);
    StateNumberRange(t.syms, i);
    var y, ns, p := x + Pow2(t.al), StateNumber(t.syms, i), Pow2(b);
    DivMod(y, p);
    Pow2Succ(t.al);
    MulLe(1, ns, p);
    if b > t.al {
      Pow2Monotone(t.al + 1, b);
    }
    var q := Pow2(t.al - b);
    Pow2Add(t.al - b, b);
    Pow2Succ(t.al - b);
    TopBracket(y, ns, p, q);
    Pow2Bracket(ns, t.al - b, t.al - t.nbits[i]);
  }

  lemma TopBracket(y: int, ns: int, p: int, q: int)
    requires p > 0 && q * p <= y < 2 * (q * p) && ns == y / p
    ensures q <= ns < 2 * q
  {
    DivMod(y, p);
    MulAdd(ns, 1, p);
    MulCancelLt(q, ns + 1, p);
    MulAssoc(2, q, p);
    MulCancelLt(ns, 2 * q, p);
  }

  /** Each symbol and next state have one preceding slot at least ... */
  lemma PrecedingSlot(t: FseTable, s: byte, x: nat) returns (i: nat)
    requires WellFormed(t) && s in t.syms && x < Pow2(t.al)
    ensures LeadsTo(t, i, s, x)
  {
    hide LeadsTo, Pow2, Count, Entry;
    CountZero(t.syms, s);
    var y := x + Pow2(t.al);
    var b := HalvingHits(y, Count(t.syms, s));
    i := NthOccurrence(t.syms, s, y / Pow2(b) - Count(t.syms, s));
    TopLeads(t, i, x, b);
  }

  /** ... and at most. */
  lemma PrecedingSlotUnique(t: FseTable, s: byte, x: nat, i: nat, j: nat)
    requires WellFormed(t) && LeadsTo(t, i, s, x) && LeadsTo(t, j, s, x)
    ensures i == j
  {
    hide Pow2, Count, Entry, StateNumber;
    LeadsIsTop(t, i, s, x);
    LeadsIsTop(t, j, s, x);
    StateNumberRange(t.syms, i);
    StateNumberRange(t.syms, j);
    var y, a, b, c := x + Pow2(t.al), t.nbits[i], t.nbits[j], Count(t.syms, s);
    if a < b {
      OneTopInRange(y, a, b, c);
    } else if b < a {
      OneTopInRange(y, b, a, c);
    }
    SameStateNumber(t.syms, i, j);
  }

  /** Cutting off more bits leaves the range from c to 2c. */
  lemma OneTopInRange(y: nat, a: nat, b: nat, c: nat)
    requires a < b && y / Pow2(a) < 2 * c
    ensures y / Pow2(b) < c
  {
    hide Pow2;
    Pow2Add(a, b - a);
    Pow2Succ(b - a - 1);
    DivDiv(y, Pow2(a), Pow2(b - a));
    DivMonotone(0, y, Pow2(a));
    MulLe(2, Pow2(b - a), c);
    DivLe(y / Pow2(a), Pow2(b - a), c);
  }

  lemma SameStateNumber(syms: seq<byte>, i: nat, j: nat)
    requires i < |syms| && j < |syms| && syms[i] == syms[j]
    requires StateNumber(syms, i) == StateNumber(syms, j)
    ensures i == j
  {
    hide Count;
    if i < j {
      CountMonotone(syms, i, j, syms[i]);
    } else if j < i {
      CountMonotone(syms, j, i, syms[i]);
    }
  }

  // Decoding undoes encoding

  /** From state st, reading the given bits, the decoder emits msg and is then at
      the slot that emitted its last symbol. */
  ghost predicate Decodes(t: FseTable, st: nat, bits: seq<nat>, msg: seq<byte>, last: nat)
    requires WellFormed(t)
    decreases |msg|
  {
    && |msg| >= 1 && |bits| == |msg| - 1 && st < |t.syms| && t.syms[st] == msg[0]
    && if |msg| == 1 then st == last
       else bits[0] < Pow2(t.nbits[st]) && t.nstate[st] + bits[0] >= 0
            && Decodes(t, t.nstate[st] + bits[0], bits[1..], msg[1..], last)
  }

  /** Every message over the table's symbols has an encoding ending where one
      likes ... */
  lemma {:induction false} Encode(t: FseTable, msg: seq<byte>, last: nat) returns (st: nat, bits: seq<nat>)
    requires WellFormed(t) && |msg| >= 1 && forall k :: 0 <= k < |msg| ==> msg[k] in t.syms
    requires last < |t.syms| && t.syms[last] == msg[|msg| - 1]
    ensures Decodes(t, st, bits, msg, last)
    decreases |msg|
  {
    if |msg| == 1 {
      st, bits := last, [];
    } else {
      var next, rest := Encode(t, msg[1..], last);
      st := PrecedingSlot(t, msg[0], next);
      assert Entry(t.al, t.syms, st, t.nbits[st], t.nstate[st]);
      EntryRange(t.al, t.syms, st, t.nbits[st], t.nstate[st]);
      bits := [next - t.nstate[st]] + rest;
      assert bits[1..] == rest;
    }
  }

  /** ... and only one. */
  lemma {:induction false} EncodingUnique(t: FseTable, msg: seq<byte>, last: nat, st: nat, bits: seq<nat>,
                                          st': nat, bits': seq<nat>)
    requires WellFormed(t) && Decodes(t, st, bits, msg, last) && Decodes(t, st', bits', msg, last)
    ensures st == st' && bits == bits'
    decreases |msg|
  {
    hide WellFormed, LeadsTo, Pow2;
    if |msg| > 1 {
      StepLeads(t, st, bits, msg, last);
      StepLeads(t, st', bits', msg, last);
      EncodingUnique(t, msg[1..], last, t.nstate[st] + bits[0], bits[1..], t.nstate[st'] + bits'[0], bits'[1..]);
      PrecedingSlotUnique(t, msg[0], t.nstate[st] + bits[0], st, st');
      assert bits == [bits[0]] + bits[1..];
      assert bits' == [bits'[0]] + bits'[1..];
    }
  }

  lemma StepLeads(t: FseTable, st: nat, bits: seq<nat>, msg: seq<byte>, last: nat)
    requires WellFormed(t) && Decodes(t, st, bits, msg, last) && |msg| > 1
    ensures |bits| > 0 && st < |t.syms| == |t.nstate| && LeadsTo(t, st, msg[0], t.nstate[st] + bits[0])
  {
  }
}
