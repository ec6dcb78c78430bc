/** The first half of rfse: reading a normalised distribution from the bit
    stream. A frequency of -1 stands for a symbol that gets a single slot at the
    top of the table. */
module ZstdDistribution {
  import opened Arith
  import opened Counting
  import opened ZstdCommon

  // Reading bit fields, least significant bit first

  function Window(dat: seq<byte>, pos: nat): (r: nat)
    ensures r < 0x100_0000
    ensures pos >= 8 * |dat| ==> r == 0
  {
    var b := pos / 8;
    At(dat, b) + 256 * At(dat, b + 1) + 65536 * At(dat, b + 2)
  }

  function Field(dat: seq<byte>, pos: nat, bits: nat): (r: nat)
    ensures r < Pow2(bits)
    ensures pos >= 8 * |dat| ==> r == 0
  {
    DivModUnique(0, Pow2(pos % 8), 0, 0);
    DivModUnique(0, Pow2(bits), 0, 0);
    DivMonotone(0, Window(dat, pos), Pow2(pos % 8));
    DivMod(Window(dat, pos) / Pow2(pos % 8), Pow2(bits));
    Window(dat, pos) / Pow2(pos % 8) % Pow2(bits)
  }

  // One value

  /** The value of a window of bits + 1 bits when `probs` slots are left, and the
      number of bits it takes: small values take one bit less. */
  function ValueOf(probs: nat, bits: nat, window: nat): (r: (nat, nat))
    requires Pow2(bits) <= probs + 1 < Pow2(bits + 1) && window < Pow2(bits + 1)
    ensures r.0 <= probs + 1
    ensures bits <= r.1 <= bits + 1
  {
    var msk1fb := Pow2(bits) - 1;
    var msv := Pow2(bits + 1) - 1 - probs - 1;
    var sval := window % Pow2(bits);
    DivMod(window, Pow2(bits));
    if sval < msv then (sval, bits)
    else if window > msk1fb then (window - msv, bits + 1)
    else (window, bits + 1)
  }

  /** The code that stands for value v, and its length. */
  function CodeOf(probs: nat, bits: nat, v: nat): (nat, nat)
    requires Pow2(bits) <= probs + 1 < Pow2(bits + 1) && v <= probs + 1
  {
    var msv := Pow2(bits + 1) - 1 - probs - 1;
    if v < msv then (v, bits)
    else if v < Pow2(bits) then (v, bits + 1)
    else (v + msv, bits + 1)
  }

  /** Whatever follows a code in the stream, reading gives back the value and
      consumes the code; so the codes are prefix-free and cover 0 to probs + 1. */
  lemma ValueRoundTrip(probs: nat, bits: nat, v: nat, rest: nat)
    requires Pow2(bits) <= probs + 1 < Pow2(bits + 1) && v <= probs + 1
    ensures (CodeOf(probs, bits, v).0 + rest * Pow2(CodeOf(probs, bits, v).1)) % Pow2(bits + 1) >= 0
    ensures var (code, len) := CodeOf(probs, bits, v);
            code < Pow2(len) && ValueOf(probs, bits, (code + rest * Pow2(len)) % Pow2(bits + 1)) == (v, len)
  {
    var (code, len) := CodeOf(probs, bits, v);
    Pow2Succ(bits);
    hide Pow2;
    var w := if len == bits then code + Pow2(bits) * (rest % 2) else code;
    if len == bits {
      TailBit(code, rest, Pow2(bits));
    } else {
      ModAddMultiple(code, rest, Pow2(bits + 1));
      DivModUnique(code, Pow2(bits + 1), 0, code);
    }
    CodeIsRead(probs, bits, v, rest % 2, w, Pow2(bits));
    SameRemainder(code + rest * Pow2(len), Pow2(bits + 1), if len == bits then 2 * Pow2(bits) else Pow2(bits + 1), w);
  }

  lemma SameRemainder(x: int, m: int, n: int, w: int)
    requires m == n && n > 0 && x % n == w
    ensures x % m == w
  {
  }

  /** Reading the window that a code, and perhaps one bit more, makes. */
  lemma CodeIsRead(probs: nat, bits: nat, v: nat, more: nat, w: nat, p: nat)
    requires p == Pow2(bits) && p <= probs + 1 < Pow2(bits + 1) && v <= probs + 1 && more < 2
    requires var (code, len) := CodeOf(probs, bits, v);
             w == if len == bits then code + p * more else code
    ensures CodeOf(probs, bits, v).0 < Pow2(CodeOf(probs, bits, v).1) && w < Pow2(bits + 1)
    ensures ValueOf(probs, bits, w) == (v, CodeOf(probs, bits, v).1)
  {
    Pow2Succ(bits);
    hide Pow2;
    var code := CodeOf(probs, bits, v).0;
    assert p * more == if more == 0 then 0 else p;
    if w < p {
      DivModUnique(w, p, 0, w);
    } else {
      DivModUnique(w, p, 1, w - p);
    }
  }

  /** The format's code, apart from both: as many of the smallest values as windows
      are to spare take one bit less; a window without its top bit stands for itself,
      and the long ones with their top bit set count up to probs + 1, which is all
      ones. */
  lemma ValueFormat(probs: nat, bits: nat, window: nat)
    requires Pow2(bits) <= probs + 1 < Pow2(bits + 1) && window < Pow2(bits + 1)
    ensures var (v, used) := ValueOf(probs, bits, window);
            && (used == bits <==> v < Pow2(bits + 1) - (probs + 2))
            && (window < Pow2(bits) ==> v == window)
            && (window >= Pow2(bits) && used == bits ==> v == window - Pow2(bits))
            && (window >= Pow2(bits) && used == bits + 1 ==> probs + 1 - v == Pow2(bits + 1) - 1 - window)
  {
    var p := Pow2(bits);
    Pow2Succ(bits);
    hide Pow2;
    if window < p {
      DivModUnique(window, p, 0, window);
    } else {
      DivModUnique(window, p, 1, window - p);
    }
  }

  lemma TailBit(code: nat, rest: nat, p: nat)
    requires code < p
    ensures (code + rest * p) % (2 * p) == code + p * (rest % 2)
    ensures (code + p * (rest % 2)) % p == code
  {
    var h, b := rest / 2, rest % 2;
    MulAdd(h * 2, b, p);
    MulAssoc(h, 2, p);
    assert b == 0 || b == 1;
    if b == 0 {
      DivModUnique(code + rest * p, 2 * p, h, code);
      DivModUnique(code, p, 0, code);
    } else {
      DivModUnique(code + rest * p, 2 * p, h, code + p);
      DivModUnique(code + p, p, 1, code);
    }
  }

  // Slots

  function Slots(f: int): int {
    if f == -1 then 1 else f
  }

  ghost function SlotSum(freq: seq<int>): int {
    if |freq| == 0 then 0 else SlotSum(freq[..|freq| - 1]) + Slots(freq[|freq| - 1])
  }

  lemma {:induction false} SlotSumAppend(s: seq<int>, t: seq<int>)
    ensures SlotSum(s + t) == SlotSum(s) + SlotSum(t)
  {
    if |t| == 0 {
      assert s + t == s;
    } else {
      SlotSumAppend(s, t[..|t| - 1]);
      assert (s + t)[..|s + t| - 1] == s + t[..|t| - 1];
    }
  }

  lemma SlotSumUpdate(s: seq<int>, i: nat, f: int)
    requires i < |s|
    ensures SlotSum(s[i := f]) == SlotSum(s) - Slots(s[i]) + Slots(f)
  {
    hide SlotSum, Slots;
    assert s == s[..i] + ([s[i]] + s[i + 1..]);
    assert s[i := f] == s[..i] + ([f] + s[i + 1..]);
    SlotSumAppend(s[..i], [s[i]] + s[i + 1..]);
    SlotSumAppend(s[..i], [f] + s[i + 1..]);
    SlotSumAppend([s[i]], s[i + 1..]);
    SlotSumAppend([f], s[i + 1..]);
    SlotSumOne(s[i]);
    SlotSumOne(f);
  }

  lemma SlotSumOne(f: int)
    ensures SlotSum([f]) == Slots(f)
  {
    assert [f][..0] == [];
  }

  lemma {:induction false} LowAtMostSum(s: seq<int>)
    requires forall k :: 0 <= k < |s| ==> s[k] >= -1
    ensures Count(s, -1) <= SlotSum(s)
  {
    if |s| > 0 {
      LowAtMostSum(s[..|s| - 1]);
    }
  }

  lemma {:induction false} SlotSumZero(s: seq<int>)
    requires forall k :: 0 <= k < |s| ==> s[k] == 0
    ensures SlotSum(s) == 0 && Count(s, -1) == 0
  {
    if |s| > 0 {
      SlotSumZero(s[..|s| - 1]);
    }
  }

  /** Frequencies that fill `total` slots, of which the `low` topmost belong to
      the symbols of frequency -1. */
  ghost predicate Distribution(freq: seq<int>, low: int, total: int) {
    && |freq| == 256
    && (forall k :: 0 <= k < 256 ==> freq[k] >= -1)
    && SlotSum(freq) == total
    && Count(freq, -1) == low
  }

  /** The symbols below n of frequency -1, last first. */
  ghost function LowListing(freq: seq<int>, n: nat): seq<byte>
    requires n <= |freq| && n <= 256
  {
    if n == 0 then []
    else if freq[n - 1] == -1 then [n - 1] + LowListing(freq, n - 1)
    else LowListing(freq, n - 1)
  }

  lemma {:induction false} LowListingCount(freq: seq<int>, n: nat, v: byte)
    requires n <= |freq| && n <= 256
    ensures Count(LowListing(freq, n), v) == if v < n && freq[v] == -1 then 1 else 0
  {
    if n > 0 {
      LowListingCount(freq, n - 1, v);
      if freq[n - 1] == -1 {
        var top: seq<byte> := [n - 1];
        CountAppend(top, LowListing(freq, n - 1), v);
        CountOne(n - 1, v);
      }
    }
  }

  lemma {:induction false} LowListingSorted(freq: seq<int>, n: nat, i: nat, j: nat)
    requires n <= |freq| && n <= 256 && i < j < |LowListing(freq, n)|
    ensures n > LowListing(freq, n)[i] > LowListing(freq, n)[j]
  {
    if n > 0 {
      if freq[n - 1] == -1 {
        if i == 0 {
          LowListingBelow(freq, n - 1, j - 1);
        } else {
          LowListingSorted(freq, n - 1, i - 1, j - 1);
        }
      } else {
        LowListingSorted(freq, n - 1, i, j);
      }
    }
  }

  lemma {:induction false} LowListingBelow(freq: seq<int>, n: nat, i: nat)
    requires n <= |freq| && n <= 256 && i < |LowListing(freq, n)|
    ensures LowListing(freq, n)[i] < n
  {
    if n > 0 {
      if freq[n - 1] == -1 {
        if i > 0 {
          LowListingBelow(freq, n - 1, i - 1);
        }
      } else {
        LowListingBelow(freq, n - 1, i);
      }
    }
  }

  /** A first entry -1 after which none follows heads the listing. */
  lemma {:induction false} LowListingNext(freq: seq<int>, m: nat, n: nat, f: int)
    requires m < n <= |freq| && n <= 256
    requires forall k :: m <= k < n ==> freq[k] == 0
    ensures LowListing(freq[m := f], n) == if f == -1 then [m] + LowListing(freq, n) else LowListing(freq, n)
    decreases n
  {
    if n == m + 1 {
      LowListingSame(freq, freq[m := f], m);
    } else {
      LowListingNext(freq, m, n - 1, f);
    }
  }

  lemma {:induction false} LowListingSame(freq: seq<int>, freq': seq<int>, n: nat)
    requires n <= |freq| && n <= |freq'| && n <= 256
    requires forall k :: 0 <= k < n ==> freq[k] == freq'[k]
    ensures LowListing(freq, n) == LowListing(freq', n)
  {
    if n > 0 {
      LowListingSame(freq, freq', n - 1);
    }
  }

  lemma {:induction false} LowListingNone(freq: seq<int>, n: nat)
    requires n <= |freq| && n <= 256
    requires forall k :: 0 <= k < n ==> freq[k] == 0
    ensures LowListing(freq, n) == []
  {
    if n > 0 {
      LowListingNone(freq, n - 1);
    }
  }

  lemma CountOne(x: byte, v: byte)
    ensures Count([x], v) == if x == v then 1 else 0
  {
    assert [x] == [] + [x];
    CountSnoc([], x, v);
  }

  /** From ht up the table holds the symbols of frequency -1, last first. */
  ghost predicate LowOnTop(syms: seq<byte>, ht: int, freq: seq<int>) {
    0 <= ht <= |syms| && |freq| == 256 && syms[ht..] == LowListing(freq, 256)
  }

  // The loop

  datatype Header = Header(tpos: nat, sym: int, probs: int, freq: seq<int>)

  /** After a frequency of zero come two-bit counts of further zeros, as long as
      they are three. */
  function SkipZeros(dat: seq<byte>, tpos: nat, sym: int): (r: (nat, int))
    ensures r.1 >= sym
    decreases 8 * |dat| - tpos
  {
    var re := Field(dat, tpos, 2);
    if re == 3 then SkipZeros(dat, tpos + 2, sym + re)
    else (tpos + 2, sym + re)
  }

  /** One turn of the reading loop. */
  function NextFreq(dat: seq<byte>, h: Header): (r: Header)
    requires |h.freq| == 256 && -1 <= h.sym < 255 && h.probs > 0
    ensures |r.freq| == 256 && r.sym > h.sym && r.probs >= 0
  {
    var bits := Log2(h.probs + 1);
    var (val, used) := ValueOf(h.probs, bits, Field(dat, h.tpos, bits + 1));
    var f := val - 1;
    var probs := if f == -1 then h.probs + f else h.probs - f;
    var freq := h.freq[h.sym + 1 := f];
    if f == 0 then
      var (tpos, sym) := SkipZeros(dat, h.tpos + used, h.sym + 1);
      Header(tpos, sym, probs, freq)
    else Header(h.tpos + used, h.sym + 1, probs, freq)
  }

  function ReadFreqs(dat: seq<byte>, h: Header): (r: Header)
    requires |h.freq| == 256 && -1 <= h.sym && h.probs >= 0
    decreases 255 - h.sym
  {
    if h.sym < 255 && h.probs > 0 then ReadFreqs(dat, NextFreq(dat, h)) else h
  }

  /** What holds between two values: slots are never over-committed, the symbols
      of frequency -1 sit on top, and later symbols have no frequency yet. */
  ghost predicate Booked(sym: int, probs: int, freq: seq<int>, ht: int, syms: seq<byte>) {
    && -1 <= sym && 0 <= probs <= ht <= |syms|
    && Distribution(freq, |syms| - ht, |syms| - probs)
    && LowOnTop(syms, ht, freq)
    && (forall k :: sym < k < 256 ==> freq[k] == 0)
  }

  lemma BookedStart(freq: seq<int>, syms: seq<byte>)
    requires |freq| == 256 && forall k :: 0 <= k < 256 ==> freq[k] == 0
    ensures Booked(-1, |syms|, freq, |syms|, syms)
  {
    SlotSumZero(freq);
    LowListingNone(freq, 256);
  }

  /** Recording a frequency keeps the books. */
  lemma BookedNext(sym: int, probs: int, freq: seq<int>, ht: int, syms: seq<byte>, f: int,
                   ht': int, syms': seq<byte>)
    requires Booked(sym, probs, freq, ht, syms) && sym < 255 && 0 < probs && -1 <= f <= probs
    requires ht' == if f == -1 then ht - 1 else ht
    requires syms' == if f == -1 then syms[ht' := sym + 1] else syms
    ensures Booked(sym + 1, probs - Slots(f), freq[sym + 1 := f], ht', syms')
  {
    hide SlotSum, Count, LowListing;
    var freq' := freq[sym + 1 := f];
    SlotSumUpdate(freq, sym + 1, f);
    CountUpdate(freq, sym + 1, f, -1);
    LowAtMostSum(freq');
    LowListingNext(freq, sym + 1, 256, f);
    if f == -1 {
      assert syms'[ht'..] == [syms'[ht']] + syms[ht..];
    }
  }

  lemma BookedSkip(sym: int, probs: int, freq: seq<int>, ht: int, syms: seq<byte>, sym': int)
    requires Booked(sym, probs, freq, ht, syms) && sym <= sym'
    ensures Booked(sym', probs, freq, ht, syms)
  {
  }

  lemma BookedRange(sym: int, probs: int, freq: seq<int>, ht: int, syms: seq<byte>)
    requires Booked(sym, probs, freq, ht, syms)
    ensures -1 <= sym && 0 <= probs <= ht <= |syms| && |freq| == 256
  {
  }

  /** Reads the distribution into freq and the top of syms. */
  method ReadDistribution(dat: seq<byte>, tpos0: nat, freq: array<int>, syms: array<byte>)
    returns (tpos: nat, sym: int, probs: int, ht: int)
    requires freq.Length == 256 && 32 <= syms.Length < Pow2(15)
    requires forall k :: 0 <= k < 256 ==> freq[k] == 0
    modifies freq, syms
    ensures Booked(sym, probs, freq[..], ht, syms[..])
    ensures Header(tpos, sym, probs, freq[..]) == ReadFreqs(dat, Header(tpos0, -1, syms.Length, old(freq[..])))
  {
    hide Booked, NextFreq, Count, SlotSum, Pow2, ValueOf;
    Pow2Monotone(15, 29);
    Pow2Succ(29);
    tpos, sym, probs, ht := tpos0, -1, syms.Length, syms.Length;
    BookedStart(freq[..], syms[..]);
    ghost var goal := ReadFreqs(dat, Header(tpos, sym, probs, freq[..]));
    while sym < 255 && probs > 0
      invariant -1 <= sym && 0 <= probs <= syms.Length
      invariant Booked(sym, probs, freq[..], ht, syms[..])
      invariant ReadFreqs(dat, Header(tpos, sym, probs, freq[..])) == goal
      decreases 255 - sym
    {
      ghost var sym0 := sym;
      tpos, sym, probs, ht := ReadFrequency(dat, tpos, sym, probs, ht, freq, syms);
      BookedRange(sym, probs, freq[..], ht, syms[..]);
    }
  }

  /** One turn of the loop. */
  method ReadFrequency(dat: seq<byte>, tpos0: nat, sym0: int, probs0: int, ht0: int, freq: array<int>,
                       syms: array<byte>)
    returns (tpos: nat, sym: int, probs: int, ht: int)
    requires freq.Length == 256 && -1 <= sym0 < 255 && 0 < probs0 < Pow2(29)
    requires Booked(sym0, probs0, freq[..], ht0, syms[..])
    modifies freq, syms
    ensures sym > sym0
    ensures Booked(sym, probs, freq[..], ht, syms[..])
    ensures Header(tpos, sym, probs, freq[..]) == NextFreq(dat, Header(tpos0, sym0, probs0, old(freq[..])))
  {
    hide Booked, Count, SlotSum, Pow2, ValueOf, Field, Log2;
    tpos, sym, probs, ht := tpos0, sym0, probs0, ht0;
    BookedRange(sym, probs, freq[..], ht, syms[..]);
    ghost var freqWas, symsWas := freq[..], syms[..];
    Pow2Succ(29);
    var bits := Msb(probs + 1);
    Pow2Bracket(probs + 1, bits, Log2(probs + 1));
    var (val, used) := ValueOf(probs, bits, Field(dat, tpos, bits + 1));
    tpos := tpos + used;
    sym := sym + 1;
    var f := val - 1;
    freq[sym] := f;
    if f == -1 {
      probs := probs + f;
      ht := ht - 1;
      syms[ht] := sym;
    } else {
      probs := probs - f;
    }
    BookedNext(sym0, probs0, freqWas, ht0, symsWas, f, ht, syms[..]);
    assert freq[..] == freqWas[sym := f];
    if f == 0 {
      ghost var here, goal := sym, SkipZeros(dat, tpos, sym);
      var more := true;
      while more
        invariant sym >= here
        invariant (if more then SkipZeros(dat, tpos, sym) else (tpos, sym)) == goal
        decreases more, 8 * |dat| - tpos
      {
        var re := Field(dat, tpos, 2);
        tpos := tpos + 2;
        sym := sym + re;
        more := re == 3;
      }
      BookedSkip(here, probs, freq[..], ht, syms[..], sym);
    }
  }
}
