/** Code lengths that satisfy Kraft's equation, and the table they tile. A length
    of zero means that the symbol does not occur. */
module ZstdKraft {
  import opened Arith
  import opened Counting

  /** The number of entries that belong to length b. */
  ghost function Entries(lens: seq<nat>, mb: nat, b: nat): nat
    requires b <= mb
  {
    MulLe(0, Count(lens, b), Pow2(mb - b));
    Count(lens, b) * Pow2(mb - b)
  }

  /** The entries of the table that belong to lengths above i. */
  ghost function RankStart(lens: seq<nat>, mb: nat, i: nat): nat
    requires i <= mb
    decreases mb - i
  {
    if i == mb then 0 else RankStart(lens, mb, i + 1) + Entries(lens, mb, i + 1)
  }

  /** Where the entries of symbol k start: behind those of all longer codes and
      of the earlier symbols of its own length. */
  ghost function Start(lens: seq<nat>, mb: nat, k: nat): nat
    requires k < |lens| && lens[k] <= mb
  {
    MulLe(0, Count(lens[..k], lens[k]), Pow2(mb - lens[k]));
    RankStart(lens, mb, lens[k]) + Count(lens[..k], lens[k]) * Pow2(mb - lens[k])
  }

  /** Entry x is one of symbol k. */
  ghost predicate InRun(lens: seq<nat>, mb: nat, k: nat, x: nat)
    requires forall j :: 0 <= j < |lens| ==> lens[j] <= mb
  {
    k < |lens| && lens[k] > 0 && Start(lens, mb, k) <= x < Start(lens, mb, k) + Pow2(mb - lens[k])
  }

  /** The lengths fill a table of 2^mb entries. */
  ghost predicate Complete(lens: seq<nat>, mb: nat) {
    && (forall j :: 0 <= j < |lens| ==> lens[j] <= mb)
    && RankStart(lens, mb, 0) == Pow2(mb)
  }

  lemma {:induction false} RankStartMonotone(lens: seq<nat>, mb: nat, i: nat, j: nat)
    requires i <= j <= mb
    ensures RankStart(lens, mb, j) <= RankStart(lens, mb, i)
    decreases j - i
  {
    if i < j {
      RankStartMonotone(lens, mb, i + 1, j);
    }
  }

  lemma RankNext(lens: seq<nat>, mb: nat, b: nat)
    requires 0 < b <= mb
    ensures RankStart(lens, mb, b - 1) == RankStart(lens, mb, b) + Count(lens, b) * Pow2(mb - b)
  {
    assert Entries(lens, mb, b - 1 + 1) == Entries(lens, mb, b);
  }

  /** The run of a symbol stays within the entries of its length. */
  lemma RunWithin(lens: seq<nat>, mb: nat, k: nat)
    requires k < |lens| && 0 < lens[k] <= mb
    ensures RankStart(lens, mb, lens[k]) <= Start(lens, mb, k)
    ensures Start(lens, mb, k) + Pow2(mb - lens[k]) <= RankStart(lens, mb, lens[k] - 1) <= RankStart(lens, mb, 0)
  {
    hide Count, RankStart, Pow2;
    var b := lens[k];
    RankNext(lens, mb, b);
    RankStartMonotone(lens, mb, 0, b - 1);
    CountMonotone(lens, k, |lens|, b);
    assert lens[..|lens|] == lens;
    MulLe(Count(lens[..k], b) + 1, Count(lens, b), Pow2(mb - b));
    MulAdd(Count(lens[..k], b), 1, Pow2(mb - b));
  }

  /** Runs of different symbols have no entry in common. */
  lemma RunsDisjoint(lens: seq<nat>, mb: nat, k: nat, m: nat, x: nat)
    requires forall j :: 0 <= j < |lens| ==> lens[j] <= mb
    requires InRun(lens, mb, k, x) && InRun(lens, mb, m, x)
    ensures k == m
  {
    hide Count, RankStart, Pow2;
    if lens[k] == lens[m] {
      if k < m {
        SameLengthApart(lens, mb, k, m);
      } else if m < k {
        SameLengthApart(lens, mb, m, k);
      }
    } else {
      RunWithin(lens, mb, k);
      RunWithin(lens, mb, m);
      if lens[k] < lens[m] {
        RankStartMonotone(lens, mb, lens[k], lens[m] - 1);
      } else {
        RankStartMonotone(lens, mb, lens[m], lens[k] - 1);
      }
    }
  }

  lemma SameLengthApart(lens: seq<nat>, mb: nat, k: nat, m: nat)
    requires k < m < |lens| && 0 < lens[k] == lens[m] <= mb
    ensures Start(lens, mb, k) + Pow2(mb - lens[k]) <= Start(lens, mb, m)
  {
    hide Count, RankStart, Pow2;
    CountMonotone(lens, k, m, lens[k]);
    MulLe(Count(lens[..k], lens[k]) + 1, Count(lens[..m], lens[k]), Pow2(mb - lens[k]));
    MulAdd(Count(lens[..k], lens[k]), 1, Pow2(mb - lens[k]));
  }

  /** Every entry of the table belongs to some symbol. */
  lemma RunsCover(lens: seq<nat>, mb: nat, x: nat) returns (k: nat)
    requires Complete(lens, mb) && x < Pow2(mb)
    ensures InRun(lens, mb, k, x)
  {
    hide Count, RankStart, Pow2;
    var b := FindRank(lens, mb, 0, x);
    RankNext(lens, mb, b);
    var p, d := Pow2(mb - b), x - RankStart(lens, mb, b);
    DivLe(d, p, Count(lens, b));
    DivMod(d, p);
    DivMonotone(0, d, p);
    k := NthOccurrence(lens, b, d / p);
  }

  lemma {:induction false} FindRank(lens: seq<nat>, mb: nat, i: nat, x: nat) returns (b: nat)
    requires i <= mb && x < RankStart(lens, mb, i)
    ensures i < b <= mb && RankStart(lens, mb, b) <= x < RankStart(lens, mb, b - 1)
    decreases mb - i
  {
    if RankStart(lens, mb, i + 1) <= x {
      b := i + 1;
    } else {
      b := FindRank(lens, mb, i + 1, x);
    }
  }

  /** Up to length i, the entries from RankStart(i) on are a multiple of 2^(mb-i). */
  lemma {:induction false} ShorterAligned(lens: seq<nat>, mb: nat, i: nat)
    requires i <= mb
    ensures (RankStart(lens, mb, 0) - RankStart(lens, mb, i)) % Pow2(mb - i) == 0
  {
    if i == 0 {
      DivModUnique(0, Pow2(mb), 0, 0);
    } else {
      ShorterAligned(lens, mb, i - 1);
      RankNext(lens, mb, i);
      Pow2Succ(mb - i);
      hide RankStart, Count, Pow2;
      AlignedSum(RankStart(lens, mb, 0) - RankStart(lens, mb, i - 1), Count(lens, i), Pow2(mb - i));
    }
  }

  lemma AlignedSum(x: int, c: int, p: int)
    requires p > 0 && x % (2 * p) == 0
    ensures (x + c * p) % p == 0
  {
    DivMod(x, 2 * p);
    assert x == x / (2 * p) * 2 * p;
    MulAdd(x / (2 * p) * 2, c, p);
    DivModUnique(x + c * p, p, x / (2 * p) * 2 + c, 0);
  }

  /** Completeness aligns every run: it starts at a multiple of its own length. */
  lemma RunAligned(lens: seq<nat>, mb: nat, k: nat)
    requires Complete(lens, mb) && k < |lens| && lens[k] > 0
    ensures Start(lens, mb, k) % Pow2(mb - lens[k]) == 0
  {
    hide RankStart, Count, Pow2;
    var b := lens[k];
    ShorterAligned(lens, mb, b);
    Pow2Add(b, mb - b);
    AlignedRest(RankStart(lens, mb, b), Pow2(mb), Pow2(mb - b), Pow2(b), Count(lens[..k], b));
  }

  lemma AlignedRest(r: int, size: int, p: int, q: int, c: int)
    requires p > 0 && size == q * p && (size - r) % p == 0
    ensures (r + c * p) % p == 0
  {
    DivMod(size - r, p);
    var d := (size - r) / p;
    MulSub(q, d, p);
    MulAdd(q - d, c, p);
    DivModUnique(r + c * p, p, q - d + c, 0);
  }

  // The code

  /** The code word of symbol k: its run's start without the trailing zeros. */
  ghost function Code(lens: seq<nat>, mb: nat, k: nat): nat
    requires k < |lens| && lens[k] <= mb
  {
    DivMonotone(0, Start(lens, mb, k), Pow2(mb - lens[k]));
    Start(lens, mb, k) / Pow2(mb - lens[k])
  }

  /** An entry belongs to the symbol whose code word it begins with. */
  lemma RunIsPrefix(lens: seq<nat>, mb: nat, k: nat, x: nat)
    requires Complete(lens, mb) && k < |lens| && lens[k] > 0
    ensures InRun(lens, mb, k, x) <==> x / Pow2(mb - lens[k]) == Code(lens, mb, k)
  {
    RunAligned(lens, mb, k);
    hide Pow2, Count, RankStart, Start;
    var p, s := Pow2(mb - lens[k]), Start(lens, mb, k);
    DivMod(s, p);
    DivMod(x, p);
    if s <= x < s + p {
      DivModUnique(x, p, s / p, x - s);
    }
  }

  /** No code word begins another. */
  lemma PrefixFree(lens: seq<nat>, mb: nat, k: nat, m: nat)
    requires Complete(lens, mb) && k < |lens| && m < |lens| && k != m
    requires 0 < lens[k] <= lens[m]
    ensures Code(lens, mb, m) / Pow2(lens[m] - lens[k]) != Code(lens, mb, k)
  {
    hide Pow2, Count, RankStart, Start;
    var x, a, b := Start(lens, mb, m), lens[k], lens[m];
    RunIsPrefix(lens, mb, m, x);
    Pow2Add(mb - b, b - a);
    DivDiv(x, Pow2(mb - b), Pow2(b - a));
    RunIsPrefix(lens, mb, k, x);
    if x / Pow2(mb - a) == Code(lens, mb, k) {
      RunsDisjoint(lens, mb, k, m, x);
    }
  }

  // Decoding undoes encoding

  /** Bits as a number and how many there are. */
  datatype BitString = BitString(value: nat, length: nat)

  ghost predicate Occurs(lens: seq<nat>, msg: seq<nat>) {
    forall j :: 0 <= j < |msg| ==> msg[j] < |lens| && lens[msg[j]] > 0
  }

  /** The code words of a message, first one in front. */
  ghost function Encode(lens: seq<nat>, mb: nat, msg: seq<nat>): (r: BitString)
    requires Complete(lens, mb) && Occurs(lens, msg)
  {
    if |msg| == 0 then BitString(0, 0)
    else
      var k, rest := msg[0], Encode(lens, mb, msg[1..]);
      MulLe(0, Code(lens, mb, k), Pow2(rest.length));
      BitString(Code(lens, mb, k) * Pow2(rest.length) + rest.value, lens[k] + rest.length)
  }

  /** The next mb bits, zeros past the end. */
  ghost function Peek(bits: BitString, mb: nat): nat {
    if bits.length >= mb then
      DivMonotone(0, bits.value, Pow2(bits.length - mb));
      bits.value / Pow2(bits.length - mb)
    else
      MulLe(0, bits.value, Pow2(mb - bits.length));
      bits.value * Pow2(mb - bits.length)
  }

  lemma {:induction false} EncodeFits(lens: seq<nat>, mb: nat, msg: seq<nat>)
    requires Complete(lens, mb) && Occurs(lens, msg)
    ensures Encode(lens, mb, msg).value < Pow2(Encode(lens, mb, msg).length)
  {
    if |msg| > 0 {
      var k, rest := msg[0], Encode(lens, mb, msg[1..]);
      EncodeFits(lens, mb, msg[1..]);
      CodeFits(lens, mb, k);
      Pow2Add(lens[k], rest.length);
      hide Pow2, Complete, Occurs;
      MulLe(Code(lens, mb, k) + 1, Pow2(lens[k]), Pow2(rest.length));
      MulAdd(Code(lens, mb, k), 1, Pow2(rest.length));
    }
  }

  lemma CodeFits(lens: seq<nat>, mb: nat, k: nat)
    requires Complete(lens, mb) && k < |lens| && lens[k] > 0
    ensures Code(lens, mb, k) < Pow2(lens[k])
  {
    hide Pow2, Count, RankStart, Start;
    RunWithin(lens, mb, k);
    Pow2Add(lens[k], mb - lens[k]);
    DivLe(Start(lens, mb, k), Pow2(mb - lens[k]), Pow2(lens[k]));
  }

  /** What the decoder sees at the start of an encoded message is an entry of its
      first symbol, and the rest follows its code word. */
  lemma EncodedHead(lens: seq<nat>, mb: nat, msg: seq<nat>)
    requires Complete(lens, mb) && Occurs(lens, msg) && |msg| > 0
    ensures var bits, k := Encode(lens, mb, msg), msg[0];
            && InRun(lens, mb, k, Peek(bits, mb))
            && bits.length >= lens[k]
            && bits.value % Pow2(bits.length - lens[k]) == Encode(lens, mb, msg[1..]).value
            && bits.length - lens[k] == Encode(lens, mb, msg[1..]).length
  {
    var k, rest := msg[0], Encode(lens, mb, msg[1..]);
    EncodeFits(lens, mb, msg[1..]);
    var bits := Encode(lens, mb, msg);
    hide Pow2, Count, RankStart, Start, Code, Encode;
    DivModUnique(bits.value, Pow2(rest.length), Code(lens, mb, k), rest.value);
    PeekPrefix(bits, mb, lens[k]);
    RunIsPrefix(lens, mb, k, Peek(bits, mb));
  }

  /** The first b bits of what one peeks at are the first b bits. */
  lemma PeekPrefix(bits: BitString, mb: nat, b: nat)
    requires b <= bits.length && b <= mb
    ensures Peek(bits, mb) / Pow2(mb - b) == bits.value / Pow2(bits.length - b)
  {
    hide Pow2;
    if bits.length >= mb {
      Pow2Add(bits.length - mb, mb - b);
      DivDiv(bits.value, Pow2(bits.length - mb), Pow2(mb - b));
    } else {
      var v, p, q := bits.value, Pow2(mb - bits.length), Pow2(bits.length - b);
      Pow2Add(mb - bits.length, bits.length - b);
      DivDiv(v * p, p, q);
      MulDiv(v, p);
    }
  }
}
