/** Distributions as bit strings, and the reader as the inverse of the writer. The
    source only reads; the writer here is the format of section 4.1.1 of
    RFC 8878, least significant bit first. */
module ZstdHeader {
  import opened Arith
  import opened ZstdCommon
  import opened ZstdDistribution
  import opened ZstdFse

  // A byte stream as a number

  function Num(dat: seq<byte>): nat {
    if |dat| == 0 then 0 else dat[0] + 256 * Num(dat[1..])
  }

  /** The stream from bit pos on, as a number; zero past its end. */
  function Tail(dat: seq<byte>, pos: nat): (r: nat) {
    DivMonotone(0, Num(dat), Pow2(pos));
    Num(dat) / Pow2(pos)
  }

  lemma TailDrop(dat: seq<byte>, pos: nat, n: nat)
    ensures Tail(dat, pos + n) == Tail(dat, pos) / Pow2(n)
  {
    hide Num, Pow2;
    Pow2Add(pos, n);
    DivDiv(Num(dat), Pow2(pos), Pow2(n));
  }

  lemma TailByte(dat: seq<byte>, b: nat)
    ensures Tail(dat, 8 * b) == At(dat, b) + 256 * Tail(dat, 8 * (b + 1))
  {
    hide Num, Pow2;
    NumDrop(dat, b);
    NumDrop(dat, b + 1);
    if b < |dat| {
      NumFirst(dat[b..]);
      assert dat[b..][1..] == dat[b + 1..];
      NumFirst(dat[b + 1..]);
    }
  }

  lemma Pow2Eight()
    ensures Pow2(8) == 256 && Pow2(24) == 0x100_0000
  {
    Pow2Four();
    hide Pow2;
    Pow2Add(4, 4);
    Pow2Add(8, 8);
    Pow2Add(16, 8);
  }

  lemma NumFirst(dat: seq<byte>)
    ensures Num(dat) == if |dat| > 0 then dat[0] + 256 * Num(dat[1..]) else 0
  {
  }

  lemma {:induction false} NumDrop(dat: seq<byte>, b: nat)
    ensures Tail(dat, 8 * b) == if b < |dat| then Num(dat[b..]) else 0
  {
    hide Num, Pow2;
    if b == 0 {
      Pow2Zero();
      assert dat[0..] == dat;
      NumFirst(dat);
    } else {
      NumDrop(dat, b - 1);
      TailDrop(dat, 8 * (b - 1), 8);
      Pow2Eight();
      if b - 1 < |dat| {
        NumFirst(dat[b - 1..]);
        assert dat[b - 1..][1..] == dat[b..];
        NumFirst(dat[b..]);
        DivModUnique(Num(dat[b - 1..]), 256, Num(dat[b..]), dat[b - 1]);
      }
    }
  }

  /** Reading up to 17 bits gives those of the stream. */
  lemma FieldIsTail(dat: seq<byte>, pos: nat, bits: nat)
    requires bits <= 17
    ensures Field(dat, pos, bits) == Tail(dat, pos) % Pow2(bits)
  {
    hide Tail, Pow2, Window;
    var b, t := pos / 8, pos % 8;
    TailByte(dat, b);
    TailByte(dat, b + 1);
    TailByte(dat, b + 2);
    WindowBytes(dat, pos);
    TailDrop(dat, 8 * b, t);
    Pow2Eight();
    Pow2Add(t + bits, 24 - t - bits);
    Pow2Add(t, bits);
    BeyondField(Window(dat, pos), Tail(dat, 8 * (b + 3)), Pow2(t), Pow2(bits), Pow2(24 - t - bits));
  }

  lemma WindowBytes(dat: seq<byte>, pos: nat)
    ensures Window(dat, pos) == At(dat, pos / 8) + 256 * At(dat, pos / 8 + 1) + 65536 * At(dat, pos / 8 + 2)
  {
  }

  lemma BeyondField(w: int, h: int, p: int, q: int, r: int)
    requires p > 0 && q > 0 && p * q * r == 0x100_0000
    ensures w / p % q == (w + 0x100_0000 * h) / p % q
  {
    assert 0x100_0000 * h == (r * h * q) * p;
    ModAddMultiple(w, r * h * q, p);
    ModAddMultiple(w / p, r * h, q);
  }

  // Bit strings

  /** A bit string, its first bit the least significant. */
  datatype Code = Code(value: nat, length: nat)

  function Cat(s: Code, t: Code): (r: Code)
    ensures r.length == s.length + t.length
  {
    MulLe(0, t.value, Pow2(s.length));
    Code(s.value + t.value * Pow2(s.length), s.length + t.length)
  }

  ghost predicate Starts(dat: seq<byte>, pos: nat, s: Code) {
    Tail(dat, pos) % Pow2(s.length) == s.value
  }

  lemma StartsCat(dat: seq<byte>, pos: nat, s: Code, t: Code)
    requires s.value < Pow2(s.length) && Starts(dat, pos, Cat(s, t))
    ensures Starts(dat, pos, s) && Starts(dat, pos + s.length, t)
  {
    hide Tail, Pow2;
    var a, b, x := Pow2(s.length), Pow2(t.length), Tail(dat, pos);
    Pow2Add(s.length, t.length);
    DivDiv(x, a, b);
    TailDrop(dat, pos, s.length);
    DivMod(x, a);
    assert x % a + a * (x / a % b) == s.value + t.value * a;
    DivModUnique(s.value + t.value * a, a, t.value, s.value);
    DivModUnique(s.value + t.value * a, a, x / a % b, x % a);
  }

  /** A field of the stream where it starts with a code. */
  lemma FieldAtCode(dat: seq<byte>, pos: nat, s: Code, bits: nat)
    requires Starts(dat, pos, s) && s.length <= bits <= 17
    ensures Field(dat, pos, bits) == (s.value + Tail(dat, pos + s.length) * Pow2(s.length)) % Pow2(bits)
  {
    hide Tail, Pow2, Field;
    FieldIsTail(dat, pos, bits);
    TailDrop(dat, pos, s.length);
    DivMod(Tail(dat, pos), Pow2(s.length));
  }

  // Writing a distribution

  ghost predicate Frequencies(g: seq<int>) {
    |g| == 256 && forall k :: 0 <= k < 256 ==> g[k] >= -1
  }

  /** The slots of the symbols from s on. */
  function Left(g: seq<int>, s: nat): int
    decreases |g| - s
  {
    if s >= |g| then 0 else Slots(g[s]) + Left(g, s + 1)
  }

  function ZeroRun(g: seq<int>, s: nat): (r: nat)
    requires s <= |g|
    ensures s + r <= |g| && forall k :: s <= k < s + r ==> g[k] == 0
    ensures Left(g, s + r) == Left(g, s)
    decreases |g| - s
  {
    if s < |g| && g[s] == 0 then 1 + ZeroRun(g, s + 1) else 0
  }

  /** z further zeros, in two-bit digits up to the first that is not three. */
  function ZerosCode(z: nat): (r: Code)
    ensures r.length >= 2
  {
    if z >= 3 then Cat(Code(3, 2), ZerosCode(z - 3)) else Code(z, 2)
  }

  lemma {:induction false} LeftBound(g: seq<int>, s: nat)
    requires Frequencies(g)
    ensures Left(g, s) >= 0
    ensures s < 256 && Left(g, s) > 0 ==> 0 <= g[s] + 1 <= Left(g, s) + 1
    decreases 256 - s
  {
    if s < 256 {
      LeftBound(g, s + 1);
    }
  }

  lemma {:induction false} NoneLeft(g: seq<int>, s: nat)
    requires Frequencies(g) && Left(g, s) == 0
    ensures forall k :: s <= k < 256 ==> g[k] == 0
    decreases 256 - s
  {
    if s < 256 {
      LeftBound(g, s + 1);
      NoneLeft(g, s + 1);
    }
  }

  lemma {:induction false} LeftIsSum(g: seq<int>, s: nat)
    requires s <= |g|
    ensures SlotSum(g) == SlotSum(g[..s]) + Left(g, s)
    decreases |g| - s
  {
    if s < |g| {
      LeftIsSum(g, s + 1);
      assert g[..s + 1][..s] == g[..s];
    } else {
      assert g[..s] == g;
    }
  }

  /** The code of one frequency when `probs` slots are left. */
  function FreqCode(probs: nat, f: int): (r: Code)
    requires probs > 0 && 0 <= f + 1 <= probs + 1
    ensures r.length >= 1
  {
    Log2Positive(probs + 1);
    var (code, len) := CodeOf(probs, Log2(probs + 1), f + 1);
    Code(code, len)
  }

  lemma Log2Positive(v: nat)
    requires v >= 2
    ensures Log2(v) >= 1
  {
  }

  /** The frequencies from symbol s on. */
  function FreqsCode(g: seq<int>, s: nat): Code
    requires Frequencies(g) && s <= 256
    decreases 256 - s
  {
    LeftBound(g, s);
    if s == 256 || Left(g, s) == 0 then Code(0, 0)
    else if g[s] == 0 then
      var z := ZeroRun(g, s + 1);
      Cat(FreqCode(Left(g, s), 0), Cat(ZerosCode(z), FreqsCode(g, s + 1 + z)))
    else Cat(FreqCode(Left(g, s), g[s]), FreqsCode(g, s + 1))
  }

  // Reading it back

  lemma {:induction false} SkipsZeros(dat: seq<byte>, pos: nat, sym: int, z: nat, rest: Code)
    requires Starts(dat, pos, Cat(ZerosCode(z), rest))
    ensures SkipZeros(dat, pos, sym) == (pos + ZerosCode(z).length, sym + z)
    ensures Starts(dat, pos + ZerosCode(z).length, rest)
    decreases z
  {
    hide Tail, Field, Starts, Cat;
    if z >= 3 {
      CatAssoc(Code(3, 2), ZerosCode(z - 3), rest);
      ReadsPair(dat, pos, 3, Cat(ZerosCode(z - 3), rest));
      SkipsZeros(dat, pos + 2, sym + 3, z - 3, rest);
    } else {
      ReadsPair(dat, pos, z, rest);
    }
  }

  lemma CatAssoc(s: Code, t: Code, u: Code)
    ensures Cat(Cat(s, t), u) == Cat(s, Cat(t, u))
  {
    Pow2Add(s.length, t.length);
    hide Pow2;
    var p, q := Pow2(s.length), Pow2(t.length);
    MulAdd(t.value, u.value * q, p);
    MulAssoc(u.value, q, p);
    assert q * p == p * q;
  }

  lemma ReadsPair(dat: seq<byte>, pos: nat, z: nat, rest: Code)
    requires z <= 3 && Starts(dat, pos, Cat(Code(z, 2), rest))
    ensures Field(dat, pos, 2) == z && Starts(dat, pos + 2, rest)
  {
    hide Tail, Field, Cat;
    assert Pow2(2) == 4;
    StartsCat(dat, pos, Code(z, 2), rest);
    FieldIsTail(dat, pos, 2);
  }

  lemma ReadsFreq(dat: seq<byte>, pos: nat, probs: nat, f: int, rest: Code)
    requires 0 < probs < Pow2(16) - 1 && 0 <= f + 1 <= probs + 1
    requires Starts(dat, pos, Cat(FreqCode(probs, f), rest))
    ensures var bits := Log2(probs + 1);
            ValueOf(probs, bits, Field(dat, pos, bits + 1)) == (f + 1, FreqCode(probs, f).length)
    ensures Starts(dat, pos + FreqCode(probs, f).length, rest)
  {
    hide Tail, Field, Cat, Pow2, ValueOf, CodeOf, Log2;
    var bits, c := Log2(probs + 1), FreqCode(probs, f);
    FewBits(probs + 1, bits);
    ValueRoundTrip(probs, bits, f + 1, Tail(dat, pos + c.length));
    StartsCat(dat, pos, c, rest);
    CodeLength(probs, bits, f + 1);
    FieldAtCode(dat, pos, c, bits + 1);
  }

  lemma CodeLength(probs: nat, bits: nat, v: nat)
    requires Pow2(bits) <= probs + 1 < Pow2(bits + 1) && v <= probs + 1
    ensures CodeOf(probs, bits, v).1 <= bits + 1
  {
  }

  lemma FewBits(v: nat, bits: nat)
    requires Pow2(bits) <= v < Pow2(16)
    ensures bits < 16
  {
    hide Pow2;
    if bits >= 16 {
      Pow2Monotone(16, bits);
    }
  }

  /** Known frequencies up to s, zeros after. */
  function Upto(g: seq<int>, s: nat): (r: seq<int>)
    requires |g| == 256 && s <= 256
    ensures |r| == 256
  {
    g[..s] + seq(256 - s, _ => 0)
  }

  lemma UptoNext(g: seq<int>, s: nat, z: nat)
    requires |g| == 256 && s + 1 + z <= 256
    requires forall k :: s + 1 <= k < s + 1 + z ==> g[k] == 0
    ensures Upto(g, s)[s := g[s]] == Upto(g, s + 1 + z)
  {
  }

  /** From the middle of the header on. */
  lemma {:induction false} FreqsRoundTrip(dat: seq<byte>, h: Header, g: seq<int>, s: nat)
    requires Frequencies(g) && s <= 256 && Left(g, s) < Pow2(16) - 1
    requires h.sym == s - 1 && h.probs == Left(g, s) && h.freq == Upto(g, s)
    requires Starts(dat, h.tpos, FreqsCode(g, s))
    ensures var r := ReadFreqs(dat, h);
            r.freq == g && r.probs == 0 && r.sym <= 255 && r.tpos == h.tpos + FreqsCode(g, s).length
    decreases 256 - s
  {
    hide Tail, Field, Starts, Cat, Upto, FreqCode, ValueOf, Log2, SkipZeros, ZerosCode, Pow2;
    LeftBound(g, s);
    if s == 256 || Left(g, s) == 0 {
      NoneLeft(g, s);
      NothingMore(g, s);
    } else {
      var z := if g[s] == 0 then ZeroRun(g, s + 1) else 0;
      NextRoundTrip(dat, h, g, s, z);
      FreqsRoundTrip(dat, NextFreq(dat, h), g, s + 1 + z);
    }
  }

  lemma NothingMore(g: seq<int>, s: nat)
    requires |g| == 256 && s <= 256 && forall k :: s <= k < 256 ==> g[k] == 0
    ensures Upto(g, s) == g
  {
  }

  lemma FreqsCodeNext(g: seq<int>, s: nat, z: nat)
    requires Frequencies(g) && s < 256 && Left(g, s) > 0
    requires z == if g[s] == 0 then ZeroRun(g, s + 1) else 0
    ensures Left(g, s) == Slots(g[s]) + Left(g, s + 1 + z)
    ensures 0 <= g[s] + 1 <= Left(g, s) + 1 && Left(g, s + 1 + z) >= 0
    ensures var c, rest := FreqCode(Left(g, s), g[s]), FreqsCode(g, s + 1 + z);
            FreqsCode(g, s) == Cat(c, if g[s] == 0 then Cat(ZerosCode(z), rest) else rest)
  {
    hide Cat, FreqCode, ZerosCode, ZeroRun;
    LeftBound(g, s);
    LeftBound(g, s + 1 + z);
  }

  lemma TurnOnSlots(dat: seq<byte>, h: Header, f: int, len: nat)
    requires |h.freq| == 256 && -1 <= h.sym < 255 && h.probs > 0 && f != 0
    requires ValueOf(h.probs, Log2(h.probs + 1), Field(dat, h.tpos, Log2(h.probs + 1) + 1)) == (f + 1, len)
    ensures NextFreq(dat, h) == Header(h.tpos + len, h.sym + 1, h.probs - Slots(f), h.freq[h.sym + 1 := f])
  {
    hide ValueOf, Field, Log2;
  }

  lemma TurnOnZero(dat: seq<byte>, h: Header, len: nat, tpos: nat, sym: int)
    requires |h.freq| == 256 && -1 <= h.sym < 255 && h.probs > 0
    requires ValueOf(h.probs, Log2(h.probs + 1), Field(dat, h.tpos, Log2(h.probs + 1) + 1)) == (1, len)
    requires SkipZeros(dat, h.tpos + len, h.sym + 1) == (tpos, sym)
    ensures NextFreq(dat, h) == Header(tpos, sym, h.probs, h.freq[h.sym + 1 := 0])
  {
    hide ValueOf, Field, Log2, SkipZeros;
  }

  lemma ReadsSlots(dat: seq<byte>, h: Header, f: int, rest: Code)
    requires |h.freq| == 256 && -1 <= h.sym < 255 && 0 < h.probs < Pow2(16) - 1
    requires f != 0 && 0 <= f + 1 <= h.probs + 1
    requires Starts(dat, h.tpos, Cat(FreqCode(h.probs, f), rest))
    ensures NextFreq(dat, h) == Header(h.tpos + FreqCode(h.probs, f).length, h.sym + 1, h.probs - Slots(f),
                                       h.freq[h.sym + 1 := f])
    ensures Starts(dat, h.tpos + FreqCode(h.probs, f).length, rest)
  {
    hide Tail, Field, Starts, Cat, FreqCode, ValueOf, Log2, NextFreq, Pow2;
    ReadsFreq(dat, h.tpos, h.probs, f, rest);
    TurnOnSlots(dat, h, f, FreqCode(h.probs, f).length);
  }

  lemma ReadsZeros(dat: seq<byte>, h: Header, z: nat, rest: Code)
    requires |h.freq| == 256 && -1 <= h.sym < 255 && 0 < h.probs < Pow2(16) - 1
    requires Starts(dat, h.tpos, Cat(FreqCode(h.probs, 0), Cat(ZerosCode(z), rest)))
    ensures var tpos := h.tpos + FreqCode(h.probs, 0).length + ZerosCode(z).length;
            && NextFreq(dat, h) == Header(tpos, h.sym + 1 + z, h.probs, h.freq[h.sym + 1 := 0])
            && Starts(dat, tpos, rest)
  {
    hide Tail, Field, Starts, Cat, FreqCode, ValueOf, Log2, NextFreq, SkipZeros, ZerosCode, Pow2;
    var len := FreqCode(h.probs, 0).length;
    ReadsFreq(dat, h.tpos, h.probs, 0, Cat(ZerosCode(z), rest));
    SkipsZeros(dat, h.tpos + len, h.sym + 1, z, rest);
    TurnOnZero(dat, h, len, h.tpos + len + ZerosCode(z).length, h.sym + 1 + z);
  }

  /** One turn of the loop undoes one turn of the writer. */
  lemma NextRoundTrip(dat: seq<byte>, h: Header, g: seq<int>, s: nat, z: nat)
    requires Frequencies(g) && s < 256 && 0 < Left(g, s) < Pow2(16) - 1
    requires h.sym == s - 1 && h.probs == Left(g, s) && h.freq == Upto(g, s)
    requires z == if g[s] == 0 then ZeroRun(g, s + 1) else 0
    requires Starts(dat, h.tpos, FreqsCode(g, s))
    ensures var n := NextFreq(dat, h);
            && n.sym == s + z && n.probs == Left(g, s + 1 + z) && n.freq == Upto(g, s + 1 + z)
            && n.probs <= h.probs
            && Starts(dat, n.tpos, FreqsCode(g, s + 1 + z))
            && n.tpos + FreqsCode(g, s + 1 + z).length == h.tpos + FreqsCode(g, s).length
  {
    hide Tail, Starts, Cat, Upto, FreqCode, ZerosCode, FreqsCode, Left, ZeroRun, NextFreq, Pow2;
    FreqsCodeNext(g, s, z);
    UptoNext(g, s, z);
    if g[s] == 0 {
      ReadsZeros(dat, h, z, FreqsCode(g, s + 1 + z));
    } else {
      ReadsSlots(dat, h, g[s], FreqsCode(g, s + 1 + z));
    }
  }

  /** The whole header: accuracy log and frequencies. */
  function HeaderCode(al: nat, g: seq<int>): Code
    requires al >= 5 && Frequencies(g)
  {
    Cat(Code(al - 5, 4), FreqsCode(g, 0))
  }

  /** Whatever follows it, a written header is read back: the same accuracy log and
      the same frequencies, and not a bit more is consumed. */
  lemma HeaderRoundTrip(dat: seq<byte>, bt: nat, al: nat, g: seq<int>)
    requires 5 <= al <= 14 && Frequencies(g) && SlotSum(g) == Pow2(al)
    requires Starts(dat, 8 * bt, HeaderCode(al, g))
    ensures At(dat, bt) % 16 + 5 == al
    ensures var h := HeaderOf(dat, bt);
            && h.freq == g && h.probs == 0 && h.sym <= 255
            && h.tpos == 8 * bt + HeaderCode(al, g).length
  {
    hide Tail, Starts, Cat, Pow2, FreqsCode, ReadFreqs, SlotSum, Left;
    Pow2Small();
    StartsCat(dat, 8 * bt, Code(al - 5, 4), FreqsCode(g, 0));
    LowNibble(dat, bt, al - 5);
    LeftIsSum(g, 0);
    Pow2Monotone(al, 14);
    EmptySum();
    assert Upto(g, 0) == seq(256, _ => 0);
    FreqsRoundTrip(dat, Header(bt * 8 + 4, -1, Pow2(al), seq(256, _ => 0)), g, 0);
  }

  lemma EmptySum()
    ensures SlotSum([]) == 0
  {
  }

  lemma Pow2Small()
    ensures Pow2(4) == 16 && Pow2(14) == 16384 && Pow2(16) == 65536
  {
    Pow2Four();
    hide Pow2;
    Pow2Add(4, 4);
    Pow2Add(8, 8);
    Pow2Add(14, 2);
  }

  lemma Pow2Four()
    ensures Pow2(4) == 16 && Pow2(2) == 4
  {
    assert Pow2(2) == 4;
  }

  lemma LowNibble(dat: seq<byte>, bt: nat, v: nat)
    requires Starts(dat, 8 * bt, Code(v, 4))
    ensures At(dat, bt) % 16 == v
  {
    hide Tail, Pow2;
    Pow2Small();
    TailByte(dat, bt);
  }

  // The bytes of a bit string

  /** n bytes of v, lowest first. */
  function Bytes(v: nat, n: nat): seq<byte> {
    if n == 0 then [] else [v % 256] + Bytes(v / 256, n - 1)
  }

  lemma {:induction false} BytesNum(v: nat, n: nat, rest: seq<byte>)
    ensures Num(Bytes(v, n) + rest) % Pow2(8 * n) == v % Pow2(8 * n)
    decreases n
  {
    hide Pow2, Num;
    if n == 0 {
      Pow2Zero();
    } else {
      BytesNum(v / 256, n - 1, rest);
      var s := Bytes(v, n) + rest;
      Pow2Add(8, 8 * (n - 1));
      Pow2Eight();
      assert s[1..] == Bytes(v / 256, n - 1) + rest;
      NumFirst(s);
      OneByte(Num(s), Num(s[1..]), v, Pow2(8 * (n - 1)));
    }
  }

  lemma OneByte(x: nat, y: nat, v: nat, p: int)
    requires p > 0 && x == v % 256 + 256 * y && y % p == v / 256 % p
    ensures x % (256 * p) == v % (256 * p)
  {
    DivDiv(x, 256, p);
    DivDiv(v, 256, p);
    DivModUnique(x, 256, y, v % 256);
  }

  /** The bytes of a bit string, padded to a whole number, start with it. */
  lemma BytesStart(s: Code, n: nat, rest: seq<byte>)
    requires s.value < Pow2(s.length) && s.length <= 8 * n
    ensures Starts(Bytes(s.value, n) + rest, 0, s)
  {
    hide Num, Pow2, Bytes;
    Pow2Zero();
    BytesNum(s.value, n, rest);
    Pow2Add(s.length, 8 * n - s.length);
    Pow2Monotone(s.length, 8 * n);
    var dat, a := Bytes(s.value, n) + rest, Pow2(s.length);
    DivDiv(Num(dat), a, Pow2(8 * n - s.length));
    DivModUnique(s.value, Pow2(8 * n), 0, s.value);
    DivMod(Num(dat), a);
    MulLe(0, Num(dat) / a % Pow2(8 * n - s.length), a);
    DivModUnique(s.value, a, Num(dat) / a % Pow2(8 * n - s.length), Num(dat) % a);
    DivModUnique(s.value, a, 0, s.value);
  }

  ghost predicate Fits(s: Code) {
    s.value < Pow2(s.length)
  }

  lemma CatFits(s: Code, t: Code)
    requires Fits(s) && Fits(t)
    ensures Fits(Cat(s, t))
  {
    Pow2Add(s.length, t.length);
    hide Pow2;
    MulLe(t.value + 1, Pow2(t.length), Pow2(s.length));
    MulAdd(t.value, 1, Pow2(s.length));
  }

  lemma {:induction false} ZerosFit(z: nat)
    ensures Fits(ZerosCode(z))
  {
    hide Cat;
    assert Pow2(2) == 4;
    if z >= 3 {
      ZerosFit(z - 3);
      CatFits(Code(3, 2), ZerosCode(z - 3));
    }
  }

  lemma FreqFits(probs: nat, f: int)
    requires probs > 0 && 0 <= f + 1 <= probs + 1
    ensures Fits(FreqCode(probs, f))
  {
    hide Pow2, CodeOf, ValueOf, Log2;
    ValueRoundTrip(probs, Log2(probs + 1), f + 1, 0);
  }

  lemma {:induction false} FreqsFit(g: seq<int>, s: nat)
    requires Frequencies(g) && s <= 256
    ensures Fits(FreqsCode(g, s))
    decreases 256 - s
  {
    hide Cat, FreqCode, ZerosCode, FreqsCode, Fits;
    LeftBound(g, s);
    if s == 256 || Left(g, s) == 0 {
      NoCode(g, s);
    } else {
      var z := if g[s] == 0 then ZeroRun(g, s + 1) else 0;
      FreqsCodeNext(g, s, z);
      FreqsFit(g, s + 1 + z);
      FreqFits(Left(g, s), g[s]);
      ZerosFit(z);
      CatFits(ZerosCode(z), FreqsCode(g, s + 1 + z));
      CatFits(FreqCode(Left(g, s), g[s]), FreqsCode(g, s + 1 + z));
      CatFits(FreqCode(Left(g, s), g[s]), Cat(ZerosCode(z), FreqsCode(g, s + 1 + z)));
    }
  }

  lemma NoCode(g: seq<int>, s: nat)
    requires Frequencies(g) && s <= 256 && (s == 256 || Left(g, s) == 0)
    ensures Fits(FreqsCode(g, s))
  {
    Pow2Zero();
  }

  lemma HeaderFits(al: nat, g: seq<int>)
    requires 5 <= al <= 14 && Frequencies(g)
    ensures Fits(HeaderCode(al, g))
  {
    hide FreqsCode, Cat;
    Pow2Small();
    FreqsFit(g, 0);
    CatFits(Code(al - 5, 4), FreqsCode(g, 0));
  }

  /** Written to bytes and followed by anything, every distribution that fills the
      table is read back, and the reader stops after the last of those bytes. */
  lemma WriteThenRead(al: nat, g: seq<int>, rest: seq<byte>)
    requires 5 <= al <= 14 && Frequencies(g) && SlotSum(g) == Pow2(al)
    ensures var n := (HeaderCode(al, g).length + 7) / 8;
            var dat := Bytes(HeaderCode(al, g).value, n) + rest;
            var h := HeaderOf(dat, 0);
            && At(dat, 0) % 16 + 5 == al && h.freq == g && h.probs == 0 && h.sym <= 255
            && (h.tpos + 7) / 8 == n
  {
    hide Pow2, HeaderCode, HeaderOf, SlotSum, Bytes, Starts;
    HeaderFits(al, g);
    var n := (HeaderCode(al, g).length + 7) / 8;
    BytesStart(HeaderCode(al, g), n, rest);
    HeaderRoundTrip(Bytes(HeaderCode(al, g).value, n) + rest, 0, al, g);
  }
}
