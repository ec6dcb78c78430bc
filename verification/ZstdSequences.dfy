/** Sequence execution of rzb: literals and matches are copied within one buffer
    whose tail holds the literals still to be read. */
module ZstdSequences {
  import opened Arith
  import opened ZstdCommon

  /** A decoded sequence: literal length, match length and raw offset value. */
  datatype Sequence = Sequence(ll: nat, ml: nat, off: nat)

  // Repeat offsets

  /** The three most recently used offsets. */
  datatype Offsets = Offsets(o0: int, o1: int, o2: int)

  /** The offset a sequence means, and the offsets remembered afterwards: those
      of section 3.1.1.5 of RFC 8878, most recent first. */
  function Resolve(o: Offsets, ll: nat, off: nat): (int, Offsets)
    requires off >= 1
  {
    if off > 3 then (off - 3, Offsets(off - 3, o.o0, o.o1))
    else
      var idx := if ll != 0 then off - 1 else off;
      match idx
      case 0 => (o.o0, o)
      case 1 => (o.o1, Offsets(o.o1, o.o0, o.o2))
      case 2 => (o.o2, Offsets(o.o2, o.o0, o.o1))
      case _ => (o.o0 - 1, Offsets(o.o0 - 1, o.o0, o.o1))
  }

  function Recent(o: Offsets): seq<int> {
    [o.o0, o.o1, o.o2]
  }

  function MoveToFront(list: seq<int>, j: nat): seq<int>
    requires j < |list|
  {
    [list[j]] + list[..j] + list[j + 1..]
  }

  /** Using a remembered offset moves it to the front; a new one pushes the
      oldest out. Without literals the remembered offsets are counted from the
      second on, and one less than the first is the third choice. */
  lemma ResolveIsMostRecent(o: Offsets, ll: nat, off: nat)
    requires off >= 1
    ensures var (d, o') := Resolve(o, ll, off);
            var slot := if ll == 0 then off else off - 1;
            if off <= 3 && slot < 3 then d == Recent(o)[slot] && Recent(o') == MoveToFront(Recent(o), slot)
            else d == (if off > 3 then off - 3 else o.o0 - 1) && Recent(o') == [d] + Recent(o)[..2]
  {
    var slot := if ll == 0 then off else off - 1;
    if off <= 3 && slot < 3 {
      assert MoveToFront(Recent(o), slot) == Recent(Resolve(o, ll, off).1);
    }
  }

  // The abstract decoder: literals and output apart

  /** The byte `back` positions before the end of what has been written; before
      the block the history, and zeros before that. */
  function Behind(hist: seq<byte>, out: seq<byte>, back: nat): byte
    requires back >= 1
  {
    if back <= |out| then out[|out| - back]
    else if back - |out| <= |hist| then hist[|hist| - (back - |out|)]
    else 0
  }

  /** Repeats what is d bytes back, byte by byte, n times. */
  function CopyMatch(hist: seq<byte>, out: seq<byte>, d: nat, n: nat): (r: seq<byte>)
    requires d >= 1
    ensures |r| == |out| + n
    decreases n
  {
    if n == 0 then out else CopyMatch(hist, out + [Behind(hist, out, d)], d, n - 1)
  }

  /** A match longer than its distance repeats with that period. */
  lemma {:induction false} MatchIsPeriodic(hist: seq<byte>, out: seq<byte>, d: nat, n: nat, i: nat)
    requires d >= 1 && i < n
    ensures CopyMatch(hist, out, d, n)[..|out|] == out
    ensures CopyMatch(hist, out, d, n)[|out| + i] == Behind(hist, out, d - i % d)
    decreases n
  {
    var b := Behind(hist, out, d);
    var out' := out + [b];
    var r := CopyMatch(hist, out, d, n);
    CopyKeeps(hist, out', d, n - 1);
    assert r[..|out'|] == out';
    assert r[|out|] == out'[|out|];
    assert r[..|out|] == r[..|out'|][..|out|];
    if i == 0 {
      DivModUnique(0, d, 0, 0);
    } else {
      MatchIsPeriodic(hist, out', d, n - 1, i - 1);
      DivMod(i - 1, d);
      var k, m := (i - 1) / d, (i - 1) % d;
      if m == d - 1 {
        MulAdd(k, 1, d);
        DivModUnique(i, d, k + 1, 0);
      } else {
        DivModUnique(i, d, k, m + 1);
      }
    }
  }

  lemma {:induction false} CopyKeeps(hist: seq<byte>, out: seq<byte>, d: nat, n: nat)
    requires d >= 1
    ensures CopyMatch(hist, out, d, n)[..|out|] == out
    decreases n
  {
    if n > 0 {
      var out' := out + [Behind(hist, out, d)];
      CopyKeeps(hist, out', d, n - 1);
      assert CopyMatch(hist, out', d, n - 1)[..|out'|][..|out|] == out'[..|out|];
    }
  }

  /** The window is the past of the output: what is behind in the two is behind in
      the joined stream. */
  lemma BehindInStream(hist: seq<byte>, out: seq<byte>, back: nat)
    requires back >= 1
    ensures Behind(hist, out, back) == Behind([], hist + out, back)
    ensures Behind(hist, out, back) ==
            if back <= |hist| + |out| then (hist + out)[|hist| + |out| - back] else 0
  {
  }

  /** A match reads the window as if it had just been put out. */
  lemma {:induction false} MatchInStream(hist: seq<byte>, out: seq<byte>, d: nat, n: nat)
    requires d >= 1
    ensures hist + CopyMatch(hist, out, d, n) == CopyMatch([], hist + out, d, n)
    decreases n
  {
    if n > 0 {
      BehindInStream(hist, out, d);
      var out' := out + [Behind(hist, out, d)];
      MatchInStream(hist, out', d, n - 1);
      assert hist + out' == (hist + out) + [Behind([], hist + out, d)];
    }
  }

  /** Byte i of a match, in the stream of window and output: the one d before it,
      whether that is in the window, in the output or in the match itself; zero
      before the window. */
  lemma {:induction false} MatchLooksBack(hist: seq<byte>, out: seq<byte>, d: nat, n: nat, i: nat)
    requires d >= 1 && i < n
    ensures var s, at := hist + CopyMatch(hist, out, d, n), |hist| + |out| + i;
            s[at] == if d <= at then s[at - d] else 0
    decreases n
  {
    var out' := out + [Behind(hist, out, d)];
    CopyKeeps(hist, out', d, n - 1);
    if i == 0 {
      BehindInStream(hist, out, d);
      var r := CopyMatch(hist, out, d, n);
      assert r == CopyMatch(hist, out', d, n - 1) && r[|out|] == r[..|out'|][|out|];
      assert forall k :: 0 <= k < |out| ==> r[k] == r[..|out'|][k];
    } else {
      MatchLooksBack(hist, out', d, n - 1, i - 1);
    }
  }

  /** Its first d bytes come from what was there. */
  lemma MatchStart(hist: seq<byte>, out: seq<byte>, d: nat, n: nat, i: nat)
    requires 1 <= d <= |hist| + |out| && i < n && i < d
    ensures CopyMatch(hist, out, d, n)[|out| + i] == (hist + out)[|hist| + |out| - d + i]
  {
    MatchIsPeriodic(hist, out, d, n, i);
    DivModUnique(i, d, 0, i);
    BehindInStream(hist, out, d - i);
  }

  /** Every sequence asks for a positive distance. */
  predicate Usable(o: Offsets, seqs: seq<Sequence>)
    decreases |seqs|
  {
    |seqs| == 0 ||
    (seqs[0].off >= 1 &&
     var (d, o') := Resolve(o, seqs[0].ll, seqs[0].off);
     d >= 1 && Usable(o', seqs[1..]))
  }

  function Literals(seqs: seq<Sequence>): nat {
    if |seqs| == 0 then 0 else seqs[0].ll + Literals(seqs[1..])
  }

  function Matches(seqs: seq<Sequence>): nat {
    if |seqs| == 0 then 0 else seqs[0].ml + Matches(seqs[1..])
  }

  /** Executes the sequences, then appends the literals left over. */
  function Execute(hist: seq<byte>, out: seq<byte>, lits: seq<byte>, o: Offsets, seqs: seq<Sequence>)
    : (r: (seq<byte>, Offsets))
    requires Usable(o, seqs) && Literals(seqs) <= |lits|
    decreases |seqs|
  {
    if |seqs| == 0 then (out + lits, o)
    else
      var s := seqs[0];
      var (d, o') := Resolve(o, s.ll, s.off);
      Execute(hist, CopyMatch(hist, out + lits[..s.ll], d, s.ml), lits[s.ll..], o', seqs[1..])
  }

  /** The output is as long as all literals and all matches together, and
      continues what was there. */
  lemma {:induction false} ExecuteLength(hist: seq<byte>, out: seq<byte>, lits: seq<byte>, o: Offsets,
                                         seqs: seq<Sequence>)
    requires Usable(o, seqs) && Literals(seqs) <= |lits|
    ensures |Execute(hist, out, lits, o, seqs).0| == |out| + |lits| + Matches(seqs)
    ensures Execute(hist, out, lits, o, seqs).0[..|out|] == out
    decreases |seqs|
  {
    if |seqs| > 0 {
      var s := seqs[0];
      var (d, o') := Resolve(o, s.ll, s.off);
      var out' := CopyMatch(hist, out + lits[..s.ll], d, s.ml);
      ExecuteLength(hist, out', lits[s.ll..], o', seqs[1..]);
      CopyKeeps(hist, out + lits[..s.ll], d, s.ml);
      var r := Execute(hist, out, lits, o, seqs).0;
      assert r[..|out|] == r[..|out'|][..|out + lits[..s.ll]|][..|out|];
    }
  }

  // The decoder in one buffer

  /** Execution after a window is execution on the joined stream. */
  lemma {:induction false} ExecuteInStream(hist: seq<byte>, out: seq<byte>, lits: seq<byte>, o: Offsets,
                                           seqs: seq<Sequence>)
    requires Usable(o, seqs) && Literals(seqs) <= |lits|
    ensures hist + Execute(hist, out, lits, o, seqs).0 == Execute([], hist + out, lits, o, seqs).0
    ensures Execute(hist, out, lits, o, seqs).1 == Execute([], hist + out, lits, o, seqs).1
    decreases |seqs|
  {
    hide CopyMatch, Resolve;
    if |seqs| == 0 {
      assert hist + (out + lits) == (hist + out) + lits;
    } else {
      var s := seqs[0];
      var (d, o') := Resolve(o, s.ll, s.off);
      var out' := out + lits[..s.ll];
      MatchInStream(hist, out', d, s.ml);
      assert hist + out' == (hist + out) + lits[..s.ll];
      ExecuteInStream(hist, CopyMatch(hist, out', d, s.ml), lits[s.ll..], o', seqs[1..]);
    }
  }

  method ResolveInPlace(o: array<int>, ll: nat, off0: nat) returns (off: int)
    requires o.Length == 3 && off0 >= 1
    modifies o
    ensures (off, Offsets(o[0], o[1], o[2])) == Resolve(Offsets(old(o[0]), old(o[1]), old(o[2])), ll, off0)
  {
    off := off0;
    if off > 3 {
      o[2] := o[1];
      o[1] := o[0];
      off := off - 3;
      o[0] := off;
    } else {
      var idx := off - (if ll != 0 then 1 else 0);
      if idx != 0 {
        off := if idx == 3 then o[0] - 1 else o[idx];
        if idx > 1 {
          o[2] := o[1];
        }
        o[1] := o[0];
        o[0] := off;
      } else {
        off := o[0];
      }
    }
  }

  /** Copies literals forward; the write position never overtakes the read
      position, so every literal is read before it is overwritten. */
  method CopyLiterals(buf: array<byte>, oubt: nat, spl: nat, ll: nat)
    requires oubt <= spl && spl + ll <= buf.Length
    modifies buf
    ensures buf[..oubt + ll] == old(buf[..oubt]) + old(buf[spl..spl + ll])
    ensures buf[spl + ll..] == old(buf[spl + ll..])
  {
    ghost var was := buf[..];
    for i := 0 to ll
      invariant buf[..oubt + i] == was[..oubt] + was[spl..spl + i]
      invariant buf[spl + i..] == was[spl + i..]
    {
      buf[oubt + i] := buf[spl + i];
      assert buf[..oubt + i + 1] == buf[..oubt + i] + [was[spl + i]];
    }
  }

  lemma CopyNext(hist: seq<byte>, out: seq<byte>, d: nat, n: nat)
    requires d >= 1 && n > 0
    ensures CopyMatch(hist, out, d, n) == CopyMatch(hist, out + [Behind(hist, out, d)], d, n - 1)
  {
  }

  /** The part of a match that lies before the block. */
  method CopyFromWindow(buf: array<byte>, oubt: nat, hist: seq<byte>, off: nat, len: nat)
    requires oubt + len <= off && oubt + len <= buf.Length && off >= 1
    modifies buf
    ensures buf[..oubt + len] == CopyMatch(hist, old(buf[..oubt]), off, len)
    ensures forall p :: oubt <= p < oubt + len ==>
              buf[p] == if off <= |hist| + p then hist[|hist| + p - off] else 0
    ensures buf[oubt + len..] == old(buf[oubt + len..])
  {
    hide CopyMatch;
    ghost var was, goal := buf[..], CopyMatch(hist, buf[..oubt], off, len);
    var bs := |hist| + (oubt - off);
    for i := 0 to len
      invariant CopyMatch(hist, buf[..oubt + i], off, len - i) == goal
      invariant buf[oubt + len..] == was[oubt + len..]
      invariant forall p :: oubt <= p < oubt + i ==>
                  buf[p] == if off <= |hist| + p then hist[|hist| + p - off] else 0
    {
      ghost var out := buf[..oubt + i];
      CopyNext(hist, out, off, len - i);
      buf[oubt + i] := if 0 <= bs + i < |hist| then hist[bs + i] else 0;
      assert buf[..oubt + (i + 1)] == out + [Behind(hist, out, off)];
    }
    CopyNone(hist, buf[..oubt + len], off);
  }

  /** The part of a match that lies in the block's own output, front to back, so
      that it may overlap what it writes. */
  method CopyFromOutput(buf: array<byte>, oubt: nat, ghost hist: seq<byte>, off: nat, ml: nat)
    requires 1 <= off <= oubt && oubt + ml <= buf.Length
    modifies buf
    ensures buf[..oubt + ml] == CopyMatch(hist, old(buf[..oubt]), off, ml)
    ensures buf[oubt + ml..] == old(buf[oubt + ml..])
  {
    hide CopyMatch;
    ghost var was, goal := buf[..], CopyMatch(hist, buf[..oubt], off, ml);
    var stin := oubt - off;
    for i := 0 to ml
      invariant CopyMatch(hist, buf[..oubt + i], off, ml - i) == goal
      invariant buf[oubt + ml..] == was[oubt + ml..]
    {
      ghost var out := buf[..oubt + i];
      CopyNext(hist, out, off, ml - i);
      buf[oubt + i] := buf[stin + i];
      assert buf[..oubt + (i + 1)] == out + [Behind(hist, out, off)];
    }
    CopyNone(hist, buf[..oubt + ml], off);
  }

  lemma {:induction false} CopyInTwo(hist: seq<byte>, out: seq<byte>, d: nat, m: nat, n: nat)
    requires d >= 1
    ensures CopyMatch(hist, CopyMatch(hist, out, d, m), d, n) == CopyMatch(hist, out, d, m + n)
    decreases m
  {
    if m > 0 {
      CopyInTwo(hist, out + [Behind(hist, out, d)], d, m - 1, n);
    }
  }

  /** Copies a match: what reaches back before the block first, then the rest. */
  method CopyMatchInPlace(buf: array<byte>, oubt0: nat, hist: seq<byte>, off: nat, ml0: nat) returns (oubt: nat)
    requires off >= 1 && oubt0 + ml0 <= buf.Length
    modifies buf
    ensures oubt == oubt0 + ml0
    ensures buf[..oubt] == CopyMatch(hist, old(buf[..oubt0]), off, ml0)
    ensures hist + buf[..oubt] == CopyMatch([], hist + old(buf[..oubt0]), off, ml0)
    ensures buf[oubt..] == old(buf[oubt..])
  {
    hide CopyMatch;
    oubt := oubt0;
    var ml := ml0;
    ghost var out, tail := buf[..oubt0], buf[oubt0 + ml0..];
    var stin: int := oubt - off;
    if stin < 0 {
      var len := 0 - stin;
      if len > ml {
        len := ml;
      }
      ghost var before := buf[..];
      CopyFromWindow(buf, oubt, hist, off, len);
      TailOfTail(before, buf[..], oubt0 + len, oubt0 + ml0);
      CopyInTwo(hist, out, off, len, ml - len);
      oubt := oubt + len;
      ml := ml - len;
    }
    if ml > 0 {
      CopyFromOutput(buf, oubt, hist, off, ml);
    } else {
      CopyNone(hist, buf[..oubt], off);
    }
    oubt := oubt + ml;
    MatchInStream(hist, out, off, ml0);
  }

  lemma TailOfTail(s: seq<byte>, t: seq<byte>, i: nat, j: nat)
    requires |s| == |t| && i <= j <= |s| && s[i..] == t[i..]
    ensures s[j..] == t[j..]
  {
    assert s[j..] == s[i..][j - i..];
    assert t[j..] == t[i..][j - i..];
  }

  lemma CopyNone(hist: seq<byte>, out: seq<byte>, d: nat)
    requires d >= 1
    ensures CopyMatch(hist, out, d, 0) == out
  {
  }

  ghost function OffsetsOf(o: array<int>): Offsets
    requires o.Length == 3
    reads o
  {
    Offsets(o[0], o[1], o[2])
  }

  lemma ExecuteNext(hist: seq<byte>, out: seq<byte>, lits: seq<byte>, o: Offsets, seqs: seq<Sequence>)
    requires |seqs| > 0 && Usable(o, seqs) && Literals(seqs) <= |lits|
    ensures seqs[0].off >= 1 && seqs[0].ll <= |lits|
    ensures var s := seqs[0];
            var (d, o') := Resolve(o, s.ll, s.off);
            && d >= 1 && Usable(o', seqs[1..]) && Literals(seqs[1..]) <= |lits[s.ll..]|
            && Literals(seqs) == s.ll + Literals(seqs[1..]) && Matches(seqs) == s.ml + Matches(seqs[1..])
            && Execute(hist, out, lits, o, seqs)
               == Execute(hist, CopyMatch(hist, out + lits[..s.ll], d, s.ml), lits[s.ll..], o', seqs[1..])
  {
  }

  /** One sequence: offset, literals, match. */
  method ExecuteOne(buf: array<byte>, oubt0: nat, spl0: nat, hist: seq<byte>, o: array<int>, s: Sequence)
    returns (oubt: nat, spl: nat)
    requires o.Length == 3 && s.off >= 1 && Resolve(OffsetsOf(o), s.ll, s.off).0 >= 1
    requires oubt0 + s.ml <= spl0 && spl0 + s.ll <= buf.Length
    modifies buf, o
    ensures oubt == oubt0 + s.ll + s.ml && spl == spl0 + s.ll
    ensures OffsetsOf(o) == old(Resolve(OffsetsOf(o), s.ll, s.off)).1
    ensures buf[..oubt] == old(CopyMatch(hist, buf[..oubt0] + buf[spl0..][..s.ll],
                                         Resolve(OffsetsOf(o), s.ll, s.off).0, s.ml))
    ensures hist + buf[..oubt] == old(CopyMatch([], hist + (buf[..oubt0] + buf[spl0..][..s.ll]),
                                                Resolve(OffsetsOf(o), s.ll, s.off).0, s.ml))
    ensures buf[spl..] == old(buf[spl0..][s.ll..])
  {
    hide CopyMatch, Resolve;
    ghost var left := buf[spl0..];
    var off := ResolveInPlace(o, s.ll, s.off);
    assert buf[spl0..spl0 + s.ll] == left[..s.ll];
    assert buf[spl0 + s.ll..] == left[s.ll..];
    CopyLiterals(buf, oubt0, spl0, s.ll);
    oubt, spl := oubt0 + s.ll, spl0 + s.ll;
    ghost var before := buf[..];
    oubt := CopyMatchInPlace(buf, oubt, hist, off, s.ml);
    TailOfTail(before, buf[..], oubt, spl);
  }

  /** Executes a block's sequences in its buffer, whose tail holds the literals.
      If the whole output fits, it is that of the abstract decoder. */
  method ExecuteInPlace(buf: array<byte>, spl0: nat, hist: seq<byte>, o: array<int>, seqs: seq<Sequence>)
    returns (oubt: nat)
    requires o.Length == 3 && spl0 <= buf.Length
    requires Usable(OffsetsOf(o), seqs)
    requires Literals(seqs) <= buf.Length - spl0
    requires (buf.Length - spl0) + Matches(seqs) <= buf.Length
    modifies buf, o
    ensures oubt == (buf.Length - spl0) + Matches(seqs)
    ensures (buf[..oubt], OffsetsOf(o)) == Execute(hist, [], old(buf[spl0..]), old(OffsetsOf(o)), seqs)
    ensures (hist + buf[..oubt], OffsetsOf(o)) == Execute([], hist, old(buf[spl0..]), old(OffsetsOf(o)), seqs)
  {
    hide CopyMatch, Execute, Usable, Literals, Matches, Resolve, OffsetsOf;
    ghost var total, goal := Matches(seqs), Execute(hist, [], buf[spl0..], OffsetsOf(o), seqs);
    oubt := 0;
    var spl := spl0;
    assert seqs[0..] == seqs && buf[..0] == [];
    for n := 0 to |seqs|
      invariant oubt + Matches(seqs[n..]) <= spl <= buf.Length
      invariant oubt - spl + Matches(seqs[n..]) == total - spl0
      invariant Usable(OffsetsOf(o), seqs[n..]) && Literals(seqs[n..]) <= buf.Length - spl
      invariant Execute(hist, buf[..oubt], buf[spl..], OffsetsOf(o), seqs[n..]) == goal
    {
      assert seqs[n..][0] == seqs[n] && seqs[n..][1..] == seqs[n + 1..];
      ExecuteNext(hist, buf[..oubt], buf[spl..], OffsetsOf(o), seqs[n..]);
      oubt, spl := ExecuteOne(buf, oubt, spl, hist, o, seqs[n]);
    }
    NothingLeft(hist, buf[..oubt], buf[spl..], OffsetsOf(o), seqs[|seqs|..]);
    oubt := CopyRest(buf, oubt, spl);
    ExecuteInStream(hist, [], old(buf[spl0..]), old(OffsetsOf(o)), seqs);
    assert hist + [] == hist;
  }

  lemma NothingLeft(hist: seq<byte>, out: seq<byte>, lits: seq<byte>, o: Offsets, seqs: seq<Sequence>)
    requires seqs == []
    ensures Usable(o, seqs) && Literals(seqs) == 0 && Matches(seqs) == 0
    ensures Execute(hist, out, lits, o, seqs) == (out + lits, o)
  {
  }

  /** Appends the literals left over; when they are in place already, the buffer
      is full. */
  method CopyRest(buf: array<byte>, oubt0: nat, spl0: nat) returns (oubt: nat)
    requires oubt0 <= spl0 <= buf.Length
    modifies buf
    ensures oubt == oubt0 + (buf.Length - spl0)
    ensures buf[..oubt] == old(buf[..oubt0]) + old(buf[spl0..])
  {
    ghost var was := buf[..];
    oubt := oubt0;
    if oubt != spl0 {
      var spl := spl0;
      while spl < buf.Length
        invariant spl0 <= spl <= buf.Length && spl - oubt == spl0 - oubt0
        invariant buf[..oubt] == was[..oubt0] + was[spl0..spl]
        invariant buf[spl..] == was[spl..]
      {
        ghost var out := buf[..oubt];
        assert buf[spl] == buf[spl..][0] == was[spl..][0];
        buf[oubt] := buf[spl];
        assert buf[..oubt + 1] == out + [was[spl]];
        assert was[spl0..spl + 1] == was[spl0..spl] + [was[spl]];
        oubt, spl := oubt + 1, spl + 1;
      }
    } else {
      oubt := buf.Length;
    }
  }

  /** A block without sequences is its literals, moved to the front unless they
      are there. */
  method LiteralsOnly(buf: array<byte>, spl: nat)
    requires spl <= buf.Length
    modifies buf
    ensures buf[..buf.Length - spl] == old(buf[spl..])
  {
    if spl != 0 {
      CopyLiterals(buf, 0, spl, buf.Length - spl);
    }
  }
}
