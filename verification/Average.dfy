/**
 Averaging two buffers of bytes (average.c): the plain loop, the MMX form over 16-bit lanes, and the
 SSE and SSE2 forms with `pavgb` and two block sizes.  `dest` may be one of the sources.
 */
module Average {
  import opened Bits

  type Byte = x: int | 0 <= x < 256
  type Word = x: int | 0 <= x < 65536

  function Mean(a: Byte, b: Byte): Byte {
    (a + b + 1) / 2
  }

  function Means(a: seq<Byte>, b: seq<Byte>): seq<Byte>
    requires |a| == |b|
  {
    seq(|a|, i requires 0 <= i < |a| => Mean(a[i], b[i]))
  }

  /** The rounded mean: never further than half from the exact one, and up when it is half way. */
  lemma MeanRoundsUp(a: Byte, b: Byte)
    ensures 2 * Mean(a, b) == a + b || 2 * Mean(a, b) == a + b + 1
    ensures (if a <= b then a <= Mean(a, b) <= b else b <= Mean(a, b) <= a) && Mean(a, b) == Mean(b, a)
  {
  }

  // ------------------------------------------------------------ the instructions

  function Punpcklbw(m: seq<Byte>): seq<Word>
    requires |m| == 8
  {
    [m[0], m[1], m[2], m[3]]
  }

  function Punpckhbw(m: seq<Byte>): seq<Word>
    requires |m| == 8
  {
    [m[4], m[5], m[6], m[7]]
  }

  /** Addition and subtraction of lanes wrap round. */
  function Paddw(a: seq<Word>, b: seq<Word>): seq<Word>
    requires |a| == |b|
  {
    seq(|a|, i requires 0 <= i < |a| => (a[i] as int + b[i] as int) % 65536)
  }

  function Psubw(a: seq<Word>, b: seq<Word>): seq<Word>
    requires |a| == |b|
  {
    seq(|a|, i requires 0 <= i < |a| => (a[i] as int - b[i] as int) % 65536)
  }

  function Psrlw1(a: seq<Word>): seq<Word> {
    seq(|a|, i requires 0 <= i < |a| => a[i] / 2)
  }

  /** A lane is taken as a signed number and brought into the range of a byte. */
  function Saturated(w: Word): Byte {
    if w >= 32768 then 0 else if w > 255 then 255 else w
  }

  function Packuswb(high: seq<Word>, low: seq<Word>): seq<Byte>
    requires |high| == |low| == 4
  {
    seq(8, i requires 0 <= i < 8 => if i < 4 then Saturated(low[i]) else Saturated(high[i - 4]))
  }

  function Pavgb(a: seq<Byte>, b: seq<Byte>): seq<Byte>
    requires |a| == |b|
  {
    seq(|a|, i requires 0 <= i < |a| => (a[i] as int + b[i] as int + 1) / 2)
  }

  /** MM6: 0 less 0xFFFF in each lane */
  function Ones(): seq<Word> {
    Psubw([0, 0, 0, 0], [65535, 65535, 65535, 65535])
  }

  /** One half of a round of the MMX loop, before packing. */
  function MmxHalf(a: seq<Word>, b: seq<Word>): seq<Word>
    requires |a| == |b| == 4
  {
    Psrlw1(Paddw(Paddw(a, b), Ones()))
  }

  function MmxRound(mm0: seq<Byte>, mm2: seq<Byte>): seq<Byte>
    requires |mm0| == |mm2| == 8
  {
    var low := MmxHalf(Punpcklbw(mm0), Punpcklbw(mm2));
    var high := MmxHalf(Punpckhbw(mm0), Punpckhbw(mm2));
    Packuswb(high, low)
  }

  predicate AllBytes(a: seq<Word>) {
    forall i :: 0 <= i < |a| ==> a[i] < 256
  }

  /** No lane of bytes overflows on the way, and none is saturated. */
  lemma MmxHalfMeans(a: seq<Word>, b: seq<Word>)
    requires |a| == |b| == 4 && AllBytes(a) && AllBytes(b)
    ensures |MmxHalf(a, b)| == 4
    ensures forall i :: 0 <= i < 4 ==>
              MmxHalf(a, b)[i] == (a[i] + b[i] + 1) / 2 && Saturated(MmxHalf(a, b)[i]) == MmxHalf(a, b)[i]
  {
    var sum := Paddw(Paddw(a, b), Ones());
    forall i | 0 <= i < 4 ensures sum[i] == a[i] + b[i] + 1 {
      assert Ones()[i] == 1;
      assert Paddw(a, b)[i] == a[i] + b[i];
    }
  }

  lemma MmxRoundMeans(mm0: seq<Byte>, mm2: seq<Byte>)
    requires |mm0| == |mm2| == 8
    ensures MmxRound(mm0, mm2) == Means(mm0, mm2)
  {
    hide MmxHalf;
    var low0, low2, high0, high2 := Punpcklbw(mm0), Punpcklbw(mm2), Punpckhbw(mm0), Punpckhbw(mm2);
    MmxHalfMeans(low0, low2);
    MmxHalfMeans(high0, high2);
    forall i | 0 <= i < 8 ensures MmxRound(mm0, mm2)[i] == Mean(mm0[i], mm2[i]) {
      if i < 4 {
        assert low0[i] == mm0[i] && low2[i] == mm2[i];
      } else {
        assert high0[i - 4] == mm0[i] && high2[i - 4] == mm2[i];
      }
    }
  }

  lemma PavgbMeans(a: seq<Byte>, b: seq<Byte>)
    requires |a| == |b|
    ensures Pavgb(a, b) == Means(a, b) && |Means(a, b)| == |a|
  {
  }

  // ------------------------------------------------------------ the loops

  /** What every version leaves: the means of the first `bytes` bytes, and the rest of `dest`. */
  ghost predicate Averaged(a: seq<Byte>, b: seq<Byte>, before: seq<Byte>, dest: seq<Byte>, from: nat, bytes: nat) {
    && from + bytes <= |a| && from + bytes <= |b| && from + bytes <= |before| == |dest|
    && (forall i :: from <= i < from + bytes ==> dest[i] == Mean(a[i], b[i]))
    && (forall i :: 0 <= i < |dest| && !(from <= i < from + bytes) ==> dest[i] == before[i])
  }

  /** `average(src1 + from, src2 + from, dest + from, bytes)` */
  method Average(src1: array<Byte>, src2: array<Byte>, dest: array<Byte>, from: nat, bytes: nat)
    requires from + bytes <= src1.Length && from + bytes <= src2.Length && from + bytes <= dest.Length
    modifies dest
    ensures Averaged(old(src1[..]), old(src2[..]), old(dest[..]), dest[..], from, bytes)
  {
    for i := 0 to bytes
      invariant forall k :: from <= k < from + i ==> dest[k] == Mean(old(src1[k]), old(src2[k]))
      invariant forall k :: 0 <= k < dest.Length && !(from <= k < from + i) ==> dest[k] == old(dest[k])
    {
      dest[from + i] := (src1[from + i] as int + src2[from + i] as int + 1) / 2;
    }
  }

  lemma EightMask(n: nat)
    ensures And(n, 7) == n % 8 && AndNot(n, 7) == n - n % 8
    ensures AndNot(n, 7) % 8 == 0 && (n >= 8 ==> AndNot(n, 7) >= 8)
  {
    hide And, AndNot;
    LowBits(n, 3);
    assert Power(0) == 1 && Power(1) == 2 && Power(2) == 4 && Power(3) == 8;
  }

  /** `testl $~0x1F` and `testl $~0x3F` look for a whole block. */
  lemma WideMask(n: nat, wide: nat)
    requires wide == 32 || wide == 64
    ensures AndNot(n, wide - 1) != 0 <==> n >= wide
  {
    hide And, AndNot;
    LowBits(n, if wide == 32 then 5 else 6);
    assert Power(0) == 1 && Power(1) == 2 && Power(2) == 4 && Power(3) == 8;
    assert Power(4) == 16 && Power(5) == 32 && Power(6) == 64;
  }

  /** The bytes from `from` to `to` are done; the other bytes of all three buffers are as they were. */
  ghost predicate DoneFrom(a: seq<Byte>, b: seq<Byte>, before: seq<Byte>,
                           src1: seq<Byte>, src2: seq<Byte>, dest: seq<Byte>, from: nat, to: nat) {
    && from <= to <= |dest| == |before| && to <= |a| == |src1| && to <= |b| == |src2|
    && (forall i :: from <= i < to ==> dest[i] == Mean(a[i], b[i]))
    && (forall i :: 0 <= i < |dest| && !(from <= i < to) ==> dest[i] == before[i])
    && (forall i :: 0 <= i < |a| && !(from <= i < to) ==> src1[i] == a[i])
    && (forall i :: 0 <= i < |b| && !(from <= i < to) ==> src2[i] == b[i])
  }

  /** The stores that end a round. */
  method StoreRound(block: seq<Byte>, src1: array<Byte>, src2: array<Byte>, dest: array<Byte>, at: nat,
                    ghost a: seq<Byte>, ghost b: seq<Byte>, ghost before: seq<Byte>, ghost to: nat)
    requires at + |block| <= to && DoneFrom(a, b, before, src1[..], src2[..], dest[..], at + |block|, to)
    requires block == Means(src1[at..at + |block|], src2[at..at + |block|])
    modifies dest
    ensures DoneFrom(a, b, before, src1[..], src2[..], dest[..], at, to)
  {
    hide Mean;
    forall i | 0 <= i < |block| ensures block[i] == Mean(a[at + i], b[at + i]) {
      assert src1[..][at + i] == a[at + i] && src2[..][at + i] == b[at + i];
    }
    forall i | 0 <= i < |block| {
      dest[at + i] := block[i];
    }
    forall i | at <= i < at + |block| ensures dest[i] == Mean(a[i], b[i]) {
      assert dest[at + (i - at)] == block[i - at];
    }
  }

  /** The loop of average_mmx, for a positive multiple of 8. */
  method MmxLoop(src1: array<Byte>, src2: array<Byte>, dest: array<Byte>, bytes: nat)
    requires 8 <= bytes && bytes % 8 == 0
    requires bytes <= src1.Length && bytes <= src2.Length && bytes <= dest.Length
    modifies dest
    ensures DoneFrom(old(src1[..]), old(src2[..]), old(dest[..]), src1[..], src2[..], dest[..], 0, bytes)
  {
    ghost var a, b, before := src1[..], src2[..], dest[..];
    assert DoneFrom(a, b, before, a, b, before, bytes, bytes);
    hide DoneFrom, Means, MmxRound;
    var eax: nat, more := bytes, true;
    while more
      invariant eax <= bytes && eax % 8 == 0 && (more <==> eax != 0)
      invariant DoneFrom(a, b, before, src1[..], src2[..], dest[..], eax, bytes)
      decreases eax
    {
      var mm0, mm2 := src1[eax - 8..eax], src2[eax - 8..eax];
      MmxRoundMeans(mm0, mm2);
      StoreRound(MmxRound(mm0, mm2), src1, src2, dest, eax - 8, a, b, before, bytes);
      eax := eax - 8;
      more := eax != 0;
    }
  }

  /** A round of four registers: every load is before every store. */
  method PavgbRound(src1: array<Byte>, src2: array<Byte>, dest: array<Byte>, at: nat, size: nat,
                    ghost a: seq<Byte>, ghost b: seq<Byte>, ghost before: seq<Byte>, ghost to: nat)
    requires at + 4 * size <= to && DoneFrom(a, b, before, src1[..], src2[..], dest[..], at + 4 * size, to)
    requires to <= src1.Length && to <= src2.Length
    modifies dest
    ensures DoneFrom(a, b, before, src1[..], src2[..], dest[..], at, to)
  {
    hide DoneFrom, Mean;
    var mm0 := Pavgb(src1[at..at + size], src2[at..at + size]);
    var mm1 := Pavgb(src1[at + size..at + 2 * size], src2[at + size..at + 2 * size]);
    var mm2 := Pavgb(src1[at + 2 * size..at + 3 * size], src2[at + 2 * size..at + 3 * size]);
    var mm3 := Pavgb(src1[at + 3 * size..at + 4 * size], src2[at + 3 * size..at + 4 * size]);
    var block := mm0 + mm1 + mm2 + mm3;
    FourRegisters(src1[..], src2[..], at, size);
    StoreRound(block, src1, src2, dest, at, a, b, before, to);
  }

  lemma RegisterJoins(x: seq<Byte>, y: seq<Byte>, from: nat, mid: nat, to: nat)
    requires from <= mid <= to <= |x| && to <= |y|
    ensures Means(x[from..mid], y[from..mid]) + Pavgb(x[mid..to], y[mid..to]) == Means(x[from..to], y[from..to])
  {
    hide Mean;
    PavgbMeans(x[mid..to], y[mid..to]);
    var left, right := Means(x[from..mid], y[from..mid]), Means(x[mid..to], y[mid..to]);
    var whole := Means(x[from..to], y[from..to]);
    forall i | 0 <= i < to - from ensures (left + right)[i] == whole[i] {
      if i < mid - from {
        assert x[from..mid][i] == x[from..to][i] && y[from..mid][i] == y[from..to][i];
      } else {
        assert x[mid..to][i - (mid - from)] == x[from..to][i] && y[mid..to][i - (mid - from)] == y[from..to][i];
      }
    }
  }

  lemma FourRegisters(x: seq<Byte>, y: seq<Byte>, at: nat, size: nat)
    requires at + 4 * size <= |x| && at + 4 * size <= |y|
    ensures Pavgb(x[at..at + size], y[at..at + size])
            + Pavgb(x[at + size..at + 2 * size], y[at + size..at + 2 * size])
            + Pavgb(x[at + 2 * size..at + 3 * size], y[at + 2 * size..at + 3 * size])
            + Pavgb(x[at + 3 * size..at + 4 * size], y[at + 3 * size..at + 4 * size])
            == Means(x[at..at + 4 * size], y[at..at + 4 * size])
  {
    hide Means, Pavgb;
    PavgbMeans(x[at..at + size], y[at..at + size]);
    RegisterJoins(x, y, at, at + size, at + 2 * size);
    RegisterJoins(x, y, at, at + 2 * size, at + 3 * size);
    RegisterJoins(x, y, at, at + 3 * size, at + 4 * size);
  }

  /** The loop over 8 bytes that ends average_sse and average_sse2. */
  method PavgbLoop(src1: array<Byte>, src2: array<Byte>, dest: array<Byte>, eax0: nat,
                   ghost a: seq<Byte>, ghost b: seq<Byte>, ghost before: seq<Byte>, ghost bytes: nat)
    requires 0 < eax0 <= bytes && eax0 % 8 == 0
    requires bytes <= src1.Length && bytes <= src2.Length
    requires DoneFrom(a, b, before, src1[..], src2[..], dest[..], eax0, bytes)
    modifies dest
    ensures DoneFrom(a, b, before, src1[..], src2[..], dest[..], 0, bytes)
  {
    hide DoneFrom, Means, Pavgb;
    var eax: nat, more := eax0, true;
    while more
      invariant eax <= eax0 && eax % 8 == 0 && (more <==> eax != 0)
      invariant DoneFrom(a, b, before, src1[..], src2[..], dest[..], eax, bytes)
      decreases eax
    {
      var mm0, mm1 := src1[eax - 8..eax], src2[eax - 8..eax];
      PavgbMeans(mm0, mm1);
      StoreRound(Pavgb(mm0, mm1), src1, src2, dest, eax - 8, a, b, before, bytes);
      eax := eax - 8;
      more := eax != 0;
    }
  }

  /** The two loops of average_sse and average_sse2, for a positive multiple of 8. */
  method PavgbLoops(register: nat, src1: array<Byte>, src2: array<Byte>, dest: array<Byte>, bytes: nat)
    requires register == 8 || register == 16
    requires 8 <= bytes && bytes % 8 == 0
    requires bytes <= src1.Length && bytes <= src2.Length && bytes <= dest.Length
    modifies dest
    ensures DoneFrom(old(src1[..]), old(src2[..]), old(dest[..]), src1[..], src2[..], dest[..], 0, bytes)
  {
    ghost var a, b, before := src1[..], src2[..], dest[..];
    assert DoneFrom(a, b, before, a, b, before, bytes, bytes);
    hide DoneFrom, AndNot;
    var wide := 4 * register;
    var eax: nat := bytes;
    WideMask(eax, wide);
    var more := AndNot(eax, wide - 1) != 0;
    while more
      invariant eax <= bytes && eax % 8 == 0 && (more <==> eax >= wide)
      invariant DoneFrom(a, b, before, src1[..], src2[..], dest[..], eax, bytes)
      decreases eax
    {
      PavgbRound(src1, src2, dest, eax - wide, register, a, b, before, bytes);
      eax := eax - wide;
      WideMask(eax, wide);
      more := AndNot(eax, wide - 1) != 0;
    }
    if eax != 0 {
      PavgbLoop(src1, src2, dest, eax, a, b, before, bytes);
    }
  }

  // ------------------------------------------------------------ the versions

  /** The bytes past the last multiple of 8, after those before it. */
  method Tail(src1: array<Byte>, src2: array<Byte>, dest: array<Byte>, bytes: nat,
              ghost a: seq<Byte>, ghost b: seq<Byte>, ghost before: seq<Byte>)
    requires bytes <= src1.Length && bytes <= src2.Length && bytes <= dest.Length
    requires DoneFrom(a, b, before, src1[..], src2[..], dest[..], 0, bytes - bytes % 8)
    modifies dest
    ensures Averaged(a, b, before, dest[..], 0, bytes)
  {
    hide Mean, And, AndNot;
    EightMask(bytes);
    if And(bytes, 7) != 0 {
      Average(src1, src2, dest, AndNot(bytes, 7), And(bytes, 7));
    }
  }

  method AverageMmx(src1: array<Byte>, src2: array<Byte>, dest: array<Byte>, bytes: nat)
    requires bytes <= src1.Length && bytes <= src2.Length && bytes <= dest.Length
    modifies dest
    ensures Averaged(old(src1[..]), old(src2[..]), old(dest[..]), dest[..], 0, bytes)
  {
    ghost var a, b, before := src1[..], src2[..], dest[..];
    assert DoneFrom(a, b, before, a, b, before, 0, 0);
    hide DoneFrom, Averaged, And, AndNot;
    EightMask(bytes);
    if bytes >= 8 {
      MmxLoop(src1, src2, dest, AndNot(bytes, 7));
    }
    Tail(src1, src2, dest, bytes, a, b, before);
  }

  /** average_sse (registers of 8 bytes, rounds of 32) and average_sse2 (16, and 64) */
  method AveragePavgb(register: nat, src1: array<Byte>, src2: array<Byte>, dest: array<Byte>, bytes: nat)
    requires register == 8 || register == 16
    requires bytes <= src1.Length && bytes <= src2.Length && bytes <= dest.Length
    modifies dest
    ensures Averaged(old(src1[..]), old(src2[..]), old(dest[..]), dest[..], 0, bytes)
  {
    ghost var a, b, before := src1[..], src2[..], dest[..];
    assert DoneFrom(a, b, before, a, b, before, 0, 0);
    hide DoneFrom, Averaged, And, AndNot;
    EightMask(bytes);
    if bytes >= 8 {
      PavgbLoops(register, src1, src2, dest, AndNot(bytes, 7));
    }
    Tail(src1, src2, dest, bytes, a, b, before);
  }

  /** `Averaged` leaves nothing open: the versions agree byte for byte, whatever they started from. */
  lemma VersionsAgree(a: seq<Byte>, b: seq<Byte>, before: seq<Byte>, x: seq<Byte>, y: seq<Byte>, bytes: nat)
    requires Averaged(a, b, before, x, 0, bytes) && Averaged(a, b, before, y, 0, bytes)
    ensures x == y && x == Means(a[..bytes], b[..bytes]) + before[bytes..]
  {
  }
}
