/**
 Byte shuffles on runs of 32-bit words (img_x86_common.h): the loop for odd counts, the masked and
 shifted SIMD loop, and the wrapper that splits a run between them, walking down from its end.

 A register of a SIMD loop is the sequence of its 32-bit lanes.  A store is seen by the loads after
 it; `src` and `dest` are the same buffer or different ones.
 */
module SimdLoops {
  import opened Bits

  datatype Kernel = Swap16x2 | Swap32 | Swap32_02 | Swap32_13 | Rev32 | Rol32 | Ror32

  // ------------------------------------------------------------ what the shuffles are

  function Byte(w: bv32, i: nat): bv32
    requires i < 4
  {
    match i
    case 0 => w & 0xFF
    case 1 => (w >> 8) & 0xFF
    case 2 => (w >> 16) & 0xFF
    case _ => w >> 24
  }

  /** The byte of the source that goes to byte `i`. */
  function Origin(k: Kernel, i: nat): (j: nat)
    requires i < 4
    ensures j < 4
  {
    match k
    case Swap16x2 => if i % 2 == 0 then i + 1 else i - 1
    case Swap32 => (i + 2) % 4
    case Swap32_02 => if i % 2 == 0 then 2 - i else i
    case Swap32_13 => if i % 2 == 1 then 4 - i else i
    case Rev32 => 3 - i
    case Rol32 => (i + 3) % 4
    case Ror32 => (i + 1) % 4
  }

  function Join(b0: bv32, b1: bv32, b2: bv32, b3: bv32): bv32 {
    b0 | (b1 << 8) | (b2 << 16) | (b3 << 24)
  }

  function Shuffled(k: Kernel, w: bv32): bv32 {
    Join(Byte(w, Origin(k, 0)), Byte(w, Origin(k, 1)), Byte(w, Origin(k, 2)), Byte(w, Origin(k, 3)))
  }

  function AllShuffled(k: Kernel, words: seq<bv32>): seq<bv32> {
    seq(|words|, i requires 0 <= i < |words| => Shuffled(k, words[i]))
  }

  lemma BytesOfJoin(b0: bv32, b1: bv32, b2: bv32, b3: bv32)
    requires b0 <= 0xFF && b1 <= 0xFF && b2 <= 0xFF && b3 <= 0xFF
    ensures Byte(Join(b0, b1, b2, b3), 0) == b0 && Byte(Join(b0, b1, b2, b3), 1) == b1
    ensures Byte(Join(b0, b1, b2, b3), 2) == b2 && Byte(Join(b0, b1, b2, b3), 3) == b3
  {
  }

  lemma ByteIsSmall(w: bv32, i: nat)
    requires i < 4
    ensures Byte(w, i) <= 0xFF
  {
  }

  lemma JoinOfBytes(w: bv32)
    ensures Join(Byte(w, 0), Byte(w, 1), Byte(w, 2), Byte(w, 3)) == w
  {
  }

  /** A shuffle moves bytes and loses none. */
  lemma ShuffledByte(k: Kernel, w: bv32, i: nat)
    requires i < 4
    ensures Byte(Shuffled(k, w), i) == Byte(w, Origin(k, i))
  {
    hide Byte, Join, Origin;
    ByteIsSmall(w, Origin(k, 0));
    ByteIsSmall(w, Origin(k, 1));
    ByteIsSmall(w, Origin(k, 2));
    ByteIsSmall(w, Origin(k, 3));
    BytesOfJoin(Byte(w, Origin(k, 0)), Byte(w, Origin(k, 1)), Byte(w, Origin(k, 2)), Byte(w, Origin(k, 3)));
  }

  function Undo(k: Kernel): Kernel {
    match k
    case Rol32 => Ror32
    case Ror32 => Rol32
    case _ => k
  }

  /** The swaps and the reversal undo themselves; the two rotations undo each other. */
  lemma UndoUndoes(k: Kernel, w: bv32)
    ensures Shuffled(Undo(k), Shuffled(k, w)) == w
  {
    hide Byte, Join, Shuffled;
    var x := Shuffled(k, w);
    assert Shuffled(Undo(k), x)
        == Join(Byte(x, Origin(Undo(k), 0)), Byte(x, Origin(Undo(k), 1)),
                Byte(x, Origin(Undo(k), 2)), Byte(x, Origin(Undo(k), 3))) by {
      ShuffledIsJoin(Undo(k), x);
    }
    ShuffledByte(k, w, Origin(Undo(k), 0));
    ShuffledByte(k, w, Origin(Undo(k), 1));
    ShuffledByte(k, w, Origin(Undo(k), 2));
    ShuffledByte(k, w, Origin(Undo(k), 3));
    JoinOfBytes(w);
  }

  lemma ShuffledIsJoin(k: Kernel, w: bv32)
    ensures Shuffled(k, w)
         == Join(Byte(w, Origin(k, 0)), Byte(w, Origin(k, 1)), Byte(w, Origin(k, 2)), Byte(w, Origin(k, 3)))
  {
    hide Byte, Join, Origin;
  }

  // ------------------------------------------------------------ the instructions on one word

  /** `xchg %ah, %al` */
  function ExchangeLow(eax: bv32): bv32 {
    (eax & 0xFFFF0000) | ((eax & 0xFF) << 8) | ((eax >> 8) & 0xFF)
  }

  /** The small loop of each SIMD routine: X86_SWAP16_2, X86_SWAP32, ..., X86_REV32_BSWAP. */
  function SmallWord(k: Kernel, w: bv32): bv32 {
    match k
    case Swap16x2 => ((w << 8) & 0xFF00FF00) | ((w >> 8) & 0x00FF00FF)
    case Swap32 => (w << 16) | (w >> 16)
    case Swap32_02 =>
      var ax, dx := w & 0xFFFF, w >> 16;
      ((ax & 0xFF00) | (dx & 0xFF)) | (((dx & 0xFF00) | (ax & 0xFF)) << 16)
    case Swap32_13 =>
      var ax, dx := w & 0xFFFF, w >> 16;
      ((ax & 0xFF) | (dx & 0xFF00)) | (((dx & 0xFF) | (ax & 0xFF00)) << 16)
    case Rev32 => (w << 24) | ((w & 0xFF00) << 8) | ((w >> 8) & 0xFF00) | (w >> 24)
    case Rol32 => (w << 8) | (w >> 24)
    case Ror32 => (w >> 8) | (w << 24)
  }

  /** The routines without SIMD: the same, but X86_REV32 for the reversal. */
  function PlainWord(k: Kernel, w: bv32): bv32 {
    if k == Rev32 then
      var eax := ExchangeLow(w);
      ExchangeLow((eax << 16) | (eax >> 16))
    else SmallWord(k, w)
  }

  /** psrlw $8, psllw $8: two 16-bit lanes */
  function Psrlw8(w: bv32): bv32 {
    ((w & 0xFFFF) >> 8) | (((w >> 16) >> 8) << 16)
  }

  function Psllw8(w: bv32): bv32 {
    (((w & 0xFFFF) << 8) & 0xFFFF) | ((((w >> 16) << 8) & 0xFFFF) << 16)
  }

  const MASKS: seq<bv32> := [
    0x00000000, 0x000000FF, 0x0000FF00, 0x0000FFFF, 0x00FF0000, 0x00FF00FF, 0x00FFFF00, 0x00FFFFFF,
    0xFF000000, 0xFF0000FF, 0xFF00FF00, 0xFF00FFFF, 0xFFFF0000, 0xFFFF00FF, 0xFFFFFF00, 0xFFFFFFFF]

  /** The address of `mask_data`, and what is found at an offset from a pointer. */
  const MASK_DATA: int := 4096

  function MaskAt(edx: int, offset: nat): bv32
    requires offset < 256
  {
    if edx == MASK_DATA then MASKS[offset / 16] else 0
  }

  /** One 32-bit lane of each main loop. */
  function MainWord(k: Kernel, w: bv32, edx: int): bv32 {
    match k
    case Swap16x2 => Psllw8(w) | Psrlw8(w)
    case Swap32 => (w << 16) | (w >> 16)
    case Swap32_02 =>
      var mm1, mm2, mm0 := (w & MaskAt(edx, 16)) << 16, (w & MaskAt(edx, 64)) >> 16, w & MaskAt(edx, 160);
      mm2 | (mm1 | mm0)
    case Swap32_13 =>
      var mm1, mm2, mm0 := (w & MaskAt(edx, 32)) << 16, (w & MaskAt(edx, 128)) >> 16, w & MaskAt(edx, 80);
      mm2 | (mm1 | mm0)
    case Rev32 =>
      var mm0, mm2, mm1, mm3 := w >> 24, (w & MaskAt(edx, 32)) << 8, (w >> 8) & MaskAt(edx, 32), w << 24;
      mm3 | (mm2 | (mm1 | mm0))
    case Rol32 => (w >> 24) | (w << 8)
    case Ror32 => (w << 24) | (w >> 8)
  }

  predicate UsesMask(k: Kernel) { k == Swap32_02 || k == Swap32_13 || k == Rev32 }

  /** Small loops that overwrite EDX. */
  predicate ClobbersEdx(k: Kernel) { k == Swap16x2 || k == Swap32_02 || k == Swap32_13 }

  /** Routines whose `push_regs` and `pop_regs` save it. */
  predicate SavesEdx(k: Kernel) { k == Swap32_02 || k == Swap32_13 }

  lemma ShuffledAs(k: Kernel, w: bv32, o0: nat, o1: nat, o2: nat, o3: nat)
    requires o0 == Origin(k, 0) && o1 == Origin(k, 1) && o2 == Origin(k, 2) && o3 == Origin(k, 3)
    ensures Shuffled(k, w) == Join(Byte(w, o0), Byte(w, o1), Byte(w, o2), Byte(w, o3))
  {
    hide Byte, Join;
  }

  lemma MasksAre()
    ensures MaskAt(MASK_DATA, 16) == 0x000000FF && MaskAt(MASK_DATA, 32) == 0x0000FF00
    ensures MaskAt(MASK_DATA, 64) == 0x00FF0000 && MaskAt(MASK_DATA, 80) == 0x00FF00FF
    ensures MaskAt(MASK_DATA, 128) == 0xFF000000 && MaskAt(MASK_DATA, 160) == 0xFF00FF00
  {
  }

  lemma Swap16x2Agrees(w: bv32, edx: int)
    ensures var r := Join(Byte(w, 1), Byte(w, 0), Byte(w, 3), Byte(w, 2));
            SmallWord(Swap16x2, w) == r && MainWord(Swap16x2, w, edx) == r
  {
  }

  lemma Swap32Agrees(w: bv32, edx: int)
    ensures var r := Join(Byte(w, 2), Byte(w, 3), Byte(w, 0), Byte(w, 1));
            SmallWord(Swap32, w) == r && MainWord(Swap32, w, edx) == r
  {
  }

  lemma Swap32_02Agrees(w: bv32, edx: int)
    requires edx == MASK_DATA
    ensures var r := Join(Byte(w, 2), Byte(w, 1), Byte(w, 0), Byte(w, 3));
            SmallWord(Swap32_02, w) == r && MainWord(Swap32_02, w, edx) == r
  {
    hide MaskAt;
    MasksAre();
  }

  lemma Swap32_13Agrees(w: bv32, edx: int)
    requires edx == MASK_DATA
    ensures var r := Join(Byte(w, 0), Byte(w, 3), Byte(w, 2), Byte(w, 1));
            SmallWord(Swap32_13, w) == r && MainWord(Swap32_13, w, edx) == r
  {
    hide MaskAt;
    MasksAre();
  }

  lemma ExchangeLowOfJoin(b0: bv32, b1: bv32, b2: bv32, b3: bv32)
    requires b0 <= 0xFF && b1 <= 0xFF && b2 <= 0xFF && b3 <= 0xFF
    ensures ExchangeLow(Join(b0, b1, b2, b3)) == Join(b1, b0, b2, b3)
  {
  }

  lemma HalvesOfJoin(b0: bv32, b1: bv32, b2: bv32, b3: bv32)
    requires b0 <= 0xFF && b1 <= 0xFF && b2 <= 0xFF && b3 <= 0xFF
    ensures (Join(b0, b1, b2, b3) << 16) | (Join(b0, b1, b2, b3) >> 16) == Join(b2, b3, b0, b1)
  {
  }

  lemma PlainRev32Agrees(w: bv32)
    ensures PlainWord(Rev32, w) == Join(Byte(w, 3), Byte(w, 2), Byte(w, 1), Byte(w, 0))
  {
    hide ExchangeLow, Join, Byte;
    ByteIsSmall(w, 0);
    ByteIsSmall(w, 1);
    ByteIsSmall(w, 2);
    ByteIsSmall(w, 3);
    JoinOfBytes(w);
    ExchangeLowOfJoin(Byte(w, 0), Byte(w, 1), Byte(w, 2), Byte(w, 3));
    HalvesOfJoin(Byte(w, 1), Byte(w, 0), Byte(w, 2), Byte(w, 3));
    ExchangeLowOfJoin(Byte(w, 2), Byte(w, 3), Byte(w, 1), Byte(w, 0));
  }

  lemma Rev32Agrees(w: bv32, edx: int)
    requires edx == MASK_DATA
    ensures var r := Join(Byte(w, 3), Byte(w, 2), Byte(w, 1), Byte(w, 0));
            SmallWord(Rev32, w) == r && MainWord(Rev32, w, edx) == r
  {
    hide MaskAt;
    MasksAre();
  }

  lemma Rol32Agrees(w: bv32, edx: int)
    ensures var r := Join(Byte(w, 3), Byte(w, 0), Byte(w, 1), Byte(w, 2));
            SmallWord(Rol32, w) == r && MainWord(Rol32, w, edx) == r
  {
  }

  lemma Ror32Agrees(w: bv32, edx: int)
    ensures var r := Join(Byte(w, 1), Byte(w, 2), Byte(w, 3), Byte(w, 0));
            SmallWord(Ror32, w) == r && MainWord(Ror32, w, edx) == r
  {
  }

  /**
   The small loop, the loop without SIMD and, given the mask pointer, a lane of the main loop all
   compute the shuffle.
   */
  lemma WordsAgree(k: Kernel, w: bv32, edx: int)
    ensures SmallWord(k, w) == Shuffled(k, w) && PlainWord(k, w) == Shuffled(k, w)
    ensures (UsesMask(k) ==> edx == MASK_DATA) ==> MainWord(k, w, edx) == Shuffled(k, w)
  {
    hide Shuffled, SmallWord, MainWord, ExchangeLow, Byte, Join;
    match k
    case Swap16x2 =>
      ShuffledAs(k, w, 1, 0, 3, 2);
      Swap16x2Agrees(w, edx);
    case Swap32 =>
      ShuffledAs(k, w, 2, 3, 0, 1);
      Swap32Agrees(w, edx);
    case Swap32_02 =>
      ShuffledAs(k, w, 2, 1, 0, 3);
      Swap32_02Agrees(w, MASK_DATA);
    case Swap32_13 =>
      ShuffledAs(k, w, 0, 3, 2, 1);
      Swap32_13Agrees(w, MASK_DATA);
    case Rev32 =>
      ShuffledAs(k, w, 3, 2, 1, 0);
      PlainRev32Agrees(w);
      Rev32Agrees(w, MASK_DATA);
    case Rol32 =>
      ShuffledAs(k, w, 3, 0, 1, 2);
      Rol32Agrees(w, edx);
    case Ror32 =>
      ShuffledAs(k, w, 1, 2, 3, 0);
      Ror32Agrees(w, edx);
  }

  // ------------------------------------------------------------ the loops

  /** The words from `from` up to `size` are done, the source below them is as it was. */
  ghost predicate DoneFrom(k: Kernel, was: seq<bv32>, source: seq<bv32>, result: seq<bv32>, from: nat, size: nat) {
    && from <= size <= |was| == |source| && size <= |result|
    && (forall i :: 0 <= i < from ==> source[i] == was[i])
    && (forall i :: from <= i < size ==> result[i] == Shuffled(k, was[i]))
  }

  lemma NoneDone(k: Kernel, was: seq<bv32>, result: seq<bv32>, size: nat)
    requires size <= |was| && size <= |result|
    ensures DoneFrom(k, was, was, result, size, size)
  {
  }

  lemma AllDone(k: Kernel, was: seq<bv32>, source: seq<bv32>, result: seq<bv32>, size: nat)
    requires DoneFrom(k, was, source, result, 0, size)
    ensures result[..size] == AllShuffled(k, was[..size])
  {
  }

  lemma OneBlockLess(n: nat, block: nat)
    requires block > 0 && n > 0 && n % block == 0
    ensures n >= block && (n - block) % block == 0
  {
    RemainderIs(n - block, block, n / block - 1, 0);
  }

  /** One round of the main loop: a whole register is loaded, shuffled and stored. */
  method MainBlock(k: Kernel, edx: int, src: array<bv32>, dest: array<bv32>, at: nat, lanes: nat)
    requires at + lanes <= src.Length && at + lanes <= dest.Length
    requires UsesMask(k) ==> edx == MASK_DATA
    modifies dest
    ensures forall i :: at <= i < at + lanes ==> dest[i] == Shuffled(k, old(src[i]))
    ensures forall i :: 0 <= i < dest.Length && !(at <= i < at + lanes) ==> dest[i] == old(dest[i])
  {
    hide Shuffled, MainWord;
    var mm0 := src[at..at + lanes];
    forall j | 0 <= j < lanes {
      dest[at + j] := MainWord(k, mm0[j], edx);
    }
    forall i | at <= i < at + lanes ensures dest[i] == Shuffled(k, old(src[i])) {
      assert dest[at + (i - at)] == MainWord(k, mm0[i - at], edx);
      WordsAgree(k, mm0[i - at], edx);
    }
  }

  /** The main loop: `size` is a multiple of the block. */
  method MainLoop(k: Kernel, edx: int, block: nat, src: array<bv32>, dest: array<bv32>, size: nat, ghost total: nat,
                  ghost was: seq<bv32>)
    requires block > 0 && 0 < size && size % block == 0
    requires size <= total <= src.Length && total <= dest.Length
    requires UsesMask(k) ==> edx == MASK_DATA
    requires DoneFrom(k, was, src[..], dest[..], size, total)
    modifies dest
    ensures DoneFrom(k, was, src[..], dest[..], 0, total)
    ensures dest[total..] == old(dest[total..])
  {
    hide Shuffled;
    var ecx: nat, more := size, true;
    while more
      invariant ecx <= size && ecx % block == 0 && (more <==> ecx > 0)
      invariant DoneFrom(k, was, src[..], dest[..], ecx, total)
      invariant forall i :: total <= i < dest.Length ==> dest[i] == old(dest[i])
      decreases ecx
    {
      OneBlockLess(ecx, block);
      MainBlock(k, edx, src, dest, ecx - block, block);
      ecx := ecx - block;
      more := ecx != 0;
    }
  }

  /** The store that ends a round of a loop that takes one word at a time. */
  method StoreWord(k: Kernel, w: bv32, at: nat, src: array<bv32>, dest: array<bv32>,
                   ghost size: nat, ghost was: seq<bv32>)
    requires at < size && DoneFrom(k, was, src[..], dest[..], at + 1, size) && w == Shuffled(k, src[at])
    modifies dest
    ensures DoneFrom(k, was, src[..], dest[..], at, size)
    ensures dest[size..] == old(dest[size..])
  {
    hide Shuffled;
    dest[at] := w;
  }

  /** The small loop, until the count is a multiple of the block. */
  method SmallLoop(k: Kernel, log: nat, src: array<bv32>, dest: array<bv32>, size: nat, mask: int, ghost was: seq<bv32>)
    returns (ecx: nat, edx: int)
    requires size % Power(log) != 0 && size <= src.Length && size <= dest.Length && was == src[..]
    modifies dest
    ensures ecx < size && ecx % Power(log) == 0
    ensures !ClobbersEdx(k) ==> edx == mask
    ensures DoneFrom(k, was, src[..], dest[..], ecx, size)
    ensures dest[size..] == old(dest[size..])
  {
    hide Shuffled, SmallWord, DoneFrom, Power, And;
    NoneDone(k, was, dest[..], size);
    ecx, edx := size, mask;
    var more := true;
    while more
      invariant ecx <= size && (more ==> ecx % Power(log) != 0) && (!more ==> ecx < size && ecx % Power(log) == 0)
      invariant !ClobbersEdx(k) ==> edx == mask
      invariant DoneFrom(k, was, src[..], dest[..], ecx, size)
      invariant dest[size..] == old(dest[size..])
      decreases ecx
    {
      assert ecx > 0;
      WordsAgree(k, src[ecx - 1], edx);
      StoreWord(k, SmallWord(k, src[ecx - 1]), ecx - 1, src, dest, size, was);
      if ClobbersEdx(k) {
        edx := *;
      }
      ecx := ecx - 1;
      LowBits(ecx, log);
      more := And(ecx, Power(log) - 1) != 0;
    }
  }

  /**
   SIMD_LOOP_WRAPPER around a routine, for a block of `2^log` words.  EDX holds the mask pointer for
   the routines that were given it and anything at all for the others; the small loops that use it
   as scratch leave anything in it.
   */
  method SimdLoop(k: Kernel, log: nat, src: array<bv32>, dest: array<bv32>, size: nat)
    requires 1 <= size <= src.Length && size <= dest.Length
    modifies dest
    ensures dest[..size] == AllShuffled(k, old(src[..size]))
    ensures dest[size..] == old(dest[size..])
  {
    hide DoneFrom, AllShuffled, Power, And;
    ghost var was := src[..];
    assert was[..size] == src[..size];
    NoneDone(k, was, dest[..], size);
    var ecx: nat, edx: int := size, *;
    if UsesMask(k) {
      edx := MASK_DATA;
    }
    LowBits(ecx, log);
    if And(ecx, Power(log) - 1) != 0 {
      var pushed := edx;
      ecx, edx := SmallLoop(k, log, src, dest, size, edx, was);
      if SavesEdx(k) {
        edx := pushed;
      }
    }
    if ecx != 0 {
      MainLoop(k, edx, Power(log), src, dest, ecx, size, was);
    }
    AllDone(k, was, src[..], dest[..], size);
  }

  /** ASM_SWAP16_2_X86 and its fellows: one word at a time */
  method PlainLoop(k: Kernel, src: array<bv32>, dest: array<bv32>, size: nat)
    requires 1 <= size <= src.Length && size <= dest.Length
    modifies dest
    ensures dest[..size] == AllShuffled(k, old(src[..size]))
    ensures dest[size..] == old(dest[size..])
  {
    hide Shuffled, PlainWord, DoneFrom, AllShuffled;
    ghost var was := src[..];
    assert was[..size] == src[..size];
    NoneDone(k, was, dest[..], size);
    var ecx: nat, more := size, true;
    while more
      invariant ecx <= size && (more <==> ecx > 0)
      invariant DoneFrom(k, was, src[..], dest[..], ecx, size)
      invariant dest[size..] == old(dest[size..])
      decreases ecx
    {
      WordsAgree(k, src[ecx - 1], MASK_DATA);
      StoreWord(k, PlainWord(k, src[ecx - 1]), ecx - 1, src, dest, size, was);
      ecx := ecx - 1;
      more := ecx != 0;
    }
    AllDone(k, was, src[..], dest[..], size);
  }
}
