/** Direct branches: `emit_rel` of the AArch64 and ARM targets, and the decoders' inline branch cases. */
module EmitRel {
  import opened Bits
  import opened Wrappers
  import opened ByteOrder
  import opened Immediates
  import opened PcRelative
  import ArmImmediates

  datatype Status = Ok | OutOfRange | OutputTooSmall

  /** What a decoder makes of a branch word. */
  datatype Branch = Branch(isCall: bool, target: u64)

  predicate FitsWords4(disp: int, limit: nat) {
    disp % 4 == 0 && -(limit as int) <= disp <= limit - 4
  }

  /** The low `n` bits of a signed quotient, as they go into a branch word. */
  function OffsetBits(offset: i64, n: nat): nat {
    And(offset % U32, Ones(n))
  }

  lemma OffsetBack(offset: i64, n: nat)
    requires 0 < n <= 32 && FitsSigned(offset, n)
    ensures OffsetBits(offset, n) < Pow2(n)
    ensures SignExtend(OffsetBits(offset, n), n) == offset
  {
    hide And, Low, Pow2, SignExtend;
    AndOnes(offset % U32, n);
    LowAtMost(offset % U32, n);
    ArmImmediates.LowOfWord(offset, n);
    SignExtendOfMod(offset, n);
  }

  lemma BranchPowers()
    ensures Pow2(10) == 0x400 && Pow2(11) == 0x800
    ensures Pow2(23) == 0x80_0000 && Pow2(24) == 0x100_0000 && Pow2(25) == 0x200_0000 && Pow2(26) == 0x400_0000
  {
    assert Pow2(10) == 0x400 && Pow2(11) == 0x800 && Pow2(12) == 0x1000 && Pow2(13) == 0x2000;
    Pow2Add(11, 12);
    Pow2Add(12, 12);
    Pow2Add(12, 13);
    Pow2Add(13, 13);
  }

  // ---- AArch64

  const A64_B: u32 := 0x1400_0000
  const A64_BL: u32 := 0x9400_0000

  function A64Word(isCall: bool, disp: i64): nat {
    Or(if isCall then A64_BL else A64_B, OffsetBits(disp / 4, 26))
  }

  function DecodeA64(word: nat, address: u64): Option<Branch> {
    var target := Wrap(address + SignExtend(And(word, 0x3ff_ffff), 26) * 4);
    if And(word, 0xfc00_0000) == A64_B then Some(Branch(false, target))
    else if And(word, 0xfc00_0000) == A64_BL then Some(Branch(true, target))
    else None
  }

  /** A word made of `high` above an `n`-bit field. */
  lemma HighAndField(high: nat, field: nat, n: nat)
    requires field < Pow2(n)
    ensures var w := Or(high * Pow2(n), field);
            w == high * Pow2(n) + field && And(w, Ones(n)) == field && Shr(w, n) == high
  {
    hide And, Or, Shl, Shr, Low, Pow2;
    Joined(field, high, n);
    ShlIsTimes(high, n);
    AndOnes(Or(high * Pow2(n), field), n);
  }

  lemma A64Fields(high: nat, field: nat)
    requires field < 0x400_0000 && high < 64
    ensures var w := Or(high * 0x400_0000, field);
            w < U32 && And(w, 0x3ff_ffff) == field && And(w, 0xfc00_0000) == high * 0x400_0000
  {
    BranchPowers();
    assert Pow2(6) == 64 && Ones(6) == 63;
    hide And, Or, Shl, Shr, Low, Pow2;
    HighAndField(high, field, 26);
    var w := Or(high * 0x400_0000, field);
    FieldAt(w, 26, 6);
    ShlIsTimes(63, 26);
    ShlIsTimes(high, 26);
    LowSmall(high, 6);
  }

  lemma A64RoundTrip(isCall: bool, address: u64, target: u64)
    requires FitsWords4(Distance(address, target), 0x800_0000)
    ensures var w := A64Word(isCall, Distance(address, target));
            w < U32 && DecodeA64(w, address) == Some(Branch(isCall, target))
  {
    BranchPowers();
    hide And, Or, SignExtend, Pow2;
    var disp := Distance(address, target);
    OffsetBack(disp / 4, 26);
    A64Fields(if isCall then 37 else 5, OffsetBits(disp / 4, 26));
    DistanceArrives(address, target);
  }

  /** `asmkit_gen_aarch64_emit_rel`. */
  method EmitA64(isCall: bool, address: u64, target: u64, code: array<u8>) returns (status: Status, size: nat)
    modifies code
    ensures size == 4
    ensures status == OutOfRange <==> !FitsWords4(Distance(address, target), 0x800_0000)
    ensures status == OutputTooSmall <==> FitsWords4(Distance(address, target), 0x800_0000) && code.Length < 4
    ensures status != Ok ==> code[..] == old(code[..])
    ensures status == Ok ==>
              && code.Length >= 4
              && DecodeA64(Load32(code[..4]), address) == Some(Branch(isCall, target))
              && code[4..] == old(code[4..])
  {
    var disp := Distance(address, target);
    hide DecodeA64, A64Word, Load32, Distance, Bytes32;
    size := 4;
    if !FitsWords4(disp, 0x800_0000) {
      return OutOfRange, 4;
    }
    if code.Length < 4 {
      return OutputTooSmall, 4;
    }
    A64RoundTrip(isCall, address, target);
    var word := A64Word(isCall, disp);
    FourBytes(word);
    Store32(code, 0, word);
    assert code[..4] == Bytes32(word);
    LoadOfBytes32(word);
    return Ok, 4;
  }

  lemma FourBytes(v: u32)
    ensures |Bytes32(v)| == 4
  {
  }

  // ---- A32

  const A32_B: u32 := 0xea00_0000
  const A32_BL: u32 := 0xeb00_0000

  function A32Word(isCall: bool, disp: i64): nat {
    Or(if isCall then A32_BL else A32_B, OffsetBits(disp / 4, 24))
  }

  /** The branch case of `arm_decode_a32`. */
  function DecodeA32(word: nat, address: u64): Option<Branch> {
    if Shr(word, 28) != 0x0f && And(word, 0x0e00_0000) == 0x0a00_0000 then
      Some(Branch(And(word, 0x0100_0000) != 0, Wrap(address + (SignExtend(And(word, 0xff_ffff), 24) * 4 + 8))))
    else None
  }

  lemma A32Fields(high: nat, field: nat)
    requires field < 0x100_0000 && (high == 0xea || high == 0xeb)
    ensures var w := Or(high * 0x100_0000, field);
            && w < U32
            && And(w, 0xff_ffff) == field
            && Shr(w, 28) == 0x0e
            && And(w, 0x0e00_0000) == 0x0a00_0000
            && (And(w, 0x0100_0000) != 0 <==> high == 0xeb)
  {
    BranchPowers();
    hide And, Or, Shl, Pow2;
    HighAndField(high, field, 24);
    var w := Or(high * 0x100_0000, field);
    A32HighBits(w, high);
    assert Shr(0xea, 4) == 0x0e && Shr(0xeb, 4) == 0x0e;
    hide Shr;
    ShrShr(w, 24, 4);
  }

  lemma A32HighByte(high: nat)
    requires high == 0xea || high == 0xeb
    ensures Shr(high, 1) == 0x75 && Low(0x75, 3) == 5 && Ones(3) == 7 && (Bit(high, 0) <==> high == 0xeb)
  {
  }

  lemma A32HighBits(w: nat, high: nat)
    requires Shr(w, 24) == high && (high == 0xea || high == 0xeb)
    ensures And(w, 0x0e00_0000) == 0x0a00_0000
    ensures And(w, 0x0100_0000) != 0 <==> high == 0xeb
  {
    hide And, Shl, Low, Shr, Bit, Pow2, Ones;
    BranchPowers();
    A32HighByte(high);
    ShrShr(w, 24, 1);
    FieldAt(w, 25, 3);
    ShlIsTimes(7, 25);
    ShlIsTimes(5, 25);
    TestPow2(w, 24);
    BitShr(w, 24, 0);
  }

  lemma A32RoundTrip(isCall: bool, address: u64, target: u64)
    requires FitsWords4(Distance(Wrap(address + 8), target), 0x200_0000)
    ensures var w := A32Word(isCall, Distance(Wrap(address + 8), target));
            w < U32 && DecodeA32(w, address) == Some(Branch(isCall, target))
  {
    BranchPowers();
    hide And, Or, SignExtend, Shr, Pow2, Wrap, Distance;
    var disp := Distance(Wrap(address + 8), target);
    WrapTwice(address, 8, disp);
    OffsetBack(disp / 4, 24);
    A32Fields(if isCall then 0xeb else 0xea, OffsetBits(disp / 4, 24));
    DistanceArrives(Wrap(address + 8), target);
  }

  /** `asmkit_gen_arm_emit_rel` in A32 mode. */
  method EmitA32(isCall: bool, address: u64, target: u64, code: array<u8>) returns (status: Status, size: nat)
    modifies code
    ensures size == 4
    ensures status == OutOfRange <==> !FitsWords4(Distance(Wrap(address + 8), target), 0x200_0000)
    ensures status == OutputTooSmall <==> FitsWords4(Distance(Wrap(address + 8), target), 0x200_0000) && code.Length < 4
    ensures status != Ok ==> code[..] == old(code[..])
    ensures status == Ok ==>
              && code.Length >= 4
              && DecodeA32(Load32(code[..4]), address) == Some(Branch(isCall, target))
              && code[4..] == old(code[4..])
  {
    var disp := Distance(Wrap(address + 8), target);
    hide DecodeA32, A32Word, Load32, Distance, Bytes32;
    size := 4;
    if !FitsWords4(disp, 0x200_0000) {
      return OutOfRange, 4;
    }
    if code.Length < 4 {
      return OutputTooSmall, 4;
    }
    A32RoundTrip(isCall, address, target);
    var word := A32Word(isCall, disp);
    FourBytes(word);
    Store32(code, 0, word);
    assert code[..4] == Bytes32(word);
    LoadOfBytes32(word);
    return Ok, 4;
  }

  // ---- Thumb

  predicate FitsThumb(disp: int) {
    disp % 2 == 0 && -2048 <= disp <= 2046
  }

  function ThumbHalf(disp: i64): nat {
    Or(0xe000, And(disp / 2 % 0x1_0000, 0x7ff))
  }

  /** The unconditional branch case of `arm_decode_thumb`, after its IT case. */
  function DecodeThumb(half: nat, address: u64): Option<Branch> {
    if And(half, 0xff00) == 0xbf00 && And(half, 0x000f) != 0 then None
    else if And(half, 0xf800) == 0xe000 then
      Some(Branch(false, Wrap(address + (SignExtend(And(half, 0x7ff), 11) * 2 + 4))))
    else None
  }

  lemma ThumbOffset(half: int)
    requires -1024 <= half < 1024
    ensures And(half % 0x1_0000, 0x7ff) < 0x800
    ensures SignExtend(And(half % 0x1_0000, 0x7ff), 11) == half
  {
    BranchPowers();
    assert Ones(11) == 0x7ff;
    hide And, Low, Pow2, SignExtend, Ones;
    AndOnes(half % 0x1_0000, 11);
    LowIsMod(half % 0x1_0000, 11);
    ElevenBits(half);
    SignExtendOfMod(half, 11);
  }

  lemma ElevenBits(x: int)
    requires -1024 <= x < 1024
    ensures 0 <= x % 0x1_0000 % 0x800 == x % 0x800 < 0x800
  {
  }

  lemma ThumbFields(field: nat)
    requires field < 0x800
    ensures var h := Or(0xe000, field);
            && h < 0x1_0000
            && And(h, 0x7ff) == field
            && And(h, 0xf800) == 0xe000
            && And(h, 0xff00) != 0xbf00
  {
    BranchPowers();
    assert Ones(5) == 31 && Pow2(5) == 32 && Pow2(8) == 256 && Ones(8) == 255 && Ones(11) == 0x7ff;
    hide And, Or, Shl, Shr, Low, Pow2;
    HighAndField(28, field, 11);
    var h := Or(0xe000, field);
    FieldAt(h, 11, 5);
    ShlIsTimes(31, 11);
    ShlIsTimes(28, 11);
    LowSmall(28, 5);
    TopByte(h);
  }

  lemma TopByte(h: nat)
    requires Shr(h, 11) == 28
    ensures And(h, 0xff00) != 0xbf00
  {
    assert Ones(8) == 255 && Pow2(8) == 256;
    assert Bit(28, 3) && !Bit(0xbf, 6);
    hide And, Shl, Low, Pow2, Shr, Bit;
    FieldAt(h, 8, 8);
    ShrShr(h, 8, 3);
    BitShr(Shr(h, 8), 3, 3);
    BitLow(Shr(h, 8), 8, 6);
    ShlIsTimes(Low(Shr(h, 8), 8), 8);
  }

  lemma ThumbRoundTrip(address: u64, target: u64)
    requires FitsThumb(Distance(Wrap(address + 4), target))
    ensures var h := ThumbHalf(Distance(Wrap(address + 4), target));
            h < 0x1_0000 && DecodeThumb(h, address) == Some(Branch(false, target))
  {
    hide And, Or, SignExtend, Wrap, Distance;
    var disp := Distance(Wrap(address + 4), target);
    WrapTwice(address, 4, disp);
    ThumbOffset(disp / 2);
    ThumbFields(And(disp / 2 % 0x1_0000, 0x7ff));
    DistanceArrives(Wrap(address + 4), target);
  }

  /** `asmkit_gen_arm_emit_rel` in Thumb mode, which has no two-byte call. */
  method EmitThumb(isCall: bool, address: u64, target: u64, code: array<u8>) returns (status: Status, size: nat)
    modifies code
    ensures size == if isCall then 0 else 2
    ensures status == OutOfRange <==> isCall || !FitsThumb(Distance(Wrap(address + 4), target))
    ensures status == OutputTooSmall <==> !isCall && FitsThumb(Distance(Wrap(address + 4), target)) && code.Length < 2
    ensures status != Ok ==> code[..] == old(code[..])
    ensures status == Ok ==>
              && code.Length >= 2
              && DecodeThumb(Load16(code[..2]), address) == Some(Branch(false, target))
              && code[2..] == old(code[2..])
  {
    var disp := Distance(Wrap(address + 4), target);
    hide DecodeThumb, ThumbHalf, Load16, Distance, Byte;
    if isCall {
      return OutOfRange, 0;
    }
    size := 2;
    if !FitsThumb(disp) {
      return OutOfRange, 2;
    }
    if code.Length < 2 {
      return OutputTooSmall, 2;
    }
    ThumbRoundTrip(address, target);
    var half := ThumbHalf(disp);
    Store16(code, 0, half);
    assert code[..2] == Bytes16(half);
    LoadOfBytes16(half);
    return Ok, 2;
  }
}
