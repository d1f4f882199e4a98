/** What the ARM encoder makes of immediates and PC-relative operands that the decoder read. */
module ArmTakenBack {
  import opened Bits
  import opened Wrappers
  import opened Immediates
  import opened PcRelative
  import opened ArmDescs
  import opened ArmImmediates
  import opened ArmModifiedImm
  import opened ArmPcRel
  import opened BranchBits
  import Rotation

  // ---- displacements

  /** The magnitude and sign that an A32 ADR field stands for. */
  predicate AdrNegative(v: nat) {
    And(v, 0x1000) != 0
  }

  /** The displacement fields that are taken back: those that the encoder has the width for, and for A32 ADR those that
      are signed 32-bit numbers. */
  predicate DispTaken(v: nat, d: Desc) {
    var m := And(v, d.sourceMask);
    match d.transform
    case PcRelA32Words4 => d.sourceMask < 0x8000_0000
    case PcRelA32Words2 => d.sourceMask < 0x8000_0000
    case PcRelThumbWords2 => d.sourceMask < 0x8000_0000
    case PcRelArmAdr => ModImmValue(m) <= (if AdrNegative(m) then 0x8000_0000 else 0x7fff_ffff)
    case _ => true
  }

  /** The bits of the field that are given back. */
  function DispAgain(v: nat, d: Desc): nat {
    var m := And(v, d.sourceMask);
    match d.transform
    case PcRelThumbAdr => And(m, 0xff)
    case PcRelT2Adr => And(m, 0x1fff)
    case _ => m
  }

  lemma NarrowMask(mask: u32)
    requires mask != 0
    ensures SourceWidth(mask) <= 31 <==> mask < 0x8000_0000
    ensures 0 < SourceWidth(mask) <= 32 && mask < Pow2(SourceWidth(mask))
  {
    WordSizes();
    assert Pow2(31) == 0x8000_0000 by { DoublePow2(31); }
    hide Pow2, SourceWidth;
    SourceWidthBounds(mask);
    WidthOfWord(mask);
    if SourceWidth(mask) <= 31 {
      Pow2Monotone(SourceWidth(mask), 31);
    } else {
      Pow2Monotone(31, SourceWidth(mask) - 1);
    }
  }

  /** A signed field is taken back whole. */
  lemma SignedTaken(v: nat, mask: u32)
    requires mask != 0
    ensures SourceWidth(mask) > 0
    ensures var imm := SignExtend(And(v, mask), SourceWidth(mask));
            && -0x8000_0000 <= imm < 0x8000_0000
            && RawSignedMasked(imm, mask) == if mask < 0x8000_0000 then Some(And(v, mask)) else None
  {
    hide And, Low, Pow2, SignExtend, SourceWidth;
    var w := SourceWidth(mask);
    NarrowMask(mask);
    SignedRange(v, mask);
    MaskedLow(v, mask, w);
    SignExtendRange(And(v, mask), w);
    var imm := SignExtend(And(v, mask), w);
    LowOfWord(imm, w);
    MaskedLow(imm % U32, mask, w);
    MaskedTwice(v, mask);
  }

  lemma MaskedTwice(v: nat, mask: nat)
    ensures And(And(v, mask), mask) == And(v, mask)
    ensures AndNot(And(v, mask), mask) == 0
  {
    hide Bit, And, AndNot;
    var m := And(v, mask);
    AndBits(v, mask);
    AndBits(m, mask);
    AndNotBits(m, mask);
    SameBits(And(m, mask), m);
    forall i: nat { BitZero(i); }
    SameBits(AndNot(m, mask), 0);
  }

  /** A part of what is inside a mask is inside it. */
  lemma PartInside(v: nat, mask: nat, part: nat)
    ensures AndNot(And(And(v, mask), part), mask) == 0
    ensures And(And(v, mask), part) < U32 || mask >= U32
  {
    hide Bit, And, AndNot;
    var m := And(And(v, mask), part);
    AndBits(v, mask);
    AndBits(And(v, mask), part);
    AndNotBits(m, mask);
    forall i: nat { BitZero(i); }
    SameBits(AndNot(m, mask), 0);
    AndAtMost(And(v, mask), part);
    AndAtMost(v, mask);
    LessThan(v, mask, part);
  }

  lemma LessThan(v: nat, mask: nat, part: nat)
    ensures And(And(v, mask), part) <= And(v, mask) <= mask
  {
    hide And;
    AndCommutes(And(v, mask), part);
    AndAtMost(part, And(v, mask));
    AndAtMost(v, mask);
  }

  lemma AndCommutes(a: nat, b: nat)
    ensures And(a, b) == And(b, a)
  {
    hide Bit, And;
    AndBits(a, b);
    AndBits(b, a);
    SameBits(And(a, b), And(b, a));
  }

  /** The encoder takes a decoded displacement back exactly for the fields that `DispTaken` names. */
  ghost predicate IsDispTaken(v: nat, d: Desc)
    requires FieldDisp(v, d).Some?
  {
    var disp := FieldDisp(v, d).value;
    -0x4_0000_0000 <= disp <= 0x4_0000_0000
    && (!d.transform.PcRelArmAdr? ==> DispField(disp, d) == if DispTaken(v, d) then Some(DispAgain(v, d)) else None)
  }

  lemma WordsTaken(v: nat, d: Desc)
    requires d.sourceMask != 0 && (d.transform.PcRelA32Words4? || d.transform.PcRelA32Words2? || d.transform.PcRelThumbWords2?)
    ensures FieldDisp(v, d).Some? && IsDispTaken(v, d)
  {
    hide And, SignExtend, SourceWidth, RawSignedMasked;
    SignedTaken(v, d.sourceMask);
  }

  lemma MaskBelow(v: nat, mask: u32)
    ensures And(v, mask) <= mask
    ensures AndNot(And(v, mask), mask) == 0
  {
    AndAtMost(v, mask);
    MaskedTwice(v, mask);
  }

  lemma UnsignedTaken(v: nat, d: Desc)
    requires d.sourceMask != 0 && (d.transform.PcRelThumbCb? || d.transform.PcRelThumbAdr?)
    ensures FieldDisp(v, d).Some? && IsDispTaken(v, d)
  {
    hide And, AndNot;
    MaskBelow(v, d.sourceMask);
    PartInside(v, d.sourceMask, 0xff);
    AndAtMost(And(v, d.sourceMask), 0xff);
  }

  /** A twelve-bit magnitude and its tag. */
  lemma TagAndLow(m: nat)
    ensures And(m, 0xfff) <= 0xfff
    ensures And(m, 0x1fff) == if And(m, 0x1000) != 0 then Or(And(m, 0xfff), 0x1000) else And(m, 0xfff)
  {
    assert Pow2(12) == 0x1000 && Ones(12) == 0xfff && Ones(13) == 0x1fff && Pow2(13) == 0x2000;
    hide Bit, And, Or, Pow2, Ones;
    AndAtMost(m, 0xfff);
    TestPow2(m, 12);
    AndBits(m, 0xfff);
    AndBits(m, 0x1fff);
    OnesBits(12);
    OnesBits(13);
    Pow2Bits(12);
    OrBits(And(m, 0xfff), 0x1000);
    SameBits(And(m, 0x1fff), if And(m, 0x1000) != 0 then Or(And(m, 0xfff), 0x1000) else And(m, 0xfff));
  }

  lemma TaggedTaken(v: nat, d: Desc)
    requires FieldDisp(v, d).Some? && (d.transform.PcRelT2Adr? || d.transform.PcRelT2LdrLabel?)
    ensures IsDispTaken(v, d)
  {
    hide And, AndNot, Or;
    var m := And(v, d.sourceMask);
    TagAndLow(m);
    MaskBelow(v, d.sourceMask);
    PartInside(v, d.sourceMask, 0x1fff);
    if d.transform.PcRelT2LdrLabel? { MaskedTwice(v, 0x1fff); }
  }

  lemma BranchTaken(v: nat, d: Desc)
    requires BranchMask(d.sourceMask) && (d.transform.PcRelThumbT2B? || d.transform.PcRelThumbT2Blx?)
    ensures FieldDisp(v, d).Some? && IsDispTaken(v, d)
  {
    BranchSizes();
    hide And, Pow2, SignExtend, StoreJ, LoadJ;
    var m := And(v, d.sourceMask);
    MaskedLow(v, d.sourceMask, 24);
    BranchRange(v, d.sourceMask);
    LoadOfStore(m);
    StoreJFits(m);
    SignExtendRange(LoadJ(m), 24);
    LoadOfStore(LoadJ(m));
    MaskedTwice(v, d.sourceMask);
  }

  lemma BccTaken(v: nat, d: Desc)
    requires d.sourceMask == 0x1f_fffe && d.transform.PcRelThumbT2Bcc?
    ensures FieldDisp(v, d).Some? && IsDispTaken(v, d)
  {
    BranchSizes();
    hide And, Low, Pow2, SignExtend;
    var mask := d.sourceMask;
    var m := And(v, mask);
    MaskedLow(v, mask, 21);
    AndAtMost(v, mask);
    BccRange(m);
    SignExtendRange(m, 21);
    var disp := SignExtend(m, 21);
    LowOfWord(disp, 21);
    MaskedLow(disp % U32, mask, 21);
    EvenField(v);
    EvenDigits(disp, m);
  }

  lemma EvenField(v: nat)
    ensures And(v, 0x1f_fffe) % 2 == 0
  {
  }

  lemma EvenDigits(disp: int, m: nat)
    requires disp % 0x20_0000 == m && m % 2 == 0
    ensures disp % 2 == 0
  {
    var q := disp / 0x20_0000;
    EvenSum(0x10_0000 * q, m);
  }

  lemma EvenSum(half: int, m: nat)
    requires m % 2 == 0
    ensures (2 * half + m) % 2 == 0
  {
  }

  /** What an A32 ADR field comes back as: the least rotation, a subtracted zero as an added one, and the least 32-bit
      number as the field of zero. */
  function AdrAgain(v: nat): nat {
    var m := And(v, 0x3fff);
    var magnitude := ModImmValue(m);
    if ModImm(magnitude, 0xfff).None? then 0
    else if !AdrNegative(m) || magnitude == 0 then Or(0x2000, ModImm(magnitude, 0xfff).value)
    else if magnitude == 0x8000_0000 then 0x1000
    else Or(0x1000, ModImm(magnitude, 0xfff).value)
  }

  lemma RotationTaken(m: nat)
    ensures ModImmValue(m) < U32 && ModImm(ModImmValue(m), 0xfff).Some?
  {
    hide ModImmValue, ModImm, Low, AndNot, And;
    ModImmIsWord(m);
    ModImmOfLow(m);
    InTwelve(m);
    ModImmMeaning(ModImmValue(m), 0xfff);
    assert Encodes(Low(m, 12), ModImmValue(m), 0xfff);
  }

  lemma InTwelve(m: nat)
    ensures AndNot(Low(m, 12), 0xfff) == 0
  {
    WordSizes();
    assert Ones(12) == 0xfff;
    hide Low, AndNot, Pow2, Ones;
    LowAtMost(m, 12);
    InOnes(Low(m, 12), 12);
  }

  lemma AdrTaken(v: nat, d: Desc)
    requires d.transform.PcRelArmAdr? && FieldDisp(v, d).Some?
    ensures IsDispTaken(v, d)
    ensures DispField(FieldDisp(v, d).value, d) == if DispTaken(v, d) then Some(AdrAgain(v)) else None
  {
    hide And, Or, ModImmValue, ModImm;
    RotationTaken(And(v, 0x3fff));
  }

  /** A displacement that the decoder read is taken back exactly for the fields that `DispTaken` names, and is given the
      field that `DispAgain` or, for A32 ADR, `AdrAgain` says. */
  lemma DecodedDisp(v: nat, d: Desc)
    requires FieldDisp(v, d).Some?
    ensures IsDispTaken(v, d)
    ensures d.transform.PcRelArmAdr? ==> DispField(FieldDisp(v, d).value, d) == if DispTaken(v, d) then Some(AdrAgain(v)) else None
  {
    ReadsDisp(v, d);
    hide FieldDisp, DispField, DispTaken, DispAgain, AdrAgain, IsDispTaken;
    match d.transform
    case PcRelA32Words4 => WordsTaken(v, d);
    case PcRelA32Words2 => WordsTaken(v, d);
    case PcRelThumbWords2 => WordsTaken(v, d);
    case PcRelThumbCb => UnsignedTaken(v, d);
    case PcRelThumbAdr => UnsignedTaken(v, d);
    case PcRelT2Adr => TaggedTaken(v, d);
    case PcRelT2LdrLabel => TaggedTaken(v, d);
    case PcRelThumbT2B => BranchTaken(v, d);
    case PcRelThumbT2Blx => BranchTaken(v, d);
    case PcRelThumbT2Bcc => BccTaken(v, d);
    case PcRelArmAdr => AdrTaken(v, d);
  }

  /** The descriptors that a displacement can be read through. */
  lemma ReadsDisp(v: nat, d: Desc)
    requires FieldDisp(v, d).Some?
    ensures d.sourceMask != 0
    ensures d.transform.PcRelThumbT2B? || d.transform.PcRelThumbT2Blx? ==> BranchMask(d.sourceMask)
    ensures d.transform.PcRelThumbT2Bcc? ==> d.sourceMask == 0x1f_fffe
    ensures d.transform.PcRelA32Words4? || d.transform.PcRelA32Words2? || d.transform.PcRelThumbWords2?
            || d.transform.PcRelThumbCb? || d.transform.PcRelThumbAdr? || d.transform.PcRelT2Adr? || d.transform.PcRelT2LdrLabel?
            || d.transform.PcRelThumbT2B? || d.transform.PcRelThumbT2Blx? || d.transform.PcRelThumbT2Bcc? || d.transform.PcRelArmAdr?
  {
    hide And, SignExtend, LoadJ, ModImmValue;
  }

  /** The operand stands for its target.  It does not if the target is address 0 and the displacement is counted from an
      aligned program counter: an operand without an absolute target is taken for a displacement from the instruction. */
  predicate KeepsTarget(address: u64, o: Target, t: Transform) {
    o.absTarget != 0 || o.imm == 0 || Origin(address, t) == address
  }

  /** A decoded operand stands for the target that it has exactly when `KeepsTarget` holds, and then its displacement is
      encoded again. */
  lemma DecodedTarget(address: u64, v: nat, d: Desc)
    requires DecodePcRel(address, v, d).Some?
    ensures FieldDisp(v, d).Some? && -0x4_0000_0000 <= FieldDisp(v, d).value <= 0x4_0000_0000
    ensures var back := DecodePcRel(address, v, d).value;
            && (TargetOf(address, back) == back.absTarget <==> KeepsTarget(address, back, d.transform))
            && (KeepsTarget(address, back, d.transform) ==>
                  EncodePcRel(address, back, d) == DispField(FieldDisp(v, d).value, d))
  {
    hide FieldDisp, DispField, DispTaken, Wrap, Distance, Base, AlignDown, Origin;
    var back, disp := DecodePcRel(address, v, d).value, FieldDisp(v, d).value;
    DecodedDisp(v, d);
    TargetOrigin(address, v, d);
    DistanceUnique(Base(address, d.transform), disp);
    if !KeepsTarget(address, back, d.transform) { ElsewhereFromZero(address, Origin(address, d.transform), back.imm); }
    if Origin(address, d.transform) == address { assert Wrap(address + back.imm) == back.absTarget; }
  }

  lemma OriginAhead(address: u64, t: Transform) returns (c: nat)
    requires Origin(address, t) != address
    ensures 1 <= c <= 4 && Origin(address, t) == Wrap(address + c) == Base(address, t)
  {
    hide AlignDown, Wrap;
    c := 4 - address % 4;
    AlignedAhead(address);
  }

  lemma AlignedAhead(address: u64)
    ensures AlignDown(Wrap(address + 4), 4) == Wrap(address + (4 - address % 4))
  {
    var a := Wrap(address + 4);
    assert a % 4 == address % 4;
    assert AlignDown(a, 4) == a - a % 4;
  }

  /** The displacement that the encoder takes the operand for is less than the one that was read. */
  lemma LessByStep(address: u64, c: nat, disp: int)
    requires 1 <= c <= 4 && -0x4_0000_0000 <= disp <= 0x4_0000_0000
    ensures Distance(Wrap(address + c), Wrap(address + disp)) == disp - c
  {
    hide Wrap, Distance;
    assert (disp - c) + c == disp;
    WrapTwice(address, c, disp - c);
    DistanceUnique(Wrap(address + c), disp - c);
  }

  /** A lesser displacement has another field. */
  lemma OtherField(disp: i64, less: i64, v: nat, d: Desc)
    requires FieldDisp(v, d) == Some(disp) && less < disp
    requires d.transform.PcRelThumbAdr? || d.transform.PcRelT2Adr? || d.transform.PcRelThumbT2Blx? || d.transform.PcRelT2LdrLabel?
    ensures DispField(less, d) != Some(v)
  {
    ReadsDisp(v, d);
    if DispField(less, d) == Some(v) {
      MaskedRoundTrip(less, d);
      if d.transform.PcRelThumbAdr? {
        AdrReadsLess(less, v, d);
      } else if d.transform.PcRelThumbT2Blx? {
        BlxReadsLess(less, d);
      }
    }
  }

  lemma AdrReadsLess(disp: i64, v: nat, d: Desc)
    requires d.transform.PcRelThumbAdr? && DispField(disp, d) == Some(v) && FieldDisp(v, d).Some?
    ensures FieldDisp(v, d).value <= disp
  {
    hide And, AndNot;
    LessThan(v, d.sourceMask, 0xff);
    AndCommutes(v, d.sourceMask);
    AndAtMost(d.sourceMask, v);
  }

  lemma BlxReadsLess(disp: i64, d: Desc)
    requires d.transform.PcRelThumbT2Blx? && DispField(disp, d).Some? && FieldDisp(DispField(disp, d).value, d).Some?
    ensures FieldDisp(DispField(disp, d).value, d).value <= disp
  {
    BranchSizes();
    hide And, StoreJ, LoadJ, Pow2, SignExtend;
    BranchStored(disp, d.sourceMask);
    SignExtendOfMod(disp / 2, 24);
    if d.sourceMask != 0xff_ffff && disp % 4 != 0 { OddOffset(disp / 2); }
  }

  /** And otherwise another field. */
  lemma OtherTarget(address: u64, v: nat, d: Desc)
    requires DecodePcRel(address, v, d).Some? && !KeepsTarget(address, DecodePcRel(address, v, d).value, d.transform)
    ensures EncodePcRel(address, DecodePcRel(address, v, d).value, d) != Some(v)
  {
    hide FieldDisp, DispField, Wrap, Distance, Base, AlignDown;
    var back, disp := DecodePcRel(address, v, d).value, FieldDisp(v, d).value;
    DecodedDisp(v, d);
    var c := OriginAhead(address, d.transform);
    LessByStep(address, c, back.imm);
    OtherField(disp, disp - c, v, d);
  }

  lemma ElsewhereFromZero(address: u64, origin: u64, imm: int)
    requires Wrap(origin + imm) == 0 && origin != address
    ensures Wrap(address + imm) != 0
  {
    var k := (origin + imm) / U64;
    assert origin + imm == U64 * k;
    assert address + imm == U64 * k + (address - origin);
    SmallShift(k, address - origin);
  }

  lemma SmallShift(k: int, delta: int)
    requires -(U64 as int) < delta < U64 && delta != 0
    ensures Wrap(U64 * k + delta) != 0
  {
    if delta > 0 { assert (U64 * k + delta) % U64 == delta; } else { assert (U64 * k + delta) % U64 == delta + U64; }
  }

  /** A literal load at address 2 that reads address 0, four bytes before its aligned program counter, is encoded again
      as another load. */
  lemma ZeroTargetCounterexample(address: u64, v: nat, d: Desc)
    requires address == 2 && d.transform.PcRelT2LdrLabel? && d.sourceMask == 0x1fff && v == 4
    ensures DecodePcRel(address, v, d).Some? && DecodePcRel(address, v, d).value.absTarget == 0
    ensures EncodePcRel(address, DecodePcRel(address, v, d).value, d) == Some(6)
  {
    hide FieldDisp, DispField, AlignDown, Wrap, Distance, And;
    AlignedPc(address);
    FourBack(v, d);
    TwoBelow(address, Base(address, d.transform), -4);
    MinusSix(-6, d);
  }

  lemma FourBack(v: nat, d: Desc)
    requires d.transform.PcRelT2LdrLabel? && d.sourceMask == 0x1fff && v == 4
    ensures FieldDisp(v, d) == Some(-4)
  {
    hide And;
    SmallFields(v);
  }

  lemma TwoBelow(address: u64, base: u64, imm: int)
    requires address == 2 && base == 4 && imm == -4
    ensures Wrap(base + imm) == 0 && Distance(base, Wrap(address + imm)) == -6
  {
  }

  lemma MinusSix(disp: i64, d: Desc)
    requires disp == -6 && d.transform.PcRelT2LdrLabel? && d.sourceMask == 0x1fff
    ensures DispField(disp, d) == Some(6)
  {
    InThirteen(6);
    hide AndNot;
  }

  lemma AlignedPc(address: u64)
    requires address == 2
    ensures AlignDown(Wrap(address + 4), 4) == 4
  {
  }

  lemma SmallFields(v: nat)
    requires v == 4
    ensures And(v, 0x1fff) == 4 && And(v, 0x1000) == 0 && And(v, 0xfff) == 4
  {
    assert Pow2(12) == 0x1000 && Ones(12) == 0xfff && Ones(13) == 0x1fff && Pow2(13) == 0x2000 && !Bit(4, 12);
    hide And, Low, Pow2, Ones, Bit;
    AndOnes(v, 12);
    AndOnes(v, 13);
    LowSmall(v, 12);
    LowSmall(v, 13);
    TestPow2(v, 12);
  }

  lemma InThirteen(v: nat)
    requires v < 0x1000
    ensures AndNot(v, 0x1fff) == 0
  {
    assert Pow2(12) == 0x1000 && Pow2(13) == 0x2000 && Ones(13) == 0x1fff;
    hide AndNot, Pow2, Ones;
    InOnes(v, 13);
  }

  // ---- immediates

  /** The bits of an offset with an add bit `2^n`, which is set for zero. */
  function OffsetAgain(m: nat, n: nat): nat {
    if And(m, Ones(n)) == 0 then Pow2(n) else And(m, Ones(n + 1))
  }

  /** The offset is given back inside the mask. */
  predicate OffsetTaken(m: nat, n: nat, mask: u32) {
    And(m, Ones(n)) != 0 || Bit(mask, n)
  }

  /** The immediate fields that are taken back.  `lsb` is the number that a bit-field width counts from. */
  ghost predicate ImmTaken(v: nat, lsb: nat, d: Desc) {
    var mask := d.sourceMask;
    var m := And(v, mask);
    match d.transform
    case RawSignedField => mask < 0x8000_0000
    case NeonVcvtImm32 => 32 <= m <= 63
    case VecShiftRight => ValidLane(mask)
    case PostIdxImm8 => OffsetTaken(m, 8, mask)
    case PostIdxImm8s4 => OffsetTaken(m, 8, mask)
    case Am2OffsetImm => mask == 0x1fff
    case MveSaturateOp => mask == 1
    case ComplexRotate => m <= 3
    case BfInvMaskWidth => Shr(m, 5) <= 31
    case T2SoImmediate => mask == 0xfff && !IsOddPairs(T2SoValue(m))
    case _ => true
  }

  /** The field that is given back. */
  function ImmAgain(v: nat, d: Desc): nat {
    var mask := d.sourceMask;
    var m := And(v, mask);
    match d.transform
    case ImmFixedLiteral => 0
    case PostIdxImm8 => OffsetAgain(m, 8)
    case PostIdxImm8s4 => OffsetAgain(m, 8)
    case Am2OffsetImm => OffsetAgain(m, 12)
    case ComplexRotateOdd => And(m, 1)
    case BfInvMaskWidth => Shl(Shr(m, 5), 5)
    case ModifiedImm => if ModImm(ModImmValue(m), mask).Some? then ModImm(ModImmValue(m), mask).value else 0
    case T2SoImmediate => if T2SoImm(T2SoValue(m), mask).Some? then T2SoImm(T2SoValue(m), mask).value else 0
    case _ => m
  }

  /** The operands that the decoder makes immediates of. */
  predicate IsImmediate(t: Transform) {
    t.RawUnsignedField? || t.RawSignedField? || t.ModifiedImm? || t.T2SoImmediate? || t.NeonVcvtImm32? || t.VecShiftRight?
    || t.ImmFixedLiteral? || t.ImmPlusOne? || t.PostIdxImm8? || t.PostIdxImm8s4? || t.ImmScale4? || t.Am2OffsetImm?
    || t.MveSaturateOp? || t.ComplexRotate? || t.ComplexRotateOdd? || t.BfInvMaskWidth?
  }

  ghost predicate IsImmTaken(v: nat, imm: int, lsb: nat, d: Desc) {
    -0x1_0000_0000_0000 <= imm <= 0x1_0000_0000_0000
    && EncodeImm(imm, Some(lsb), d) == if ImmTaken(v, lsb, d) then Some(ImmAgain(v, d)) else None
  }

  /** One more low bit. */
  lemma OneMoreLow(m: nat, n: nat)
    ensures And(m, Ones(n + 1)) == if And(m, Pow2(n)) != 0 then Or(And(m, Ones(n)), Pow2(n)) else And(m, Ones(n))
    ensures And(m, Ones(n)) < Pow2(n)
  {
    hide Bit, And, Or, Pow2, Ones, Low;
    AndOnes(m, n);
    LowAtMost(m, n);
    TestPow2(m, n);
    AndBits(m, Ones(n));
    AndBits(m, Ones(n + 1));
    OnesBits(n);
    OnesBits(n + 1);
    Pow2Bits(n);
    OrBits(And(m, Ones(n)), Pow2(n));
    SameBits(And(m, Ones(n + 1)), if And(m, Pow2(n)) != 0 then Or(And(m, Ones(n)), Pow2(n)) else And(m, Ones(n)));
  }

  /** The field of an offset that was read. */
  lemma OffsetReadBack(m: nat, n: nat)
    ensures var disp := OffsetValue(m, n);
            && -(Pow2(n) as int) < disp < Pow2(n)
            && OffsetField(disp, n) == OffsetAgain(m, n)
  {
    hide And, Or, Pow2, Ones;
    OneMoreLow(m, n);
    ZeroOrPower(n);
  }

  lemma ZeroOrPower(n: nat)
    ensures Or(0, Pow2(n)) == Pow2(n)
  {
    hide Pow2;
  }

  lemma OffsetFits(v: nat, n: nat, mask: u32)
    ensures var m := And(v, mask); InMask(OffsetAgain(m, n), mask) == if OffsetTaken(m, n, mask) then Some(OffsetAgain(m, n)) else None
  {
    hide Bit, And, AndNot, Pow2, Ones;
    var m := And(v, mask);
    PartInside(v, mask, Ones(n + 1));
    AndNotBits(Pow2(n), mask);
    Pow2Bits(n);
    forall i: nat { BitZero(i); }
    if And(m, Ones(n)) == 0 {
      if Bit(mask, n) { SameBits(AndNot(Pow2(n), mask), 0); } else { assert Bit(AndNot(Pow2(n), mask), n); }
    }
  }

  lemma OffsetImmTaken(v: nat, lsb: nat, d: Desc)
    requires HasAddBit(d.transform)
    ensures IsImmTaken(v, ImmValue(v, d), lsb, d)
  {
    WordSizes();
    hide And, Or, Ones, Bit, OffsetValue, OffsetField, OffsetAgain, OffsetTaken, InMask, Pow2;
    var m := And(v, d.sourceMask);
    var n := if d.transform.Am2OffsetImm? then 12 else 8;
    OffsetReadBack(m, n);
    OffsetFits(v, n, d.sourceMask);
    if d.transform.Am2OffsetImm? && d.sourceMask == 0x1fff { TwelveTaken(m); }
  }

  lemma TwelveTaken(m: nat)
    ensures OffsetTaken(m, 12, 0x1fff)
  {
    assert Bit(0x1fff, 12);
    hide And, Bit, Ones;
  }

  lemma SignedImmTaken(v: nat, lsb: nat, d: Desc)
    requires d.transform.RawSignedField?
    ensures IsImmTaken(v, ImmValue(v, d), lsb, d)
  {
    hide And, SignExtend, SourceWidth, RawSignedMasked;
    if d.sourceMask == 0 {
      AndZero(v);
      ZeroMask();
    } else {
      SignedTaken(v, d.sourceMask);
    }
  }

  lemma ZeroMask()
    ensures RawSignedMasked(0, 0) == Some(0)
  {
  }

  lemma ModifiedImmTaken(v: nat, lsb: nat, d: Desc)
    requires d.transform.ModifiedImm?
    ensures IsImmTaken(v, ImmValue(v, d), lsb, d)
  {
    hide And, AndNot, Low, ModImm, ModImmValue;
    var mask := d.sourceMask;
    var m := And(v, mask);
    MaskedTwice(v, mask);
    ModImmIsWord(m);
    ModImmMeaning(ModImmValue(m), mask);
    assert Encodes(m, ModImmValue(m), mask);
  }

  lemma T2ImmTaken(v: nat, lsb: nat, d: Desc)
    requires d.transform.T2SoImmediate?
    ensures IsImmTaken(v, ImmValue(v, d), lsb, d)
  {
    hide And, T2SoImm, T2SoValue, IsOddPairs;
    var mask := d.sourceMask;
    var m := And(v, mask);
    T2ValueIsWord(m);
    T2SoMeaning(T2SoValue(m));
    if mask == 0xfff {
      AndAtMost(v, mask);
      assert T2Decodable(T2SoValue(m));
    } else {
      OtherT2Mask(T2SoValue(m), mask);
    }
  }

  lemma PatternIsWord(b: nat)
    requires b < 0x100
    ensures Pairs(b) < U32 && OddPairs(b) < U32 && Quads(b) < U32
  {
    WordSizes();
    hide Bit, Pow2, Pairs, OddPairs, Quads;
    forall i: nat | i >= 32 ensures !Bit(Pairs(b), i) && !Bit(OddPairs(b), i) && !Bit(Quads(b), i) {
      PatternBits(b, i);
      BitAbove(b, 8, i);
      BitAbove(b, 8, i - 8);
      BitAbove(b, 8, i - 16);
      BitAbove(b, 8, i - 24);
    }
    BelowPow2(Pairs(b), 32);
    BelowPow2(OddPairs(b), 32);
    BelowPow2(Quads(b), 32);
  }

  lemma T2ValueIsWord(m: nat)
    ensures T2SoValue(m) < U32
  {
    hide And, Or, Shr, Pairs, OddPairs, Quads, Rotation.Ror32;
    var value := And(m, 0xfff);
    MaskedByte(value);
    PatternIsWord(And(value, 0xff));
    RotatedByte(value);
    AndAtMost(Shr(value, 7), 31);
    Rotation.RorIsWord(Or(0x80, And(value, 0x7f)), And(Shr(value, 7), 31));
  }

  lemma OtherT2Mask(imm: int, mask: u32)
    ensures mask != 0xfff ==> T2SoImm(imm, mask).None?
  {
    hide And, Or, Pairs, OddPairs, Quads, T2RotationFrom;
  }

  lemma LaneTaken(v: nat, lsb: nat, d: Desc)
    requires d.transform.VecShiftRight?
    ensures IsImmTaken(v, ImmValue(v, d), lsb, d)
  {
    hide And, AndNot, Pow2, SourceWidth;
    MaskBelow(v, d.sourceMask);
    SourceWidthBounds(d.sourceMask);
  }

  /** `lsb` is what both sides take the width to count from. */
  lemma WidthTaken(v: nat, lsb: nat, d: Desc)
    requires d.transform.BfInvMaskWidth? && lsb < 32 && Shr(And(v, d.sourceMask), 5) >= lsb
    ensures var msb := Shr(And(v, d.sourceMask), 5);
            msb < U32 && BitFieldWidth(msb - lsb + 1, Some(lsb), d.sourceMask) == if msb <= 31 then Some(Shl(msb, 5)) else None
  {
    hide And, Shr, Shl;
    MaskBelow(v, d.sourceMask);
    ShrAtMost(And(v, d.sourceMask), 5);
    TopInside(v, d.sourceMask);
  }

  lemma {:induction false} ShrAtMost(v: nat, n: nat)
    ensures Shr(v, n) <= v
    decreases n
  {
    if n > 0 { ShrAtMost(v / 2, n - 1); }
  }

  lemma TopInside(v: nat, mask: u32)
    ensures InMask(Shl(Shr(And(v, mask), 5), 5), mask).Some?
  {
    hide Bit, And, AndNot, Shl, Shr;
    var m := And(v, mask);
    var top := Shl(Shr(m, 5), 5);
    AndBits(v, mask);
    ShrBits(m, 5);
    ShlBits(Shr(m, 5), 5);
    AndNotBits(top, mask);
    forall i: nat { BitZero(i); }
    SameBits(AndNot(top, mask), 0);
  }

  lemma OddRotation(v: nat, lsb: nat, d: Desc)
    requires d.transform.ComplexRotateOdd?
    ensures IsImmTaken(v, ImmValue(v, d), lsb, d)
  {
    TestLowBit();
    hide And, AndNot;
    var m := And(v, d.sourceMask);
    PartInside(v, d.sourceMask, 1);
    AndAtMost(m, 1);
    ZeroInMask(d.sourceMask);
  }

  lemma ZeroInMask(mask: u32)
    ensures InMask(0, mask) == Some(0)
  {
  }

  lemma PlainImmTaken(v: nat, lsb: nat, d: Desc)
    requires d.transform.RawUnsignedField? || d.transform.ImmPlusOne? || d.transform.ImmScale4? || d.transform.ComplexRotate?
             || d.transform.ImmFixedLiteral?
    ensures IsImmTaken(v, ImmValue(v, d), lsb, d)
  {
    hide And, AndNot;
    MaskBelow(v, d.sourceMask);
  }

  lemma VcvtTaken(v: nat, lsb: nat, d: Desc)
    requires d.transform.NeonVcvtImm32?
    ensures IsImmTaken(v, ImmValue(v, d), lsb, d)
  {
    hide AndNot;
    MaskBelow(v, d.sourceMask);
    var m := And(v, d.sourceMask);
    hide And;
    if m <= 63 { BitFive(m); }
  }

  lemma BitFive(m: nat)
    requires m <= 63
    ensures And(m, 0x20) != 0 <==> m >= 32
  {
    assert Pow2(5) == 32 && Pow2(6) == 64;
    hide And, Bit, Pow2;
    TestPow2(m, 5);
    TopBit(m, 5);
  }

  lemma SaturateTaken(v: nat, lsb: nat, d: Desc)
    requires d.transform.MveSaturateOp?
    ensures IsImmTaken(v, ImmValue(v, d), lsb, d)
  {
    TestLowBit();
    hide And;
    MaskBelow(v, d.sourceMask);
  }

  lemma ValueTaken(v: nat, lsb: nat, d: Desc)
    requires IsImmediate(d.transform) && !d.transform.BfInvMaskWidth?
    ensures IsImmTaken(v, ImmValue(v, d), lsb, d)
  {
    hide ImmValue, IsImmTaken;
    if HasAddBit(d.transform) {
      OffsetImmTaken(v, lsb, d);
    } else {
      match d.transform
      case RawSignedField => SignedImmTaken(v, lsb, d);
      case ModifiedImm => ModifiedImmTaken(v, lsb, d);
      case T2SoImmediate => T2ImmTaken(v, lsb, d);
      case VecShiftRight => LaneTaken(v, lsb, d);
      case ComplexRotateOdd => OddRotation(v, lsb, d);
      case NeonVcvtImm32 => VcvtTaken(v, lsb, d);
      case MveSaturateOp => SaturateTaken(v, lsb, d);
      case _ => PlainImmTaken(v, lsb, d);
    }
  }

  /** An immediate that the decoder read is taken back exactly for the fields that `ImmTaken` names, and is given the
      field that `ImmAgain` says; a width counts from the same number on both sides. */
  lemma DecodedImm(v: nat, lsbField: Option<nat>, lsb: Option<int>, d: Desc)
    requires IsImmediate(d.transform) && DecodeImm(v, lsbField, d).Some?
    requires d.transform.BfInvMaskWidth? ==> lsb == Some(And(lsbField.value, 0x1f))
    ensures -0x1_0000_0000_0000 <= DecodeImm(v, lsbField, d).value <= 0x1_0000_0000_0000
    ensures EncodeImm(DecodeImm(v, lsbField, d).value, lsb, d)
         == if ImmTaken(v, if lsbField.Some? then And(lsbField.value, 0x1f) else 0, d) then Some(ImmAgain(v, d)) else None
  {
    hide ImmValue, ImmAgain, EncodeImm;
    if d.transform.BfInvMaskWidth? {
      AndAtMost(lsbField.value, 0x1f);
      hide And, Shr;
      WidthTaken(v, And(lsbField.value, 0x1f), d);
      BitFieldCase(v, DecodeImm(v, lsbField, d).value, lsb, d);
    } else {
      var low := if lsbField.Some? then And(lsbField.value, 0x1f) else 0;
      hide And, ImmTaken;
      ValueTaken(v, low, d);
      LsbIrrelevant(ImmValue(v, d), lsb, d);
      LsbIrrelevant(ImmValue(v, d), Some(low), d);
    }
  }

  lemma BitFieldCase(v: nat, imm: i64, lsb: Option<int>, d: Desc)
    requires d.transform.BfInvMaskWidth?
    ensures EncodeImm(imm, lsb, d) == BitFieldWidth(imm, lsb, d.sourceMask)
    ensures ImmAgain(v, d) == Shl(Shr(And(v, d.sourceMask), 5), 5)
  {
    hide And, Shr, Shl, BitFieldWidth;
  }

  /** What the displacement is encoded to. */
  function DispFieldAgain(v: nat, d: Desc): nat {
    if d.transform.PcRelArmAdr? then AdrAgain(v) else DispAgain(v, d)
  }

  /** A decoded PC-relative operand is encoded to the field that it was read from exactly when it stands for its target
      and the field is the one that its displacement is given. */
  lemma TargetFieldBack(address: u64, v: nat, d: Desc)
    requires DecodePcRel(address, v, d).Some?
    ensures EncodePcRel(address, DecodePcRel(address, v, d).value, d) == Some(v)
            <==> KeepsTarget(address, DecodePcRel(address, v, d).value, d.transform) && DispTaken(v, d) && DispFieldAgain(v, d) == v
  {
    hide FieldDisp, DispField, DecodePcRel, EncodePcRel, DispTaken, DispAgain, AdrAgain, KeepsTarget;
    DecodedTarget(address, v, d);
    DecodedDisp(v, d);
    if !KeepsTarget(address, DecodePcRel(address, v, d).value, d.transform) { OtherTarget(address, v, d); }
  }

  /** A decoded bit-field width is encoded to its field only if both sides count it from the same number. */
  lemma WidthCountsFrom(v: nat, low: nat, lsb: int, d: Desc)
    requires d.transform.BfInvMaskWidth? && Shr(And(v, d.sourceMask), 5) >= low
    requires And(v, d.sourceMask) < U32
    ensures var imm := Shr(And(v, d.sourceMask), 5) - low + 1;
            imm <= U32 && (BitFieldWidth(imm, Some(lsb), d.sourceMask) == Some(v) ==> lsb == low)
  {
    ShrAtMost(And(v, d.sourceMask), 5);
    var imm := Shr(And(v, d.sourceMask), 5) - low + 1;
    hide And, AndNot, Shr, Shl;
    if BitFieldWidth(imm, Some(lsb), d.sourceMask) == Some(v) {
      MaskAgain(v, d.sourceMask);
      ShiftedDown(lsb + imm - 1);
    }
  }

  lemma ShiftedDown(msb: nat)
    ensures Shr(Shl(msb, 5), 5) == msb
  {
    assert Pow2(5) == 32;
    hide Shr, Shl, Pow2, Low, Or;
    Joined(0, msb, 5);
  }
}
