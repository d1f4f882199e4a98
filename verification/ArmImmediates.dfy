/** A32 and T32 immediate operands: the encoder's transforms and the decoder's. */
module ArmImmediates {
  import opened Bits
  import opened Wrappers
  import opened Immediates
  import opened ArmDescs
  import ArmModifiedImm

  // ---- offsets with an "add" bit

  /** The magnitude of an offset with the add bit `2^n` above it. */
  function OffsetField(imm: int, n: nat): nat {
    if imm < 0 then -imm else Or(imm, Pow2(n))
  }

  function OffsetValue(value: nat, n: nat): int {
    var disp := And(value, Ones(n));
    if And(value, Pow2(n)) != 0 then disp else -(disp as int)
  }

  lemma OffsetBack(imm: int, n: nat)
    requires -(Pow2(n) as int) < imm < Pow2(n)
    ensures OffsetValue(OffsetField(imm, n), n) == imm
    ensures OffsetField(imm, n) == if imm < 0 then -imm else imm + Pow2(n)
  {
    hide And, Or, Pow2, Low, Bit;
    var v := OffsetField(imm, n);
    var magnitude := if imm < 0 then -imm else imm;
    Joined(magnitude, 1, n);
    ShlIsTimes(1, n);
    AndOnes(v, n);
    LowSmall(magnitude, n);
    TestPow2(v, n);
    DoublePow2(n);
    TopBit(v, n);
  }

  lemma DoublePow2(n: nat)
    ensures Pow2(n + 1) == 2 * Pow2(n)
  {
  }

  // ---- encoder

  /** `arm_bf_raw_signed`: unlike the AArch64 form it masks the field instead of refusing bits
      outside the mask. */
  function RawSignedMasked(imm: i64, mask: u32): Option<nat> {
    if mask == 0 then
      if imm == 0 then Some(0) else None
    else
      var bits := SourceWidth(mask);
      if bits > 31 then None
      else
        SourceWidthBounds(mask);
        if imm < -(Pow2(bits - 1) as int) || imm > Pow2(bits - 1) - 1 then None
        else Some(And(imm % U32, mask))
  }

  function InMask(value: nat, mask: u32): Option<nat> {
    if AndNot(value, mask) == 0 then Some(value) else None
  }

  function LaneWidth(mask: u32): nat {
    Pow2(SourceWidth(mask))
  }

  predicate ValidLane(mask: u32) {
    mask != 0 && 8 <= LaneWidth(mask) <= 64
  }

  /** The lsb operand of a bit-field instruction, read by the width operand. */
  function BitFieldWidth(imm: i64, lsb: Option<int>, mask: u32): Option<nat> {
    if lsb.None? || lsb.value < 0 || lsb.value > 31 || imm < 1 || imm > 32 then None
    else
      var msb := lsb.value + imm - 1;
      if msb < 0 || msb > 31 then None else InMask(Shl(msb, 5), mask)
  }

  /** `arm_bf_imm_value`; `lsb` is the immediate of the operand named by `aliasBase`, if it is one. */
  function EncodeImm(imm: i64, lsb: Option<int>, d: Desc): Option<nat> {
    var mask := d.sourceMask;
    match d.transform
    case RawUnsignedField => RawUnsigned(imm, mask)
    case RawSignedField => RawSignedMasked(imm, mask)
    case NeonVcvtImm32 =>
      if imm < 1 || imm > 32 then None
      else if And(64 - imm, 0x20) == 0 then None else InMask(64 - imm, mask)
    case VecShiftRight =>
      if !ValidLane(mask) || imm <= 0 || imm > LaneWidth(mask) then None else InMask(LaneWidth(mask) - imm, mask)
    case ImmFixedLiteral => if imm != mask then None else Some(0)
    case ImmPlusOne => if imm <= 0 then None else RawUnsigned(imm - 1, mask)
    case PostIdxImm8 => if imm < -255 || imm > 255 then None else InMask(OffsetField(imm, 8), mask)
    case PostIdxImm8s4 =>
      if imm < -1020 || imm > 1020 || imm % 4 != 0 then None else InMask(OffsetField(imm / 4, 8), mask)
    case ImmScale4 => if imm < 0 || imm % 4 != 0 then None else RawUnsigned(imm / 4, mask)
    case Am2OffsetImm =>
      if mask != 0x1fff || imm < -4095 || imm > 4095 then None else InMask(OffsetField(imm, 12), mask)
    case MveSaturateOp =>
      if mask != 1 then None else if imm == 64 then Some(0) else if imm == 48 then Some(1) else None
    case ComplexRotate => if imm < 0 || imm > 270 || imm % 90 != 0 then None else RawUnsigned(imm / 90, mask)
    case ComplexRotateOdd =>
      if imm == 90 then InMask(0, mask) else if imm == 270 then InMask(1, mask) else None
    case BfInvMaskWidth => BitFieldWidth(imm, lsb, mask)
    case ModifiedImm => ArmModifiedImm.ModImm(imm, mask)
    case T2SoImmediate => ArmModifiedImm.T2SoImm(imm, mask)
    case _ => None
  }

  // ---- decoder

  /** `arm_td_imm_value`. */
  function ImmValue(field: nat, d: Desc): int {
    var mask := d.sourceMask;
    var value := And(field, mask);
    match d.transform
    case ModifiedImm => ArmModifiedImm.ModImmValue(value)
    case T2SoImmediate => ArmModifiedImm.T2SoValue(value)
    case RawSignedField => if mask == 0 then 0 else SourceWidthBounds(mask); SignExtend(value, SourceWidth(mask))
    case NeonVcvtImm32 => (64 - value) % U32
    case VecShiftRight => if !ValidLane(mask) || value > LaneWidth(mask) then 0 else LaneWidth(mask) - value
    case ImmFixedLiteral => mask
    case ImmPlusOne => value + 1
    case PostIdxImm8 => OffsetValue(value, 8)
    case PostIdxImm8s4 => OffsetValue(value, 8) * 4
    case ImmScale4 => value * 4
    case Am2OffsetImm => OffsetValue(value, 12)
    case MveSaturateOp => if And(value, 1) != 0 then 48 else 64
    case ComplexRotate => value * 90
    case ComplexRotateOdd => if And(value, 1) != 0 then 270 else 90
    case _ => value
  }

  /** The immediate branch of `arm_decode_td_operands`; `lsb` is the value of the operand named by
      `aliasBase`. */
  function DecodeImm(field: nat, lsb: Option<nat>, d: Desc): Option<int> {
    if d.transform.BfInvMaskWidth? then
      if lsb.None? then None
      else
        var low, msb := And(lsb.value, 0x1f), Shr(And(field, d.sourceMask), 5);
        if msb < low then None else Some(msb - low + 1)
    else Some(ImmValue(field, d))
  }

  // ---- round trips

  /** The signed field survives the encoder's masking. */
  predicate KeepsSigned(imm: i64, mask: u32) {
    mask != 0 ==> AndNot(imm % Pow2(SourceWidth(mask)), mask) == 0
  }

  lemma MaskedLow(v: nat, mask: u32, w: nat)
    requires mask < Pow2(w)
    ensures And(v, mask) == And(Low(v, w), mask)
    ensures And(And(v, mask), mask) == And(v, mask) < Pow2(w)
  {
    hide Bit, And, Low, Pow2;
    forall i: nat
      ensures Bit(And(v, mask), i) == Bit(And(Low(v, w), mask), i)
      ensures Bit(And(And(v, mask), mask), i) == Bit(And(v, mask), i)
      ensures i >= w ==> !Bit(And(v, mask), i)
    {
      BitAnd(v, mask, i);
      BitAnd(And(v, mask), mask, i);
      BitAnd(Low(v, w), mask, i);
      BitLow(v, w, i);
      if i >= w { BitAbove(mask, w, i); }
    }
    SameBits(And(v, mask), And(Low(v, w), mask));
    SameBits(And(And(v, mask), mask), And(v, mask));
    BelowPow2(And(v, mask), w);
  }

  lemma LowOfWord(imm: i64, w: nat)
    requires w <= 32
    ensures Low(imm % U32, w) == imm % Pow2(w)
  {
    hide Low, Pow2;
    WordSizes();
    Pow2Add(w, 32 - w);
    LowIsMod(imm % U32, w);
    assert imm == imm % U32 + Pow2(w) * (Pow2(32 - w) * (imm / U32)) by {
      Reassociate(Pow2(w), Pow2(32 - w), imm / U32);
      assert imm == U32 * (imm / U32) + imm % U32;
    }
    ModShift(imm % U32, Pow2(32 - w) * (imm / U32), Pow2(w));
  }

  lemma Reassociate(a: int, b: int, c: int)
    ensures a * (b * c) == (a * b) * c
  {
  }

  /** What the masking encoder stores. */
  lemma StoredSigned(imm: i64, mask: u32)
    requires mask != 0 && RawSignedMasked(imm, mask).Some?
    ensures var w := SourceWidth(mask);
            && 0 < w <= 31 && FitsSigned(imm, w)
            && RawSignedMasked(imm, mask).value == And(imm % Pow2(w), mask)
            && And(RawSignedMasked(imm, mask).value, mask) == RawSignedMasked(imm, mask).value < Pow2(w)
  {
    hide And, Pow2, Low;
    var w := SourceWidth(mask);
    SourceWidthBounds(mask);
    MaskedLow(imm % U32, mask, w);
    LowOfWord(imm, w);
  }

  /** The A32/T32 signed field decodes back exactly when its digits lie inside the mask.  The
      generated tables do hold masks with holes (0x2ff, 0x6ff), see `SignedCounterexample`. */
  lemma SignedExact(imm: i64, mask: u32)
    requires mask != 0 && RawSignedMasked(imm, mask).Some?
    ensures SourceWidth(mask) > 0
    ensures SignExtend(And(RawSignedMasked(imm, mask).value, mask), SourceWidth(mask)) == imm <==> KeepsSigned(imm, mask)
  {
    hide And, Pow2, SignExtend, AndNot, SourceWidth, RawSignedMasked;
    var w := SourceWidth(mask);
    StoredSigned(imm, mask);
    var digits := imm % Pow2(w);
    SignExtendOfMod(imm, w);
    if KeepsSigned(imm, mask) {
      Within(digits, mask);
    } else {
      SignExtendRange(RawSignedMasked(imm, mask).value, w);
      MaskingLoses(digits, mask);
    }
  }

  lemma MaskingLoses(v: nat, mask: nat)
    requires AndNot(v, mask) != 0
    ensures And(v, mask) != v
  {
    if And(v, mask) == v {
      AndBits(v, mask);
      AndNotBits(v, mask);
      forall i: nat ensures Bit(AndNot(v, mask), i) == Bit(0, i) {
        BitZero(i);
        assert Bit(And(v, mask), i) == Bit(v, i);
      }
      SameBits(AndNot(v, mask), 0);
    }
  }

  lemma HoleWidth()
    ensures SourceWidth(0x2ff) == 10 && Pow2(9) == 512 && Pow2(10) == 1024
  {
  }

  lemma MissingBit(k: nat, mask: nat)
    requires !Bit(mask, k)
    ensures And(Pow2(k), mask) == 0 && AndNot(Pow2(k), mask) == Pow2(k)
  {
    hide Bit, Pow2;
    forall i: nat
      ensures Bit(And(Pow2(k), mask), i) == Bit(0, i)
      ensures Bit(AndNot(Pow2(k), mask), i) == Bit(Pow2(k), i)
    {
      BitAnd(Pow2(k), mask, i);
      BitAndNot(Pow2(k), mask, i);
      BitPow2(k, i);
      BitZero(i);
    }
    SameBits(And(Pow2(k), mask), 0);
    SameBits(AndNot(Pow2(k), mask), Pow2(k));
  }

  lemma HoleBits()
    ensures And(256, 0x2ff) == 0 && AndNot(256, 0x2ff) == 256
  {
    assert Pow2(8) == 256 && !Bit(0x2ff, 8);
    hide And, AndNot;
    MissingBit(8, 0x2ff);
  }

  /** With the mask 0x2ff the encoder accepts 256 and stores 0. */
  lemma SignedCounterexample()
    ensures RawSignedMasked(256, 0x2ff) == Some(0) && !KeepsSigned(256, 0x2ff)
  {
    HoleWidth();
    HoleBits();
    hide SourceWidth, Pow2, And, AndNot;
  }

  lemma MaskAgain(v: nat, mask: nat)
    requires AndNot(v, mask) == 0
    ensures And(v, mask) == v
  {
    Within(v, mask);
  }

  lemma TestLowBit()
    ensures And(0, 1) == 0 && And(1, 1) == 1
  {
  }

  lemma BitFieldBack(imm: i64, lsb: Option<int>, field: nat, mask: u32)
    requires BitFieldWidth(imm, lsb, mask).Some? && And(field, 0x1f) == lsb.value
    ensures var v := BitFieldWidth(imm, lsb, mask).value;
            && And(v, mask) == v
            && Shr(v, 5) == lsb.value + imm - 1
  {
    var msb := lsb.value + imm - 1;
    assert Pow2(5) == 32;
    hide And, AndNot, Shl, Shr, Pow2;
    MaskAgain(Shl(msb, 5), mask);
    Joined(0, msb, 5);
  }

  lemma ModifiedBack(imm: i64, d: Desc)
    requires d.transform.ModifiedImm? || d.transform.T2SoImmediate?
    requires EncodeImm(imm, None, d).Some?
    ensures And(EncodeImm(imm, None, d).value, d.sourceMask) == EncodeImm(imm, None, d).value
    ensures ImmValue(EncodeImm(imm, None, d).value, d) == imm
  {
    hide ArmModifiedImm.ModImm, ArmModifiedImm.ModImmValue, ArmModifiedImm.T2SoImm, ArmModifiedImm.T2SoValue, And, AndNot;
    if d.transform.ModifiedImm? {
      ArmModifiedImm.ModImmMeaning(imm, d.sourceMask);
      MaskAgain(ArmModifiedImm.ModImm(imm, d.sourceMask).value, d.sourceMask);
    } else {
      ArmModifiedImm.T2SoRoundTrip(imm, d.sourceMask);
      FullT2Mask(imm, d.sourceMask);
      FieldInFullMask(ArmModifiedImm.T2SoImm(imm, d.sourceMask).value);
    }
  }

  lemma FullT2Mask(imm: i64, mask: u32)
    requires ArmModifiedImm.T2SoImm(imm, mask).Some?
    ensures mask == 0xfff
  {
  }

  lemma FieldInFullMask(v: nat)
    requires v < 0x1000
    ensures And(v, 0xfff) == v
  {
    assert Ones(12) == 0xfff && Pow2(12) == 0x1000;
    AndOnes(v, 12);
    LowSmall(v, 12);
  }

  predicate HasAddBit(t: Transform) {
    t.PostIdxImm8? || t.PostIdxImm8s4? || t.Am2OffsetImm?
  }

  /** The masked offset field of a scaled offset. */
  lemma OffsetInMask(imm: int, n: nat, mask: u32)
    requires -(Pow2(n) as int) < imm < Pow2(n) && InMask(OffsetField(imm, n), mask).Some?
    ensures OffsetValue(And(InMask(OffsetField(imm, n), mask).value, mask), n) == imm
  {
    hide And, AndNot, OffsetField, OffsetValue, Pow2;
    OffsetBack(imm, n);
    MaskAgain(OffsetField(imm, n), mask);
  }

  lemma OffsetRoundTrip(imm: i64, d: Desc)
    requires HasAddBit(d.transform) && EncodeImm(imm, None, d).Some?
    ensures ImmValue(EncodeImm(imm, None, d).value, d) == imm
  {
    WordSizes();
    hide And, InMask, OffsetField, OffsetValue, Pow2;
    match d.transform
    case PostIdxImm8 => OffsetInMask(imm, 8, d.sourceMask);
    case PostIdxImm8s4 => OffsetInMask(imm / 4, 8, d.sourceMask);
    case Am2OffsetImm => OffsetInMask(imm, 12, d.sourceMask);
  }

  predicate IsSpecial(t: Transform) {
    HasAddBit(t) || t.ModifiedImm? || t.T2SoImmediate? || t.RawSignedField? || t.BfInvMaskWidth?
  }

  lemma SimpleRoundTrip(imm: i64, d: Desc)
    requires !IsSpecial(d.transform) && EncodeImm(imm, None, d).Some?
    ensures ImmValue(EncodeImm(imm, None, d).value, d) == imm
  {
    TestLowBit();
    hide And, AndNot, LaneWidth;
    var v := EncodeImm(imm, None, d).value;
    if AndNot(v, d.sourceMask) == 0 { MaskAgain(v, d.sourceMask); }
  }

  /** An immediate that the encoder accepts is decoded unchanged, whatever its transform; the signed
      field needs `KeepsSigned`.  `lsbField` is the packed value of the lsb operand. */
  lemma ArmImmRoundTrip(imm: i64, lsb: Option<int>, lsbField: Option<nat>, d: Desc)
    requires EncodeImm(imm, lsb, d).Some?
    requires d.transform.BfInvMaskWidth? ==> lsbField.Some? && And(lsbField.value, 0x1f) == lsb.value
    requires d.transform.RawSignedField? ==> KeepsSigned(imm, d.sourceMask)
    ensures DecodeImm(EncodeImm(imm, lsb, d).value, lsbField, d) == Some(imm)
  {
    LsbIrrelevant(imm, lsb, d);
    if d.transform.BfInvMaskWidth? {
      hide And, Shr, BitFieldWidth;
      BitFieldBack(imm, lsb, lsbField.value, d.sourceMask);
    } else {
      hide ImmValue, EncodeImm;
      if HasAddBit(d.transform) {
        OffsetRoundTrip(imm, d);
      } else if d.transform.RawSignedField? {
        RawSignedBack(imm, d);
      } else if d.transform.ModifiedImm? || d.transform.T2SoImmediate? {
        ModifiedBack(imm, d);
      } else {
        SimpleRoundTrip(imm, d);
      }
    }
  }

  lemma LsbIrrelevant(imm: i64, lsb: Option<int>, d: Desc)
    ensures !d.transform.BfInvMaskWidth? ==> EncodeImm(imm, lsb, d) == EncodeImm(imm, None, d)
  {
  }

  lemma RawSignedBack(imm: i64, d: Desc)
    requires d.transform.RawSignedField? && EncodeImm(imm, None, d).Some? && KeepsSigned(imm, d.sourceMask)
    ensures ImmValue(EncodeImm(imm, None, d).value, d) == imm
  {
    hide And, SignExtend;
    if d.sourceMask != 0 { SignedExact(imm, d.sourceMask); }
  }
}
