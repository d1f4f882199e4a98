/** The ARM encoder's fields stay inside the source masks of descriptors whose masks hold their form, so that pieces
    which carry the masks carry the fields. */
module ArmMasks {
  import opened Bits
  import opened Wrappers
  import opened Operands
  import opened ArmDescs
  import opened ArmImmediates
  import opened ArmPcRel
  import opened ArmMemory
  import opened ArmRecords
  import opened ArmRegisterTable
  import opened ArmRegisters
  import opened ArmPacking
  import opened PackedFields
  import opened PcRelative
  import ArmModifiedImm
  import BranchBits
  import Rotation
  import OperandBits

  ghost predicate Inside(value: nat, mask: nat) {
    forall i: nat :: Bit(value, i) ==> Bit(mask, i)
  }

  // ---- the bits of a form

  predicate InField(i: nat, at: nat, width: nat) {
    at <= i < at + width
  }

  predicate InLayout(l: Layout, i: nat) {
    InField(i, l.immAt, l.immWidth) || InField(i, l.baseAt, l.baseWidth) || l.signAt == Some(i)
  }

  /** The bits that an encoder without a mask test may set. */
  predicate InForm(d: Desc, i: nat) {
    if d.kind.KindReg? then d.transform.RegPostIdx? && i < 5
    else if !d.kind.KindMem? then false
    else
      match d.transform
      case MemThumbSp => i < 8
      case MemThumbPc => i < 8
      case MemThumbRr => i < 6
      case MemT2SoReg => i < 10
      case MemArmAddrMode3 => i < 14
      case MemArmAm3Offset => i < 10
      case MemArmLdstSoReg => i < 17 && i != 4
      case MemArmAm2OffsetReg => i < 13 && i != 4
      case _ => EncodeLayout(d).Some? && InLayout(EncodeLayout(d).value, i)
  }

  ghost predicate MaskFits(d: Desc) {
    forall i: nat :: InForm(d, i) ==> Bit(d.sourceMask, i)
  }

  // ---- what is inside a mask

  lemma MaskedInside(value: nat, mask: nat)
    requires AndNot(value, mask) == 0
    ensures Inside(value, mask)
  {
    hide Bit, AndNot;
    AndNotBits(value, mask);
    forall i: nat | Bit(value, i) ensures Bit(mask, i) { BitZero(i); }
  }

  lemma AndInside(value: nat, mask: nat)
    ensures Inside(And(value, mask), mask)
  {
    hide Bit, And;
    AndBits(value, mask);
  }

  lemma BelowInside(value: nat, n: nat)
    requires value < Pow2(n)
    ensures Inside(value, Ones(n))
  {
    hide Bit, Pow2, Ones;
    OnesBits(n);
    forall i: nat | Bit(value, i) ensures Bit(Ones(n), i) { if i >= n { BitAbove(value, n, i); } }
  }

  lemma ZeroInside(mask: nat)
    ensures Inside(0, mask)
  {
    forall i: nat { BitZero(i); }
  }

  /** A packed word is inside a mask that holds its fields. */
  lemma PackInside(fields: seq<Field>, mask: nat)
    requires forall k :: 0 <= k < |fields| ==> Fits(fields[k])
    requires forall k, i: nat :: 0 <= k < |fields| && InField(i, fields[k].at, fields[k].width) ==> Bit(mask, i)
    ensures Inside(Pack(fields), mask)
  {
    hide Bit, Pack, Pow2;
    forall i: nat | Bit(Pack(fields), i) ensures Bit(mask, i) {
      BitOfPack(fields, i);
      var k :| 0 <= k < |fields| && i >= fields[k].at && Bit(fields[k].value, i - fields[k].at);
      assert Fits(fields[k]);
      if i - fields[k].at >= fields[k].width { BitAbove(fields[k].value, fields[k].width, i - fields[k].at); }
      assert InField(i, fields[k].at, fields[k].width);
    }
  }

  // ---- memory operands

  lemma LayoutInside(o: Operand, l: Layout, mask: nat)
    requires BaseDispField(MEMORY, o, l).Some? && forall i: nat :: InLayout(l, i) ==> Bit(mask, i)
    ensures Inside(BaseDispField(MEMORY, o, l).value, mask)
  {
    assert Pow2(1) == 2;
    hide Bit, Pack, Pow2;
    var disp := o.mem.displacement;
    var magnitude := if l.scale != 0 then Magnitude(disp) / l.scale else Magnitude(disp);
    var fields := LayoutFields(l, magnitude, MEMORY.gpr4(o.mem.base).value, if (disp >= 0) == l.positive then 1 else 0);
    forall k, i: nat | 0 <= k < |fields| && InField(i, fields[k].at, fields[k].width) ensures Bit(mask, i) {
      assert InLayout(l, i);
    }
    PackInside(fields, mask);
  }

  lemma LowInside(value: nat, n: nat, mask: nat)
    requires value < Pow2(n) && forall i: nat :: i < n ==> Bit(mask, i)
    ensures Inside(value, mask)
  {
    hide Bit, Pow2;
    forall i: nat | Bit(value, i) ensures Bit(mask, i) { if i >= n { BitAbove(value, n, i); } }
  }

  lemma BaseAndIndex(o: Operand)
    ensures MEMORY.gpr4(o.mem.base).Some? ==> MEMORY.gpr4(o.mem.base).value < 16
    ensures MEMORY.gpr4(o.mem.index).Some? ==> MEMORY.gpr4(o.mem.index).value < 16
  {
    hide ValidRegisters;
    MemoryIsValid();
    CoreEncoding(MEMORY, o.mem.base);
    CoreEncoding(MEMORY, o.mem.index);
  }

  lemma FixedInside(o: Operand, d: Desc)
    requires d.kind.KindMem? && (d.transform.MemThumbSp? || d.transform.MemThumbPc?)
    requires MaskFits(d) && EncodeMem(MEMORY, o, d).Some?
    ensures Inside(EncodeMem(MEMORY, o, d).value, d.sourceMask)
  {
    Powers();
    hide Bit, Pow2;
    LowInside(EncodeMem(MEMORY, o, d).value, 8, d.sourceMask);
  }

  /** The fields of the forms with an index register. */
  function FormFields(o: Operand, d: Desc): seq<Field>
    requires EncodeMem(MEMORY, o, d).Some?
  {
    var base, index := MEMORY.gpr4(o.mem.base), MEMORY.gpr4(o.mem.index);
    match d.transform
    case MemThumbRr => [Field(0, 3, base.value), Field(3, 3, index.value)]
    case MemT2SoReg => [Field(0, 2, ScaleBits(Scale(o)).value), Field(2, 4, index.value), Field(6, 4, base.value)]
    case MemArmAddrMode3 => Mode3Offset(MEMORY, o, 13).value + [Field(9, 4, base.value)]
    case MemArmAm3Offset => Mode3Offset(MEMORY, o, 9).value
    case MemArmLdstSoReg => ShiftedIndex(index.value, ShiftFields(o.shiftKind, o.shiftAmount).value, o) + [Field(13, 4, base.value)]
    case MemArmAm2OffsetReg => ShiftedIndex(index.value, ShiftFields(o.shiftKind, o.shiftAmount).value, o)
    case _ => []
  }

  predicate IsIndexed(t: Transform) {
    t.MemThumbRr? || t.MemT2SoReg? || t.MemArmAddrMode3? || t.MemArmAm3Offset? || t.MemArmLdstSoReg? || t.MemArmAm2OffsetReg?
  }

  lemma FormFits(o: Operand, d: Desc)
    requires d.kind.KindMem? && IsIndexed(d.transform) && EncodeMem(MEMORY, o, d).Some?
    ensures EncodeMem(MEMORY, o, d).value == Pack(FormFields(o, d))
    ensures forall k :: 0 <= k < |FormFields(o, d)| ==> Fits(FormFields(o, d)[k])
    ensures forall k, i: nat :: 0 <= k < |FormFields(o, d)| && InField(i, FormFields(o, d)[k].at, FormFields(o, d)[k].width) ==>
              InForm(d, i)
  {
    Powers();
    hide Pack, Pow2;
    BaseAndIndex(o);
  }

  lemma IndexedInside(o: Operand, d: Desc)
    requires d.kind.KindMem? && IsIndexed(d.transform) && MaskFits(d) && EncodeMem(MEMORY, o, d).Some?
    ensures Inside(EncodeMem(MEMORY, o, d).value, d.sourceMask)
  {
    FormFits(o, d);
    hide Bit, Pack, EncodeMem, FormFields, InForm, InField;
    PackInside(FormFields(o, d), d.sourceMask);
  }

  lemma TestedInside(o: Operand, d: Desc)
    requires !IsIndexed(d.transform) && !d.transform.MemThumbSp? && !d.transform.MemThumbPc? && EncodeLayout(d).None?
    requires EncodeMem(MEMORY, o, d).Some?
    ensures AndNot(EncodeMem(MEMORY, o, d).value, d.sourceMask) == 0
  {
    hide AndNot, Pack, And;
  }

  lemma MemInside(o: Operand, d: Desc)
    requires d.kind.KindMem? && MaskFits(d) && EncodeMem(MEMORY, o, d).Some?
    ensures Inside(EncodeMem(MEMORY, o, d).value, d.sourceMask)
  {
    if IsIndexed(d.transform) {
      IndexedInside(o, d);
    } else if d.transform.MemThumbSp? || d.transform.MemThumbPc? {
      FixedInside(o, d);
    } else if EncodeLayout(d).Some? {
      hide Bit, BaseDispField, And, InLayout;
      LayoutInside(o, EncodeLayout(d).value, d.sourceMask);
    } else {
      hide Bit, And, AndNot, EncodeMem;
      TestedInside(o, d);
      MaskedInside(EncodeMem(MEMORY, o, d).value, d.sourceMask);
    }
  }

  // ---- register operands

  lemma RegInside(o: Operand, d: Desc)
    requires d.kind.KindReg? && MaskFits(d) && EncodeReg(o, d).Some?
    ensures Inside(EncodeReg(o, d).value, d.sourceMask)
  {
    match d.transform
    case RegPostIdx =>
      hide Bit, Pack, PlainEncoding;
      LowFour();
      hide Pow2;
      CoreNumber(o);
      PostIdxValue(PlainReg(o, GPR, 32).value, AddBit(o));
      LowInside(EncodeReg(o, d).value, 5, d.sourceMask);
    case RegTgprEven =>
      hide Bit, PlainReg, And;
      AndInside(PlainReg(o, GPR, 32).value, d.sourceMask);
    case RegTgprOdd =>
      hide Bit, PlainReg, And;
      AndInside(PlainReg(o, GPR, 32).value, d.sourceMask);
    case _ =>
      RegTested(o, d);
      MaskedInside(EncodeReg(o, d).value, d.sourceMask);
  }

  lemma RegTested(o: Operand, d: Desc)
    requires !d.transform.RegPostIdx? && !d.transform.RegTgprEven? && !d.transform.RegTgprOdd? && EncodeReg(o, d).Some?
    ensures AndNot(EncodeReg(o, d).value, d.sourceMask) == 0
  {
    hide AndNot, Pack, PlainEncoding, ListedEncoding, Gpr4, Shl;
  }

  // ---- immediates and targets

  lemma SignedInside(imm: i64, mask: u32)
    requires RawSignedMasked(imm, mask).Some?
    ensures Inside(RawSignedMasked(imm, mask).value, mask)
  {
    hide Bit, And;
    ZeroInside(mask);
    AndInside(imm % U32, mask);
  }

  lemma {:induction false} ModImmInside(value: u32, mask: u32, rotate: nat)
    requires rotate <= 16 && ArmModifiedImm.ModImmFrom(value, mask, rotate).Some?
    ensures AndNot(ArmModifiedImm.ModImmFrom(value, mask, rotate).value, mask) == 0
    decreases 16 - rotate
  {
    hide AndNot, Or, Shl;
    if ArmModifiedImm.ModImmFrom(value, mask, rotate) == ArmModifiedImm.ModImmFrom(value, mask, rotate + 1) {
      ModImmInside(value, mask, rotate + 1);
    }
  }

  lemma {:induction false} T2RotationBelow(value: u32, rotate: nat)
    requires rotate <= 32 && ArmModifiedImm.T2RotationFrom(value, rotate).Some?
    ensures ArmModifiedImm.T2RotationFrom(value, rotate).value < 0x1000
    decreases 32 - rotate
  {
    var unrotated := Rotation.Rol32(value, rotate);
    if rotate < 32 && 0x80 <= unrotated <= 0xff {
      assert Pow2(7) == 0x80;
      hide Or, Shl, And, Pow2;
      AndAtMost(unrotated, 0x7f);
      Joined(And(unrotated, 0x7f), rotate, 7);
      ShlIsTimes(rotate, 7);
    } else {
      T2RotationBelow(value, rotate + 1);
    }
  }

  lemma OrBelow(a: nat, b: nat, n: nat)
    requires a < Pow2(n) && b < Pow2(n)
    ensures Or(a, b) < Pow2(n)
  {
    hide Bit, Or, Pow2;
    OrBits(a, b);
    forall i: nat | i >= n ensures !Bit(Or(a, b), i) {
      BitAbove(a, n, i);
      BitAbove(b, n, i);
    }
    BelowPow2(Or(a, b), n);
  }

  lemma PrefixedByte(prefix: nat, byte: nat)
    requires prefix < 0x1000 && byte <= 0xff
    ensures Or(prefix, byte) < 0x1000
  {
    assert Pow2(12) == 0x1000;
    hide Or, Pow2;
    OrBelow(prefix, byte, 12);
  }

  lemma T2SoBelow(imm: int, mask: u32)
    requires ArmModifiedImm.T2SoImm(imm, mask).Some?
    ensures mask == 0xfff && ArmModifiedImm.T2SoImm(imm, mask).value < 0x1000
  {
    hide And, Or, ArmModifiedImm.T2RotationFrom, ArmModifiedImm.Pairs, ArmModifiedImm.OddPairs, ArmModifiedImm.Quads;
    AndAtMost(imm, 0xff);
    PrefixedByte(0x100, And(imm, 0xff));
    PrefixedByte(0x200, And(imm, 0xff));
    PrefixedByte(0x300, And(imm, 0xff));
    if ArmModifiedImm.T2RotationFrom(imm, 8).Some? { T2RotationBelow(imm, 8); }
  }

  lemma ImmInside(imm: i64, lsb: Option<int>, d: Desc)
    requires EncodeImm(imm, lsb, d).Some?
    ensures Inside(EncodeImm(imm, lsb, d).value, d.sourceMask)
  {
    var v := EncodeImm(imm, lsb, d).value;
    match d.transform
    case RawSignedField => SignedInside(imm, d.sourceMask);
    case ModifiedImm => ModImmInside(imm, d.sourceMask, 0); MaskedInside(v, d.sourceMask);
    case T2SoImmediate =>
      T2SoBelow(imm, d.sourceMask);
      assert Pow2(12) == 0x1000 && Ones(12) == 0xfff;
      BelowInside(v, 12);
    case ImmFixedLiteral => ZeroInside(d.sourceMask);
    case MveSaturateOp =>
      assert Pow2(1) == 2 && Ones(1) == 1;
      BelowInside(v, 1);
    case _ =>
      ImmTested(imm, lsb, d);
      MaskedInside(v, d.sourceMask);
  }

  lemma ImmTested(imm: i64, lsb: Option<int>, d: Desc)
    requires EncodeImm(imm, lsb, d).Some?
    requires !d.transform.RawSignedField? && !d.transform.ModifiedImm? && !d.transform.T2SoImmediate?
    requires !d.transform.ImmFixedLiteral? && !d.transform.MveSaturateOp?
    ensures AndNot(EncodeImm(imm, lsb, d).value, d.sourceMask) == 0
  {
    hide AndNot, And, Or, Shl, Pow2, OffsetField, ValidLane, LaneWidth;
  }

  lemma AdrInside(disp: i64, mask: u32)
    requires AdrField(disp, mask).Some?
    ensures Inside(AdrField(disp, mask).value, mask)
  {
    assert Pow2(14) == 0x4000 && Ones(14) == 0x3fff;
    hide Or, Pow2, Ones, ArmModifiedImm.ModImm;
    forall imm: int | ArmModifiedImm.ModImm(imm, 0xfff).Some?
      ensures Or(0x1000, ArmModifiedImm.ModImm(imm, 0xfff).value) < 0x4000
      ensures Or(0x2000, ArmModifiedImm.ModImm(imm, 0xfff).value) < 0x4000
    {
      AdrBelow(imm);
    }
    BelowInside(AdrField(disp, mask).value, 14);
  }

  lemma AdrBelow(imm: int)
    requires ArmModifiedImm.ModImm(imm, 0xfff).Some?
    ensures var v := ArmModifiedImm.ModImm(imm, 0xfff).value; Or(0x1000, v) < 0x4000 && Or(0x2000, v) < 0x4000
  {
    var v := ArmModifiedImm.ModImm(imm, 0xfff).value;
    ModImmInside(imm, 0xfff, 0);
    assert Pow2(14) == 0x4000;
    hide Or, Pow2, AndNot, And;
    Bits.Within(v, 0xfff);
    OrBelow(0x1000, v, 14);
    OrBelow(0x2000, v, 14);
  }

  lemma BranchInside(disp: i64, mask: u32)
    requires BranchField(disp, mask).Some?
    ensures Inside(BranchField(disp, mask).value, mask)
  {
    hide Bit, And, BranchBits.StoreJ;
    AndInside(BranchBits.StoreJ(disp / 2 % 0x100_0000), mask);
  }

  predicate IsSigned(t: Transform) {
    t.PcRelA32Words4? || t.PcRelA32Words2? || t.PcRelThumbWords2?
  }

  predicate IsBranch(t: Transform) {
    t.PcRelThumbT2B? || t.PcRelThumbT2Blx?
  }

  lemma DispInside(disp: i64, d: Desc)
    requires DispField(disp, d).Some?
    ensures Inside(DispField(disp, d).value, d.sourceMask)
  {
    if IsSigned(d.transform) {
      SignedInside(if d.transform.PcRelA32Words4? then disp / 4 else disp / 2, d.sourceMask);
    } else if d.transform.PcRelArmAdr? {
      AdrInside(disp, d.sourceMask);
    } else if IsBranch(d.transform) {
      BranchInside(disp, d.sourceMask);
    } else if d.transform.PcRelThumbT2Bcc? {
      AndInside(disp % U32, d.sourceMask);
    } else {
      DispTested(disp, d);
    }
  }

  lemma DispTested(disp: i64, d: Desc)
    requires !IsSigned(d.transform) && !IsBranch(d.transform) && !d.transform.PcRelArmAdr? && !d.transform.PcRelThumbT2Bcc?
    requires DispField(disp, d).Some?
    ensures Inside(DispField(disp, d).value, d.sourceMask)
  {
    hide Inside, AndNot, Or;
    MaskedInside(DispField(disp, d).value, d.sourceMask);
  }

  // ---- whole records

  /** What the encoder accepts stays inside the source mask, if that holds the form. */
  lemma EncodedInside(inst: Inst, o: Operand, d: Desc)
    requires IsI64(o.imm) && MaskFits(d) && EncodeOperand(inst, o, d).Some?
    ensures Inside(EncodeOperand(inst, o, d).value, d.sourceMask)
  {
    hide Inside, MaskFits, EncodeReg, EncodeImm, EncodeMem, DispField, Distance, Base, TargetOf;
    match d.kind
    case KindReg => RegInside(o, d);
    case KindImm => ImmInside(o.imm, LsbOperand(inst.operands, d), d);
    case KindMem => MemInside(o, d);
    case KindPcRel => DispInside(Distance(Base(inst.address, d.transform), TargetOf(inst.address, Target(o.imm, o.absTarget, o.width))), d);
  }

  /** The pieces carry the source masks, which hold the forms. */
  ghost predicate CarriesMasks(e: EncodeRecord) {
    && (forall k :: 0 <= k < |e.descs| ==> MaskFits(e.descs[k]))
    && (forall k: nat, i: nat :: k < |e.descs| && HasPiece(e, k) && Bit(e.descs[k].sourceMask, i) ==> OperandBits.IsSrc(e.pieces, k, i))
  }

  /** Then they carry every bit of the fields of every instruction that packs. */
  lemma FieldsCovered(e: EncodeRecord, inst: Inst)
    requires ValidInst(inst) && ValidRecord(e) && Packs(e, inst) && CarriesMasks(e)
    ensures OperandBits.Covered(e.pieces, Fields(e, inst))
  {
    hide Bit, EncodeOperand, AliasMatches, MaskFits;
    var fields := Fields(e, inst);
    forall op: nat, i: nat | op < MAX_OPERANDS && Bit(fields[op], i) ensures OperandBits.IsSrc(e.pieces, op, i) {
      BitZero(i);
      assert HasPiece(e, op);
      FieldCarried(e, inst, op);
      EncodedInside(inst, inst.operands[op], e.descs[op]);
    }
  }
}
