/** AArch64 register operands: plain, shifted, extended, paired and windowed registers. */
module A64Registers {
  import opened Bits
  import opened Wrappers
  import opened Operands
  import opened A64Immediates
  import opened A64RegisterTable
  import Immediates

  predicate Plain(o: Operand) {
    o.shiftKind == 0 && o.shiftAmount == 0 && o.shiftReg == 0 && o.extendKind == 0 && o.extendAmount == 0 && !o.extendedReg
  }

  // ---- encoder

  /** `a64_bf_reg_encoding`; its mask test is left to the caller, who repeats it. */
  function RegEncoding(o: Operand, desc: OperandDesc): Option<nat> {
    if o.kind != OpReg then None
    else if desc.literal != 0 && o.vectorList && o.imm % U32 != desc.literal then None
    else Encoding(o.reg, o.width, desc.width, desc.reg31IsSp, desc.regClass)
  }

  predicate IsGprId(id: nat) {
    REG_W0 <= id <= REG_XZR && id != REG_WSP && id != REG_SP
  }

  /** `a64_bf_gpr_encoding_any_width`: the encoding and the width of a general register. */
  function GprAnyWidth(o: Operand): Option<(nat, nat)> {
    var info := Lookup(o.reg);
    if o.kind != OpReg then None
    else if info.Some? then
      if !IsGprId(o.reg % U32) || (o.width != 0 && o.width != info.value.width) then None
      else Some((info.value.encoding, info.value.width))
    else if o.reg <= 30 && (o.width == 32 || o.width == 64) then Some((o.reg, o.width))
    else None
  }

  function InMask(value: nat, mask: u32): Option<u32> {
    if AndNot(value, mask) != 0 then None else Within(value, mask); Some(value)
  }

  function ShiftedRegField(o: Operand, desc: OperandDesc): Option<u32> {
    if o.shiftReg != 0 || o.extendKind != 0 || o.extendAmount != 0 || o.extendedReg then None
    else
      var reg := RegEncoding(o, desc);
      if reg.None? then None
      else if o.shiftAmount > (if desc.width == 32 then 31 else 63) || o.shiftKind > 3 then None
      else if desc.transform.ArithShiftedReg? && o.shiftKind == 3 then None
      else InMask(Or(Or(reg.value, Shl(o.shiftAmount, 5)), Shl(o.shiftKind, 11)), desc.sourceMask)
  }

  function ExtendedRegField(o: Operand, desc: OperandDesc): Option<u32> {
    if !o.extendedReg || o.shiftKind != 0 || o.shiftAmount != 0 || o.shiftReg != 0 then None
    else
      var g := GprAnyWidth(o);
      if g.None? then None
      else
        var (reg, sourceWidth) := g.value;
        var wide := o.extendKind == 3 || o.extendKind == 7;
        if o.extendKind > 7 || o.extendAmount > 4 then None
        else if desc.width == 32 && (sourceWidth != 32 || wide) then None
        else if desc.width == 64 && sourceWidth != (if wide then 64 else 32) then None
        else if desc.width != 32 && desc.width != 64 then None
        else InMask(Or(Or(reg, Shl(o.extendAmount, 5)), Shl(o.extendKind, 8)), desc.sourceMask)
  }

  /** `a64_bf_gpr_seq_pair_value`: any register of the width with an even encoding will do. */
  function SeqPairField(o: Operand, desc: OperandDesc): Option<u32> {
    var info := Lookup(o.reg);
    if o.kind != OpReg || !o.registerPair || !Plain(o) then None
    else if desc.width != 32 && desc.width != 64 then None
    else if info.Some? then
      if info.value.encoding > 30 || info.value.encoding % 2 != 0 || info.value.width != desc.width then None
      else InMask(info.value.encoding, desc.sourceMask)
    else if o.reg <= 30 && o.reg % 2 == 0 && (o.width == 0 || o.width == desc.width) then InMask(o.reg, desc.sourceMask)
    else None
  }

  function WindowField(o: Operand, desc: OperandDesc, first: nat): Option<u32> {
    if !Plain(o) then None
    else
      var reg := RegEncoding(o, desc);
      if reg.None? || reg.value < first || reg.value > 15 then None
      else InMask(reg.value - first, desc.sourceMask)
  }

  /** `a64_bf_reg_value`. */
  function EncodeReg(o: Operand, desc: OperandDesc): Option<u32> {
    match desc.transform
    case GprSeqPair => SeqPairField(o, desc)
    case SyspXzrPair =>
      if o.kind != OpReg || !o.registerPair || !Plain(o) then None
      else if desc.width != 64 || desc.sourceMask != 0 || o.reg != REG_XZR then None
      else Some(0)
    case ArithShiftedReg => ShiftedRegField(o, desc)
    case LogicalShiftedReg => ShiftedRegField(o, desc)
    case ArithExtendedReg => ExtendedRegField(o, desc)
    case PnrP8ToP15 => WindowField(o, desc, 8)
    case GprW12ToW15 => WindowField(o, desc, 12)
    case _ =>
      if !Plain(o) then None
      else
        var reg := RegEncoding(o, desc);
        if reg.None? then None else InMask(reg.value, desc.sourceMask)
  }

  // ---- decoder

  function FromId(id: nat, width: nat): Option<Operand> {
    if id == 0 then None else Some(RegOperand(id, width))
  }

  function WithList(o: Option<Operand>, literal: u32): Option<Operand> {
    if o.None? || literal == 0 then o else Some(o.value.(vectorList := true, imm := literal))
  }

  /** `a64_td_reg_operand`. */
  function DecodePlainReg(value: u32, desc: OperandDesc): Option<Operand> {
    var e := And(value, 0x1f);
    match desc.transform
    case GprSeqPair =>
      if e % 2 != 0 || e > 30 || (desc.width != 32 && desc.width != 64) then None
      else
        var o := FromId(RegId(e, desc.width, false, GPR), desc.width);
        if o.None? then None else Some(o.value.(registerPair := true))
    case SyspXzrPair =>
      if value != 0 || desc.width != 64 then None
      else Some(RegOperand(REG_XZR, 64).(registerPair := true))
    case PnrP8ToP15 =>
      if e > 7 then None
      else WithList(FromId(RegId(e + 8, desc.width, desc.reg31IsSp, desc.regClass), desc.width), desc.literal)
    case GprW12ToW15 =>
      if e > 3 || desc.width != 32 || desc.regClass != GPR then None
      else WithList(FromId(RegId(e + 12, desc.width, desc.reg31IsSp, desc.regClass), desc.width), desc.literal)
    case _ =>
      WithList(FromId(RegId(e, desc.width, desc.reg31IsSp, desc.regClass), desc.width), desc.literal)
  }

  /** `a64_td_shifted_reg_operand`. */
  function DecodeShiftedReg(value: u32, desc: OperandDesc): Option<Operand> {
    var o := DecodePlainReg(value, desc);
    var amount, shiftType := And(Shr(value, 5), 0x3f), And(Shr(value, 11), 3);
    if o.None? then None
    else if amount > (if desc.width == 32 then 31 else 63) then None
    else if desc.transform.ArithShiftedReg? && shiftType == 3 then None
    else Some(o.value.(shiftKind := shiftType, shiftAmount := amount))
  }

  /** `a64_td_extended_reg_operand`. */
  function DecodeExtendedReg(value: u32, desc: OperandDesc): Option<Operand> {
    var amount, extend := And(Shr(value, 5), 7), And(Shr(value, 8), 7);
    if desc.regClass != GPR || amount > 4 || (desc.width != 32 && desc.width != 64) then None
    else
      var sourceWidth := if desc.width == 32 then 32 else if extend == 3 || extend == 7 then 64 else 32;
      var o := FromId(RegId(And(value, 0x1f), sourceWidth, false, GPR), sourceWidth);
      if o.None? then None
      else Some(o.value.(extendedReg := true, extendKind := extend, extendAmount := amount))
  }

  /** `a64_td_decode_reg_operand`. */
  function DecodeReg(value: u32, desc: OperandDesc): Option<Operand> {
    match desc.transform
    case ArithShiftedReg => DecodeShiftedReg(value, desc)
    case LogicalShiftedReg => DecodeShiftedReg(value, desc)
    case ArithExtendedReg => DecodeExtendedReg(value, desc)
    case _ => DecodePlainReg(value, desc)
  }

  // ---- round trip

  /** Register operands that mean the same, flags aside; the operand width may have been left open. */
  predicate SameRegister(o: Operand, back: Operand) {
    && back.kind == OpReg
    && back.reg == o.reg
    && OpenOr(o.width, back.width)
    && back.shiftReg == o.shiftReg
    && back.shiftKind == o.shiftKind
    && back.shiftAmount == o.shiftAmount
    && back.extendKind == o.extendKind
    && back.extendAmount == o.extendAmount
    && back.extendedReg == o.extendedReg
  }

  /** The accepted registers that come back: they are named by their ids, in the class and width of the field. */
  predicate KeepsRegister(o: Operand, desc: OperandDesc) {
    match desc.transform
    case GprSeqPair => IsGpr(o.reg, desc.width, false) && OpenOr(o.width, desc.width)
    case SyspXzrPair => OpenOr(o.width, 64)
    case ArithExtendedReg => desc.regClass == GPR && (IsGpr(o.reg, 32, false) || IsGpr(o.reg, 64, false))
    case _ =>
      && (desc.transform.GprW12ToW15? ==> desc.width == 32 && desc.regClass == GPR)
      && IsRegister(o.reg, desc.width, desc.reg31IsSp, desc.regClass)
      && OpenOr(o.width, desc.width)
  }

  predicate IsPair(t: Transform) {
    t.GprSeqPair? || t.SyspXzrPair?
  }

  /** The operand kinds that carry the shape of a vector list in their descriptor. */
  predicate CarriesList(desc: OperandDesc) {
    desc.literal != 0 && !IsPair(desc.transform) && !desc.transform.ArithExtendedReg?
  }

  /** The flags, and the shape of a list. */
  predicate SameFlags(o: Operand, back: Operand) {
    && back.registerPair == o.registerPair && back.vectorList == o.vectorList && (o.vectorList ==> back.imm == o.imm)
    && back.registerList == o.registerList && back.negativeOffset == o.negativeOffset
  }

  /** The flags are what the descriptor says they are: the encoder looks at the pair flag only for pairs, and at the
      list flag only to refuse another shape, which it compares modulo 2^32. */
  predicate KeepsFlags(o: Operand, desc: OperandDesc) {
    && o.registerPair == IsPair(desc.transform)
    && o.vectorList == CarriesList(desc)
    && (o.vectorList ==> o.imm == desc.literal)
    && !o.registerList && !o.negativeOffset
  }

  /** Three packed fields come apart again. */
  lemma ThreeFields(a: nat, b: nat, c: nat, m: nat, n: nat)
    requires a < 32 && b < Pow2(m) && n == 5 + m
    ensures var v := Or(Or(a, Shl(b, 5)), Shl(c, n));
            And(v, 0x1f) == a && Low(Shr(v, 5), m) == b && Shr(v, n) == c
  {
    var v := Or(Or(a, Shl(b, 5)), Shl(c, n));
    OrBits(Or(a, Shl(b, 5)), Shl(c, n));
    OrBits(a, Shl(b, 5));
    ShlBits(b, 5);
    ShlBits(c, n);
    assert Ones(5) == 0x1f && Pow2(5) == 32;
    AndBits(v, 0x1f);
    OnesBits(5);
    ShrBits(v, 5);
    LowBits(Shr(v, 5), m);
    ShrBits(v, n);
    forall i: nat | i >= 5 ensures !Bit(a, i) { BitAbove(a, 5, i); }
    forall i: nat | i >= m ensures !Bit(b, i) { BitAbove(b, m, i); }
    SameBits(And(v, 0x1f), a);
    SameBits(Low(Shr(v, 5), m), b);
    SameBits(Shr(v, n), c);
  }

  lemma ShiftedFields(reg: nat, amount: nat, kind: nat)
    requires reg < 32 && amount < 64 && kind < 4
    ensures var v := Or(Or(reg, Shl(amount, 5)), Shl(kind, 11));
            And(v, 0x1f) == reg && And(Shr(v, 5), 0x3f) == amount && And(Shr(v, 11), 3) == kind
  {
    var v := Or(Or(reg, Shl(amount, 5)), Shl(kind, 11));
    assert Pow2(6) == 64 && Ones(6) == 0x3f && Pow2(2) == 4 && Ones(2) == 3;
    hide Or, Shl, Shr, And, Low, Pow2;
    ThreeFields(reg, amount, kind, 6, 11);
    AndOnes(Shr(v, 5), 6);
    AndOnes(Shr(v, 11), 2);
    LowSmall(kind, 2);
  }

  lemma ExtendedFields(reg: nat, amount: nat, kind: nat)
    requires reg < 32 && amount < 8 && kind < 8
    ensures var v := Or(Or(reg, Shl(amount, 5)), Shl(kind, 8));
            And(v, 0x1f) == reg && And(Shr(v, 5), 7) == amount && And(Shr(v, 8), 7) == kind
  {
    var v := Or(Or(reg, Shl(amount, 5)), Shl(kind, 8));
    assert Pow2(3) == 8 && Ones(3) == 7;
    hide Or, Shl, Shr, And, Low, Pow2;
    ThreeFields(reg, amount, kind, 3, 8);
    AndOnes(Shr(v, 5), 3);
    AndOnes(Shr(v, 8), 3);
    LowSmall(kind, 3);
  }

  lemma PlainField(e: nat)
    requires e < 32
    ensures And(e, 0x1f) == e
  {
    assert Ones(5) == 0x1f && Pow2(5) == 32;
    AndOnes(e, 5);
    LowSmall(e, 5);
  }

  /** The width suits the class, and the transforms that only make sense for one class say so. */
  predicate ClassFits(desc: OperandDesc) {
    && (desc.transform.GprW12ToW15? ==> desc.width == 32 && desc.regClass == GPR)
    && (desc.transform.ArithExtendedReg? ==> desc.regClass == GPR)
    && HasWidth(desc.width, desc.regClass)
  }

  /** The decoder reads the encoded register exactly when it is kept, and some register if the descriptor fits. */
  predicate Back(o: Operand, back: Option<Operand>, desc: OperandDesc) {
    && (back.Some? && SameRegister(o, back.value) <==> KeepsRegister(o, desc))
    && (ClassFits(desc) ==> back.Some?)
  }

  lemma ShiftedBack(o: Operand, desc: OperandDesc)
    requires (desc.transform.ArithShiftedReg? || desc.transform.LogicalShiftedReg?)
    requires ShiftedRegField(o, desc).Some?
    ensures Back(o, DecodeShiftedReg(ShiftedRegField(o, desc).value, desc), desc)
  {
    hide And, Or, Shl, Shr, AndNot, Encoding, RegId, IsRegister;
    EncodingBack(o.reg, o.width, desc.width, desc.reg31IsSp, desc.regClass);
    if ClassFits(desc) { EncodingDecodes(o.reg, o.width, desc.width, desc.reg31IsSp, desc.regClass); }
    ShiftedFields(RegEncoding(o, desc).value, o.shiftAmount, o.shiftKind);
  }

  lemma AnyWidthBack(o: Operand)
    requires GprAnyWidth(o).Some?
    ensures var (e, width) := GprAnyWidth(o).value;
            && e < 32
            && RegId(e, width, false, GPR) != 0
            && OpenOr(o.width, width)
            && (RegId(e, width, false, GPR) == o.reg <==> IsGpr(o.reg, 32, false) || IsGpr(o.reg, 64, false))
  {
  }

  lemma ExtendedBack(o: Operand, desc: OperandDesc)
    requires desc.transform.ArithExtendedReg? && ExtendedRegField(o, desc).Some?
    ensures Back(o, DecodeExtendedReg(ExtendedRegField(o, desc).value, desc), desc)
  {
    hide And, Or, Shl, Shr, AndNot, RegId, GprAnyWidth, IsGpr;
    AnyWidthBack(o);
    ExtendedFields(GprAnyWidth(o).value.0, o.extendAmount, o.extendKind);
  }

  lemma WindowBack(o: Operand, desc: OperandDesc, first: nat)
    requires WindowField(o, desc, first).Some?
    requires (desc.transform.PnrP8ToP15? && first == 8) || (desc.transform.GprW12ToW15? && first == 12)
    ensures Back(o, DecodePlainReg(WindowField(o, desc, first).value, desc), desc)
  {
    hide And, AndNot, Encoding, RegId, IsRegister;
    EncodingBack(o.reg, o.width, desc.width, desc.reg31IsSp, desc.regClass);
    if ClassFits(desc) { EncodingDecodes(o.reg, o.width, desc.width, desc.reg31IsSp, desc.regClass); }
    PlainField(RegEncoding(o, desc).value - first);
  }

  lemma PairBack(o: Operand, desc: OperandDesc)
    requires desc.transform.GprSeqPair? && SeqPairField(o, desc).Some?
    ensures Back(o, DecodePlainReg(SeqPairField(o, desc).value, desc), desc)
  {
    hide And, AndNot;
    PlainField(SeqPairField(o, desc).value);
  }

  predicate IsOrdinary(t: Transform) {
    !IsPair(t) && !t.PnrP8ToP15? && !t.GprW12ToW15? && !t.ArithShiftedReg? && !t.LogicalShiftedReg? && !t.ArithExtendedReg?
  }

  lemma PlainBack(o: Operand, desc: OperandDesc)
    requires IsOrdinary(desc.transform) && Plain(o) && RegEncoding(o, desc).Some?
    ensures RegEncoding(o, desc).value < 32
    ensures Back(o, DecodePlainReg(RegEncoding(o, desc).value, desc), desc)
  {
    hide And, Encoding, RegId, IsRegister;
    EncodingBack(o.reg, o.width, desc.width, desc.reg31IsSp, desc.regClass);
    if ClassFits(desc) { EncodingDecodes(o.reg, o.width, desc.width, desc.reg31IsSp, desc.regClass); }
    PlainField(RegEncoding(o, desc).value);
  }

  /** The flags of a decoded register operand. */
  lemma DecodedFlags(value: u32, desc: OperandDesc)
    requires DecodeReg(value, desc).Some?
    ensures var back := DecodeReg(value, desc).value;
            && back.registerPair == IsPair(desc.transform)
            && back.vectorList == CarriesList(desc)
            && (back.vectorList ==> back.imm == desc.literal)
            && !back.registerList && !back.negativeOffset
  {
    hide And, Shr, RegId;
  }

  lemma RegisterBack(o: Operand, desc: OperandDesc)
    requires EncodeReg(o, desc).Some?
    ensures Back(o, DecodeReg(EncodeReg(o, desc).value, desc), desc)
  {
    hide AndNot, ShiftedRegField, DecodeShiftedReg, ExtendedRegField, DecodeExtendedReg, WindowField, SeqPairField, DecodePlainReg,
         RegEncoding, KeepsRegister, Back, ClassFits;
    match desc.transform
    case GprSeqPair => PairBack(o, desc);
    case SyspXzrPair => XzrBack(o, desc);
    case ArithShiftedReg => ShiftedBack(o, desc);
    case LogicalShiftedReg => ShiftedBack(o, desc);
    case ArithExtendedReg => ExtendedBack(o, desc);
    case PnrP8ToP15 => WindowBack(o, desc, 8);
    case GprW12ToW15 => WindowBack(o, desc, 12);
    case _ => PlainBack(o, desc);
  }

  lemma XzrBack(o: Operand, desc: OperandDesc)
    requires desc.transform.SyspXzrPair? && EncodeReg(o, desc).Some?
    ensures Back(o, DecodePlainReg(EncodeReg(o, desc).value, desc), desc)
  {
  }

  /** A register operand that the encoder accepts decodes to the same register exactly when `KeepsRegister` holds, and
      where it decodes, with the same flags exactly when `KeepsFlags` holds; it decodes if the descriptor fits. */
  lemma RegRoundTrip(o: Operand, desc: OperandDesc)
    requires EncodeReg(o, desc).Some?
    ensures var back := DecodeReg(EncodeReg(o, desc).value, desc);
            && (back.Some? && SameRegister(o, back.value) <==> KeepsRegister(o, desc))
            && (back.Some? ==> (SameFlags(o, back.value) <==> KeepsFlags(o, desc)))
            && (ClassFits(desc) ==> back.Some?)
  {
    RegisterBack(o, desc);
    hide EncodeReg, DecodeReg, CarriesList, IsPair, SameRegister, KeepsRegister, ClassFits;
    if DecodeReg(EncodeReg(o, desc).value, desc).Some? { DecodedFlags(EncodeReg(o, desc).value, desc); }
  }

  // ---- where the two sides disagree

  /** X2 that is marked as a pair is accepted as a single register, and comes back as one. */
  lemma PairCounterexample(o: Operand, desc: OperandDesc)
    requires desc.transform.RawUnsignedField? && desc.regClass == GPR && desc.width == 64 && desc.sourceMask == 0x1f
    requires o == RegOperand(REG_X0 + 2, 64).(registerPair := true)
    ensures EncodeReg(o, desc) == Some(2)
    ensures DecodeReg(EncodeReg(o, desc).value, desc).Some? && !DecodeReg(EncodeReg(o, desc).value, desc).value.registerPair
  {
    NumberedField(o, desc, 2);
    hide DecodeReg, EncodeReg;
    RegRoundTrip(o, desc);
    DecodedFlags(EncodeReg(o, desc).value, desc);
  }

  lemma NumberedField(o: Operand, desc: OperandDesc, e: nat)
    requires desc.transform.RawUnsignedField? && desc.sourceMask == 0x1f && e < 32
    requires o.kind == OpReg && Plain(o) && !o.vectorList
    requires Encoding(o.reg, o.width, desc.width, desc.reg31IsSp, desc.regClass) == Some(e)
    ensures EncodeReg(o, desc) == Some(e)
  {
    hide And, AndNot, Encoding, Pow2;
    InFive(e);
  }

  lemma InFive(e: nat)
    requires e < 32
    ensures AndNot(e, 0x1f) == 0
  {
    assert Pow2(5) == 32 && Ones(5) == 0x1f;
    hide AndNot, Pow2, Ones;
    Immediates.InOnes(e, 5);
  }

  /** In a 64-bit field W0, whose id is 1, is encoded as X1 if it leaves its width open, and as X0 if it claims
      64 bits. */
  lemma WidthCounterexample(o: Operand, desc: OperandDesc)
    requires desc.transform.RawUnsignedField? && desc.regClass == GPR && desc.width == 64 && desc.sourceMask == 0x1f
    requires o == RegOperand(REG_W0, 0) || o == RegOperand(REG_W0, 64)
    ensures EncodeReg(o, desc) == Some(if o.width == 0 then 1 else 0)
    ensures DecodeReg(EncodeReg(o, desc).value, desc).Some?
    ensures DecodeReg(EncodeReg(o, desc).value, desc).value.reg == if o.width == 0 then REG_X0 + 1 else REG_X0
  {
    NumberedField(o, desc, if o.width == 0 then 1 else 0);
    GprRead(EncodeReg(o, desc).value, desc);
  }

  lemma GprRead(e: u32, desc: OperandDesc)
    requires desc.transform.RawUnsignedField? && desc.regClass == GPR && desc.width == 64 && e < 31
    ensures DecodeReg(e, desc).Some? && DecodeReg(e, desc).value.reg == REG_X0 + e
  {
    hide And;
    PlainField(e);
  }

  /** NZCV, a 64-bit register with encoding 0, is accepted as the register pair X0, X1. */
  lemma SystemPairCounterexample(o: Operand, desc: OperandDesc)
    requires desc.transform.GprSeqPair? && desc.width == 64 && o == RegOperand(REG_XZR + 1, 64).(registerPair := true)
    ensures EncodeReg(o, desc) == Some(0)
    ensures DecodeReg(EncodeReg(o, desc).value, desc).Some? && DecodeReg(EncodeReg(o, desc).value, desc).value.reg == REG_X0
  {
    assert AndNot(0, desc.sourceMask) == 0;
    hide AndNot;
    PairRead(EncodeReg(o, desc).value, desc);
  }

  lemma PairRead(e: u32, desc: OperandDesc)
    requires desc.transform.GprSeqPair? && desc.width == 64 && e < 31 && e % 2 == 0
    ensures DecodeReg(e, desc).Some? && DecodeReg(e, desc).value.reg == REG_X0 + e
  {
    hide And;
    PlainField(e);
  }
}
