/** AArch64 register operands the other way round: what the encoder makes of a register that the decoder read. */
module A64RegistersAgain {
  import opened Bits
  import opened Wrappers
  import opened Operands
  import opened A64Immediates
  import opened A64RegisterTable
  import opened A64Registers

  /** The fields whose operands the encoder takes back: it refuses a 64-bit extension of a 32-bit operand, and a mask
      for the pair that has no field. */
  predicate RegTaken(v: u32, d: OperandDesc) {
    match d.transform
    case ArithExtendedReg => d.width == 32 ==> And(Shr(v, 8), 7) != 3 && And(Shr(v, 8), 7) != 7
    case SyspXzrPair => d.sourceMask == 0
    case _ => true
  }

  /** The field that is given back. */
  function RegAgain(v: u32, d: OperandDesc): nat {
    match d.transform
    case SyspXzrPair => 0
    case ArithShiftedReg => Low(v, 13)
    case LogicalShiftedReg => Low(v, 13)
    case ArithExtendedReg => Low(v, 11)
    case _ => Low(v, 5)
  }

  /** A register of a class is admitted for it. */
  lemma RegisterIsAdmitted(id: nat, width: nat, sp: bool, cls: nat)
    requires IsRegister(id, width, sp, cls)
    ensures Admitted(id, width, cls) && 0 < id < U32
    ensures cls == GPR && InfoOf(id).Some? && InfoOf(id).value.encoding == 31 ==> Reg31Fits(id, sp)
  {
  }

  /** A register that was found by its encoding has that encoding for the encoder. */
  lemma FoundEncoding(e: nat, width: nat, sp: bool, cls: nat)
    requires RegId(e, width, sp, cls) != 0
    ensures Encoding(RegId(e, width, sp, cls), width, width, sp, cls) == Some(e)
  {
    hide RegId, InfoOf, IsRegister, Admitted, Reg31Fits;
    IdIsRegister(e, width, sp, cls);
    RegisterIsAdmitted(RegId(e, width, sp, cls), width, sp, cls);
  }

  lemma LowFive(v: nat)
    ensures And(v, 0x1f) == Low(v, 5) < 32
  {
    assert Ones(5) == 0x1f && Pow2(5) == 32;
    hide And, Low, Pow2, Ones;
    AndOnes(v, 5);
    LowAtMost(v, 5);
  }

  /** The low part of what is inside a mask is inside it. */
  lemma LowInMask(v: u32, mask: u32, n: nat)
    requires AndNot(v, mask) == 0
    ensures InMask(Low(v, n), mask) == Some(Low(v, n))
  {
    hide Low, AndNot;
    LowWithin(v, mask, n);
  }

  lemma TwoLow(v: nat, n: nat, m: nat)
    ensures Or(Low(v, n), Shl(Low(Shr(v, n), m), n)) == Low(v, n + m)
  {
    hide Or, Low, Shl, Shr, Pow2;
    LowSplit(v, n, m);
    LowAtMost(v, n);
    Joined(Low(v, n), Low(Shr(v, n), m), n);
  }

  lemma ShiftedParts(v: nat)
    ensures And(Shr(v, 5), 0x3f) == Low(Shr(v, 5), 6) && And(Shr(v, 11), 3) == Low(Shr(v, 11), 2)
    ensures And(Shr(v, 5), 7) == Low(Shr(v, 5), 3) && And(Shr(v, 8), 7) == Low(Shr(v, 8), 3)
    ensures Or(Or(Low(v, 5), Shl(Low(Shr(v, 5), 6), 5)), Shl(Low(Shr(v, 11), 2), 11)) == Low(v, 13)
    ensures Or(Or(Low(v, 5), Shl(Low(Shr(v, 5), 3), 5)), Shl(Low(Shr(v, 8), 3), 8)) == Low(v, 11)
  {
    assert Ones(6) == 0x3f && Ones(2) == 3 && Ones(3) == 7;
    hide And, Or, Low, Shl, Shr, Ones;
    AndOnes(Shr(v, 5), 6);
    AndOnes(Shr(v, 11), 2);
    AndOnes(Shr(v, 5), 3);
    AndOnes(Shr(v, 8), 3);
    TwoLow(v, 5, 6);
    TwoLow(v, 11, 2);
    TwoLow(v, 5, 3);
    TwoLow(v, 8, 3);
  }

  lemma OrdinaryTaken(v: u32, d: OperandDesc)
    requires IsOrdinary(d.transform) && AndNot(v, d.sourceMask) == 0 && DecodeReg(v, d).Some?
    ensures EncodeReg(DecodeReg(v, d).value, d) == Some(RegAgain(v, d))
  {
    hide And, AndNot, Low, RegId, Encoding, InMask;
    LowFive(v);
    LowInMask(v, d.sourceMask, 5);
    FoundEncoding(And(v, 0x1f), d.width, d.reg31IsSp, d.regClass);
  }

  lemma ShiftedTaken(v: u32, d: OperandDesc)
    requires (d.transform.ArithShiftedReg? || d.transform.LogicalShiftedReg?) && AndNot(v, d.sourceMask) == 0
    requires DecodeReg(v, d).Some?
    ensures EncodeReg(DecodeReg(v, d).value, d) == Some(RegAgain(v, d))
  {
    hide And, Or, Shl, Shr, AndNot, Low, RegId, Encoding, InMask;
    LowFive(v);
    ShiftedParts(v);
    SmallKind(v);
    LowInMask(v, d.sourceMask, 13);
    FoundEncoding(And(v, 0x1f), d.width, d.reg31IsSp, d.regClass);
  }

  lemma SmallKind(v: nat)
    ensures And(Shr(v, 11), 3) <= 3 && And(Shr(v, 8), 7) <= 7
  {
    AndAtMost(Shr(v, 11), 3);
    AndAtMost(Shr(v, 8), 7);
  }

  lemma AnyWidth(e: nat, width: nat)
    requires e < 32 && (width == 32 || width == 64)
    ensures GprAnyWidth(RegOperand(RegId(e, width, false, GPR), width)) == Some((e, width))
  {
  }

  lemma AnyWidthOf(o: Operand, id: nat, width: nat)
    requires o.kind == OpReg && o.reg == id && o.width == width
    ensures GprAnyWidth(o) == GprAnyWidth(RegOperand(id, width))
  {
  }

  lemma ExtendedTaken(v: u32, d: OperandDesc)
    requires d.transform.ArithExtendedReg? && AndNot(v, d.sourceMask) == 0 && DecodeReg(v, d).Some?
    ensures EncodeReg(DecodeReg(v, d).value, d) == if RegTaken(v, d) then Some(RegAgain(v, d)) else None
  {
    hide And, Or, Shl, Shr, AndNot, Low, RegId, GprAnyWidth, InMask;
    LowFive(v);
    ShiftedParts(v);
    SmallKind(v);
    LowInMask(v, d.sourceMask, 11);
    var o := DecodeReg(v, d).value;
    AnyWidth(And(v, 0x1f), o.width);
    AnyWidthOf(o, RegId(And(v, 0x1f), o.width, false, GPR), o.width);
  }

  lemma WindowTaken(v: u32, d: OperandDesc)
    requires (d.transform.PnrP8ToP15? || d.transform.GprW12ToW15?) && AndNot(v, d.sourceMask) == 0 && DecodeReg(v, d).Some?
    ensures EncodeReg(DecodeReg(v, d).value, d) == Some(RegAgain(v, d))
  {
    hide And, AndNot, Low, RegId, Encoding, InMask;
    LowFive(v);
    LowInMask(v, d.sourceMask, 5);
    var first := if d.transform.PnrP8ToP15? then 8 else 12;
    FoundEncoding(And(v, 0x1f) + first, d.width, d.reg31IsSp, d.regClass);
  }

  lemma EvenRegister(e: nat, width: nat)
    requires e < 31 && (width == 32 || width == 64)
    ensures var id := RegId(e, width, false, GPR); id != 0 && Lookup(id) == Some(Info(e, width))
  {
  }

  lemma PairTaken(v: u32, d: OperandDesc)
    requires d.transform.GprSeqPair? && AndNot(v, d.sourceMask) == 0 && DecodeReg(v, d).Some?
    ensures EncodeReg(DecodeReg(v, d).value, d) == Some(RegAgain(v, d))
  {
    hide And, AndNot, Low, InMask, RegId, Lookup;
    LowFive(v);
    LowInMask(v, d.sourceMask, 5);
    if And(v, 0x1f) < 31 && (d.width == 32 || d.width == 64) { EvenRegister(And(v, 0x1f), d.width); }
  }

  lemma XzrTaken(v: u32, d: OperandDesc)
    requires d.transform.SyspXzrPair? && DecodeReg(v, d).Some?
    ensures EncodeReg(DecodeReg(v, d).value, d) == if RegTaken(v, d) then Some(RegAgain(v, d)) else None
  {
  }

  /** A register operand that the decoder read from inside the mask is taken back exactly for the fields that `RegTaken`
      names, and is given the low bits of the field that its form reads. */
  lemma DecodedRegister(v: u32, d: OperandDesc)
    requires AndNot(v, d.sourceMask) == 0 && DecodeReg(v, d).Some?
    ensures EncodeReg(DecodeReg(v, d).value, d) == if RegTaken(v, d) then Some(RegAgain(v, d)) else None
  {
    hide DecodeReg, EncodeReg, AndNot, And, Low;
    match d.transform
    case GprSeqPair => PairTaken(v, d);
    case SyspXzrPair => XzrTaken(v, d);
    case ArithShiftedReg => ShiftedTaken(v, d);
    case LogicalShiftedReg => ShiftedTaken(v, d);
    case ArithExtendedReg => ExtendedTaken(v, d);
    case PnrP8ToP15 => WindowTaken(v, d);
    case GprW12ToW15 => WindowTaken(v, d);
    case _ => OrdinaryTaken(v, d);
  }
}
