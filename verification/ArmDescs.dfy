/** ARM operand descriptors. */
module ArmDescs {
  import opened Bits

  datatype Kind = KindReg | KindImm | KindMem | KindPcRel | KindOther

  datatype Transform =
    | RawUnsignedField | RawSignedField | ModifiedImm | T2SoImmediate
    | NeonVcvtImm32 | VecShiftRight | ImmFixedLiteral | ImmPlusOne | PostIdxImm8 | PostIdxImm8s4 | ImmScale4
    | Am2OffsetImm | MveSaturateOp | ComplexRotate | ComplexRotateOdd | BfInvMaskWidth
    | PcRelA32Words4 | PcRelA32Words2 | PcRelThumbWords2 | PcRelThumbCb | PcRelArmAdr | PcRelThumbAdr | PcRelT2Adr
    | PcRelThumbT2B | PcRelThumbT2Blx | PcRelThumbT2Bcc | PcRelT2LdrLabel
    | MemBase | MemArmImm12 | MemArmAddrMode5 | MemArmAddrMode3 | MemArmLdstSoReg | MemArmAm2OffsetReg | MemArmAm3Offset
    | MemThumbImm1 | MemThumbImm2 | MemThumbImm4 | MemThumbSp | MemThumbRr | MemThumbPc
    | MemT2SoReg | MemT2Imm12 | MemT2PosImm8 | MemT2NegImm8 | MemT2ForceNegImm8 | MemT2Imm8s4 | MemT2Imm7s4 | MemT2Imm0To1020s4
    | MemNeonAddrMode6 | MemNeonAm6Offset | MemMveAddr | MemMveAddrQ | MemMveAddrQi | MemTbb | MemTbh
    | ShiftedRegImm | ShiftedRegReg | RegList | VecList(shape: nat) | RegPostIdx | RegQprFromDreg | RegTgprEven | RegTgprOdd
    | RegMemBaseAlias | RegDerived | RegFixedSp | RegFixedLr | RegFixedLiteral

  datatype Desc = Desc(
    operandIndex: nat,
    kind: Kind,
    width: nat,
    transform: Transform,
    regClass: nat,
    aliasBase: nat,
    sourceMask: u32)
}
