/** The operand record of a decoded instruction. */
module Operands {
  import opened Bits

  datatype OperandKind = OpNone | OpReg | OpImm | OpMem | OpPcRel | OpOpaque

  datatype Memory = Memory(base: nat, index: nat, segment: nat, displacement: int, addressWidth: nat, scale: nat)

  /** Of the operand flags, those that the codecs look at are separate fields. */
  datatype Operand = Operand(
    kind: OperandKind,
    extendedReg: bool,
    registerList: bool,
    vectorList: bool,
    negativeOffset: bool,
    registerPair: bool,
    reg: nat,
    shiftReg: nat,
    imm: int,
    absTarget: u64,
    mem: Memory,
    width: nat,
    shiftKind: nat,
    shiftAmount: nat,
    extendKind: nat,
    extendAmount: nat)

  /** The flags, the shift and the extension of an operand. */
  predicate SameModifiers(a: Operand, b: Operand) {
    && a.extendedReg == b.extendedReg && a.registerList == b.registerList && a.vectorList == b.vectorList
    && a.negativeOffset == b.negativeOffset && a.registerPair == b.registerPair
    && a.shiftReg == b.shiftReg && a.shiftKind == b.shiftKind && a.shiftAmount == b.shiftAmount
    && a.extendKind == b.extendKind && a.extendAmount == b.extendAmount
  }

  /** A width that the caller left open fits every width. */
  predicate OpenOr(width: nat, other: nat) {
    width == 0 || width == other
  }

  const NO_MEMORY := Memory(0, 0, 0, 0, 0, 0)

  const NONE := Operand(OpNone, false, false, false, false, false, 0, 0, 0, 0, NO_MEMORY, 0, 0, 0, 0, 0)

  predicate Unmodified(o: Operand) {
    SameModifiers(o, NONE)
  }

  /** Without modifiers, and with the width that a record gives it. */
  predicate IsBare(o: Operand, width: nat) {
    Unmodified(o) && OpenOr(o.width, width)
  }

  function RegOperand(reg: nat, width: nat): Operand {
    NONE.(kind := OpReg, reg := reg, width := width)
  }

  function ImmOperand(imm: int, width: nat): Operand {
    NONE.(kind := OpImm, imm := imm, width := width)
  }

  function OpaqueOperand(value: nat, width: nat): Operand {
    NONE.(kind := OpOpaque, imm := value, width := width)
  }

  function PcRelOperand(disp: int, target: u64, width: nat): Operand {
    NONE.(kind := OpPcRel, imm := disp, absTarget := target, width := width)
  }

  function MemOperand(base: nat, disp: int, width: nat): Operand {
    NONE.(kind := OpMem, mem := NO_MEMORY.(base := base, displacement := disp, scale := 1), width := width)
  }

  function MemFullOperand(base: nat, index: nat, scale: nat, disp: int, width: nat, addressWidth: nat): Operand {
    NONE.(kind := OpMem, mem := Memory(base, index, 0, disp, addressWidth, scale), width := width)
  }
}
