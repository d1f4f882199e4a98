/** A32 and T32 memory operands: the encoder's addressing forms and the decoder's. */
module ArmMemory {
  import opened Bits
  import opened Wrappers
  import opened Operands
  import opened ArmDescs
  import opened PackedFields
  import Immediates
  import Residues

  const CORE_FIRST: nat := 1
  const REG_SP: nat := 14
  const REG_PC: nat := 16
  const QUAD_FIRST: nat := 65

  /** The register table as the encoder reads it: encodings 0-15 of the 32-bit registers, and of the
      quad registers.  Id 0 means no register. */
  datatype Registers = Registers(gpr4: nat -> Option<nat>, quad: nat -> Option<nat>)

  predicate IsCore(reg: nat) {
    CORE_FIRST <= reg < CORE_FIRST + 16
  }

  predicate IsQuad(reg: nat) {
    QUAD_FIRST <= reg < QUAD_FIRST + 16
  }

  /** R0-PC and Q0-Q15 have consecutive ids; other numbers may be read as a register too: other 32-bit registers
      share encodings, and ids are cut to 32 bits. */
  ghost predicate ValidRegisters(regs: Registers) {
    && regs.gpr4(0).None? && regs.quad(0).None?
    && (forall r: nat :: regs.gpr4(r).Some? ==> regs.gpr4(r).value < 16)
    && (forall r: nat :: IsCore(r) ==> regs.gpr4(r) == Some(r - CORE_FIRST))
    && (forall r: nat :: regs.quad(r).Some? ==> regs.quad(r).value < 16)
    && (forall r: nat :: IsQuad(r) ==> regs.quad(r) == Some(r - QUAD_FIRST))
  }

  predicate IsMem(o: Operand) {
    o.kind == OpMem && o.mem.segment == 0
  }

  predicate UnitScale(o: Operand) {
    o.mem.scale == 0 || o.mem.scale == 1
  }

  predicate Width32(o: Operand) {
    o.mem.addressWidth == 0 || o.mem.addressWidth == 32
  }

  predicate Simple(o: Operand) {
    IsMem(o) && UnitScale(o) && Width32(o)
  }

  function Magnitude(disp: int): nat {
    if disp < 0 then -disp else disp
  }

  function Masked(value: nat, mask: u32): Option<nat> {
    if AndNot(value, mask) == 0 then Some(value) else None
  }

  // ---- encoder

  /** The layout of a base register with a displacement. */
  datatype Layout = Layout(
    min: int, max: int, scale: nat,
    immAt: nat, immWidth: nat, baseAt: nat, baseWidth: nat,
    signAt: Option<nat>, positive: bool)

  function LayoutFields(l: Layout, magnitude: nat, base: nat, sign: nat): seq<Field> {
    [Field(l.immAt, l.immWidth, magnitude), Field(l.baseAt, l.baseWidth, base)]
    + if l.signAt.Some? then [Field(l.signAt.value, 1, sign)] else []
  }

  /** `arm_bf_mem_base_disp_value`. */
  function BaseDispField(regs: Registers, o: Operand, l: Layout): Option<nat> {
    if !Simple(o) || o.mem.index != 0 then None
    else
      var base, disp := regs.gpr4(o.mem.base), o.mem.displacement;
      if base.None? || base.value >= Pow2(l.baseWidth) then None
      else if disp < l.min || disp > l.max || (l.scale != 0 && disp % l.scale != 0) then None
      else
        var magnitude := if l.scale != 0 then Magnitude(disp) / l.scale else Magnitude(disp);
        if magnitude >= Pow2(l.immWidth) then None
        else Some(Pack(LayoutFields(l, magnitude, base.value, if (disp >= 0) == l.positive then 1 else 0)))
  }

  /** `arm_bf_mem_sp_disp_value` and `arm_bf_mem_thumb_pc_disp_value`. */
  function FixedBaseField(o: Operand, base: nat): Option<nat> {
    if !Simple(o) || o.mem.index != 0 || o.mem.base != base then None
    else if o.mem.displacement < 0 || o.mem.displacement > 1020 || o.mem.displacement % 4 != 0 then None
    else Some(o.mem.displacement / 4)
  }

  /** `arm_bf_mem_base_value`. */
  function BaseField(regs: Registers, o: Operand, d: Desc): Option<nat> {
    if !Simple(o) || o.mem.index != 0 || o.mem.displacement != 0 || regs.gpr4(o.mem.base).None? then None
    else Masked(regs.gpr4(o.mem.base).value, d.sourceMask)
  }

  /** `arm_bf_mem_thumb_rr_value`. */
  function ThumbRrField(regs: Registers, o: Operand): Option<nat> {
    if !Simple(o) || o.mem.displacement != 0 then None
    else
      var base, index := regs.gpr4(o.mem.base), regs.gpr4(o.mem.index);
      if base.None? || index.None? || base.value > 7 || index.value > 7 then None
      else Some(Pack([Field(0, 3, base.value), Field(3, 3, index.value)]))
  }

  function Scale(o: Operand): nat {
    if o.mem.scale == 0 then 1 else o.mem.scale
  }

  function ScaleBits(scale: nat): Option<nat> {
    if scale == 1 then Some(0) else if scale == 2 then Some(1) else if scale == 4 then Some(2)
    else if scale == 8 then Some(3) else None
  }

  /** `arm_bf_mem_t2_so_reg_value`. */
  function T2SoRegField(regs: Registers, o: Operand): Option<nat> {
    if !IsMem(o) || !Width32(o) || o.mem.displacement != 0 then None
    else
      var base, index, scale := regs.gpr4(o.mem.base), regs.gpr4(o.mem.index), ScaleBits(Scale(o));
      if base.None? || index.None? || scale.None? then None
      else Some(Pack([Field(0, 2, scale.value), Field(2, 4, index.value), Field(6, 4, base.value)]))
  }

  /** `arm_bf_mem_tbb_value`. */
  function TableBranchField(regs: Registers, o: Operand, d: Desc, scale: nat): Option<nat> {
    if !IsMem(o) || !Width32(o) || o.mem.displacement != 0 || Scale(o) != scale then None
    else
      var base, index := regs.gpr4(o.mem.base), regs.gpr4(o.mem.index);
      if base.None? || index.None? then None
      else Masked(Pack([Field(0, 4, index.value), Field(4, 4, base.value)]), d.sourceMask)
  }

  function AlignmentCode(alignment: int): nat {
    if alignment == 8 then 1 else if alignment == 16 then 2 else if alignment == 32 then 3 else 0
  }

  /** `arm_bf_mem_neon_addrmode6_value`. */
  function NeonField(regs: Registers, o: Operand, d: Desc): Option<nat> {
    if !Simple(o) || o.mem.index != 0 || o.mem.displacement != 0 || regs.gpr4(o.mem.base).None? then None
    else Masked(Pack([Field(0, 4, regs.gpr4(o.mem.base).value), Field(4, 2, AlignmentCode(o.imm))]), d.sourceMask)
  }

  /** `arm_bf_mem_neon_am6offset_value`. */
  function NeonOffsetField(regs: Registers, o: Operand, d: Desc): Option<nat> {
    if !Simple(o) || o.mem.base != 0 || o.mem.displacement != 0 || regs.gpr4(o.mem.index).None? then None
    else Masked(regs.gpr4(o.mem.index).value, d.sourceMask)
  }

  function MveScale(d: Desc): (s: nat)
    ensures s > 0
    ensures if d.width == 8 || d.width == 16 || d.width == 32 || d.width == 64 then 8 * s == d.width else s == 1
  {
    if d.width == 64 then 8 else if d.width == 32 then 4 else if d.width == 16 then 2 else 1
  }

  /** The scaled displacement with its add bit 0x80. */
  function MveOffset(o: Operand, d: Desc): Option<seq<Field>> {
    var disp := o.mem.displacement;
    if disp % MveScale(d) != 0 || disp / MveScale(d) < -127 || disp / MveScale(d) > 127 then None
    else Some([Field(0, 7, Magnitude(disp / MveScale(d))), Field(7, 1, if disp >= 0 then 1 else 0)])
  }

  /** `arm_bf_mem_mve_addr_value`. */
  function MveField(regs: Registers, o: Operand, d: Desc): Option<nat> {
    var mask := d.sourceMask;
    if !Simple(o) then None
    else if mask == 0x7f && o.mem.index != 0 then
      var base, index := regs.gpr4(o.mem.base), regs.gpr4(o.mem.index);
      if base.None? || index.None? || index.value > 7 then None
      else Masked(Pack([Field(0, 3, index.value), Field(3, 4, base.value)]), mask)
    else if o.mem.index != 0 || MveOffset(o, d).None? then None
    else if mask == 0xff then Masked(Pack(MveOffset(o, d).value), mask)
    else
      var base := regs.gpr4(o.mem.base);
      if base.None? || (mask == 0x7ff && base.value > 7) then None
      else Masked(Pack(MveOffset(o, d).value + [Field(8, 4, base.value)]), mask)
  }

  /** `arm_bf_mem_mve_addr_q_value`. */
  function MveQField(regs: Registers, o: Operand, d: Desc): Option<nat> {
    if d.sourceMask != 0x7f || !Simple(o) || o.mem.displacement != 0 then None
    else
      var base, index := regs.gpr4(o.mem.base), regs.quad(o.mem.index);
      if base.None? || index.None? || index.value > 7 then None
      else Masked(Pack([Field(0, 3, index.value), Field(3, 4, base.value)]), d.sourceMask)
  }

  /** `arm_bf_mem_mve_addr_qi_value`. */
  function MveQiField(regs: Registers, o: Operand, d: Desc): Option<nat> {
    if d.sourceMask != 0x7ff && d.sourceMask != 0xfff then None
    else if !IsMem(o) || !UnitScale(o) || o.mem.index != 0 || !(Width32(o) || o.mem.addressWidth == 128) then None
    else
      var base := regs.quad(o.mem.base);
      if base.None? || base.value > 7 || MveOffset(o, d).None? then None
      else Masked(Pack(MveOffset(o, d).value + [Field(8, 3, base.value)]), d.sourceMask)
  }

  /** `arm_bf_encode_arm_mem_shift`: the shift kind and amount fields; kind 4 is RRX. */
  function ShiftFields(kind: nat, amount: nat): Option<(nat, nat)> {
    if kind == 4 then
      if amount != 0 then None else Some((3, 0))
    else if kind > 3 then None
    else if kind == 0 then
      if amount > 31 then None else Some((0, amount))
    else if kind == 1 || kind == 2 then
      if amount == 0 || amount > 32 then None else Some((kind, if amount == 32 then 0 else amount))
    else if amount == 0 || amount > 31 then None
    else Some((3, amount))
  }

  predicate NoShift(o: Operand) {
    o.shiftKind == 0 && o.shiftAmount == 0 && o.shiftReg == 0 && o.extendKind == 0 && o.extendAmount == 0
  }

  predicate NoShiftReg(o: Operand) {
    o.shiftReg == 0 && o.extendKind == 0 && o.extendAmount == 0
  }

  function AddBit(o: Operand): nat {
    if o.negativeOffset then 0 else 1
  }

  /** The offset part of addressing mode 3: a register, or an eight-bit displacement; `flag` says
      which, at bit `flagAt`. */
  function Mode3Offset(regs: Registers, o: Operand, flagAt: nat): Option<seq<Field>> {
    var disp := o.mem.displacement;
    if o.mem.index != 0 then
      if disp != 0 || regs.gpr4(o.mem.index).None? then None
      else Some([Field(0, 4, regs.gpr4(o.mem.index).value), Field(8, 1, AddBit(o)), Field(flagAt, 1, 0)])
    else if disp < -255 || disp > 255 then None
    else Some([Field(0, 8, Magnitude(disp)), Field(8, 1, if disp < 0 then 0 else 1), Field(flagAt, 1, 1)])
  }

  /** `arm_bf_mem_arm_addrmode3_value`. */
  function Mode3Field(regs: Registers, o: Operand): Option<nat> {
    if !Simple(o) || !NoShift(o) || regs.gpr4(o.mem.base).None? then None
    else
      var offset := Mode3Offset(regs, o, 13);
      if offset.None? then None else Some(Pack(offset.value + [Field(9, 4, regs.gpr4(o.mem.base).value)]))
  }

  /** `arm_bf_mem_arm_am3offset_value`. */
  function Am3OffsetField(regs: Registers, o: Operand): Option<nat> {
    if !Simple(o) || !NoShift(o) || o.mem.base != 0 then None
    else
      var offset := Mode3Offset(regs, o, 9);
      if offset.None? then None else Some(Pack(offset.value))
  }

  function ShiftedIndex(index: nat, shift: (nat, nat), o: Operand): seq<Field> {
    [Field(0, 4, index), Field(5, 2, shift.0), Field(7, 5, shift.1), Field(12, 1, AddBit(o))]
  }

  /** `arm_bf_mem_arm_ldst_so_reg_value`. */
  function LdstSoRegField(regs: Registers, o: Operand): Option<nat> {
    if !Simple(o) || !NoShiftReg(o) || o.mem.displacement != 0 then None
    else
      var base, index, shift := regs.gpr4(o.mem.base), regs.gpr4(o.mem.index), ShiftFields(o.shiftKind, o.shiftAmount);
      if base.None? || index.None? || shift.None? then None
      else Some(Pack(ShiftedIndex(index.value, shift.value, o) + [Field(13, 4, base.value)]))
  }

  /** `arm_bf_mem_arm_am2offset_reg_value`. */
  function Am2OffsetField(regs: Registers, o: Operand): Option<nat> {
    if !Simple(o) || !NoShiftReg(o) || o.mem.displacement != 0 || o.mem.base != 0 then None
    else
      var index, shift := regs.gpr4(o.mem.index), ShiftFields(o.shiftKind, o.shiftAmount);
      if index.None? || shift.None? then None else Some(Pack(ShiftedIndex(index.value, shift.value, o)))
  }

  /** The layouts that `arm_bf_mem_value` names. */
  function EncodeLayout(d: Desc): Option<Layout> {
    match d.transform
    case MemArmImm12 => Some(Layout(-4095, 4095, 1, 0, 12, 13, 4, Some(12), true))
    case MemArmAddrMode5 => Some(Layout(-1020, 1020, 4, 0, 8, 9, 4, Some(8), true))
    case MemThumbImm1 => Some(Layout(0, 31, 1, 3, 5, 0, 3, None, false))
    case MemThumbImm2 => Some(Layout(0, 62, 2, 3, 5, 0, 3, None, false))
    case MemThumbImm4 => Some(Layout(0, 124, 4, 3, 5, 0, 3, None, false))
    case MemT2Imm12 => Some(Layout(0, 4095, 1, 0, 12, 13, 4, None, false))
    case MemT2PosImm8 => Some(Layout(0, 255, 1, 0, 8, 9, 4, None, false))
    case MemT2NegImm8 =>
      if And(d.sourceMask, 0x100) == 0 then Some(Layout(-255, 0, 1, 0, 8, 9, 4, Some(8), true))
      else Some(Layout(-255, 255, 1, 0, 8, 9, 4, Some(8), true))
    case MemT2ForceNegImm8 => Some(Layout(-255, 0, 1, 0, 8, 9, 4, None, false))
    case MemT2Imm8s4 => Some(Layout(-1020, 1020, 4, 0, 8, 9, 4, Some(8), true))
    case MemT2Imm7s4 => Some(Layout(-508, 508, 4, 0, 7, 8, 4, Some(7), true))
    case MemT2Imm0To1020s4 => Some(Layout(0, 1020, 4, 0, 8, 8, 4, None, false))
    case _ => None
  }

  /** `arm_bf_mem_value`. */
  function EncodeMem(regs: Registers, o: Operand, d: Desc): Option<nat> {
    match d.transform
    case MemBase => BaseField(regs, o, d)
    case MemThumbSp => FixedBaseField(o, REG_SP)
    case MemThumbPc => FixedBaseField(o, REG_PC)
    case MemThumbRr => ThumbRrField(regs, o)
    case MemT2SoReg => T2SoRegField(regs, o)
    case MemArmAddrMode3 => Mode3Field(regs, o)
    case MemArmLdstSoReg => LdstSoRegField(regs, o)
    case MemArmAm2OffsetReg => Am2OffsetField(regs, o)
    case MemArmAm3Offset => Am3OffsetField(regs, o)
    case MemNeonAddrMode6 => NeonField(regs, o, d)
    case MemNeonAm6Offset => NeonOffsetField(regs, o, d)
    case MemMveAddr => MveField(regs, o, d)
    case MemMveAddrQ => MveQField(regs, o, d)
    case MemMveAddrQi => MveQiField(regs, o, d)
    case MemTbb => TableBranchField(regs, o, d, 1)
    case MemTbh => TableBranchField(regs, o, d, 2)
    case _ =>
      var layout := EncodeLayout(d);
      if layout.None? then None else BaseDispField(regs, o, layout.value)
  }

  // ---- decoder

  /** `arm_td_reg_id` for the core registers and for the quad registers. */
  function Core(encoding: nat): nat { CORE_FIRST + encoding }

  function Quad(encoding: nat): nat { QUAD_FIRST + encoding }

  function Based(base: nat, disp: int, width: nat): Operand {
    MemOperand(base, disp, width).(mem := Memory(base, 0, 0, disp, 32, 1))
  }

  function Indexed(base: nat, index: nat, scale: nat, width: nat): Operand {
    MemFullOperand(base, index, scale, 0, width, 32)
  }

  /** `arm_td_mem_base_disp_operand`. */
  function BaseDispOperand(value: nat, width: nat, l: Layout): Operand {
    var disp := Get(value, l.immAt, l.immWidth) * l.scale;
    var negative := l.signAt.Some? && (Get(value, l.signAt.value, 1) != 0) != l.positive;
    Based(Core(Get(value, l.baseAt, l.baseWidth)), if negative then -(disp as int) else disp, width)
  }

  function Alignment(code: nat): int {
    if code == 1 then 8 else if code == 2 then 16 else if code == 3 then 32 else 0
  }

  function MveDisp(value: nat, d: Desc): int {
    var disp := Get(value, 0, 7);
    (if Get(value, 7, 1) == 0 then -(disp as int) else disp) * MveScale(d)
  }

  /** `arm_td_mem_mve_addr_operand`. */
  function MveOperand(field: nat, d: Desc): Operand {
    var mask := d.sourceMask;
    var value := And(field, mask);
    if mask == 0x7f then Indexed(Core(Get(value, 3, 4)), Core(Get(value, 0, 3)), 1, d.width)
    else if mask == 0xff then Based(0, MveDisp(value, d), d.width)
    else Based(Core(Get(value, 8, if mask == 0x7ff then 3 else 4)), MveDisp(value, d), d.width)
  }

  /** `arm_td_apply_arm_mem_shift`. */
  function Shifted(o: Operand, value: nat): Operand {
    var kind, amount := Get(value, 5, 2), Get(value, 7, 5);
    if (kind == 1 || kind == 2) && amount == 0 then o.(shiftKind := kind, shiftAmount := 32)
    else if kind == 3 && amount == 0 then o.(shiftKind := 4, shiftAmount := 0)
    else o.(shiftKind := kind, shiftAmount := amount)
  }

  /** The offset part of addressing mode 3 on a base register id (0 when there is none). */
  function Mode3Operand(value: nat, base: nat, flagAt: nat, width: nat): Operand {
    var positive := Get(value, 8, 1) != 0;
    if Get(value, flagAt, 1) != 0 then
      var disp := Get(value, 0, 8);
      Based(base, if positive then disp else -(disp as int), width)
    else Indexed(base, Core(Get(value, 0, 4)), 1, width).(negativeOffset := !positive)
  }

  /** The layouts that `arm_td_mem_operand` names; displacement bounds are not used. */
  function DecodeLayout(d: Desc): Option<Layout> {
    match d.transform
    case MemArmImm12 => Some(Layout(0, 0, 1, 0, 12, 13, 4, Some(12), true))
    case MemArmAddrMode5 => Some(Layout(0, 0, 4, 0, 8, 9, 4, Some(8), true))
    case MemThumbImm1 => Some(Layout(0, 0, 1, 3, 5, 0, 3, None, false))
    case MemThumbImm2 => Some(Layout(0, 0, 2, 3, 5, 0, 3, None, false))
    case MemThumbImm4 => Some(Layout(0, 0, 4, 3, 5, 0, 3, None, false))
    case MemT2Imm12 => Some(Layout(0, 0, 1, 0, 12, 13, 4, None, false))
    case MemT2PosImm8 => Some(Layout(0, 0, 1, 0, 8, 9, 4, None, false))
    case MemT2NegImm8 =>
      if And(d.sourceMask, 0x100) == 0 then Some(Layout(0, 0, 1, 0, 8, 9, 4, Some(8), false))
      else Some(Layout(0, 0, 1, 0, 8, 9, 4, Some(8), true))
    case MemT2Imm8s4 => Some(Layout(0, 0, 4, 0, 8, 9, 4, Some(8), true))
    case MemT2Imm7s4 => Some(Layout(0, 0, 4, 0, 7, 8, 4, Some(7), true))
    case MemT2Imm0To1020s4 => Some(Layout(0, 0, 4, 0, 8, 8, 4, None, false))
    case _ => None
  }

  /** `arm_td_mem_operand`. */
  function DecodeMem(value: nat, d: Desc): Option<Operand> {
    var mask, width := d.sourceMask, d.width;
    match d.transform
    case MemBase =>
      if mask != 0x07 && mask != 0x0f then None else Some(Based(Core(And(value, mask)), 0, width))
    case MemThumbSp => Some(Based(REG_SP, Get(value, 0, 8) * 4, width))
    case MemThumbPc => Some(Based(REG_PC, Get(value, 0, 8) * 4, width))
    case MemThumbRr => Some(Indexed(Core(Get(value, 0, 3)), Core(Get(value, 3, 3)), 1, width))
    case MemT2SoReg => Some(Indexed(Core(Get(value, 6, 4)), Core(Get(value, 2, 4)), Pow2(Get(value, 0, 2)), width))
    case MemT2ForceNegImm8 =>
      Some(BaseDispOperand(Or(value, 0x100), width, Layout(0, 0, 1, 0, 8, 9, 4, Some(8), false)))
    case MemArmAddrMode3 => Some(Mode3Operand(value, Core(Get(value, 9, 4)), 13, width))
    case MemArmAm3Offset => Some(Mode3Operand(value, 0, 9, width))
    case MemArmLdstSoReg =>
      Some(Shifted(Indexed(Core(Get(value, 13, 4)), Core(Get(value, 0, 4)), 1, width)
                     .(negativeOffset := Get(value, 12, 1) == 0), value))
    case MemArmAm2OffsetReg =>
      Some(Shifted(Indexed(0, Core(Get(value, 0, 4)), 1, width).(negativeOffset := Get(value, 12, 1) == 0), value))
    case MemNeonAddrMode6 =>
      var v := And(value, mask);
      Some(Based(Core(Get(v, 0, 4)), 0, width).(imm := Alignment(Get(v, 4, 2))))
    case MemNeonAm6Offset =>
      if And(value, mask) > 15 then None else Some(Indexed(0, Core(And(value, mask)), 1, width))
    case MemMveAddr => Some(MveOperand(value, d))
    case MemMveAddrQ =>
      var v := And(value, mask);
      if mask != 0x7f then None else Some(Indexed(Core(Get(v, 3, 4)), Quad(Get(v, 0, 3)), 1, width))
    case MemMveAddrQi =>
      var v := And(value, mask);
      if mask != 0x7ff && mask != 0xfff then None
      else
        var o := Based(Quad(Get(v, 8, 3)), MveDisp(v, d), width);
        Some(o.(mem := o.mem.(addressWidth := 128)))
    case MemTbb => Some(Indexed(Core(Get(value, 4, 4)), Core(Get(value, 0, 4)), 1, width))
    case MemTbh => Some(Indexed(Core(Get(value, 4, 4)), Core(Get(value, 0, 4)), 2, width))
    case _ =>
      var layout := DecodeLayout(d);
      if layout.None? then None else Some(BaseDispOperand(value, width, layout.value))
  }

  // ---- round trips

  /** The operand names core registers, or quad registers where the form takes them. */
  predicate ProperRegisters(o: Operand, d: Desc) {
    && (o.mem.base == 0 || (if d.transform.MemMveAddrQi? then IsQuad(o.mem.base) else IsCore(o.mem.base)))
    && (o.mem.index == 0 || (if d.transform.MemMveAddrQ? then IsQuad(o.mem.index) else IsCore(o.mem.index)))
  }

  predicate HasShift(t: Transform) {
    t.MemArmLdstSoReg? || t.MemArmAm2OffsetReg?
  }

  predicate HasDirection(o: Operand, t: Transform) {
    HasShift(t) || ((t.MemArmAddrMode3? || t.MemArmAm3Offset?) && o.mem.index != 0)
  }

  /** The same parts of an address that the form expresses; scale 0 reads as 1. */
  predicate SamePlace(o: Operand, back: Option<Operand>, t: Transform) {
    && back.Some?
    && back.value.kind == OpMem
    && back.value.mem.base == o.mem.base
    && back.value.mem.index == o.mem.index
    && back.value.mem.displacement == o.mem.displacement
    && back.value.mem.scale == Scale(o)
    && (HasDirection(o, t) ==> back.value.negativeOffset == o.negativeOffset)
    && (HasShift(t) ==> back.value.shiftKind == o.shiftKind && back.value.shiftAmount == o.shiftAmount)
    && (t.MemNeonAddrMode6? ==> back.value.imm == Alignment(AlignmentCode(o.imm)))
  }

  /** The accepted operands whose expressed parts come back. */
  predicate KeepsPlace(o: Operand, d: Desc) {
    match d.transform
    case MemBase => d.sourceMask == 0x07 || d.sourceMask == 0x0f
    case MemT2NegImm8 => And(d.sourceMask, 0x100) != 0 || o.mem.displacement == 0
    case MemMveAddr =>
      && (d.sourceMask == 0x7f ==> o.mem.index != 0 && o.mem.displacement == 0)
      && (d.sourceMask == 0xff ==> o.mem.base == 0)
    case _ => true
  }

  predicate ValidLayout(l: Layout) {
    && l.scale > 0
    && (l.immAt + l.immWidth <= l.baseAt || l.baseAt + l.baseWidth <= l.immAt)
    && (l.signAt.Some? ==>
          && (l.signAt.value + 1 <= l.immAt || l.immAt + l.immWidth <= l.signAt.value)
          && (l.signAt.value + 1 <= l.baseAt || l.baseAt + l.baseWidth <= l.signAt.value))
  }

  lemma LayoutReads(l: Layout, magnitude: nat, base: nat, sign: nat)
    requires ValidLayout(l) && magnitude < Pow2(l.immWidth) && base < Pow2(l.baseWidth) && sign < 2
    ensures var v := Pack(LayoutFields(l, magnitude, base, sign));
            && Get(v, l.immAt, l.immWidth) == magnitude
            && Get(v, l.baseAt, l.baseWidth) == base
            && (l.signAt.Some? ==> Get(v, l.signAt.value, 1) == sign)
  {
    assert Pow2(1) == 2;
    hide Pack, Get, Pow2;
    var fields := LayoutFields(l, magnitude, base, sign);
    GetPacked(fields, 0);
    GetPacked(fields, 1);
    if l.signAt.Some? { GetPacked(fields, 2); }
  }

  lemma Unscaled(disp: int, scale: nat)
    requires scale > 0 && disp % scale == 0
    ensures Magnitude(disp) / scale * scale == Magnitude(disp)
  {
    var q := disp / scale;
    assert disp == scale * q;
    if disp >= 0 {
      Residues.Unique(disp, q, 0, scale);
    } else {
      assert -disp == scale * (-q);
      NegativeQuotient(q, scale);
      Residues.Unique(-disp, -q, 0, scale);
    }
  }

  lemma NegativeQuotient(q: int, scale: nat)
    requires scale > 0 && scale * q < 0
    ensures q < 0
  {
  }

  lemma BaseDispReads(regs: Registers, o: Operand, e: Layout)
    requires ValidRegisters(regs) && ValidLayout(e) && BaseDispField(regs, o, e).Some?
    ensures var v := BaseDispField(regs, o, e).value;
            && Get(v, e.immAt, e.immWidth) * e.scale == Magnitude(o.mem.displacement)
            && regs.gpr4(o.mem.base) == Some(Get(v, e.baseAt, e.baseWidth))
            && (e.signAt.Some? ==> (Get(v, e.signAt.value, 1) != 0 <==> (o.mem.displacement >= 0) == e.positive))
            && e.min <= o.mem.displacement
            && Simple(o) && o.mem.index == 0
  {
    hide Pack, Get, Pow2, LayoutFields, ValidRegisters;
    var disp := o.mem.displacement;
    LayoutReads(e, Magnitude(disp) / e.scale, regs.gpr4(o.mem.base).value, if (disp >= 0) == e.positive then 1 else 0);
    Unscaled(disp, e.scale);
  }

  lemma BaseDispBack(regs: Registers, o: Operand, width: nat, e: Layout, l: Layout, t: Transform)
    requires ValidRegisters(regs) && ValidLayout(e) && ValidLayout(l) && BaseDispField(regs, o, e).Some?
    requires l.scale == e.scale && l.immAt == e.immAt && l.immWidth == e.immWidth && l.baseAt == e.baseAt
    requires l.baseWidth == e.baseWidth && l.signAt == e.signAt
    requires IsCore(o.mem.base) && !HasDirection(o, t) && !t.MemNeonAddrMode6?
    requires e.signAt.None? ==> e.min >= 0
    ensures var back := BaseDispOperand(BaseDispField(regs, o, e).value, width, l);
            SamePlace(o, Some(back), t) <==> (e.signAt.None? || e.positive == l.positive || o.mem.displacement == 0)
  {
    hide Get, BaseDispField, ValidRegisters;
    CoreEncoding(regs, o.mem.base);
    BaseDispReads(regs, o, e);
  }

  lemma CoreEncoding(regs: Registers, reg: nat)
    requires ValidRegisters(regs)
    ensures IsCore(reg) ==> regs.gpr4(reg) == Some(reg - CORE_FIRST)
    ensures regs.gpr4(reg).Some? ==> regs.gpr4(reg).value < 16 && reg != 0
    ensures IsQuad(reg) ==> regs.quad(reg) == Some(reg - QUAD_FIRST)
    ensures regs.quad(reg).Some? ==> regs.quad(reg).value < 16 && reg != 0
  {
  }

  lemma Powers()
    ensures Pow2(0) == 1 && Pow2(1) == 2 && Pow2(2) == 4 && Pow2(3) == 8 && Pow2(4) == 16 && Pow2(5) == 32
    ensures Pow2(7) == 128 && Pow2(8) == 256
  {
  }

  lemma MaskedSame(v: nat, mask: u32)
    requires Masked(v, mask).Some?
    ensures And(v, mask) == v
  {
    Bits.Within(v, mask);
  }

  /** Reading a displacement form with the decoder's layout. */
  lemma LayoutBack(regs: Registers, o: Operand, d: Desc)
    requires ValidRegisters(regs) && ProperRegisters(o, d) && EncodeLayout(d).Some? && !d.transform.MemT2ForceNegImm8?
    requires EncodeMem(regs, o, d).Some?
    ensures SamePlace(o, DecodeMem(EncodeMem(regs, o, d).value, d), d.transform) <==> KeepsPlace(o, d)
  {
    hide BaseDispField, BaseDispOperand, SamePlace, ValidRegisters, And;
    HasBase(regs, o, EncodeLayout(d).value);
    BaseDispBack(regs, o, d.width, EncodeLayout(d).value, DecodeLayout(d).value, d.transform);
  }

  lemma HasBase(regs: Registers, o: Operand, l: Layout)
    requires ValidRegisters(regs) && BaseDispField(regs, o, l).Some?
    ensures o.mem.base != 0
  {
  }

  lemma ForceNegReads(base: nat, magnitude: nat)
    requires base < 16 && magnitude < 256
    ensures var v := Or(Pack(ForceNegFields(base, magnitude)), 0x100);
            Get(v, 0, 8) == magnitude && Get(v, 9, 4) == base && Get(v, 8, 1) == 1
  {
    Powers();
    assert Shl(1, 8) == 0x100;
    hide Pack, Get, Pow2, Or, Shl;
    var fields := ForceNegFields(base, magnitude) + [Field(8, 1, 1)];
    PackOneMore(ForceNegFields(base, magnitude), Field(8, 1, 1));
    GetPacked(fields, 0);
    GetPacked(fields, 1);
    GetPacked(fields, 2);
  }

  /** The forced-negative form has no sign bit of its own; the decoder sets one. */
  lemma ForceNegBack(regs: Registers, o: Operand, d: Desc)
    requires ValidRegisters(regs) && ProperRegisters(o, d) && d.transform.MemT2ForceNegImm8?
    requires EncodeMem(regs, o, d).Some?
    ensures SamePlace(o, DecodeMem(EncodeMem(regs, o, d).value, d), d.transform)
  {
    Powers();
    hide Pack, Get, Pow2, Or, ValidRegisters;
    CoreEncoding(regs, o.mem.base);
    var base, magnitude := regs.gpr4(o.mem.base).value, -o.mem.displacement;
    ForceNegReads(base, magnitude);
    assert LayoutFields(EncodeLayout(d).value, magnitude, base, if magnitude == 0 then 0 else 1)
        == ForceNegFields(base, magnitude);
  }

  function ForceNegFields(base: nat, magnitude: nat): seq<Field> {
    [Field(0, 8, magnitude), Field(9, 4, base)]
  }

  lemma PackOneMore(fields: seq<Field>, f: Field)
    ensures Pack(fields + [f]) == Or(Pack(fields), Shl(f.value, f.at))
  {
    assert (fields + [f])[..|fields|] == fields;
  }

  /** The bounds of packed two- and three-field words. */
  lemma TwoFields(a: nat, m: nat, b: nat, n: nat)
    requires a < Pow2(m) && b < Pow2(n)
    ensures var v := Pack([Field(0, m, a), Field(m, n, b)]); Get(v, 0, m) == a && Get(v, m, n) == b
  {
    hide Pack, Get, Pow2;
    var fields := [Field(0, m, a), Field(m, n, b)];
    GetPacked(fields, 0);
    GetPacked(fields, 1);
  }

  lemma FixedBaseBack(o: Operand, d: Desc, base: nat)
    requires FixedBaseField(o, base).Some? && (base == REG_SP || base == REG_PC)
    ensures Get(FixedBaseField(o, base).value, 0, 8) * 4 == o.mem.displacement
  {
    var v := o.mem.displacement / 4;
    Powers();
    hide Pow2;
    assert Shr(v, 0) == v;
    AndOnes(v, 8);
    LowSmall(v, 8);
  }

  lemma BaseBack(regs: Registers, o: Operand, d: Desc)
    requires ValidRegisters(regs) && ProperRegisters(o, d) && d.transform.MemBase? && EncodeMem(regs, o, d).Some?
    ensures SamePlace(o, DecodeMem(EncodeMem(regs, o, d).value, d), d.transform) <==> KeepsPlace(o, d)
  {
    hide And, AndNot, ValidRegisters;
    CoreEncoding(regs, o.mem.base);
    MaskedSame(regs.gpr4(o.mem.base).value, d.sourceMask);
  }

  lemma IndexedBack(regs: Registers, o: Operand, d: Desc)
    requires ValidRegisters(regs) && ProperRegisters(o, d) && (d.transform.MemThumbRr? || d.transform.MemTbb? || d.transform.MemTbh?)
    requires EncodeMem(regs, o, d).Some?
    ensures SamePlace(o, DecodeMem(EncodeMem(regs, o, d).value, d), d.transform)
  {
    Powers();
    hide Pack, Get, Pow2, AndNot, ValidRegisters;
    CoreEncoding(regs, o.mem.base);
    CoreEncoding(regs, o.mem.index);
    var base, index := regs.gpr4(o.mem.base).value, regs.gpr4(o.mem.index).value;
    if d.transform.MemThumbRr? { TwoFields(base, 3, index, 3); } else { TwoFields(index, 4, base, 4); }
  }

  lemma T2SoRegReads(scale: nat, index: nat, base: nat)
    requires scale < 4 && index < 16 && base < 16
    ensures var v := Pack([Field(0, 2, scale), Field(2, 4, index), Field(6, 4, base)]);
            Get(v, 0, 2) == scale && Get(v, 2, 4) == index && Get(v, 6, 4) == base
  {
    Powers();
    hide Pack, Get, Pow2;
    var fields := [Field(0, 2, scale), Field(2, 4, index), Field(6, 4, base)];
    GetPacked(fields, 0);
    GetPacked(fields, 1);
    GetPacked(fields, 2);
  }

  lemma T2SoRegBack(regs: Registers, o: Operand, d: Desc)
    requires ValidRegisters(regs) && ProperRegisters(o, d) && d.transform.MemT2SoReg? && EncodeMem(regs, o, d).Some?
    ensures SamePlace(o, DecodeMem(EncodeMem(regs, o, d).value, d), d.transform)
  {
    Powers();
    hide Pack, Get, Pow2, ValidRegisters;
    CoreEncoding(regs, o.mem.base);
    CoreEncoding(regs, o.mem.index);
    T2SoRegReads(ScaleBits(Scale(o)).value, regs.gpr4(o.mem.index).value, regs.gpr4(o.mem.base).value);
  }

  lemma NeonBack(regs: Registers, o: Operand, d: Desc)
    requires ValidRegisters(regs) && ProperRegisters(o, d)
    requires (d.transform.MemNeonAddrMode6? || d.transform.MemNeonAm6Offset?) && EncodeMem(regs, o, d).Some?
    ensures SamePlace(o, DecodeMem(EncodeMem(regs, o, d).value, d), d.transform)
  {
    Powers();
    hide Pack, Get, Pow2, And, AndNot, ValidRegisters;
    CoreEncoding(regs, o.mem.base);
    CoreEncoding(regs, o.mem.index);
    if d.transform.MemNeonAddrMode6? {
      var base := regs.gpr4(o.mem.base).value;
      TwoFields(base, 4, AlignmentCode(o.imm), 2);
      MaskedSame(Pack([Field(0, 4, base), Field(4, 2, AlignmentCode(o.imm))]), d.sourceMask);
    } else {
      MaskedSame(regs.gpr4(o.mem.index).value, d.sourceMask);
    }
  }

  // addressing mode 3

  lemma Mode3Reads(low: nat, width: nat, add: nat, flagAt: nat, flag: nat, rest: seq<Field>)
    requires low < Pow2(width) && width <= 8 && add < 2 && flag < 2 && (flagAt == 13 || flagAt == 9)
    requires rest == [] || (flagAt == 13 && |rest| == 1 && rest[0].at == 9 && rest[0].width == 4 && rest[0].value < 16)
    ensures var v := Pack([Field(0, width, low), Field(8, 1, add), Field(flagAt, 1, flag)] + rest);
            && Get(v, 0, width) == low
            && Get(v, 8, 1) == add
            && Get(v, flagAt, 1) == flag
            && (rest != [] ==> Get(v, 9, 4) == rest[0].value)
  {
    Powers();
    hide Pack, Get, Pow2;
    var fields := [Field(0, width, low), Field(8, 1, add), Field(flagAt, 1, flag)] + rest;
    GetPacked(fields, 0);
    GetPacked(fields, 1);
    GetPacked(fields, 2);
    if rest != [] { GetPacked(fields, 3); }
  }

  /** The two parts of an addressing mode 3 operand come back from its offset fields. */
  lemma Mode3Back(regs: Registers, o: Operand, base: nat, flagAt: nat, width: nat, rest: seq<Field>, t: Transform)
    requires ValidRegisters(regs) && Simple(o) && (o.mem.index == 0 || IsCore(o.mem.index))
    requires Mode3Offset(regs, o, flagAt).Some? && (flagAt == 13 || flagAt == 9) && base == o.mem.base
    requires rest == [] || (flagAt == 13 && |rest| == 1 && rest[0].at == 9 && rest[0].width == 4 && rest[0].value < 16)
    requires t.MemArmAddrMode3? || t.MemArmAm3Offset?
    ensures SamePlace(o, Some(Mode3Operand(Pack(Mode3Offset(regs, o, flagAt).value + rest), base, flagAt, width)), t)
  {
    Powers();
    hide Pack, Get, Pow2, ValidRegisters;
    CoreEncoding(regs, o.mem.index);
    if o.mem.index != 0 {
      Mode3Reads(regs.gpr4(o.mem.index).value, 4, AddBit(o), flagAt, 0, rest);
    } else {
      Mode3Reads(Magnitude(o.mem.displacement), 8, if o.mem.displacement < 0 then 0 else 1, flagAt, 1, rest);
    }
  }

  lemma AddrMode3Back(regs: Registers, o: Operand, d: Desc)
    requires ValidRegisters(regs) && ProperRegisters(o, d) && d.transform.MemArmAddrMode3? && EncodeMem(regs, o, d).Some?
    ensures SamePlace(o, DecodeMem(EncodeMem(regs, o, d).value, d), d.transform)
  {
    hide Pack, Get, ValidRegisters, Mode3Operand, Mode3Offset, SamePlace;
    CoreEncoding(regs, o.mem.base);
    var base := regs.gpr4(o.mem.base).value;
    var offset := Mode3Offset(regs, o, 13).value;
    Mode3Back(regs, o, Core(base), 13, d.width, [Field(9, 4, base)], d.transform);
    BaseOfMode3(regs, o, offset, base);
  }

  lemma BaseOfMode3(regs: Registers, o: Operand, offset: seq<Field>, base: nat)
    requires ValidRegisters(regs) && Mode3Offset(regs, o, 13) == Some(offset) && base < 16
    ensures Get(Pack(offset + [Field(9, 4, base)]), 9, 4) == base
  {
    Powers();
    hide Pack, Get, Pow2, ValidRegisters;
    CoreEncoding(regs, o.mem.index);
    if o.mem.index != 0 {
      Mode3Reads(regs.gpr4(o.mem.index).value, 4, AddBit(o), 13, 0, [Field(9, 4, base)]);
    } else {
      Mode3Reads(Magnitude(o.mem.displacement), 8, if o.mem.displacement < 0 then 0 else 1, 13, 1, [Field(9, 4, base)]);
    }
  }

  lemma Am3OffsetBack(regs: Registers, o: Operand, d: Desc)
    requires ValidRegisters(regs) && ProperRegisters(o, d) && d.transform.MemArmAm3Offset? && EncodeMem(regs, o, d).Some?
    ensures SamePlace(o, DecodeMem(EncodeMem(regs, o, d).value, d), d.transform)
  {
    hide Pack, Get, ValidRegisters, Mode3Operand, Mode3Offset, SamePlace;
    var offset := Mode3Offset(regs, o, 9).value;
    assert offset + [] == offset;
    Mode3Back(regs, o, 0, 9, d.width, [], d.transform);
  }

  // shifted register offsets

  lemma ShiftReads(index: nat, shift: (nat, nat), o: Operand, rest: seq<Field>)
    requires index < 16 && shift.0 < 4 && shift.1 < 32
    requires rest == [] || (|rest| == 1 && rest[0].at == 13 && rest[0].width == 4 && rest[0].value < 16)
    ensures var v := Pack(ShiftedIndex(index, shift, o) + rest);
            && Get(v, 0, 4) == index && Get(v, 5, 2) == shift.0 && Get(v, 7, 5) == shift.1
            && Get(v, 12, 1) == AddBit(o)
            && (rest != [] ==> Get(v, 13, 4) == rest[0].value)
  {
    Powers();
    hide Pack, Get, Pow2;
    var fields := ShiftedIndex(index, shift, o) + rest;
    GetPacked(fields, 0);
    GetPacked(fields, 1);
    GetPacked(fields, 2);
    GetPacked(fields, 3);
    if rest != [] { GetPacked(fields, 4); }
  }

  /** The shift fields are read back as the shift, RRX and the amount 32 included. */
  lemma ShiftBack(o: Operand, back: Operand, v: nat)
    requires ShiftFields(o.shiftKind, o.shiftAmount).Some?
    requires ShiftFields(o.shiftKind, o.shiftAmount).value == (Get(v, 5, 2), Get(v, 7, 5))
    ensures Shifted(back, v).shiftKind == o.shiftKind && Shifted(back, v).shiftAmount == o.shiftAmount
    ensures Shifted(back, v) == back.(shiftKind := o.shiftKind, shiftAmount := o.shiftAmount)
  {
    hide Get;
  }

  lemma LdstSoRegBack(regs: Registers, o: Operand, d: Desc)
    requires ValidRegisters(regs) && ProperRegisters(o, d) && HasShift(d.transform) && EncodeMem(regs, o, d).Some?
    ensures SamePlace(o, DecodeMem(EncodeMem(regs, o, d).value, d), d.transform)
  {
    hide Pack, Get, ValidRegisters, Shifted, ShiftedIndex;
    CoreEncoding(regs, o.mem.base);
    CoreEncoding(regs, o.mem.index);
    var index, shift := regs.gpr4(o.mem.index).value, ShiftFields(o.shiftKind, o.shiftAmount).value;
    var rest := if d.transform.MemArmLdstSoReg? then [Field(13, 4, regs.gpr4(o.mem.base).value)] else [];
    var v := EncodeMem(regs, o, d).value;
    assert ShiftedIndex(index, shift, o) + [] == ShiftedIndex(index, shift, o);
    ShiftReads(index, shift, o, rest);
    var base := if rest == [] then 0 else Core(Get(v, 13, 4));
    ShiftBack(o, Indexed(base, Core(Get(v, 0, 4)), 1, d.width).(negativeOffset := Get(v, 12, 1) == 0), v);
  }

  // MVE

  lemma MveOffsetReads(o: Operand, d: Desc, rest: seq<Field>)
    requires MveOffset(o, d).Some?
    requires rest == [] || (|rest| == 1 && rest[0].at == 8 && (rest[0].width == 4 || rest[0].width == 3) && rest[0].value < Pow2(rest[0].width))
    ensures var v := Pack(MveOffset(o, d).value + rest);
            && MveDisp(v, d) == o.mem.displacement
            && (rest != [] ==> Get(v, 8, rest[0].width) == rest[0].value)
  {
    Powers();
    hide Pack, Get, Pow2, MveScale;
    var fields := MveOffset(o, d).value + rest;
    GetPacked(fields, 0);
    GetPacked(fields, 1);
    if rest != [] { GetPacked(fields, 2); }
    Unscaled(o.mem.displacement, MveScale(d));
    SignedUnscaled(o.mem.displacement, MveScale(d));
  }

  lemma SignedUnscaled(disp: int, scale: nat)
    requires scale > 0 && disp % scale == 0
    ensures disp >= 0 <==> disp / scale >= 0
    ensures disp == (if disp >= 0 then Magnitude(disp / scale) else -(Magnitude(disp / scale) as int)) * scale
  {
    var q := disp / scale;
    assert disp == scale * q;
    if disp < 0 { NegativeQuotient(q, scale); }
  }

  lemma MveProperBack(regs: Registers, o: Operand, d: Desc)
    requires ValidRegisters(regs) && ProperRegisters(o, d) && d.transform.MemMveAddr? && EncodeMem(regs, o, d).Some?
    ensures SamePlace(o, DecodeMem(EncodeMem(regs, o, d).value, d), d.transform) <==> KeepsPlace(o, d)
  {
    Powers();
    hide Pack, Get, Pow2, And, AndNot, ValidRegisters, MveOffset, MveDisp;
    CoreEncoding(regs, o.mem.base);
    CoreEncoding(regs, o.mem.index);
    var v := EncodeMem(regs, o, d).value;
    MaskedSame(v, d.sourceMask);
    if d.sourceMask == 0x7f {
      if o.mem.index != 0 { TwoFields(regs.gpr4(o.mem.index).value, 3, regs.gpr4(o.mem.base).value, 4); }
    } else if d.sourceMask == 0xff {
      assert MveOffset(o, d).value + [] == MveOffset(o, d).value;
      MveOffsetReads(o, d, []);
    } else {
      var base := regs.gpr4(o.mem.base).value;
      MveOffsetReads(o, d, [Field(8, 4, base)]);
      if d.sourceMask == 0x7ff { NarrowBase(v, base); }
    }
  }

  lemma NarrowBase(v: nat, base: nat)
    requires Get(v, 8, 4) == base < 8
    ensures Get(v, 8, 3) == base
  {
    Powers();
    hide Bit, Get, Pow2;
    forall i: nat ensures Bit(Get(v, 8, 3), i) == Bit(base, i) {
      BitOfGet(v, 8, 3, i);
      BitOfGet(v, 8, 4, i);
      if i >= 3 { BitAbove(base, 3, i); }
    }
    SameBits(Get(v, 8, 3), base);
  }

  lemma MveQuadBack(regs: Registers, o: Operand, d: Desc)
    requires ValidRegisters(regs) && ProperRegisters(o, d) && EncodeMem(regs, o, d).Some?
    requires d.transform.MemMveAddrQ? || d.transform.MemMveAddrQi?
    ensures SamePlace(o, DecodeMem(EncodeMem(regs, o, d).value, d), d.transform)
  {
    Powers();
    hide Pack, Get, Pow2, And, AndNot, ValidRegisters, MveOffset, MveDisp;
    CoreEncoding(regs, o.mem.base);
    CoreEncoding(regs, o.mem.index);
    MaskedSame(EncodeMem(regs, o, d).value, d.sourceMask);
    if d.transform.MemMveAddrQ? {
      TwoFields(regs.quad(o.mem.index).value, 3, regs.gpr4(o.mem.base).value, 4);
    } else {
      MveOffsetReads(o, d, [Field(8, 3, regs.quad(o.mem.base).value)]);
    }
  }

  /** Every memory form, for registers that it can express. */
  lemma ProperBack(regs: Registers, o: Operand, d: Desc)
    requires ValidRegisters(regs) && ProperRegisters(o, d) && EncodeMem(regs, o, d).Some?
    ensures SamePlace(o, DecodeMem(EncodeMem(regs, o, d).value, d), d.transform) <==> KeepsPlace(o, d)
  {
    hide EncodeMem, DecodeMem, SamePlace, ValidRegisters, ProperRegisters, And;
    match d.transform
    case MemBase => BaseBack(regs, o, d);
    case MemThumbSp => FixedBack(regs, o, d);
    case MemThumbPc => FixedBack(regs, o, d);
    case MemThumbRr => IndexedBack(regs, o, d);
    case MemTbb => IndexedBack(regs, o, d);
    case MemTbh => IndexedBack(regs, o, d);
    case MemT2SoReg => T2SoRegBack(regs, o, d);
    case MemArmAddrMode3 => AddrMode3Back(regs, o, d);
    case MemArmAm3Offset => Am3OffsetBack(regs, o, d);
    case MemArmLdstSoReg => LdstSoRegBack(regs, o, d);
    case MemArmAm2OffsetReg => LdstSoRegBack(regs, o, d);
    case MemNeonAddrMode6 => NeonBack(regs, o, d);
    case MemNeonAm6Offset => NeonBack(regs, o, d);
    case MemMveAddr => MveProperBack(regs, o, d);
    case MemMveAddrQ => MveQuadBack(regs, o, d);
    case MemMveAddrQi => MveQuadBack(regs, o, d);
    case MemT2ForceNegImm8 => ForceNegBack(regs, o, d);
    case _ =>
      HasLayout(regs, o, d);
      LayoutBack(regs, o, d);
  }

  lemma GetFits(v: nat, at: nat, width: nat)
    ensures width <= 4 ==> Get(v, at, width) < 16
    ensures width == 3 ==> Get(v, at, width) < 8
  {
    Powers();
    hide Get, Pow2;
    GetBelow(v, at, width);
    if width <= 4 { Pow2Monotone(width, 4); }
  }

  lemma LayoutIsProper(v: nat, d: Desc)
    requires DecodeLayout(d).Some?
    ensures ProperRegisters(BaseDispOperand(v, d.width, DecodeLayout(d).value), d)
  {
    hide Get, And;
    var l := DecodeLayout(d).value;
    GetFits(v, l.baseAt, l.baseWidth);
  }

  /** Whatever the field, the decoder names core registers, or quad registers where the form takes them. */
  lemma DecodedIsProper(v: nat, d: Desc)
    ensures DecodeMem(v, d).Some? ==> ProperRegisters(DecodeMem(v, d).value, d)
  {
    hide Get, And, DecodeLayout, MveScale, Pow2, Or;
    AndAtMost(v, d.sourceMask);
    var w := And(v, d.sourceMask);
    GetFits(v, 0, 3);
    GetFits(v, 3, 3);
    GetFits(v, 6, 4);
    GetFits(v, 2, 4);
    GetFits(v, 9, 4);
    GetFits(v, 13, 4);
    GetFits(v, 0, 4);
    GetFits(v, 4, 4);
    GetFits(Or(v, 0x100), 9, 4);
    GetFits(w, 0, 4);
    GetFits(w, 3, 4);
    GetFits(w, 0, 3);
    GetFits(w, 8, 3);
    GetFits(w, 8, 4);
    if DecodeLayout(d).Some? { LayoutIsProper(v, d); }
  }

  /** What the form expresses comes back exactly when `KeepsPlace` holds of operands with proper registers. */
  lemma PlaceBack(regs: Registers, o: Operand, d: Desc)
    requires ValidRegisters(regs) && EncodeMem(regs, o, d).Some?
    ensures SamePlace(o, DecodeMem(EncodeMem(regs, o, d).value, d), d.transform) <==> KeepsPlace(o, d) && ProperRegisters(o, d)
  {
    hide EncodeMem, DecodeMem, ValidRegisters, KeepsPlace;
    DecodedIsProper(EncodeMem(regs, o, d).value, d);
    if ProperRegisters(o, d) { ProperBack(regs, o, d); }
  }

  // ---- whole operands

  /** The same memory operand: base, index, displacement and scale (0 reads as 1), direction, shift, extension and
      flags, for NEON the alignment; widths may have been left open. */
  predicate SameAddress(o: Operand, back: Option<Operand>, t: Transform) {
    && back.Some?
    && back.value.kind == OpMem
    && back.value.mem == o.mem.(scale := Scale(o), addressWidth := back.value.mem.addressWidth)
    && SameModifiers(o, back.value)
    && OpenOr(o.mem.addressWidth, back.value.mem.addressWidth)
    && OpenOr(o.width, back.value.width)
    && (t.MemNeonAddrMode6? ==> back.value.imm == o.imm)
  }

  function AddressWidth(t: Transform): nat {
    if t.MemMveAddrQi? then 128 else 32
  }

  /** The operand asks for nothing that the form has no bits for. */
  predicate IsExpressed(o: Operand, d: Desc) {
    && NoShiftReg(o) && !o.extendedReg && !o.registerList && !o.vectorList && !o.registerPair
    && (!o.negativeOffset || HasDirection(o, d.transform))
    && (HasShift(d.transform) || (o.shiftKind == 0 && o.shiftAmount == 0))
    && OpenOr(o.mem.addressWidth, AddressWidth(d.transform))
    && OpenOr(o.width, d.width)
    && (d.transform.MemNeonAddrMode6? ==> o.imm == 0 || o.imm == 8 || o.imm == 16 || o.imm == 32)
  }

  /** The accepted operands that come back the same. */
  predicate KeepsAddress(o: Operand, d: Desc) {
    KeepsPlace(o, d) && ProperRegisters(o, d) && IsExpressed(o, d)
  }

  /** A decoded operand that asks for nothing beyond its form. */
  predicate IsDecoded(back: Operand, d: Desc) {
    && IsExpressed(back, d)
    && back.mem.segment == 0
    && back.width == d.width
    && back.mem.addressWidth == AddressWidth(d.transform)
  }

  lemma Unshifted(base: nat, index: nat, scale: nat, disp: int, d: Desc)
    requires !d.transform.MemMveAddrQi?
    ensures IsDecoded(Based(base, disp, d.width), d)
    ensures IsDecoded(Indexed(base, index, scale, d.width), d)
  {
  }

  lemma DirectedIsDecoded(v: nat, base: nat, flagAt: nat, d: Desc)
    ensures d.transform.MemArmAddrMode3? || d.transform.MemArmAm3Offset? ==> IsDecoded(Mode3Operand(v, base, flagAt, d.width), d)
    ensures HasShift(d.transform) ==>
              forall index: nat, negative: bool ::
                IsDecoded(Shifted(Indexed(base, index, 1, d.width).(negativeOffset := negative), v), d)
  {
    hide Get;
  }

  /** Whatever the field, the decoder sets no modifier that the form does not express. */
  lemma DecodedModifiers(v: nat, d: Desc)
    requires DecodeMem(v, d).Some?
    ensures IsDecoded(DecodeMem(v, d).value, d)
  {
    hide Get, And, Or, MveDisp, DecodeLayout, Mode3Operand, Shifted, IsDecoded, Based, Indexed, Pow2;
    var w := And(v, d.sourceMask);
    forall base: nat, disp: int | !d.transform.MemMveAddrQi? ensures IsDecoded(Based(base, disp, d.width), d) {
      Unshifted(base, 0, 1, disp, d);
    }
    forall base: nat, index: nat, scale: nat | !d.transform.MemMveAddrQi?
      ensures IsDecoded(Indexed(base, index, scale, d.width), d)
    {
      Unshifted(base, index, scale, 0, d);
    }
    match d.transform
    case MemArmAddrMode3 => DirectedIsDecoded(v, Core(Get(v, 9, 4)), 13, d);
    case MemArmAm3Offset => DirectedIsDecoded(v, 0, 9, d);
    case MemArmLdstSoReg => DirectedIsDecoded(v, Core(Get(v, 13, 4)), 0, d);
    case MemArmAm2OffsetReg => DirectedIsDecoded(v, 0, 0, d);
    case MemNeonAddrMode6 => AlignedIsDecoded(Core(Get(w, 0, 4)), Alignment(Get(w, 4, 2)), d);
    case MemMveAddrQi => WideIsDecoded(Quad(Get(w, 8, 3)), MveDisp(w, d), d);
    case _ =>
  }

  lemma AlignedIsDecoded(base: nat, alignment: int, d: Desc)
    requires d.transform.MemNeonAddrMode6? && (alignment == 0 || alignment == 8 || alignment == 16 || alignment == 32)
    ensures IsDecoded(Based(base, 0, d.width).(imm := alignment), d)
  {
  }

  lemma WideIsDecoded(base: nat, disp: int, d: Desc)
    requires d.transform.MemMveAddrQi?
    ensures var o := Based(base, disp, d.width); IsDecoded(o.(mem := o.mem.(addressWidth := 128)), d)
  {
  }

  /** A memory operand that the encoder accepts decodes to the same operand exactly when it names registers that the
      form can express, asks for nothing that the form has no bits for, and `KeepsPlace` holds, which for every form
      but three is always. */
  lemma MemRoundTrip(regs: Registers, o: Operand, d: Desc)
    requires ValidRegisters(regs) && EncodeMem(regs, o, d).Some?
    ensures SameAddress(o, DecodeMem(EncodeMem(regs, o, d).value, d), d.transform) <==> KeepsAddress(o, d)
  {
    hide DecodeMem, ValidRegisters, KeepsPlace, ProperRegisters;
    AcceptedMem(regs, o, d);
    hide EncodeMem;
    var v := EncodeMem(regs, o, d).value;
    PlaceBack(regs, o, d);
    if DecodeMem(v, d).Some? { DecodedModifiers(v, d); }
  }

  lemma AcceptedMem(regs: Registers, o: Operand, d: Desc)
    requires EncodeMem(regs, o, d).Some?
    ensures o.kind == OpMem && o.mem.segment == 0
  {
    hide Pack, And, AndNot;
  }

  /** With the source mask 0x7f the register form must be meant: a displacement is dropped, and an
      operand without an index register is read back with one. */
  lemma MveBack(regs: Registers, o: Operand, d: Desc)
    requires ValidRegisters(regs) && d.transform.MemMveAddr? && EncodeMem(regs, o, d).Some?
    ensures SameAddress(o, DecodeMem(EncodeMem(regs, o, d).value, d), d.transform) <==>
              && (d.sourceMask == 0x7f ==> IsCore(o.mem.index) && o.mem.displacement == 0)
              && (d.sourceMask == 0xff ==> o.mem.base == 0)
              && (o.mem.base == 0 || IsCore(o.mem.base))
              && (o.mem.index == 0 || IsCore(o.mem.index))
              && IsExpressed(o, d)
  {
    hide EncodeMem, DecodeMem, SameAddress, IsExpressed, ValidRegisters;
    MemRoundTrip(regs, o, d);
  }

  lemma FixedBack(regs: Registers, o: Operand, d: Desc)
    requires (d.transform.MemThumbSp? || d.transform.MemThumbPc?) && EncodeMem(regs, o, d).Some?
    ensures SamePlace(o, DecodeMem(EncodeMem(regs, o, d).value, d), d.transform)
  {
    hide Get;
    FixedBaseBack(o, d, if d.transform.MemThumbSp? then REG_SP else REG_PC);
  }

  predicate IsForm(t: Transform) {
    t.MemBase? || t.MemThumbSp? || t.MemThumbPc? || t.MemThumbRr? || t.MemTbb? || t.MemTbh? || t.MemT2SoReg?
    || t.MemArmAddrMode3? || t.MemArmAm3Offset? || t.MemArmLdstSoReg? || t.MemArmAm2OffsetReg?
    || t.MemNeonAddrMode6? || t.MemNeonAm6Offset? || t.MemMveAddr? || t.MemMveAddrQ? || t.MemMveAddrQi?
  }

  lemma HasLayout(regs: Registers, o: Operand, d: Desc)
    requires EncodeMem(regs, o, d).Some? && !IsForm(d.transform)
    ensures EncodeLayout(d).Some?
  {
    hide BaseDispField, And;
  }

  // ---- where the two sides disagree

  lemma MvePacked(imm: nat)
    requires imm < 0x80
    ensures Pack([Field(0, 7, imm), Field(7, 1, 0)] + [Field(8, 4, 0)]) == imm && AndNot(imm, 0x7f) == 0
  {
    Powers();
    assert Ones(7) == 0x7f;
    hide Or, AndNot, Pow2;
    PackOneMore([Field(0, 7, imm), Field(7, 1, 0)], Field(8, 4, 0));
    PackOneMore([Field(0, 7, imm)], Field(7, 1, 0));
    PackOneMore([], Field(0, 7, imm));
    assert [Field(0, 7, imm), Field(7, 1, 0)] == [Field(0, 7, imm)] + [Field(7, 1, 0)];
    assert [Field(0, 7, imm)] == [] + [Field(0, 7, imm)];
    assert Shl(imm, 0) == imm;
    hide Shl;
    ShlIsTimes(0, 7);
    ShlIsTimes(0, 8);
    OrZero(imm);
    Immediates.InOnes(imm, 7);
    ZeroOr(imm);
  }

  lemma ZeroOr(v: nat)
    ensures Or(0, v) == v
  {
  }

  /** `[r0, #-disp]` with an MVE register-form descriptor is accepted, and is then read back as a
      register offset. */
  lemma MveCounterexample(regs: Registers, o: Operand, d: Desc)
    requires ValidRegisters(regs) && d.transform.MemMveAddr? && d.sourceMask == 0x7f && d.width == 8
    requires Simple(o) && o.mem.base == CORE_FIRST && o.mem.index == 0 && -127 <= o.mem.displacement < 0
    ensures EncodeMem(regs, o, d).Some?
    ensures !SameAddress(o, DecodeMem(EncodeMem(regs, o, d).value, d), d.transform)
  {
    hide Pack, AndNot, ValidRegisters, DecodeMem, SameAddress;
    CoreEncoding(regs, o.mem.base);
    MvePacked(Magnitude(o.mem.displacement));
    MemRoundTrip(regs, o, d);
  }

  /** `[r0, #-4]` with an 8-bit negative descriptor whose mask lacks 0x100 is accepted, and is then read back
      as another address. */
  lemma NegImm8Counterexample(regs: Registers, o: Operand, d: Desc)
    requires ValidRegisters(regs) && d.transform.MemT2NegImm8? && And(d.sourceMask, 0x100) == 0
    requires Simple(o) && o.mem.base == CORE_FIRST && o.mem.index == 0 && o.mem.displacement == -4
    ensures EncodeMem(regs, o, d).Some?
    ensures !SameAddress(o, DecodeMem(EncodeMem(regs, o, d).value, d), d.transform)
  {
    CoreEncoding(regs, o.mem.base);
    hide Pack, And, ValidRegisters, DecodeMem, SameAddress;
    MemRoundTrip(regs, o, d);
  }

  /** A base-only operand comes back exactly when the mask is one that the decoder knows, the register is a core
      register, and nothing beyond it is asked for. */
  lemma BaseIsCore(regs: Registers, o: Operand, d: Desc)
    requires ValidRegisters(regs) && d.transform.MemBase? && EncodeMem(regs, o, d).Some?
    ensures SameAddress(o, DecodeMem(EncodeMem(regs, o, d).value, d), d.transform)
            <==> (d.sourceMask == 0x07 || d.sourceMask == 0x0f) && IsCore(o.mem.base) && IsExpressed(o, d)
  {
    hide DecodeMem, SameAddress, IsExpressed;
    CoreEncoding(regs, o.mem.base);
    CoreEncoding(regs, o.mem.index);
    hide ValidRegisters;
    MemRoundTrip(regs, o, d);
  }

  /** `[s0, #4]`, for a register table where S0 (id 17) is a 32-bit register with encoding 0, is accepted by the
      twelve-bit form and read back as `[r0, #4]`. */
  lemma CoreCounterexample(regs: Registers, o: Operand, d: Desc)
    requires ValidRegisters(regs) && regs.gpr4(17) == Some(0) && d.transform.MemArmImm12?
    requires Simple(o) && o.mem.base == 17 && o.mem.index == 0 && o.mem.displacement == 4
    ensures EncodeMem(regs, o, d).Some?
    ensures !SameAddress(o, DecodeMem(EncodeMem(regs, o, d).value, d), d.transform)
    ensures DecodeMem(EncodeMem(regs, o, d).value, d).value.mem.base == CORE_FIRST
  {
    hide ValidRegisters, SameAddress, Pow2, Get, Pack, BaseDispField, BaseDispOperand;
    var layout := EncodeLayout(d).value;
    SmallOffset(regs, o, layout);
    CoreEncoding(regs, 17);
    BaseDispReads(regs, o, layout);
    BaseRead(BaseDispField(regs, o, layout).value, d.width, DecodeLayout(d).value);
    MemRoundTrip(regs, o, d);
  }

  /** `[r0, -r1, lsr #3]` is accepted by the Thumb register forms, which have neither direction nor shift, and read
      back as `[r0, r1]`. */
  lemma ModifierCounterexample(regs: Registers, o: Operand, d: Desc)
    requires ValidRegisters(regs) && (d.transform.MemT2SoReg? || d.transform.MemThumbRr?)
    requires o == MemFullOperand(CORE_FIRST, CORE_FIRST + 1, 1, 0, 32, 32)
                    .(negativeOffset := true, shiftKind := 1, shiftAmount := 3)
    ensures EncodeMem(regs, o, d).Some?
    ensures var back := DecodeMem(EncodeMem(regs, o, d).value, d);
            && !SameAddress(o, back, d.transform)
            && back.Some? && Unmodified(back.value)
            && back.value.mem == Memory(CORE_FIRST, CORE_FIRST + 1, 0, 0, 32, 1)
  {
    CoreEncoding(regs, o.mem.base);
    CoreEncoding(regs, o.mem.index);
    hide Pack, ValidRegisters;
    assert EncodeMem(regs, o, d).Some?;
    hide EncodeMem, DecodeMem;
    PlaceBack(regs, o, d);
    DecodedModifiers(EncodeMem(regs, o, d).value, d);
  }

  /** A NEON address with alignment 64 is accepted, and read back without alignment. */
  lemma AlignmentCounterexample(regs: Registers, o: Operand, d: Desc)
    requires ValidRegisters(regs) && d.transform.MemNeonAddrMode6?
    requires o == MemFullOperand(CORE_FIRST, 0, 1, 0, 64, 32).(imm := 64)
    ensures EncodeMem(regs, o, d).Some?
    ensures var back := DecodeMem(EncodeMem(regs, o, d).value, d);
            !SameAddress(o, back, d.transform) && back.Some? && back.value.imm == 0
  {
    CoreEncoding(regs, o.mem.base);
    CoreEncoding(regs, o.mem.index);
    NothingPacked(d.sourceMask);
    hide Pack, AndNot, ValidRegisters;
    assert EncodeMem(regs, o, d).Some?;
    hide EncodeMem, DecodeMem;
    PlaceBack(regs, o, d);
  }

  lemma NothingPacked(mask: u32)
    ensures Pack([Field(0, 4, 0), Field(4, 2, 0)]) == 0 && AndNot(0, mask) == 0
  {
    PackOneMore([], Field(0, 4, 0));
    PackOneMore([Field(0, 4, 0)], Field(4, 2, 0));
    assert [Field(0, 4, 0)] == [] + [Field(0, 4, 0)];
    assert [Field(0, 4, 0), Field(4, 2, 0)] == [Field(0, 4, 0)] + [Field(4, 2, 0)];
    ShlIsTimes(0, 4);
  }

  lemma SmallOffset(regs: Registers, o: Operand, l: Layout)
    requires Simple(o) && o.mem.index == 0 && o.mem.displacement == 4 && regs.gpr4(o.mem.base) == Some(0)
    requires l.min <= 4 <= l.max && l.scale == 1 && l.immWidth == 12
    ensures BaseDispField(regs, o, l).Some?
  {
    WordSizes();
    hide Pow2, Pack;
  }

  lemma BaseRead(v: nat, width: nat, l: Layout)
    ensures BaseDispOperand(v, width, l).mem.base == Core(Get(v, l.baseAt, l.baseWidth))
  {
    hide Get;
  }
}
