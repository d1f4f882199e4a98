/** A32 and T32 decode records: from an instruction word to its operands. */
module ArmRecords {
  import opened Bits
  import opened Wrappers
  import opened Operands
  import opened ArmDescs
  import opened ArmImmediates
  import opened ArmPcRel
  import opened ArmMemory
  import opened Features
  import OperandBits
  import DecodeIndex

  const MAX_OPERANDS: nat := 8

  const GPR: nat := 1
  const SPR: nat := 2
  const DPR: nat := 3
  const QPR: nat := 4
  const REG_LR: nat := 15

  /** The register table: the id for an encoding in a class of a given width (0 when there is none),
      and the encoding of a plain register operand. */
  datatype RegisterTable = RegisterTable(
    id: (nat, nat, nat) -> nat,
    encoding: (nat, nat, nat, nat) -> Option<nat>)

  datatype Record = Record(
    pattern: DecodeIndex.Pattern,
    size: nat,
    fixedBits: nat,
    priority: nat,
    space: nat,
    refusesPc: bool,
    descs: seq<Desc>,
    pieces: seq<OperandBits.Piece>,
    features: Words)

  /** Filled in by a second pass, from other operands. */
  predicate IsAlias(d: Desc) {
    d.transform.RegMemBaseAlias? || d.transform.RegDerived? || d.transform.RegFixedSp? || d.transform.RegFixedLr?
    || d.transform.RegFixedLiteral?
  }

  function Known(id: nat, width: nat): Option<Operand> {
    if id == 0 then None else Some(RegOperand(id, width))
  }

  function OrWord(width: nat): nat {
    if width == 0 then 32 else width
  }

  // ---- register operands

  /** `arm_td_shifted_reg_imm_operand`. */
  function ShiftedRegImm(regs: RegisterTable, value: nat, width: nat): Option<Operand> {
    var reg := Known(regs.id(And(value, 0x0f), OrWord(width), GPR), OrWord(width));
    if reg.None? then None else Some(Shifted(reg.value, value))
  }

  /** `arm_td_shifted_reg_reg_operand`. */
  function ShiftedRegReg(regs: RegisterTable, value: nat, width: nat): Option<Operand> {
    var reg := Known(regs.id(And(value, 0x0f), OrWord(width), GPR), OrWord(width));
    var shiftReg := regs.id(And(Shr(value, 8), 0x0f), 32, GPR);
    if reg.None? || shiftReg == 0 then None
    else Some(reg.value.(shiftKind := And(Shr(value, 5), 3), shiftReg := shiftReg))
  }

  /** `arm_td_reg_list_operand`. */
  function RegListOperand(regs: RegisterTable, value: nat, d: Desc): Option<Operand> {
    if d.regClass == DPR || d.regClass == SPR then
      var start, low := And(Shr(value, 8), 0x1f), And(value, 0xff);
      var count := if d.regClass == DPR then Shr(low, 1) else low;
      if d.regClass == DPR && And(low, 1) != 0 then None
      else if count == 0 || count > 32 || start + count > 32 then None
      else
        var reg := Known(regs.id(start, d.width, d.regClass), d.width);
        if reg.None? then None else Some(reg.value.(vectorList := true, imm := Or(count, 0x100)))
    else Some(RegOperand(And(value, d.sourceMask), d.width).(registerList := true))
  }

  /** `arm_td_vec_list_operand`, for a list shape. */
  function VecListOperand(regs: RegisterTable, value: nat, d: Desc, shape: nat): Option<Operand> {
    var encoded := And(value, d.sourceMask);
    var halved := d.regClass == QPR && d.sourceMask == 0x1f;
    if halved && And(encoded, 1) != 0 then None
    else
      var reg := Known(regs.id(if halved then Shr(encoded, 1) else encoded, d.width, d.regClass), d.width);
      if reg.None? then None else Some(reg.value.(vectorList := true, imm := shape))
  }

  /** `arm_td_tgpr_operand`. */
  function TgprOperand(regs: RegisterTable, value: nat, d: Desc, odd: nat): Option<Operand> {
    var masked := And(value, d.sourceMask);
    var encoded := if And(d.sourceMask, 1) == 0 then Or(masked, odd) else masked;
    if And(encoded, 1) != odd || encoded > (if odd != 0 then 11 else 14) then None
    else Known(regs.id(encoded, 32, GPR), 32)
  }

  /** The register branch of `arm_decode_td_operands`. */
  function RegOperandOf(regs: RegisterTable, value: nat, d: Desc): Option<Operand> {
    var masked := And(value, d.sourceMask);
    match d.transform
    case ShiftedRegImm => ShiftedRegImm(regs, masked, d.width)
    case ShiftedRegReg => ShiftedRegReg(regs, masked, d.width)
    case RegList => RegListOperand(regs, value, d)
    case VecList(shape) => VecListOperand(regs, value, d, shape)
    case RegPostIdx =>
      var reg := Known(regs.id(And(masked, 0x0f), 32, GPR), OrWord(d.width));
      if reg.None? then None else Some(reg.value.(negativeOffset := And(masked, 0x10) == 0))
    case RegQprFromDreg =>
      if And(masked, 1) != 0 then None else Known(regs.id(Shr(masked, 1), d.width, d.regClass), d.width)
    case RegTgprEven => TgprOperand(regs, value, d, 0)
    case RegTgprOdd => TgprOperand(regs, value, d, 1)
    case _ => Known(regs.id(masked, d.width, d.regClass), d.width)
  }

  // ---- the first pass

  function LsbField(values: OperandBits.Values, d: Desc): Option<nat> {
    if d.aliasBase < MAX_OPERANDS then Some(values[d.aliasBase]) else None
  }

  /** One operand that is not an alias. */
  function DecodeOperand(regs: RegisterTable, address: u64, values: OperandBits.Values, d: Desc): Option<Operand>
    requires d.operandIndex < MAX_OPERANDS
  {
    var value := values[d.operandIndex];
    match d.kind
    case KindReg => RegOperandOf(regs, value, d)
    case KindImm =>
      var imm := DecodeImm(value, LsbField(values, d), d);
      if imm.None? then None else Some(ImmOperand(imm.value, d.width))
    case KindMem => DecodeMem(value, d)
    case KindPcRel =>
      var target := DecodePcRel(address, value, d);
      if target.None? then None else Some(PcRelOperand(target.value.imm, target.value.absTarget, target.value.width))
    case KindOther => None
  }

  type Slots = s: seq<Operand> | |s| == 8 witness [NONE, NONE, NONE, NONE, NONE, NONE, NONE, NONE]

  const EMPTY_SLOTS: Slots := [NONE, NONE, NONE, NONE, NONE, NONE, NONE, NONE]

  function FirstPass(regs: RegisterTable, address: u64, values: OperandBits.Values, descs: seq<Desc>): Option<Slots> {
    if descs == [] then Some(EMPTY_SLOTS)
    else
      var n := |descs| - 1;
      var before, d := FirstPass(regs, address, values, descs[..n]), descs[n];
      if before.None? || d.operandIndex >= MAX_OPERANDS then None
      else if IsAlias(d) then before
      else
        var o := DecodeOperand(regs, address, values, d);
        if o.None? then None else Some(before.value[d.operandIndex := o.value])
  }

  // ---- the second pass

  /** `arm_td_derived_reg_operand`. */
  function DerivedReg(regs: RegisterTable, base: Operand, d: Desc): Option<Operand> {
    if base.kind != OpReg || base.shiftKind != 0 || base.shiftAmount != 0 || base.shiftReg != 0
       || base.extendKind != 0 || base.extendAmount != 0 || base.registerList || base.extendedReg then None
    else
      var encoding := regs.encoding(base.reg, base.width, d.regClass, d.width);
      if encoding.None? then None
      else
        var reg := (encoding.value + d.sourceMask) % U32;
        var wraps := d.regClass == DPR && d.width == 64;
        if !wraps && reg > 31 then None
        else Known(regs.id(if wraps then And(reg, 31) else reg, d.width, d.regClass), d.width)
  }

  function AliasOperand(regs: RegisterTable, slots: Slots, d: Desc): Option<Operand> {
    match d.transform
    case RegMemBaseAlias =>
      if d.aliasBase >= MAX_OPERANDS then None
      else
        var base := slots[d.aliasBase];
        if base.kind != OpMem || base.mem.base == 0 then None else Some(RegOperand(base.mem.base, OrWord(d.width)))
    case RegDerived =>
      if d.aliasBase >= MAX_OPERANDS then None else DerivedReg(regs, slots[d.aliasBase], d)
    case RegFixedSp => Some(RegOperand(REG_SP, OrWord(d.width)))
    case RegFixedLr => Some(RegOperand(REG_LR, OrWord(d.width)))
    case _ => Some(RegOperand(d.sourceMask, OrWord(d.width)))
  }

  function SecondPass(regs: RegisterTable, slots: Slots, descs: seq<Desc>): Option<Slots> {
    if descs == [] then Some(slots)
    else
      var n := |descs| - 1;
      var before, d := SecondPass(regs, slots, descs[..n]), descs[n];
      if before.None? || d.operandIndex >= MAX_OPERANDS then None
      else if !IsAlias(d) then before
      else
        var o := AliasOperand(regs, before.value, d);
        if o.None? then None else Some(before.value[d.operandIndex := o.value])
  }

  /** `arm_td_decoded_operands_valid`: the MVE VPT records with a scalar operand refuse the PC. */
  predicate OperandsValid(r: Record, slots: Slots) {
    r.refusesPc ==>
      forall i :: 0 <= i < |r.descs| && i < MAX_OPERANDS ==>
        !(slots[i].kind == OpReg && slots[i].width == 32 && slots[i].reg == REG_PC)
  }

  function DecodeOperands(regs: RegisterTable, r: Record, word: nat, address: u64): Option<Slots>
    requires OperandBits.DstInWord(r.pieces)
  {
    if |r.descs| > MAX_OPERANDS then None
    else if |r.descs| == 0 then Some(EMPTY_SLOTS)
    else
      var g := OperandBits.ArmGather(OperandBits.Used(r.pieces), word);
      if g.None? then None
      else
        var first := FirstPass(regs, address, g.value.values, r.descs);
        if first.None? then None
        else
          var second := SecondPass(regs, first.value, r.descs);
          if second.None? || !OperandsValid(r, second.value) then None else second
  }

  // ---- the loops

  lemma {:induction false} FirstPassFails(regs: RegisterTable, address: u64, values: OperandBits.Values, descs: seq<Desc>, i: nat)
    requires i <= |descs| && FirstPass(regs, address, values, descs[..i]).None?
    ensures FirstPass(regs, address, values, descs).None?
    decreases |descs|
  {
    hide DecodeOperand;
    if i == |descs| {
      assert descs[..i] == descs;
    } else {
      var n := |descs| - 1;
      assert descs[..n][..i] == descs[..i];
      FirstPassFails(regs, address, values, descs[..n], i);
    }
  }

  lemma {:induction false} SecondPassFails(regs: RegisterTable, slots: Slots, descs: seq<Desc>, i: nat)
    requires i <= |descs| && SecondPass(regs, slots, descs[..i]).None?
    ensures SecondPass(regs, slots, descs).None?
    decreases |descs|
  {
    hide AliasOperand;
    if i == |descs| {
      assert descs[..i] == descs;
    } else {
      var n := |descs| - 1;
      assert descs[..n][..i] == descs[..i];
      SecondPassFails(regs, slots, descs[..n], i);
    }
  }

  method FirstPassLoop(regs: RegisterTable, address: u64, values: OperandBits.Values, descs: seq<Desc>, operands: array<Operand>)
    returns (ok: bool)
    requires operands.Length == MAX_OPERANDS && operands[..] == EMPTY_SLOTS
    modifies operands
    ensures ok <==> FirstPass(regs, address, values, descs).Some?
    ensures ok ==> operands[..] == FirstPass(regs, address, values, descs).value
  {
    hide DecodeOperand, IsAlias;
    var i := 0;
    while i < |descs|
      invariant 0 <= i <= |descs|
      invariant FirstPass(regs, address, values, descs[..i]) == Some(operands[..])
    {
      var desc := descs[i];
      assert descs[..i + 1][..i] == descs[..i];
      if desc.operandIndex >= MAX_OPERANDS {
        FirstPassFails(regs, address, values, descs, i + 1);
        return false;
      }
      if !IsAlias(desc) {
        var operand := DecodeOperand(regs, address, values, desc);
        if operand.None? {
          FirstPassFails(regs, address, values, descs, i + 1);
          return false;
        }
        operands[desc.operandIndex] := operand.value;
      }
      i := i + 1;
    }
    assert descs[..i] == descs;
    return true;
  }

  method SecondPassLoop(regs: RegisterTable, descs: seq<Desc>, operands: array<Operand>) returns (ok: bool)
    requires operands.Length == MAX_OPERANDS
    modifies operands
    ensures ok <==> SecondPass(regs, old(operands[..]), descs).Some?
    ensures ok ==> operands[..] == SecondPass(regs, old(operands[..]), descs).value
  {
    hide AliasOperand, IsAlias;
    ghost var slots := operands[..];
    var i := 0;
    while i < |descs|
      invariant 0 <= i <= |descs|
      invariant SecondPass(regs, slots, descs[..i]) == Some(operands[..])
    {
      var desc := descs[i];
      assert descs[..i + 1][..i] == descs[..i];
      if desc.operandIndex >= MAX_OPERANDS {
        SecondPassFails(regs, slots, descs, i + 1);
        return false;
      }
      if IsAlias(desc) {
        var operand := AliasOperand(regs, operands[..], desc);
        if operand.None? {
          SecondPassFails(regs, slots, descs, i + 1);
          return false;
        }
        operands[desc.operandIndex] := operand.value;
      }
      i := i + 1;
    }
    assert descs[..i] == descs;
    return true;
  }

  /** `arm_decode_td_operands`, into a zeroed operand array. */
  method DecodeOperandsLoop(regs: RegisterTable, r: Record, word: nat, address: u64, operands: array<Operand>)
    returns (ok: bool)
    requires OperandBits.DstInWord(r.pieces) && operands.Length == MAX_OPERANDS && operands[..] == EMPTY_SLOTS
    modifies operands
    ensures ok <==> DecodeOperands(regs, r, word, address).Some?
    ensures ok ==> operands[..] == DecodeOperands(regs, r, word, address).value
  {
    hide FirstPass, SecondPass, OperandBits.ArmGather, OperandBits.DstInWord, OperandsValid;
    if |r.descs| > MAX_OPERANDS {
      return false;
    }
    if |r.descs| == 0 {
      return true;
    }
    var seen, values := new nat[MAX_OPERANDS], new nat[MAX_OPERANDS];
    ok := OperandBits.ArmGatherLoop(r.pieces, word, seen, values);
    if !ok {
      return;
    }
    ok := FirstPassLoop(regs, address, values[..], r.descs, operands);
    if !ok {
      return;
    }
    ok := SecondPassLoop(regs, r.descs, operands);
    if ok {
      ok := OperandsValid(r, operands[..]);
    }
  }

  // ---- the address only moves targets

  /** The operands agree but for the absolute targets. */
  predicate SameButTargets(a: Slots, b: Slots) {
    forall k :: 0 <= k < MAX_OPERANDS ==> a[k].(absTarget := 0) == b[k].(absTarget := 0)
  }

  lemma OperandAnywhere(regs: RegisterTable, a: u64, b: u64, values: OperandBits.Values, d: Desc)
    requires d.operandIndex < MAX_OPERANDS
    ensures var x, y := DecodeOperand(regs, a, values, d), DecodeOperand(regs, b, values, d);
            (x.Some? <==> y.Some?) && (x.Some? ==> x.value.(absTarget := 0) == y.value.(absTarget := 0))
  {
    hide RegOperandOf, DecodeImm, DecodeMem, FieldDisp;
    AddressIrrelevant(a, b, values[d.operandIndex], d);
  }

  lemma {:induction false} FirstPassAnywhere(regs: RegisterTable, a: u64, b: u64, values: OperandBits.Values, descs: seq<Desc>)
    ensures var x, y := FirstPass(regs, a, values, descs), FirstPass(regs, b, values, descs);
            (x.Some? <==> y.Some?) && (x.Some? ==> SameButTargets(x.value, y.value))
    decreases |descs|
  {
    hide DecodeOperand, IsAlias;
    if descs != [] {
      var n := |descs| - 1;
      FirstPassAnywhere(regs, a, b, values, descs[..n]);
      if descs[n].operandIndex < MAX_OPERANDS { OperandAnywhere(regs, a, b, values, descs[n]); }
    }
  }

  lemma AliasAnywhere(regs: RegisterTable, x: Slots, y: Slots, d: Desc)
    requires SameButTargets(x, y)
    ensures AliasOperand(regs, x, d) == AliasOperand(regs, y, d)
  {
    if d.aliasBase < MAX_OPERANDS {
      assert x[d.aliasBase].(absTarget := 0) == y[d.aliasBase].(absTarget := 0);
    }
  }

  lemma {:induction false} SecondPassAnywhere(regs: RegisterTable, x: Slots, y: Slots, descs: seq<Desc>)
    requires SameButTargets(x, y)
    ensures var v, w := SecondPass(regs, x, descs), SecondPass(regs, y, descs);
            (v.Some? <==> w.Some?) && (v.Some? ==> SameButTargets(v.value, w.value))
    decreases |descs|
  {
    hide AliasOperand, IsAlias;
    if descs != [] {
      var n := |descs| - 1;
      SecondPassAnywhere(regs, x, y, descs[..n]);
      if SecondPass(regs, x, descs[..n]).Some? {
        AliasAnywhere(regs, SecondPass(regs, x, descs[..n]).value, SecondPass(regs, y, descs[..n]).value, descs[n]);
      }
    }
  }

  lemma ValidAnywhere(r: Record, x: Slots, y: Slots)
    requires SameButTargets(x, y)
    ensures OperandsValid(r, x) <==> OperandsValid(r, y)
  {
    forall k | 0 <= k < MAX_OPERANDS
      ensures x[k].kind == y[k].kind && x[k].width == y[k].width && x[k].reg == y[k].reg
    {
      assert x[k].(absTarget := 0) == y[k].(absTarget := 0);
    }
  }

  /** Whether a record's operands decode, and to what but for the absolute targets, does not depend on
      the address: the trial decode at address 0 stands for the final decode anywhere. */
  lemma DecodesAnywhere(regs: RegisterTable, r: Record, word: nat, a: u64, b: u64)
    requires OperandBits.DstInWord(r.pieces)
    ensures var x, y := DecodeOperands(regs, r, word, a), DecodeOperands(regs, r, word, b);
            (x.Some? <==> y.Some?) && (x.Some? ==> SameButTargets(x.value, y.value))
  {
    hide FirstPass, SecondPass, OperandBits.ArmGather, OperandsValid, SameButTargets;
    SameAsSelf(EMPTY_SLOTS);
    if 0 < |r.descs| <= MAX_OPERANDS && OperandBits.ArmGather(OperandBits.Used(r.pieces), word).Some? {
      var values := OperandBits.ArmGather(OperandBits.Used(r.pieces), word).value.values;
      FirstPassAnywhere(regs, a, b, values, r.descs);
      var x, y := FirstPass(regs, a, values, r.descs), FirstPass(regs, b, values, r.descs);
      if x.Some? {
        SecondPassAnywhere(regs, x.value, y.value, r.descs);
        var v, w := SecondPass(regs, x.value, r.descs), SecondPass(regs, y.value, r.descs);
        if v.Some? { ValidAnywhere(r, v.value, w.value); }
      }
    }
  }

  lemma SameAsSelf(x: Slots)
    ensures SameButTargets(x, x)
  {
  }
}
