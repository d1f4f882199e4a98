/** AArch64 PC-relative operands. */
module A64PcRel {
  import opened Bits
  import opened Wrappers
  import opened Immediates
  import opened PcRelative
  import opened A64Immediates

  const PAGE: nat := 0x1000

  /** `a64_bf_pc_rel_value`. */
  function EncodePcRel(address: u64, operand: Target, desc: OperandDesc): Option<u32> {
    var target := TargetOf(address, operand);
    var disp := Distance(address, target);
    match desc.transform
    case PcRelWords4 => if disp % 4 != 0 then None else RawSigned(disp / 4, desc.sourceMask)
    case PcRelAdr => RawSigned(disp, desc.sourceMask)
    case PcRelAdrp =>
      var pageDisp := Distance(AlignDown(address, PAGE), AlignDown(target, PAGE));
      if pageDisp % PAGE != 0 then None else RawSigned(pageDisp / PAGE, desc.sourceMask)
    case _ => None
  }

  function PcRelWidth(desc: OperandDesc): nat {
    if desc.width != 0 then desc.width else SourceWidth(desc.sourceMask)
  }

  /** `a64_td_pc_rel_operand`; `None` is the operand of kind NONE. */
  function DecodePcRel(address: u64, value: u32, desc: OperandDesc): Option<Target> {
    var width := SourceWidth(desc.sourceMask);
    if width == 0 then None
    else
      var field := SignExtend(value, width);
      match desc.transform
      case PcRelWords4 => Some(Target(field * 4, Wrap(address + field * 4), PcRelWidth(desc)))
      case PcRelAdr => Some(Target(field, Wrap(address + field), PcRelWidth(desc)))
      case PcRelAdrp => Some(Target(field * PAGE, Wrap(AlignDown(address, PAGE) + field * PAGE), PcRelWidth(desc)))
      case _ => None
  }

  /** What the field can express: the target itself, or its page for ADRP. */
  function Reached(target: u64, desc: OperandDesc): u64 {
    if desc.transform.PcRelAdrp? then AlignDown(target, PAGE) else target
  }

  /** A target comes back itself unless ADRP is given an address inside a page. */
  lemma PcRelExact(address: u64, operand: Target, desc: OperandDesc)
    ensures var target := TargetOf(address, operand);
            Reached(target, desc) == target <==> (desc.transform.PcRelAdrp? ==> target % PAGE == 0)
    ensures forall value: u32 ::
              DecodePcRel(address, value, desc).Some? ==> DecodePcRel(address, value, desc).value.width == PcRelWidth(desc)
  {
    hide SignExtend, SourceWidth, TargetOf;
  }

  /** An accepted target decodes, at the same address, to the same target, unless the descriptor has no source mask:
      then nothing is decoded. */
  lemma PcRelRoundTrip(address: u64, operand: Target, desc: OperandDesc)
    requires EncodePcRel(address, operand, desc).Some?
    ensures var back := DecodePcRel(address, EncodePcRel(address, operand, desc).value, desc);
            && (back.Some? <==> desc.sourceMask != 0)
            && (back.Some? ==> back.value.absTarget == Reached(TargetOf(address, operand), desc))
  {
    if desc.sourceMask != 0 { MaskedRoundTrip(address, operand, desc); }
  }

  lemma MaskedRoundTrip(address: u64, operand: Target, desc: OperandDesc)
    requires desc.sourceMask != 0 && EncodePcRel(address, operand, desc).Some?
    ensures var back := DecodePcRel(address, EncodePcRel(address, operand, desc).value, desc);
            back.Some? && back.value.absTarget == Reached(TargetOf(address, operand), desc)
  {
    hide RawSigned, SignExtend, SourceWidth;
    var target := TargetOf(address, operand);
    var disp := Distance(address, target);
    DistanceArrives(address, target);
    match desc.transform
    case PcRelWords4 => RawSignedRoundTrip(disp / 4, desc.sourceMask);
    case PcRelAdr => RawSignedRoundTrip(disp, desc.sourceMask);
    case PcRelAdrp =>
      var base, page := AlignDown(address, PAGE), AlignDown(target, PAGE);
      DistanceArrives(base, page);
      RawSignedRoundTrip(Distance(base, page) / PAGE, desc.sourceMask);
  }

  /** What the encoder takes for the target of an operand: the absolute one, or the one that the displacement leads to
      when only that is given; and how wide the decoder says that it is. */
  lemma EncodedTarget(address: u64, operand: Target, desc: OperandDesc)
    requires desc.sourceMask != 0 && EncodePcRel(address, operand, desc).Some?
    ensures var back := DecodePcRel(address, EncodePcRel(address, operand, desc).value, desc);
            && back.Some?
            && (operand.absTarget != 0 ==> back.value.absTarget == Reached(operand.absTarget, desc))
            && (operand.absTarget == 0 && operand.imm != 0 ==> back.value.absTarget == Reached(Wrap(address + operand.imm), desc))
            && (operand.absTarget == 0 && operand.imm == 0 ==> back.value.absTarget == 0)
            && back.value.width == if desc.width != 0 then desc.width else SourceWidth(desc.sourceMask)
  {
    hide EncodePcRel, DecodePcRel, Wrap, SourceWidth;
    PcRelRoundTrip(address, operand, desc);
    PcRelExact(address, operand, desc);
  }

  lemma DecodedHasMask(address: u64, value: u32, desc: OperandDesc)
    requires DecodePcRel(address, value, desc).Some?
    ensures desc.sourceMask != 0
  {
    hide SignExtend;
  }

  /** The encoder accepts a target exactly when some field value inside the mask decodes to it. */
  lemma PcRelComplete(address: u64, operand: Target, desc: OperandDesc, value: u32)
    requires AndNot(value, desc.sourceMask) == 0 && DecodePcRel(address, value, desc).Some?
    requires DecodePcRel(address, value, desc).value.absTarget == Reached(TargetOf(address, operand), desc)
    ensures EncodePcRel(address, operand, desc) == Some(value)
  {
    hide DecodePcRel, EncodePcRel;
    DecodedHasMask(address, value, desc);
    MaskedComplete(address, operand, desc, value);
  }

  lemma MaskedComplete(address: u64, operand: Target, desc: OperandDesc, value: u32)
    requires desc.sourceMask != 0 && AndNot(value, desc.sourceMask) == 0
    requires DecodePcRel(address, value, desc).Some?
    requires DecodePcRel(address, value, desc).value.absTarget == Reached(TargetOf(address, operand), desc)
    ensures EncodePcRel(address, operand, desc) == Some(value)
  {
    hide RawSigned, SignExtend, SourceWidth, AndNot, Pow2, Wrap, Distance, AlignDown, TargetOf;
    var w := SourceWidth(desc.sourceMask);
    var field := SignExtend(value, w);
    SignedAccepted(value, desc.sourceMask);
    SmallField(value, desc.sourceMask);
    Whole(field, 4);
    Whole(field, PAGE);
    match desc.transform
    case PcRelWords4 => DistanceUnique(address, field * 4);
    case PcRelAdr => DistanceUnique(address, field);
    case PcRelAdrp => DistanceUnique(AlignDown(address, PAGE), field * PAGE);
  }

  lemma Whole(field: int, step: nat)
    requires step == 4 || step == PAGE
    ensures (field * step) % step == 0 && (field * step) / step == field
  {
  }

  lemma SmallField(value: u32, mask: u32)
    requires mask != 0 && AndNot(value, mask) == 0
    ensures SourceWidth(mask) > 0
    ensures -0x8000_0000 <= SignExtend(value, SourceWidth(mask)) < 0x8000_0000
  {
    var w := SourceWidth(mask);
    Within(value, mask);
    SourceWidthBounds(mask);
    WidthOfWord(mask);
    SignExtendRange(value, w);
    Pow2Monotone(w - 1, 31);
    HalfWord();
  }

  lemma HalfWord()
    ensures Pow2(31) == 0x8000_0000
  {
    WordSizes();
  }

  /** With a contiguous mask the reach is the whole signed range of the field. */
  lemma WordsReach(address: u64, operand: Target, desc: OperandDesc, w: nat)
    requires 0 < w <= 32 && desc.transform.PcRelWords4? && desc.sourceMask == Ones(w)
    ensures EncodePcRel(address, operand, desc).Some? <==>
              var disp := Distance(address, TargetOf(address, operand));
              disp % 4 == 0 && FitsSigned(disp / 4, w)
  {
    hide RawSigned;
    var disp := Distance(address, TargetOf(address, operand));
    RawSignedContiguous(disp / 4, w);
  }
}
