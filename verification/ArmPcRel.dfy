/** A32 and T32 PC-relative operands. */
module ArmPcRel {
  import opened Bits
  import opened Wrappers
  import opened Immediates
  import opened PcRelative
  import opened ArmDescs
  import opened ArmImmediates
  import opened ArmModifiedImm
  import opened BranchBits
  import EmitRel
  import Residues
  import Rotation

  const INT32_MIN: int := -0x8000_0000
  const INT32_MAX: int := 0x7fff_ffff

  /** The address that displacements count from, which depends on the transform. */
  function Base(address: u64, t: Transform): u64 {
    if t.PcRelA32Words4? || t.PcRelA32Words2? || t.PcRelArmAdr? then Wrap(address + 8)
    else if t.PcRelThumbAdr? || t.PcRelT2Adr? || t.PcRelThumbT2Blx? || t.PcRelT2LdrLabel?
    then AlignDown(Wrap(address + 4), 4)
    else Wrap(address + 4)
  }

  // ---- encoder

  /** `arm_bf_arm_adr_value`. */
  function AdrField(disp: i64, mask: u32): Option<nat> {
    if mask != 0x3fff then None
    else if disp == INT32_MIN then Some(0x1000)
    else if disp < INT32_MIN || disp > INT32_MAX then None
    else if disp < 0 then
      if ModImm(-disp, 0xfff).Some? then Some(Or(0x1000, ModImm(-disp, 0xfff).value))
      else if ModImm(disp + U32, 0xfff).Some? then Some(Or(0x2000, ModImm(disp + U32, 0xfff).value))
      else None
    else if ModImm(disp, 0xfff).Some? then Some(Or(0x2000, ModImm(disp, 0xfff).value))
    else if ModImm((-disp) % U32, 0xfff).Some? then Some(Or(0x1000, ModImm((-disp) % U32, 0xfff).value))
    else None
  }

  predicate BranchMask(mask: u32) {
    mask == 0xff_ffff || mask == 0xff_fffe
  }

  function BranchField(disp: i64, mask: u32): Option<nat> {
    if !BranchMask(mask) || disp % 2 != 0 || disp < -0x100_0000 || disp > 0xff_fffe then None
    else Some(And(StoreJ(disp / 2 % 0x100_0000), mask))
  }

  /** The field for a displacement from `Base`. */
  function DispField(disp: i64, d: Desc): Option<nat> {
    var mask := d.sourceMask;
    match d.transform
    case PcRelA32Words4 => if disp % 4 != 0 then None else RawSignedMasked(disp / 4, mask)
    case PcRelA32Words2 => if disp % 2 != 0 then None else RawSignedMasked(disp / 2, mask)
    case PcRelThumbWords2 => if disp % 2 != 0 then None else RawSignedMasked(disp / 2, mask)
    case PcRelThumbCb => if disp < 0 || disp % 2 != 0 then None else RawUnsigned(disp / 2, mask)
    case PcRelArmAdr => AdrField(disp, mask)
    case PcRelThumbAdr => if disp < 0 || disp % 4 != 0 then None else RawUnsigned(disp / 4, mask)
    case PcRelT2Adr =>
      if disp < -0xfff || disp > 0xfff then None
      else if disp < 0 then InMask(Or(-disp, 0x1000), mask) else RawUnsigned(disp, mask)
    case PcRelThumbT2B => BranchField(disp, mask)
    case PcRelThumbT2Blx => BranchField(disp, mask)
    case PcRelThumbT2Bcc =>
      if mask != 0x1f_fffe || disp % 2 != 0 || disp < -0x10_0000 || disp > 0xf_fffe then None
      else Some(And(disp % U32, 0x1f_fffe))
    case PcRelT2LdrLabel =>
      if mask != 0x1fff || disp < -0xfff || disp > 0xfff then None
      else if disp < 0 then RawUnsigned(-disp, mask) else InMask(Or(disp, 0x1000), mask)
    case _ => None
  }

  /** `arm_bf_pc_rel_value`. */
  function EncodePcRel(address: u64, operand: Target, d: Desc): Option<nat> {
    DispField(Distance(Base(address, d.transform), TargetOf(address, operand)), d)
  }

  // ---- decoder

  /** The displacement that `arm_td_pc_rel_operand` reads, counted from `Base`; `None` is the operand
      of kind NONE. */
  function FieldDisp(field: nat, d: Desc): Option<int> {
    var mask := d.sourceMask;
    var value := And(field, mask);
    if mask == 0 then None
    else
      SourceWidthBounds(mask);
      match d.transform
      case PcRelA32Words4 => Some(SignExtend(value, SourceWidth(mask)) * 4)
      case PcRelA32Words2 => Some(SignExtend(value, SourceWidth(mask)) * 2)
      case PcRelThumbWords2 => Some(SignExtend(value, SourceWidth(mask)) * 2)
      case PcRelThumbCb => Some(value * 2)
      case PcRelArmAdr =>
        if mask != 0x3fff then None
        else if And(value, 0x1000) != 0 then Some(-(ModImmValue(value) as int))
        else if And(value, 0x2000) != 0 then Some(ModImmValue(value))
        else None
      case PcRelThumbAdr => Some(And(value, 0xff) * 4)
      case PcRelT2Adr =>
        if And(value, 0x1000) != 0 then
          if And(value, 0xfff) == 0 then None else Some(-(And(value, 0xfff) as int))
        else Some(And(value, 0xfff))
      case PcRelThumbT2B => if !BranchMask(mask) then None else Some(SignExtend(LoadJ(value), 24) * 2)
      case PcRelThumbT2Blx => if !BranchMask(mask) then None else Some(SignExtend(LoadJ(value), 24) * 2)
      case PcRelThumbT2Bcc => if mask != 0x1f_fffe then None else Some(SignExtend(value, 21))
      case PcRelT2LdrLabel =>
        if mask != 0x1fff then None
        else if And(value, 0x1000) != 0 then Some(And(value, 0xfff))
        else if And(value, 0xfff) == 0 then None else Some(-(And(value, 0xfff) as int))
      case _ => None
  }

  function PcRelWidth(d: Desc): nat {
    if d.width != 0 then d.width else SourceWidth(d.sourceMask)
  }

  /** `arm_td_pc_rel_operand`. */
  function DecodePcRel(address: u64, field: nat, d: Desc): Option<Target> {
    var disp := FieldDisp(field, d);
    if disp.None? then None
    else
      var fromAddress := disp.value
        + (if d.transform.PcRelA32Words4? || d.transform.PcRelA32Words2? || d.transform.PcRelArmAdr? then 8
           else if d.transform.PcRelThumbAdr? || d.transform.PcRelT2Adr? || d.transform.PcRelThumbT2Blx?
                   || d.transform.PcRelT2LdrLabel? then 0
           else 4);
      Some(Target(fromAddress, Wrap(Base(address, d.transform) + disp.value), PcRelWidth(d)))
  }

  lemma ReadWidth(address: u64, field: nat, d: Desc)
    ensures DecodePcRel(address, field, d).Some? ==> DecodePcRel(address, field, d).value.width == PcRelWidth(d)
  {
    hide FieldDisp, PcRelWidth;
  }

  /** Whether an operand comes out at all does not depend on where the instruction is. */
  lemma AddressIrrelevant(a: u64, b: u64, field: nat, d: Desc)
    ensures DecodePcRel(a, field, d).Some? <==> DecodePcRel(b, field, d).Some?
    ensures DecodePcRel(a, field, d).Some? ==> DecodePcRel(a, field, d).value.imm == DecodePcRel(b, field, d).value.imm
  {
    hide FieldDisp;
  }

  /** What a decoded displacement counts from, which is not what the program counter reads as: the instruction itself,
      or for the forms on an aligned program counter the word after next. */
  function Origin(address: u64, t: Transform): u64 {
    if t.PcRelThumbAdr? || t.PcRelT2Adr? || t.PcRelThumbT2Blx? || t.PcRelT2LdrLabel? then AlignDown(Wrap(address + 4), 4)
    else address
  }

  /** The decoded displacement leads from its origin to the decoded target, which is as wide as the descriptor says or as
      its mask. */
  lemma TargetOrigin(address: u64, field: nat, d: Desc)
    requires DecodePcRel(address, field, d).Some?
    ensures var back := DecodePcRel(address, field, d).value;
            && back.absTarget == Wrap(Origin(address, d.transform) + back.imm)
            && (d.width != 0 ==> back.width == d.width)
            && (d.width == 0 ==> back.width == SourceWidth(d.sourceMask))
  {
    hide FieldDisp, Wrap, AlignDown;
    var disp := FieldDisp(field, d).value;
    WrapTwice(address, 8, disp);
    WrapTwice(address, 4, disp);
  }

  /** The record decoder and the branch cases of the decoder read the same target from an A32 branch and from a
      two-byte Thumb branch. */
  lemma BranchTargets(address: u64, word: u32, d: Desc)
    ensures d.transform.PcRelA32Words4? && d.sourceMask == 0xff_ffff && EmitRel.DecodeA32(word, address).Some? ==>
              && DecodePcRel(address, word, d).Some?
              && DecodePcRel(address, word, d).value.absTarget == EmitRel.DecodeA32(word, address).value.target
    ensures d.transform.PcRelThumbWords2? && d.sourceMask == 0x7ff && EmitRel.DecodeThumb(word, address).Some? ==>
              && DecodePcRel(address, word, d).Some?
              && DecodePcRel(address, word, d).value.absTarget == EmitRel.DecodeThumb(word, address).value.target
  {
    hide And, Wrap, SignExtend, Shr;
    FieldWidths();
    hide SourceWidth;
    WrapTwice(address, 8, SignExtend(And(word, 0xff_ffff), 24) * 4);
    WrapTwice(address, 4, SignExtend(And(word, 0x7ff), 11) * 2);
  }

  lemma FieldWidths()
    ensures SourceWidth(0xff_ffff) == 24 && SourceWidth(0x7ff) == 11
  {
    BranchSizes();
    EmitRel.BranchPowers();
    hide Pow2, SourceWidth;
    WidthOfOnes(24);
    WidthOfOnes(11);
  }

  // ---- round trips of displacements

  /** The displacements that come back unchanged.  Without a source mask nothing is decoded. */
  predicate Keeps(disp: i64, d: Desc) {
    d.sourceMask != 0 &&
    match d.transform
    case PcRelA32Words4 => KeepsSigned(disp / 4, d.sourceMask)
    case PcRelA32Words2 => KeepsSigned(disp / 2, d.sourceMask)
    case PcRelThumbWords2 => KeepsSigned(disp / 2, d.sourceMask)
    case PcRelThumbAdr => disp <= 0xff * 4
    case PcRelThumbT2B => d.sourceMask == 0xff_ffff || disp % 4 == 0
    case PcRelThumbT2Blx => d.sourceMask == 0xff_ffff || disp % 4 == 0
    case PcRelArmAdr => disp != INT32_MIN && ModImm(if disp < 0 then -(disp as int) else disp, 0xfff).Some?
    case _ => true
  }

  /** The decoder reads a displacement, and it is `disp` exactly when `Keeps` says so. */
  ghost predicate ReadsExactly(disp: i64, field: nat, d: Desc) {
    FieldDisp(field, d).Some? && (FieldDisp(field, d).value == disp <==> Keeps(disp, d))
  }

  lemma WordsBack(disp: i64, d: Desc)
    requires d.sourceMask != 0 && DispField(disp, d).Some?
    requires d.transform.PcRelA32Words4? || d.transform.PcRelA32Words2? || d.transform.PcRelThumbWords2?
    ensures ReadsExactly(disp, DispField(disp, d).value, d)
  {
    hide And, SignExtend, RawSignedMasked, KeepsSigned, SourceWidth;
    if d.transform.PcRelA32Words4? {
      SignedExact(disp / 4, d.sourceMask);
    } else {
      SignedExact(disp / 2, d.sourceMask);
    }
  }

  lemma TagJoined(h: nat, low: nat)
    requires h < 4 && low < 0x1000
    ensures var v := h * 0x1000 + low;
            Or(h * 0x1000, low) == v == Or(low, h * 0x1000) && Low(v, 12) == low && Shr(v, 12) == h
  {
    assert Pow2(12) == 0x1000;
    hide Or, Low, Shl, Shr, Pow2;
    ShlIsTimes(h, 12);
    Joined(low, h, 12);
  }

  lemma TagMasks(v: nat)
    requires v < 0x4000
    ensures And(v, 0x3fff) == v && And(v, 0xfff) == Low(v, 12)
    ensures v < 0x2000 ==> And(v, 0x1fff) == v
  {
    assert Pow2(13) == 0x2000 && Pow2(14) == 0x4000;
    assert Ones(12) == 0xfff && Ones(13) == 0x1fff && Ones(14) == 0x3fff;
    hide And, Low, Pow2;
    AndOnes(v, 12);
    AndOnes(v, 13);
    AndOnes(v, 14);
    LowSmall(v, 14);
    if v < 0x2000 { LowSmall(v, 13); }
  }

  lemma TagTests(v: nat, h: nat)
    requires Shr(v, 12) == h < 4
    ensures And(v, 0x1000) != 0 <==> h % 2 == 1
    ensures And(v, 0x2000) != 0 <==> h >= 2
  {
    assert Pow2(12) == 0x1000 && Pow2(13) == 0x2000;
    assert Bit(h, 0) <==> h % 2 == 1;
    assert Bit(h, 1) <==> h >= 2;
    hide And, Shr, Bit, Pow2;
    TestPow2(v, 12);
    TestPow2(v, 13);
    BitShr(v, 12, 0);
    BitShr(v, 12, 1);
  }

  /** A twelve-bit field under two tag bits. */
  lemma Tagged(h: nat, low: nat)
    requires h < 4 && low < 0x1000
    ensures var v := h * 0x1000 + low;
            && Or(h * 0x1000, low) == v == Or(low, h * 0x1000)
            && And(v, 0x3fff) == v
            && And(v, 0xfff) == Low(v, 12) == low
            && (And(v, 0x1000) != 0 <==> h % 2 == 1)
            && (And(v, 0x2000) != 0 <==> h >= 2)
            && (h < 2 ==> And(v, 0x1fff) == v)
  {
    hide And, Or, Low, Shr;
    TagJoined(h, low);
    TagMasks(h * 0x1000 + low);
    TagTests(h * 0x1000 + low, h);
  }

  lemma ModImmOfLow(v: nat)
    ensures ModImmValue(v) == ModImmValue(Low(v, 12))
  {
    hide And, Shr, Low, Rotation.Ror32;
    FieldsOf(v);
    FieldsOf(Low(v, 12));
    MaskedByte(v);
    MaskedByte(Low(v, 12));
    LowAgain(v, 12);
  }

  lemma LowAgain(v: nat, n: nat)
    ensures Low(Low(v, n), n) == Low(v, n)
  {
    LowAtMost(v, n);
    LowSmall(Low(v, n), n);
  }

  lemma AdrReads(h: nat, low: nat, d: Desc)
    requires (h == 1 || h == 2) && low < 0x1000 && d.transform.PcRelArmAdr? && d.sourceMask == 0x3fff
    ensures FieldDisp(h * 0x1000 + low, d) == Some(if h == 1 then -(ModImmValue(low) as int) else ModImmValue(low))
  {
    hide And, Or, Low, ModImmValue;
    Tagged(h, low);
    ModImmOfLow(h * 0x1000 + low);
  }

  lemma ModImmOfZero()
    ensures ModImmValue(0) == 0
  {
    hide And, Shr, Low;
    FieldsOf(0);
    MaskedByte(0);
  }

  /** The A32 ADR field: what it reads back as. */
  lemma AdrBack(disp: i64, d: Desc)
    requires d.transform.PcRelArmAdr? && AdrField(disp, d.sourceMask).Some?
    ensures var magnitude := if disp < 0 then -(disp as int) else disp;
            FieldDisp(AdrField(disp, d.sourceMask).value, d)
            == Some(if disp == INT32_MIN then 0
                    else if ModImm(magnitude, 0xfff).Some? then disp
                    else if disp < 0 then disp + U32 else disp - U32)
  {
    hide And, Or, Low, ModImmValue, ModImm, FieldDisp;
    if disp == INT32_MIN {
      ModImmOfZero();
      AdrReads(1, 0, d);
    } else {
      var magnitude := if disp < 0 then -(disp as int) else disp;
      var other := if disp < 0 then disp + U32 else (-(disp as int)) % U32;
      ModImmMeaning(magnitude, 0xfff);
      ModImmMeaning(other, 0xfff);
      var direct := ModImm(magnitude, 0xfff).Some?;
      var low := if direct then ModImm(magnitude, 0xfff).value else ModImm(other, 0xfff).value;
      var h := if (disp < 0) == direct then 1 else 2;
      Tagged(h, low);
      AdrReads(h, low, d);
      if !direct && disp == 0 { ModImmTakesZero(); }
    }
  }

  lemma ModImmTakesZero()
    ensures ModImm(0, 0xfff).Some?
  {
    assert AndNot(0, 0xff) == 0 && AndNot(0, 0xfff) == 0 && Shl(0, 8) == 0 && Or(0, 0) == 0;
  }

  /** Modulo `2^32` every accepted A32 ADR displacement comes back, except the least one: the encoder
      answers `-2^31` with the field of a subtracted zero. */
  lemma AdrModulo(disp: i64, d: Desc)
    requires d.transform.PcRelArmAdr? && AdrField(disp, d.sourceMask).Some?
    ensures FieldDisp(AdrField(disp, d.sourceMask).value, d).Some?
    ensures (FieldDisp(AdrField(disp, d.sourceMask).value, d).value - disp) % U32 == 0 <==> disp != INT32_MIN
  {
    hide FieldDisp, AdrField, ModImm;
    AdrBack(disp, d);
  }

  lemma SmallAdrBack(disp: i64, d: Desc)
    requires d.sourceMask != 0 && DispField(disp, d).Some?
    requires d.transform.PcRelT2Adr? || d.transform.PcRelT2LdrLabel?
    ensures ReadsExactly(disp, DispField(disp, d).value, d)
  {
    var magnitude := if disp < 0 then -(disp as int) else disp;
    hide And, Or, AndNot, Low;
    var h := if (disp < 0) == d.transform.PcRelT2Adr? then 1 else 0;
    Tagged(h, magnitude);
    MaskAgain(h * 0x1000 + magnitude, d.sourceMask);
  }

  /** The even part: what a mask without bit 0 keeps. */
  lemma {:induction false} EvenPart(v: nat, w: nat)
    requires w > 0
    ensures And(v, Ones(w) - 1) == Low(v, w) - Low(v, w) % 2
  {
    assert And(v, Pow2(w) - 2) == 2 * And(v / 2, Ones(w - 1));
    AndOnes(v / 2, w - 1);
  }

  lemma EvenAgain(v: nat, w: nat)
    requires w > 0
    ensures And(And(v, Ones(w) - 1), Ones(w) - 1) == And(v, Ones(w) - 1)
    ensures And(v, Ones(w) - 1) < Pow2(w)
  {
    assert Pow2(w) >= 2;
    hide And, Low, Pow2;
    EvenPart(v, w);
    LowAtMost(v, w);
    EvenPart(And(v, Ones(w) - 1), w);
    LowSmall(Low(v, w), w);
    LowSmall(Low(v, w) - Low(v, w) % 2, w);
  }

  lemma AndNotOne(v: nat)
    ensures AndNot(v, 1) == v - v % 2
  {
    AndNotZero(v / 2);
  }

  lemma {:induction false} AndNotZero(v: nat)
    ensures AndNot(v, 0) == v
    decreases v
  {
    if v > 0 { AndNotZero(v / 2); }
  }

  /** The stored 24 bits of a branch displacement, after the mask. */
  lemma BranchStored(disp: i64, mask: u32)
    requires BranchField(disp, mask).Some?
    ensures var x := disp / 2 % 0x100_0000;
            && And(BranchField(disp, mask).value, mask) == BranchField(disp, mask).value
            && LoadJ(BranchField(disp, mask).value) == if mask == 0xff_ffff then x else x - x % 2
  {
    var x := disp / 2 % 0x100_0000;
    BranchSizes();
    assert Ones(24) == 0xff_ffff;
    hide And, StoreJ, LoadJ, Low, Pow2, AndNot;
    StoreJFits(x);
    LoadOfStore(x);
    LowSmall(StoreJ(x), 24);
    if mask == 0xff_ffff {
      AndOnes(StoreJ(x), 24);
    } else {
      EvenPart(StoreJ(x), 24);
      EvenAgain(StoreJ(x), 24);
      AndNotOne(StoreJ(x));
      AndNotOne(x);
      LowBitAside(x);
    }
  }

  lemma BranchBack(disp: i64, d: Desc)
    requires DispField(disp, d).Some? && (d.transform.PcRelThumbT2B? || d.transform.PcRelThumbT2Blx?)
    ensures ReadsExactly(disp, DispField(disp, d).value, d)
  {
    BranchSizes();
    hide And, StoreJ, LoadJ, Pow2, SignExtend;
    BranchStored(disp, d.sourceMask);
    SignExtendOfMod(disp / 2, 24);
    if d.sourceMask != 0xff_ffff && disp % 4 != 0 {
      OddOffset(disp / 2);
    }
  }

  /** Dropping the low bit of an odd offset gives the offset below it. */
  lemma OddOffset(half: int)
    requires -0x80_0000 <= half < 0x80_0000 && half % 2 == 1
    ensures var x := half % 0x100_0000; x % 2 == 1 && SignExtend(x - 1, 24) == half - 1
  {
    BranchSizes();
    hide Pow2, SignExtend;
    SignExtendOfMod(half, 24);
    SignExtendOfMod(half - 1, 24);
  }

  lemma EvenResidue(x: int)
    requires x % 2 == 0
    ensures x % 0x20_0000 % 2 == 0
  {
    var half := x / 2;
    Residues.Unique(x, half / 0x10_0000, 2 * (half % 0x10_0000), 0x20_0000);
  }

  /** The stored 21 bits of a conditional branch displacement. */
  lemma BccStored(disp: i64)
    requires disp % 2 == 0
    ensures And(disp % U32, 0x1f_fffe) == disp % 0x20_0000
    ensures And(And(disp % U32, 0x1f_fffe), 0x1f_fffe) == disp % 0x20_0000
  {
    BranchSizes();
    assert Ones(21) - 1 == 0x1f_fffe;
    EvenResidue(disp);
    LowOfWord(disp, 21);
    hide And, Pow2, Low, Ones;
    var word := disp % U32;
    EvenAgain(word, 21);
    EvenPart(word, 21);
  }

  lemma BccBack(disp: i64, d: Desc)
    requires DispField(disp, d).Some? && d.transform.PcRelThumbT2Bcc?
    ensures ReadsExactly(disp, DispField(disp, d).value, d)
  {
    BranchSizes();
    hide And, Pow2, SignExtend, SourceWidth;
    BccStored(disp);
    SignExtendOfMod(disp, 21);
  }

  lemma ByteFieldBack(disp: i64, d: Desc)
    requires DispField(disp, d).Some? && d.sourceMask != 0 && (d.transform.PcRelThumbCb? || d.transform.PcRelThumbAdr?)
    ensures ReadsExactly(disp, DispField(disp, d).value, d)
  {
    hide And, AndNot, Low;
    var v := DispField(disp, d).value;
    MaskAgain(v, d.sourceMask);
    MaskedByte(v);
    if v < 0x100 { LowByte(v); }
  }

  lemma LowByte(v: nat)
    requires v < 0x100
    ensures And(v, 0xff) == v
  {
    assert Pow2(8) == 0x100;
    MaskedByte(v);
    LowSmall(v, 8);
  }

  lemma MaskedRoundTrip(disp: i64, d: Desc)
    requires d.sourceMask != 0 && DispField(disp, d).Some?
    ensures ReadsExactly(disp, DispField(disp, d).value, d)
  {
    hide DispField, FieldDisp, ReadsExactly;
    match d.transform
    case PcRelA32Words4 => WordsBack(disp, d);
    case PcRelA32Words2 => WordsBack(disp, d);
    case PcRelThumbWords2 => WordsBack(disp, d);
    case PcRelThumbCb => ByteFieldBack(disp, d);
    case PcRelThumbAdr => ByteFieldBack(disp, d);
    case PcRelT2Adr => SmallAdrBack(disp, d);
    case PcRelT2LdrLabel => SmallAdrBack(disp, d);
    case PcRelThumbT2B => BranchBack(disp, d);
    case PcRelThumbT2Blx => BranchBack(disp, d);
    case PcRelThumbT2Bcc => BccBack(disp, d);
    case PcRelArmAdr => AdrExact(disp, d);
    case _ => NotPcRel(disp, d);
  }

  lemma AdrExact(disp: i64, d: Desc)
    requires DispField(disp, d).Some? && d.transform.PcRelArmAdr?
    ensures ReadsExactly(disp, DispField(disp, d).value, d)
  {
    assert d.sourceMask == 0x3fff;
    hide FieldDisp, AdrField, ModImm;
    AdrBack(disp, d);
  }

  lemma NotPcRel(disp: i64, d: Desc)
    requires DispField(disp, d).Some?
    ensures d.transform.PcRelA32Words4? || d.transform.PcRelA32Words2? || d.transform.PcRelThumbWords2?
            || d.transform.PcRelThumbCb? || d.transform.PcRelThumbAdr? || d.transform.PcRelT2Adr? || d.transform.PcRelT2LdrLabel?
            || d.transform.PcRelThumbT2B? || d.transform.PcRelThumbT2Blx? || d.transform.PcRelThumbT2Bcc? || d.transform.PcRelArmAdr?
  {
  }

  // ---- round trips of targets

  lemma SignedRange(value: nat, mask: u32)
    requires mask != 0
    ensures SourceWidth(mask) > 0 && And(value, mask) < Pow2(SourceWidth(mask))
    ensures -0x8000_0000 <= SignExtend(And(value, mask), SourceWidth(mask)) < 0x8000_0000
  {
    hide And, Pow2, SignExtend, SourceWidth;
    var w := SourceWidth(mask);
    SourceWidthBounds(mask);
    MaskedLow(value, mask, w);
    WidthOfWord(mask);
    SignExtendRange(And(value, mask), w);
    Pow2Monotone(w - 1, 31);
    WordSizes();
    DoublePow2(31);
  }

  lemma BranchRange(value: nat, mask: u32)
    requires BranchMask(mask)
    ensures -0x80_0000 <= SignExtend(LoadJ(And(value, mask)), 24) < 0x80_0000
  {
    BranchSizes();
    hide And, Pow2, SignExtend, LoadJ;
    MaskedLow(value, mask, 24);
    LoadOfStore(And(value, mask));
    StoreJFits(And(value, mask));
    SignExtendRange(LoadJ(And(value, mask)), 24);
  }

  /** Displacements are far smaller than the address space. */
  lemma DispRange(field: nat, d: Desc)
    requires FieldDisp(field, d).Some?
    ensures -0x4_0000_0000 <= FieldDisp(field, d).value <= 0x4_0000_0000
  {
    var mask := d.sourceMask;
    hide And, SignExtend, LoadJ, SourceWidth, ModImmValue, Pow2;
    SignedRange(field, mask);
    AndAtMost(field, mask);
    AndAtMost(And(field, mask), 0xfff);
    AndAtMost(And(field, mask), 0xff);
    if BranchMask(mask) { BranchRange(field, mask); }
    ModImmIsWord(And(field, mask));
    if d.transform.PcRelThumbT2Bcc? && mask == 0x1f_fffe { BccRange(And(field, mask)); }
  }

  lemma ModImmIsWord(v: nat)
    ensures ModImmValue(v) < U32
  {
    FieldsOf(v);
    MaskedByte(v);
    Rotation.RorIsWord(And(v, 0xff), And(Shr(v, 8), 0x0f) * 2);
  }

  lemma BccRange(v: nat)
    requires v <= 0x1f_fffe
    ensures -0x10_0000 <= SignExtend(v, 21) < 0x10_0000
  {
    BranchSizes();
    hide Pow2, SignExtend;
    SignExtendRange(v, 21);
  }

  /** Every accepted displacement is decoded, unless the descriptor has no source mask, and comes back unchanged
      exactly when `Keeps` holds. */
  lemma DispRoundTrip(disp: i64, d: Desc)
    requires DispField(disp, d).Some?
    ensures FieldDisp(DispField(disp, d).value, d).Some? <==> d.sourceMask != 0
    ensures FieldDisp(DispField(disp, d).value, d) == Some(disp) <==> Keeps(disp, d)
  {
    if d.sourceMask != 0 {
      hide DispField, FieldDisp, Keeps;
      MaskedRoundTrip(disp, d);
    } else {
      hide DispField;
    }
  }

  /** A target that the encoder accepts decodes, at the same address, to the same target exactly when
      its displacement is one that `Keeps` names; with a source mask it always decodes to some target. */
  lemma ArmPcRelRoundTrip(address: u64, operand: Target, d: Desc)
    requires EncodePcRel(address, operand, d).Some?
    ensures var target := TargetOf(address, operand);
            var back := DecodePcRel(address, EncodePcRel(address, operand, d).value, d);
            && (back.Some? <==> d.sourceMask != 0)
            && (back.Some? && back.value.absTarget == target <==> Keeps(Distance(Base(address, d.transform), target), d))
  {
    hide FieldDisp, DispField, Keeps, Wrap, Distance, Base;
    var target, base := TargetOf(address, operand), Base(address, d.transform);
    var disp := Distance(base, target);
    DispRoundTrip(disp, d);
    var field := DispField(disp, d).value;
    if d.sourceMask != 0 {
      DispRange(field, d);
      DistanceArrives(base, target);
      DistanceUnique(base, FieldDisp(field, d).value);
    } else {
      NoMaskKeeps(disp, d);
    }
  }

  lemma NoMaskKeeps(disp: i64, d: Desc)
    requires d.sourceMask == 0
    ensures !Keeps(disp, d)
  {
  }

  /** With the mask 0xfffffe a branch over two bytes is accepted and read back as a branch over none. */
  lemma BranchCounterexample(disp: i64, d: Desc)
    requires disp == 2 && d.transform.PcRelThumbT2B? && d.sourceMask == 0xff_fffe
    ensures DispField(disp, d).Some?
    ensures FieldDisp(DispField(disp, d).value, d) == Some(0)
  {
    BranchSizes();
    hide And, StoreJ, LoadJ, Pow2, SignExtend;
    BranchStored(disp, d.sourceMask);
    SignExtendOfMod(disp - 2, 24);
  }

  /** A32 ADR to the address `2^31` bytes below is accepted and read back as ADR to itself. */
  lemma AdrCounterexample(disp: i64, d: Desc)
    requires disp == INT32_MIN && d.transform.PcRelArmAdr? && d.sourceMask == 0x3fff
    ensures DispField(disp, d) == Some(0x1000) && FieldDisp(0x1000, d) == Some(0)
  {
    hide FieldDisp, ModImm;
    AdrBack(disp, d);
  }
}
