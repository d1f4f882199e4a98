/** ARM register operands: the encoder's forms, the registers that repeat other operands, and what the decoder
    reads back. */
module ArmRegisters {
  import opened Bits
  import opened Wrappers
  import opened Operands
  import opened ArmDescs
  import opened ArmMemory
  import opened ArmRecords
  import opened ArmRegisterTable
  import opened PackedFields

  predicate Plain(o: Operand) {
    NoShift(o) && !o.extendedReg
  }

  predicate NoAddress(o: Operand) {
    o.mem.base == 0 && o.mem.index == 0 && o.mem.displacement == 0
  }

  predicate NoList(o: Operand) {
    !o.registerList && !o.vectorList
  }

  // ---- encoder

  function InMask(value: Option<nat>, mask: u32): Option<nat> {
    if value.None? then None else Masked(value.value, mask)
  }

  /** `arm_bf_reg_value`. */
  function RegField(o: Operand, d: Desc): Option<nat> {
    if o.kind != OpReg || !Plain(o) || !NoList(o) then None
    else InMask(PlainEncoding(o.reg, o.width, d.regClass, d.width), d.sourceMask)
  }

  /** `arm_bf_plain_reg_encoding`. */
  function PlainReg(o: Operand, cls: nat, width: nat): Option<nat> {
    if o.kind != OpReg || !Plain(o) || !NoAddress(o) || !NoList(o) then None
    else PlainEncoding(o.reg, o.width, cls, width)
  }

  /** `arm_bf_tgpr_value`: even up to 14 or odd up to 11; the mask cuts the encoding. */
  function TgprField(o: Operand, d: Desc, odd: nat): Option<nat> {
    var encoded := PlainReg(o, GPR, 32);
    if encoded.None? || And(encoded.value, 1) != odd || encoded.value > (if odd != 0 then 11 else 14) then None
    else Some(And(encoded.value, d.sourceMask))
  }

  /** `arm_bf_postidx_reg_value`, which has no mask. */
  function PostIdxField(o: Operand): Option<nat> {
    var reg := PlainReg(o, GPR, 32);
    if reg.None? || reg.value > 15 then None
    else Some(Pack([Field(0, 4, reg.value), Field(4, 1, AddBit(o))]))
  }

  /** `arm_bf_shifted_reg_imm_value`. */
  function ShiftedImmField(o: Operand, d: Desc): Option<nat> {
    var reg, shift := Gpr4(o.reg, OrWord(d.width)), ShiftFields(o.shiftKind, o.shiftAmount);
    if o.kind != OpReg || o.shiftReg != 0 || reg.None? || shift.None? then None
    else Masked(Pack([Field(0, 4, reg.value), Field(5, 2, shift.value.0), Field(7, 5, shift.value.1)]), d.sourceMask)
  }

  /** `arm_bf_shifted_reg_reg_value`. */
  function ShiftedRegField(o: Operand, d: Desc): Option<nat> {
    var reg, shiftReg := Gpr4(o.reg, OrWord(d.width)), Gpr4(o.shiftReg, 32);
    if o.kind != OpReg || o.shiftAmount != 0 || reg.None? || shiftReg.None? || o.shiftKind > 3 then None
    else Masked(Pack([Field(0, 4, reg.value), Field(5, 2, o.shiftKind), Field(8, 4, shiftReg.value)]), d.sourceMask)
  }

  predicate IsFloat(cls: nat) {
    cls == DPR || cls == SPR
  }

  /** The count of a list of floating-point registers; zero stands for one. */
  function ListCount(imm: int): nat {
    var count := And(imm % U32, 0xff);
    if count == 0 then 1 else count
  }

  /** `arm_bf_reg_list_value`: a first register and a count, or a set of core registers in `reg`. */
  function ListField(o: Operand, d: Desc): Option<nat> {
    if o.kind != OpReg || !Plain(o) || !WidthFits(o.width, d.width) then None
    else if IsFloat(d.regClass) then
      var first, count := ListedEncoding(o.reg, 0, d.regClass, d.width), ListCount(o.imm);
      if !o.vectorList || o.registerList || first.None? || first.value + count > 32 then None
      else Masked(Pack([Field(0, 8, if d.regClass == DPR then 2 * count else count), Field(8, 5, first.value)]), d.sourceMask)
    else if o.vectorList || !o.registerList then None
    else Masked(o.reg % U32, d.sourceMask)
  }

  predicate Halved(d: Desc) {
    d.regClass == QPR && d.sourceMask == 0x1f
  }

  /** `arm_bf_vec_list_value`: the shape may be left open. */
  function VecField(o: Operand, d: Desc, shape: nat): Option<nat> {
    var first := ListedEncoding(o.reg, o.width, d.regClass, d.width);
    if o.kind != OpReg || !Plain(o) || o.registerList then None
    else if o.vectorList && o.imm != 0 && o.imm % U32 != shape then None
    else if first.None? then None
    else Masked(if Halved(d) then Shl(first.value, 1) else first.value, d.sourceMask)
  }

  /** The register branch of `arm_bf_operand_value`. */
  function EncodeReg(o: Operand, d: Desc): Option<nat> {
    match d.transform
    case ShiftedRegImm => ShiftedImmField(o, d)
    case ShiftedRegReg => ShiftedRegField(o, d)
    case RegList => ListField(o, d)
    case VecList(shape) => VecField(o, d, shape)
    case RegPostIdx => PostIdxField(o)
    case RegQprFromDreg =>
      var field := RegField(o, d);
      if field.None? then None else Masked(Shl(field.value, 1), d.sourceMask)
    case RegTgprEven => TgprField(o, d, 0)
    case RegTgprOdd => TgprField(o, d, 1)
    case _ => RegField(o, d)
  }

  // ---- round trip

  /** The width that the decoder gives a register operand. */
  function DecodedWidth(d: Desc): nat {
    match d.transform
    case RegTgprEven => 32
    case RegTgprOdd => 32
    case ShiftedRegImm => OrWord(d.width)
    case ShiftedRegReg => OrWord(d.width)
    case RegPostIdx => OrWord(d.width)
    case RegMemBaseAlias => OrWord(d.width)
    case RegFixedSp => OrWord(d.width)
    case RegFixedLr => OrWord(d.width)
    case RegFixedLiteral => OrWord(d.width)
    case _ => d.width
  }

  /** Register operands that mean the same; the width may have been left open by the caller. */
  predicate SameRegister(o: Operand, back: Option<Operand>, d: Desc) {
    && back.Some?
    && back.value.kind == OpReg
    && back.value.width == DecodedWidth(d)
    && OpenOr(o.width, DecodedWidth(d))
    && back.value.reg == o.reg
    && SameModifiers(o, back.value)
    && (o.vectorList ==> back.value.imm == o.imm)
  }

  predicate NoFlags(o: Operand) {
    !o.registerPair && !o.negativeOffset
  }

  /** What the shifted forms do not look at is absent. */
  predicate OnlyShifted(o: Operand) {
    NoList(o) && NoFlags(o) && o.extendKind == 0 && o.extendAmount == 0 && !o.extendedReg
  }

  /** The accepted operands that come back: they name a register of the class by its id and no other width, say what
      list they are, and carry no flag that the form does not express; the two forms without a mask test stay inside
      the mask. */
  predicate KeepsRegister(o: Operand, d: Desc) {
    OpenOr(o.width, DecodedWidth(d)) &&
    match d.transform
    case ShiftedRegImm => IsCore(o.reg) && OnlyShifted(o)
    case ShiftedRegReg => IsCore(o.reg) && IsCore(o.shiftReg) && OnlyShifted(o)
    case RegList =>
      NoFlags(o) && if IsFloat(d.regClass) then Member(o.reg, d.regClass, d.width) && 0x101 <= o.imm <= 0x120 else o.reg < U32
    case VecList(shape) => Member(o.reg, d.regClass, d.width) && o.vectorList && o.imm == shape && NoFlags(o)
    case RegPostIdx =>
      IsCore(o.reg) && !o.registerPair && AndNot(o.reg - CORE_FIRST + 0x10 * AddBit(o), d.sourceMask) == 0
    case RegTgprEven => IsCore(o.reg) && NoFlags(o) && AndNot(o.reg - CORE_FIRST, Or(d.sourceMask, 1)) == 0
    case RegTgprOdd => IsCore(o.reg) && NoFlags(o) && AndNot(o.reg - CORE_FIRST, Or(d.sourceMask, 1)) == 0
    case _ => Member(o.reg, d.regClass, d.width) && NoFlags(o)
  }

  lemma MaskKeeps(value: Option<nat>, mask: u32)
    requires InMask(value, mask).Some?
    ensures InMask(value, mask) == value && And(value.value, mask) == value.value
  {
    MaskedSame(value.value, mask);
  }

  lemma PlainRegBack(o: Operand, d: Desc)
    requires RegField(o, d).Some?
    ensures var v := RegField(o, d).value;
            And(v, d.sourceMask) == v && v < 32
            && (SameRegister(o, Known(TABLE.id(v, d.width, d.regClass), d.width), d.(transform := RawUnsignedField))
                <==> Member(o.reg, d.regClass, d.width) && NoFlags(o) && OpenOr(o.width, d.width))
  {
    hide PlainEncoding, Member, RegId, And, AndNot;
    MaskKeeps(PlainEncoding(o.reg, o.width, d.regClass, d.width), d.sourceMask);
    PlainBack(o.reg, o.width, d.regClass, d.width);
  }

  lemma DoubledBack(v: nat)
    ensures And(Shl(v, 1), 1) == 0 && Shr(Shl(v, 1), 1) == v
  {
    LowFour();
    assert Shl(v, 1) == 2 * v && Shr(2 * v, 1) == v && Low(2 * v, 1) == 0;
    hide And, Shl, Shr, Pow2;
    AndOnes(2 * v, 1);
  }

  lemma QuadBack(o: Operand, d: Desc)
    requires d.transform.RegQprFromDreg? && EncodeReg(o, d).Some?
    ensures SameRegister(o, RegOperandOf(TABLE, EncodeReg(o, d).value, d), d) <==> KeepsRegister(o, d)
  {
    hide RegField, Member, RegId, And, Shl, Shr, AndNot;
    var v := RegField(o, d).value;
    PlainRegBack(o, d);
    MaskedSame(Shl(v, 1), d.sourceMask);
    DoubledBack(v);
  }

  lemma LowFour()
    ensures Pow2(1) == 2 && Pow2(2) == 4 && Pow2(4) == 16 && Pow2(5) == 32 && Pow2(8) == 256
    ensures Ones(1) == 1 && Ones(2) == 3 && Ones(4) == 0x0f && Ones(5) == 0x1f && Ones(8) == 0xff
  {
  }

  lemma ShrNothing(v: nat)
    ensures Shr(v, 0) == v
  {
  }

  lemma ShiftedImmBack(o: Operand, d: Desc)
    requires d.transform.ShiftedRegImm? && EncodeReg(o, d).Some?
    ensures SameRegister(o, RegOperandOf(TABLE, EncodeReg(o, d).value, d), d) <==> KeepsRegister(o, d)
  {
    hide Pack, Get, Gpr4, RegId, And, AndNot, Pow2, Ones, Shr;
    var reg, shift := Gpr4(o.reg, OrWord(d.width)).value, ShiftFields(o.shiftKind, o.shiftAmount).value;
    var fields := [Field(0, 4, reg), Field(5, 2, shift.0), Field(7, 5, shift.1)];
    var v := Pack(fields);
    LowFour();
    Gpr4Back(o.reg, OrWord(d.width));
    MaskedSame(v, d.sourceMask);
    GetPacked(fields, 0);
    GetPacked(fields, 1);
    GetPacked(fields, 2);
    FirstNibble(v);
  }

  lemma FirstNibble(v: nat)
    ensures Get(v, 0, 4) == And(v, 0x0f)
  {
    LowFour();
    ShrNothing(v);
  }

  lemma ShiftedRegBack(o: Operand, d: Desc)
    requires d.transform.ShiftedRegReg? && EncodeReg(o, d).Some?
    ensures SameRegister(o, RegOperandOf(TABLE, EncodeReg(o, d).value, d), d) <==> KeepsRegister(o, d)
  {
    LowFour();
    assert forall v: nat :: Get(v, 5, 2) == And(Shr(v, 5), 3) && Get(v, 8, 4) == And(Shr(v, 8), 0x0f);
    hide Pack, Get, Gpr4, RegId, And, AndNot, Pow2, Ones, Shr;
    var reg, shiftReg := Gpr4(o.reg, OrWord(d.width)).value, Gpr4(o.shiftReg, 32).value;
    var fields := [Field(0, 4, reg), Field(5, 2, o.shiftKind), Field(8, 4, shiftReg)];
    var v := Pack(fields);
    Gpr4Back(o.reg, OrWord(d.width));
    Gpr4Back(o.shiftReg, 32);
    MaskedSame(v, d.sourceMask);
    GetPacked(fields, 0);
    GetPacked(fields, 1);
    GetPacked(fields, 2);
    FirstNibble(v);
  }

  // lists

  lemma ListedBack(reg: nat, operandWidth: nat, cls: nat, width: nat)
    requires ListedEncoding(reg, operandWidth, cls, width).Some?
    ensures var e := ListedEncoding(reg, operandWidth, cls, width).value;
            e < 32 && (RegId(e, width, cls) != 0 && RegId(e, width, cls) == reg <==> Member(reg, cls, width))
  {
    PlainBack(reg, operandWidth, cls, width);
  }

  lemma ListFields(count: nat, first: nat)
    requires count < 256 && first < 32
    ensures var v := Pack([Field(0, 8, count), Field(8, 5, first)]); And(v, 0xff) == count && And(Shr(v, 8), 0x1f) == first
  {
    LowFour();
    var fields := [Field(0, 8, count), Field(8, 5, first)];
    ShrNothing(Pack(fields));
    assert forall v: nat :: Get(v, 8, 5) == And(Shr(v, 8), 0x1f);
    hide Pack, And, Pow2, Ones, Shr;
    assert Get(Pack(fields), 0, 8) == And(Pack(fields), 0xff);
    hide Get;
    GetPacked(fields, 0);
    GetPacked(fields, 1);
  }

  lemma CountShape(count: nat)
    requires count < 256
    ensures Or(count, 0x100) == count + 0x100
    ensures And(2 * count, 1) == 0 && Shr(2 * count, 1) == count
  {
    LowFour();
    assert Shl(1, 8) == 0x100;
    hide Or, Shl, And, Pow2;
    Joined(count, 1, 8);
    DoubledBack(count);
    assert Shl(count, 1) == 2 * count by { ShlIsTimes(count, 1); LowFour(); }
  }

  /** An immediate that states its count is read as that count. */
  lemma StatedCount(imm: int)
    ensures 0x101 <= imm <= 0x120 ==> ListCount(imm) == imm - 0x100
    ensures ListCount(imm) >= 1
  {
    if 0x101 <= imm <= 0x120 {
      assert imm % U32 == imm;
      LowByte(imm, imm - 0x100);
    }
    hide And;
  }

  lemma LowByte(v: nat, low: nat)
    requires v == low + 0x100 && low < 0x100
    ensures And(v, 0xff) == low
  {
    LowFour();
    hide And, Pow2, Ones, Low;
    AndOnes(v, 8);
    LowPlusMultiple(low, 8, 1);
    LowSmall(low, 8);
  }

  lemma FloatListBack(o: Operand, d: Desc)
    requires d.transform.RegList? && IsFloat(d.regClass) && EncodeReg(o, d).Some?
    ensures SameRegister(o, RegOperandOf(TABLE, EncodeReg(o, d).value, d), d) <==> KeepsRegister(o, d)
  {
    hide Pack, ListedEncoding, ListCount, Member, RegId, And, AndNot, Or, Shr;
    var first, count := ListedEncoding(o.reg, 0, d.regClass, d.width).value, ListCount(o.imm);
    ListedBack(o.reg, 0, d.regClass, d.width);
    StatedCount(o.imm);
    CountShape(count);
    ListFields(if d.regClass == DPR then 2 * count else count, first);
  }

  lemma CoreListBack(o: Operand, d: Desc)
    requires d.transform.RegList? && !IsFloat(d.regClass) && EncodeReg(o, d).Some?
    ensures SameRegister(o, RegOperandOf(TABLE, EncodeReg(o, d).value, d), d) <==> KeepsRegister(o, d)
  {
    hide And, AndNot;
    MaskedSame(o.reg % U32, d.sourceMask);
  }

  lemma VecListBack(o: Operand, d: Desc)
    requires d.transform.VecList? && EncodeReg(o, d).Some?
    ensures SameRegister(o, RegOperandOf(TABLE, EncodeReg(o, d).value, d), d) <==> KeepsRegister(o, d)
  {
    hide ListedEncoding, Member, RegId, And, AndNot, Shl, Shr;
    var first := ListedEncoding(o.reg, o.width, d.regClass, d.width).value;
    ListedBack(o.reg, o.width, d.regClass, d.width);
    MaskedSame(EncodeReg(o, d).value, d.sourceMask);
    DoubledBack(first);
  }

  // forms without a mask test

  lemma CoreNumber(o: Operand)
    requires PlainReg(o, GPR, 32).Some?
    ensures var e := PlainReg(o, GPR, 32).value;
            && (RegId(e, 32, GPR) != 0 && RegId(e, 32, GPR) == o.reg <==> IsCore(o.reg))
            && (IsCore(o.reg) ==> e == o.reg - CORE_FIRST)
            && e < 16
            && RegId(e, 32, GPR) == CORE_FIRST + e
  {
    hide SystemInfo, OddSingle;
    PlainBack(o.reg, o.width, GPR, 32);
  }

  lemma PostIdxValue(e: nat, sign: nat)
    requires e < 16 && sign < 2
    ensures Pack([Field(0, 4, e), Field(4, 1, sign)]) == e + 0x10 * sign
  {
    LowFour();
    var fields := [Field(0, 4, e), Field(4, 1, sign)];
    assert Shl(e, 0) == e;
    ZeroOr(e);
    hide Or, Shl, Pow2;
    assert Pack([]) == 0;
    PackOneMore([], Field(0, 4, e));
    PackOneMore([Field(0, 4, e)], Field(4, 1, sign));
    assert fields == [Field(0, 4, e)] + [Field(4, 1, sign)] && [Field(0, 4, e)] == [] + [Field(0, 4, e)];
    Joined(e, sign, 4);
    ShlIsTimes(sign, 4);
  }

  /** The two parts of a five-bit field survive a mask exactly when the field does. */
  lemma PostIdxMask(v: nat, mask: u32)
    requires v < 32
    ensures And(And(v, mask), 0x0f) == And(v, 0x0f) && (And(And(v, mask), 0x10) == 0 <==> And(v, 0x10) == 0)
            <==> AndNot(v, mask) == 0
  {
    LowFour();
    hide Bit, And, AndNot, Pow2, Ones;
    var m := And(v, mask);
    AndBits(v, mask);
    AndNotBits(v, mask);
    AndBits(m, 0x0f);
    AndBits(v, 0x0f);
    OnesBits(4);
    TestPow2(m, 4);
    TestPow2(v, 4);
    BitsZero();
    forall i: nat | i >= 5 ensures !Bit(v, i) { BitAbove(v, 5, i); }
    if AndNot(v, mask) == 0 {
      SameBits(And(m, 0x0f), And(v, 0x0f));
    } else {
      if forall i: nat :: !Bit(AndNot(v, mask), i) { SameBits(AndNot(v, mask), 0); }
      var i: nat :| Bit(AndNot(v, mask), i);
      if i < 4 {
        assert Bit(And(v, 0x0f), i) && !Bit(And(m, 0x0f), i);
      } else {
        assert i == 4;
      }
    }
  }

  lemma BitsZero()
    ensures forall i: nat :: !Bit(0, i)
  {
    forall i: nat { BitZero(i); }
  }

  lemma PostIdxBack(o: Operand, d: Desc)
    requires d.transform.RegPostIdx? && EncodeReg(o, d).Some?
    ensures SameRegister(o, RegOperandOf(TABLE, EncodeReg(o, d).value, d), d) <==> KeepsRegister(o, d)
  {
    LowFour();
    hide Pack, PlainEncoding, RegId, And, AndNot, Pow2, Ones;
    var e, v := PlainReg(o, GPR, 32).value, EncodeReg(o, d).value;
    CoreNumber(o);
    PostIdxValue(e, AddBit(o));
    PostIdxMask(v, d.sourceMask);
    PostIdxParts(e, AddBit(o));
    AndAtMost(And(v, d.sourceMask), 0x0f);
    CoreNumbers(And(And(v, d.sourceMask), 0x0f));
  }

  lemma CoreNumbers(e: nat)
    requires e <= 15
    ensures RegId(e, 32, GPR) == CORE_FIRST + e
  {
  }

  lemma PostIdxParts(e: nat, sign: nat)
    requires e < 16 && sign < 2
    ensures And(e + 0x10 * sign, 0x0f) == e && (And(e + 0x10 * sign, 0x10) == 0 <==> sign == 0)
  {
    LowFour();
    var v := e + 0x10 * sign;
    hide Bit, And, Pow2, Ones;
    AndOnes(v, 4);
    LowPlusMultiple(e, 4, sign);
    LowSmall(e, 4);
    TestPow2(v, 4);
    TopBit(v, 4);
  }

  /** A masked encoding with its low bit put back is the encoding exactly when the mask keeps the other bits. */
  lemma TgprMask(e: nat, mask: u32, odd: nat)
    requires And(e, 1) == odd
    ensures var masked := And(And(e, mask), mask);
            var back := if And(mask, 1) == 0 then Or(masked, odd) else masked;
            And(back, 1) == odd && (back == e <==> AndNot(e, Or(mask, 1)) == 0)
  {
    LowFour();
    AndBits(e, mask);
    AndBits(And(e, mask), mask);
    AndNotBits(e, Or(mask, 1));
    OrBits(mask, 1);
    var masked := And(And(e, mask), mask);
    OrBits(masked, odd);
    assert odd == 0 || odd == 1 by { AndAtMost(e, 1); }
    BitsZero();
    OnesBits(1);
    var back := if And(mask, 1) == 0 then Or(masked, odd) else masked;
    hide And, Or, AndNot, Pow2, Ones;
    AndBits(e, 1);
    AndBits(mask, 1);
    AndBits(back, 1);
    assert Bit(mask, 0) <==> And(mask, 1) != 0 by { LowBit(mask); }
    assert Bit(e, 0) <==> odd == 1 by { LowBit(e); }
    assert Bit(back, 0) == Bit(e, 0);
    LowBit(back);
    assert forall i: nat :: i > 0 ==> Bit(back, i) == (Bit(e, i) && Bit(mask, i));
    if AndNot(e, Or(mask, 1)) == 0 {
      forall i: nat ensures Bit(back, i) == Bit(e, i) {
        assert !Bit(AndNot(e, Or(mask, 1)), i);
      }
      SameBits(back, e);
    } else if back == e {
      SameBits(AndNot(e, Or(mask, 1)), 0);
    }
  }

  lemma LowBit(v: nat)
    ensures And(v, 1) == if Bit(v, 0) then 1 else 0
  {
    LowFour();
    hide And, Pow2;
    AndOnes(v, 1);
    assert Low(v, 1) == v % 2;
  }

  lemma TgprBack(o: Operand, d: Desc, odd: nat)
    requires TgprField(o, d, odd).Some? && DecodedWidth(d) == 32
    ensures SameRegister(o, TgprOperand(TABLE, TgprField(o, d, odd).value, d, odd), d)
            <==> IsCore(o.reg) && NoFlags(o) && AndNot(o.reg - CORE_FIRST, Or(d.sourceMask, 1)) == 0 && OpenOr(o.width, 32)
  {
    hide PlainEncoding, RegId, And, AndNot, Or;
    var e := PlainReg(o, GPR, 32).value;
    CoreNumber(o);
    TgprMask(e, d.sourceMask, odd);
    var masked := And(And(e, d.sourceMask), d.sourceMask);
    var back := if And(d.sourceMask, 1) == 0 then Or(masked, odd) else masked;
    if back <= 15 { CoreNumbers(back); }
  }

  lemma TgprFormBack(o: Operand, d: Desc)
    requires (d.transform.RegTgprEven? || d.transform.RegTgprOdd?) && EncodeReg(o, d).Some?
    ensures SameRegister(o, RegOperandOf(TABLE, EncodeReg(o, d).value, d), d) <==> KeepsRegister(o, d)
  {
    hide TgprField, TgprOperand, SameRegister, And, AndNot, Or;
    TgprBack(o, d, if d.transform.RegTgprEven? then 0 else 1);
  }

  predicate IsOrdinary(t: Transform) {
    !(t.ShiftedRegImm? || t.ShiftedRegReg? || t.RegList? || t.VecList? || t.RegPostIdx? || t.RegQprFromDreg?
      || t.RegTgprEven? || t.RegTgprOdd?)
  }

  lemma OrdinaryBack(o: Operand, d: Desc)
    requires IsOrdinary(d.transform) && !IsAlias(d) && EncodeReg(o, d).Some?
    ensures SameRegister(o, RegOperandOf(TABLE, EncodeReg(o, d).value, d), d) <==> KeepsRegister(o, d)
  {
    hide RegField, Member, RegId, And;
    PlainRegBack(o, d);
  }

  /** A register operand that the encoder accepts decodes to the same operand exactly when `KeepsRegister` holds. */
  lemma RegRoundTrip(o: Operand, d: Desc)
    requires EncodeReg(o, d).Some? && !IsAlias(d)
    ensures SameRegister(o, RegOperandOf(TABLE, EncodeReg(o, d).value, d), d) <==> KeepsRegister(o, d)
  {
    hide EncodeReg, RegOperandOf, SameRegister, KeepsRegister;
    match d.transform
    case ShiftedRegImm => ShiftedImmBack(o, d);
    case ShiftedRegReg => ShiftedRegBack(o, d);
    case RegList => if IsFloat(d.regClass) { FloatListBack(o, d); } else { CoreListBack(o, d); }
    case VecList(shape) => VecListBack(o, d);
    case RegPostIdx => PostIdxBack(o, d);
    case RegQprFromDreg => QuadBack(o, d);
    case RegTgprEven => TgprFormBack(o, d);
    case RegTgprOdd => TgprFormBack(o, d);
    case _ => OrdinaryBack(o, d);
  }

  /** Register number 0, which names no register, is encoded as R0, and read back as its id 1. */
  lemma ZeroCounterexample(o: Operand, d: Desc)
    requires d.transform.RawUnsignedField? && d.regClass == GPR && d.width == 32
    requires o.kind == OpReg && o.reg == 0 && o.width == 32 && Plain(o) && NoList(o)
    ensures EncodeReg(o, d) == Some(0)
    ensures RegOperandOf(TABLE, EncodeReg(o, d).value, d) == Some(RegOperand(CORE_FIRST, 32))
  {
    NumberZero(o.reg, o.width);
    ZeroBits(d.sourceMask);
    CoreNumbers(0);
    hide PlainEncoding, RegId, And, AndNot;
  }

  lemma NumberZero(reg: nat, width: nat)
    requires reg == 0 && width == 32
    ensures PlainEncoding(reg, width, GPR, 32) == Some(0)
  {
    hide SystemInfo, OddSingle;
  }

  /** S0 is taken for R0 as a shifted register. */
  lemma SingleCounterexample(o: Operand, d: Desc)
    requires d.transform.ShiftedRegImm? && d.width == 32
    requires o.kind == OpReg && o.reg == SINGLE_FIRST && NoShift(o)
    ensures EncodeReg(o, d) == Some(0)
    ensures RegOperandOf(TABLE, EncodeReg(o, d).value, d) == Some(RegOperand(CORE_FIRST, 32))
  {
    hide ShiftedImmField, RegOperandOf;
    NumberOfSingle(o.reg);
    ZeroField(o, d);
    ShiftedZero(ShiftedImmField(o, d).value, d);
  }

  lemma ZeroField(o: Operand, d: Desc)
    requires d.width == 32 && o.kind == OpReg && NoShift(o) && Gpr4(o.reg, 32) == Some(0)
    ensures ShiftedImmField(o, d) == Some(0)
  {
    hide Pack, And, AndNot, Gpr4;
    EmptyFields();
    ZeroBits(d.sourceMask);
  }

  lemma ShiftedZero(v: nat, d: Desc)
    requires d.transform.ShiftedRegImm? && d.width == 32 && v == 0
    ensures RegOperandOf(TABLE, v, d) == Some(RegOperand(CORE_FIRST, 32))
  {
    hide And, RegId, Shifted, Get;
    ZeroBits(d.sourceMask);
    CoreNumbers(v);
    Unshifted(RegOperand(CORE_FIRST, 32));
  }

  lemma Unshifted(o: Operand)
    ensures Shifted(o, 0) == o.(shiftKind := 0, shiftAmount := 0)
  {
    hide Get;
    EmptyFields();
  }

  lemma NumberOfSingle(reg: nat)
    requires reg == SINGLE_FIRST
    ensures Gpr4(reg, 32) == Some(0)
  {
    hide SystemInfo, OddSingle;
  }

  lemma EmptyFields()
    ensures Pack([Field(0, 4, 0), Field(5, 2, 0), Field(7, 5, 0)]) == 0
    ensures Get(0, 5, 2) == 0 && Get(0, 7, 5) == 0
  {
    PackOneMore([], Field(0, 4, 0));
    PackOneMore([Field(0, 4, 0)], Field(5, 2, 0));
    PackOneMore([Field(0, 4, 0), Field(5, 2, 0)], Field(7, 5, 0));
    ShlIsTimes(0, 5);
    ShlIsTimes(0, 7);
    NothingShifted(5);
    NothingShifted(7);
    assert [Field(0, 4, 0)] == [] + [Field(0, 4, 0)];
    assert [Field(0, 4, 0), Field(5, 2, 0)] == [Field(0, 4, 0)] + [Field(5, 2, 0)];
    assert [Field(0, 4, 0), Field(5, 2, 0), Field(7, 5, 0)] == [Field(0, 4, 0), Field(5, 2, 0)] + [Field(7, 5, 0)];
  }

  lemma {:induction false} NothingShifted(k: nat)
    ensures Shr(0, k) == 0
  {
    if k > 0 { NothingShifted(k - 1); }
  }

  lemma ZeroBits(mask: u32)
    ensures AndNot(0, mask) == 0 && And(0, mask) == 0 && And(0, 0x0f) == 0
  {
  }

  // ---- registers that repeat other operands

  /** `arm_bf_fixed_reg_matches`. */
  predicate IsFixed(o: Operand, reg: nat) {
    o.kind == OpReg && o.reg == reg && Plain(o) && NoAddress(o) && NoList(o)
  }

  /** `reg + delta`, which wraps around the double registers. */
  function Following(base: nat, d: Desc): nat {
    var reg := (base + d.sourceMask) % U32;
    if d.regClass == DPR && d.width == 64 then And(reg, 31) else reg
  }

  /** `arm_bf_derived_reg_matches`: both branches of its test for a vector list refuse one. */
  predicate IsDerived(o: Operand, base: Operand, d: Desc) {
    var reg, first := PlainReg(o, d.regClass, d.width), PlainReg(base, d.regClass, d.width);
    reg.Some? && first.Some? && reg.value == Following(first.value, d)
  }

  predicate IsMemBase(o: Operand, base: Operand, d: Desc) {
    var reg, first := Gpr4(o.reg, OrWord(d.width)), Gpr4(base.mem.base, 32);
    && o.kind == OpReg && base.kind == OpMem && NoShift(o) && NoAddress(o) && NoList(o)
    && reg.Some? && first.Some? && reg.value == first.value
  }

  /** The register cases of `arm_bf_operand_alias_matches`. */
  predicate Repeats(operands: seq<Operand>, d: Desc) {
    && d.operandIndex < |operands|
    && var o := operands[d.operandIndex];
       match d.transform
       case RegMemBaseAlias => d.aliasBase < |operands| && IsMemBase(o, operands[d.aliasBase], d)
       case RegDerived => d.aliasBase < |operands| && IsDerived(o, operands[d.aliasBase], d)
       case RegFixedSp => IsFixed(o, REG_SP)
       case RegFixedLr => IsFixed(o, REG_LR)
       case _ => IsFixed(o, d.sourceMask)
  }

  predicate FollowsOperand(d: Desc) {
    d.transform.RegMemBaseAlias? || d.transform.RegDerived?
  }

  /** The repeated operands that come back. */
  predicate KeepsAlias(o: Operand, d: Desc) {
    && NoFlags(o)
    && OpenOr(o.width, DecodedWidth(d))
    && (d.transform.RegMemBaseAlias? ==> IsCore(o.reg) && !o.extendedReg)
    && (d.transform.RegDerived? ==> Member(o.reg, d.regClass, d.width))
  }

  /** What the decoder has made of the operand that a derived register follows, or whose base it repeats. */
  predicate BaseDecoded(base: Operand, slot: Operand, d: Desc) {
    && (d.transform.RegMemBaseAlias? ==> slot.kind == OpMem && slot.mem.base == base.mem.base && IsCore(base.mem.base))
    && (d.transform.RegDerived? ==>
          slot.kind == OpReg && slot.reg == base.reg && slot.width == d.width && Plain(slot) && !slot.registerList)
  }

  lemma MemBaseBack(o: Operand, base: Operand, slots: Slots, d: Desc)
    requires d.transform.RegMemBaseAlias? && d.aliasBase < MAX_OPERANDS && IsMemBase(o, base, d)
    requires BaseDecoded(base, slots[d.aliasBase], d)
    ensures SameRegister(o, AliasOperand(TABLE, slots, d), d) <==> KeepsAlias(o, d)
  {
    hide Gpr4;
    BaseRepeated(o.reg, OrWord(d.width), base.mem.base);
  }

  lemma DerivedBack(o: Operand, base: Operand, slots: Slots, d: Desc)
    requires d.transform.RegDerived? && d.aliasBase < MAX_OPERANDS && IsDerived(o, base, d)
    requires BaseDecoded(base, slots[d.aliasBase], d)
    ensures SameRegister(o, AliasOperand(TABLE, slots, d), d) <==> KeepsAlias(o, d)
  {
    hide PlainEncoding, RegId, And, Member;
    SlotEncoding(base.reg, base.width, d.regClass, d.width);
    PlainBack(o.reg, o.width, d.regClass, d.width);
  }

  /** A register that repeats another operand is rebuilt from that operand exactly when `KeepsAlias` holds. */
  lemma AliasBack(operands: seq<Operand>, slots: Slots, d: Desc)
    requires IsAlias(d) && Repeats(operands, d)
    requires FollowsOperand(d) ==> d.aliasBase < MAX_OPERANDS && BaseDecoded(operands[d.aliasBase], slots[d.aliasBase], d)
    ensures SameRegister(operands[d.operandIndex], AliasOperand(TABLE, slots, d), d) <==> KeepsAlias(operands[d.operandIndex], d)
  {
    hide IsMemBase, IsDerived, BaseDecoded;
    var o := operands[d.operandIndex];
    match d.transform
    case RegMemBaseAlias => MemBaseBack(o, operands[d.aliasBase], slots, d);
    case RegDerived => DerivedBack(o, operands[d.aliasBase], slots, d);
    case _ =>
  }

  /** The decoder's width fits wherever the encoder's did. */
  lemma SlotEncoding(reg: nat, operandWidth: nat, cls: nat, width: nat)
    requires PlainEncoding(reg, operandWidth, cls, width).Some?
    ensures PlainEncoding(reg, width, cls, width) == PlainEncoding(reg, operandWidth, cls, width)
  {
    hide Lookup, InClass;
  }

  lemma BaseRepeated(reg: nat, width: nat, base: nat)
    requires Gpr4(reg, width).Some? && Gpr4(reg, width) == Gpr4(base, 32) && IsCore(base) && width != 0
    ensures reg == base <==> IsCore(reg)
  {
    hide Gpr4;
    if IsCore(reg) { CoreNumberOf(reg, width); }
    CoreNumberOf(base, 32);
  }

  lemma CoreNumberOf(reg: nat, width: nat)
    requires IsCore(reg) && width != 0 && Gpr4(reg, width).Some?
    ensures Gpr4(reg, width) == Some(reg - CORE_FIRST)
  {
    hide SystemInfo, OddSingle;
  }
}
