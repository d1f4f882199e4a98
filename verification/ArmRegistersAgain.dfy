/** ARM register operands the other way round: what the encoder makes of a register that the decoder read. */
module ArmRegistersAgain {
  import opened Bits
  import opened Wrappers
  import opened Operands
  import opened ArmDescs
  import opened ArmMemory
  import opened ArmRecords
  import opened ArmRegisterTable
  import opened ArmRegisters
  import opened PackedFields
  import ArmMemoryAgain
  import ArmTakenBack

  // ---- one register

  /** The number that the decoder looks a register up by. */
  function Number(v: nat, d: Desc): nat {
    var m := And(v, d.sourceMask);
    match d.transform
    case ShiftedRegImm => And(m, 0x0f)
    case ShiftedRegReg => And(m, 0x0f)
    case RegList => And(Shr(v, 8), 0x1f)
    case VecList(_) => if Halved(d) then Shr(m, 1) else m
    case RegPostIdx => And(m, 0x0f)
    case RegQprFromDreg => Shr(m, 1)
    case _ => m
  }

  /** The register found is one of the class; the shortcuts of the lookup do not look at the width. */
  predicate IsListed(v: nat, d: Desc) {
    Member(RegId(Number(v, d), d.width, d.regClass), d.regClass, d.width)
  }

  /** The fields whose operands the encoder takes back. */
  predicate RegTaken(v: nat, d: Desc) {
    match d.transform
    case ShiftedRegImm => true
    case ShiftedRegReg => true
    case RegList => IsFloat(d.regClass) ==> IsListed(v, d) && AndNot(Get(v, 0, 13), d.sourceMask) == 0
    case VecList(shape) => IsListed(v, d) && shape < U32
    case RegPostIdx => d.width == 0 || d.width == 32
    case RegQprFromDreg => IsListed(v, d) && AndNot(Shr(And(v, d.sourceMask), 1), d.sourceMask) == 0
    case RegTgprEven => true
    case RegTgprOdd => true
    case _ => IsListed(v, d)
  }

  /** The bits that are given back. */
  predicate RegCounts(d: Desc, i: nat) {
    match d.transform
    case ShiftedRegImm => i < 12 && i != 4
    case ShiftedRegReg => i < 12 && i != 4 && i != 7
    case RegList => IsFloat(d.regClass) ==> i < 13
    case RegPostIdx => i < 5
    case _ => true
  }

  /** What the decoder looks at. */
  function RegSeen(v: nat, d: Desc): nat {
    if d.transform.RegList? && IsFloat(d.regClass) then v else And(v, d.sourceMask)
  }

  ghost predicate IsRegAgain(w: nat, v: nat, d: Desc) {
    forall i: nat :: Bit(w, i) <==> RegCounts(d, i) && Bit(RegSeen(v, d), i)
  }

  /** The encoder takes the decoded register back exactly for the fields that `RegTaken` names. */
  ghost predicate IsRegTaken(v: nat, d: Desc)
    requires RegOperandOf(TABLE, v, d).Some?
  {
    var w := EncodeReg(RegOperandOf(TABLE, v, d).value, d);
    (w.Some? <==> RegTaken(v, d)) && (w.Some? ==> IsRegAgain(w.value, v, d))
  }

  /** A register that was looked up by its number has that number, if it is one of the class. */
  lemma NumberBack(e: nat, width: nat, cls: nat)
    requires RegId(e, width, cls) != 0
    ensures var id := RegId(e, width, cls);
            && ListedEncoding(id, width, cls, width) == (if Member(id, cls, width) then Some(e) else None)
            && ListedEncoding(id, 0, cls, width) == (if Member(id, cls, width) then Some(e) else None)
            && PlainEncoding(id, width, cls, width) == (if Member(id, cls, width) then Some(e) else None)
  {
    hide SystemInfo, OddSingle, FirstHit, InClass;
    var id := RegId(e, width, cls);
    IdHasEncoding(e, width, cls);
    CutNumber(id);
    if Member(id, cls, width) { UniqueEncoding(id, id, cls, width); } else if cls == GPR { GeneralIsMember(e, width, cls); }
  }

  lemma GeneralIsMember(e: nat, width: nat, cls: nat)
    requires RegId(e, width, cls) != 0 && cls == GPR
    ensures Member(RegId(e, width, cls), cls, width)
  {
    hide SystemInfo, OddSingle, FirstHit;
    FirstHitIsHit(0, e, width, cls);
  }

  lemma CoreBack(e: nat)
    requires e < 16
    ensures RegId(e, 32, GPR) == Core(e) && Gpr4(Core(e), 32) == Some(e)
    ensures PlainEncoding(Core(e), 32, GPR, 32) == Some(e) && PlainEncoding(Core(e), 0, GPR, 32) == Some(e)
  {
    hide SystemInfo, OddSingle, FirstHit;
    CoreInfo(Core(e));
  }

  /** A width other than 32 finds no core register. */
  lemma CoreWidth(e: nat, width: nat)
    requires RegId(e, width, GPR) != 0 && width != 0
    ensures width == 32
  {
    GeneralIsMember(e, width, GPR);
    hide SystemInfo, OddSingle, FirstHit;
  }

  // ---- ordinary registers and lists

  lemma SmallMasked(v: nat, mask: u32)
    ensures Masked(And(v, mask), mask) == Some(And(v, mask))
  {
    ArmTakenBack.MaskedTwice(v, mask);
  }

  lemma OrdinaryTaken(v: nat, d: Desc)
    requires IsOrdinary(d.transform) && !IsAlias(d) && RegOperandOf(TABLE, v, d).Some?
    ensures IsRegTaken(v, d)
  {
    hide And, AndNot, Bit, RegId, PlainEncoding, Member, Masked;
    NumberBack(And(v, d.sourceMask), d.width, d.regClass);
    SmallMasked(v, d.sourceMask);
  }

  lemma VecTaken(v: nat, d: Desc)
    requires d.transform.VecList? && RegOperandOf(TABLE, v, d).Some?
    ensures IsRegTaken(v, d)
  {
    hide And, AndNot, Bit, RegId, ListedEncoding, Member, Masked, Shl, Shr;
    var m := And(v, d.sourceMask);
    NumberBack(Number(v, d), d.width, d.regClass);
    SmallMasked(v, d.sourceMask);
    if Halved(d) && And(m, 1) == 0 { EvenAgain(m); }
  }

  lemma EvenAgain(m: nat)
    requires And(m, 1) == 0
    ensures Shl(Shr(m, 1), 1) == m
  {
    hide And;
    LowBit(m);
    assert Shr(m / 2, 0) == m / 2 == Shl(m / 2, 0);
  }

  lemma QuadTaken(v: nat, d: Desc)
    requires d.transform.RegQprFromDreg? && RegOperandOf(TABLE, v, d).Some?
    ensures IsRegTaken(v, d)
  {
    hide And, AndNot, Bit, RegId, PlainEncoding, Member, Shl, Shr;
    var m := And(v, d.sourceMask);
    NumberBack(Shr(m, 1), d.width, d.regClass);
    SmallMasked(v, d.sourceMask);
    EvenAgain(m);
  }

  lemma CoreListTaken(v: nat, d: Desc)
    requires d.transform.RegList? && !IsFloat(d.regClass)
    ensures RegOperandOf(TABLE, v, d).Some? && IsRegTaken(v, d)
  {
    hide And, AndNot, Bit, Masked;
    SmallMasked(v, d.sourceMask);
    AndAtMost(v, d.sourceMask);
  }

  // ---- forms with core registers

  function PostIdxRead(m: nat): seq<Field> {
    [Field(0, 4, And(m, 0x0f)), Field(4, 1, if And(m, 0x10) == 0 then 0 else 1)]
  }

  lemma PostIdxTaken(v: nat, d: Desc)
    requires d.transform.RegPostIdx? && RegOperandOf(TABLE, v, d).Some?
    ensures IsRegTaken(v, d)
  {
    hide And, Bit, RegOperandOf, EncodeReg, PostIdxRead, Pack;
    var m := And(v, d.sourceMask);
    AndAtMost(m, 0x0f);
    PostIdxForm(v, d);
    forall i: nat { PostIdxBits(m, i); }
  }

  lemma PostIdxForm(v: nat, d: Desc)
    requires d.transform.RegPostIdx? && RegOperandOf(TABLE, v, d).Some?
    ensures EncodeReg(RegOperandOf(TABLE, v, d).value, d)
         == if d.width == 0 || d.width == 32 then Some(Pack(PostIdxRead(And(v, d.sourceMask)))) else None
  {
    var m := And(v, d.sourceMask);
    AndAtMost(m, 0x0f);
    hide And, RegId, PlainEncoding, Pack;
    CoreBack(And(m, 0x0f));
    var o := RegOperandOf(TABLE, v, d).value;
    assert PlainReg(o, GPR, 32) == PlainEncoding(Core(And(m, 0x0f)), OrWord(d.width), GPR, 32);
    if OrWord(d.width) != 32 { OtherWidth(And(m, 0x0f), OrWord(d.width)); }
  }

  lemma OtherWidth(e: nat, width: nat)
    requires e < 16 && width != 0 && width != 32
    ensures PlainEncoding(Core(e), width, GPR, 32).None?
  {
    hide SystemInfo, OddSingle;
    CoreInfo(Core(e));
  }

  lemma PostIdxBits(m: nat, i: nat)
    ensures Bit(Pack(PostIdxRead(m)), i) <==> i < 5 && Bit(m, i)
  {
    LowFour();
    hide Bit, And, Pack, Pow2, Ones, Get;
    FirstNibble(m);
    ArmMemoryAgain.OneBit(m, 4);
    TestPow2(m, 4);
    ArmMemoryAgain.TwoSpans(PostIdxRead(m), i);
    ArmMemoryAgain.PackRead(PostIdxRead(m), m, i);
  }

  function ShiftImmRead(m: nat): seq<Field> {
    [Field(0, 4, Get(m, 0, 4)), Field(5, 2, Get(m, 5, 2)), Field(7, 5, Get(m, 7, 5))]
  }

  function ShiftRegRead(m: nat): seq<Field> {
    [Field(0, 4, Get(m, 0, 4)), Field(5, 2, Get(m, 5, 2)), Field(8, 4, Get(m, 8, 4))]
  }

  /** Fields that were read through the mask are packed again to what they span. */
  lemma ReadAgain(fields: seq<Field>, v: nat, d: Desc)
    requires ArmMemoryAgain.AreRead(fields, And(v, d.sourceMask)) && RegSeen(v, d) == And(v, d.sourceMask)
    requires forall i: nat :: ArmMemoryAgain.Spans(fields, i) <==> RegCounts(d, i)
    ensures Masked(Pack(fields), d.sourceMask) == Some(Pack(fields)) && IsRegAgain(Pack(fields), v, d)
  {
    hide And, Bit, Pack, Get, RegCounts, ArmMemoryAgain.Spans, RegSeen, Masked;
    ArmMemoryAgain.ReadFitsMask(fields, v, d.sourceMask);
    forall i: nat { ArmMemoryAgain.PackRead(fields, And(v, d.sourceMask), i); }
  }

  lemma ShiftImmSpans(m: nat, i: nat)
    ensures ArmMemoryAgain.Spans(ShiftImmRead(m), i) <==> i < 12 && i != 4
    ensures ArmMemoryAgain.Spans(ShiftRegRead(m), i) <==> i < 12 && i != 4 && i != 7
  {
    hide Get, ArmMemoryAgain.Spans;
    ArmMemoryAgain.ThreeSpans(ShiftImmRead(m), i);
    ArmMemoryAgain.ThreeSpans(ShiftRegRead(m), i);
  }

  lemma ShiftAreRead(m: nat)
    ensures ArmMemoryAgain.AreRead(ShiftImmRead(m), m) && ArmMemoryAgain.AreRead(ShiftRegRead(m), m)
  {
    hide Get;
  }

  lemma ShiftedImmForm(v: nat, d: Desc)
    requires d.transform.ShiftedRegImm? && RegOperandOf(TABLE, v, d).Some?
    ensures EncodeReg(RegOperandOf(TABLE, v, d).value, d) == Masked(Pack(ShiftImmRead(And(v, d.sourceMask))), d.sourceMask)
  {
    var m := And(v, d.sourceMask);
    Powers();
    GetBelow(m, 5, 2);
    GetBelow(m, 7, 5);
    FirstNibble(m);
    GetFits(m, 0, 4);
    hide And, AndNot, Bit, RegId, Gpr4, Pack, Get, Masked, ShiftFields, Shifted, Pow2;
    CoreWidth(And(m, 0x0f), OrWord(d.width));
    CoreBack(And(m, 0x0f));
    var o := RegOperand(Core(And(m, 0x0f)), 32);
    ArmMemoryAgain.ShiftTaken(o, m);
    ArmMemoryAgain.ShiftedKeeps(o, m);
  }

  lemma ShiftedImmTaken(v: nat, d: Desc)
    requires d.transform.ShiftedRegImm? && RegOperandOf(TABLE, v, d).Some?
    ensures IsRegTaken(v, d)
  {
    hide And, AndNot, Bit, Get, Masked, Pack, EncodeReg, RegOperandOf, ShiftImmRead, IsRegAgain, ArmMemoryAgain.Spans;
    var m := And(v, d.sourceMask);
    ShiftedImmForm(v, d);
    ShiftAreRead(m);
    forall i: nat { ShiftImmSpans(m, i); }
    ReadAgain(ShiftImmRead(m), v, d);
  }

  lemma ShiftedRegForm(v: nat, d: Desc)
    requires d.transform.ShiftedRegReg? && RegOperandOf(TABLE, v, d).Some?
    ensures EncodeReg(RegOperandOf(TABLE, v, d).value, d) == Masked(Pack(ShiftRegRead(And(v, d.sourceMask))), d.sourceMask)
  {
    var m := And(v, d.sourceMask);
    Powers();
    LowFour();
    assert Get(m, 5, 2) == And(Shr(m, 5), 3) && Get(m, 8, 4) == And(Shr(m, 8), 0x0f);
    GetBelow(m, 5, 2);
    FirstNibble(m);
    GetFits(m, 0, 4);
    GetFits(m, 8, 4);
    hide And, AndNot, Bit, RegId, Gpr4, Pack, Get, Masked, Pow2, Shr, Ones;
    CoreWidth(And(m, 0x0f), OrWord(d.width));
    CoreBack(And(m, 0x0f));
    CoreBack(And(Shr(m, 8), 0x0f));
  }

  lemma ShiftedRegTaken(v: nat, d: Desc)
    requires d.transform.ShiftedRegReg? && RegOperandOf(TABLE, v, d).Some?
    ensures IsRegTaken(v, d)
  {
    hide And, AndNot, Bit, Get, Masked, Pack, EncodeReg, RegOperandOf, ShiftRegRead, IsRegAgain, ArmMemoryAgain.Spans;
    var m := And(v, d.sourceMask);
    ShiftedRegForm(v, d);
    ShiftAreRead(m);
    forall i: nat { ShiftImmSpans(m, i); }
    ReadAgain(ShiftRegRead(m), v, d);
  }

  lemma TgprTaken(v: nat, d: Desc, odd: nat)
    requires (d.transform.RegTgprEven? && odd == 0) || (d.transform.RegTgprOdd? && odd == 1)
    requires RegOperandOf(TABLE, v, d).Some?
    ensures IsRegTaken(v, d)
  {
    hide And, Or, Bit, RegId, PlainEncoding;
    var m := And(v, d.sourceMask);
    TgprCut(v, d.sourceMask, odd);
    CoreBack(if And(d.sourceMask, 1) == 0 then Or(m, odd) else m);
  }

  /** The low bit that was put in is cut off again. */
  lemma TgprCut(v: nat, mask: u32, odd: nat)
    requires odd < 2
    ensures var m := And(v, mask);
            And(if And(mask, 1) == 0 then Or(m, odd) else m, mask) == m
  {
    LowFour();
    hide Bit, And, Or;
    var m := And(v, mask);
    AndBits(v, mask);
    AndBits(m, mask);
    OrBits(m, odd);
    AndBits(Or(m, odd), mask);
    LowBit(mask);
    BitsZero();
    forall i: nat { ArmMemoryAgain.BitOfOne(i); }
    SameBits(And(m, mask), m);
    if And(mask, 1) == 0 { SameBits(And(Or(m, odd), mask), m); }
  }

  // ---- lists of floating-point registers

  function ListRead(v: nat): seq<Field> {
    [Field(0, 8, Get(v, 0, 8)), Field(8, 5, Get(v, 8, 5))]
  }

  lemma ListReads(v: nat)
    ensures Get(v, 0, 8) == And(v, 0xff) && Get(v, 8, 5) == And(Shr(v, 8), 0x1f)
  {
    LowFour();
    ShrNothing(v);
  }

  lemma ListPacked(v: nat)
    ensures Pack(ListRead(v)) == Get(v, 0, 13)
  {
    hide Bit, Pack, Get;
    forall i: nat ensures Bit(Pack(ListRead(v)), i) == Bit(Get(v, 0, 13), i) {
      ArmMemoryAgain.TwoSpans(ListRead(v), i);
      ArmMemoryAgain.PackRead(ListRead(v), v, i);
      BitOfGet(v, 0, 13, i);
    }
    SameBits(Pack(ListRead(v)), Get(v, 0, 13));
  }

  /** A count that was read is stated, and counts again. */
  lemma CountRead(count: nat)
    requires 0 < count <= 32
    ensures ListCount(Or(count, 0x100)) == count
  {
    CountShape(count);
    StatedCount(count + 0x100);
    hide ListCount, Or;
  }

  /** A decoded list: its first register and how many there are. */
  function FloatList(id: nat, width: nat, count: nat): Operand {
    RegOperand(id, width).(vectorList := true, imm := Or(count, 0x100))
  }

  function CountOf(low: nat, d: Desc): nat {
    if d.regClass == DPR then Shr(low, 1) else low
  }

  lemma FloatListDecoded(v: nat, d: Desc)
    requires d.transform.RegList? && IsFloat(d.regClass) && RegOperandOf(TABLE, v, d).Some?
    ensures var start, low := And(Shr(v, 8), 0x1f), And(v, 0xff);
            var count := CountOf(low, d);
            && RegId(start, d.width, d.regClass) != 0
            && RegOperandOf(TABLE, v, d) == Some(FloatList(RegId(start, d.width, d.regClass), d.width, count))
            && 0 < count <= 32 && start + count <= 32
            && (d.regClass == DPR ==> And(low, 1) == 0)
  {
    hide And, Or, Shr, RegId;
  }

  lemma FloatListEncoded(id: nat, count: nat, first: Option<nat>, d: Desc)
    requires d.transform.RegList? && IsFloat(d.regClass) && 0 < count <= 32
    requires ListedEncoding(id, 0, d.regClass, d.width) == first && (first.Some? ==> first.value + count <= 32)
    ensures EncodeReg(FloatList(id, d.width, count), d)
         == if first.None? then None
            else Masked(Pack([Field(0, 8, if d.regClass == DPR then 2 * count else count), Field(8, 5, first.value)]), d.sourceMask)
  {
    CountRead(count);
    hide Or, ListedEncoding, Masked, Pack, ListCount;
  }

  lemma FloatListForm(v: nat, d: Desc)
    requires d.transform.RegList? && IsFloat(d.regClass) && RegOperandOf(TABLE, v, d).Some?
    ensures EncodeReg(RegOperandOf(TABLE, v, d).value, d)
         == if IsListed(v, d) then Masked(Pack(ListRead(v)), d.sourceMask) else None
  {
    hide *;
    var start, low := And(Shr(v, 8), 0x1f), And(v, 0xff);
    FloatListDecoded(v, d);
    NumberBack(start, d.width, d.regClass);
    ListIsListed(v, d);
    FloatListEncoded(RegId(start, d.width, d.regClass), CountOf(low, d),
                     ListedEncoding(RegId(start, d.width, d.regClass), 0, d.regClass, d.width), d);
    ListCounted(v, d);
  }

  lemma ListIsListed(v: nat, d: Desc)
    requires d.transform.RegList?
    ensures IsListed(v, d) <==> Member(RegId(And(Shr(v, 8), 0x1f), d.width, d.regClass), d.regClass, d.width)
  {
    hide Member, RegId, And, Shr;
  }

  lemma ListCounted(v: nat, d: Desc)
    requires d.regClass == DPR ==> And(And(v, 0xff), 1) == 0
    ensures var start, count := And(Shr(v, 8), 0x1f), CountOf(And(v, 0xff), d);
            [Field(0, 8, if d.regClass == DPR then 2 * count else count), Field(8, 5, start)] == ListRead(v)
  {
    hide And, Shl, Shr, Get;
    ListReads(v);
    if d.regClass == DPR { EvenAgain(And(v, 0xff)); }
    DoubledCount(And(v, 0xff));
  }

  lemma DoubledCount(low: nat)
    ensures Shl(Shr(low, 1), 1) == 2 * Shr(low, 1)
  {
    ShlIsTimes(Shr(low, 1), 1);
    LowFour();
  }

  lemma FloatListTaken(v: nat, d: Desc)
    requires d.transform.RegList? && IsFloat(d.regClass) && RegOperandOf(TABLE, v, d).Some?
    ensures IsRegTaken(v, d)
  {
    hide AndNot, Get, RegOperandOf, EncodeReg, ListRead, Pack, IsListed, RegSeen, RegCounts, IsRegAgain;
    FloatListForm(v, d);
    ListPacked(v);
    FloatListCounts(v, d);
    Thirteen(v, d);
  }

  lemma Thirteen(v: nat, d: Desc)
    requires RegSeen(v, d) == v && forall i: nat :: RegCounts(d, i) <==> i < 13
    ensures IsRegAgain(Get(v, 0, 13), v, d)
  {
    hide Bit, Get, RegSeen, RegCounts;
    forall i: nat { BitOfGet(v, 0, 13, i); }
  }

  lemma FloatListCounts(v: nat, d: Desc)
    requires d.transform.RegList? && IsFloat(d.regClass)
    ensures RegSeen(v, d) == v && forall i: nat :: RegCounts(d, i) <==> i < 13
  {
  }

  // ---- every form

  /** A register operand that the decoder read is taken back by the encoder exactly for the fields that `RegTaken` names,
      and is given the bits of the field that count. */
  lemma DecodedRegister(v: nat, d: Desc)
    requires !IsAlias(d) && RegOperandOf(TABLE, v, d).Some?
    ensures IsRegTaken(v, d)
  {
    hide RegOperandOf, IsRegTaken, And;
    match d.transform
    case ShiftedRegImm => ShiftedImmTaken(v, d);
    case ShiftedRegReg => ShiftedRegTaken(v, d);
    case RegList => if IsFloat(d.regClass) { FloatListTaken(v, d); } else { CoreListTaken(v, d); }
    case VecList(_) => VecTaken(v, d);
    case RegPostIdx => PostIdxTaken(v, d);
    case RegQprFromDreg => QuadTaken(v, d);
    case RegTgprEven => TgprTaken(v, d, 0);
    case RegTgprOdd => TgprTaken(v, d, 1);
    case _ => OrdinaryTaken(v, d);
  }

  /** Then the field itself comes back exactly when it has no other bits. */
  lemma RegisterFieldBack(v: nat, d: Desc)
    requires !IsAlias(d) && RegOperandOf(TABLE, v, d).Some?
    ensures EncodeReg(RegOperandOf(TABLE, v, d).value, d) == Some(v)
            <==> RegTaken(v, d) && RegSeen(v, d) == v && forall i: nat :: Bit(v, i) ==> RegCounts(d, i)
  {
    DecodedRegister(v, d);
    hide RegOperandOf, EncodeReg, RegTaken, RegCounts, RegSeen, Bit;
    var w := EncodeReg(RegOperandOf(TABLE, v, d).value, d);
    if w.Some? {
      if RegSeen(v, d) == v && forall i: nat :: Bit(v, i) ==> RegCounts(d, i) { SameBits(w.value, v); }
      if w.value == v { SeenIsAll(v, d); }
    }
  }

  lemma SeenIsAll(v: nat, d: Desc)
    requires IsRegAgain(v, v, d)
    ensures RegSeen(v, d) == v
  {
    hide Bit, And;
    AndBits(v, d.sourceMask);
    SameBits(RegSeen(v, d), v);
  }

  /** The immediate of a register operand is the shape of a list. */
  lemma RegImm(v: nat, d: Desc)
    requires RegOperandOf(TABLE, v, d).Some? && (d.transform.VecList? ==> d.transform.shape < U32)
    ensures 0 <= RegOperandOf(TABLE, v, d).value.imm < U32
  {
    if d.transform.RegList? && IsFloat(d.regClass) {
      hide RegOperandOf, And, Shr, RegId;
      FloatListDecoded(v, d);
      CountShape(CountOf(And(v, 0xff), d));
    } else {
      hide And, Or, Shr, RegId, Shifted;
      forall o: Operand, value: nat ensures Shifted(o, value).imm == o.imm { ArmMemoryAgain.ShiftedImm(o, value); }
    }
  }

  lemma OpenPlain(reg: nat, operandWidth: nat, cls: nat, width: nat)
    ensures PlainEncoding(reg, operandWidth, cls, width).Some? ==>
              PlainEncoding(reg, 0, cls, width) == PlainEncoding(reg, operandWidth, cls, width)
    ensures ListedEncoding(reg, operandWidth, cls, width).Some? ==>
              ListedEncoding(reg, 0, cls, width) == ListedEncoding(reg, operandWidth, cls, width)
  {
    hide InfoOf;
  }

  /** A register operand that is accepted with its width is accepted, and encoded alike, when it leaves the width open. */
  lemma OpenWidth(o: Operand, d: Desc)
    requires EncodeReg(o, d).Some?
    ensures EncodeReg(o.(width := 0), d) == EncodeReg(o, d)
  {
    hide PlainEncoding, ListedEncoding, Gpr4, Pack, Masked, ShiftFields;
    OpenPlain(o.reg, o.width, d.regClass, d.width);
    OpenPlain(o.reg, o.width, GPR, 32);
  }
}
