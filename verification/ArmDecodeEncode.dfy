/** A32 and T32: a word that the decoder reads is encoded again to the same word. */
module ArmDecodeEncode {
  import opened Bits
  import opened Wrappers
  import opened Operands
  import opened ArmDescs
  import opened ArmImmediates
  import opened ArmPcRel
  import opened ArmMemory
  import opened ArmMemoryAgain
  import opened ArmTakenBack
  import opened ArmRecords
  import opened ArmRegisterTable
  import opened ArmRegisters
  import opened ArmRegistersAgain
  import opened ArmMasks
  import opened ArmPacking
  import opened ArmEndToEnd
  import opened Features
  import opened PcRelative
  import OperandBits

  /** The decoded operands as an instruction for the encoder. */
  function InstOf(e: EncodeRecord, address: u64, slots: Slots): Inst
    requires |e.descs| <= MAX_OPERANDS
  {
    Inst(e.id, e.mnemonic, address, slots[..|e.descs|])
  }

  /** List shapes are 32-bit numbers. */
  predicate ShapesFit(descs: seq<Desc>) {
    forall k :: 0 <= k < |descs| && descs[k].transform.VecList? ==> descs[k].transform.shape < U32
  }

  /** The word has the encode record's bits wherever no piece writes; the decode pattern need not fix them all. */
  ghost predicate FixesRest(e: EncodeRecord, word: u32) {
    forall i: nat :: !OperandBits.IsDst(e.pieces, i) ==> Bit(word, i) == Bit(e.value, i)
  }

  /** The decode record that mirrors `e` reads `slots` from the word. */
  ghost predicate IsRead(e: EncodeRecord, r: Record, word: u32, address: u64, slots: Slots) {
    && ValidRecord(e) && Wired(e) && CarriesMasks(e) && Mirrors(e, r) && ShapesFit(e.descs)
    && (forall k :: 0 <= k < |e.descs| && IsAlias(e.descs[k]) ==> !HasPiece(e, k))
    && DecodeOperands(TABLE, r, word, address) == Some(slots)
  }

  // ---- the operands have their C types

  lemma ImmIsSmall(v: nat, lsb: Option<nat>, d: Desc)
    requires DecodeImm(v, lsb, d).Some?
    ensures -0x1_0000_0000_0000 <= DecodeImm(v, lsb, d).value <= 0x1_0000_0000_0000
  {
    AndAtMost(v, d.sourceMask);
    if IsImmediate(d.transform) {
      hide ImmValue, And;
      if d.transform.BfInvMaskWidth? {
        ShrAtMost(And(v, d.sourceMask), 5);
      } else {
        hide IsImmTaken;
        ValueTaken(v, 0, d);
        TakenIsSmall(v, ImmValue(v, d), d);
      }
    } else {
      hide And;
    }
  }

  lemma TakenIsSmall(v: nat, imm: int, d: Desc)
    requires IsImmTaken(v, imm, 0, d)
    ensures -0x1_0000_0000_0000 <= imm <= 0x1_0000_0000_0000
  {
  }

  lemma PcRelImm(address: u64, v: nat, d: Desc)
    requires DecodePcRel(address, v, d).Some?
    ensures IsI64(DecodePcRel(address, v, d).value.imm)
  {
    hide FieldDisp, Base, Wrap;
    DispRange(v, d);
  }

  lemma OperandImm(address: u64, values: OperandBits.Values, d: Desc)
    requires d.operandIndex < MAX_OPERANDS && DecodeOperand(TABLE, address, values, d).Some?
    requires d.transform.VecList? ==> d.transform.shape < U32
    ensures IsI64(DecodeOperand(TABLE, address, values, d).value.imm)
  {
    hide RegOperandOf, DecodeImm, DecodeMem, DecodePcRel;
    var v := values[d.operandIndex];
    match d.kind
    case KindReg => RegImm(v, d);
    case KindImm => ImmIsSmall(v, LsbField(values, d), d);
    case KindMem => MemImm(v, d);
    case KindPcRel => PcRelImm(address, v, d);
  }

  lemma AliasImm(slots: Slots, d: Desc)
    requires AliasOperand(TABLE, slots, d).Some?
    ensures AliasOperand(TABLE, slots, d).value.imm == 0
  {
    hide RegId, PlainEncoding, And;
  }

  // ---- what was read

  /** The operand values that the decoder gathers. */
  function ValuesOf(e: EncodeRecord, word: u32): OperandBits.Values
    requires ValidRecord(e)
  {
    var g := OperandBits.ArmGather(e.pieces, word);
    if g.Some? then g.value.values else OperandBits.ZERO_VALUES
  }

  /** Each slot is what its operand value, or the operand that it repeats, reads as. */
  ghost predicate SlotsRead(e: EncodeRecord, values: OperandBits.Values, address: u64, first: Slots, slots: Slots)
    requires |e.descs| <= MAX_OPERANDS && ArmEndToEnd.Indexed(e.descs)
  {
    FirstSlots(address, values, e.descs, |e.descs|, first) && SecondSlots(first, e.descs, |e.descs|, slots)
  }

  lemma ReadSlots(e: EncodeRecord, r: Record, word: u32, address: u64, slots: Slots) returns (first: Slots)
    requires IsRead(e, r, word, address, slots)
    ensures SlotsRead(e, ValuesOf(e, word), address, first, slots)
    ensures e.descs != [] ==> OperandBits.ArmGather(e.pieces, word).Some?
  {
    hide CarriesMasks, LsbWired, OperandWired, SamePattern, FirstPass, SecondPass, OperandsValid, OperandBits.ArmGather, FirstSlots,
         SecondSlots, AllDecode, AllRepeat, BasesDirect, ShapesFit, HasPiece, IsAlias;
    var values, n := ValuesOf(e, word), |e.descs|;
    assert e.descs[..n] == e.descs;
    DirectBases(e);
    FirstPassSlots(address, values, e.descs, n);
    if n > 0 {
      first := FirstPass(TABLE, address, values, e.descs).value;
      SecondPassSlots(first, e.descs, n);
    } else {
      first := EMPTY_SLOTS;
      NoSlots(e, values, address);
    }
  }

  lemma NoSlots(e: EncodeRecord, values: OperandBits.Values, address: u64)
    requires e.descs == []
    ensures ArmEndToEnd.Indexed(e.descs) && SlotsRead(e, values, address, EMPTY_SLOTS, EMPTY_SLOTS)
  {
  }

  lemma SlotImm(e: EncodeRecord, values: OperandBits.Values, address: u64, first: Slots, slots: Slots, k: nat)
    requires ArmEndToEnd.Indexed(e.descs) && SlotsRead(e, values, address, first, slots) && ShapesFit(e.descs) && k < |e.descs|
    ensures IsI64(slots[k].imm)
  {
    hide DecodeOperand, AliasOperand, IsAlias;
    if IsAlias(e.descs[k]) { AliasImm(first, e.descs[k]); } else { OperandImm(address, values, e.descs[k]); }
  }

  /** A decoded instruction has operands that the encoder can be given. */
  lemma ReadIsValid(e: EncodeRecord, r: Record, word: u32, address: u64, slots: Slots)
    requires IsRead(e, r, word, address, slots)
    ensures ValidInst(InstOf(e, address, slots)) && |InstOf(e, address, slots).operands| == |e.descs|
  {
    hide SlotsRead, Mirrors, DecodeOperands, CarriesMasks, LsbWired, OperandWired;
    var first := ReadSlots(e, r, word, address, slots);
    forall k: nat | k < |e.descs| ensures IsI64(slots[k].imm) {
      SlotImm(e, ValuesOf(e, word), address, first, slots, k);
    }
  }

  // ---- encoding again

  /** The encoder gives the operand the value that it was read from. */
  predicate ComesBack(inst: Inst, values: OperandBits.Values, d: Desc)
    requires ValidInst(inst) && d.operandIndex < |inst.operands| <= MAX_OPERANDS
  {
    EncodeOperand(inst, inst.operands[d.operandIndex], d) == Some(values[d.operandIndex])
  }

  /** Every operand that pieces carry comes back, and every repeated one repeats. */
  predicate AllComeBack(e: EncodeRecord, inst: Inst, values: OperandBits.Values)
    requires ValidInst(inst) && ArmEndToEnd.Indexed(e.descs) && |inst.operands| == |e.descs|
  {
    && (forall k :: 0 <= k < |e.descs| && HasPiece(e, k) ==> ComesBack(inst, values, e.descs[k]))
    && (forall k :: 0 <= k < |e.descs| ==> AliasMatches(inst, e.descs[k]))
  }

  /** What no piece carries was read as 0. */
  lemma NotCarried(e: EncodeRecord, word: u32, k: nat)
    requires ValidRecord(e) && k < MAX_OPERANDS && !HasPiece(e, k)
    ensures ValuesOf(e, word)[k] == 0
  {
    hide OperandBits.ArmGather, Bit;
    OperandBits.ArmGatherMeaning(e.pieces, word);
    var v := ValuesOf(e, word)[k];
    forall i: nat ensures !Bit(v, i) {
      BitZero(i);
      assert OperandBits.IsSrc(e.pieces, k, i) ==> HasPiece(e, k);
    }
    NoBitsAtAll(v);
  }

  lemma FieldsAreValues(e: EncodeRecord, inst: Inst, word: u32)
    requires ValidInst(inst) && ValidRecord(e) && ArmEndToEnd.Indexed(e.descs) && |inst.operands| == |e.descs|
    requires AllComeBack(e, inst, ValuesOf(e, word))
    ensures Fields(e, inst) == ValuesOf(e, word)
  {
    hide EncodeOperand, AliasMatches, ValuesOf, HasPiece;
    forall k: nat | k < MAX_OPERANDS ensures Fields(e, inst)[k] == ValuesOf(e, word)[k] {
      if HasPiece(e, k) { PieceOperand(e, k); } else { NotCarried(e, word, k); }
    }
  }

  lemma PieceOperand(e: EncodeRecord, k: nat)
    requires ValidRecord(e) && HasPiece(e, k)
    ensures k < |e.descs|
  {
  }

  /** Scattering what was gathered gives the word. */
  lemma ScatteredAgain(e: EncodeRecord, word: u32)
    requires ValidRecord(e) && FixesRest(e, word) && OperandBits.ArmGather(e.pieces, word).Some?
    ensures OperandBits.ArmScatter(e.value, e.pieces, ValuesOf(e, word)) == word
  {
    hide Bit, OperandBits.ArmGather, OperandBits.ArmScatter;
    var values := ValuesOf(e, word);
    var back := OperandBits.ArmScatter(e.value, e.pieces, values);
    OperandBits.ArmGatherMeaning(e.pieces, word);
    forall i: nat ensures Bit(back, i) == Bit(word, i) {
      OperandBits.ArmScatterAgrees(e.value, e.pieces, values, word, i);
    }
    SameBits(back, word);
  }

  lemma GatherSome(e: EncodeRecord, word: u32)
    requires ValidRecord(e) && e.descs == []
    ensures OperandBits.ArmGather(e.pieces, word).Some?
  {
    if e.pieces != [] {
      var op := e.pieces[0].operandIndex;
      assert false;
    }
  }

  /** A decoded word is encoded by the mirroring record to the same word exactly when every operand comes back and the
      word has the record's bits wherever no piece writes. */
  lemma WordComesBack(e: EncodeRecord, r: Record, word: u32, address: u64, slots: Slots)
    requires IsRead(e, r, word, address, slots)
    ensures ValidInst(InstOf(e, address, slots)) && |InstOf(e, address, slots).operands| == |e.descs|
    ensures var inst := InstOf(e, address, slots);
            Packs(e, inst) && Word(e, inst) == word <==> AllComeBack(e, inst, ValuesOf(e, word)) && FixesRest(e, word)
  {
    hide Mirrors, DecodeOperands, CarriesMasks, LsbWired, OperandWired, SlotsRead, OperandBits.ArmGather, OperandBits.ArmScatter,
         EncodeOperand, AliasMatches, HasPiece, Fields, ValuesOf, AllComeBack, Packs, FixesRest, IsAlias;
    var inst := InstOf(e, address, slots);
    ReadIsValid(e, r, word, address, slots);
    var first := ReadSlots(e, r, word, address, slots);
    if e.descs == [] { GatherSome(e, word); }
    if AllComeBack(e, inst, ValuesOf(e, word)) && FixesRest(e, word) {
      FieldsAreValues(e, inst, word);
      ScatteredAgain(e, word);
      BackPacks(e, inst, word);
    }
    if Packs(e, inst) && Word(e, inst) == word {
      FieldsCovered(e, inst);
      PackedReadsBack(e, inst);
      GatheredIs(e, word);
      PackedComesBack(e, inst, word);
      PackedFixesRest(e, inst);
    }
  }

  lemma PackedFixesRest(e: EncodeRecord, inst: Inst)
    requires ValidInst(inst) && ValidRecord(e)
    ensures FixesRest(e, Word(e, inst))
  {
    hide Bit, Fields, OperandBits.ArmScatter;
    forall i: nat | !OperandBits.IsDst(e.pieces, i) { ScatterKeeps(e.value, e.pieces, Fields(e, inst), i); }
  }

  lemma GatheredIs(e: EncodeRecord, word: u32)
    requires ValidRecord(e) && OperandBits.ArmGather(e.pieces, word).Some?
    ensures ValuesOf(e, word) == OperandBits.ArmGather(e.pieces, word).value.values
  {
  }

  lemma BackPacks(e: EncodeRecord, inst: Inst, word: u32)
    requires ValidInst(inst) && ValidRecord(e) && ArmEndToEnd.Indexed(e.descs) && |inst.operands| == |e.descs|
    requires AllComeBack(e, inst, ValuesOf(e, word))
    ensures Packs(e, inst)
  {
    hide EncodeOperand, AliasMatches, ValuesOf;
    forall k | 0 <= k < |e.pieces| ensures Field(e, inst, e.pieces[k].operandIndex).Some? {
      var op := e.pieces[k].operandIndex;
      assert HasPiece(e, op) && op < |e.descs|;
      assert ComesBack(inst, ValuesOf(e, word), e.descs[op]);
    }
  }

  lemma PackedComesBack(e: EncodeRecord, inst: Inst, word: u32)
    requires ValidInst(inst) && ValidRecord(e) && ArmEndToEnd.Indexed(e.descs) && |inst.operands| == |e.descs|
    requires Packs(e, inst) && Fields(e, inst) == ValuesOf(e, word)
    ensures AllComeBack(e, inst, ValuesOf(e, word))
  {
    hide EncodeOperand, AliasMatches, ValuesOf, HasPiece, Fields;
    forall k: nat | k < |e.descs| && HasPiece(e, k) ensures ComesBack(inst, ValuesOf(e, word), e.descs[k]) {
      FieldCarried(e, inst, k);
    }
  }

  // ---- which operands come back

  /** The number that a bit-field width counts from on the decoder's side. */
  function LsbRead(values: OperandBits.Values, d: Desc): nat {
    if d.aliasBase < MAX_OPERANDS then And(values[d.aliasBase], 0x1f) else 0
  }

  /** The fields whose operands come back, kind by kind. */
  ghost predicate FieldComesBack(inst: Inst, values: OperandBits.Values, d: Desc)
    requires d.operandIndex < MAX_OPERANDS
  {
    var v := values[d.operandIndex];
    match d.kind
    case KindReg => RegTaken(v, d) && RegSeen(v, d) == v && forall i: nat :: Bit(v, i) ==> RegCounts(d, i)
    case KindImm =>
      && IsImmediate(d.transform) && ImmTaken(v, LsbRead(values, d), d) && ImmAgain(v, d) == v
      && (d.transform.BfInvMaskWidth? ==> LsbOperand(inst.operands, d) == Some(LsbRead(values, d)))
    case KindMem => TakenBack(v, d) && IsExact(v, d)
    case KindPcRel =>
      && DecodePcRel(inst.address, v, d).Some?
      && KeepsTarget(inst.address, DecodePcRel(inst.address, v, d).value, d.transform)
      && DispTaken(v, d) && DispFieldAgain(v, d) == v
    case KindOther => false
  }

  lemma OtherImmediates(imm: i64, lsb: Option<int>, d: Desc)
    requires !IsImmediate(d.transform)
    ensures EncodeImm(imm, lsb, d).None?
  {
  }

  lemma ImmComesBack(v: nat, imm: i64, lsb: Option<int>, values: OperandBits.Values, d: Desc)
    requires DecodeImm(v, LsbField(values, d), d) == Some(imm) && v < U32
    ensures EncodeImm(imm, lsb, d) == Some(v)
            <==> && IsImmediate(d.transform) && ImmTaken(v, LsbRead(values, d), d) && ImmAgain(v, d) == v
                 && (d.transform.BfInvMaskWidth? ==> lsb == Some(LsbRead(values, d)))
  {
    if !IsImmediate(d.transform) {
      hide EncodeImm, DecodeImm, ImmTaken, ImmAgain;
      OtherImmediates(imm, lsb, d);
    } else if !d.transform.BfInvMaskWidth? || lsb == Some(LsbRead(values, d)) {
      hide EncodeImm, DecodeImm, ImmTaken, ImmAgain, And;
      DecodedImm(v, LsbField(values, d), lsb, d);
    } else {
      hide ImmTaken, ImmAgain, And, Shr, BitFieldWidth;
      AndBelow(v, d.sourceMask);
      if lsb.Some? { WidthCountsFrom(v, LsbRead(values, d), lsb.value, d); }
      NoLsb(imm, lsb, d);
    }
  }

  lemma AndBelow(v: nat, mask: u32)
    ensures And(v, mask) < U32
  {
    AndAtMost(v, mask);
  }

  lemma NoLsb(imm: i64, lsb: Option<int>, d: Desc)
    requires d.transform.BfInvMaskWidth?
    ensures EncodeImm(imm, lsb, d) == BitFieldWidth(imm, lsb, d.sourceMask)
    ensures lsb.None? ==> EncodeImm(imm, lsb, d).None?
  {
  }

  /** An operand that was decoded from its value is encoded to that value exactly when `FieldComesBack` holds. */
  lemma OperandComesBack(inst: Inst, values: OperandBits.Values, d: Desc, o: Operand)
    requires d.operandIndex < MAX_OPERANDS && values[d.operandIndex] < U32 && !IsAlias(d) && IsI64(o.imm)
    requires DecodeOperand(TABLE, inst.address, values, d) == Some(o)
    ensures EncodeOperand(inst, o, d) == Some(values[d.operandIndex]) <==> FieldComesBack(inst, values, d)
  {
    hide EncodeReg, RegOperandOf, EncodeImm, DecodeImm, EncodeMem, DecodeMem, EncodePcRel, DecodePcRel, RegTaken, RegSeen, RegCounts,
         ImmTaken, ImmAgain, TakenBack, IsExact, KeepsTarget, DispTaken, DispFieldAgain, ValidRegisters, LsbRead, LsbField, LsbOperand,
         IsImmediate, Bit;
    var v := values[d.operandIndex];
    match d.kind
    case KindReg => RegisterFieldBack(v, d);
    case KindImm => ImmComesBack(v, o.imm, LsbOperand(inst.operands, d), values, d);
    case KindMem =>
      MemoryIsValid();
      ExactComesBack(MEMORY, v, d);
    case KindPcRel => TargetFieldBack(inst.address, v, d);
  }

  // ---- which registers repeat

  /** The repeated registers that the encoder takes for what they repeat: a core register of the class's width as the
      base of an address, a derived register if it is one of the class. */
  predicate AliasComesBack(slots: Slots, d: Desc)
    requires d.operandIndex < MAX_OPERANDS
  {
    match d.transform
    case RegMemBaseAlias => d.aliasBase < MAX_OPERANDS && IsCore(slots[d.aliasBase].mem.base) && OrWord(d.width) == 32
    case RegDerived => Member(slots[d.operandIndex].reg, d.regClass, d.width)
    case ImmFixedLiteral => d.kind.KindImm?
    case _ => true
  }

  lemma CoreOnly(reg: nat, width: nat)
    requires IsCore(reg) || IsQuad(reg)
    ensures IsCore(reg) ==> (Gpr4(reg, width).Some? <==> width == 0 || width == 32)
    ensures IsCore(reg) ==> Gpr4(reg, 32) == Some(reg - CORE_FIRST)
    ensures IsQuad(reg) ==> Gpr4(reg, 32).None?
  {
    hide SystemInfo, OddSingle;
  }

  lemma MemBaseRepeats(inst: Inst, slots: Slots, d: Desc)
    requires d.transform.RegMemBaseAlias? && d.operandIndex < |inst.operands| && d.aliasBase < |inst.operands| <= MAX_OPERANDS
    requires inst.operands == slots[..|inst.operands|] && AliasOperand(TABLE, slots, d) == Some(slots[d.operandIndex])
    requires IsCore(slots[d.aliasBase].mem.base) || IsQuad(slots[d.aliasBase].mem.base)
    ensures Repeats(inst.operands, d) <==> AliasComesBack(slots, d)
  {
    hide Gpr4;
    CoreOnly(slots[d.aliasBase].mem.base, 32);
    CoreOnly(slots[d.aliasBase].mem.base, OrWord(d.width));
  }

  predicate IsBareReg(o: Operand, width: nat) {
    o == RegOperand(o.reg, width)
  }

  lemma DerivedRepeats(inst: Inst, slots: Slots, d: Desc)
    requires d.transform.RegDerived? && d.operandIndex < |inst.operands| && d.aliasBase < |inst.operands| <= MAX_OPERANDS
    requires inst.operands == slots[..|inst.operands|] && AliasOperand(TABLE, slots, d) == Some(slots[d.operandIndex])
    requires IsBareReg(slots[d.aliasBase], d.width)
    ensures Repeats(inst.operands, d) <==> AliasComesBack(slots, d)
  {
    hide RegId, PlainEncoding, Member, And;
    var base := slots[d.aliasBase];
    var first := PlainEncoding(base.reg, base.width, d.regClass, d.width);
    assert PlainReg(base, d.regClass, d.width) == first;
    var reg := Following(first.value, d);
    assert slots[d.operandIndex] == RegOperand(RegId(reg, d.width, d.regClass), d.width);
    NumberBack(reg, d.width, d.regClass);
  }

  lemma FixedRepeats(inst: Inst, slots: Slots, d: Desc)
    requires d.transform.RegFixedSp? || d.transform.RegFixedLr? || d.transform.RegFixedLiteral?
    requires d.operandIndex < |inst.operands| <= MAX_OPERANDS && inst.operands == slots[..|inst.operands|]
    requires AliasOperand(TABLE, slots, d) == Some(slots[d.operandIndex])
    ensures Repeats(inst.operands, d)
  {
  }

  lemma LiteralMatches(inst: Inst, values: OperandBits.Values, d: Desc)
    requires d.operandIndex < |inst.operands| <= MAX_OPERANDS && !IsAlias(d)
    requires DecodeOperand(TABLE, inst.address, values, d) == Some(inst.operands[d.operandIndex])
    ensures AliasMatches(inst, d) <==> (d.transform.ImmFixedLiteral? ==> d.kind.KindImm?)
  {
    hide RegId, And, DecodePcRel;
    if d.transform.ImmFixedLiteral? && d.kind.KindReg? { OrdinaryIsReg(values[d.operandIndex], d); }
    if d.transform.ImmFixedLiteral? && d.kind.KindPcRel? { NoDisplacement(inst.address, values[d.operandIndex], d); }
  }

  lemma OrdinaryIsReg(v: nat, d: Desc)
    requires d.transform.ImmFixedLiteral? && RegOperandOf(TABLE, v, d).Some?
    ensures RegOperandOf(TABLE, v, d).value.kind == OpReg
  {
    hide RegId, And;
  }

  lemma NoDisplacement(address: u64, v: nat, d: Desc)
    requires d.transform.ImmFixedLiteral?
    ensures DecodePcRel(address, v, d).None?
  {
    hide And;
  }

  /** The base of an address that was decoded is a core register or a quad register, if it has one. */
  lemma BaseIsProper(address: u64, values: OperandBits.Values, d: Desc)
    requires d.operandIndex < MAX_OPERANDS && d.kind.KindMem? && DecodeOperand(TABLE, address, values, d).Some?
    ensures var base := DecodeOperand(TABLE, address, values, d).value.mem.base; base == 0 || IsCore(base) || IsQuad(base)
  {
    hide DecodeMem;
    DecodedIsProper(values[d.operandIndex], d);
  }

  lemma BaseIsBare(address: u64, values: OperandBits.Values, d: Desc)
    requires d.operandIndex < MAX_OPERANDS && d.kind.KindReg? && d.transform.RawUnsignedField?
    requires DecodeOperand(TABLE, address, values, d).Some?
    ensures IsBareReg(DecodeOperand(TABLE, address, values, d).value, d.width)
  {
    hide RegId, And;
  }

  /** A decoded operand repeats what it is to repeat exactly when `AliasComesBack` holds. */
  lemma AliasAgain(e: EncodeRecord, values: OperandBits.Values, address: u64, first: Slots, slots: Slots, k: nat)
    requires Wired(e) && k < |e.descs| && SlotsRead(e, values, address, first, slots)
    ensures AliasMatches(InstOf(e, address, slots), e.descs[k]) <==> AliasComesBack(slots, e.descs[k])
  {
    hide LsbWired, DecodeOperand, AliasOperand, Repeats, AliasComesBack, HasPiece, IsBareReg;
    var inst, d := InstOf(e, address, slots), e.descs[k];
    assert OperandWired(e, k);
    if !IsAlias(d) {
      LiteralMatches(inst, values, d);
      DirectAlias(slots, d);
    } else if FollowsOperand(d) {
      var b := d.aliasBase;
      SameBase(first, slots, e.descs, k);
      if d.transform.RegMemBaseAlias? {
        BaseIsProper(address, values, e.descs[b]);
        NonzeroBase(first, d);
        MemBaseRepeats(inst, slots, d);
      } else {
        BaseIsBare(address, values, e.descs[b]);
        DerivedRepeats(inst, slots, d);
      }
    } else {
      SameBase(first, slots, e.descs, k);
      FixedRepeats(inst, slots, d);
      DirectAlias(slots, d);
    }
  }

  lemma DirectAlias(slots: Slots, d: Desc)
    requires d.operandIndex < MAX_OPERANDS && !FollowsOperand(d)
    ensures AliasComesBack(slots, d) <==> (d.transform.ImmFixedLiteral? ==> d.kind.KindImm?)
  {
  }

  lemma NonzeroBase(slots: Slots, d: Desc)
    requires d.transform.RegMemBaseAlias? && d.aliasBase < MAX_OPERANDS && AliasOperand(TABLE, slots, d).Some?
    ensures slots[d.aliasBase].mem.base != 0
  {
  }

  /** The second pass leaves what is followed as the first one read it. */
  lemma SameBase(first: Slots, slots: Slots, descs: seq<Desc>, k: nat)
    requires ArmEndToEnd.Indexed(descs) && k < |descs| && IsAlias(descs[k]) && SecondSlots(first, descs, |descs|, slots)
    requires FollowsOperand(descs[k]) ==> descs[k].aliasBase < |descs| && !IsAlias(descs[descs[k].aliasBase])
    ensures AliasOperand(TABLE, slots, descs[k]) == Some(slots[k])
    ensures FollowsOperand(descs[k]) ==> slots[descs[k].aliasBase] == first[descs[k].aliasBase]
  {
    hide DerivedReg;
    if FollowsOperand(descs[k]) {
      assert slots[descs[k].aliasBase] == first[descs[k].aliasBase];
    }
  }

  // ---- the round trip

  lemma ValueIsWord(e: EncodeRecord, word: u32, k: nat)
    requires ValidRecord(e) && k < MAX_OPERANDS
    ensures ValuesOf(e, word)[k] < U32
  {
    hide OperandBits.ArmGather, Bit, Pow2;
    OperandBits.ArmGatherMeaning(e.pieces, word);
    WordSizes();
    var v := ValuesOf(e, word)[k];
    forall i: nat | i >= 32 ensures !Bit(v, i) {
      BitZero(i);
      assert !OperandBits.IsSrc(e.pieces, k, i);
    }
    BelowPow2(v, 32);
  }

  /** Each operand comes back, and each repeated one repeats. */
  ghost predicate EachComesBack(e: EncodeRecord, word: u32, address: u64, slots: Slots)
    requires ValidRecord(e) && Wired(e)
  {
    var inst, values := InstOf(e, address, slots), ValuesOf(e, word);
    forall k :: 0 <= k < |e.descs| ==>
      AliasComesBack(slots, e.descs[k]) && (HasPiece(e, k) ==> FieldComesBack(inst, values, e.descs[k]))
  }

  lemma EachIsAll(e: EncodeRecord, r: Record, word: u32, address: u64, slots: Slots)
    requires IsRead(e, r, word, address, slots)
    ensures ValidInst(InstOf(e, address, slots)) && |InstOf(e, address, slots).operands| == |e.descs|
    ensures AllComeBack(e, InstOf(e, address, slots), ValuesOf(e, word)) <==> EachComesBack(e, word, address, slots)
  {
    hide Mirrors, DecodeOperands, CarriesMasks, LsbWired, OperandWired, SlotsRead, EncodeOperand, AliasMatches, HasPiece, ValuesOf,
         DecodeOperand, FieldComesBack, AliasComesBack, IsAlias;
    ReadIsValid(e, r, word, address, slots);
    var first := ReadSlots(e, r, word, address, slots);
    var inst, values := InstOf(e, address, slots), ValuesOf(e, word);
    forall k: nat | k < |e.descs|
      ensures AliasMatches(inst, e.descs[k]) <==> AliasComesBack(slots, e.descs[k])
      ensures HasPiece(e, k) ==> (ComesBack(inst, values, e.descs[k]) <==> FieldComesBack(inst, values, e.descs[k]))
    {
      AliasAgain(e, values, address, first, slots, k);
      if HasPiece(e, k) {
        ValueIsWord(e, word, k);
        DirectSlot(e, values, address, first, slots, k);
        OperandComesBack(inst, values, e.descs[k], slots[k]);
      }
    }
  }

  lemma DirectSlot(e: EncodeRecord, values: OperandBits.Values, address: u64, first: Slots, slots: Slots, k: nat)
    requires Wired(e) && k < |e.descs| && SlotsRead(e, values, address, first, slots) && !IsAlias(e.descs[k])
    ensures DecodeOperand(TABLE, address, values, e.descs[k]) == Some(slots[k])
  {
    hide DecodeOperand, AliasOperand, OperandWired, LsbWired;
  }

  /** A word that the decoder reads is packed by the mirroring encode record to the same word exactly when each of its
      operands comes back and the word has the record's bits wherever no piece writes. */
  lemma DecodedWordAgain(e: EncodeRecord, r: Record, word: u32, address: u64, slots: Slots)
    requires IsRead(e, r, word, address, slots)
    ensures ValidInst(InstOf(e, address, slots))
    ensures var inst := InstOf(e, address, slots);
            Packs(e, inst) && Word(e, inst) == word <==> EachComesBack(e, word, address, slots) && FixesRest(e, word)
  {
    hide IsRead, Packs, Word, EachComesBack, AllComeBack, FixesRest;
    WordComesBack(e, r, word, address, slots);
    EachIsAll(e, r, word, address, slots);
  }

  /** Such a word is one that the encoder accepts: with the record's features on, its record can be used for it. */
  lemma DecodedIsEncodable(engine: Config, e: EncodeRecord, r: Record, word: u32, address: u64, slots: Slots)
    requires IsRead(e, r, word, address, slots) && EachComesBack(e, word, address, slots) && FixesRest(e, word)
    requires Ids(e.features) <= Enabled(engine) && !e.mode.UnknownMode?
    ensures ValidInst(InstOf(e, address, slots)) && Encodable(engine, e.mode, e, InstOf(e, address, slots))
    ensures Word(e, InstOf(e, address, slots)) == word
  {
    hide IsRead, Packs, Word, EachComesBack, FixesRest, Supports, Ids, Enabled;
    DecodedWordAgain(e, r, word, address, slots);
    SupportsIsInclusion(engine, e.features);
    OperandCount(e, r, word, address, slots);
  }

  lemma OperandCount(e: EncodeRecord, r: Record, word: u32, address: u64, slots: Slots)
    requires IsRead(e, r, word, address, slots)
    ensures |InstOf(e, address, slots).operands| == |e.descs|
  {
    hide Mirrors, DecodeOperands, CarriesMasks, LsbWired, OperandWired;
  }
}
