/** A32 and T32: from an encoded instruction, through memory and the record lookup, to decoded operands. */
module ArmEndToEnd {
  import opened Bits
  import opened Wrappers
  import opened Operands
  import opened ArmDescs
  import opened ArmMemory
  import opened ArmRecords
  import opened ArmRegisterTable
  import opened ArmRegisters
  import opened ArmMasks
  import opened ArmPacking
  import opened Features
  import opened Selection
  import DecodeIndex
  import OperandBits
  import ArmLookup

  // ---- the two passes, operand by operand

  predicate Indexed(descs: seq<Desc>) {
    |descs| <= MAX_OPERANDS && forall k :: 0 <= k < |descs| ==> descs[k].operandIndex == k
  }

  /** The slots after the first pass over `descs[..n]`. */
  predicate FirstSlots(address: u64, values: OperandBits.Values, descs: seq<Desc>, n: nat, slots: Slots)
    requires Indexed(descs) && n <= |descs|
  {
    && (forall k :: 0 <= k < n && !IsAlias(descs[k]) ==> DecodeOperand(TABLE, address, values, descs[k]) == Some(slots[k]))
    && (forall k :: 0 <= k < MAX_OPERANDS && (k >= n || IsAlias(descs[k])) ==> slots[k] == NONE)
  }

  predicate AllDecode(address: u64, values: OperandBits.Values, descs: seq<Desc>, n: nat)
    requires Indexed(descs) && n <= |descs|
  {
    forall k :: 0 <= k < n && !IsAlias(descs[k]) ==> DecodeOperand(TABLE, address, values, descs[k]).Some?
  }

  lemma {:induction false} FirstPassSlots(address: u64, values: OperandBits.Values, descs: seq<Desc>, n: nat)
    requires Indexed(descs) && n <= |descs|
    ensures var first := FirstPass(TABLE, address, values, descs[..n]);
            && (first.Some? <==> AllDecode(address, values, descs, n))
            && (first.Some? ==> FirstSlots(address, values, descs, n, first.value))
  {
    hide DecodeOperand, IsAlias;
    if n > 0 {
      assert descs[..n][..n - 1] == descs[..n - 1];
      FirstPassSlots(address, values, descs, n - 1);
    }
  }

  /** Repeated registers follow operands that are decoded in the first pass. */
  predicate BasesDirect(descs: seq<Desc>) {
    forall k :: 0 <= k < |descs| && FollowsOperand(descs[k]) ==>
      descs[k].aliasBase < |descs| && !IsAlias(descs[descs[k].aliasBase])
  }

  predicate AllRepeat(slots: Slots, descs: seq<Desc>, n: nat)
    requires n <= |descs|
  {
    forall k :: 0 <= k < n && IsAlias(descs[k]) ==> AliasOperand(TABLE, slots, descs[k]).Some?
  }

  /** The slots after the second pass over `descs[..n]`. */
  predicate SecondSlots(slots: Slots, descs: seq<Desc>, n: nat, after: Slots)
    requires Indexed(descs) && n <= |descs|
  {
    && (forall k :: 0 <= k < n && IsAlias(descs[k]) ==> AliasOperand(TABLE, slots, descs[k]) == Some(after[k]))
    && (forall k :: 0 <= k < MAX_OPERANDS && (k >= n || !IsAlias(descs[k])) ==> after[k] == slots[k])
  }

  lemma SameAlias(slots: Slots, after: Slots, descs: seq<Desc>, n: nat)
    requires Indexed(descs) && BasesDirect(descs) && n < |descs| && SecondSlots(slots, descs, n, after)
    ensures IsAlias(descs[n]) ==> AliasOperand(TABLE, after, descs[n]) == AliasOperand(TABLE, slots, descs[n])
  {
    hide DerivedReg;
    if FollowsOperand(descs[n]) {
      assert after[descs[n].aliasBase] == slots[descs[n].aliasBase];
    }
  }

  lemma {:induction false} SecondPassSlots(slots: Slots, descs: seq<Desc>, n: nat)
    requires Indexed(descs) && BasesDirect(descs) && n <= |descs|
    ensures var second := SecondPass(TABLE, slots, descs[..n]);
            && (second.Some? <==> AllRepeat(slots, descs, n))
            && (second.Some? ==> SecondSlots(slots, descs, n, second.value))
  {
    hide AliasOperand, IsAlias, BasesDirect;
    if n > 0 {
      assert descs[..n][..n - 1] == descs[..n - 1];
      SecondPassSlots(slots, descs, n - 1);
      var before := SecondPass(TABLE, slots, descs[..n - 1]);
      if before.Some? { SameAlias(slots, before.value, descs, n - 1); }
    }
  }

  // ---- mirrored records

  /** An operand is carried by pieces, is a literal, or repeats an operand carried by pieces. */
  predicate OperandWired(e: EncodeRecord, k: nat)
    requires k < |e.descs|
  {
    var d := e.descs[k];
    if IsAlias(d) then
      && d.kind.KindReg?
      && (FollowsOperand(d) ==> d.aliasBase < |e.descs| && !IsAlias(e.descs[d.aliasBase]))
      && (d.transform.RegMemBaseAlias? ==> e.descs[d.aliasBase].kind.KindMem?)
      && (d.transform.RegDerived? ==>
            && e.descs[d.aliasBase].kind.KindReg?
            && e.descs[d.aliasBase].transform.RawUnsignedField?
            && e.descs[d.aliasBase].width == d.width)
    else HasPiece(e, k) || (d.kind.KindImm? && d.transform.ImmFixedLiteral?)
  }

  predicate Wired(e: EncodeRecord) {
    Indexed(e.descs) && OperandBits.DistinctDst(e.pieces) && LsbWired(e) && forall k :: 0 <= k < |e.descs| ==> OperandWired(e, k)
  }

  /** Bit 5 of a fixed-point conversion's `64 - fbits`, which is always set. */
  ghost predicate IsConversionTop(e: EncodeRecord, i: nat) {
    forall k :: 0 <= k < |e.pieces| && e.pieces[k].dstBit == i ==>
      && e.pieces[k].operandIndex < |e.descs|
      && e.pieces[k].srcBit == 5
      && e.descs[e.pieces[k].operandIndex].kind.KindImm?
      && e.descs[e.pieces[k].operandIndex].transform.NeonVcvtImm32?
  }

  /** The decode pattern is inside the encode record's value, but for top bits that pieces write. */
  ghost predicate SamePattern(e: EncodeRecord, p: DecodeIndex.Pattern) {
    && AndNot(p.value, p.mask) == 0
    && forall i: nat :: Bit(p.mask, i) ==>
         if OperandBits.IsDst(e.pieces, i) then Bit(p.value, i) && IsConversionTop(e, i) else Bit(p.value, i) == Bit(e.value, i)
  }

  ghost predicate Mirrors(e: EncodeRecord, r: Record) {
    && e.size == r.size && e.descs == r.descs && e.pieces == r.pieces && e.features == r.features
    && SamePattern(e, r.pattern)
    && (e.size == 2 ==> e.value < 0x1_0000 && forall k :: 0 <= k < |e.pieces| ==> e.pieces[k].dstBit < 16)
  }

  /** The record packs the instruction. */
  ghost predicate Encoded(e: EncodeRecord, inst: Inst) {
    ValidInst(inst) && ValidRecord(e) && Wired(e) && CarriesMasks(e) && Packs(e, inst)
  }

  lemma ConversionTop(e: EncodeRecord, inst: Inst, k: nat)
    requires ValidInst(inst) && ValidRecord(e) && Packs(e, inst) && k < |e.pieces|
    requires IsConversionTop(e, e.pieces[k].dstBit)
    ensures Bit(Fields(e, inst)[e.pieces[k].operandIndex], e.pieces[k].srcBit)
  {
    var op := e.pieces[k].operandIndex;
    assert HasPiece(e, op);
    FieldCarried(e, inst, op);
    var imm := inst.operands[op].imm;
    assert Pow2(5) == 0x20;
    hide And, AndNot, Pow2, Bit, AliasMatches;
    TestPow2(64 - imm, 5);
  }

  /** A packed word has the fixed bits of the mirroring decode record. */
  lemma WordMatches(e: EncodeRecord, r: Record, inst: Inst)
    requires Encoded(e, inst) && Mirrors(e, r)
    ensures DecodeIndex.Matches(r.pattern, Word(e, inst))
  {
    hide Bit, And, AndNot, Packs, CarriesMasks, OperandBits.ArmScatter, Fields, FieldValue, OperandWired, LsbWired, IsConversionTop;
    var word, p, fields := Word(e, inst), r.pattern, Fields(e, inst);
    AndBits(word, p.mask);
    forall i: nat ensures Bit(And(word, p.mask), i) == Bit(p.value, i) {
      OperandBits.ValueInMask(p.mask, p.value, i);
      if Bit(p.mask, i) {
        if OperandBits.IsDst(e.pieces, i) {
          var k :| 0 <= k < |e.pieces| && e.pieces[k].dstBit == i;
          OperandBits.ArmScatterBit(e.value, e.pieces, fields, k);
          ConversionTop(e, inst, k);
        } else {
          ScatterKeeps(e.value, e.pieces, fields, i);
        }
      }
    }
    SameBits(And(word, p.mask), p.value);
  }

  // ---- the decoded operands

  predicate KeepsAny(inst: Inst, o: Operand, d: Desc)
    requires IsI64(o.imm)
  {
    if IsAlias(d) then KeepsAlias(o, d) else KeepsOperand(inst.address, o, d)
  }

  /** Every operand of the instruction comes back. */
  predicate KeepsInst(e: EncodeRecord, inst: Inst)
    requires ValidInst(inst) && |inst.operands| == |e.descs|
  {
    forall k :: 0 <= k < |e.descs| ==> KeepsAny(inst, inst.operands[k], e.descs[k])
  }

  predicate SameInst(inst: Inst, descs: seq<Desc>, slots: Slots)
    requires |inst.operands| == |descs| <= MAX_OPERANDS
  {
    forall k :: 0 <= k < |descs| ==> SameOperand(inst.address, inst.operands[k], Some(slots[k]), descs[k])
  }

  predicate TakesPc(inst: Inst, descs: seq<Desc>)
    requires |inst.operands| == |descs|
  {
    exists k :: 0 <= k < |descs| && descs[k].kind.KindReg? && DecodedWidth(descs[k]) == 32 && inst.operands[k].reg == REG_PC
  }

  lemma DirectOperand(e: EncodeRecord, inst: Inst, k: nat)
    requires Encoded(e, inst) && k < |e.descs| && !IsAlias(e.descs[k])
    ensures SameOperand(inst.address, inst.operands[k], DecodeOperand(TABLE, inst.address, Fields(e, inst), e.descs[k]), e.descs[k])
            <==> KeepsOperand(inst.address, inst.operands[k], e.descs[k])
  {
    assert OperandWired(e, k);
    if HasPiece(e, k) {
      hide CarriesMasks, DecodeOperand, SameOperand, KeepsOperand, Fields, AliasMatches, OperandWired, IsAlias, Field, LsbWired;
      FieldsCovered(e, inst);
      PackedOperand(e, inst, k);
      PackedReadsBack(e, inst);
    } else {
      hide And, Fields, Field;
      assert AliasMatches(inst, e.descs[k]);
    }
  }

  lemma NoQuad(reg: nat)
    requires Gpr4(reg, 32).Some?
    ensures !IsQuad(reg) && reg != 0
  {
    hide SystemInfo, OddSingle;
  }

  lemma BaseIsRead(e: EncodeRecord, inst: Inst, slots: Slots, k: nat)
    requires Encoded(e, inst) && k < |e.descs| && FollowsOperand(e.descs[k])
    requires var b := e.descs[k].aliasBase;
             && b < |e.descs|
             && SameOperand(inst.address, inst.operands[b], Some(slots[b]), e.descs[b])
             && KeepsOperand(inst.address, inst.operands[b], e.descs[b])
    ensures var b := e.descs[k].aliasBase; BaseDecoded(inst.operands[b], slots[b], e.descs[k])
  {
    var d := e.descs[k];
    var o, base := inst.operands[k], inst.operands[d.aliasBase];
    assert OperandWired(e, k);
    assert AliasMatches(inst, d);
    hide Fields, Field, CarriesMasks, PlainEncoding, Gpr4, And, KeepsAddress, LsbWired, OperandWired;
    if d.transform.RegMemBaseAlias? { NoQuad(base.mem.base); }
  }

  lemma RepeatedOperand(e: EncodeRecord, inst: Inst, slots: Slots, k: nat)
    requires Encoded(e, inst) && k < |e.descs| && IsAlias(e.descs[k])
    requires FollowsOperand(e.descs[k]) ==>
               var b := e.descs[k].aliasBase;
               && b < |e.descs|
               && SameOperand(inst.address, inst.operands[b], Some(slots[b]), e.descs[b])
               && KeepsOperand(inst.address, inst.operands[b], e.descs[b])
    ensures SameOperand(inst.address, inst.operands[k], AliasOperand(TABLE, slots, e.descs[k]), e.descs[k])
            <==> KeepsAlias(inst.operands[k], e.descs[k])
  {
    var d := e.descs[k];
    assert OperandWired(e, k);
    assert AliasMatches(inst, d);
    hide Fields, Field, CarriesMasks, Repeats, BaseDecoded, AliasOperand, SameRegister, KeepsAlias, KeepsOperand, OperandWired, LsbWired;
    if FollowsOperand(d) { BaseIsRead(e, inst, slots, k); }
    AliasBack(inst.operands, slots, d);
  }

  /** The slots after both passes over the encoded fields. */
  ghost predicate BothPasses(e: EncodeRecord, inst: Inst, first: Slots, slots: Slots)
    requires Encoded(e, inst)
  {
    && FirstSlots(inst.address, Fields(e, inst), e.descs, |e.descs|, first)
    && SecondSlots(first, e.descs, |e.descs|, slots)
  }

  lemma SlotsMeaning(e: EncodeRecord, inst: Inst, first: Slots, slots: Slots)
    requires Encoded(e, inst) && BothPasses(e, inst, first, slots)
    ensures SameInst(inst, e.descs, slots) <==> KeepsInst(e, inst)
  {
    hide Fields, Field, AliasMatches, CarriesMasks, LsbWired, OperandWired, DecodeOperand, AliasOperand, SameOperand,
         KeepsOperand, KeepsAlias, IsAlias;
    forall k | 0 <= k < |e.descs| && !IsAlias(e.descs[k])
      ensures SameOperand(inst.address, inst.operands[k], Some(slots[k]), e.descs[k])
              <==> KeepsAny(inst, inst.operands[k], e.descs[k])
      ensures slots[k] == first[k]
    {
      DirectOperand(e, inst, k);
    }
    if SameInst(inst, e.descs, slots) || KeepsInst(e, inst) {
      forall k | 0 <= k < |e.descs| && IsAlias(e.descs[k])
        ensures SameOperand(inst.address, inst.operands[k], Some(slots[k]), e.descs[k])
                <==> KeepsAny(inst, inst.operands[k], e.descs[k])
      {
        BaseKept(e, inst, first, slots, k);
        RepeatedOperand(e, inst, first, k);
      }
    }
  }

  /** If the instruction is the same or kept, so is the operand that a repeated register follows. */
  lemma BaseKept(e: EncodeRecord, inst: Inst, first: Slots, slots: Slots, k: nat)
    requires Encoded(e, inst) && BothPasses(e, inst, first, slots) && k < |e.descs|
    requires SameInst(inst, e.descs, slots) || KeepsInst(e, inst)
    ensures FollowsOperand(e.descs[k]) ==>
              var b := e.descs[k].aliasBase;
              && b < |e.descs|
              && SameOperand(inst.address, inst.operands[b], Some(first[b]), e.descs[b])
              && KeepsOperand(inst.address, inst.operands[b], e.descs[b])
  {
    hide Fields, Field, AliasMatches, DecodeOperand, AliasOperand, SameOperand, KeepsOperand, KeepsAlias, CarriesMasks,
         LsbWired;
    assert OperandWired(e, k);
    if FollowsOperand(e.descs[k]) {
      var b := e.descs[k].aliasBase;
      DirectOperand(e, inst, b);
      assert KeepsAny(inst, inst.operands[b], e.descs[b]) || SameOperand(inst.address, inst.operands[b], Some(slots[b]), e.descs[b]);
    }
  }

  /** Everything decodes when every operand is kept. */
  lemma KeptDecodes(e: EncodeRecord, inst: Inst)
    requires Encoded(e, inst) && KeepsInst(e, inst)
    ensures AllDecode(inst.address, Fields(e, inst), e.descs, |e.descs|)
  {
    hide Fields, Field, AliasMatches, CarriesMasks, LsbWired, OperandWired, DecodeOperand, KeepsOperand, SameOperand,
         KeepsAlias, IsAlias;
    forall k | 0 <= k < |e.descs| && !IsAlias(e.descs[k])
      ensures DecodeOperand(TABLE, inst.address, Fields(e, inst), e.descs[k]).Some?
    {
      DirectOperand(e, inst, k);
      assert KeepsAny(inst, inst.operands[k], e.descs[k]);
      SameIsSome(inst.address, inst.operands[k], DecodeOperand(TABLE, inst.address, Fields(e, inst), e.descs[k]), e.descs[k]);
    }
  }

  lemma SameIsSome(address: u64, o: Operand, back: Option<Operand>, d: Desc)
    requires SameOperand(address, o, back, d)
    ensures back.Some?
  {
  }

  /** Everything repeats when every operand is kept. */
  lemma KeptRepeats(e: EncodeRecord, inst: Inst, first: Slots)
    requires Encoded(e, inst) && KeepsInst(e, inst) && FirstSlots(inst.address, Fields(e, inst), e.descs, |e.descs|, first)
    ensures AllRepeat(first, e.descs, |e.descs|)
  {
    hide Fields, Field, AliasMatches, CarriesMasks, LsbWired, OperandWired, DecodeOperand, AliasOperand, SameOperand,
         KeepsOperand, KeepsAlias, IsAlias;
    forall k | 0 <= k < |e.descs| && IsAlias(e.descs[k]) ensures AliasOperand(TABLE, first, e.descs[k]).Some? {
      KeptBase(e, inst, first, k);
      RepeatedOperand(e, inst, first, k);
      assert KeepsAny(inst, inst.operands[k], e.descs[k]);
      SameIsSome(inst.address, inst.operands[k], AliasOperand(TABLE, first, e.descs[k]), e.descs[k]);
    }
  }

  lemma KeptBase(e: EncodeRecord, inst: Inst, first: Slots, k: nat)
    requires Encoded(e, inst) && KeepsInst(e, inst) && FirstSlots(inst.address, Fields(e, inst), e.descs, |e.descs|, first)
    requires k < |e.descs|
    ensures FollowsOperand(e.descs[k]) ==>
              var b := e.descs[k].aliasBase;
              && b < |e.descs|
              && SameOperand(inst.address, inst.operands[b], Some(first[b]), e.descs[b])
              && KeepsOperand(inst.address, inst.operands[b], e.descs[b])
  {
    hide Fields, Field, AliasMatches, DecodeOperand, SameOperand, KeepsOperand, KeepsAlias, CarriesMasks, LsbWired;
    assert OperandWired(e, k);
    if FollowsOperand(e.descs[k]) {
      var b := e.descs[k].aliasBase;
      DirectOperand(e, inst, b);
      assert KeepsAny(inst, inst.operands[b], e.descs[b]);
    }
  }

  lemma PcSlot(address: u64, o: Operand, slot: Operand, d: Desc)
    requires SameOperand(address, o, Some(slot), d)
    ensures slot.kind == OpReg && slot.width == 32 && slot.reg == REG_PC
            <==> d.kind.KindReg? && DecodedWidth(d) == 32 && o.reg == REG_PC
  {
    hide DecodedWidth;
  }

  lemma PcRefused(r: Record, inst: Inst, slots: Slots)
    requires |inst.operands| == |r.descs| <= MAX_OPERANDS && SameInst(inst, r.descs, slots)
    ensures OperandsValid(r, slots) <==> !(r.refusesPc && TakesPc(inst, r.descs))
  {
    hide SameOperand, DecodedWidth;
    forall k | 0 <= k < |r.descs| {
      PcSlot(inst.address, inst.operands[k], slots[k], r.descs[k]);
    }
  }

  /** The decode record gives the encoded instruction back exactly when every operand is kept and the record
      accepts its registers. */
  lemma EncodedDecodes(e: EncodeRecord, r: Record, inst: Inst)
    requires Encoded(e, inst) && Mirrors(e, r)
    ensures |inst.operands| == |e.descs| <= MAX_OPERANDS
    ensures var back := DecodeOperands(TABLE, r, Word(e, inst), inst.address);
            back.Some? && SameInst(inst, e.descs, back.value)
            <==> KeepsInst(e, inst) && !(r.refusesPc && TakesPc(inst, e.descs))
  {
    hide Fields, Field, AliasMatches, CarriesMasks, LsbWired, OperandWired, SameInst, KeepsInst, IsAlias, Word,
         SamePattern, TakesPc, OperandsValid, FirstPass, SecondPass, OperandBits.ArmGather, FirstSlots, SecondSlots,
         AllDecode, AllRepeat, BasesDirect, OperandBits.InRange, OperandBits.DstInWord;
    FieldsCovered(e, inst);
    PackedReadsBack(e, inst);
    var values, n := Fields(e, inst), |e.descs|;
    assert e.descs[..n] == e.descs;
    DirectBases(e);
    FirstPassSlots(inst.address, values, e.descs, n);
    if KeepsInst(e, inst) { KeptDecodes(e, inst); }
    var first := FirstPass(TABLE, inst.address, values, e.descs);
    if n > 0 && first.Some? {
      SecondPassSlots(first.value, e.descs, n);
      if KeepsInst(e, inst) { KeptRepeats(e, inst, first.value); }
      var second := SecondPass(TABLE, first.value, e.descs);
      if second.Some? {
        SlotsMeaning(e, inst, first.value, second.value);
        if SameInst(inst, e.descs, second.value) { PcRefused(r, inst, second.value); }
      }
    } else if n == 0 {
      NoOperands(e, r, inst);
    }
  }

  lemma DirectBases(e: EncodeRecord)
    requires Wired(e)
    ensures BasesDirect(e.descs)
  {
    forall k | 0 <= k < |e.descs| && FollowsOperand(e.descs[k])
      ensures e.descs[k].aliasBase < |e.descs| && !IsAlias(e.descs[e.descs[k].aliasBase])
    {
      assert OperandWired(e, k);
    }
  }

  lemma NoOperands(e: EncodeRecord, r: Record, inst: Inst)
    requires ValidInst(inst) && |inst.operands| == |e.descs| == 0 && e.descs == r.descs
    ensures SameInst(inst, e.descs, EMPTY_SLOTS) && KeepsInst(e, inst) && !TakesPc(inst, e.descs)
  {
  }

  lemma LoadedBack(e: EncodeRecord, r: Record, inst: Inst)
    requires Encoded(e, inst) && Mirrors(e, r)
    ensures Loaded(e, Stored(e, Word(e, inst))) == Word(e, inst)
  {
    hide Bit, Low, Pow2, Stored, Loaded, Packs, CarriesMasks, OperandBits.ArmScatter, Fields, FieldValue, Wired, SamePattern;
    var word := Word(e, inst);
    StoredBack(e, word);
    if e.size == 2 {
      WordSizes();
      forall i: nat | i >= 16 ensures !Bit(word, i) {
        ScatterKeeps(e.value, e.pieces, Fields(e, inst), i);
        BitAbove(e.value, 16, i);
      }
      BelowPow2(word, 16);
      LowSmall(word, 16);
    }
  }

  /** The mirroring record describes the packed word at every address. */
  lemma MirrorDescribes(t: ArmLookup.Tables, space: nat, e: EncodeRecord, r: Record, inst: Inst)
    requires t.regs == TABLE && Encoded(e, inst) && Mirrors(e, r) && KeepsInst(e, inst)
    requires !(r.refusesPc && TakesPc(inst, e.descs)) && ArmLookup.SpaceMatches(r.space, space)
    ensures ArmLookup.Describes(t, space, r, Word(e, inst))
  {
    hide Encoded, Mirrors, KeepsInst, TakesPc, DecodeOperands, SameInst, SameButTargets, DecodeIndex.Matches, ArmLookup.SpaceMatches, Word;
    WordMatches(e, r, inst);
    EncodedDecodes(e, r, inst);
    InWord(e, r, inst);
    DecodesAnywhere(TABLE, r, Word(e, inst), inst.address, 0);
  }

  lemma InWord(e: EncodeRecord, r: Record, inst: Inst)
    requires Encoded(e, inst) && Mirrors(e, r)
    ensures OperandBits.DstInWord(r.pieces) && ValidInst(inst) && ValidRecord(e)
  {
  }

  /** An instruction encoded by `e`, stored and loaded, is found by the decoder unless a record that a missing
      feature blocks outranks the mirroring record `j`: by `j`, with the instruction it was, or by a record that
      the order prefers. */
  lemma EncodedIsFound(t: ArmLookup.Tables, q: ArmLookup.Query, family: set<nat>, e: EncodeRecord, j: nat, inst: Inst)
    requires ArmLookup.InTable(t, family) && t.regs == TABLE && j in family
    requires Encoded(e, inst) && Mirrors(e, t.records[j]) && KeepsInst(e, inst)
    requires !(t.records[j].refusesPc && TakesPc(inst, e.descs))
    requires q.word == Loaded(e, Stored(e, Word(e, inst)))
    requires ArmLookup.SpaceMatches(t.records[j].space, q.space) && Supports(q.engine, e.features)
    ensures var ranks, found := ArmLookup.Ranks(t.records), ArmLookup.Find(t, q, family);
            && (found.None? ==>
                  q.check && exists b :: b in ArmLookup.Blocked(t, q, family) && Outranks(ranks[b], ranks[j]))
            && (found.Some? ==>
                  && found.value < |t.records|
                  && (found.value == j || Better(ranks, found.value, j)))
            && (found == Some(j) ==>
                  var back := DecodeOperands(TABLE, t.records[j], q.word, inst.address);
                  back.Some? && |inst.operands| == |e.descs| <= MAX_OPERANDS && SameInst(inst, e.descs, back.value))
  {
    hide Encoded, Mirrors, KeepsInst, TakesPc, DecodeOperands, SameInst, ArmLookup.SpaceMatches, ArmLookup.Describes, Word,
         Loaded, Stored, Supports, ArmLookup.Find, OperandBits.DstInWord;
    var r, ranks := t.records[j], ArmLookup.Ranks(t.records);
    LoadedBack(e, r, inst);
    MirrorDescribes(t, q.space, e, r, inst);
    EncodedDecodes(e, r, inst);
    SameFeatures(e, r);
    ArmLookup.UsableIs(q, r);
    assert j in ArmLookup.Described(t, q, family);
    assert j in ArmLookup.Allowed(t, q, family);
    if q.check {
      ArmLookup.CheckedMeaning(t, q, family);
    } else {
      ArmLookup.UncheckedTakesAll(t, q, family);
      ArmLookup.BestOf(t, ArmLookup.Described(t, q, family));
      assert ArmLookup.Unchecked(q) == q;
    }
  }

  lemma SameFeatures(e: EncodeRecord, r: Record)
    requires Mirrors(e, r)
    ensures e.features == r.features && e.descs == r.descs
  {
  }
}
