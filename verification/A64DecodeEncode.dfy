/** AArch64: a word that the decoder reads is encoded again to the same word. */
module A64DecodeEncode {
  import opened Bits
  import opened Wrappers
  import opened Operands
  import opened A64Immediates
  import opened A64Registers
  import opened A64RegistersAgain
  import opened A64PcRel
  import opened A64Records
  import opened A64Packing
  import opened Features
  import opened PcRelative
  import Immediates
  import LogicalImm
  import OperandBits
  import Residues

  // ---- one operand

  /** No smaller field inside the mask means the same logical immediate. */
  ghost predicate IsLeast(v: u32, d: OperandDesc) {
    forall u: u32 :: AndNot(u, d.sourceMask) == 0 && LogicalImm.Decode(u, d.width) == LogicalImm.Decode(v, d.width) ==> v <= u
  }

  /** The fields whose operands are encoded to the same field, kind by kind. */
  ghost predicate FieldComesBack(v: u32, d: OperandDesc) {
    match d.kind
    case KindReg => RegTaken(v, d) && RegAgain(v, d) == v
    case KindImm => IsLiteral(d) || (Reencodes(v, d) && if IsLogical(d.transform) then IsLeast(v, d) else FieldAgain(v, d) == v)
    case KindOpaque => true
    case KindPcRel => d.transform.PcRelWords4? || d.transform.PcRelAdr? || d.transform.PcRelAdrp?
    case KindOther => false
  }

  /** A field value as the decoder gathers it. */
  ghost predicate IsGathered(v: u32, d: OperandDesc) {
    if IsLiteral(d) then v == d.literal else AndNot(v, d.sourceMask) == 0
  }

  lemma ImmBack(v: u32, d: OperandDesc, imm: i64)
    requires d.kind.KindImm? && DescFits(d) && IsGathered(v, d) && DecodeImm(v, d) == Some(imm)
    ensures EncodeImm(imm, d) == Some(v) <==> FieldComesBack(v, d)
  {
    hide DecodeImm, EncodeImm, AndNot, Reencodes, FieldAgain, NarrowLiteral, IsLeast;
    if IsLiteral(d) {
      LiteralBack(d, imm);
    } else {
      DecodedIsAccepted(v, d, imm);
      if Reencodes(v, d) {
        DecodedField(v, d, imm);
        if IsLogical(d.transform) { LogicalBackAgain(v, d, imm); }
      }
    }
  }

  lemma LiteralBack(d: OperandDesc, imm: i64)
    requires d.sourceMask == 0 && d.literal != 0 && LiteralIsPlain(d) && DecodeImm(d.literal, d) == Some(imm)
    ensures EncodeImm(imm, d) == Some(d.literal)
  {
    hide DecodeImm;
    LiteralReadBack(d);
  }

  lemma LogicalBackAgain(v: u32, d: OperandDesc, imm: i64)
    requires IsLogical(d.transform) && (d.sourceMask != 0 || d.literal == 0)
    requires AndNot(v, d.sourceMask) == 0 && DecodeImm(v, d) == Some(imm)
    ensures EncodeImm(imm, d) == Some(v) <==> IsLeast(v, d)
  {
    hide AndNot, LogicalImm.Decode, LogicalImm.LogicalImmEncoding, LogicalImm.Wanted;
    LogicalAgain(v, d.width, d.sourceMask, imm);
    LogicalImm.EncoderMeaning(imm, d.width, d.sourceMask);
    var field := LogicalImm.LogicalImmEncoding(imm, d.width, d.sourceMask).value;
    assert LogicalImm.Encodes(field, LogicalImm.Wanted(imm, d.width), d.width, d.sourceMask);
    if v == field {
      forall u: u32 | AndNot(u, d.sourceMask) == 0 && LogicalImm.Decode(u, d.width) == LogicalImm.Decode(v, d.width)
        ensures v <= u
      {
        assert LogicalImm.Encodes(u, LogicalImm.Wanted(imm, d.width), d.width, d.sourceMask);
      }
    }
  }

  /** An opaque operand may leave its width open, as may its record. */
  lemma OpaqueWidth(o: Operand, d: OperandDesc)
    requires IsI64(o.imm) && (d.width == 0 || o.width == 0 || o.width == d.width)
    ensures EncodeOpaque(o, d) == EncodeOpaque(o.(width := d.width), d)
  {
    hide Immediates.RawUnsigned;
  }

  lemma OpaqueBack(v: u32, d: OperandDesc)
    requires d.kind.KindOpaque? && IsGathered(v, d)
    ensures EncodeOpaque(OpaqueOperand(v, d.width), d) == Some(v)
  {
    hide AndNot;
  }

  /** What the decoded target says about itself. */
  lemma TargetAgain(address: u64, v: u32, d: OperandDesc)
    requires DecodePcRel(address, v, d).Some?
    ensures var target := DecodePcRel(address, v, d).value;
            Reached(TargetOf(address, target), d) == target.absTarget
  {
    hide Immediates.SignExtend, Immediates.SourceWidth;
    if d.transform.PcRelAdrp? {
      PagesBack(address, Immediates.SignExtend(v, Immediates.SourceWidth(d.sourceMask)));
    }
  }

  lemma PagesBack(address: u64, n: int)
    ensures var target := Wrap(AlignDown(address, PAGE) + n * PAGE);
            AlignDown(target, PAGE) == target && AlignDown(Wrap(address + n * PAGE), PAGE) == target
  {
    var page, off := address / PAGE, address % PAGE;
    var k, m := (page + n) / 0x10_0000_0000_0000, (page + n) % 0x10_0000_0000_0000;
    Residues.Unique(AlignDown(address, PAGE) + n * PAGE, k, m * PAGE, U64);
    Residues.Unique(address + n * PAGE, k, m * PAGE + off, U64);
    Residues.Unique(m * PAGE, m, 0, PAGE);
    Residues.Unique(m * PAGE + off, m, off, PAGE);
  }

  lemma PcRelBack(address: u64, v: u32, d: OperandDesc)
    requires AndNot(v, d.sourceMask) == 0 && DecodePcRel(address, v, d).Some?
    ensures EncodePcRel(address, DecodePcRel(address, v, d).value, d) == Some(v)
  {
    hide DecodePcRel, EncodePcRel, AndNot, TargetOf;
    TargetAgain(address, v, d);
    PcRelComplete(address, DecodePcRel(address, v, d).value, d, v);
  }

  lemma HasTarget(address: u64, v: u32, d: OperandDesc)
    requires d.sourceMask != 0
    ensures DecodePcRel(address, v, d).Some? <==> d.transform.PcRelWords4? || d.transform.PcRelAdr? || d.transform.PcRelAdrp?
  {
    hide Immediates.SignExtend;
  }

  /** An operand that was decoded from its field is encoded to that field exactly when `FieldComesBack` holds. */
  lemma OperandComesBack(address: u64, v: u32, d: OperandDesc, o: Operand)
    requires DescFits(d) && IsGathered(v, d) && DecodeOperand(address, v, d) == Some(o) && IsI64(o.imm)
    ensures EncodeOperand(address, o, d) == Some(v) <==> FieldComesBack(v, d)
  {
    hide DecodeReg, EncodeReg, DecodeImm, EncodeImm, EncodeOpaque, DecodePcRel, EncodePcRel, AndNot, RegTaken, RegAgain, Reencodes,
         FieldAgain, IsLeast, NarrowLiteral;
    match d.kind
    case KindReg => DecodedRegister(v, d);
    case KindImm => ImmBack(v, d, o.imm);
    case KindOpaque => OpaqueBack(v, d);
    case KindPcRel =>
      HasTarget(address, v, d);
      if DecodePcRel(address, v, d).Some? { PcRelBack(address, v, d); }
  }

  // ---- one record

  /** The decoded operands as an instruction for the encoder. */
  function InstOf(e: EncodeRecord, address: u64, slots: seq<Operand>): Inst
    requires |e.descs| <= |slots|
  {
    Inst(e.id, e.mnemonic, address, slots[..|e.descs|])
  }

  /** The word has the encode record's bits wherever no piece writes; the decode pattern need not fix them all. */
  ghost predicate FixesRest(e: EncodeRecord, word: u32) {
    forall i: nat :: !OperandBits.IsDst(e.pieces, i) ==> Bit(word, i) == Bit(e.value, i)
  }

  /** The decode record that mirrors `e` reads `slots` from the word, and their immediates fit the operand type. */
  ghost predicate IsRead(e: EncodeRecord, r: Record, word: u32, address: u64, before: seq<Operand>, slots: seq<Operand>) {
    && Mirrors(e, r) && OperandBits.DistinctSrc(e.pieces)
    && |before| == MAX_OPERANDS && |slots| == MAX_OPERANDS
    && DecodeOperands(r, word, address, before) == Some(slots)
    && forall k :: 0 <= k < |e.descs| ==> IsI64(slots[k].imm)
  }

  /** The operand values that the decoder gathers, with its literals. */
  function ValuesOf(r: Record, word: u32): OperandBits.Values {
    if OperandValues(r, word).Some? then OperandValues(r, word).value else OperandBits.ZERO_VALUES
  }

  lemma ValuesThere(e: EncodeRecord, r: Record, word: u32)
    requires Mirrors(e, r)
    ensures OperandValues(r, word) == Some(ValuesOf(r, word)) && AllWords(ValuesOf(r, word))
    ensures forall k: nat :: k < |e.descs| && IsLiteral(e.descs[k]) ==> ValuesOf(r, word)[k] == e.descs[k].literal
    ensures forall k: nat :: k < MAX_OPERANDS && !(k < |e.descs| && IsLiteral(e.descs[k])) ==>
              ValuesOf(r, word)[k] == OperandBits.Gather(e.pieces, word)[k]
  {
    hide OperandBits.Gather, IsLiteral, DescFits, WithLiterals, OperandBits.IsSrc, OperandBits.IsDst, Bit, And;
    assert r.descs[..|r.descs|] == r.descs;
    LiteralsEach(OperandBits.Gather(e.pieces, word), r.descs, |r.descs|);
    ValuesAreWords(r, word);
  }

  /** Only bits that pieces carry are gathered. */
  lemma GatheredInside(e: EncodeRecord, r: Record, word: u32, k: nat)
    requires Mirrors(e, r) && k < MAX_OPERANDS
    ensures k < |e.descs| ==> ValuesOf(r, word)[k] < U32 && IsGathered(ValuesOf(r, word)[k], e.descs[k])
    ensures k >= |e.descs| ==> ValuesOf(r, word)[k] == 0
  {
    hide OperandBits.Gather, DescFits, Bit, AndNot, IsLiteral, ValuesOf, And;
    ValuesThere(e, r, word);
    var v := OperandBits.Gather(e.pieces, word)[k];
    forall i: nat ensures Bit(v, i) ==> OperandBits.IsSrc(e.pieces, k, i) { OperandBits.BitOfGather(e.pieces, word, k, i); }
    if k >= |e.descs| {
      forall i: nat ensures Bit(v, i) == Bit(0, i) { BitZero(i); }
      SameBits(v, 0);
    } else if !IsLiteral(e.descs[k]) {
      InsideBits(v, e.descs[k].sourceMask);
    }
  }

  lemma InsideBits(v: nat, mask: nat)
    requires forall i: nat :: Bit(v, i) ==> Bit(mask, i)
    ensures AndNot(v, mask) == 0
  {
    hide Bit, AndNot;
    forall i: nat ensures Bit(AndNot(v, mask), i) == Bit(0, i) {
      BitZero(i);
      BitAndNot(v, mask, i);
    }
    SameBits(AndNot(v, mask), 0);
  }

  lemma {:induction false} SlotsFrom(address: u64, values: OperandBits.Values, descs: seq<OperandDesc>, before: seq<Operand>, n: nat)
    requires AllWords(values) && |before| == MAX_OPERANDS && n <= |descs| <= MAX_OPERANDS
    requires forall k :: 0 <= k < |descs| ==> descs[k].operandIndex == k
    requires OperandsFrom(address, values, descs[..n], before).Some?
    ensures forall k: nat :: k < n ==>
              DecodeOperand(address, values[k], descs[k]) == Some(OperandsFrom(address, values, descs[..n], before).value[k])
    decreases n
  {
    hide DecodeOperand;
    if n > 0 {
      assert descs[..n][..n - 1] == descs[..n - 1];
      SlotsFrom(address, values, descs, before, n - 1);
    }
  }

  /** Each slot is what its value reads as. */
  lemma SlotsRead(e: EncodeRecord, r: Record, word: u32, address: u64, before: seq<Operand>, slots: seq<Operand>, k: nat)
    requires IsRead(e, r, word, address, before, slots) && k < |e.descs|
    ensures ValuesOf(r, word)[k] < U32
    ensures DecodeOperand(address, ValuesOf(r, word)[k], e.descs[k]) == Some(slots[k])
  {
    hide DecodeOperand, OperandsFrom, OperandValues, DescFits, IsLiteral, OperandBits.IsSrc, OperandBits.IsDst, And, Bit,
         OperandBits.Gather, IsI64;
    ValuesThere(e, r, word);
    ValuesAreWords(r, word);
    assert r.descs[..|r.descs|] == r.descs;
    SlotsFrom(address, ValuesOf(r, word), r.descs, before, |r.descs|);
  }

  /** Every operand comes back; the values are words. */
  ghost predicate EachComesBack(e: EncodeRecord, r: Record, word: u32) {
    forall k: nat :: k < |e.descs| && k < MAX_OPERANDS && ValuesOf(r, word)[k] < U32 ==>
      FieldComesBack(ValuesOf(r, word)[k], e.descs[k])
  }

  lemma {:induction false} PackedFrom(inst: Inst, descs: seq<OperandDesc>, values: OperandBits.Values, n: nat)
    requires ValidInst(inst) && n <= |descs| <= MAX_OPERANDS && |descs| == |inst.operands|
    requires forall k :: 0 <= k < |descs| ==> descs[k].operandIndex == k
    requires forall k: nat :: k < n ==> EncodeOperand(inst.address, inst.operands[k], descs[k]) == Some(values[k])
    ensures PackedValues(inst, descs[..n]).Some?
    ensures forall k: nat :: k < MAX_OPERANDS ==> PackedValues(inst, descs[..n]).value[k] == if k < n then values[k] else 0
    decreases n
  {
    hide EncodeOperand;
    if n > 0 {
      assert descs[..n][..n - 1] == descs[..n - 1];
      PackedFrom(inst, descs, values, n - 1);
    }
  }

  lemma AllPacked(inst: Inst, descs: seq<OperandDesc>, values: OperandBits.Values)
    requires ValidInst(inst) && |descs| <= MAX_OPERANDS && |descs| == |inst.operands|
    requires forall k :: 0 <= k < |descs| ==> descs[k].operandIndex == k
    requires forall k: nat :: k < |descs| ==> EncodeOperand(inst.address, inst.operands[k], descs[k]) == Some(values[k])
    requires forall k: nat :: |descs| <= k < MAX_OPERANDS ==> values[k] == 0
    ensures PackedValues(inst, descs) == Some(values)
  {
    hide EncodeOperand;
    assert descs[..|descs|] == descs;
    PackedFrom(inst, descs, values, |descs|);
    assert PackedValues(inst, descs).value == values;
  }

  /** A piece carries a gathered bit, never one of a literal. */
  lemma PieceIsGathered(e: EncodeRecord, r: Record, word: u32, j: nat)
    requires Mirrors(e, r) && OperandBits.DistinctSrc(e.pieces) && j < |e.pieces|
    ensures var p := e.pieces[j]; Bit(ValuesOf(r, word)[p.operandIndex], p.srcBit) <==> Bit(word, p.dstBit)
  {
    hide OperandBits.Gather, DescFits, Bit, ValuesOf, And;
    ValuesThere(e, r, word);
    var p := e.pieces[j];
    assert OperandBits.IsSrc(e.pieces, p.operandIndex, p.srcBit);
    OperandBits.BitOfGather(e.pieces, word, p.operandIndex, p.srcBit);
    BitZero(p.srcBit);
    assert p.operandIndex < |e.descs| && !IsLiteral(e.descs[p.operandIndex]);
  }

  /** Scattering what was gathered gives the word. */
  lemma ScatteredAgain(e: EncodeRecord, r: Record, word: u32)
    requires Mirrors(e, r) && OperandBits.DistinctSrc(e.pieces) && FixesRest(e, word)
    ensures OperandBits.Scatter(e.value, e.pieces, ValuesOf(r, word)) == word
  {
    hide OperandBits.Scatter, DescFits, Bit, ValuesOf, And, Wired;
    var back := OperandBits.Scatter(e.value, e.pieces, ValuesOf(r, word));
    forall j: nat | j < |e.pieces| { PieceIsGathered(e, r, word, j); }
    forall i: nat ensures Bit(back, i) == Bit(word, i) {
      OperandBits.BitOfScatter(e.value, e.pieces, ValuesOf(r, word), i);
      if OperandBits.IsDst(e.pieces, i) { assert !Bit(e.value, i); }
    }
    SameBits(back, word);
  }

  lemma ScatteredFixes(e: EncodeRecord, values: OperandBits.Values)
    requires OperandBits.LeavesRoom(e.value, e.pieces)
    requires OperandBits.Scatter(e.value, e.pieces, values) < U32
    ensures FixesRest(e, OperandBits.Scatter(e.value, e.pieces, values))
  {
    hide OperandBits.Scatter, Bit;
    forall i: nat | !OperandBits.IsDst(e.pieces, i)
      ensures Bit(OperandBits.Scatter(e.value, e.pieces, values), i) == Bit(e.value, i)
    {
      OperandBits.BitOfScatter(e.value, e.pieces, values, i);
    }
  }

  /** The operands come back one by one. */
  lemma EachIs(e: EncodeRecord, r: Record, word: u32, address: u64, before: seq<Operand>, slots: seq<Operand>)
    requires IsRead(e, r, word, address, before, slots)
    ensures EachComesBack(e, r, word) <==>
            forall k: nat :: k < |e.descs| ==> EncodeOperand(address, slots[k], e.descs[k]) == Some(ValuesOf(r, word)[k])
  {
    hide DecodeOperand, EncodeOperand, DecodeOperands, DescFits, FieldComesBack, IsGathered, ValuesOf, IsI64, OperandBits.IsSrc,
         OperandBits.IsDst, And, Bit;
    forall k: nat | k < |e.descs|
      ensures ValuesOf(r, word)[k] < U32
      ensures EncodeOperand(address, slots[k], e.descs[k]) == Some(ValuesOf(r, word)[k])
              <==> FieldComesBack(ValuesOf(r, word)[k], e.descs[k])
    {
      SlotsRead(e, r, word, address, before, slots, k);
      GatheredInside(e, r, word, k);
      OperandComesBack(address, ValuesOf(r, word)[k], e.descs[k], slots[k]);
    }
  }

  lemma ReadIsValid(e: EncodeRecord, r: Record, word: u32, address: u64, before: seq<Operand>, slots: seq<Operand>)
    requires IsRead(e, r, word, address, before, slots)
    ensures |e.descs| <= |slots| && OperandBits.InRange(e.pieces)
    ensures ValidInst(InstOf(e, address, slots)) && |InstOf(e, address, slots).operands| == |e.descs|
  {
    hide DecodeOperands, DescFits, OperandBits.IsSrc, OperandBits.IsDst, And, Bit;
  }

  /** The guard that the decoder checked is the one that the encoder checks. */
  lemma GuardAgain(table: seq<PstateLiteral>, engine: Config, e: EncodeRecord, r: Record, word: u32)
    requires Mirrors(e, r) && GuardWired(r, table) && GuardMatch(engine, table, r, word)
    ensures GuardHolds(engine, table, e, ValuesOf(r, word))
  {
    hide Wired, OperandValues, GuardField, GuardOperand, InvalidPstate, Supports, OperandBits.IsDst, And, DescFits, IsLiteral;
    ValuesThere(e, r, word);
  }

  /** The packed word is the decoded one exactly when the values are. */
  lemma SameWord(e: EncodeRecord, r: Record, word: u32, inst: Inst)
    requires ValidInst(inst) && Mirrors(e, r) && OperandBits.DistinctSrc(e.pieces) && PackedValues(inst, e.descs).Some?
    ensures OperandBits.Scatter(e.value, e.pieces, PackedValues(inst, e.descs).value) == word
            <==> PackedValues(inst, e.descs).value == ValuesOf(r, word) && FixesRest(e, word)
  {
    hide PackedValues, OperandValues, OperandBits.Scatter, Wired, And, OperandBits.IsDst, FixesRest;
    var values := PackedValues(inst, e.descs).value;
    if OperandBits.Scatter(e.value, e.pieces, values) == word {
      ValuesReadBack(e, r, inst, word);
      ScatteredFixes(e, values);
    }
    if FixesRest(e, word) { ScatteredAgain(e, r, word); }
  }

  /** A word that the decoder reads is packed by the mirroring encode record to the same word exactly when each of its
      operands comes back and the word has the record's bits wherever no piece writes. */
  lemma DecodedWordAgain(table: seq<PstateLiteral>, engine: Config, e: EncodeRecord, r: Record, word: u32, address: u64,
                         before: seq<Operand>, slots: seq<Operand>)
    requires IsRead(e, r, word, address, before, slots) && GuardWired(r, table) && GuardMatch(engine, table, r, word)
    ensures |e.descs| <= |slots| && OperandBits.InRange(e.pieces) && ValidInst(InstOf(e, address, slots))
    ensures Pack(table, engine, e, InstOf(e, address, slots)) == Packed(word) <==> EachComesBack(e, r, word) && FixesRest(e, word)
  {
    hide DecodeOperands, EncodeOperand, PackedValues, OperandBits.Scatter, Wired, And, OperandBits.IsDst, FixesRest, ValuesOf,
         EachComesBack, GuardWired, GuardMatch, GuardHolds, GuardOperand, OperandBits.InRange, IsI64;
    ReadIsValid(e, r, word, address, before, slots);
    EachIs(e, r, word, address, before, slots);
    GuardAgain(table, engine, e, r, word);
    var inst := InstOf(e, address, slots);
    PackedIsValues(e, r, word, inst);
    if PackedValues(inst, e.descs).Some? { SameWord(e, r, word, inst); }
  }

  lemma PackedIsValues(e: EncodeRecord, r: Record, word: u32, inst: Inst)
    requires ValidInst(inst) && Mirrors(e, r) && |inst.operands| == |e.descs|
    ensures PackedValues(inst, e.descs) == Some(ValuesOf(r, word)) <==>
            forall k: nat :: k < |e.descs| ==> EncodeOperand(inst.address, inst.operands[k], e.descs[k]) == Some(ValuesOf(r, word)[k])
  {
    hide EncodeOperand, PackedValues, And, OperandBits.IsDst, OperandBits.IsSrc, ValuesOf, DescFits, Bit;
    forall k: nat | k < MAX_OPERANDS ensures k >= |e.descs| ==> ValuesOf(r, word)[k] == 0 { GatheredInside(e, r, word, k); }
    if PackedValues(inst, e.descs) == Some(ValuesOf(r, word)) { PackedEach(inst, e.descs); }
    if forall k: nat :: k < |e.descs| ==> EncodeOperand(inst.address, inst.operands[k], e.descs[k]) == Some(ValuesOf(r, word)[k]) {
      AllPacked(inst, e.descs, ValuesOf(r, word));
    }
  }

  /** With the record's features on, the encoder can use its record for such a word and writes the word again. */
  lemma DecodedIsEncodable(table: seq<PstateLiteral>, engine: Config, e: EncodeRecord, r: Record, word: u32, address: u64,
                           before: seq<Operand>, slots: seq<Operand>)
    requires IsRead(e, r, word, address, before, slots) && GuardWired(r, table) && GuardMatch(engine, table, r, word)
    requires EachComesBack(e, r, word) && FixesRest(e, word) && Ids(e.features) <= Enabled(engine)
    ensures |e.descs| <= |slots| && OperandBits.InRange(e.pieces) && ValidInst(InstOf(e, address, slots))
    ensures Encodable(table, engine, e, InstOf(e, address, slots))
    ensures Pack(table, engine, e, InstOf(e, address, slots)) == Packed(word)
  {
    hide IsRead, GuardWired, GuardMatch, EachComesBack, FixesRest, Ids, Enabled, Supports, Pack, OperandBits.InRange;
    DecodedWordAgain(table, engine, e, r, word, address, before, slots);
    SupportsIsInclusion(engine, e.features);
  }
}
