/** ARM bitfield encoding of whole instructions, and what the decoder reads back from them. */
module ArmPacking {
  import opened Bits
  import opened Wrappers
  import opened Operands
  import opened ArmDescs
  import opened ArmImmediates
  import opened ArmPcRel
  import opened ArmMemory
  import opened ArmRecords
  import opened ArmRegisterTable
  import opened ArmRegisters
  import opened PcRelative
  import opened Features
  import opened ByteOrder
  import OperandBits

  datatype EncodeMode = A32 | Thumb | UnknownMode

  datatype EncodeRecord = EncodeRecord(
    mode: EncodeMode,
    size: nat,
    id: nat,
    mnemonic: nat,
    isDefault: bool,
    value: u32,
    descs: seq<Desc>,
    pieces: seq<OperandBits.Piece>,
    features: Words)

  datatype Inst = Inst(id: nat, mnemonic: nat, address: u64, operands: seq<Operand>)

  predicate IsI64(x: int) {
    -0x8000_0000_0000_0000 <= x < 0x8000_0000_0000_0000
  }

  predicate ValidInst(inst: Inst) {
    forall k :: 0 <= k < |inst.operands| ==> IsI64(inst.operands[k].imm)
  }

  predicate ValidRecord(r: EncodeRecord) {
    && OperandBits.InRange(r.pieces)
    && |r.descs| <= MAX_OPERANDS
    && (forall k :: 0 <= k < |r.pieces| ==> r.pieces[k].operandIndex < |r.descs|)
    && (r.size == 2 || r.size == 4)
  }

  // ---- one operand

  /** The operand that a bit-field width is counted from. */
  function LsbOperand(operands: seq<Operand>, d: Desc): Option<int> {
    if d.aliasBase >= MAX_OPERANDS || d.aliasBase >= |operands| || operands[d.aliasBase].kind != OpImm then None
    else Some(operands[d.aliasBase].imm)
  }

  /** `arm_bf_operand_value`. */
  function EncodeOperand(inst: Inst, o: Operand, d: Desc): Option<nat>
    requires IsI64(o.imm)
  {
    match d.kind
    case KindReg => EncodeReg(o, d)
    case KindImm => if o.kind != OpImm then None else EncodeImm(o.imm, LsbOperand(inst.operands, d), d)
    case KindMem => EncodeMem(MEMORY, o, d)
    case KindPcRel => if o.kind != OpPcRel then None else EncodePcRel(inst.address, Target(o.imm, o.absTarget, o.width), d)
    case KindOther => None
  }

  /** `arm_bf_operand_alias_matches`. */
  function AliasMatches(inst: Inst, d: Desc): bool {
    if IsAlias(d) then Repeats(inst.operands, d)
    else if d.transform.ImmFixedLiteral? then
      d.operandIndex < |inst.operands| && inst.operands[d.operandIndex].kind == OpImm
      && inst.operands[d.operandIndex].imm == d.sourceMask
    else true
  }

  // ---- one record

  function Field(r: EncodeRecord, inst: Inst, k: nat): Option<nat>
    requires ValidInst(inst)
  {
    if k < |r.descs| && k < |inst.operands| then EncodeOperand(inst, inst.operands[k], r.descs[k]) else None
  }

  predicate HasPiece(r: EncodeRecord, k: nat) {
    exists i :: 0 <= i < |r.pieces| && r.pieces[i].operandIndex == k
  }

  /** The field of an operand that some piece carries. */
  function FieldValue(r: EncodeRecord, inst: Inst, k: nat): nat
    requires ValidInst(inst)
  {
    if HasPiece(r, k) && Field(r, inst, k).Some? then Field(r, inst, k).value else 0
  }

  function Fields(r: EncodeRecord, inst: Inst): (v: OperandBits.Values)
    requires ValidInst(inst)
    ensures forall k: nat :: k < 8 ==> v[k] == FieldValue(r, inst, k)
  {
    seq(8, k requires 0 <= k < 8 => FieldValue(r, inst, k))
  }

  /** Operands without pieces are not looked at, except as aliases. */
  predicate Packs(r: EncodeRecord, inst: Inst)
    requires ValidInst(inst)
  {
    && |inst.operands| == |r.descs|
    && (forall k :: 0 <= k < |r.pieces| ==> Field(r, inst, r.pieces[k].operandIndex).Some?)
    && (forall k :: 0 <= k < |r.descs| ==> AliasMatches(inst, r.descs[k]))
  }

  function Word(r: EncodeRecord, inst: Inst): u32
    requires ValidInst(inst) && ValidRecord(r)
  {
    ScatterIsWord(r.value, r.pieces, Fields(r, inst));
    OperandBits.ArmScatter(r.value, r.pieces, Fields(r, inst))
  }

  /** The loop over the pieces of one record. */
  method PiecesLoop(r: EncodeRecord, inst: Inst) returns (ok: bool, word: nat)
    requires ValidInst(inst) && ValidRecord(r) && |inst.operands| == |r.descs|
    ensures ok <==> forall k :: 0 <= k < |r.pieces| ==> Field(r, inst, r.pieces[k].operandIndex).Some?
    ensures ok ==> word == Word(r, inst)
  {
    hide Field, And, Or, AndNot, Shr, Pow2;
    ghost var fields := Fields(r, inst);
    word := r.value;
    var i := 0;
    while i < |r.pieces|
      invariant 0 <= i <= |r.pieces|
      invariant forall k :: 0 <= k < i ==> Field(r, inst, r.pieces[k].operandIndex).Some?
      invariant word == OperandBits.ArmScatter(r.value, r.pieces[..i], fields)
    {
      var piece := r.pieces[i];
      var field := Field(r, inst, piece.operandIndex);
      if field.None? {
        return false, word;
      }
      assert r.pieces[..i + 1][..i] == r.pieces[..i];
      assert HasPiece(r, piece.operandIndex) && fields[piece.operandIndex] == field.value;
      if And(Shr(field.value, piece.srcBit), 1) != 0 {
        word := Or(word, Pow2(piece.dstBit));
      } else {
        word := AndNot(word, Pow2(piece.dstBit));
      }
      i := i + 1;
    }
    assert r.pieces[..i] == r.pieces;
    ok := true;
  }

  // ---- the stored instruction

  /** Thumb stores the high halfword first. */
  function Stored(r: EncodeRecord, word: nat): seq<u8>
    requires word < U32
  {
    if r.size == 2 then HalfBytes(word)
    else if r.mode == Thumb then HalfBytes(Shr(word, 16)) + HalfBytes(word)
    else Bytes32(word)
  }

  /** A halfword cast and its bytes. */
  function HalfBytes(word: nat): (b: seq<u8>)
    ensures |b| == 2
  {
    assert Pow2(16) == 0x1_0000 by { WordSizes(); }
    LowAtMost(word, 16);
    Bytes16(Low(word, 16))
  }

  /** How the decoder reads the instruction: `h1 << 16 | h2` for wide Thumb. */
  function Loaded(r: EncodeRecord, code: seq<u8>): nat
    requires |code| >= r.size && (r.size == 2 || r.size == 4)
  {
    if r.size == 2 then Load16(code)
    else if r.mode == Thumb then Or(Shl(Load16(code), 16), Load16(code[2..]))
    else Load32(code)
  }

  lemma HalfBack(word: nat)
    ensures Load16(HalfBytes(word)) == Low(word, 16)
  {
    hide Load16, Bytes16, Low;
    LowAtMost(word, 16);
    WordSizes();
    LoadOfBytes16(Low(word, 16));
  }

  /** A stored instruction is loaded back by the decoder; of a two-byte one, the low halfword. */
  lemma StoredBack(r: EncodeRecord, word: u32)
    requires r.size == 2 || r.size == 4
    ensures |Stored(r, word)| == r.size
    ensures Loaded(r, Stored(r, word)) == if r.size == 2 then Low(word, 16) else word
  {
    hide HalfBytes, Load16, Load32, Bytes32, Low, Shr, Shl, Or;
    HalfBack(word);
    HalfBack(Shr(word, 16));
    FourBytes(word);
    if r.size == 4 && r.mode == Thumb {
      var code := Stored(r, word);
      assert code[2..] == HalfBytes(word);
      FirstHalf(HalfBytes(Shr(word, 16)), HalfBytes(word));
      HalvesJoin(word);
    } else if r.size == 4 {
      LoadOfBytes32(word);
    }
  }

  /** Byte by byte: a halfword and an A32 word from the low end, a wide Thumb instruction with its high halfword first. */
  lemma StoredBytes(r: EncodeRecord, word: u32, k: nat)
    requires (r.size == 2 || r.size == 4) && k < r.size
    ensures |Stored(r, word)| == r.size
    ensures Stored(r, word)[k] == Low(Shr(word, 8 * if r.size == 4 && r.mode == Thumb then (k + 2) % 4 else k), 8)
  {
    hide Bytes16, Bytes32, Low, Shr;
    HalfBytesAre(word);
    HalfBytesAre(Shr(word, 16));
    WordBytesAre(word);
    ShrShr(word, 16, 8);
    ShrShr(word, 16, 0);
  }

  lemma ByteIs(v: nat, k: nat)
    ensures Byte(v, k) == Low(Shr(v, 8 * k), 8)
  {
    assert Ones(8) == 0xff;
    hide And, Low, Shr;
    AndOnes(Shr(v, 8 * k), 8);
  }

  lemma WordBytesAre(word: u32)
    ensures |Bytes32(word)| == 4 && forall k: nat :: k < 4 ==> Bytes32(word)[k] == Low(Shr(word, 8 * k), 8)
  {
    hide Byte, Low, Shr;
    forall k: nat { ByteIs(word, k); }
  }

  lemma HalfBytesAre(word: nat)
    ensures |HalfBytes(word)| == 2
    ensures HalfBytes(word)[0] == Low(Shr(word, 0), 8) && HalfBytes(word)[1] == Low(Shr(word, 8), 8)
  {
    hide Byte, Low, Shr;
    LowAtMost(word, 16);
    WordSizes();
    LowByte(word, 0);
    LowByte(word, 1);
  }

  lemma LowByte(word: nat, k: nat)
    requires k < 2
    ensures Byte(Low(word, 16), k) == Low(Shr(word, 8 * k), 8)
  {
    hide Bit, Byte, Low, Shr;
    forall i: nat ensures Bit(Byte(Low(word, 16), k), i) == Bit(Low(Shr(word, 8 * k), 8), i) {
      BitOfByte(Low(word, 16), k, i);
      BitLow(word, 16, i + 8 * k);
      BitLow(Shr(word, 8 * k), 8, i);
      BitShr(word, 8 * k, i);
    }
    SameBits(Byte(Low(word, 16), k), Low(Shr(word, 8 * k), 8));
  }

  lemma FourBytes(word: u32)
    ensures |Bytes32(word)| == 4
  {
  }

  lemma FirstHalf(first: seq<u8>, second: seq<u8>)
    requires |first| == 2
    ensures Load16(first + second) == Load16(first)
  {
  }

  lemma HalvesJoin(word: u32)
    ensures Or(Shl(Low(Shr(word, 16), 16), 16), Low(word, 16)) == word
  {
    hide Low, Shr, Shl, Or, Pow2;
    WordSizes();
    LowShr(word, 32);
    LowSmall(word, 32);
    LowSplit(word, 16, 16);
    LowAtMost(word, 16);
    Joined(Low(word, 16), Low(Shr(word, 16), 16), 16);
  }

  // ---- the record search

  predicate SameIdentity(r: EncodeRecord, inst: Inst) {
    inst.id == r.id || (inst.id == 0 && r.isDefault && inst.mnemonic == r.mnemonic)
  }

  /** The record stands for the instruction in the engine's mode. */
  predicate Candidate(r: EncodeRecord, mode: EncodeMode, inst: Inst) {
    r.mode == mode && !mode.UnknownMode? && SameIdentity(r, inst) && |inst.operands| == |r.descs|
  }

  predicate Encodable(engine: Config, mode: EncodeMode, r: EncodeRecord, inst: Inst)
    requires ValidInst(inst)
  {
    Candidate(r, mode, inst) && Supports(engine, r.features) && Packs(r, inst)
  }

  datatype Status = Ok | UnsupportedInstruction | UnsupportedFeature | OutputTooSmall

  predicate ValidRecords(records: seq<EncodeRecord>) {
    forall i :: 0 <= i < |records| ==> ValidRecord(records[i])
  }

  ghost predicate Blocked(engine: Config, mode: EncodeMode, r: EncodeRecord, inst: Inst) {
    Candidate(r, mode, inst) && !Supports(engine, r.features)
  }

  ghost predicate Considered(engine: Config, mode: EncodeMode, r: EncodeRecord, inst: Inst) {
    Candidate(r, mode, inst) && Supports(engine, r.features)
  }

  method AliasesLoop(r: EncodeRecord, inst: Inst) returns (ok: bool)
    ensures ok <==> forall k :: 0 <= k < |r.descs| ==> AliasMatches(inst, r.descs[k])
  {
    hide AliasMatches;
    var i := 0;
    while i < |r.descs|
      invariant 0 <= i <= |r.descs|
      invariant forall k :: 0 <= k < i ==> AliasMatches(inst, r.descs[k])
    {
      if !AliasMatches(inst, r.descs[i]) {
        return false;
      }
      i := i + 1;
    }
    ok := true;
  }

  method StoreHalf(code: array<u8>, at: nat, word: nat)
    requires at + 2 <= code.Length
    modifies code
    ensures code[..] == old(code[..at]) + HalfBytes(word) + old(code[at + 2..])
  {
    hide Bytes16, Low;
    WordSizes();
    LowAtMost(word, 16);
    Store16(code, at, Low(word, 16));
  }

  method Store(r: EncodeRecord, word: u32, code: array<u8>)
    requires (r.size == 2 || r.size == 4) && code.Length >= r.size
    modifies code
    ensures |Stored(r, word)| == r.size && code[..] == Stored(r, word) + old(code[r.size..])
  {
    hide HalfBytes, Bytes32, Shr;
    FourBytes(word);
    if r.size == 2 {
      StoreHalf(code, 0, word);
    } else if r.mode == Thumb {
      StoreHalf(code, 0, Shr(word, 16));
      StoreHalf(code, 2, word);
    } else {
      Store32(code, 0, word);
    }
  }

  /** `asmkit_gen_arm_encode_bitfield`: the first record that stands for the instruction, has its
      features, and packs is used; `used` is its position. */
  method EncodeBitfield(engine: Config, mode: EncodeMode, records: seq<EncodeRecord>, inst: Inst, code: array<u8>)
    returns (status: Status, size: nat, used: nat)
    requires ValidInst(inst) && ValidRecords(records)
    modifies code
    ensures status == Ok || status == OutputTooSmall ==>
              && used < |records|
              && size == records[used].size
              && Encodable(engine, mode, records[used], inst)
              && forall i :: 0 <= i < used ==> !Encodable(engine, mode, records[i], inst)
    ensures status == Ok ==>
              var word := Word(records[used], inst);
              code.Length >= size && code[..] == Stored(records[used], word) + old(code[size..])
    ensures status == OutputTooSmall ==> code.Length < size
    ensures status == UnsupportedInstruction || status == UnsupportedFeature ==>
              forall i :: 0 <= i < |records| ==> !Encodable(engine, mode, records[i], inst)
    ensures status == UnsupportedFeature <==>
              && (exists i :: 0 <= i < |records| && Blocked(engine, mode, records[i], inst))
              && (forall i :: 0 <= i < |records| ==> !Considered(engine, mode, records[i], inst))
    ensures status != Ok ==> code[..] == old(code[..])
  {
    hide Supports, SameIdentity, AliasMatches, Field, Word, Stored, Bytes32, OperandBits.InRange;
    size, used := 0, 0;
    var sawBlocked, sawMatched := false, false;
    var i := 0;
    while i < |records|
      invariant 0 <= i <= |records|
      invariant sawBlocked <==> exists j :: 0 <= j < i && Blocked(engine, mode, records[j], inst)
      invariant sawMatched <==> exists j :: 0 <= j < i && Considered(engine, mode, records[j], inst)
      invariant forall j :: 0 <= j < i ==> !Encodable(engine, mode, records[j], inst)
      invariant code[..] == old(code[..])
    {
      var r := records[i];
      if Candidate(r, mode, inst) {
        var supported := SupportsLoop(engine, r.features);
        if !supported {
          sawBlocked := true;
          assert Blocked(engine, mode, records[i], inst);
        } else {
          sawMatched := true;
          assert Considered(engine, mode, records[i], inst);
          var packed, word := PiecesLoop(r, inst);
          var matched := false;
          if packed {
            matched := AliasesLoop(r, inst);
          }
          if packed && matched {
            if code.Length < r.size {
              return OutputTooSmall, r.size, i;
            }
            Store(r, word, code);
            return Ok, r.size, i;
          }
        }
      }
      i := i + 1;
    }
    return if sawBlocked && !sawMatched then UnsupportedFeature else UnsupportedInstruction, 0, 0;
  }

  /** Which instructions a record can be used for: its own, or those without an id that have its mnemonic when it is the
      default; in its mode, with its features on, with as many operands, each of which that the pieces carry is accepted,
      and with repeated operands that repeat. */
  lemma EncodableMeaning(engine: Config, mode: EncodeMode, r: EncodeRecord, inst: Inst)
    requires ValidInst(inst) && ValidRecord(r)
    ensures Encodable(engine, mode, r, inst) <==>
            && r.mode == mode && (mode == A32 || mode == Thumb)
            && (inst.id == r.id || (inst.id == 0 && inst.mnemonic == r.mnemonic && r.isDefault))
            && Ids(r.features) <= Enabled(engine)
            && |inst.operands| == |r.descs|
            && (forall k :: 0 <= k < |r.descs| && HasPiece(r, k) ==> EncodeOperand(inst, inst.operands[k], r.descs[k]).Some?)
            && (forall k :: 0 <= k < |r.descs| ==> AliasMatches(inst, r.descs[k]))
  {
    hide Supports, Ids, Enabled, EncodeOperand, AliasMatches;
    SupportsIsInclusion(engine, r.features);
    if |inst.operands| == |r.descs| { EachPiece(r, inst); }
  }

  lemma EachPiece(r: EncodeRecord, inst: Inst)
    requires ValidInst(inst) && ValidRecord(r) && |inst.operands| == |r.descs|
    ensures (forall k :: 0 <= k < |r.pieces| ==> Field(r, inst, r.pieces[k].operandIndex).Some?)
            <==> forall k :: 0 <= k < |r.descs| && HasPiece(r, k) ==> EncodeOperand(inst, inst.operands[k], r.descs[k]).Some?
  {
    hide EncodeOperand;
    forall k | 0 <= k < |r.pieces| ensures HasPiece(r, r.pieces[k].operandIndex) { }
  }

  lemma ScatterIsWord(value: u32, pieces: seq<OperandBits.Piece>, values: OperandBits.Values)
    requires OperandBits.InRange(pieces)
    ensures OperandBits.ArmScatter(value, pieces, values) < U32
  {
    hide Bit, Pow2, OperandBits.ArmScatter;
    WordSizes();
    var word := OperandBits.ArmScatter(value, pieces, values);
    forall i: nat | i >= 32 ensures !Bit(word, i) {
      ScatterKeeps(value, pieces, values, i);
      BitAbove(value, 32, i);
    }
    BelowPow2(word, 32);
  }

  /** Bits that no piece writes stay as they were. */
  lemma {:induction false} ScatterKeeps(base: nat, pieces: seq<OperandBits.Piece>, values: OperandBits.Values, i: nat)
    requires OperandBits.InRange(pieces) && !OperandBits.IsDst(pieces, i)
    ensures Bit(OperandBits.ArmScatter(base, pieces, values), i) == Bit(base, i)
    decreases |pieces|
  {
    hide Bit, OperandBits.PutBit;
    if pieces != [] {
      var n := |pieces| - 1;
      var p := pieces[n];
      assert forall k :: 0 <= k < n ==> pieces[..n][k] == pieces[k];
      ScatterKeeps(base, pieces[..n], values, i);
      OperandBits.BitOfPut(OperandBits.ArmScatter(base, pieces[..n], values), p.dstBit,
                           And(Shr(values[p.operandIndex], p.srcBit), 1) != 0, i);
    }
  }

  // ---- reading back

  /** The decoder's conflict check accepts every packed word, and the decoder reads back the packed fields
      exactly when the pieces carry all their bits. */
  lemma PackedReadsBack(r: EncodeRecord, inst: Inst)
    requires ValidInst(inst) && ValidRecord(r) && OperandBits.DistinctDst(r.pieces)
    ensures var g := OperandBits.ArmGather(r.pieces, Word(r, inst));
            && g.Some?
            && (g.value.values == Fields(r, inst) <==> OperandBits.Covered(r.pieces, Fields(r, inst)))
  {
    hide Bit, FieldValue, OperandBits.ArmGather, OperandBits.ArmScatter, OperandBits.Covered, OperandBits.DistinctDst;
    var fields, word := Fields(r, inst), Word(r, inst);
    forall k | 0 <= k < |r.pieces| { OperandBits.ArmScatterBit(r.value, r.pieces, fields, k); }
    assert OperandBits.Agrees(r.pieces, fields, word);
    OperandBits.ArmGatherComplete(r.pieces, word);
    OperandBits.ArmGatherMeaning(r.pieces, word);
    if OperandBits.Covered(r.pieces, fields) {
      OperandBits.ArmGatherOfScatter(r.value, r.pieces, fields);
    }
  }

  /** A packed word keeps the bits of a decode pattern that no piece writes to. */
  lemma PackedKeepsMask(r: EncodeRecord, inst: Inst, mask: u32)
    requires ValidInst(inst) && ValidRecord(r) && forall i: nat :: OperandBits.IsDst(r.pieces, i) ==> !Bit(mask, i)
    ensures And(Word(r, inst), mask) == And(r.value, mask)
  {
    hide Bit, And, FieldValue, OperandBits.ArmScatter, OperandBits.IsDst;
    var word := Word(r, inst);
    forall i: nat ensures Bit(And(word, mask), i) == Bit(And(r.value, mask), i) {
      BitAnd(word, mask, i);
      BitAnd(r.value, mask, i);
      if !OperandBits.IsDst(r.pieces, i) { ScatterKeeps(r.value, r.pieces, Fields(r, inst), i); }
    }
    SameBits(And(word, mask), And(r.value, mask));
  }

  /** The decoded operand means what the encoded one meant. */
  predicate SameOperand(address: u64, o: Operand, back: Option<Operand>, d: Desc) {
    match d.kind
    case KindReg => SameRegister(o, back, d)
    case KindImm =>
      back.Some? && back.value.kind == OpImm && back.value.imm == o.imm && SameModifiers(o, back.value)
      && OpenOr(o.width, back.value.width)
    case KindMem => SameAddress(o, back, d.transform)
    case KindPcRel =>
      back.Some? && back.value.kind == OpPcRel && SameModifiers(o, back.value) && OpenOr(o.width, back.value.width)
      && back.value.absTarget == TargetOf(address, Target(o.imm, o.absTarget, o.width))
    case _ => false
  }

  /** The accepted operands that come back. */
  predicate KeepsOperand(address: u64, o: Operand, d: Desc)
    requires IsI64(o.imm)
  {
    match d.kind
    case KindReg => KeepsRegister(o, d)
    case KindImm => IsBare(o, d.width) && (d.transform.RawSignedField? ==> KeepsSigned(o.imm, d.sourceMask))
    case KindMem => KeepsAddress(o, d)
    case KindPcRel =>
      IsBare(o, PcRelWidth(d))
      && Keeps(Distance(Base(address, d.transform), TargetOf(address, Target(o.imm, o.absTarget, o.width))), d)
    case _ => false
  }

  lemma ImmBack(imm: i64, lsb: Option<int>, lsbField: Option<nat>, d: Desc)
    requires EncodeImm(imm, lsb, d).Some?
    requires d.transform.BfInvMaskWidth? ==> lsbField.Some? && And(lsbField.value, 0x1f) == lsb.value
    ensures DecodeImm(EncodeImm(imm, lsb, d).value, lsbField, d) == Some(imm)
            <==> (d.transform.RawSignedField? ==> KeepsSigned(imm, d.sourceMask))
  {
    if d.transform.RawSignedField? && !KeepsSigned(imm, d.sourceMask) {
      SignedExact(imm, d.sourceMask);
    } else {
      ArmImmRoundTrip(imm, lsb, lsbField, d);
    }
  }

  /** The operand that a bit-field width counts from is a plain number carried by pieces. */
  predicate LsbWired(r: EncodeRecord) {
    forall k :: 0 <= k < |r.descs| && r.descs[k].transform.BfInvMaskWidth? ==>
      var base := r.descs[k].aliasBase;
      base < |r.descs| && HasPiece(r, base) && r.descs[base].kind.KindImm? && r.descs[base].transform.RawUnsignedField?
  }

  /** An operand whose field the decoder reads back is decoded to the same register, immediate, address or target
      exactly when `KeepsOperand` holds. */
  lemma OperandBack(inst: Inst, values: OperandBits.Values, o: Operand, d: Desc)
    requires IsI64(o.imm) && d.operandIndex < MAX_OPERANDS && !IsAlias(d)
    requires EncodeOperand(inst, o, d) == Some(values[d.operandIndex])
    requires d.kind.KindImm? && d.transform.BfInvMaskWidth? ==>
               d.aliasBase < MAX_OPERANDS && LsbOperand(inst.operands, d) == Some(And(values[d.aliasBase], 0x1f))
    ensures SameOperand(inst.address, o, DecodeOperand(TABLE, inst.address, values, d), d) <==> KeepsOperand(inst.address, o, d)
  {
    hide EncodeReg, RegOperandOf, SameRegister, KeepsRegister, EncodeImm, DecodeImm, EncodeMem, DecodeMem, EncodePcRel, DecodePcRel,
         KeepsSigned, KeepsAddress, Keeps, SameAddress, Distance, PcRelWidth, ValidRegisters, IsAlias, And, Base, TargetOf;
    match d.kind
    case KindReg => RegRoundTrip(o, d);
    case KindImm => ImmBack(o.imm, LsbOperand(inst.operands, d), LsbField(values, d), d);
    case KindMem =>
      MemoryIsValid();
      MemRoundTrip(MEMORY, o, d);
    case KindPcRel =>
      ReadWidth(inst.address, values[d.operandIndex], d);
      ArmPcRelRoundTrip(inst.address, Target(o.imm, o.absTarget, o.width), d);
  }

  /** A packed instruction passes the decoder's conflict check, and each operand that pieces carry decodes, at the
      same address, to one that means the same exactly when `KeepsOperand` holds. */
  lemma PackedOperand(r: EncodeRecord, inst: Inst, k: nat)
    requires ValidInst(inst) && ValidRecord(r) && OperandBits.DistinctDst(r.pieces) && LsbWired(r)
    requires Packs(r, inst) && OperandBits.Covered(r.pieces, Fields(r, inst))
    requires k < |r.descs| && r.descs[k].operandIndex == k && HasPiece(r, k) && !IsAlias(r.descs[k])
    ensures var g := OperandBits.ArmGather(r.pieces, Word(r, inst));
            && g.Some?
            && (SameOperand(inst.address, inst.operands[k], DecodeOperand(TABLE, inst.address, g.value.values, r.descs[k]), r.descs[k])
                <==> KeepsOperand(inst.address, inst.operands[k], r.descs[k]))
  {
    hide OperandBits.ArmGather, OperandBits.Covered, OperandBits.DistinctDst, EncodeOperand, DecodeOperand, SameOperand, KeepsOperand,
         IsAlias, Word, AliasMatches;
    PackedReadsBack(r, inst);
    var values := OperandBits.ArmGather(r.pieces, Word(r, inst)).value.values;
    FieldCarried(r, inst, k);
    LsbCarried(r, inst, k);
    OperandBack(inst, values, inst.operands[k], r.descs[k]);
  }

  lemma FieldCarried(r: EncodeRecord, inst: Inst, k: nat)
    requires ValidInst(inst) && Packs(r, inst) && HasPiece(r, k) && k < |r.descs| <= MAX_OPERANDS
    ensures EncodeOperand(inst, inst.operands[k], r.descs[k]) == Some(Fields(r, inst)[k])
  {
    hide EncodeOperand, AliasMatches;
  }

  lemma LsbCarried(r: EncodeRecord, inst: Inst, k: nat)
    requires ValidInst(inst) && Packs(r, inst) && HasPiece(r, k) && k < |r.descs| <= MAX_OPERANDS && LsbWired(r)
    ensures var d := r.descs[k];
            d.kind.KindImm? && d.transform.BfInvMaskWidth? ==>
              d.aliasBase < MAX_OPERANDS && LsbOperand(inst.operands, d) == Some(And(Fields(r, inst)[d.aliasBase], 0x1f))
  {
    var d := r.descs[k];
    if d.kind.KindImm? && d.transform.BfInvMaskWidth? {
      FieldCarried(r, inst, k);
      FieldCarried(r, inst, d.aliasBase);
      var lsb := inst.operands[d.aliasBase].imm;
      assert Pow2(5) == 32;
      hide And, AndNot, Pow2, Low, Fields, AliasMatches, Shl;
      assert BitFieldWidth(inst.operands[k].imm, Some(lsb), d.sourceMask).Some?;
      AndOnes(lsb, 5);
      LowSmall(lsb, 5);
    }
  }
}
