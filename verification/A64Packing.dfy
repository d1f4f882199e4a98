/** AArch64 bitfield encoding of whole instructions, and the round trip through the decoder. */
module A64Packing {
  import opened Bits
  import opened Wrappers
  import opened Operands
  import opened A64Immediates
  import opened A64Registers
  import opened A64PcRel
  import opened PcRelative
  import opened A64Records
  import opened Features
  import opened ByteOrder
  import A64RegisterTable
  import Immediates
  import LogicalImm
  import OperandBits

  datatype EncodeRecord = EncodeRecord(
    id: nat,
    mnemonic: nat,
    value: u32,
    uniqueSignature: bool,
    isDefault: bool,
    guard: Guard,
    descs: seq<OperandDesc>,
    pieces: seq<OperandBits.Piece>,
    features: Words)

  datatype Inst = Inst(id: nat, mnemonic: nat, address: u64, operands: seq<Operand>)

  predicate IsI64(x: int) {
    -0x8000_0000_0000_0000 <= x < 0x8000_0000_0000_0000
  }

  /** The operand fields have their C types. */
  predicate ValidInst(inst: Inst) {
    forall k :: 0 <= k < |inst.operands| ==> IsI64(inst.operands[k].imm)
  }

  // ---- one operand

  /** `a64_bf_opaque_value`. */
  function EncodeOpaque(o: Operand, d: OperandDesc): Option<u32>
    requires IsI64(o.imm)
  {
    if o.kind != OpOpaque then None
    else if d.width != 0 && o.width != 0 && o.width != d.width then None
    else if d.sourceMask == 0 && d.width != 0 then
      if o.imm != d.literal then None else Some(d.literal)
    else Immediates.RawUnsigned(o.imm, d.sourceMask)
  }

  function TargetOperand(o: Operand): Target {
    Target(o.imm, o.absTarget, o.width)
  }

  /** `a64_bf_operand_value`. */
  function EncodeOperand(address: u64, o: Operand, d: OperandDesc): Option<u32>
    requires IsI64(o.imm)
  {
    match d.kind
    case KindReg => EncodeReg(o, d)
    case KindImm => if o.kind != OpImm then None else EncodeImm(o.imm, d)
    case KindOpaque => EncodeOpaque(o, d)
    case KindPcRel => if o.kind != OpPcRel then None else EncodePcRel(address, TargetOperand(o), d)
    case KindOther => None
  }

  // ---- one record

  function PackedValues(inst: Inst, descs: seq<OperandDesc>): Option<OperandBits.Values>
    requires ValidInst(inst)
  {
    if descs == [] then Some(OperandBits.ZERO_VALUES)
    else
      var n := |descs| - 1;
      var before, d := PackedValues(inst, descs[..n]), descs[n];
      if before.None? || d.operandIndex >= |inst.operands| || d.operandIndex >= MAX_OPERANDS then None
      else
        var v := EncodeOperand(inst.address, inst.operands[d.operandIndex], d);
        if v.None? then None else Some(before.value[d.operandIndex := v.value])
  }

  predicate IsOpaque(d: OperandDesc) {
    d.kind.KindOpaque? && d.operandIndex < MAX_OPERANDS
  }

  /** The operand that the PSTATE guard looks at: the first opaque one. */
  function GuardOperand(descs: seq<OperandDesc>): (k: Option<nat>)
    ensures k.None? <==> forall i :: 0 <= i < |descs| ==> !IsOpaque(descs[i])
    ensures k.Some? ==> k.value < MAX_OPERANDS && exists i ::
              && 0 <= i < |descs| && IsOpaque(descs[i]) && descs[i].operandIndex == k.value
              && forall j :: 0 <= j < i ==> !IsOpaque(descs[j])
  {
    if descs == [] then None
    else if IsOpaque(descs[0]) then Some(descs[0].operandIndex)
    else GuardOperand(descs[1..])
  }

  ghost predicate ListedLiteral(table: seq<PstateLiteral>, guard: Guard, encoding: nat) {
    exists i :: 0 <= i < |table| && table[i].guard == guard && table[i].encoding == encoding
  }

  ghost predicate GuardHolds(engine: Config, table: seq<PstateLiteral>, r: EncodeRecord, values: OperandBits.Values) {
    || r.guard.Unguarded?
    || (!r.guard.UnknownGuard?
        && GuardOperand(r.descs).Some?
        && LiteralMatch(engine, table, r.guard, values[GuardOperand(r.descs).value]))
  }

  datatype PackResult = Packed(word: u32) | Refused(featureMismatch: bool)

  ghost function Pack(table: seq<PstateLiteral>, engine: Config, r: EncodeRecord, inst: Inst): PackResult
    requires ValidInst(inst) && OperandBits.InRange(r.pieces)
  {
    if |inst.operands| != |r.descs| || |r.descs| > MAX_OPERANDS then Refused(false)
    else
      var values := PackedValues(inst, r.descs);
      if values.None? then Refused(false)
      else if !GuardHolds(engine, table, r, values.value) then
        Refused(!r.guard.UnknownGuard? && GuardOperand(r.descs).Some?
                && ListedLiteral(table, r.guard, values.value[GuardOperand(r.descs).value]))
      else
        ScatterIsWord(r.value, r.pieces, values.value);
        Packed(OperandBits.Scatter(r.value, r.pieces, values.value))
  }

  lemma ScatterIsWord(value: u32, pieces: seq<OperandBits.Piece>, values: OperandBits.Values)
    requires OperandBits.InRange(pieces)
    ensures OperandBits.Scatter(value, pieces, values) < U32
  {
    hide Bit, OperandBits.Scatter, Pow2;
    var word := OperandBits.Scatter(value, pieces, values);
    WordSizes();
    forall i: nat | i >= 32 ensures !Bit(word, i) {
      OperandBits.BitOfScatter(value, pieces, values, i);
      BitAbove(value, 32, i);
    }
    BelowPow2(word, 32);
  }

  /** `a64_bf_pstate_literal_match`. */
  method PstateLiteralLoop(engine: Config, table: seq<PstateLiteral>, guard: Guard, encoding: nat)
    returns (ok: bool, featureMismatch: bool)
    ensures ok <==> LiteralMatch(engine, table, guard, encoding)
    ensures !ok ==> (featureMismatch <==> ListedLiteral(table, guard, encoding))
  {
    hide Supports;
    featureMismatch := false;
    var i := 0;
    while i < |table|
      invariant 0 <= i <= |table|
      invariant forall j :: 0 <= j < i ==>
        !(table[j].guard == guard && table[j].encoding == encoding && Supports(engine, table[j].features))
      invariant featureMismatch <==> exists j :: 0 <= j < i && table[j].guard == guard && table[j].encoding == encoding
    {
      if table[i].guard == guard && table[i].encoding == encoding {
        var supported := SupportsLoop(engine, table[i].features);
        if supported {
          return true, featureMismatch;
        }
        featureMismatch := true;
      }
      i := i + 1;
    }
    return false, featureMismatch;
  }

  /** `a64_bf_record_predicate_match`. */
  method GuardLoop(engine: Config, table: seq<PstateLiteral>, r: EncodeRecord, values: OperandBits.Values)
    returns (ok: bool, featureMismatch: bool)
    ensures ok <==> GuardHolds(engine, table, r, values)
    ensures !ok ==> (featureMismatch <==> !r.guard.UnknownGuard? && GuardOperand(r.descs).Some?
                                          && ListedLiteral(table, r.guard, values[GuardOperand(r.descs).value]))
  {
    hide LiteralMatch, ListedLiteral;
    if r.guard.Unguarded? {
      return true, false;
    }
    var i := 0;
    while i < |r.descs|
      invariant 0 <= i <= |r.descs|
      invariant r.guard.UnknownGuard? || GuardOperand(r.descs) == GuardOperand(r.descs[i..])
    {
      var desc := r.descs[i];
      if IsOpaque(desc) && !r.guard.UnknownGuard? {
        ok, featureMismatch := PstateLiteralLoop(engine, table, r.guard, values[desc.operandIndex]);
        return;
      }
      assert r.descs[i..][1..] == r.descs[i + 1..];
      i := i + 1;
    }
    return false, false;
  }

  /** `a64_bf_pack_record`. */
  method PackRecord(table: seq<PstateLiteral>, engine: Config, r: EncodeRecord, inst: Inst)
    returns (result: PackResult)
    requires ValidInst(inst) && OperandBits.InRange(r.pieces)
    ensures result == Pack(table, engine, r, inst)
  {
    hide EncodeOperand, GuardHolds, OperandBits.Scatter, ListedLiteral, OperandBits.InRange, GuardOperand;
    if |inst.operands| != |r.descs| || |r.descs| > MAX_OPERANDS {
      return Refused(false);
    }
    var values := new nat[MAX_OPERANDS];
    var i := 0;
    while i < MAX_OPERANDS
      invariant 0 <= i <= MAX_OPERANDS
      invariant forall j :: 0 <= j < i ==> values[j] == 0
    {
      values[i] := 0;
      i := i + 1;
    }
    assert values[..] == OperandBits.ZERO_VALUES;
    i := 0;
    while i < |r.descs|
      invariant 0 <= i <= |r.descs|
      invariant PackedValues(inst, r.descs[..i]) == Some(values[..])
    {
      var desc := r.descs[i];
      assert r.descs[..i + 1][..i] == r.descs[..i];
      if desc.operandIndex >= |r.descs| {
        PackFails(inst, r.descs, i + 1);
        return Refused(false);
      }
      var v := EncodeOperand(inst.address, inst.operands[desc.operandIndex], desc);
      if v.None? {
        PackFails(inst, r.descs, i + 1);
        return Refused(false);
      }
      values[desc.operandIndex] := v.value;
      i := i + 1;
    }
    assert r.descs[..i] == r.descs;
    var ok, featureMismatch := GuardLoop(engine, table, r, values[..]);
    if !ok {
      return Refused(featureMismatch);
    }
    var word := OperandBits.ScatterLoop(r.value, r.pieces, values[..]);
    ScatterIsWord(r.value, r.pieces, values[..]);
    return Packed(word);
  }

  lemma {:induction false} PackFails(inst: Inst, descs: seq<OperandDesc>, i: nat)
    requires ValidInst(inst) && i <= |descs| && PackedValues(inst, descs[..i]).None?
    ensures PackedValues(inst, descs).None?
    decreases |descs|
  {
    hide EncodeOperand;
    if i == |descs| {
      assert descs[..i] == descs;
    } else {
      var n := |descs| - 1;
      assert descs[..n][..i] == descs[..i];
      PackFails(inst, descs[..n], i);
    }
  }

  // ---- the search for a record

  /** `a64_bf_record_identity_matches`. */
  predicate SameIdentity(r: EncodeRecord, inst: Inst) {
    inst.id == r.id || (inst.id == 0 && (r.uniqueSignature || r.isDefault) && inst.mnemonic == r.mnemonic)
  }

  datatype Status = Ok | UnsupportedInstruction | UnsupportedFeature | OutputTooSmall

  ghost predicate Encodable(table: seq<PstateLiteral>, engine: Config, r: EncodeRecord, inst: Inst)
    requires ValidInst(inst) && OperandBits.InRange(r.pieces)
  {
    SameIdentity(r, inst) && Supports(engine, r.features) && Pack(table, engine, r, inst).Packed?
  }

  /** The record stands for the instruction, but only a missing feature keeps it from being used. */
  ghost predicate Blocked(table: seq<PstateLiteral>, engine: Config, r: EncodeRecord, inst: Inst)
    requires ValidInst(inst) && OperandBits.InRange(r.pieces)
  {
    SameIdentity(r, inst)
    && (!Supports(engine, r.features) || Pack(table, engine, r, inst) == Refused(true))
  }

  ghost predicate Considered(table: seq<PstateLiteral>, engine: Config, r: EncodeRecord, inst: Inst)
    requires ValidInst(inst) && OperandBits.InRange(r.pieces)
  {
    SameIdentity(r, inst) && !Blocked(table, engine, r, inst)
  }

  /** Every described operand is there and accepted. */
  predicate OperandsEncode(inst: Inst, descs: seq<OperandDesc>)
    requires ValidInst(inst)
  {
    forall k :: 0 <= k < |descs| ==>
      && descs[k].operandIndex < |inst.operands| && descs[k].operandIndex < MAX_OPERANDS
      && EncodeOperand(inst.address, inst.operands[descs[k].operandIndex], descs[k]).Some?
  }

  lemma {:induction false} ValuesExist(inst: Inst, descs: seq<OperandDesc>)
    requires ValidInst(inst)
    ensures PackedValues(inst, descs).Some? <==> OperandsEncode(inst, descs)
    decreases |descs|
  {
    hide EncodeOperand;
    if descs != [] {
      var n := |descs| - 1;
      ValuesExist(inst, descs[..n]);
      assert forall k :: 0 <= k < n ==> descs[..n][k] == descs[k];
    }
  }

  /** Which instructions a record can be used for: its own, or those without an id that have its mnemonic when it is the
      default or has the only signature; with its features on, with as many operands, all of them accepted, and a PSTATE
      field that an enabled literal names when it is guarded. */
  lemma EncodableMeaning(table: seq<PstateLiteral>, engine: Config, r: EncodeRecord, inst: Inst)
    requires ValidInst(inst) && OperandBits.InRange(r.pieces)
    ensures Encodable(table, engine, r, inst) <==>
            && (inst.id == r.id || (inst.id == 0 && inst.mnemonic == r.mnemonic && (r.isDefault || r.uniqueSignature)))
            && Ids(r.features) <= Enabled(engine)
            && |inst.operands| == |r.descs| <= MAX_OPERANDS
            && OperandsEncode(inst, r.descs)
            && (!r.guard.Unguarded? ==>
                  && !r.guard.UnknownGuard?
                  && GuardOperand(r.descs).Some? && PackedValues(inst, r.descs).Some?
                  && exists i :: 0 <= i < |table|
                       && table[i].guard == r.guard
                       && table[i].encoding == PackedValues(inst, r.descs).value[GuardOperand(r.descs).value]
                       && Ids(table[i].features) <= Enabled(engine))
  {
    hide EncodeOperand, GuardOperand, OperandBits.Scatter, PackedValues, OperandsEncode, Supports, Ids, Enabled,
         OperandBits.InRange;
    ValuesExist(inst, r.descs);
    SupportsIsInclusion(engine, r.features);
    forall i | 0 <= i < |table| { SupportsIsInclusion(engine, table[i].features); }
  }

  predicate PiecesInRange(records: seq<EncodeRecord>) {
    forall i :: 0 <= i < |records| ==> OperandBits.InRange(records[i].pieces)
  }

  /** `asmkit_gen_aarch64_encode_bitfield`: the first record that stands for the instruction, has
      its features, and packs is used; `used` is its position. */
  method EncodeBitfield(table: seq<PstateLiteral>, engine: Config, records: seq<EncodeRecord>,
                        inst: Inst, code: array<u8>)
    returns (status: Status, size: nat, used: nat)
    requires ValidInst(inst) && PiecesInRange(records)
    modifies code
    ensures status == Ok || status == OutputTooSmall ==>
              && size == 4
              && used < |records|
              && Encodable(table, engine, records[used], inst)
              && forall i :: 0 <= i < used ==> !Encodable(table, engine, records[i], inst)
    ensures status == Ok ==>
              code.Length >= 4 && code[..] == Bytes32(Pack(table, engine, records[used], inst).word) + old(code[4..])
    ensures status == OutputTooSmall ==> code.Length < 4
    ensures status == UnsupportedInstruction || status == UnsupportedFeature ==>
              inst.operands == [] || forall i :: 0 <= i < |records| ==> !Encodable(table, engine, records[i], inst)
    ensures status == UnsupportedFeature <==>
              && inst.operands != []
              && (exists i :: 0 <= i < |records| && Blocked(table, engine, records[i], inst))
              && (forall i :: 0 <= i < |records| ==> !Considered(table, engine, records[i], inst))
    ensures status != Ok ==> code[..] == old(code[..])
  {
    hide Pack, Supports, SameIdentity, OperandBits.InRange, Bytes32;
    size, used := 0, 0;
    if |inst.operands| == 0 {
      return UnsupportedInstruction, 0, 0;
    }
    var sawBlocked, sawMatched := false, false;
    var i := 0;
    while i < |records|
      invariant 0 <= i <= |records|
      invariant sawBlocked <==> exists j :: 0 <= j < i && Blocked(table, engine, records[j], inst)
      invariant sawMatched <==> exists j :: 0 <= j < i && Considered(table, engine, records[j], inst)
      invariant forall j :: 0 <= j < i ==> !Encodable(table, engine, records[j], inst)
      invariant code[..] == old(code[..])
    {
      var r := records[i];
      if SameIdentity(r, inst) {
        var supported := SupportsLoop(engine, r.features);
        if !supported {
          sawBlocked := true;
          assert Blocked(table, engine, records[i], inst);
        } else {
          var packed := PackRecord(table, engine, r, inst);
          if packed.Refused? {
            if packed.featureMismatch {
              sawBlocked := true;
              assert Blocked(table, engine, records[i], inst);
            } else {
              sawMatched := true;
              assert Considered(table, engine, records[i], inst);
            }
          } else {
            assert Considered(table, engine, records[i], inst);
            if code.Length < 4 {
              return OutputTooSmall, 4, i;
            }
            Store32(code, 0, packed.word);
            return Ok, 4, i;
          }
        }
      }
      i := i + 1;
    }
    return if sawBlocked && !sawMatched then UnsupportedFeature else UnsupportedInstruction, 0, 0;
  }

  // ---- the encoded operand is the decoded operand

  /** The descriptors for which the two directions are meant to agree. */
  ghost predicate DescFits(d: OperandDesc) {
    && (d.kind.KindReg? ==> ClassFits(d))
    && (d.kind.KindImm? ==> LiteralIsPlain(d) && exists k: nat :: NarrowLiteral(d, k))
    && (d.kind.KindPcRel? ==> d.sourceMask != 0)
  }

  /** The decoded operand `back` means what the encoded operand `o` meant. */
  predicate SameOperand(address: u64, o: Operand, back: Operand, d: OperandDesc) {
    match d.kind
    case KindReg => SameRegister(o, back) && SameFlags(o, back)
    case KindImm => back.kind == OpImm && back.imm == o.imm && SameModifiers(o, back) && OpenOr(o.width, back.width)
    case KindOpaque => back.kind == OpOpaque && back.imm == o.imm && SameModifiers(o, back) && OpenOr(o.width, back.width)
    case KindPcRel =>
      && back.kind == OpPcRel && SameModifiers(o, back) && OpenOr(o.width, back.width)
      && back.absTarget == TargetOf(address, TargetOperand(o))
    case KindOther => false
  }

  /** The accepted operands that come back: registers that are named as the field reads them, numbers without
      modifiers, not negative in a 32-bit logical field, and targets that the field can express. */
  predicate KeepsOperand(address: u64, o: Operand, d: OperandDesc) {
    match d.kind
    case KindReg => KeepsRegister(o, d) && KeepsFlags(o, d)
    case KindImm => IsBare(o, d.width) && (IsWordLogical(d) ==> 0 <= o.imm < U32)
    case KindOpaque => IsBare(o, d.width)
    case KindPcRel => IsBare(o, PcRelWidth(d)) && (d.transform.PcRelAdrp? ==> TargetOf(address, TargetOperand(o)) % PAGE == 0)
    case KindOther => true
  }

  /** Every operand that the encoder accepts decodes, to one that means the same exactly when `KeepsOperand` holds. */
  lemma OperandRoundTrip(address: u64, o: Operand, d: OperandDesc)
    requires DescFits(d) && IsI64(o.imm) && EncodeOperand(address, o, d).Some?
    ensures var back := DecodeOperand(address, EncodeOperand(address, o, d).value, d);
            back.Some? && (SameOperand(address, o, back.value, d) <==> KeepsOperand(address, o, d))
  {
    hide SameRegister, SameFlags, KeepsRegister, KeepsFlags, EncodeReg, DecodeReg, EncodeImm, DecodeImm, EncodePcRel, DecodePcRel,
         NarrowLiteral, TargetOf, PcRelWidth;
    match d.kind
    case KindReg => RegRoundTrip(o, d);
    case KindImm =>
      var k: nat :| NarrowLiteral(d, k);
      ImmRoundTrip(o.imm, d, k);
    case KindOpaque =>
    case KindPcRel =>
      PcRelRoundTrip(address, TargetOperand(o), d);
      PcRelExact(address, TargetOperand(o), d);
  }

  /** The immediate 5 with a shift beside it is accepted, and read back without the shift. */
  lemma StrayCounterexample(address: u64, o: Operand, d: OperandDesc)
    requires d.kind.KindImm? && d.transform.RawUnsignedField? && d.sourceMask == 0x1f
    requires o == ImmOperand(5, d.width).(shiftKind := 1, shiftAmount := 3)
    ensures EncodeOperand(address, o, d) == Some(5)
    ensures DecodeOperand(address, EncodeOperand(address, o, d).value, d) == Some(ImmOperand(5, d.width))
    ensures !SameOperand(address, o, ImmOperand(5, d.width), d)
  {
    hide AndNot;
    InFive(o.imm);
  }

  /** A field value stays inside the source mask, unless it is the descriptor's literal. */
  lemma EncodedWithin(address: u64, o: Operand, d: OperandDesc)
    requires IsI64(o.imm) && EncodeOperand(address, o, d).Some?
    ensures var v := EncodeOperand(address, o, d).value;
            if IsLiteral(d) then v == d.literal else AndNot(v, d.sourceMask) == 0
  {
    hide AndNot, And, Or, Shl, EncodeImm, EncodePcRel, EncodeReg;
    match d.kind
    case KindReg => RegWithin(o, d);
    case KindImm => ImmWithin(o.imm, d);
    case KindOpaque =>
    case KindPcRel => PcRelWithin(address, TargetOperand(o), d);
  }

  lemma PcRelWithin(address: u64, target: Target, d: OperandDesc)
    requires EncodePcRel(address, target, d).Some?
    ensures AndNot(EncodePcRel(address, target, d).value, d.sourceMask) == 0
  {
    hide AndNot, Immediates.RawSigned;
  }

  lemma RegWithin(o: Operand, d: OperandDesc)
    requires EncodeReg(o, d).Some?
    ensures AndNot(EncodeReg(o, d).value, d.sourceMask) == 0
  {
    NothingOutside(d.sourceMask);
    hide AndNot, And, Or, Shl, RegEncoding, GprAnyWidth, A64RegisterTable.Lookup;
  }

  lemma NothingOutside(mask: nat)
    ensures AndNot(0, mask) == 0
  {
  }

  lemma ImmWithin(imm: i64, d: OperandDesc)
    requires EncodeImm(imm, d).Some?
    ensures var v := EncodeImm(imm, d).value;
            if d.sourceMask == 0 && d.literal != 0 then v == d.literal else AndNot(v, d.sourceMask) == 0
  {
    hide AndNot, And, Immediates.RawSigned, LogicalImm.LogicalImmEncoding;
    if d.transform.LogicalImm32? || d.transform.LogicalImm64? {
      LogicalImm.EncoderMeaning(imm, d.width, d.sourceMask);
    }
    if d.transform.FixedPointScale? && imm <= d.literal {
      MaskedWithin(d.literal - imm, d.sourceMask);
    }
  }

  lemma MaskedWithin(v: nat, mask: nat)
    ensures AndNot(And(v, mask), mask) == 0
  {
    AndBits(v, mask);
    AndNotBits(And(v, mask), mask);
    forall i: nat ensures Bit(AndNot(And(v, mask), mask), i) == Bit(0, i) { BitZero(i); }
    SameBits(AndNot(And(v, mask), mask), 0);
  }

  // ---- the packed word is the decoded word

  /** Descriptor `k` belongs to operand `k`, and its source mask is what the pieces carry of it. */
  ghost predicate Wired(descs: seq<OperandDesc>, pieces: seq<OperandBits.Piece>) {
    && |descs| <= MAX_OPERANDS
    && (forall k :: 0 <= k < |descs| ==> descs[k].operandIndex == k && DescFits(descs[k]))
    && (forall k: nat, i: nat :: k < |descs| ==> (OperandBits.IsSrc(pieces, k, i) <==> Bit(descs[k].sourceMask, i)))
    && (forall k: nat, i: nat :: |descs| <= k < MAX_OPERANDS ==> !OperandBits.IsSrc(pieces, k, i))
  }

  /** The encode record and the decode record describe the same instruction; the encode record may
      fix bits that the decode record leaves open. */
  ghost predicate Mirrors(e: EncodeRecord, r: Record) {
    && e.descs == r.descs && e.pieces == r.pieces && e.guard == r.guard && e.features == r.features
    && OperandBits.LeavesRoom(e.value, e.pieces)
    && OperandBits.LeavesRoom(r.pattern.mask, r.pieces)
    && And(e.value, r.pattern.mask) == r.pattern.value
    && Wired(e.descs, e.pieces)
  }

  /** What `PackedValues` holds after `n` descriptors. */
  lemma {:induction false} PackedPrefix(inst: Inst, descs: seq<OperandDesc>, n: nat)
    requires ValidInst(inst) && n <= |descs| <= MAX_OPERANDS
    requires forall k :: 0 <= k < |descs| ==> descs[k].operandIndex == k
    requires PackedValues(inst, descs[..n]).Some?
    ensures n <= |inst.operands|
    ensures var values := PackedValues(inst, descs[..n]).value;
            && (forall k :: 0 <= k < n ==> EncodeOperand(inst.address, inst.operands[k], descs[k]) == Some(values[k]))
            && (forall k :: n <= k < MAX_OPERANDS ==> values[k] == 0)
    decreases n
  {
    hide EncodeOperand;
    if n > 0 {
      assert descs[..n][..n - 1] == descs[..n - 1];
      PackedPrefix(inst, descs, n - 1);
    }
  }

  lemma PackedEach(inst: Inst, descs: seq<OperandDesc>)
    requires ValidInst(inst) && |descs| <= MAX_OPERANDS
    requires forall k :: 0 <= k < |descs| ==> descs[k].operandIndex == k
    requires PackedValues(inst, descs).Some?
    ensures |descs| <= |inst.operands|
    ensures var values := PackedValues(inst, descs).value;
            && (forall k :: 0 <= k < |descs| ==> EncodeOperand(inst.address, inst.operands[k], descs[k]) == Some(values[k]))
            && (forall k :: |descs| <= k < MAX_OPERANDS ==> values[k] == 0)
  {
    assert descs[..|descs|] == descs;
    PackedPrefix(inst, descs, |descs|);
  }

  /** What the literals overwrite. */
  lemma {:induction false} LiteralsEach(values: OperandBits.Values, descs: seq<OperandDesc>, n: nat)
    requires n <= |descs| <= MAX_OPERANDS
    requires forall k :: 0 <= k < |descs| ==> descs[k].operandIndex == k
    ensures WithLiterals(values, descs[..n]).Some?
    ensures var out := WithLiterals(values, descs[..n]).value;
            forall k :: 0 <= k < MAX_OPERANDS ==>
              out[k] == if k < n && IsLiteral(descs[k]) then descs[k].literal else values[k]
    decreases n
  {
    if n > 0 {
      assert descs[..n][..n - 1] == descs[..n - 1];
      LiteralsEach(values, descs, n - 1);
    }
  }

  /** The decoder reads back every operand value that was packed. */
  lemma ValuesReadBack(e: EncodeRecord, r: Record, inst: Inst, word: u32)
    requires ValidInst(inst) && Mirrors(e, r) && PackedValues(inst, e.descs).Some?
    requires word == OperandBits.Scatter(e.value, e.pieces, PackedValues(inst, e.descs).value)
    ensures OperandValues(r, word) == PackedValues(inst, e.descs)
  {
    hide EncodeOperand, OperandBits.Gather, OperandBits.Scatter, WithLiterals, PackedValues, Bit, AndNot, IsLiteral, DescFits;
    var values := PackedValues(inst, e.descs).value;
    var gathered := OperandBits.Gather(r.pieces, word);
    PackedEach(inst, e.descs);
    assert r.descs[..|r.descs|] == r.descs;
    LiteralsEach(gathered, r.descs, |r.descs|);
    var out := OperandValues(r, word).value;
    forall k: nat | k < MAX_OPERANDS ensures out[k] == values[k] {
      if k < |e.descs| {
        EncodedWithin(inst.address, inst.operands[k], e.descs[k]);
        if !IsLiteral(e.descs[k]) { GatheredOperand(e, values, k); }
      } else {
        NothingGathered(e, values, k);
      }
    }
    assert out == values;
  }

  lemma GatheredOperand(e: EncodeRecord, values: OperandBits.Values, k: nat)
    requires OperandBits.LeavesRoom(e.value, e.pieces) && Wired(e.descs, e.pieces)
    requires k < |e.descs| && AndNot(values[k], e.descs[k].sourceMask) == 0
    ensures OperandBits.Gather(e.pieces, OperandBits.Scatter(e.value, e.pieces, values))[k] == values[k]
  {
    hide OperandBits.Gather, OperandBits.Scatter, Bit, AndNot, OperandBits.IsSrc, OperandBits.IsDst, DescFits;
    Within(values[k], e.descs[k].sourceMask);
    var back := OperandBits.Gather(e.pieces, OperandBits.Scatter(e.value, e.pieces, values))[k];
    forall i: nat ensures Bit(back, i) == Bit(values[k], i) {
      OperandBits.GatherPacked(e.value, e.pieces, values, k, i);
      OperandBits.ValueInMask(e.descs[k].sourceMask, values[k], i);
    }
    SameBits(back, values[k]);
  }

  lemma NothingGathered(e: EncodeRecord, values: OperandBits.Values, k: nat)
    requires OperandBits.LeavesRoom(e.value, e.pieces) && Wired(e.descs, e.pieces) && |e.descs| <= k < MAX_OPERANDS
    ensures OperandBits.Gather(e.pieces, OperandBits.Scatter(e.value, e.pieces, values))[k] == 0
  {
    hide OperandBits.Gather, OperandBits.Scatter, Bit, OperandBits.IsSrc, OperandBits.IsDst, DescFits;
    var back := OperandBits.Gather(e.pieces, OperandBits.Scatter(e.value, e.pieces, values))[k];
    forall i: nat ensures Bit(back, i) == Bit(0, i) {
      OperandBits.GatherPacked(e.value, e.pieces, values, k, i);
      BitZero(i);
    }
    SameBits(back, 0);
  }

  /** The packed word has the decode record's fixed bits. */
  lemma PackedMatches(e: EncodeRecord, r: Record, values: OperandBits.Values)
    requires Mirrors(e, r)
    ensures And(OperandBits.Scatter(e.value, e.pieces, values), r.pattern.mask) == r.pattern.value
  {
    hide OperandBits.Scatter, Bit, And, Wired;
    var word, mask := OperandBits.Scatter(e.value, e.pieces, values), r.pattern.mask;
    forall i: nat ensures Bit(And(word, mask), i) == Bit(And(e.value, mask), i) {
      BitAnd(word, mask, i);
      BitAnd(e.value, mask, i);
      OperandBits.BitOfScatter(e.value, e.pieces, values, i);
      if Bit(mask, i) { assert !OperandBits.IsDst(e.pieces, i); }
    }
    SameBits(And(word, mask), And(e.value, mask));
  }

  /** What `OperandsFrom` stores when descriptor `k` belongs to operand `k`. */
  lemma {:induction false} StoredEach(address: u64, values: OperandBits.Values, descs: seq<OperandDesc>,
                                      operands: seq<Operand>, n: nat)
    requires AllWords(values) && |operands| == MAX_OPERANDS && n <= |descs| <= MAX_OPERANDS
    requires forall k :: 0 <= k < |descs| ==> descs[k].operandIndex == k
    requires forall k :: 0 <= k < n ==> DecodeOperand(address, values[k], descs[k]).Some?
    ensures OperandsFrom(address, values, descs[..n], operands).Some?
    ensures var out := OperandsFrom(address, values, descs[..n], operands).value;
            forall k :: 0 <= k < n ==> DecodeOperand(address, values[k], descs[k]) == Some(out[k])
    decreases n
  {
    hide DecodeOperand;
    if n > 0 {
      assert descs[..n][..n - 1] == descs[..n - 1];
      StoredEach(address, values, descs, operands, n - 1);
    }
  }

  /** A packed instruction belongs to its decode record and decodes, at the same address; each operand means the
      same exactly when `KeepsOperand` holds. */
  lemma PackRoundTrip(table: seq<PstateLiteral>, engine: Config, e: EncodeRecord, r: Record, inst: Inst,
                      operands: seq<Operand>)
    requires ValidInst(inst) && Mirrors(e, r) && |operands| == MAX_OPERANDS
    requires Pack(table, engine, e, inst).Packed?
    ensures var word := Pack(table, engine, e, inst).word;
            var back := DecodeOperands(r, word, inst.address, operands);
            && And(word, r.pattern.mask) == r.pattern.value
            && OperandsMatch(r, word)
            && back.Some?
            && |back.value| == MAX_OPERANDS
            && |e.descs| == |inst.operands| <= MAX_OPERANDS
            && forall k :: 0 <= k < |e.descs| ==>
                 (SameOperand(inst.address, inst.operands[k], back.value[k], e.descs[k])
                  <==> KeepsOperand(inst.address, inst.operands[k], e.descs[k]))
  {
    hide EncodeOperand, DecodeOperand, SameOperand, KeepsOperand, OperandBits.Gather, OperandBits.Scatter, WithLiterals, PackedValues,
         OperandsFrom, OperandValues, DescFits, OperandFits, GuardHolds, And, Bit;
    var word := Pack(table, engine, e, inst).word;
    var values := PackedValues(inst, e.descs).value;
    PackedMatches(e, r, values);
    ValuesReadBack(e, r, inst, word);
    ValuesAreWords(r, word);
    PackedEach(inst, e.descs);
    forall k | 0 <= k < |e.descs|
      ensures var back := DecodeOperand(inst.address, values[k], e.descs[k]);
              && back.Some?
              && (SameOperand(inst.address, inst.operands[k], back.value, e.descs[k])
                  <==> KeepsOperand(inst.address, inst.operands[k], e.descs[k]))
      ensures OperandFits(values[k], e.descs[k])
    {
      OperandRoundTrip(inst.address, inst.operands[k], e.descs[k]);
      DecodedFits(inst.address, values[k], e.descs[k]);
    }
    assert r.descs[..|r.descs|] == r.descs;
    StoredEach(inst.address, values, r.descs, operands, |r.descs|);
  }

  lemma DecodedFits(address: u64, value: u32, d: OperandDesc)
    requires DecodeOperand(address, value, d).Some?
    ensures OperandFits(value, d)
  {
    hide DecodeReg, DecodeImm;
  }

  /** The guarded records read the PSTATE field from the bits that their opaque operand is packed
      into, and the literal table holds no field that the decoder calls invalid. */
  ghost predicate GuardWired(r: Record, table: seq<PstateLiteral>) {
    !r.guard.Unguarded? ==>
      var k := GuardOperand(r.descs);
      && k.Some?
      && (forall word: u32 :: OperandValues(r, word).Some? ==> OperandValues(r, word).value[k.value] == GuardField(r.guard, word))
      && (forall word: u32 :: ListedLiteral(table, r.guard, GuardField(r.guard, word)) ==> !InvalidPstate(word))
  }

  /** The guards of the encoder and the decoder agree on packed words. */
  lemma GuardsAgree(table: seq<PstateLiteral>, engine: Config, e: EncodeRecord, r: Record, inst: Inst)
    requires ValidInst(inst) && Mirrors(e, r) && GuardWired(r, table)
    requires Pack(table, engine, e, inst).Packed?
    ensures GuardMatch(engine, table, r, Pack(table, engine, e, inst).word)
  {
    hide PackedValues, OperandValues, OperandBits.Scatter, GuardField, GuardOperand, InvalidPstate, Supports, Wired,
         OperandBits.IsDst, And;
    var word := Pack(table, engine, e, inst).word;
    ValuesReadBack(e, r, inst, word);
  }
}
