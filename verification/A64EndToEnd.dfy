/** AArch64: from an encoded instruction, through memory and the record lookup, to decoded operands. */
module A64EndToEnd {
  import opened Bits
  import opened Operands
  import opened ByteOrder
  import opened Features
  import opened A64Records
  import opened A64Packing
  import opened A64Lookup

  /** The encode record has a decode record `j` that mirrors it. */
  ghost predicate HasMirror(t: Tables, e: EncodeRecord, j: nat) {
    j < |t.records| && Mirrors(e, t.records[j]) && GuardWired(t.records[j], t.pstates)
  }

  /** Record `j` accepts the packed word on an engine with the encoder's features. */
  lemma PackedIsAccepted(t: Tables, engine: Config, e: EncodeRecord, j: nat, inst: Inst)
    requires ValidInst(inst) && HasMirror(t, e, j) && Supports(engine, e.features)
    requires Pack(t.pstates, engine, e, inst).Packed?
    ensures Accepts(t, engine, true, t.records[j], Pack(t.pstates, engine, e, inst).word)
  {
    hide Pack, OperandsMatch, GuardMatch, Supports, Wired, SameOperand, KeepsOperand, DecodeOperands, GuardWired;
    var none := seq(MAX_OPERANDS, (k: nat) requires k < MAX_OPERANDS => NONE);
    PackRoundTrip(t.pstates, engine, e, t.records[j], inst, none);
    GuardsAgree(t.pstates, engine, e, t.records[j], inst);
  }

  /** An instruction encoded by `e` and stored in memory is found by the decoder: by the mirroring
      record, with operands that mean the same exactly when `KeepsOperand` holds of them, or by a record that the order
      prefers to it. */
  lemma EncodedIsFound(t: Tables, engine: Config, e: EncodeRecord, j: nat, inst: Inst, operands: seq<Operand>)
    requires ValidTables(t) && ValidInst(inst) && |operands| == MAX_OPERANDS
    requires HasMirror(t, e, j) && Supports(engine, e.features)
    requires Pack(t.pstates, engine, e, inst).Packed?
    ensures var word := Load32(Bytes32(Pack(t.pstates, engine, e, inst).word));
            && word < U32
            && var found := Find(t, engine, word, true);
            && found.Some?
            && found.value < |t.records|
            && (t.records[found.value].fixedBits > t.records[j].fixedBits
                || (t.records[found.value].fixedBits == t.records[j].fixedBits && found.value <= j))
            && (found.value == j ==>
                  var back := DecodeOperands(t.records[j], word, inst.address, operands);
                  && back.Some?
                  && |back.value| == MAX_OPERANDS
                  && |e.descs| == |inst.operands| <= MAX_OPERANDS
                  && forall k :: 0 <= k < |e.descs| ==>
                       (SameOperand(inst.address, inst.operands[k], back.value[k], e.descs[k])
                        <==> KeepsOperand(inst.address, inst.operands[k], e.descs[k])))
  {
    hide Pack, Accepts, Admits, Supports, Wired, GuardWired, SameOperand, KeepsOperand, DecodeOperands, Find, Load32, Bytes32, ValidTables,
         OperandsMatch, And;
    var word := Pack(t.pstates, engine, e, inst).word;
    LoadOfBytes32(word);
    PackedIsAccepted(t, engine, e, j, inst);
    AcceptsIs(t, engine, true, t.records[j], word);
    FindMeaning(t, engine, word, true);
    PackRoundTrip(t.pstates, engine, e, t.records[j], inst, operands);
  }
}
