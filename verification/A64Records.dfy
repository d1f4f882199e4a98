/** AArch64 decode records: from an instruction word to its operand values and operands. */
module A64Records {
  import opened Bits
  import opened Wrappers
  import opened Operands
  import opened A64Immediates
  import opened A64Registers
  import opened A64PcRel
  import opened Features
  import OperandBits
  import DecodeIndex

  const MAX_OPERANDS: nat := 8

  /** The extra condition of the MSR (immediate) records. */
  datatype Guard = Unguarded | PstateImm0To15 | PstateImm0To1 | UnknownGuard

  datatype Record = Record(
    pattern: DecodeIndex.Pattern,
    fixedBits: nat,
    guard: Guard,
    descs: seq<OperandDesc>,
    pieces: seq<OperandBits.Piece>,
    features: Words)

  predicate ShiftsInWord(pieces: seq<OperandBits.Piece>) {
    forall k :: 0 <= k < |pieces| ==> pieces[k].srcBit < 32 && pieces[k].dstBit < 32
  }

  // ---- operand values

  /** The operand's field value is a constant of its descriptor. */
  predicate IsLiteral(d: OperandDesc) {
    || (d.kind.KindOpaque? && d.sourceMask == 0 && d.width != 0)
    || (d.kind.KindImm? && d.sourceMask == 0 && d.literal != 0)
  }

  function WithLiterals(values: OperandBits.Values, descs: seq<OperandDesc>): Option<OperandBits.Values> {
    if descs == [] then Some(values)
    else
      var n := |descs| - 1;
      var before, d := WithLiterals(values, descs[..n]), descs[n];
      if before.None? || d.operandIndex >= MAX_OPERANDS then None
      else if IsLiteral(d) then Some(before.value[d.operandIndex := d.literal])
      else before
  }

  function OperandValues(r: Record, word: u32): Option<OperandBits.Values> {
    if |r.descs| > MAX_OPERANDS || !OperandBits.InRange(r.pieces) then None
    else WithLiterals(OperandBits.Gather(r.pieces, word), r.descs)
  }

  /** `a64_td_operand_values`. */
  method OperandValuesLoop(r: Record, word: u32, values: array<nat>) returns (ok: bool)
    requires values.Length == MAX_OPERANDS && ShiftsInWord(r.pieces)
    modifies values
    ensures ok <==> OperandValues(r, word).Some?
    ensures ok ==> values[..] == OperandValues(r, word).value
  {
    hide OperandBits.Gather;
    if |r.descs| > MAX_OPERANDS {
      return false;
    }
    ok := OperandBits.GatherLoop(r.pieces, word, values);
    if !ok {
      return false;
    }
    ghost var gathered := OperandBits.Gather(r.pieces, word);
    var i := 0;
    while i < |r.descs|
      invariant 0 <= i <= |r.descs|
      invariant WithLiterals(gathered, r.descs[..i]) == Some(values[..])
    {
      var desc := r.descs[i];
      assert r.descs[..i + 1][..i] == r.descs[..i];
      if desc.operandIndex >= MAX_OPERANDS {
        FailsEarly(gathered, r.descs, i + 1);
        return false;
      }
      if IsLiteral(desc) {
        values[desc.operandIndex] := desc.literal;
      }
      i := i + 1;
    }
    assert r.descs[..i] == r.descs;
  }

  lemma {:induction false} FailsEarly(values: OperandBits.Values, descs: seq<OperandDesc>, i: nat)
    requires i <= |descs| && WithLiterals(values, descs[..i]).None?
    ensures WithLiterals(values, descs).None?
    decreases |descs|
  {
    if i == |descs| {
      assert descs[..i] == descs;
    } else {
      var n := |descs| - 1;
      assert descs[..n][..i] == descs[..i];
      FailsEarly(values, descs[..n], i);
    }
  }

  // ---- operands

  function DecodeOperand(address: u64, value: u32, d: OperandDesc): Option<Operand> {
    match d.kind
    case KindReg => DecodeReg(value, d)
    case KindImm =>
      var imm := DecodeImm(value, d);
      if imm.None? then None else Some(ImmOperand(imm.value, d.width))
    case KindOpaque => Some(OpaqueOperand(value, d.width))
    case KindPcRel =>
      var target := DecodePcRel(address, value, d);
      Some(if target.None? then NONE else PcRelOperand(target.value.imm, target.value.absTarget, target.value.width))
    case KindOther => None
  }

  predicate AllWords(values: seq<nat>) {
    forall k :: 0 <= k < |values| ==> values[k] < U32
  }

  /** Storing the operands of `descs` into `operands`. */
  function OperandsFrom(address: u64, values: OperandBits.Values, descs: seq<OperandDesc>,
                        operands: seq<Operand>): (out: Option<seq<Operand>>)
    requires AllWords(values) && |operands| == MAX_OPERANDS
    ensures out.Some? ==> |out.value| == MAX_OPERANDS
  {
    if descs == [] then Some(operands)
    else
      var n := |descs| - 1;
      var before, d := OperandsFrom(address, values, descs[..n], operands), descs[n];
      if before.None? || d.operandIndex >= MAX_OPERANDS then None
      else
        var o := DecodeOperand(address, values[d.operandIndex], d);
        if o.None? then None else Some(before.value[d.operandIndex := o.value])
  }

  function DecodeOperands(r: Record, word: u32, address: u64, operands: seq<Operand>): Option<seq<Operand>>
    requires |operands| == MAX_OPERANDS
  {
    if r.descs == [] then Some(operands)
    else
      var values := OperandValues(r, word);
      if values.None? then None
      else
        ValuesAreWords(r, word);
        OperandsFrom(address, values.value, r.descs, operands)
  }

  lemma {:induction false} GatheredAreWords(pieces: seq<OperandBits.Piece>, word: u32)
    requires OperandBits.InRange(pieces)
    ensures AllWords(OperandBits.Gather(pieces, word))
  {
    hide Bit, OperandBits.Gather, Pow2;
    forall op: nat | op < MAX_OPERANDS ensures OperandBits.Gather(pieces, word)[op] < U32 {
      forall i: nat | i >= 32 ensures !Bit(OperandBits.Gather(pieces, word)[op], i) {
        OperandBits.BitOfGather(pieces, word, op, i);
      }
      BelowPow2(OperandBits.Gather(pieces, word)[op], 32);
      WordSizes();
    }
  }

  lemma {:induction false} LiteralsAreWords(values: OperandBits.Values, descs: seq<OperandDesc>)
    requires AllWords(values)
    ensures WithLiterals(values, descs).Some? ==> AllWords(WithLiterals(values, descs).value)
    decreases |descs|
  {
    if descs != [] { LiteralsAreWords(values, descs[..|descs| - 1]); }
  }

  lemma ValuesAreWords(r: Record, word: u32)
    ensures OperandValues(r, word).Some? ==> AllWords(OperandValues(r, word).value)
  {
    hide OperandBits.Gather, WithLiterals;
    if OperandBits.InRange(r.pieces) {
      GatheredAreWords(r.pieces, word);
      LiteralsAreWords(OperandBits.Gather(r.pieces, word), r.descs);
    }
  }

  /** `a64_decode_td_operands`. */
  method DecodeOperandsLoop(r: Record, word: u32, address: u64, operands: array<Operand>)
    returns (ok: bool)
    requires operands.Length == MAX_OPERANDS && ShiftsInWord(r.pieces)
    modifies operands
    ensures ok <==> DecodeOperands(r, word, address, old(operands[..])).Some?
    ensures ok ==> operands[..] == DecodeOperands(r, word, address, old(operands[..])).value
  {
    if |r.descs| == 0 || |r.descs| > MAX_OPERANDS {
      return |r.descs| == 0;
    }
    hide OperandValues, DecodeOperand;
    var values := new nat[MAX_OPERANDS];
    ok := OperandValuesLoop(r, word, values);
    if !ok {
      return;
    }
    ghost var before := old(operands[..]);
    ValuesAreWords(r, word);
    var i := 0;
    while i < |r.descs|
      invariant 0 <= i <= |r.descs| && AllWords(values[..])
      invariant OperandsFrom(address, values[..], r.descs[..i], before) == Some(operands[..])
      invariant values[..] == OperandValues(r, word).value
    {
      var desc := r.descs[i];
      assert r.descs[..i + 1][..i] == r.descs[..i];
      if desc.operandIndex >= MAX_OPERANDS {
        StopsEarly(address, values[..], r.descs, before, i + 1);
        return false;
      }
      assert values[..][desc.operandIndex] < U32;
      var operand := DecodeOperand(address, values[desc.operandIndex], desc);
      if operand.None? {
        StopsEarly(address, values[..], r.descs, before, i + 1);
        return false;
      }
      operands[desc.operandIndex] := operand.value;
      i := i + 1;
    }
    assert r.descs[..i] == r.descs;
  }

  lemma {:induction false} StopsEarly(address: u64, values: OperandBits.Values, descs: seq<OperandDesc>,
                                      operands: seq<Operand>, i: nat)
    requires AllWords(values) && |operands| == MAX_OPERANDS && i <= |descs|
    requires OperandsFrom(address, values, descs[..i], operands).None?
    ensures OperandsFrom(address, values, descs, operands).None?
    decreases |descs|
  {
    if i == |descs| {
      assert descs[..i] == descs;
    } else {
      var n := |descs| - 1;
      assert descs[..n][..i] == descs[..i];
      StopsEarly(address, values, descs[..n], operands, i);
    }
  }

  // ---- the check made before a record is selected

  predicate OperandFits(value: u32, d: OperandDesc) {
    && (d.kind.KindImm? ==> DecodeImm(value, d).Some?)
    && (d.kind.KindReg? ==> DecodeReg(value, d).Some?)
  }

  predicate OperandsMatch(r: Record, word: u32) {
    ValuesAreWords(r, word);
    var values := OperandValues(r, word);
    values.Some?
    && forall k :: 0 <= k < |r.descs| ==>
         r.descs[k].operandIndex < MAX_OPERANDS && OperandFits(values.value[r.descs[k].operandIndex], r.descs[k])
  }

  /** `a64_td_record_operands_match`. */
  method OperandsMatchLoop(r: Record, word: u32) returns (ok: bool)
    requires ShiftsInWord(r.pieces)
    ensures ok <==> OperandsMatch(r, word)
  {
    hide OperandValues, OperandFits;
    var values := new nat[MAX_OPERANDS];
    ok := OperandValuesLoop(r, word, values);
    if !ok {
      return;
    }
    ValuesAreWords(r, word);
    var i := 0;
    while i < |r.descs|
      invariant 0 <= i <= |r.descs|
      invariant values[..] == OperandValues(r, word).value && AllWords(values[..])
      invariant forall k :: 0 <= k < i ==>
        r.descs[k].operandIndex < MAX_OPERANDS && OperandFits(values[..][r.descs[k].operandIndex], r.descs[k])
    {
      var desc := r.descs[i];
      if desc.operandIndex >= MAX_OPERANDS {
        return false;
      }
      assert values[..][desc.operandIndex] < U32;
      if !OperandFits(values[desc.operandIndex], desc) {
        return false;
      }
      i := i + 1;
    }
  }

  predicate KnownKinds(r: Record) {
    forall k :: 0 <= k < |r.descs| ==> !r.descs[k].kind.KindOther?
  }

  lemma {:induction false} OperandsFromExactly(address: u64, values: OperandBits.Values,
                                               descs: seq<OperandDesc>, operands: seq<Operand>)
    requires AllWords(values) && |operands| == MAX_OPERANDS
    ensures OperandsFrom(address, values, descs, operands).Some? <==>
            forall k :: 0 <= k < |descs| ==>
              && descs[k].operandIndex < MAX_OPERANDS
              && OperandFits(values[descs[k].operandIndex], descs[k])
              && !descs[k].kind.KindOther?
    decreases |descs|
  {
    hide DecodeReg, DecodeImm, DecodePcRel;
    if descs != [] {
      var n := |descs| - 1;
      OperandsFromExactly(address, values, descs[..n], operands);
      assert forall k :: 0 <= k < n ==> descs[..n][k] == descs[k];
      var d := descs[n];
      if d.operandIndex < MAX_OPERANDS {
        assert DecodeOperand(address, values[d.operandIndex], d).Some?
          <==> OperandFits(values[d.operandIndex], d) && !d.kind.KindOther?;
      }
    }
  }

  /** The final decode succeeds, at every address, exactly when the check before selection passed and the record has no
      operand of an unknown kind, which that check passes over: a selected record with known kinds never fails to
      decode. */
  lemma MatchIsDecodable(r: Record, word: u32, address: u64, operands: seq<Operand>)
    requires |operands| == MAX_OPERANDS
    ensures DecodeOperands(r, word, address, operands).Some? <==> r.descs == [] || (OperandsMatch(r, word) && KnownKinds(r))
  {
    hide OperandsFrom, OperandFits, OperandBits.Gather;
    ValuesAreWords(r, word);
    if r.descs != [] && OperandValues(r, word).Some? {
      OperandsFromExactly(address, OperandValues(r, word).value, r.descs, operands);
    }
  }

  /** Every operand of a known kind has a value in the word and decodes. */
  ghost predicate OperandsDecode(r: Record, word: u32) {
    ValuesAreWords(r, word);
    var values := OperandValues(r, word);
    values.Some?
    && forall k :: 0 <= k < |r.descs| ==>
         r.descs[k].operandIndex < MAX_OPERANDS
         && (r.descs[k].kind.KindOther? || DecodeOperand(0, values.value[r.descs[k].operandIndex], r.descs[k]).Some?)
  }

  /** The check before selection, in terms of the decoder. */
  lemma OperandsMatchIs(r: Record, word: u32)
    ensures OperandsMatch(r, word) <==> OperandsDecode(r, word)
  {
    hide OperandValues, DecodeReg, DecodeImm, DecodePcRel;
    ValuesAreWords(r, word);
    if OperandValues(r, word).Some? {
      var values := OperandValues(r, word).value;
      forall k | 0 <= k < |r.descs| && r.descs[k].operandIndex < MAX_OPERANDS
        ensures OperandFits(values[r.descs[k].operandIndex], r.descs[k])
                <==> r.descs[k].kind.KindOther? || DecodeOperand(0, values[r.descs[k].operandIndex], r.descs[k]).Some?
      {
      }
    }
  }

  /** Moving the code changes PC-relative operands only. */
  lemma {:induction false} OnlyPcRelMoves(a: u64, b: u64, values: OperandBits.Values,
                                          descs: seq<OperandDesc>, operands: seq<Operand>, k: nat)
    requires AllWords(values) && |operands| == MAX_OPERANDS && k < MAX_OPERANDS
    requires OperandsFrom(a, values, descs, operands).Some?
    requires forall j :: 0 <= j < |descs| && descs[j].operandIndex == k ==> !descs[j].kind.KindPcRel?
    ensures OperandsFrom(b, values, descs, operands).Some?
    ensures OperandsFrom(b, values, descs, operands).value[k] == OperandsFrom(a, values, descs, operands).value[k]
    decreases |descs|
  {
    hide DecodeReg, DecodeImm;
    if descs != [] {
      var n := |descs| - 1;
      assert forall j :: 0 <= j < n ==> descs[..n][j] == descs[j];
      OnlyPcRelMoves(a, b, values, descs[..n], operands, k);
    }
  }

  // ---- PSTATE guards

  datatype PstateLiteral = PstateLiteral(guard: Guard, encoding: nat, features: Words)

  /** The PSTATE field that the decoder reads out of the word. */
  function GuardField(guard: Guard, word: u32): nat {
    var op1, op2, crmHigh := And(Shr(word, 16), 7), And(Shr(word, 5), 7), And(Shr(word, 9), 7);
    if guard.PstateImm0To1? then Or(Or(Shl(crmHigh, 6), Shl(op1, 3)), op2) else Or(Shl(op1, 3), op2)
  }

  predicate InvalidPstate(word: u32) {
    And(Shr(word, 16), 7) == 0 && And(Shr(word, 5), 7) <= 2
  }

  ghost predicate LiteralMatch(engine: Config, table: seq<PstateLiteral>, guard: Guard, encoding: nat) {
    exists i :: 0 <= i < |table| && table[i].guard == guard && table[i].encoding == encoding
                && Supports(engine, table[i].features)
  }

  /** `a64_pstate_literal_match`. */
  method LiteralMatchLoop(engine: Config, table: seq<PstateLiteral>, guard: Guard, encoding: nat) returns (ok: bool)
    ensures ok <==> LiteralMatch(engine, table, guard, encoding)
  {
    var i := 0;
    while i < |table|
      invariant 0 <= i <= |table|
      invariant forall j :: 0 <= j < i ==>
        !(table[j].guard == guard && table[j].encoding == encoding && Supports(engine, table[j].features))
    {
      if table[i].guard == guard && table[i].encoding == encoding {
        var supported := SupportsLoop(engine, table[i].features);
        if supported {
          return true;
        }
      }
      i := i + 1;
    }
    return false;
  }

  /** `a64_td_predicate_match`. */
  ghost predicate GuardMatch(engine: Config, table: seq<PstateLiteral>, r: Record, word: u32) {
    || r.guard.Unguarded?
    || (!InvalidPstate(word) && !r.guard.UnknownGuard? && LiteralMatch(engine, table, r.guard, GuardField(r.guard, word)))
  }
}
