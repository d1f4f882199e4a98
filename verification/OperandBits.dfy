/** Scattering operand values into an instruction word and gathering them back.

    A piece moves bit `srcBit` of one operand to bit `dstBit` of the word.  The A64 and ARM
    packers and unpackers are four separate loops over the same kind of piece table. */
module OperandBits {
  import opened Bits
  import opened Wrappers

  const MAX_OPERANDS: nat := 8

  datatype Piece = Piece(operandIndex: nat, srcBit: nat, dstBit: nat)

  type Values = v: seq<nat> | |v| == 8 witness [0, 0, 0, 0, 0, 0, 0, 0]

  const ZERO_VALUES: Values := [0, 0, 0, 0, 0, 0, 0, 0]

  predicate InRange(pieces: seq<Piece>) {
    forall k :: 0 <= k < |pieces| ==>
      pieces[k].operandIndex < MAX_OPERANDS && pieces[k].srcBit < 32 && pieces[k].dstBit < 32
  }

  predicate DistinctDst(pieces: seq<Piece>) {
    forall j, k :: 0 <= j < k < |pieces| ==> pieces[j].dstBit != pieces[k].dstBit
  }

  ghost predicate IsDst(pieces: seq<Piece>, i: nat) {
    exists k :: 0 <= k < |pieces| && pieces[k].dstBit == i
  }

  ghost predicate IsSrc(pieces: seq<Piece>, op: nat, i: nat) {
    exists k :: 0 <= k < |pieces| && pieces[k].operandIndex == op && pieces[k].srcBit == i
  }

  /** Every bit of every value is carried by some piece: the value is inside the operand's source mask. */
  ghost predicate Covered(pieces: seq<Piece>, values: Values) {
    forall op: nat, i: nat :: op < MAX_OPERANDS && Bit(values[op], i) ==> IsSrc(pieces, op, i)
  }

  // ---- AArch64

  /** The gathering loop of `a64_td_operand_values`, as a function of the pieces handled so far. */
  function Gather(pieces: seq<Piece>, word: nat): Values
    requires InRange(pieces)
  {
    if pieces == [] then ZERO_VALUES
    else
      var n := |pieces| - 1;
      var values, p := Gather(pieces[..n], word), pieces[n];
      values[p.operandIndex := Or(values[p.operandIndex], Shl(And(Shr(word, p.dstBit), 1), p.srcBit))]
  }

  method GatherLoop(pieces: seq<Piece>, word: nat, values: array<nat>) returns (ok: bool)
    requires values.Length == MAX_OPERANDS
    requires forall k :: 0 <= k < |pieces| ==> pieces[k].srcBit < 32 && pieces[k].dstBit < 32
    modifies values
    ensures ok <==> InRange(pieces)
    ensures ok ==> values[..] == Gather(pieces, word)
  {
    var i := 0;
    while i < MAX_OPERANDS
      invariant 0 <= i <= MAX_OPERANDS
      invariant forall j :: 0 <= j < i ==> values[j] == 0
    {
      values[i] := 0;
      i := i + 1;
    }
    i := 0;
    assert values[..] == ZERO_VALUES;
    while i < |pieces|
      invariant 0 <= i <= |pieces|
      invariant InRange(pieces[..i])
      invariant values[..] == Gather(pieces[..i], word)
    {
      var piece := pieces[i];
      if piece.operandIndex >= MAX_OPERANDS {
        return false;
      }
      assert pieces[..i + 1][..i] == pieces[..i];
      values[piece.operandIndex] := Or(values[piece.operandIndex], Shl(And(Shr(word, piece.dstBit), 1), piece.srcBit));
      i := i + 1;
    }
    assert pieces[..i] == pieces;
    return true;
  }

  /** The scattering loop of `a64_bf_pack_record`. */
  function Scatter(base: nat, pieces: seq<Piece>, values: Values): nat
    requires InRange(pieces)
  {
    if pieces == [] then base
    else
      var n := |pieces| - 1;
      var p := pieces[n];
      Or(Scatter(base, pieces[..n], values), Shl(And(Shr(values[p.operandIndex], p.srcBit), 1), p.dstBit))
  }

  method ScatterLoop(base: nat, pieces: seq<Piece>, values: Values) returns (word: nat)
    requires InRange(pieces)
    ensures word == Scatter(base, pieces, values)
  {
    word := base;
    var i := 0;
    while i < |pieces|
      invariant 0 <= i <= |pieces|
      invariant word == Scatter(base, pieces[..i], values)
    {
      var piece := pieces[i];
      assert pieces[..i + 1][..i] == pieces[..i];
      word := Or(word, Shl(And(Shr(values[piece.operandIndex], piece.srcBit), 1), piece.dstBit));
      i := i + 1;
    }
    assert pieces[..i] == pieces;
  }

  /** Bit `i` of `((v >> from) & 1) << to`. */
  lemma MovedBit(v: nat, from: nat, to: nat, i: nat)
    ensures Bit(Shl(And(Shr(v, from), 1), to), i) <==> i == to && Bit(v, from)
  {
    var one := And(Shr(v, from), 1);
    BitShl(one, to, i);
    if i >= to {
      BitAnd(Shr(v, from), 1, i - to);
      BitPow2(0, i - to);
      if i == to { BitShr(v, from, 0); }
    }
  }

  lemma {:induction false} BitOfGather(pieces: seq<Piece>, word: nat, op: nat, i: nat)
    requires InRange(pieces) && op < MAX_OPERANDS
    ensures Bit(Gather(pieces, word)[op], i) <==>
            exists k :: 0 <= k < |pieces| && pieces[k].operandIndex == op && pieces[k].srcBit == i && Bit(word, pieces[k].dstBit)
    decreases |pieces|
  {
    if pieces == [] {
      BitZero(i);
    } else {
      var n := |pieces| - 1;
      var rest, p := pieces[..n], pieces[n];
      BitOfGather(rest, word, op, i);
      if p.operandIndex == op {
        BitOr(Gather(rest, word)[op], Shl(And(Shr(word, p.dstBit), 1), p.srcBit), i);
        MovedBit(word, p.dstBit, p.srcBit, i);
      }
      assert forall k :: 0 <= k < n ==> rest[k] == pieces[k];
    }
  }

  lemma {:induction false} BitOfScatter(base: nat, pieces: seq<Piece>, values: Values, i: nat)
    requires InRange(pieces)
    ensures Bit(Scatter(base, pieces, values), i) <==>
            || Bit(base, i)
            || exists k :: 0 <= k < |pieces| && pieces[k].dstBit == i && Bit(values[pieces[k].operandIndex], pieces[k].srcBit)
    decreases |pieces|
  {
    if pieces != [] {
      var n := |pieces| - 1;
      var rest, p := pieces[..n], pieces[n];
      BitOfScatter(base, rest, values, i);
      BitOr(Scatter(base, rest, values), Shl(And(Shr(values[p.operandIndex], p.srcBit), 1), p.dstBit), i);
      MovedBit(values[p.operandIndex], p.srcBit, p.dstBit, i);
      assert forall k :: 0 <= k < n ==> rest[k] == pieces[k];
    }
  }

  /** What the record tables promise: the value is inside the mask, and the pieces write distinct
      bits outside it. */
  ghost predicate WellFormed(mask: u32, value: u32, pieces: seq<Piece>) {
    && InRange(pieces)
    && DistinctDst(pieces)
    && AndNot(value, mask) == 0
    && forall i: nat :: IsDst(pieces, i) ==> !Bit(mask, i)
  }

  lemma ValueInMask(mask: u32, value: u32, i: nat)
    requires AndNot(value, mask) == 0
    ensures Bit(value, i) ==> Bit(mask, i)
  {
    BitAndNot(value, mask, i);
    BitZero(i);
  }

  /** A packed word keeps the record's fixed bits ... */
  lemma PackedKeepsFixedBits(mask: u32, value: u32, pieces: seq<Piece>, values: Values)
    requires WellFormed(mask, value, pieces)
    ensures And(Scatter(value, pieces, values), mask) == value
    ensures Scatter(value, pieces, values) < U32
  {
    var word := Scatter(value, pieces, values);
    AndBits(word, mask);
    forall i: nat ensures Bit(And(word, mask), i) == Bit(value, i) {
      BitOfScatter(value, pieces, values, i);
      ValueInMask(mask, value, i);
      if Bit(mask, i) { assert !IsDst(pieces, i); }
    }
    SameBits(And(word, mask), value);
    WordSizes();
    forall i: nat | i >= 32 ensures !Bit(word, i) {
      BitOfScatter(value, pieces, values, i);
      BitAbove(value, 32, i);
    }
    BelowPow2(word, 32);
  }

  /** The base word leaves the destinations of the pieces clear, and no destination is shared. */
  ghost predicate LeavesRoom(base: nat, pieces: seq<Piece>) {
    && InRange(pieces)
    && DistinctDst(pieces)
    && forall i: nat :: IsDst(pieces, i) ==> !Bit(base, i)
  }

  /** Gathering from a packed word gives back each operand bit that a piece carries, and no other. */
  lemma GatherPacked(base: nat, pieces: seq<Piece>, values: Values, op: nat, i: nat)
    requires LeavesRoom(base, pieces) && op < MAX_OPERANDS
    ensures Bit(Gather(pieces, Scatter(base, pieces, values))[op], i) <==> IsSrc(pieces, op, i) && Bit(values[op], i)
  {
    hide Bit, Gather, Scatter;
    var word := Scatter(base, pieces, values);
    BitOfGather(pieces, word, op, i);
    forall k | 0 <= k < |pieces|
      ensures Bit(word, pieces[k].dstBit) == Bit(values[pieces[k].operandIndex], pieces[k].srcBit)
    {
      BitOfScatter(base, pieces, values, pieces[k].dstBit);
      assert IsDst(pieces, pieces[k].dstBit);
    }
  }

  lemma WellFormedLeavesRoom(mask: u32, value: u32, pieces: seq<Piece>)
    requires WellFormed(mask, value, pieces)
    ensures LeavesRoom(value, pieces)
  {
    hide Bit;
    forall i: nat | IsDst(pieces, i) ensures !Bit(value, i) { ValueInMask(mask, value, i); }
  }

  /** ... and gathers back every operand bit. */
  lemma GatherOfScatter(mask: u32, value: u32, pieces: seq<Piece>, values: Values)
    requires WellFormed(mask, value, pieces) && Covered(pieces, values)
    ensures Gather(pieces, Scatter(value, pieces, values)) == values
  {
    hide Bit, Gather, Scatter;
    WellFormedLeavesRoom(mask, value, pieces);
    var back := Gather(pieces, Scatter(value, pieces, values));
    forall op: nat | op < MAX_OPERANDS ensures back[op] == values[op] {
      forall i: nat ensures Bit(back[op], i) == Bit(values[op], i) {
        GatherPacked(value, pieces, values, op, i);
      }
      SameBits(back[op], values[op]);
    }
  }

  /** The pieces reach every bit that the mask leaves free. */
  ghost predicate CoversFreeBits(mask: u32, pieces: seq<Piece>) {
    forall i: nat :: i < 32 && !Bit(mask, i) ==> IsDst(pieces, i)
  }

  /** No operand bit is fed from two places. */
  predicate DistinctSrc(pieces: seq<Piece>) {
    forall j, k :: 0 <= j < k < |pieces| ==>
      !(pieces[j].operandIndex == pieces[k].operandIndex && pieces[j].srcBit == pieces[k].srcBit)
  }

  /** Conversely every word of the record is rebuilt from the operands it decodes to. */
  lemma ScatterOfGather(mask: u32, value: u32, pieces: seq<Piece>, word: u32)
    requires WellFormed(mask, value, pieces) && DistinctSrc(pieces) && CoversFreeBits(mask, pieces)
    requires And(word, mask) == value
    ensures Scatter(value, pieces, Gather(pieces, word)) == word
  {
    var values := Gather(pieces, word);
    var back := Scatter(value, pieces, values);
    AndBits(word, mask);
    forall i: nat ensures Bit(back, i) == Bit(word, i) {
      BitOfScatter(value, pieces, values, i);
      forall k | 0 <= k < |pieces|
        ensures Bit(values[pieces[k].operandIndex], pieces[k].srcBit) == Bit(word, pieces[k].dstBit)
      {
        BitOfGather(pieces, word, pieces[k].operandIndex, pieces[k].srcBit);
      }
      WordSizes();
      if i >= 32 {
        BitAbove(word, 32, i);
        BitAbove(value, 32, i);
      } else if !Bit(mask, i) {
        assert IsDst(pieces, i);
      } else {
        assert Bit(value, i) == Bit(word, i);
      }
    }
    SameBits(back, word);
  }

  // ---- ARM

  /** `word |= 1 << dst` or `word &= ~(1 << dst)`. */
  function PutBit(word: nat, dst: nat, on: bool): nat {
    if on then Or(word, Pow2(dst)) else AndNot(word, Pow2(dst))
  }

  lemma BitOfPut(word: nat, dst: nat, on: bool, i: nat)
    ensures Bit(PutBit(word, dst, on), i) == if i == dst then on else Bit(word, i)
  {
    BitPow2(dst, i);
    BitOr(word, Pow2(dst), i);
    BitAndNot(word, Pow2(dst), i);
  }

  /** The packing loop of `asmkit_gen_arm_encode_bitfield`. */
  function ArmScatter(base: nat, pieces: seq<Piece>, values: Values): nat
    requires InRange(pieces)
  {
    if pieces == [] then base
    else
      var n := |pieces| - 1;
      var p := pieces[n];
      PutBit(ArmScatter(base, pieces[..n], values), p.dstBit, And(Shr(values[p.operandIndex], p.srcBit), 1) != 0)
  }

  datatype ArmGathered = ArmGathered(seen: Values, values: Values)

  predicate PieceInRange(p: Piece) {
    p.operandIndex < MAX_OPERANDS && p.srcBit < 32
  }

  /** One more piece: a bit that was fed before must agree. */
  function GatherOne(g: ArmGathered, p: Piece, word: nat): Option<ArmGathered>
    requires PieceInRange(p)
  {
    var ArmGathered(seen, values) := g;
    var op, mask := p.operandIndex, Pow2(p.srcBit);
    var bit := And(Shr(word, p.dstBit), 1);
    if And(seen[op], mask) != 0 && And(Shr(values[op], p.srcBit), 1) != bit then None
    else Some(ArmGathered(seen[op := Or(seen[op], mask)],
                          values[op := Or(AndNot(values[op], mask), Shl(bit, p.srcBit))]))
  }

  /** The gathering loop of `arm_decode_td_operands` over pieces in range. */
  function ArmGather(pieces: seq<Piece>, word: nat): Option<ArmGathered>
    requires InRange(pieces)
  {
    if pieces == [] then Some(ArmGathered(ZERO_VALUES, ZERO_VALUES))
    else
      var n := |pieces| - 1;
      var g := ArmGather(pieces[..n], word);
      if g.None? then None else GatherOne(g.value, pieces[n], word)
  }

  /** Shifts of the word stay inside it; C leaves other ones undefined. */
  predicate DstInWord(pieces: seq<Piece>) {
    forall k :: 0 <= k < |pieces| ==> pieces[k].dstBit < 32
  }

  /** The pieces that the ARM decoder looks at; it passes over others. */
  function Used(pieces: seq<Piece>): (u: seq<Piece>)
    ensures DstInWord(pieces) ==> InRange(u)
    ensures InRange(pieces) ==> u == pieces
  {
    if pieces == [] then []
    else
      var n := |pieces| - 1;
      var p := pieces[n];
      Used(pieces[..n]) + if PieceInRange(p) then [p] else []
  }

  lemma UsedOneMore(pieces: seq<Piece>, i: nat)
    requires i < |pieces|
    ensures var p := pieces[i];
            Used(pieces[..i + 1]) == if PieceInRange(p) then Used(pieces[..i]) + [p] else Used(pieces[..i])
  {
    assert pieces[..i + 1][..i] == pieces[..i];
  }

  /** The pieces used of a prefix are a prefix of the pieces used. */
  lemma {:induction false} UsedPrefix(pieces: seq<Piece>, i: nat)
    requires i <= |pieces|
    ensures Used(pieces[..i]) <= Used(pieces)
    decreases |pieces| - i
  {
    if i < |pieces| {
      UsedOneMore(pieces, i);
      UsedPrefix(pieces, i + 1);
    } else {
      assert pieces[..i] == pieces;
    }
  }

  method GatherPiece(p: Piece, word: nat, seen: array<nat>, values: array<nat>) returns (ok: bool)
    requires PieceInRange(p) && seen != values && seen.Length == values.Length == MAX_OPERANDS
    modifies seen, values
    ensures ok <==> GatherOne(ArmGathered(old(seen[..]), old(values[..])), p, word).Some?
    ensures ok ==> GatherOne(ArmGathered(old(seen[..]), old(values[..])), p, word) == Some(ArmGathered(seen[..], values[..]))
  {
    hide And, Shr, Shl, Or, AndNot, Pow2;
    var op := p.operandIndex;
    var bit := And(Shr(word, p.dstBit), 1);
    var mask := Pow2(p.srcBit);
    if And(seen[op], mask) != 0 && And(Shr(values[op], p.srcBit), 1) != bit {
      return false;
    }
    seen[op] := Or(seen[op], mask);
    values[op] := Or(AndNot(values[op], mask), Shl(bit, p.srcBit));
    ok := true;
  }

  method ArmGatherLoop(pieces: seq<Piece>, word: nat, seen: array<nat>, values: array<nat>) returns (ok: bool)
    requires DstInWord(pieces)
    requires seen != values && seen.Length == values.Length == MAX_OPERANDS
    modifies seen, values
    ensures ok <==> ArmGather(Used(pieces), word).Some?
    ensures ok ==> ArmGather(Used(pieces), word) == Some(ArmGathered(seen[..], values[..]))
  {
    hide GatherOne, Used, ArmGather;
    EmptyGather(word);
    var i := 0;
    while i < MAX_OPERANDS
      invariant 0 <= i <= MAX_OPERANDS
      invariant forall j :: 0 <= j < i ==> seen[j] == 0 && values[j] == 0
    {
      seen[i] := 0;
      values[i] := 0;
      i := i + 1;
    }
    i := 0;
    assert seen[..] == ZERO_VALUES && values[..] == ZERO_VALUES;
    NoneUsed(pieces);
    while i < |pieces|
      invariant 0 <= i <= |pieces|
      invariant ArmGather(Used(pieces[..i]), word) == Some(ArmGathered(seen[..], values[..]))
    {
      var piece := pieces[i];
      UsedOneMore(pieces, i);
      if PieceInRange(piece) {
        ArmGatherOneMore(Used(pieces[..i]), piece, word);
        ok := GatherPiece(piece, word, seen, values);
        if !ok {
          UsedFails(pieces, word, i + 1);
          return;
        }
      }
      i := i + 1;
    }
    assert pieces[..i] == pieces;
    return true;
  }

  lemma UsedFails(pieces: seq<Piece>, word: nat, i: nat)
    requires DstInWord(pieces) && i <= |pieces| && ArmGather(Used(pieces[..i]), word).None?
    ensures ArmGather(Used(pieces), word).None?
  {
    hide GatherOne, ArmGather, Used;
    UsedPrefix(pieces, i);
    var all, first := Used(pieces), Used(pieces[..i]);
    assert all[..|first|] == first;
    ArmGatherFails(all, word, |first|);
  }

  lemma NoneUsed(pieces: seq<Piece>)
    ensures Used(pieces[..0]) == []
  {
  }

  lemma EmptyGather(word: nat)
    ensures ArmGather([], word) == Some(ArmGathered(ZERO_VALUES, ZERO_VALUES))
  {
  }

  lemma ArmGatherOneMore(pieces: seq<Piece>, p: Piece, word: nat)
    requires InRange(pieces) && PieceInRange(p) && p.dstBit < 32
    ensures InRange(pieces + [p])
    ensures ArmGather(pieces + [p], word) ==
            var g := ArmGather(pieces, word); if g.None? then None else GatherOne(g.value, p, word)
  {
    hide GatherOne;
    assert (pieces + [p])[..|pieces|] == pieces;
  }

  lemma {:induction false} ArmGatherFails(pieces: seq<Piece>, word: nat, i: nat)
    requires InRange(pieces) && i <= |pieces| && ArmGather(pieces[..i], word).None?
    ensures ArmGather(pieces, word).None?
    decreases |pieces| - i
  {
    if i < |pieces| {
      assert pieces[..i + 1][..i] == pieces[..i];
      ArmGatherFails(pieces, word, i + 1);
    } else {
      assert pieces[..i] == pieces;
    }
  }

  /** `(v >> s) & 1` as a test. */
  lemma TestBit(v: nat, s: nat)
    ensures And(Shr(v, s), 1) == if Bit(v, s) then 1 else 0
  {
    AndOnes(Shr(v, s), 1);
    BitShr(v, s, 0);
    assert Low(Shr(v, s), 1) == Shr(v, s) % 2;
  }

  /** Every piece agrees with the word: the operand bit it feeds equals the word bit it reads. */
  ghost predicate Agrees(pieces: seq<Piece>, values: Values, word: nat)
    requires InRange(pieces)
  {
    forall k :: 0 <= k < |pieces| ==> Bit(values[pieces[k].operandIndex], pieces[k].srcBit) == Bit(word, pieces[k].dstBit)
  }

  lemma BitOfStore(v: nat, s: nat, bit: nat, i: nat)
    requires bit <= 1
    ensures Bit(Or(AndNot(v, Pow2(s)), Shl(bit, s)), i) == if i == s then bit == 1 else Bit(v, i)
  {
    BitOr(AndNot(v, Pow2(s)), Shl(bit, s), i);
    BitAndNot(v, Pow2(s), i);
    BitPow2(s, i);
    BitShl(bit, s, i);
    if i > s { BitAbove(bit, 1, i - s); }
  }

  /** What a successful gather leaves: `seen` marks the source bits, values agree with the word and
      have no other bit. */
  ghost predicate Gathered(pieces: seq<Piece>, g: ArmGathered, word: nat)
    requires InRange(pieces)
  {
    && Agrees(pieces, g.values, word)
    && Covered(pieces, g.values)
    && forall op: nat, i: nat :: op < MAX_OPERANDS ==> (Bit(g.seen[op], i) <==> IsSrc(pieces, op, i))
  }

  lemma {:induction false} ArmGatherMeaning(pieces: seq<Piece>, word: nat)
    requires InRange(pieces)
    ensures var g := ArmGather(pieces, word); g.Some? ==> Gathered(pieces, g.value, word)
    ensures ArmGather(pieces, word).None? ==> !exists values: Values :: Agrees(pieces, values, word)
    decreases |pieces|
  {
    if pieces == [] {
      forall i: nat { BitZero(i); }
    } else {
      var n := |pieces| - 1;
      var rest, p := pieces[..n], pieces[n];
      ArmGatherMeaning(rest, word);
      assert forall k :: 0 <= k < n ==> rest[k] == pieces[k];
      var before := ArmGather(rest, word);
      if before.None? {
        forall values: Values | Agrees(pieces, values, word) ensures Agrees(rest, values, word) {}
      } else {
        ArmGatherStep(pieces, before.value, word);
      }
    }
  }

  lemma ArmGatherStep(pieces: seq<Piece>, before: ArmGathered, word: nat)
    requires InRange(pieces) && pieces != []
    requires ArmGather(pieces[..|pieces| - 1], word) == Some(before)
    requires Gathered(pieces[..|pieces| - 1], before, word)
    ensures var g := ArmGather(pieces, word); g.Some? ==> Gathered(pieces, g.value, word)
    ensures ArmGather(pieces, word).None? ==> !exists values: Values :: Agrees(pieces, values, word)
  {
    var n := |pieces| - 1;
    var rest, p := pieces[..n], pieces[n];
    var op := p.operandIndex;
    TestBit(word, p.dstBit);
    TestBit(before.values[op], p.srcBit);
    TestPow2(before.seen[op], p.srcBit);
    var after := ArmGather(pieces, word);
    hide ArmGather, And, Or, AndNot, Shr, Shl, Bit, Pow2;
    if Bit(before.seen[op], p.srcBit) && Bit(before.values[op], p.srcBit) != Bit(word, p.dstBit) {
      ArmConflict(pieces, before, word);
    } else {
      ArmGatherKeeps(rest, p, before, after.value, word);
      GatheredOneMore(pieces, before, after.value, word);
    }
  }

  lemma ArmConflict(pieces: seq<Piece>, before: ArmGathered, word: nat)
    requires InRange(pieces) && pieces != [] && Gathered(pieces[..|pieces| - 1], before, word)
    requires var p := pieces[|pieces| - 1];
             && Bit(before.seen[p.operandIndex], p.srcBit)
             && Bit(before.values[p.operandIndex], p.srcBit) != Bit(word, p.dstBit)
    ensures !exists values: Values :: Agrees(pieces, values, word)
  {
    var n := |pieces| - 1;
    var rest, p := pieces[..n], pieces[n];
    assert IsSrc(rest, p.operandIndex, p.srcBit);
    var k :| 0 <= k < n && rest[k].operandIndex == p.operandIndex && rest[k].srcBit == p.srcBit;
    assert pieces[k] == rest[k];
    assert Bit(word, pieces[k].dstBit) != Bit(word, p.dstBit);
  }

  lemma GatheredOneMore(pieces: seq<Piece>, before: ArmGathered, after: ArmGathered, word: nat)
    requires InRange(pieces) && pieces != [] && Gathered(pieces[..|pieces| - 1], before, word)
    requires var p := pieces[|pieces| - 1];
             && (forall o: nat, i: nat :: o < MAX_OPERANDS ==>
                   (Bit(after.seen[o], i) <==> Bit(before.seen[o], i) || (o == p.operandIndex && i == p.srcBit)))
             && (forall o: nat, i: nat :: o < MAX_OPERANDS ==>
                   Bit(after.values[o], i) == (if o == p.operandIndex && i == p.srcBit then Bit(word, p.dstBit)
                                               else Bit(before.values[o], i)))
    requires Agrees(pieces[..|pieces| - 1], after.values, word)
    ensures Gathered(pieces, after, word)
  {
    var n := |pieces| - 1;
    var rest := pieces[..n];
    forall k | 0 <= k < |pieces|
      ensures Bit(after.values[pieces[k].operandIndex], pieces[k].srcBit) == Bit(word, pieces[k].dstBit)
    {
      if k < n { assert rest[k] == pieces[k]; }
    }
    forall o: nat, i: nat | o < MAX_OPERANDS
      ensures Bit(after.seen[o], i) <==> IsSrc(pieces, o, i)
      ensures Bit(after.values[o], i) ==> IsSrc(pieces, o, i)
    {
      SrcStep(pieces, o, i);
    }
  }

  /** One accepted piece adds its own bit and leaves every other bit alone. */
  lemma ArmGatherKeeps(rest: seq<Piece>, p: Piece, before: ArmGathered, after: ArmGathered, word: nat)
    requires InRange(rest) && Gathered(rest, before, word) && p.operandIndex < MAX_OPERANDS
    requires var bit := And(Shr(word, p.dstBit), 1);
             && after.seen == before.seen[p.operandIndex := Or(before.seen[p.operandIndex], Pow2(p.srcBit))]
             && after.values == before.values[p.operandIndex :=
                  Or(AndNot(before.values[p.operandIndex], Pow2(p.srcBit)), Shl(bit, p.srcBit))]
    requires Bit(before.seen[p.operandIndex], p.srcBit) ==>
               Bit(before.values[p.operandIndex], p.srcBit) == Bit(word, p.dstBit)
    ensures forall o: nat, i: nat :: o < MAX_OPERANDS ==>
              (Bit(after.seen[o], i) <==> Bit(before.seen[o], i) || (o == p.operandIndex && i == p.srcBit))
    ensures forall o: nat, i: nat :: o < MAX_OPERANDS ==>
              Bit(after.values[o], i) == (if o == p.operandIndex && i == p.srcBit then Bit(word, p.dstBit)
                                          else Bit(before.values[o], i))
    ensures Agrees(rest, after.values, word)
  {
    var op, bit := p.operandIndex, And(Shr(word, p.dstBit), 1);
    TestBit(word, p.dstBit);
    forall o: nat, i: nat | o < MAX_OPERANDS
      ensures Bit(after.seen[o], i) <==> Bit(before.seen[o], i) || (o == op && i == p.srcBit)
      ensures Bit(after.values[o], i) == (if o == op && i == p.srcBit then Bit(word, p.dstBit) else Bit(before.values[o], i))
    {
      BitOfStore(before.values[op], p.srcBit, bit, i);
      BitOr(before.seen[op], Pow2(p.srcBit), i);
      BitPow2(p.srcBit, i);
    }
    forall k | 0 <= k < |rest|
      ensures Bit(after.values[rest[k].operandIndex], rest[k].srcBit) == Bit(word, rest[k].dstBit)
    {
      assert IsSrc(rest, rest[k].operandIndex, rest[k].srcBit);
    }
  }

  lemma SrcStep(pieces: seq<Piece>, op: nat, i: nat)
    requires pieces != []
    ensures var n := |pieces| - 1;
            IsSrc(pieces, op, i) <==> IsSrc(pieces[..n], op, i) || (op == pieces[n].operandIndex && i == pieces[n].srcBit)
  {
    var n := |pieces| - 1;
    var rest := pieces[..n];
    if IsSrc(pieces, op, i) {
      var k :| 0 <= k < |pieces| && pieces[k].operandIndex == op && pieces[k].srcBit == i;
      if k < n { assert rest[k] == pieces[k]; }
    }
    if IsSrc(rest, op, i) {
      var k :| 0 <= k < |rest| && rest[k].operandIndex == op && rest[k].srcBit == i;
      assert pieces[k] == rest[k];
    }
  }

  /** The last piece that writes a bit decides it; when all pieces agree with `word`, so does the result. */
  lemma {:induction false} ArmScatterAgrees(base: nat, pieces: seq<Piece>, values: Values, word: nat, i: nat)
    requires InRange(pieces) && Agrees(pieces, values, word)
    ensures Bit(ArmScatter(base, pieces, values), i) == if IsDst(pieces, i) then Bit(word, i) else Bit(base, i)
    decreases |pieces|
  {
    if pieces != [] {
      var n := |pieces| - 1;
      var rest, p := pieces[..n], pieces[n];
      assert forall k :: 0 <= k < n ==> rest[k] == pieces[k];
      ArmScatterAgrees(base, rest, values, word, i);
      TestBit(values[p.operandIndex], p.srcBit);
      BitOfPut(ArmScatter(base, rest, values), p.dstBit, Bit(values[p.operandIndex], p.srcBit), i);
      if IsDst(pieces, i) && p.dstBit != i {
        var k :| 0 <= k < |pieces| && pieces[k].dstBit == i;
        assert rest[k].dstBit == i;
      }
    }
  }

  /** A word that passes the conflict check repacks to itself, when the pieces reach every bit that
      the mask leaves free. */
  lemma ArmRepack(mask: u32, value: u32, pieces: seq<Piece>, word: u32)
    requires InRange(pieces) && CoversFreeBits(mask, pieces)
    requires And(word, mask) == value
    requires ArmGather(pieces, word).Some?
    ensures ArmScatter(value, pieces, ArmGather(pieces, word).value.values) == word
  {
    var values := ArmGather(pieces, word).value.values;
    var back := ArmScatter(value, pieces, values);
    ArmGatherMeaning(pieces, word);
    AndBits(word, mask);
    WordSizes();
    forall i: nat ensures Bit(back, i) == Bit(word, i) {
      ArmScatterAgrees(value, pieces, values, word, i);
      if i >= 32 {
        BitAbove(word, 32, i);
        BitAbove(value, 32, i);
      } else if !IsDst(pieces, i) {
        assert Bit(And(word, mask), i) == Bit(word, i);
      }
    }
    SameBits(back, word);
  }

  /** The conflict check passes exactly when some operand values could have produced the word's
      operand bits. */
  lemma ArmGatherComplete(pieces: seq<Piece>, word: nat)
    requires InRange(pieces)
    ensures ArmGather(pieces, word).Some? <==> exists values: Values :: Agrees(pieces, values, word)
  {
    ArmGatherMeaning(pieces, word);
    if ArmGather(pieces, word).Some? {
      assert Agrees(pieces, ArmGather(pieces, word).value.values, word);
    }
  }

  lemma {:induction false} ArmScatterBit(base: nat, pieces: seq<Piece>, values: Values, k: nat)
    requires InRange(pieces) && DistinctDst(pieces) && k < |pieces|
    ensures Bit(ArmScatter(base, pieces, values), pieces[k].dstBit) == Bit(values[pieces[k].operandIndex], pieces[k].srcBit)
    decreases |pieces|
  {
    var n := |pieces| - 1;
    var rest, p := pieces[..n], pieces[n];
    TestBit(values[p.operandIndex], p.srcBit);
    BitOfPut(ArmScatter(base, rest, values), p.dstBit, Bit(values[p.operandIndex], p.srcBit), pieces[k].dstBit);
    if k < n {
      assert rest[k] == pieces[k];
      assert InRange(rest) && DistinctDst(rest);
      ArmScatterBit(base, rest, values, k);
    }
  }

  /** What the ARM packer writes, the ARM unpacker accepts and reads back - also when one operand
      bit goes to several places of the word. */
  lemma ArmGatherOfScatter(base: u32, pieces: seq<Piece>, values: Values)
    requires InRange(pieces) && DistinctDst(pieces) && Covered(pieces, values)
    ensures var g := ArmGather(pieces, ArmScatter(base, pieces, values));
            g.Some? && g.value.values == values
  {
    var word := ArmScatter(base, pieces, values);
    forall k | 0 <= k < |pieces| { ArmScatterBit(base, pieces, values, k); }
    assert Agrees(pieces, values, word);
    ArmGatherMeaning(pieces, word);
    var back := ArmGather(pieces, word).value.values;
    forall op: nat | op < MAX_OPERANDS ensures back[op] == values[op] {
      forall i: nat ensures Bit(back[op], i) == Bit(values[op], i) {
        if IsSrc(pieces, op, i) {
          var k :| 0 <= k < |pieces| && pieces[k].operandIndex == op && pieces[k].srcBit == i;
        }
      }
      SameBits(back[op], values[op]);
    }
  }
}
