/** Thumb IT blocks: the decode state that an analysis hands to the next instruction
    (sections A2.5.2 and A8.8.54 of ARM DDI 0406C). */
module ItState {
  import opened Wrappers

  datatype Mode = DefaultMode | ArmA32 | ArmThumb | OtherMode

  datatype IsaKind = NoIsa | ArmIt

  /** The mode, and the IT state when inside an IT block. */
  datatype State = State(mode: Mode, kind: IsaKind, it: bv8)

  datatype Class = ItInst | CondBranchInst | OtherInst

  /** What the analysis looks at: of the operands, the condition and mask of an IT instruction, cast
      to bytes; of the encoding, the condition field. */
  datatype Inst = Inst(
    arm: bool,
    mode: Mode,
    cls: Class,
    itOperands: Option<(bv8, bv8)>,
    size: nat,
    conditionField: bv8,
    terminator: bool,
    stateSwitch: bool,
    isCall: bool,
    isBranch: bool,
    isConditional: bool,
    isReturn: bool,
    target: Option<nat>)

  datatype Predicate = Always | ArmCondition(id: bv8)

  datatype Flow = Fallthrough | BranchFlow | CallFlow | ReturnFlow | TrapFlow

  datatype Successor = Successor(flow: Flow, state: State)

  datatype Status = Ok | UnsupportedMode | InvalidArgument

  const MAX_SUCCESSORS: nat := 2

  // ---- one step

  /** `asmkit_arm_advance_itstate`. */
  function Advance(it: bv8): bv8 {
    if it & 7 == 0 then 0 else (it & 0xe0) | ((it << 1) & 0x1f)
  }

  /** The state after an instruction that does not switch it. */
  function NextState(inst: Inst, state: State): State {
    if inst.arm && inst.mode == ArmThumb then
      if inst.cls == ItInst && inst.itOperands.Some? then
        state.(kind := ArmIt, it := (inst.itOperands.value.0 << 4) | (inst.itOperands.value.1 & 0x0f))
      else if state.kind == ArmIt then
        var it := Advance(state.it);
        state.(kind := if it == 0 then NoIsa else ArmIt, it := it)
      else state
    else state
  }

  /** The state at the target of a branch. */
  function TargetState(inst: Inst, next: State): State {
    if inst.arm && inst.stateSwitch then
      if inst.target.Some? then State(if inst.target.value % 2 == 1 then ArmThumb else ArmA32, NoIsa, 0)
      else next.(mode := DefaultMode)
    else next
  }

  /** `asmkit_arm_apply_predicate`. */
  function PredicateOf(inst: Inst, state: State): Predicate {
    if inst.mode == ArmThumb && state.kind == ArmIt && state.it != 0 && inst.cls != ItInst then ArmCondition(state.it >> 4)
    else if inst.mode == ArmThumb && inst.cls == CondBranchInst && inst.size >= 2 then
      if inst.conditionField < 0x0e then ArmCondition(inst.conditionField) else Always
    else if inst.mode == ArmA32 && inst.size >= 4 then
      if inst.conditionField < 0x0e then ArmCondition(inst.conditionField) else Always
    else Always
  }

  function Successors(inst: Inst, state: State): seq<Successor> {
    var next := NextState(inst, state);
    var target := TargetState(inst, next);
    if inst.isCall then
      [Successor(CallFlow, target)] + if inst.terminator then [] else [Successor(Fallthrough, next)]
    else if inst.isBranch then
      [Successor(BranchFlow, target)] + if inst.isConditional then [Successor(Fallthrough, next)] else []
    else if inst.isReturn then [Successor(ReturnFlow, next)]
    else if inst.terminator then [Successor(TrapFlow, next)]
    else [Successor(Fallthrough, next)]
  }

  class ControlAnalysis {
    var condition: Predicate
    var successorCount: nat
    var successors: array<Successor>

    ghost predicate Valid() reads this {
      successors.Length == MAX_SUCCESSORS && successorCount <= MAX_SUCCESSORS
    }

    ghost function Listed(): seq<Successor>
      requires Valid()
      reads this, successors
    {
      successors[..successorCount]
    }

    constructor ()
      ensures Valid() && fresh(successors) && Listed() == [] && condition == Always
    {
      condition, successorCount := Always, 0;
      successors := new Successor[MAX_SUCCESSORS](_ => Successor(Fallthrough, State(DefaultMode, NoIsa, 0)));
    }

    /** `asmkit_add_successor`. */
    method AddSuccessor(flow: Flow, state: State)
      requires Valid()
      modifies this`successorCount, successors
      ensures Valid() && successors == old(successors)
      ensures Listed() == if old(successorCount) < MAX_SUCCESSORS then old(Listed()) + [Successor(flow, state)] else old(Listed())
    {
      if successorCount < MAX_SUCCESSORS {
        successors[successorCount] := Successor(flow, state);
        successorCount := successorCount + 1;
      }
    }
  }

  function Current(inst: Inst, state: Option<State>): State {
    if state.None? then State(inst.mode, NoIsa, 0)
    else if state.value.mode == DefaultMode then state.value.(mode := inst.mode)
    else state.value
  }

  function CheckState(inst: Inst, current: State): Status {
    if current.mode != inst.mode then UnsupportedMode
    else if current.kind != NoIsa && !(inst.arm && inst.mode == ArmThumb && current.kind == ArmIt) then InvalidArgument
    else Ok
  }

  /** `asmkit_analyze_inst_with_state`, after the instruction's own analysis. */
  method AnalyzeWithState(inst: Inst, state: Option<State>, out: ControlAnalysis) returns (status: Status)
    requires out.Valid() && out.Listed() == [] && out.condition == Always
    modifies out, out.successors
    ensures out.Valid()
    ensures status == CheckState(inst, Current(inst, state))
    ensures status == Ok <==>
              state.Some? ==>
                && (state.value.mode == DefaultMode || state.value.mode == inst.mode)
                && (state.value.kind == NoIsa || (state.value.kind == ArmIt && inst.arm && inst.mode == ArmThumb))
    ensures status == UnsupportedMode <==> state.Some? && state.value.mode != DefaultMode && state.value.mode != inst.mode
    ensures status == Ok ==>
              && out.Listed() == Successors(inst, Current(inst, state))
              && AreSuccessors(inst, Current(inst, state), out.Listed())
              && out.condition == if inst.arm then PredicateOf(inst, Current(inst, state)) else Always
  {
    hide NextState, TargetState, PredicateOf, AreSuccessors;
    var current := Current(inst, state);
    ListedMeaning(inst, current);
    status := CheckState(inst, current);
    if status != Ok {
      return;
    }
    if inst.arm {
      out.condition := PredicateOf(inst, current);
    }
    var next := NextState(inst, current);
    var target := TargetState(inst, next);
    if inst.isCall {
      out.AddSuccessor(CallFlow, target);
      if !inst.terminator {
        out.AddSuccessor(Fallthrough, next);
      }
    } else if inst.isBranch {
      out.AddSuccessor(BranchFlow, target);
      if inst.isConditional {
        out.AddSuccessor(Fallthrough, next);
      }
    } else if inst.isReturn {
      out.AddSuccessor(ReturnFlow, next);
    } else if inst.terminator {
      out.AddSuccessor(TrapFlow, next);
    } else {
      out.AddSuccessor(Fallthrough, next);
    }
  }

  // ---- what is listed

  /** Control may go on behind the instruction: it is a call that returns, a conditional branch, or no transfer at all. */
  predicate GoesOn(inst: Inst) {
    if inst.isCall then !inst.terminator
    else if inst.isBranch then inst.isConditional
    else !inst.isReturn && !inst.terminator
  }

  /** Where else control may go. */
  function Elsewhere(inst: Inst): Option<Flow> {
    if inst.isCall then Some(CallFlow)
    else if inst.isBranch then Some(BranchFlow)
    else if inst.isReturn then Some(ReturnFlow)
    else if inst.terminator then Some(TrapFlow)
    else None
  }

  /** The state behind the instruction: only Thumb code has an IT state to set or to count down. */
  predicate IsNext(inst: Inst, before: State, after: State) {
    && after.mode == before.mode
    && (!inst.arm || inst.mode != ArmThumb ==> after == before)
    && (before.kind == NoIsa && (inst.cls != ItInst || inst.itOperands.None?) ==> after == before)
  }

  /** The state at a target: as behind the instruction, unless it switches states.  Then bit 0 of a known target says
      which, outside any IT block, and an unknown target leaves the mode open. */
  predicate IsTargetState(inst: Inst, next: State, there: State) {
    if !inst.arm || !inst.stateSwitch then there == next
    else if inst.target.None? then there.mode == DefaultMode && there.kind == next.kind && there.it == next.it
    else
      && there.kind == NoIsa && there.it == 0
      && (there.mode == ArmThumb <==> inst.target.value % 2 == 1)
      && (there.mode == ArmA32 <==> inst.target.value % 2 == 0)
  }

  /** The successors of an instruction: the fallthrough exactly when control may go on behind it, listed last, and
      before it the one way elsewhere, if there is one. */
  predicate AreSuccessors(inst: Inst, before: State, listed: seq<Successor>) {
    var elsewhere := Elsewhere(inst);
    && 1 <= |listed| <= 2
    && (|listed| == 2 <==> elsewhere.Some? && GoesOn(inst))
    && (elsewhere.Some? ==> listed[0].flow == elsewhere.value)
    && (Successor(Fallthrough, NextState(inst, before)) in listed <==> GoesOn(inst))
    && (GoesOn(inst) ==> listed[|listed| - 1] == Successor(Fallthrough, NextState(inst, before)))
    && IsNext(inst, before, NextState(inst, before))
    && (inst.isCall || inst.isBranch ==> IsTargetState(inst, NextState(inst, before), listed[0].state))
    && (!inst.isCall && !inst.isBranch ==> listed[0].state == NextState(inst, before))
  }

  lemma ListedMeaning(inst: Inst, before: State)
    ensures AreSuccessors(inst, before, Successors(inst, before))
  {
    NextIsNext(inst, before);
    hide NextState;
  }

  lemma NextIsNext(inst: Inst, before: State)
    ensures IsNext(inst, before, NextState(inst, before))
  {
    hide Advance;
  }

  /** Outside an IT block an instruction is predicated on the condition in its encoding, which A32 instructions and Thumb
      conditional branches have; 14 and 15 are no conditions. */
  lemma OwnPredicate(inst: Inst, state: State, cond: bv8)
    requires inst.mode == ArmThumb && inst.cls != ItInst ==> state.kind == NoIsa || state.it == 0
    ensures PredicateOf(inst, state) == ArmCondition(cond)
            <==> && cond == inst.conditionField && cond < 0x0e
                 && ((inst.mode == ArmA32 && inst.size >= 4)
                     || (inst.mode == ArmThumb && inst.cls == CondBranchInst && inst.size >= 2))
  {
  }

  // ---- the invariant of every run

  /** Inside an IT block the low nibble says how much is left; outside there is nothing. */
  predicate Consistent(s: State) {
    if s.kind == ArmIt then s.it & 0x0f != 0 else s.it == 0
  }

  /** Not a Thumb IT instruction with an empty mask; words of that shape are hints and do not decode as IT. */
  predicate ProperIt(inst: Inst) {
    inst.arm && inst.mode == ArmThumb && inst.cls == ItInst && inst.itOperands.Some? ==>
      inst.itOperands.value.1 & 0x0f != 0
  }

  lemma AdvanceKeeps(it: bv8)
    requires it & 0x0f != 0
    ensures Advance(it) != 0 ==> Advance(it) & 0x0f != 0
  {
  }

  lemma ItKeeps(cond: bv8, mask: bv8)
    ensures ((cond << 4) | (mask & 0x0f)) & 0x0f == mask & 0x0f
  {
  }

  /** Every successor of a consistent state is consistent, exactly when the instruction is not an IT with
      an empty mask. */
  lemma StepConsistent(inst: Inst, state: State)
    requires Consistent(state)
    ensures Consistent(NextState(inst, state)) <==> ProperIt(inst)
    ensures ProperIt(inst) ==> forall k :: 0 <= k < |Successors(inst, state)| ==> Consistent(Successors(inst, state)[k].state)
  {
    hide Advance;
    if inst.itOperands.Some? { ItKeeps(inst.itOperands.value.0, inst.itOperands.value.1); }
    if state.kind == ArmIt { AdvanceKeeps(state.it); }
  }

  /** One step from an instruction to one of its successors. */
  ghost predicate Step(inst: Inst, before: State, after: State) {
    && CheckState(inst, Current(inst, Some(before))) == Ok
    && exists k :: 0 <= k < |Successors(inst, Current(inst, Some(before)))|
                   && Successors(inst, Current(inst, Some(before)))[k].state == after
  }

  /** A run: the states before, between and after some instructions. */
  ghost predicate IsRun(insts: seq<Inst>, states: seq<State>) {
    && |states| == |insts| + 1
    && forall k :: 0 <= k < |insts| ==> Step(insts[k], states[k], states[k + 1])
  }

  /** In every run, whatever branches it takes and whatever modes it switches to, the state is an IT
      state exactly while the low nibble is not zero. */
  lemma {:induction false} RunConsistent(insts: seq<Inst>, states: seq<State>, k: nat)
    requires IsRun(insts, states) && k < |states| && Consistent(states[0])
    requires forall i :: 0 <= i < |insts| ==> ProperIt(insts[i])
    ensures Consistent(states[k])
    ensures states[k].kind == ArmIt <==> states[k].it & 0x0f != 0
    decreases k
  {
    hide Successors;
    if k > 0 {
      RunConsistent(insts, states, k - 1);
      assert Step(insts[k - 1], states[k - 1], states[k]);
      StepConsistent(insts[k - 1], Current(insts[k - 1], Some(states[k - 1])));
    }
    ZeroNibble(states[k].it);
  }

  lemma ZeroNibble(it: bv8)
    ensures it == 0 ==> it & 0x0f == 0
  {
  }

  // ---- an IT block

  /** The number of trailing zero bits of a mask. */
  function TrailingZeros(mask: bv8): nat {
    if mask & 1 != 0 then 0 else if mask & 2 != 0 then 1 else if mask & 4 != 0 then 2 else if mask & 8 != 0 then 3 else 4
  }

  /** How many instructions an IT block covers. */
  function BlockLength(mask: bv8): nat {
    4 - TrailingZeros(mask)
  }

  function MaskBit(mask: bv8, i: nat): bv8
    requires i < 4
  {
    if i == 0 then mask & 1 else if i == 1 then (mask >> 1) & 1 else if i == 2 then (mask >> 2) & 1 else (mask >> 3) & 1
  }

  /** The condition of the `j`-th instruction after the first one of a block (`j` = 0 for the first). */
  function ConditionAt(cond: bv8, mask: bv8, j: nat): bv8
    requires j < 4
  {
    if j == 0 then cond else (cond & 0x0e) | MaskBit(mask, 4 - j)
  }

  /** The IT state before the `j`-th instruction of the block. */
  function StateAt(cond: bv8, mask: bv8, j: nat): bv8 {
    if j == 0 then (cond << 4) | mask else Advance(StateAt(cond, mask, j - 1))
  }

  lemma FirstStates(cond: bv8, mask: bv8)
    requires cond < 16 && 0 < mask < 16
    ensures StateAt(cond, mask, 0) != 0 && StateAt(cond, mask, 0) >> 4 == cond
    ensures mask & 7 == 0 ==> StateAt(cond, mask, 1) == 0
    ensures mask & 7 != 0 ==> StateAt(cond, mask, 1) != 0 && StateAt(cond, mask, 1) >> 4 == (cond & 0x0e) | ((mask >> 3) & 1)
  {
    assert StateAt(cond, mask, 0) == (cond << 4) | mask;
  }

  lemma SecondState(cond: bv8, mask: bv8)
    requires cond < 16 && 0 < mask < 16 && mask & 7 != 0
    ensures mask & 3 == 0 ==> StateAt(cond, mask, 2) == 0
    ensures mask & 3 != 0 ==> StateAt(cond, mask, 2) != 0 && StateAt(cond, mask, 2) >> 4 == (cond & 0x0e) | ((mask >> 2) & 1)
  {
    assert StateAt(cond, mask, 0) == (cond << 4) | mask;
    assert StateAt(cond, mask, 1) == Advance((cond << 4) | mask);
  }

  lemma ThirdState(cond: bv8, mask: bv8)
    requires cond < 16 && 0 < mask < 16 && mask & 3 != 0
    ensures mask & 1 == 0 ==> StateAt(cond, mask, 3) == 0
    ensures mask & 1 != 0 ==> StateAt(cond, mask, 3) != 0 && StateAt(cond, mask, 3) >> 4 == (cond & 0x0e) | ((mask >> 1) & 1)
    ensures mask & 1 != 0 ==> StateAt(cond, mask, 4) == 0
  {
    assert StateAt(cond, mask, 0) == (cond << 4) | mask;
    assert StateAt(cond, mask, 1) == Advance((cond << 4) | mask);
    assert StateAt(cond, mask, 2) == Advance(Advance((cond << 4) | mask));
    assert StateAt(cond, mask, 3) == Advance(Advance(Advance((cond << 4) | mask)));
  }

  lemma {:induction false} StaysZero(cond: bv8, mask: bv8, i: nat, j: nat)
    requires i <= j && StateAt(cond, mask, i) == 0
    ensures StateAt(cond, mask, j) == 0
    decreases j
  {
    if i < j { StaysZero(cond, mask, i, j - 1); }
  }

  /** The IT state counts the block down and carries each instruction's condition on top. */
  lemma StatesOfBlock(cond: bv8, mask: bv8, j: nat)
    requires cond < 16 && 0 < mask < 16
    ensures 1 <= BlockLength(mask) <= 4
    ensures j < BlockLength(mask) ==> StateAt(cond, mask, j) != 0 && StateAt(cond, mask, j) >> 4 == ConditionAt(cond, mask, j)
    ensures j >= BlockLength(mask) ==> StateAt(cond, mask, j) == 0
  {
    MaskCases(mask);
    hide StateAt, Advance;
    FirstStates(cond, mask);
    if mask & 7 != 0 { SecondState(cond, mask); }
    if mask & 3 != 0 { ThirdState(cond, mask); }
    if j >= BlockLength(mask) { StaysZero(cond, mask, BlockLength(mask), j); }
  }

  lemma MaskCases(mask: bv8)
    requires 0 < mask < 16
    ensures BlockLength(mask) == if mask & 1 != 0 then 4 else if mask & 3 != 0 then 3 else if mask & 7 != 0 then 2 else 1
    ensures mask & 3 != 0 ==> mask & 7 != 0
    ensures mask & 1 != 0 ==> mask & 3 != 0
  {
  }

  /** One step from an instruction to the one behind it. */
  ghost predicate FallsThrough(inst: Inst, before: State, after: State) {
    && CheckState(inst, Current(inst, Some(before))) == Ok
    && exists k :: 0 <= k < |Successors(inst, Current(inst, Some(before)))|
                   && Successors(inst, Current(inst, Some(before)))[k] == Successor(Fallthrough, after)
  }

  /** A run in which every instruction, be it a call or a conditional branch, falls through. */
  ghost predicate IsFallthroughRun(insts: seq<Inst>, states: seq<State>) {
    && |states| == |insts| + 1
    && forall k :: 0 <= k < |insts| ==> FallsThrough(insts[k], states[k], states[k + 1])
  }

  /** A Thumb instruction other than IT. */
  predicate InBlock(inst: Inst) {
    inst.arm && inst.mode == ArmThumb && inst.cls != ItInst
  }

  /** The state that a fallthrough step leaves. */
  lemma FallthroughState(inst: Inst, before: State, after: State)
    requires FallsThrough(inst, before, after)
    ensures CheckState(inst, Current(inst, Some(before))) == Ok && after == NextState(inst, Current(inst, Some(before)))
  {
    hide NextState, TargetState, CheckState;
  }

  /** The states after an IT instruction and some instructions that fall through. */
  lemma {:induction false} BlockStates(it: Inst, insts: seq<Inst>, states: seq<State>, cond: bv8, mask: bv8, j: nat)
    requires it.arm && it.mode == ArmThumb && it.cls == ItInst && it.itOperands == Some((cond, mask))
    requires cond < 16 && 0 < mask < 16 && j <= |insts|
    requires IsFallthroughRun([it] + insts, states) && forall k :: 0 <= k < |insts| ==> InBlock(insts[k])
    ensures states[j + 1] == State(ArmThumb, if StateAt(cond, mask, j) == 0 then NoIsa else ArmIt, StateAt(cond, mask, j))
    decreases j
  {
    hide FallsThrough;
    assert FallsThrough(([it] + insts)[j], states[j], states[j + 1]);
    FallthroughState(([it] + insts)[j], states[j], states[j + 1]);
    if j == 0 {
      FirstStates(cond, mask);
      SmallMask(mask);
    } else {
      BlockStates(it, insts, states, cond, mask, j - 1);
      assert ([it] + insts)[j] == insts[j - 1];
      if StateAt(cond, mask, j - 1) == 0 { StaysZero(cond, mask, j - 1, j); }
    }
  }

  lemma SmallMask(mask: bv8)
    requires mask < 16
    ensures mask & 0x0f == mask
  {
  }

  /** After an IT instruction with condition `cond` and mask `mask`, exactly the next `BlockLength(mask)`
      instructions are predicated: the first on `cond`, the `j`-th after it on `ConditionAt`; from then on
      the state is empty and instructions are predicated only by themselves.  The instruction `inst` that is
      reached by falling through those of `insts` may itself go anywhere. */
  lemma ItBlock(it: Inst, insts: seq<Inst>, inst: Inst, states: seq<State>, cond: bv8, mask: bv8)
    requires it.arm && it.mode == ArmThumb && it.cls == ItInst && it.itOperands == Some((cond, mask))
    requires cond < 16 && 0 < mask < 16 && InBlock(inst)
    requires IsFallthroughRun([it] + insts, states) && forall k :: 0 <= k < |insts| ==> InBlock(insts[k])
    ensures var j, state := |insts|, states[|insts| + 1];
            if j < BlockLength(mask) then PredicateOf(inst, state) == ArmCondition(ConditionAt(cond, mask, j))
            else state == State(ArmThumb, NoIsa, 0) && (inst.cls != CondBranchInst ==> PredicateOf(inst, state) == Always)
  {
    hide StateAt, ConditionAt, BlockLength, FallsThrough;
    BlockStates(it, insts, states, cond, mask, |insts|);
    StatesOfBlock(cond, mask, |insts|);
  }

  // ---- the printed letters

  /** The printer shows the unallocated condition 15 as "al". */
  function Shown(cond: bv8): bv8 {
    if cond == 0x0f then 0x0e else cond
  }

  function Letter(cond: bv8, mask: bv8, bit: nat): char
    requires bit < 4
  {
    if MaskBit(mask, bit) == cond & 1 then 't' else 'e'
  }

  /** The letters printed for the mask bits from `bit` down to the one above the lowest set bit. */
  function LettersFrom(cond: bv8, mask: bv8, zeros: nat, bit: nat): string
    requires bit < 4
    decreases bit
  {
    if bit <= zeros then [] else [Letter(cond, mask, bit)] + LettersFrom(cond, mask, zeros, bit - 1)
  }

  /** The letters after "it". */
  function Letters(cond: bv8, mask: bv8): string {
    LettersFrom(Shown(cond), mask, TrailingZeros(mask), 3)
  }

  lemma {:induction false} LettersAre(cond: bv8, mask: bv8, zeros: nat, bit: nat)
    requires bit < 4
    ensures |LettersFrom(cond, mask, zeros, bit)| == if bit <= zeros then 0 else bit - zeros
    ensures forall i :: 0 <= i < |LettersFrom(cond, mask, zeros, bit)| ==>
                          LettersFrom(cond, mask, zeros, bit)[i] == Letter(cond, mask, bit - i)
    decreases bit
  {
    hide Letter;
    if bit > zeros { LettersAre(cond, mask, zeros, bit - 1); }
  }

  lemma BitCompare(cond: bv8, b: bv8)
    requires cond < 16 && b < 2
    ensures b == Shown(cond) & 1 <==> (cond & 0x0e) | b == Shown(cond)
    ensures b != Shown(cond) & 1 <==> (cond & 0x0e) | b == Shown(cond) ^ 1
  {
  }

  lemma MaskBitSmall(mask: bv8, i: nat)
    requires i < 4
    ensures MaskBit(mask, i) < 2
  {
  }

  /** The printer and the analysis agree: there is one letter for each instruction of the block after
      the first, `t` where that instruction's condition is the one shown and `e` where it is the
      opposite one. */
  lemma LettersMatch(cond: bv8, mask: bv8, j: nat)
    requires cond < 16 && 0 < mask < 16 && 0 < j < BlockLength(mask)
    ensures |Letters(cond, mask)| == BlockLength(mask) - 1
    ensures Letters(cond, mask)[j - 1] == 't' <==> ConditionAt(cond, mask, j) == Shown(cond)
    ensures Letters(cond, mask)[j - 1] == 'e' <==> ConditionAt(cond, mask, j) == Shown(cond) ^ 1
  {
    MaskCases(mask);
    hide MaskBit, LettersFrom, Shown, TrailingZeros;
    LettersAre(Shown(cond), mask, TrailingZeros(mask), 3);
    MaskBitSmall(mask, 4 - j);
    BitCompare(cond, MaskBit(mask, 4 - j));
  }
}
