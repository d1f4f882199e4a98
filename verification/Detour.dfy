/** Planning a detour, and what the plan promises about carrying it out. */
module Detour {
  import opened Bits
  import opened ByteOrder
  import opened PcRelative
  import opened Block
  import opened Relocate

  datatype PlanOptions = PlanOptions(mode: Mode, minPatchOverride: nat)

  datatype Plan = Plan(
    patchSize: nat,
    minOverwriteSize: nat,
    trampolineMinSize: nat,
    nearIsland: bool,
    clobberLo: nat,
    clobberHi: nat,
    hazards: nat)

  const NO_PLAN := Plan(0, 0, 0, false, 0, 0, 0)

  /** The room the planner reserves for one instruction. */
  function Reserve(t: TargetOps, inst: Inst): nat {
    if t.analyze(inst).maxEmitSize != 0 then t.analyze(inst).maxEmitSize else inst.size
  }

  function Reserves(t: TargetOps, insts: seq<Inst>): nat {
    if insts == [] then 0 else Reserves(t, insts[..|insts| - 1]) + Reserve(t, insts[|insts| - 1])
  }

  function AnalyzedLo(t: TargetOps, insts: seq<Inst>, from: nat): nat {
    if insts == [] then from else Or(AnalyzedLo(t, insts[..|insts| - 1], from), t.analyze(insts[|insts| - 1]).clobberLo)
  }

  function AnalyzedHi(t: TargetOps, insts: seq<Inst>, from: nat): nat {
    if insts == [] then from else Or(AnalyzedHi(t, insts[..|insts| - 1], from), t.analyze(insts[|insts| - 1]).clobberHi)
  }

  predicate Plannable(t: TargetOps, insts: seq<Inst>) {
    forall k :: 0 <= k < |insts| ==> t.analyze(insts[k]).status == Ok && !t.analyze(insts[k]).rejected
  }

  function PatchOf(t: TargetOps, address: u64, replacement: u64, o: PlanOptions): Patch {
    t.minPatch(address, replacement, o.mode)
  }

  function MinOverwrite(t: TargetOps, address: u64, replacement: u64, o: PlanOptions): nat {
    var size := PatchOf(t, address, replacement, o).size;
    if o.minPatchOverride > size then o.minPatchOverride else size
  }

  /** The plan for a block. */
  function PlanOf(t: TargetOps, insts: seq<Inst>, address: u64, replacement: u64, o: PlanOptions): Plan {
    var patch, back := PatchOf(t, address, replacement, o), t.planJumpBack(o.mode);
    Plan(patch.size, Total(insts), Reserves(t, insts) + back.size, back.nearIsland,
         AnalyzedLo(t, insts, Or(patch.clobberLo, back.clobberLo)), AnalyzedHi(t, insts, Or(patch.clobberHi, back.clobberHi)),
         Hazards(t, insts))
  }

  lemma OneMoreReserve(t: TargetOps, insts: seq<Inst>, n: nat, lo: nat, hi: nat)
    requires n < |insts|
    ensures Reserves(t, insts[..n + 1]) == Reserves(t, insts[..n]) + Reserve(t, insts[n])
    ensures Hazards(t, insts[..n + 1]) == Or(Hazards(t, insts[..n]), t.analyze(insts[n]).hazards)
    ensures AnalyzedLo(t, insts[..n + 1], lo) == Or(AnalyzedLo(t, insts[..n], lo), t.analyze(insts[n]).clobberLo)
    ensures AnalyzedHi(t, insts[..n + 1], hi) == Or(AnalyzedHi(t, insts[..n], hi), t.analyze(insts[n]).clobberHi)
  {
    assert insts[..n + 1][..n] == insts[..n];
  }

  /** The block that is planned for. */
  function PlannedBlock(t: TargetOps, code: seq<u8>, address: u64, replacement: u64, o: PlanOptions): Block.Result {
    Prologue(t, code, address, MinOverwrite(t, address, replacement, o))
  }

  /** The status of the first instruction that cannot be planned for. */
  function Refusal(t: TargetOps, insts: seq<Inst>): Status {
    if insts == [] then Ok
    else
      var before, analysis := Refusal(t, insts[..|insts| - 1]), t.analyze(insts[|insts| - 1]);
      if before != Ok then before
      else if analysis.status != Ok then analysis.status
      else if analysis.rejected then UnsupportedRelocation
      else Ok
  }

  function PlanStatus(t: TargetOps, code: seq<u8>, address: u64, replacement: u64, o: PlanOptions): Status {
    var block := PlannedBlock(t, code, address, replacement, o);
    if PatchOf(t, address, replacement, o).size == 0 then BranchOutOfRange
    else if t.planJumpBack(o.mode).status != Ok then t.planJumpBack(o.mode).status
    else if block.status != Ok then block.status
    else Refusal(t, block.insts)
  }

  lemma {:induction false} RefusalMeaning(t: TargetOps, insts: seq<Inst>)
    ensures Refusal(t, insts) == Ok <==> Plannable(t, insts)
    decreases |insts|
  {
    if insts != [] {
      RefusalMeaning(t, insts[..|insts| - 1]);
    }
  }

  lemma {:induction false} RefusalSticks(t: TargetOps, insts: seq<Inst>, n: nat)
    requires n <= |insts| && Refusal(t, insts[..n]) != Ok
    ensures Refusal(t, insts) == Refusal(t, insts[..n])
    decreases |insts|
  {
    if n < |insts| {
      assert insts[..|insts| - 1][..n] == insts[..n];
      RefusalSticks(t, insts[..|insts| - 1], n);
    } else {
      assert insts[..n] == insts;
    }
  }

  lemma RefusalOneMore(t: TargetOps, insts: seq<Inst>, n: nat)
    requires n < |insts| && Refusal(t, insts[..n]) == Ok
    ensures Refusal(t, insts[..n + 1]) ==
            var analysis := t.analyze(insts[n]);
            if analysis.status != Ok then analysis.status else if analysis.rejected then UnsupportedRelocation else Ok
    ensures Refusal(t, insts[..n + 1]) != Ok ==> Refusal(t, insts) == Refusal(t, insts[..n + 1])
  {
    assert insts[..n + 1][..n] == insts[..n];
    if Refusal(t, insts[..n + 1]) != Ok { RefusalSticks(t, insts, n + 1); }
  }

  /** `asmkit_plan_detour`.  `plan` is meaningful on success. */
  method PlanDetour(t: TargetOps, code: seq<u8>, address: u64, replacement: u64, o: PlanOptions)
    returns (status: Status, plan: Plan)
    ensures status == PlanStatus(t, code, address, replacement, o)
    ensures status == Ok ==>
              var block := PlannedBlock(t, code, address, replacement, o);
              && PatchOf(t, address, replacement, o).size > 0
              && t.planJumpBack(o.mode).status == Ok
              && block.status == Ok
              && Plannable(t, block.insts)
              && plan == PlanOf(t, block.insts, address, replacement, o)
  {
    hide WholeBlock, Total, Or, Reserve, Reserves, Hazards, AnalyzedLo, AnalyzedHi, Refusal, Plannable;
    plan := NO_PLAN;
    var patch := t.minPatch(address, replacement, o.mode);
    if patch.size == 0 {
      return BranchOutOfRange, plan;
    }
    var back := t.planJumpBack(o.mode);
    if back.status != Ok {
      return back.status, plan;
    }
    var insts := new Inst[MAX_BLOCK](_ => Inst(0, 0, false, [], 0));
    var count, total;
    status, count, total := DecodeBlockUntil(t.decode, code, address, MinOverwrite(t, address, replacement, o), insts);
    if status != Ok {
      return;
    }
    var block := insts[..count];
    var lo, hi := Or(patch.clobberLo, back.clobberLo), Or(patch.clobberHi, back.clobberHi);
    var clobberLo, clobberHi, hazards, room, i := lo, hi, 0, 0, 0;
    assert block[..0] == [];
    NothingPlanned(t, lo, hi);
    while i < count
      invariant 0 <= i <= count
      invariant insts[..count] == block
      invariant Refusal(t, block[..i]) == Ok
      invariant room == Reserves(t, block[..i]) && hazards == Hazards(t, block[..i])
      invariant clobberLo == AnalyzedLo(t, block[..i], lo) && clobberHi == AnalyzedHi(t, block[..i], hi)
    {
      var analysis := t.analyze(insts[i]);
      assert insts[i] == block[i];
      RefusalOneMore(t, block, i);
      if analysis.status != Ok {
        return analysis.status, plan;
      }
      OneMoreReserve(t, block, i, lo, hi);
      room := room + Reserve(t, insts[i]);
      hazards := Or(hazards, analysis.hazards);
      clobberLo, clobberHi := Or(clobberLo, analysis.clobberLo), Or(clobberHi, analysis.clobberHi);
      if analysis.rejected {
        return UnsupportedRelocation, plan;
      }
      i := i + 1;
    }
    assert block[..count] == block;
    RefusalMeaning(t, block);
    plan := Plan(patch.size, total, room + back.size, back.nearIsland, clobberLo, clobberHi, hazards);
  }

  lemma NothingPlanned(t: TargetOps, lo: nat, hi: nat)
    ensures Reserves(t, []) == 0 && Hazards(t, []) == 0 && AnalyzedLo(t, [], lo) == lo && AnalyzedHi(t, [], hi) == hi
    ensures Refusal(t, []) == Ok
  {
  }

  // ---- the plan bounds the relocation

  /** What the planner relies on: an instruction never takes more than its analysis says, nor a jump
      more than the bound for its mode. */
  ghost predicate HonoursBounds(t: TargetOps) {
    && (forall inst: Inst, address: u64, capacity: nat ::
          t.relocate(inst, address, capacity).status == Ok && t.analyze(inst).status == Ok ==>
            t.relocate(inst, address, capacity).size <= Reserve(t, inst))
    && (forall a: u64, b: u64, o: EmitOptions, capacity: nat ::
          t.jump(a, b, o, capacity).status == Ok && t.planJumpBack(o.mode).status == Ok ==>
            t.jump(a, b, o, capacity).size <= t.planJumpBack(o.mode).size)
  }

  /** And room for the reserve is enough room. */
  ghost predicate NeedsNoMore(t: TargetOps) {
    && (forall inst: Inst :: t.analyze(inst).status != OutputTooSmall)
    && (forall inst: Inst, address: u64, capacity: nat ::
          capacity >= Reserve(t, inst) ==> t.relocate(inst, address, capacity).status != OutputTooSmall)
    && (forall a: u64, b: u64, o: EmitOptions, capacity: nat ::
          t.planJumpBack(o.mode).status == Ok && capacity >= t.planJumpBack(o.mode).size ==>
            t.jump(a, b, o, capacity).status != OutputTooSmall)
  }

  lemma {:induction false} ReservesBound(t: TargetOps, relocated: u64, capacity: nat, insts: seq<Inst>, o: EmitOptions)
    requires HonoursBounds(t) && FirstFailure(t, insts, Emits(t, relocated, capacity, insts), o) == Ok
    ensures Size(Emits(t, relocated, capacity, insts)) <= Reserves(t, insts)
    decreases |insts|
  {
    hide Wrap, Reserve;
    if insts != [] {
      var n := |insts| - 1;
      var before := Emits(t, relocated, capacity, insts[..n]);
      assert Emits(t, relocated, capacity, insts)[..n] == before;
      ReservesBound(t, relocated, capacity, insts[..n], o);
      var at := Size(before);
      var e := EmitFor(t, relocated, capacity, insts[n], at);
      OneMoreEmit(before, e);
      EmitBounded(t, relocated, capacity, insts[n], at);
    }
  }

  lemma EmitBounded(t: TargetOps, relocated: u64, capacity: nat, inst: Inst, at: nat)
    requires HonoursBounds(t) && EmitFor(t, relocated, capacity, inst, at).status == Ok && t.analyze(inst).status == Ok
    ensures EmitFor(t, relocated, capacity, inst, at).size <= Reserve(t, inst)
  {
  }

  /** A relocation that carries out a plan: the planned size, the planned mode. */
  predicate CarriesOut(plan: Plan, po: PlanOptions, o: Options) {
    o.minOverwrite == plan.minOverwriteSize && o.emit.mode == po.mode
  }

  ghost predicate Planned(t: TargetOps, code: seq<u8>, address: u64, replacement: u64, po: PlanOptions, plan: Plan) {
    var block := PlannedBlock(t, code, address, replacement, po);
    && PatchOf(t, address, replacement, po).size > 0
    && t.planJumpBack(po.mode).status == Ok
    && block.status == Ok
    && plan == PlanOf(t, block.insts, address, replacement, po)
  }

  /** The relocator decodes the planner's block. */
  lemma SameBlockAsPlanned(t: TargetOps, code: seq<u8>, address: u64, replacement: u64, po: PlanOptions, plan: Plan, o: Options)
    requires ValidTarget(t) && Planned(t, code, address, replacement, po, plan) && CarriesOut(plan, po, o)
    ensures Prologue(t, code, address, MinSize(o)) == PlannedBlock(t, code, address, replacement, po)
  {
    hide WholeBlock, Total;
    var block := PlannedBlock(t, code, address, replacement, po);
    var minSize := MinOverwrite(t, address, replacement, po);
    BlockMeaning(t.decode, code, address, minSize, MAX_BLOCK, block.insts);
    SameBlock(t.decode, code, address, minSize, MAX_BLOCK, block.insts, Total(block.insts));
  }

  /** The sizes of a successful relocation. */
  lemma RelocatedSizes(t: TargetOps, block: Block.Result, relocated: u64, o: Options, out: seq<u8>, before: seq<u8>, report: Report)
    requires Relocated(t, block, relocated, o, out, before, report)
    ensures var emits := Emits(t, relocated, |out|, block.insts);
            var jump := JumpOf(t, relocated, o, |out|, emits);
            && FirstFailure(t, block.insts, emits, o.emit) == Ok
            && jump.status == Ok
            && report.overwrittenSize == Total(block.insts)
            && report.relocatedSize == Size(emits) + jump.size
            && report.hazards == Hazards(t, block.insts)
  {
    hide Wrap, LaidOut, Emits, Or, Hazards, Records, FirstFailure, Size, EmitJump, ReportOf, AllAccepted, Total, JumpOf, Code;
    var emits := Emits(t, relocated, |out|, block.insts);
    NoFailure(t, block.insts, emits, o.emit);
    ReportedSize(t, block.insts, relocated, emits, JumpOf(t, relocated, o, |out|, emits));
  }

  /** Carrying out a plan overwrites exactly the planned bytes, and the relocated code fits the planned
      trampoline. */
  lemma PlanBoundsRelocation(t: TargetOps, code: seq<u8>, address: u64, replacement: u64, po: PlanOptions, plan: Plan,
                             relocated: u64, o: Options, out: seq<u8>, before: seq<u8>, report: Report)
    requires ValidTarget(t) && HonoursBounds(t)
    requires Planned(t, code, address, replacement, po, plan) && CarriesOut(plan, po, o)
    requires Relocated(t, Prologue(t, code, address, MinSize(o)), relocated, o, out, before, report)
    ensures report.overwrittenSize == plan.minOverwriteSize
    ensures report.relocatedSize <= plan.trampolineMinSize
    ensures report.hazards == plan.hazards
  {
    hide Relocated, Emits, Or, AnalyzedLo, AnalyzedHi, Hazards, FirstFailure, HonoursBounds, ValidTarget, Reserves, Size,
         EmitJump, Total, WholeBlock;
    SameBlockAsPlanned(t, code, address, replacement, po, plan, o);
    var block := PlannedBlock(t, code, address, replacement, po);
    RelocatedSizes(t, block, relocated, o, out, before, report);
    ReservesBound(t, relocated, |out|, block.insts, o.emit);
    JumpOfBounded(t, relocated, o, |out|, Emits(t, relocated, |out|, block.insts));
  }

  /** What was emitted when a plan was carried out, the jump back included. */
  function Emitted(t: TargetOps, code: seq<u8>, address: u64, relocated: u64, o: Options, capacity: nat): seq<Emit> {
    var emits := Emits(t, relocated, capacity, Prologue(t, code, address, MinSize(o)).insts);
    emits + [JumpOf(t, relocated, o, capacity, emits)]
  }

  predicate KeepsLo(emits: seq<Emit>, mask: nat) {
    forall k :: 0 <= k < |emits| ==> AndNot(emits[k].clobberLo, mask) == 0
  }

  predicate KeepsHi(emits: seq<Emit>, mask: nat) {
    forall k :: 0 <= k < |emits| ==> AndNot(emits[k].clobberHi, mask) == 0
  }

  /** The reported clobbers are among the planned ones exactly when each emission keeps to the planned ones. */
  lemma PlanCoversClobbers(t: TargetOps, code: seq<u8>, address: u64, plan: Plan, relocated: u64, o: Options, out: seq<u8>,
                           before: seq<u8>, report: Report)
    requires Relocated(t, Prologue(t, code, address, MinSize(o)), relocated, o, out, before, report)
    ensures var all := Emitted(t, code, address, relocated, o, |out|);
            && (AndNot(report.clobberLo, plan.clobberLo) == 0 <==> KeepsLo(all, plan.clobberLo))
            && (AndNot(report.clobberHi, plan.clobberHi) == 0 <==> KeepsHi(all, plan.clobberHi))
  {
    hide Relocated, Emits, Or, AndNot, WholeBlock, UnionLo, UnionHi, JumpOf;
    ClobbersReported(t, Prologue(t, code, address, MinSize(o)), relocated, o, out, before, report);
    UnionWithin(Emitted(t, code, address, relocated, o, |out|), plan.clobberLo, plan.clobberHi);
  }

  lemma JumpOfBounded(t: TargetOps, relocated: u64, o: Options, capacity: nat, emits: seq<Emit>)
    requires HonoursBounds(t) && t.planJumpBack(o.emit.mode).status == Ok
    requires JumpOf(t, relocated, o, capacity, emits).status == Ok
    ensures JumpOf(t, relocated, o, capacity, emits).size <= t.planJumpBack(o.emit.mode).size
  {
    hide EmitJump, HonoursBounds, Size;
    var at := Size(emits);
    JumpBounded(t, Wrap(relocated + at), o, if at <= capacity then capacity - at else 0);
  }

  lemma JumpBounded(t: TargetOps, address: u64, o: Options, capacity: nat)
    requires HonoursBounds(t) && t.planJumpBack(o.emit.mode).status == Ok
    requires EmitJump(t, address, o.continuation, o.emit, capacity).status == Ok
    ensures EmitJump(t, address, o.continuation, o.emit, capacity).size <= t.planJumpBack(o.emit.mode).size
  {
  }

  /** A trampoline of the planned size is large enough: carrying out the plan in it never fails for
      want of room. */
  lemma PlanSuffices(t: TargetOps, code: seq<u8>, address: u64, replacement: u64, po: PlanOptions, plan: Plan,
                     relocated: u64, o: Options, capacity: nat)
    requires ValidTarget(t) && HonoursBounds(t) && NeedsNoMore(t)
    requires Planned(t, code, address, replacement, po, plan) && CarriesOut(plan, po, o)
    requires capacity >= plan.trampolineMinSize
    ensures Outcome(t, Prologue(t, code, address, MinSize(o)), relocated, o, capacity) != OutputTooSmall
  {
    SameBlockAsPlanned(t, code, address, replacement, po, plan, o);
    hide Wrap, WholeBlock, Emits, Or, AnalyzedLo, AnalyzedHi, Hazards, FirstFailure, HonoursBounds, ValidTarget, Reserves, Size,
         EmitJump, NeedsNoMore;
    var insts := PlannedBlock(t, code, address, replacement, po).insts;
    var emits := Emits(t, relocated, capacity, insts);
    InstsFit(t, relocated, capacity, insts, o.emit);
    if FirstFailure(t, insts, emits, o.emit) == Ok {
      ReservesBound(t, relocated, capacity, insts, o.emit);
      JumpFits(t, Wrap(relocated + Size(emits)), o, capacity - Size(emits));
    }
  }

  lemma JumpFits(t: TargetOps, address: u64, o: Options, capacity: nat)
    requires NeedsNoMore(t) && t.planJumpBack(o.emit.mode).status == Ok && capacity >= t.planJumpBack(o.emit.mode).size
    ensures EmitJump(t, address, o.continuation, o.emit, capacity).status != OutputTooSmall
  {
  }

  lemma {:induction false} InstsFit(t: TargetOps, relocated: u64, capacity: nat, insts: seq<Inst>, o: EmitOptions)
    requires HonoursBounds(t) && NeedsNoMore(t) && capacity >= Reserves(t, insts)
    ensures FirstFailure(t, insts, Emits(t, relocated, capacity, insts), o) != OutputTooSmall
    decreases |insts|
  {
    hide Wrap, HonoursBounds, NeedsNoMore, Reserve, EmitFor, InstStatus;
    if insts != [] {
      var n := |insts| - 1;
      var before := Emits(t, relocated, capacity, insts[..n]);
      assert Emits(t, relocated, capacity, insts)[..n] == before;
      InstsFit(t, relocated, capacity, insts[..n], o);
      if FirstFailure(t, insts[..n], before, o) == Ok {
        ReservesBound(t, relocated, capacity, insts[..n], o);
        InstFits(t, relocated, capacity, insts[n], Size(before), o);
      }
    }
  }

  lemma InstFits(t: TargetOps, relocated: u64, capacity: nat, inst: Inst, at: nat, o: EmitOptions)
    requires NeedsNoMore(t) && at + Reserve(t, inst) <= capacity
    ensures InstStatus(t, inst, EmitFor(t, relocated, capacity, inst, at), o) != OutputTooSmall
  {
  }

  // ---- what a plan says

  /** Planning succeeds exactly when the patch and the jump back are possible in the mode, and the code begins with a
      block of the patch's size whose instructions can all be planned for. */
  lemma PlanSucceeds(t: TargetOps, code: seq<u8>, address: u64, replacement: u64, o: PlanOptions)
    requires ValidDecoder(t.decode)
    ensures PlanStatus(t, code, address, replacement, o) == Ok <==>
            && PatchOf(t, address, replacement, o).size > 0
            && t.planJumpBack(o.mode).status == Ok
            && exists insts: seq<Inst> ::
                 && IsBlock(t.decode, code, address, MinOverwrite(t, address, replacement, o), MAX_BLOCK, insts)
                 && Plannable(t, insts)
  {
    hide WholeBlock, IsBlock, Refusal, Plannable, MinOverwrite, PatchOf;
    var minSize := MinOverwrite(t, address, replacement, o);
    var block := PlannedBlock(t, code, address, replacement, o);
    RefusalMeaning(t, block.insts);
    BlockMeaning(t.decode, code, address, minSize, MAX_BLOCK, block.insts);
    if insts: seq<Inst> :| IsBlock(t.decode, code, address, minSize, MAX_BLOCK, insts) && Plannable(t, insts) {
      BlockMeaning(t.decode, code, address, minSize, MAX_BLOCK, insts);
    }
  }

  /** The bytes that a plan overwrites hold the patch and the caller's own minimum, and would not without the last
      instruction. */
  lemma PlanCoversPatch(t: TargetOps, code: seq<u8>, address: u64, replacement: u64, po: PlanOptions, plan: Plan)
    requires ValidDecoder(t.decode) && Planned(t, code, address, replacement, po, plan)
    ensures 0 < plan.patchSize <= plan.minOverwriteSize <= |code| && po.minPatchOverride <= plan.minOverwriteSize
    ensures var insts := PlannedBlock(t, code, address, replacement, po).insts;
            && insts != []
            && (Start(insts, |insts| - 1) < plan.patchSize || Start(insts, |insts| - 1) < po.minPatchOverride)
  {
    hide WholeBlock, Reserves, Hazards, AnalyzedLo, AnalyzedHi, Or;
    var insts := PlannedBlock(t, code, address, replacement, po).insts;
    BlockMeaning(t.decode, code, address, MinOverwrite(t, address, replacement, po), MAX_BLOCK, insts);
    StartOfAll(insts);
  }

  /** What the plan announces is what the patch, the jump back or some instruction of the block announces. */
  lemma PlannedBits(t: TargetOps, code: seq<u8>, address: u64, replacement: u64, po: PlanOptions, plan: Plan, b: nat)
    requires Planned(t, code, address, replacement, po, plan)
    ensures var insts := PlannedBlock(t, code, address, replacement, po).insts;
            var patch, back := PatchOf(t, address, replacement, po), t.planJumpBack(po.mode);
            && (Bit(plan.clobberLo, b) <==>
                  || Bit(patch.clobberLo, b) || Bit(back.clobberLo, b)
                  || exists k :: 0 <= k < |insts| && Bit(t.analyze(insts[k]).clobberLo, b))
            && (Bit(plan.clobberHi, b) <==>
                  || Bit(patch.clobberHi, b) || Bit(back.clobberHi, b)
                  || exists k :: 0 <= k < |insts| && Bit(t.analyze(insts[k]).clobberHi, b))
            && (Bit(plan.hazards, b) <==> exists k :: 0 <= k < |insts| && Bit(t.analyze(insts[k]).hazards, b))
            && plan.patchSize == patch.size && plan.nearIsland == back.nearIsland
  {
    hide WholeBlock, Reserves, Hazards, AnalyzedLo, AnalyzedHi, Or, Bit;
    var insts := PlannedBlock(t, code, address, replacement, po).insts;
    var patch, back := PatchOf(t, address, replacement, po), t.planJumpBack(po.mode);
    BitOr(patch.clobberLo, back.clobberLo, b);
    BitOr(patch.clobberHi, back.clobberHi, b);
    AnalyzedBits(t, insts, Or(patch.clobberLo, back.clobberLo), Or(patch.clobberHi, back.clobberHi), b);
  }

  lemma {:induction false} AnalyzedBits(t: TargetOps, insts: seq<Inst>, lo: nat, hi: nat, b: nat)
    ensures Bit(AnalyzedLo(t, insts, lo), b) <==>
              Bit(lo, b) || exists k :: 0 <= k < |insts| && Bit(t.analyze(insts[k]).clobberLo, b)
    ensures Bit(AnalyzedHi(t, insts, hi), b) <==>
              Bit(hi, b) || exists k :: 0 <= k < |insts| && Bit(t.analyze(insts[k]).clobberHi, b)
    ensures Bit(Hazards(t, insts), b) <==> exists k :: 0 <= k < |insts| && Bit(t.analyze(insts[k]).hazards, b)
    decreases |insts|
  {
    hide Bit, Or;
    if insts == [] {
      BitZero(b);
    } else {
      var n := |insts| - 1;
      AnalyzedBits(t, insts[..n], lo, hi, b);
      assert forall k :: 0 <= k < n ==> insts[..n][k] == insts[k];
      BitOr(AnalyzedLo(t, insts[..n], lo), t.analyze(insts[n]).clobberLo, b);
      BitOr(AnalyzedHi(t, insts[..n], hi), t.analyze(insts[n]).clobberHi, b);
      BitOr(Hazards(t, insts[..n]), t.analyze(insts[n]).hazards, b);
    }
  }

  /** Every emission is as large as the analysis says that it may become, or as the instruction when it does not say. */
  predicate TakesReserve(t: TargetOps, insts: seq<Inst>, emits: seq<Emit>)
    requires |emits| == |insts|
  {
    forall k :: 0 <= k < |insts| ==>
      && (t.analyze(insts[k]).maxEmitSize != 0 ==> emits[k].size == t.analyze(insts[k]).maxEmitSize)
      && (t.analyze(insts[k]).maxEmitSize == 0 ==> emits[k].size == insts[k].size)
  }

  lemma {:induction false} ReservesReached(t: TargetOps, relocated: u64, capacity: nat, insts: seq<Inst>, o: EmitOptions)
    requires HonoursBounds(t) && FirstFailure(t, insts, Emits(t, relocated, capacity, insts), o) == Ok
    ensures var emits := Emits(t, relocated, capacity, insts);
            Size(emits) == Reserves(t, insts) <==> TakesReserve(t, insts, emits)
    decreases |insts|
  {
    hide Wrap, Reserve, HonoursBounds, TakesReserve;
    if insts == [] {
      NothingTaken(t);
    } else {
      var n := |insts| - 1;
      var before := Emits(t, relocated, capacity, insts[..n]);
      assert Emits(t, relocated, capacity, insts)[..n] == before;
      ReservesReached(t, relocated, capacity, insts[..n], o);
      ReservesBound(t, relocated, capacity, insts[..n], o);
      var at := Size(before);
      var e := EmitFor(t, relocated, capacity, insts[n], at);
      OneMoreEmit(before, e);
      EmitBounded(t, relocated, capacity, insts[n], at);
      TakesOneMore(t, insts, before, e);
    }
  }

  lemma NothingTaken(t: TargetOps)
    ensures TakesReserve(t, [], [])
  {
  }

  lemma TakesOneMore(t: TargetOps, insts: seq<Inst>, before: seq<Emit>, e: Emit)
    requires |insts| == |before| + 1
    ensures TakesReserve(t, insts, before + [e])
            <==> TakesReserve(t, insts[..|before|], before) && e.size == Reserve(t, insts[|before|])
  {
    var n, all := |before|, before + [e];
    assert all[n] == e && forall k :: 0 <= k < n ==> insts[..n][k] == insts[k] && all[k] == before[k];
  }

  /** The planned room is used up exactly when every instruction takes its reserve and the jump back its bound. */
  lemma PlanIsTight(t: TargetOps, code: seq<u8>, address: u64, replacement: u64, po: PlanOptions, plan: Plan,
                    relocated: u64, o: Options, out: seq<u8>, before: seq<u8>, report: Report)
    requires ValidTarget(t) && HonoursBounds(t)
    requires Planned(t, code, address, replacement, po, plan) && CarriesOut(plan, po, o)
    requires Relocated(t, Prologue(t, code, address, MinSize(o)), relocated, o, out, before, report)
    ensures var insts := PlannedBlock(t, code, address, replacement, po).insts;
            var emits := Emits(t, relocated, |out|, insts);
            report.relocatedSize == plan.trampolineMinSize <==>
              TakesReserve(t, insts, emits) && JumpOf(t, relocated, o, |out|, emits).size == t.planJumpBack(po.mode).size
  {
    hide Relocated, Emits, Or, AnalyzedLo, AnalyzedHi, Hazards, FirstFailure, HonoursBounds, ValidTarget, Reserves, Size,
         EmitJump, Total, WholeBlock, TakesReserve;
    SameBlockAsPlanned(t, code, address, replacement, po, plan, o);
    var block := PlannedBlock(t, code, address, replacement, po);
    RelocatedSizes(t, block, relocated, o, out, before, report);
    ReservesBound(t, relocated, |out|, block.insts, o.emit);
    ReservesReached(t, relocated, |out|, block.insts, o.emit);
    JumpOfBounded(t, relocated, o, |out|, Emits(t, relocated, |out|, block.insts));
  }
}
