/** The AArch64 target operations that the planner and the relocator call, and that they keep the
    contracts the planner relies on. */
module A64Target {
  import opened Bits
  import opened Wrappers
  import opened ByteOrder
  import opened PcRelative
  import opened PackedFields
  import opened A64Code
  import opened A64Relocate
  import opened Block
  import opened Relocate
  import opened Detour
  import EmitRel

  /** The words as they are stored. */
  function Flatten(words: seq<u32>): (bytes: seq<u8>)
    ensures |bytes| == 4 * |words|
  {
    if words == [] then [] else Flatten(words[..|words| - 1]) + Bytes32(words[|words| - 1])
  }

  function EmitOf(p: Piece): Emit {
    Emit(p.status, 4 * |p.words|, if p.clobbersX16 then X16_MASK else 0, 0, Flatten(p.words))
  }

  /** `a64_inst_word`. */
  function WordOf(inst: Inst): u32 {
    if inst.size >= 4 && |inst.bytes| >= 4 then
      BytesOfLoad32(inst.bytes[..4]);
      Load32(inst.bytes[..4])
    else 0
  }

  /** What the decoder says about words whose form the relocator does not know: the target of their
      PC-relative operand, if they have one. */
  type OperandTargets = Inst -> Option<u64>

  /** `a64_relocate` on a decoded instruction; what is not PC-relative is copied. */
  function RelocateInst(targets: OperandTargets, inst: Inst, address: u64, capacity: nat): Emit {
    var word := WordOf(inst);
    if FormOf(word).None? && targets(inst).None? then
      if capacity < inst.size then Emit(OutputTooSmall, inst.size, 0, 0, [])
      else if inst.size > |inst.bytes| then Emit(OtherError, inst.size, 0, 0, [])
      else Emit(Ok, inst.size, 0, 0, inst.bytes[..inst.size])
    else EmitOf(RelocateWord(word, inst.address, address, capacity, targets(inst)))
  }

  /** `a64_analyze`, the parts that the planner adds up. */
  function Analyze(inst: Inst): Analysis {
    var form := FormOf(WordOf(inst));
    var maxSize :=
      if form.None? then inst.size else if form.value.Jump26? then 16 else if IsCond(form.value) then 20 else inst.size;
    Analysis(Ok, 0, maxSize, 0, 0, false)
  }

  /** `a64_emit_any` for a jump. */
  function JumpPiece(address: u64, target: u64, o: EmitOptions, capacity: nat): Piece {
    var direct := EmitDirect(false, address, target, capacity);
    if o.mode != AbsoluteOnly && (direct.status == Ok || direct.status == OutputTooSmall || o.mode == DirectOnly) then direct
    else if o.mode == PreferClobberless then Failed(ForbiddenClobber)
    else if o.mode == AllowScratchClobber && AndNot(X16_MASK, o.allowedLo) != 0 then Failed(ForbiddenClobber)
    else EmitAbs(false, target, capacity)
  }

  /** `a64_min_patch`. */
  function MinPatch(address: u64, replacement: u64, mode: Mode): Patch {
    if mode != AbsoluteOnly && EmitRel.FitsWords4(Distance(address, replacement), 0x800_0000) then Patch(4, 0, 0)
    else if mode == DirectOnly || mode == PreferClobberless then Patch(0, 0, 0)
    else Patch(16, X16_MASK, 0)
  }

  /** `a64_plan_jump_back`. */
  function PlanJumpBack(mode: Mode): Bound {
    if mode == DirectOnly || mode == PreferClobberless then Bound(Ok, 4, 0, 0, true) else Bound(Ok, 16, X16_MASK, 0, false)
  }

  function Ops(decode: Decoder, targets: OperandTargets): TargetOps {
    TargetOps(
      decode,
      (inst: Inst) => Analyze(inst),
      (inst: Inst, address: u64, capacity: nat) => RelocateInst(targets, inst, address, capacity),
      (address: u64, target: u64, o: EmitOptions, capacity: nat) => EmitOf(JumpPiece(address, target, o, capacity)),
      (address: u64, replacement: u64, mode: Mode) => MinPatch(address, replacement, mode),
      (mode: Mode) => PlanJumpBack(mode))
  }

  // ---- the contracts

  lemma NoFormOfZero(word: nat)
    requires word == 0
    ensures FormOf(word).None?
  {
    ZeroField(26, 5);
    ZeroField(24, 8);
    ZeroField(25, 6);
    ZeroField(27, 3);
    ZeroField(24, 5);
    hide Get;
  }

  lemma ZeroField(at: nat, n: nat)
    ensures Get(0, at, n) == 0
  {
    hide Bit, Get;
    forall i: nat ensures Bit(Get(0, at, n), i) == Bit(0, i) {
      BitOfGet(0, at, n, i);
      BitZero(i);
      BitZero(i + at);
    }
    SameBits(Get(0, at, n), 0);
  }

  /** The size and status of a relocated word. */
  lemma PieceSize(word: u32, address: u64, relocated: u64, capacity: nat, other: Option<u64>)
    ensures var p := RelocateWord(word, address, relocated, capacity, other);
            var form := FormOf(word);
            var bound := if form.None? then 4 else if form.value.Jump26? then 16 else if IsCond(form.value) then 20 else 4;
            && 4 * |p.words| <= capacity
            && 4 * |p.words| <= bound
            && (capacity >= bound ==> p.status != OutputTooSmall)
            && (form.None? && other.Some? ==> p.status != Ok)
  {
    hide FormOf, Reaches, Get, Wrap, Reencoded, SkipWord, NewDisp, InReach, EmitRel.A64Word, Distance;
  }

  lemma RelocateGood(targets: OperandTargets, inst: Inst, address: u64, capacity: nat)
    ensures var e := RelocateInst(targets, inst, address, capacity);
            var analysis := Analyze(inst);
            var bound := if analysis.maxEmitSize != 0 then analysis.maxEmitSize else inst.size;
            && GoodEmit(e, capacity)
            && (e.status == Ok ==> e.size <= bound)
            && (capacity >= bound && (targets(inst).Some? ==> inst.size >= 4) ==> e.status != OutputTooSmall)
  {
    hide FormOf, RelocateWord, WordOf;
    PieceSize(WordOf(inst), inst.address, address, capacity, targets(inst));
    ShortHasNoForm(inst);
  }

  lemma JumpGood(address: u64, target: u64, o: EmitOptions, capacity: nat)
    ensures var e := EmitOf(JumpPiece(address, target, o, capacity));
            && GoodEmit(e, capacity)
            && (e.status == Ok ==> e.size <= PlanJumpBack(o.mode).size)
            && (capacity >= PlanJumpBack(o.mode).size ==> e.status != OutputTooSmall)
  {
    hide EmitRel.A64Word, Distance;
  }

  /** The AArch64 operations keep every contract: they stay in their space, an instruction never takes
      more than its analysis announces, a jump never more than its bound, and that much is enough. */
  lemma KeepsContracts(decode: Decoder, targets: OperandTargets)
    requires ValidDecoder(decode) && forall inst: Inst :: targets(inst).Some? ==> inst.size >= 4
    ensures var t := Ops(decode, targets); ValidTarget(t) && HonoursBounds(t) && NeedsNoMore(t)
  {
    hide RelocateInst, JumpPiece, GoodEmit, EmitOf, Analyze, PlanJumpBack;
    var t := Ops(decode, targets);
    forall inst: Inst, address: u64, capacity: nat
      ensures GoodEmit(t.relocate(inst, address, capacity), capacity)
      ensures t.relocate(inst, address, capacity).status == Ok ==> t.relocate(inst, address, capacity).size <= Reserve(t, inst)
      ensures capacity >= Reserve(t, inst) ==> t.relocate(inst, address, capacity).status != OutputTooSmall
    {
      RelocateGood(targets, inst, address, capacity);
    }
    forall a: u64, b: u64, o: EmitOptions, capacity: nat
      ensures GoodEmit(t.jump(a, b, o, capacity), capacity)
      ensures t.jump(a, b, o, capacity).status == Ok ==> t.jump(a, b, o, capacity).size <= t.planJumpBack(o.mode).size
      ensures capacity >= t.planJumpBack(o.mode).size ==> t.jump(a, b, o, capacity).status != OutputTooSmall
    {
      JumpGood(a, b, o, capacity);
    }
    forall inst: Inst ensures t.analyze(inst).status != OutputTooSmall { AnalyzeOk(inst); }
  }

  lemma AnalyzeOk(inst: Inst)
    ensures Analyze(inst).status == Ok
  {
  }

  /** A jump that the emitter accepts leaves for its target, in every processor state. */
  lemma JumpMeans(address: u64, target: u64, o: EmitOptions, capacity: nat, env: Env)
    requires JumpPiece(address, target, o, capacity).status == Ok
    ensures Execute(JumpPiece(address, target, o, capacity).words, address, env) == Leaves(target, None, [])
  {
    hide FormOf, Reaches, Get, Wrap, EmitRel.A64Word, Distance, Execute, AbsoluteWords;
    if EmitDirect(false, address, target, capacity).status == Ok && o.mode != AbsoluteOnly {
      DirectWordIs(false, address, target);
      AloneRuns(EmitRel.A64Word(false, Distance(address, target)), address, env);
    } else {
      AbsoluteLeaves(address, target, env);
    }
  }

  lemma AbsoluteLeaves(address: u64, target: u64, env: Env)
    ensures Execute(AbsoluteWords(false, target), address, env) == Leaves(target, None, [])
  {
    FourWords(false, target);
    hide Run, AbsoluteWords;
    var words := AbsoluteWords(false, target);
    assert words[0..] == words;
    AbsoluteRuns(words, address, env, 0, false, target);
  }

  lemma ShortHasNoForm(inst: Inst)
    ensures inst.size < 4 ==> FormOf(WordOf(inst)).None?
  {
    hide FormOf;
    if inst.size < 4 { NoFormOfZero(WordOf(inst)); }
  }
}
