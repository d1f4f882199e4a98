/** Which registers an AArch64 detour clobbers, as planned and as carried out. */
module A64Detour {
  import opened Bits
  import opened Wrappers
  import opened ByteOrder
  import opened PcRelative
  import opened PackedFields
  import opened A64Code
  import opened A64Relocate
  import opened A64Target
  import opened A64Trampoline
  import opened Block
  import opened Relocate
  import opened Detour
  import EmitRel

  /** The modes in which plan and jump promise to clobber nothing. */
  predicate Clobberless(mode: Mode) {
    mode == DirectOnly || mode == PreferClobberless
  }

  /** The word does not reach its target from its new place, and goes through X16. */
  predicate Expands(word: nat, address: u64, relocated: u64) {
    var form := FormOf(word);
    form.Some? &&
      var target := Reaches(word, address, form.value);
      if form.value.Jump26? then !EmitRel.FitsWords4(Distance(relocated, target), 0x800_0000)
      else !InReach(NewDisp(relocated, target, form.value), form.value)
  }

  lemma PieceClobbers(word: u32, address: u64, relocated: u64, capacity: nat, other: Option<u64>)
    requires RelocateWord(word, address, relocated, capacity, other).status == Ok
    ensures RelocateWord(word, address, relocated, capacity, other).clobbersX16 <==> Expands(word, address, relocated)
  {
    hide FormOf, Reaches, Get, Wrap, Reencoded, SkipWord, NewDisp, InReach, EmitRel.A64Word, Distance, AbsoluteWords;
  }

  /** A relocated instruction clobbers X16 exactly when it expands, and nothing else. */
  lemma InstClobbers(targets: OperandTargets, inst: Inst, address: u64, capacity: nat)
    requires RelocateInst(targets, inst, address, capacity).status == Ok
    ensures var e := RelocateInst(targets, inst, address, capacity);
            e.clobberHi == 0 && e.clobberLo == if Expands(WordOf(inst), inst.address, address) then X16_MASK else 0
  {
    hide FormOf, RelocateWord, WordOf, Reaches, InReach, Flatten;
    if !(FormOf(WordOf(inst)).None? && targets(inst).None?) {
      PieceClobbers(WordOf(inst), inst.address, address, capacity, targets(inst));
    }
  }

  lemma JumpClobbersX16(address: u64, target: u64, o: EmitOptions, capacity: nat)
    requires JumpPiece(address, target, o, capacity).status == Ok
    ensures Clobberless(o.mode) ==> !JumpPiece(address, target, o, capacity).clobbersX16
  {
    hide EmitRel.A64Word, Distance, AbsoluteWords;
  }

  lemma NothingOutside(mask: nat)
    ensures AndNot(0, mask) == 0
  {
  }

  lemma {:induction false} AnalyzedNothing(t: TargetOps, decode: Decoder, targets: OperandTargets, insts: seq<Inst>, lo: nat, hi: nat)
    requires t == Ops(decode, targets)
    ensures AnalyzedLo(t, insts, lo) == lo && AnalyzedHi(t, insts, hi) == hi
    decreases |insts|
  {
    hide Or, RelocateInst, JumpPiece, MinPatch, PlanJumpBack, EmitOf, WordOf, FormOf;
    if insts != [] {
      AnalyzedNothing(t, decode, targets, insts[..|insts| - 1], lo, hi);
      OrZero(lo);
      OrZero(hi);
    }
  }

  lemma X16Inside(patch: nat)
    requires patch == 0 || patch == X16_MASK
    ensures Or(patch, X16_MASK) == X16_MASK && AndNot(X16_MASK, X16_MASK) == 0
  {
    hide Or, Bit;
    if patch == X16_MASK {
      OrBits(patch, X16_MASK);
      SameBits(Or(patch, X16_MASK), X16_MASK);
    } else {
      OrBits(0, X16_MASK);
      forall i: nat { BitZero(i); }
      SameBits(Or(0, X16_MASK), X16_MASK);
    }
    AndNotBits(X16_MASK, X16_MASK);
    forall i: nat { BitZero(i); }
    SameBits(AndNot(X16_MASK, X16_MASK), 0);
  }

  /** A plan announces nothing in the clobberless modes, and X16 otherwise. */
  lemma PlannedClobbers(decode: Decoder, targets: OperandTargets, code: seq<u8>, address: u64, replacement: u64, po: PlanOptions, plan: Plan)
    requires Planned(Ops(decode, targets), code, address, replacement, po, plan)
    ensures plan.clobberHi == 0 && plan.clobberLo == if Clobberless(po.mode) then 0 else X16_MASK
  {
    var t := Ops(decode, targets);
    var patch, back := PatchOf(t, address, replacement, po), t.planJumpBack(po.mode);
    assert patch == MinPatch(address, replacement, po.mode) && back == PlanJumpBack(po.mode);
    var block := PlannedBlock(t, code, address, replacement, po);
    hide Or, WholeBlock, Reserves, Hazards, Ops, Total;
    AnalyzedNothing(t, decode, targets, block.insts, Or(patch.clobberLo, back.clobberLo), Or(patch.clobberHi, back.clobberHi));
    OrZero(0);
    X16Inside(patch.clobberLo);
  }

  lemma OneClobber(mask: nat, planned: nat)
    requires (mask == 0 || mask == X16_MASK) && (planned == 0 || planned == X16_MASK)
    ensures AndNot(mask, planned) == 0 <==> mask == 0 || planned == X16_MASK
  {
    X16Inside(0);
    NothingOutside(planned);
    assert AndNot(X16_MASK, 0) == X16_MASK by {
      AndNotBits(X16_MASK, 0);
      forall i: nat { BitZero(i); }
      SameBits(AndNot(X16_MASK, 0), X16_MASK);
    }
  }

  /** The emission of instruction `k`. */
  lemma EmittedInst(t: TargetOps, targets: OperandTargets, insts: seq<Inst>, relocated: u64, o: Options, out: seq<u8>, before: seq<u8>,
                    report: Report, k: nat)
    requires ValidTarget(t) && IsA64(t, targets) && Relocated(t, Block.Result(Ok, insts), relocated, o, out, before, report)
    ensures |report.insts| == |insts|
    ensures k < |insts| ==>
              var e := Emits(t, relocated, |out|, insts)[k];
              e.clobberHi == 0
              && e.clobberLo == if Expands(WordOf(insts[k]), insts[k].address, report.insts[k].relocatedAddress) then X16_MASK else 0
  {
    hide ValidTarget, Relocated, IsA64, Wrap, RelocateInst, WordOf, Expands, Size, Emits;
    EmissionEach(t, insts, relocated, o, out, before, report, k);
    if k < |insts| {
      var r := report.insts[k];
      A64Relocates(t, targets, insts[k], r.relocatedAddress, |out| - r.relocatedOffset);
      InstClobbers(targets, insts[k], r.relocatedAddress, |out| - r.relocatedOffset);
    }
  }

  lemma EmittedJump(t: TargetOps, targets: OperandTargets, insts: seq<Inst>, relocated: u64, o: Options, out: seq<u8>, before: seq<u8>,
                    report: Report)
    requires IsA64(t, targets) && Relocated(t, Block.Result(Ok, insts), relocated, o, out, before, report)
    ensures var e := JumpOf(t, relocated, o, |out|, Emits(t, relocated, |out|, insts));
            e.clobberHi == 0 && (e.clobberLo == 0 || (e.clobberLo == X16_MASK && !Clobberless(o.emit.mode)))
  {
    hide IsA64, Wrap, JumpPiece, Flatten, LaidOut, ReportOf, Emits, Size, AllAccepted, ClobbersAllowed;
    var emits := Emits(t, relocated, |out|, insts);
    var at := Wrap(relocated + Size(emits));
    var room := if Size(emits) <= |out| then |out| - Size(emits) else 0;
    A64Jumps(t, targets, at, o.continuation, o.emit, room);
    assert JumpPiece(at, o.continuation, o.emit, room).status == Ok;
    JumpClobbersX16(at, o.continuation, o.emit, room);
  }

  lemma EachClobber(t: TargetOps, targets: OperandTargets, insts: seq<Inst>, po: PlanOptions, plan: Plan, relocated: u64, o: Options,
                    out: seq<u8>, before: seq<u8>, report: Report)
    requires ValidTarget(t) && IsA64(t, targets) && Relocated(t, Block.Result(Ok, insts), relocated, o, out, before, report)
    requires plan.clobberHi == 0 && plan.clobberLo == (if Clobberless(po.mode) then 0 else X16_MASK) && o.emit.mode == po.mode
    ensures |report.insts| == |insts|
    ensures var emits := Emits(t, relocated, |out|, insts);
            var all := emits + [JumpOf(t, relocated, o, |out|, emits)];
            && KeepsHi(all, plan.clobberHi)
            && (KeepsLo(all, plan.clobberLo) <==>
                  || !Clobberless(po.mode)
                  || forall k :: 0 <= k < |insts| ==> !Expands(WordOf(insts[k]), insts[k].address, report.insts[k].relocatedAddress))
  {
    hide ValidTarget, Relocated, IsA64, Expands, AndNot, WordOf, Emits, JumpOf;
    var emits := Emits(t, relocated, |out|, insts);
    var jump := JumpOf(t, relocated, o, |out|, emits);
    var all := emits + [jump];
    NothingOutside(0);
    EmittedJump(t, targets, insts, relocated, o, out, before, report);
    OneClobber(jump.clobberLo, plan.clobberLo);
    EmittedInst(t, targets, insts, relocated, o, out, before, report, |insts|);
    forall k: nat | k < |insts|
      ensures all[k] == emits[k] && AndNot(all[k].clobberHi, plan.clobberHi) == 0
      ensures AndNot(all[k].clobberLo, plan.clobberLo) == 0
              <==> !Expands(WordOf(insts[k]), insts[k].address, report.insts[k].relocatedAddress) || !Clobberless(po.mode)
    {
      EmittedInst(t, targets, insts, relocated, o, out, before, report, k);
      OneClobber(emits[k].clobberLo, plan.clobberLo);
    }
    assert all[|insts|] == jump;
  }

  lemma CarriedClobbers(t: TargetOps, targets: OperandTargets, code: seq<u8>, address: u64, po: PlanOptions, plan: Plan, relocated: u64,
                        o: Options, out: seq<u8>, before: seq<u8>, report: Report)
    requires ValidTarget(t) && IsA64(t, targets) && o.emit.mode == po.mode
    requires Relocated(t, Prologue(t, code, address, MinSize(o)), relocated, o, out, before, report)
    requires plan.clobberHi == 0 && plan.clobberLo == if Clobberless(po.mode) then 0 else X16_MASK
    ensures var insts := Prologue(t, code, address, MinSize(o)).insts;
            && |report.insts| == |insts|
            && AndNot(report.clobberHi, plan.clobberHi) == 0
            && (AndNot(report.clobberLo, plan.clobberLo) == 0 <==>
                  || !Clobberless(po.mode)
                  || forall k :: 0 <= k < |insts| ==> !Expands(WordOf(insts[k]), insts[k].address, report.insts[k].relocatedAddress))
  {
    hide WholeBlock, MinSize, Expands, AndNot, WordOf, ValidTarget, IsA64, Emits, JumpOf, Clobberless, KeepsLo, KeepsHi;
    var block := Prologue(t, code, address, MinSize(o));
    assert block == Block.Result(Ok, block.insts);
    hide Relocated;
    PlanCoversClobbers(t, code, address, plan, relocated, o, out, before, report);
    EachClobber(t, targets, block.insts, po, plan, relocated, o, out, before, report);
  }

  /** Carrying out a plan clobbers only what the plan announced, exactly when the mode is not one of the clobberless
      ones or no instruction expands. */
  lemma DetourClobbers(decode: Decoder, targets: OperandTargets, code: seq<u8>, address: u64, replacement: u64, po: PlanOptions, plan: Plan,
                       relocated: u64, o: Options, out: seq<u8>, before: seq<u8>, report: Report)
    requires ValidDecoder(decode) && forall inst: Inst :: targets(inst).Some? ==> inst.size >= 4
    requires Planned(Ops(decode, targets), code, address, replacement, po, plan) && CarriesOut(plan, po, o)
    requires Relocated(Ops(decode, targets), Prologue(Ops(decode, targets), code, address, MinSize(o)), relocated, o, out, before, report)
    ensures var insts := Prologue(Ops(decode, targets), code, address, MinSize(o)).insts;
            && |report.insts| == |insts|
            && AndNot(report.clobberHi, plan.clobberHi) == 0
            && (AndNot(report.clobberLo, plan.clobberLo) == 0 <==>
                  || !Clobberless(po.mode)
                  || forall k :: 0 <= k < |insts| ==> !Expands(WordOf(insts[k]), insts[k].address, report.insts[k].relocatedAddress))
  {
    hide WholeBlock, ValidDecoder, MinSize, Expands, AndNot, WordOf, Planned, Relocated, ValidTarget, IsA64, HonoursBounds, NeedsNoMore,
         Ops, Clobberless;
    KeepsContracts(decode, targets);
    PlannedClobbers(decode, targets, code, address, replacement, po, plan);
    OpsAreA64(decode, targets);
    CarriedClobbers(Ops(decode, targets), targets, code, address, po, plan, relocated, o, out, before, report);
  }

  // ---- a clobberless plan that is not kept

  /** One instruction that is large enough is a block. */
  lemma OneInstBlock(decode: Decoder, code: seq<u8>, address: u64, inst: Inst, minSize: nat)
    requires InstAt(decode, code, address, 0) == Good(inst) && 0 < minSize <= inst.size
    ensures WholeBlock(decode, code, address, minSize, MAX_BLOCK) == Block.Result(Ok, [inst])
  {
    hide InstAt;
    assert Total([]) == 0;
    TotalOneMore([], inst);
    assert [] + [inst] == [inst];
    OneTurn(decode, code, address, minSize, MAX_BLOCK, []);
  }

  /** `B.AL` to itself at address 0, decoded as one instruction, to be moved 2 MB: out of the reach of a conditional
      branch, and in the reach of the jumps. */
  predicate IsExample(decode: Decoder, code: seq<u8>, inst: Inst, high: nat, low: nat, po: PlanOptions, relocated: u64) {
    && InstAt(decode, code, 0, 0) == Good(inst)
    && inst.size == 4 && inst.address == 0
    && WordOf(inst) == high * 0x100_0000 + low && high == 0x54 && low == 0x0e
    && Clobberless(po.mode) && po.minPatchOverride == 0
    && relocated == 0x20_0000
  }

  lemma ExampleWord(word: u32, high: nat, low: nat, address: u64, relocated: u64)
    requires word == high * 0x100_0000 + low && high == 0x54 && low == 0x0e && address == 0 && relocated == 0x20_0000
    ensures Expands(word, address, relocated) && FormOf(word).Some?
    ensures var p := RelocateWord(word, address, relocated, 24, None); p.status == Ok && p.clobbersX16 && |p.words| == 5
  {
    assert NewDisp(relocated, address, Cond19) == -0x20_0000;
    hide FormOf, Reaches, Get, Wrap, Distance, NewDisp, Reencoded, SkipWord;
    AlwaysWord(word, high, low, address);
    NewWords(word, Cond19, NewDisp(relocated, address, Cond19));
  }

  lemma ExampleJump(address: u64, continuation: u64, o: EmitOptions)
    requires address == 0x20_0014 && continuation == 4 && Clobberless(o.mode)
    ensures var e := EmitOf(JumpPiece(address, continuation, o, 4));
            e.status == Ok && e.size == 4 && |e.code| == 4 && e.clobberLo == 0 && e.clobberHi == 0
  {
    assert Distance(address, continuation) == -0x20_0010;
    hide Distance, EmitRel.A64Word;
  }

  lemma ExampleEmission(targets: OperandTargets, decode: Decoder, code: seq<u8>, inst: Inst, high: nat, low: nat, po: PlanOptions,
                        relocated: u64)
    requires IsExample(decode, code, inst, high, low, po, relocated) && targets(inst).None?
    ensures var e := RelocateInst(targets, inst, relocated, 24);
            e.status == Ok && e.size == 20 && |e.code| == 20 && e.clobberLo == X16_MASK && e.clobberHi == 0
    ensures Expands(WordOf(inst), inst.address, relocated)
  {
    hide FormOf, RelocateWord, WordOf, InstAt, Expands;
    ExampleWord(WordOf(inst), high, low, inst.address, relocated);
  }

  /** The emission of a single instruction, and the jump behind it. */
  lemma OneEmission(t: TargetOps, relocated: u64, o: Options, inst: Inst, e: Emit, jump: Emit)
    requires e == t.relocate(inst, relocated, 24) && e.size == 20
    requires jump == t.jump(Wrap(relocated + 20), o.continuation, o.emit, 4) && jump.status == Ok && ClobbersAllowed(o.emit, jump)
    ensures Emits(t, relocated, 24, [inst]) == [e] && JumpOf(t, relocated, o, 24, [e]) == jump
    ensures Size([e]) == 20 && Code([e]) == e.code
  {
    hide ClobbersAllowed, Wrap, Emits, Size, Code;
    FirstEmission(t, relocated, inst);
    OnlyEmission(e);
  }

  lemma OnlyEmission(e: Emit)
    ensures Size([e]) == e.size && Code([e]) == e.code
  {
    assert [e][..0] == [];
    assert Size([]) == 0 && Code([]) == [];
  }

  lemma FirstEmission(t: TargetOps, relocated: u64, inst: Inst)
    ensures Emits(t, relocated, 24, [inst]) == [t.relocate(inst, relocated, 24)]
  {
    hide Wrap;
    FirstPlace(relocated);
    assert [inst][..0] == [];
    assert Emits(t, relocated, 24, []) == [] && Size([]) == 0;
  }

  lemma OneAccepted(t: TargetOps, inst: Inst, e: Emit, o: EmitOptions)
    requires t.analyze(inst).status == Ok && e.status == Ok && e.clobberLo == o.allowedLo && e.clobberHi == 0
    ensures AllAccepted(t, [inst], [e], o)
  {
    NothingOutside(o.allowedHi);
    assert AndNot(e.clobberLo, o.allowedLo) == 0 by {
      AndNotBits(e.clobberLo, o.allowedLo);
      forall i: nat { BitZero(i); }
      SameBits(AndNot(e.clobberLo, o.allowedLo), 0);
    }
  }

  lemma OneRelocated(t: TargetOps, relocated: u64, o: Options, inst: Inst, e: Emit, jump: Emit, before: seq<u8>)
    requires e == t.relocate(inst, relocated, 24) && e.status == Ok && e.size == |e.code| == 20
    requires t.analyze(inst).status == Ok && e.clobberLo == o.emit.allowedLo && e.clobberHi == 0
    requires jump == t.jump(Wrap(relocated + 20), o.continuation, o.emit, 4) && jump.status == Ok && jump.size == |jump.code| == 4
    requires ClobbersAllowed(o.emit, jump) && |before| == 24
    ensures Relocated(t, Block.Result(Ok, [inst]), relocated, o, e.code + jump.code, before,
                      ReportOf(t, [inst], relocated, [e], jump))
  {
    OneEmission(t, relocated, o, inst, e, jump);
    OneAccepted(t, inst, e, o.emit);
    hide AllAccepted, ReportOf, JumpOf, Emits, Size, Code, Wrap;
  }

  lemma OnePlanned(decode: Decoder, targets: OperandTargets, code: seq<u8>, inst: Inst, po: PlanOptions, replacement: u64)
    requires InstAt(decode, code, 0, 0) == Good(inst) && inst.size == 4
    requires Clobberless(po.mode) && po.minPatchOverride == 0 && replacement == 0x1000
    ensures var t := Ops(decode, targets);
            && PlannedBlock(t, code, 0, replacement, po) == Prologue(t, code, 0, 4) == Block.Result(Ok, [inst])
            && Planned(t, code, 0, replacement, po, PlanOf(t, [inst], 0, replacement, po))
            && PlanOf(t, [inst], 0, replacement, po).minOverwriteSize == 4
  {
    assert Distance(0, replacement) == 0x1000;
    assert MinPatch(0, replacement, po.mode) == Patch(4, 0, 0);
    assert PlanJumpBack(po.mode).status == Ok;
    assert [inst][..0] == [] && Total([inst]) == 4;
    OneInstBlock(decode, code, 0, inst, 4);
    hide WholeBlock, InstAt, Reserves, AnalyzedLo, AnalyzedHi, Hazards, MinPatch, PlanJumpBack, RelocateInst, JumpPiece, Analyze;
  }

  /** A clobberless plan for `B.AL` to itself, to be overwritten by a jump to `replacement` and moved 2 MB, is carried out
      successfully, and the report says that X16 is clobbered. */
  lemma ClobberCounterexample(decode: Decoder, targets: OperandTargets, code: seq<u8>, inst: Inst, high: nat, low: nat,
                              po: PlanOptions, replacement: u64, relocated: u64, before: seq<u8>)
    returns (plan: Plan, o: Options, out: seq<u8>, report: Report)
    requires ValidDecoder(decode) && forall i: Inst :: targets(i).Some? ==> i.size >= 4
    requires IsExample(decode, code, inst, high, low, po, relocated) && targets(inst).None?
    requires replacement == 0x1000 && |before| == 24
    ensures Planned(Ops(decode, targets), code, 0, replacement, po, plan) && CarriesOut(plan, po, o) && o.continuation == 4
    ensures Relocated(Ops(decode, targets), Prologue(Ops(decode, targets), code, 0, MinSize(o)), relocated, o, out, before, report)
    ensures plan.clobberLo == 0 && AndNot(report.clobberLo, plan.clobberLo) != 0
  {
    var t := Ops(decode, targets);
    o := Options(4, 4, EmitOptions(po.mode, X16_MASK, 0));
    plan := PlanOf(t, [inst], 0, replacement, po);
    var e, jump := RelocateInst(targets, inst, relocated, 24), EmitOf(JumpPiece(Wrap(relocated + 20), 4, o.emit, 4));
    out := e.code + jump.code;
    report := ReportOf(t, [inst], relocated, [e], jump);
    OnePlanned(decode, targets, code, inst, po, replacement);
    hide InstAt, WordOf, RelocateInst, JumpPiece, EmitOf, Expands, PlanOf, ReportOf, FormOf, WholeBlock, Relocated, Planned,
         PlannedBlock, AndNot;
    AnalyzeOk(inst);
    ExampleEmission(targets, decode, code, inst, high, low, po, relocated);
    ExampleJump(Wrap(relocated + 20), 4, o.emit);
    OneRelocated(t, relocated, o, inst, e, jump, before);
    hide Prologue, Ops;
    DetourClobbers(decode, targets, code, 0, replacement, po, plan, relocated, o, out, before, report);
    PlannedClobbers(decode, targets, code, 0, replacement, po, plan);
    FirstRecord(t, relocated, inst, e, jump);
  }

  lemma FirstRecord(t: TargetOps, relocated: u64, inst: Inst, e: Emit, jump: Emit)
    ensures var report := ReportOf(t, [inst], relocated, [e], jump);
            |report.insts| == 1 && report.insts[0].relocatedAddress == relocated
  {
    assert [e][..0] == [] && [inst][..0] == [];
    assert Wrap(relocated + 0) == relocated;
  }
}
