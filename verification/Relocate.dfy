/** Laying out relocated instructions in a caller's buffer, and planning the room for it. */
module Relocate {
  import opened Bits
  import opened ByteOrder
  import opened PcRelative
  import opened Block

  datatype Mode = Auto | DirectOnly | AbsoluteOnly | PreferClobberless | AllowScratchClobber

  /** What an emitter answers: a status, the size and clobbered registers it reports, and the bytes it
      wrote from the start of the space it was given. */
  datatype Emit = Emit(status: Status, size: nat, clobberLo: u64, clobberHi: u64, code: seq<u8>)

  datatype Analysis = Analysis(status: Status, hazards: u64, maxEmitSize: nat, clobberLo: u64, clobberHi: u64, rejected: bool)

  datatype Bound = Bound(status: Status, size: nat, clobberLo: u64, clobberHi: u64, nearIsland: bool)

  datatype Patch = Patch(size: nat, clobberLo: u64, clobberHi: u64)

  /** The operations of a target.  `relocate` gets the instruction, the new address and the capacity;
      `jump` gets source, destination, options and the capacity. */
  datatype TargetOps = TargetOps(
    decode: Decoder,
    analyze: Inst -> Analysis,
    relocate: (Inst, u64, nat) -> Emit,
    jump: (u64, u64, EmitOptions, nat) -> Emit,
    minPatch: (u64, u64, Mode) -> Patch,
    planJumpBack: Mode -> Bound)

  datatype EmitOptions = EmitOptions(mode: Mode, allowedLo: u64, allowedHi: u64)

  predicate GoodEmit(e: Emit, capacity: nat) {
    |e.code| <= capacity && (e.status == Ok ==> |e.code| == e.size)
  }

  /** The emitters stay inside the space they are given, and on success fill what they report. */
  ghost predicate ValidTarget(t: TargetOps) {
    && ValidDecoder(t.decode)
    && (forall inst: Inst, address: u64, capacity: nat :: GoodEmit(t.relocate(inst, address, capacity), capacity))
    && (forall a: u64, b: u64, o: EmitOptions, capacity: nat :: GoodEmit(t.jump(a, b, o, capacity), capacity))
  }

  // ---- `asmkit_emit.c`

  /** `asmkit_emit_result_clobbers_allowed`, for an emission with options. */
  predicate ClobbersAllowed(o: EmitOptions, e: Emit) {
    if e.clobberLo == 0 && e.clobberHi == 0 then true
    else if o.mode == PreferClobberless then false
    else AndNot(e.clobberLo, o.allowedLo) == 0 && AndNot(e.clobberHi, o.allowedHi) == 0
  }

  /** `asmkit_emit_jump` through `asmkit_emit_finish`. */
  function EmitJump(t: TargetOps, address: u64, target: u64, o: EmitOptions, capacity: nat): Emit {
    var e := t.jump(address, target, o, capacity);
    if e.status == Ok && !ClobbersAllowed(o, e) then e.(status := ForbiddenClobber) else e
  }

  predicate SubMask(m: u64, allowed: u64) {
    AndNot(m, allowed) == 0
  }

  lemma EmptyMask(allowed: u64)
    ensures SubMask(0, allowed)
  {
  }

  /** A successful jump clobbers only allowed registers, and none at all when clobberless emission is
      preferred. */
  lemma JumpClobbers(t: TargetOps, address: u64, target: u64, o: EmitOptions, capacity: nat)
    requires EmitJump(t, address, target, o, capacity).status == Ok
    ensures var e := EmitJump(t, address, target, o, capacity);
            && SubMask(e.clobberLo, o.allowedLo) && SubMask(e.clobberHi, o.allowedHi)
            && (o.mode == PreferClobberless ==> e.clobberLo == 0 && e.clobberHi == 0)
  {
    EmptyMask(o.allowedLo);
    EmptyMask(o.allowedHi);
  }

  // ---- what is emitted

  function Size(emits: seq<Emit>): nat {
    if emits == [] then 0 else Size(emits[..|emits| - 1]) + emits[|emits| - 1].size
  }

  function Code(emits: seq<Emit>): seq<u8> {
    if emits == [] then [] else Code(emits[..|emits| - 1]) + emits[|emits| - 1].code
  }

  function UnionLo(emits: seq<Emit>): nat {
    if emits == [] then 0 else Or(UnionLo(emits[..|emits| - 1]), emits[|emits| - 1].clobberLo)
  }

  function UnionHi(emits: seq<Emit>): nat {
    if emits == [] then 0 else Or(UnionHi(emits[..|emits| - 1]), emits[|emits| - 1].clobberHi)
  }

  function Hazards(t: TargetOps, insts: seq<Inst>): nat {
    if insts == [] then 0 else Or(Hazards(t, insts[..|insts| - 1]), t.analyze(insts[|insts| - 1]).hazards)
  }

  /** What relocating an instruction to offset `at` of the buffer gives. */
  function EmitFor(t: TargetOps, relocated: u64, capacity: nat, inst: Inst, at: nat): Emit {
    t.relocate(inst, Wrap(relocated + at), if at <= capacity then capacity - at else 0)
  }

  /** The emissions for the instructions, each placed after the ones before it. */
  function Emits(t: TargetOps, relocated: u64, capacity: nat, insts: seq<Inst>): (e: seq<Emit>)
    ensures |e| == |insts|
  {
    if insts == [] then []
    else
      var before := Emits(t, relocated, capacity, insts[..|insts| - 1]);
      before + [EmitFor(t, relocated, capacity, insts[|insts| - 1], Size(before))]
  }

  datatype Options = Options(minOverwrite: nat, continuation: u64, emit: EmitOptions)

  /** One instruction can be relocated: it was analyzed, emitted, and clobbers only what is allowed. */
  predicate Accepted(t: TargetOps, inst: Inst, e: Emit, o: EmitOptions) {
    && t.analyze(inst).status == Ok
    && e.status == Ok
    && SubMask(e.clobberLo, o.allowedLo)
    && SubMask(e.clobberHi, o.allowedHi)
  }

  /** How far one instruction gets. */
  function InstStatus(t: TargetOps, inst: Inst, e: Emit, o: EmitOptions): (s: Status)
    ensures s == Ok <==> Accepted(t, inst, e, o)
  {
    if t.analyze(inst).status != Ok then t.analyze(inst).status
    else if e.status != Ok then e.status
    else if !SubMask(e.clobberLo, o.allowedLo) || !SubMask(e.clobberHi, o.allowedHi) then ForbiddenClobber
    else Ok
  }

  /** The first failure among the instructions, in order. */
  function FirstFailure(t: TargetOps, insts: seq<Inst>, emits: seq<Emit>, o: EmitOptions): Status
    requires |emits| == |insts|
  {
    if insts == [] then Ok
    else
      var n := |insts| - 1;
      var before := FirstFailure(t, insts[..n], emits[..n], o);
      if before != Ok then before else InstStatus(t, insts[n], emits[n], o)
  }

  predicate AllAccepted(t: TargetOps, insts: seq<Inst>, emits: seq<Emit>, o: EmitOptions)
    requires |emits| == |insts|
  {
    forall k :: 0 <= k < |insts| ==> Accepted(t, insts[k], emits[k], o)
  }

  datatype RelocatedInst = RelocatedInst(
    originalAddress: u64, originalSize: nat, relocatedAddress: u64, relocatedOffset: nat, relocatedSize: nat)

  /** The records of the relocated instructions. */
  function Records(relocated: u64, insts: seq<Inst>, emits: seq<Emit>): (r: seq<RelocatedInst>)
    requires |emits| == |insts|
    ensures |r| == |insts|
  {
    if insts == [] then []
    else
      var n := |insts| - 1;
      var at := Size(emits[..n]);
      Records(relocated, insts[..n], emits[..n])
      + [RelocatedInst(insts[n].address, insts[n].size, Wrap(relocated + at), at, emits[n].size)]
  }

  datatype Report = Report(
    overwrittenSize: nat,
    relocatedSize: nat,
    insts: seq<RelocatedInst>,
    jumpBackOffset: nat,
    jumpBackSize: nat,
    clobberLo: nat,
    clobberHi: nat,
    hazards: nat)

  const NO_REPORT := Report(0, 0, [], 0, 0, 0, 0, 0)

  /** The first `n` instructions of a block and their emissions. */
  function FirstEmits(t: TargetOps, relocated: u64, capacity: nat, insts: seq<Inst>, n: nat): (e: seq<Emit>)
    requires n <= |insts|
    ensures |e| == n
  {
    Emits(t, relocated, capacity, insts[..n])
  }

  /** What the relocator has accumulated after `n` instructions. */
  datatype Tally = Tally(offset: nat, clobberLo: nat, clobberHi: nat, hazards: nat, records: seq<RelocatedInst>)

  function TallyOf(t: TargetOps, relocated: u64, insts: seq<Inst>, emits: seq<Emit>): Tally
    requires |emits| == |insts|
  {
    Tally(Size(emits), UnionLo(emits), UnionHi(emits), Hazards(t, insts), Records(relocated, insts, emits))
  }

  lemma OneMoreEmit(emits: seq<Emit>, e: Emit)
    ensures Size(emits + [e]) == Size(emits) + e.size
    ensures Code(emits + [e]) == Code(emits) + e.code
    ensures UnionLo(emits + [e]) == Or(UnionLo(emits), e.clobberLo)
    ensures UnionHi(emits + [e]) == Or(UnionHi(emits), e.clobberHi)
  {
    assert (emits + [e])[..|emits|] == emits;
  }

  /** The tally after one more instruction. */
  lemma TallyOneMore(t: TargetOps, relocated: u64, capacity: nat, insts: seq<Inst>, n: nat)
    requires n < |insts| && Size(FirstEmits(t, relocated, capacity, insts, n)) <= capacity
    ensures var before := FirstEmits(t, relocated, capacity, insts, n);
            var e := t.relocate(insts[n], Wrap(relocated + Size(before)), capacity - Size(before));
            var tally := TallyOf(t, relocated, insts[..n], before);
            && FirstEmits(t, relocated, capacity, insts, n + 1) == before + [e]
            && Code(before + [e]) == Code(before) + e.code
            && TallyOf(t, relocated, insts[..n + 1], before + [e])
               == Tally(tally.offset + e.size, Or(tally.clobberLo, e.clobberLo), Or(tally.clobberHi, e.clobberHi),
                        Or(tally.hazards, t.analyze(insts[n]).hazards),
                        tally.records + [RelocatedInst(insts[n].address, insts[n].size, Wrap(relocated + tally.offset),
                                                       tally.offset, e.size)])
  {
    hide Or, Wrap;
    var before := FirstEmits(t, relocated, capacity, insts, n);
    assert insts[..n + 1][..n] == insts[..n];
    var e := t.relocate(insts[n], Wrap(relocated + Size(before)), capacity - Size(before));
    OneMoreEmit(before, e);
    assert (before + [e])[..n] == before;
  }

  /** Writing bytes into the buffer at an offset. */
  method Write(out: array<u8>, at: nat, code: seq<u8>)
    requires at + |code| <= out.Length
    modifies out
    ensures out[..] == old(out[..at]) + code + old(out[at + |code|..])
  {
    var i := 0;
    while i < |code|
      invariant 0 <= i <= |code|
      invariant out[..at] == old(out[..at])
      invariant out[at..at + i] == code[..i]
      invariant out[at + i..] == old(out[at + i..])
    {
      out[at + i] := code[i];
      i := i + 1;
    }
    assert out[..] == out[..at] + out[at..at + i] + out[at + i..];
  }

  /** The bytes of the laid-out instructions, in front of whatever the buffer held. */
  ghost predicate LaidOut(out: seq<u8>, before: seq<u8>, code: seq<u8>) {
    |code| <= |out| == |before| && out[..|code|] == code && out[|code|..] == before[|code|..]
  }

  /** `relocate_inst` on the buffer from `at` on. */
  method EmitAt(t: TargetOps, inst: Inst, relocated: u64, out: array<u8>, at: nat, ghost before: seq<u8>, ghost code: seq<u8>)
    returns (e: Emit)
    requires ValidTarget(t) && at <= out.Length && |code| == at && LaidOut(out[..], before, code)
    modifies out
    ensures e == t.relocate(inst, Wrap(relocated + at), out.Length - at)
    ensures e.status == Ok ==> at + e.size <= out.Length && |e.code| == e.size && LaidOut(out[..], before, code + e.code)
  {
    e := t.relocate(inst, Wrap(relocated + at), out.Length - at);
    assert GoodEmit(e, out.Length - at);
    Write(out, at, e.code);
  }

  method JumpAt(t: TargetOps, relocated: u64, target: u64, o: EmitOptions, out: array<u8>, at: nat,
                ghost before: seq<u8>, ghost code: seq<u8>)
    returns (e: Emit)
    requires ValidTarget(t) && at <= out.Length && |code| == at && LaidOut(out[..], before, code)
    modifies out
    ensures e == EmitJump(t, Wrap(relocated + at), target, o, out.Length - at)
    ensures e.status == Ok ==> at + e.size <= out.Length && |e.code| == e.size && LaidOut(out[..], before, code + e.code)
  {
    e := EmitJump(t, Wrap(relocated + at), target, o, out.Length - at);
    var raw := t.jump(Wrap(relocated + at), target, o, out.Length - at);
    assert GoodEmit(raw, out.Length - at);
    Write(out, at, e.code);
  }

  /** The block that both the planner and the relocator look at. */
  function Prologue(t: TargetOps, code: seq<u8>, address: u64, minSize: nat): Block.Result {
    WholeBlock(t.decode, code, address, minSize, MAX_BLOCK)
  }

  function MinSize(o: Options): nat {
    if o.minOverwrite == 0 then 1 else o.minOverwrite
  }

  /** The jump back, placed after the relocated instructions. */
  function JumpOf(t: TargetOps, relocated: u64, o: Options, capacity: nat, emits: seq<Emit>): Emit {
    var at := Size(emits);
    EmitJump(t, Wrap(relocated + at), o.continuation, o.emit, if at <= capacity then capacity - at else 0)
  }

  /** Every step succeeded. */
  ghost predicate Succeeds(t: TargetOps, insts: seq<Inst>, o: Options, capacity: nat, emits: seq<Emit>, jump: Emit) {
    && |emits| == |insts|
    && AllAccepted(t, insts, emits, o.emit)
    && Size(emits) <= capacity
    && jump.status == Ok
    && Size(emits) + jump.size <= capacity
  }

  function ReportOf(t: TargetOps, insts: seq<Inst>, relocated: u64, emits: seq<Emit>, jump: Emit): Report
    requires |emits| == |insts|
  {
    Report(Total(insts), Size(emits) + jump.size, Records(relocated, insts, emits), Size(emits), jump.size,
           Or(UnionLo(emits), jump.clobberLo), Or(UnionHi(emits), jump.clobberHi), Hazards(t, insts))
  }

  /** What a successful relocation leaves behind. */
  ghost predicate Relocated(t: TargetOps, block: Block.Result, relocated: u64, o: Options, out: seq<u8>, before: seq<u8>, report: Report) {
    var emits := Emits(t, relocated, |out|, block.insts);
    var jump := JumpOf(t, relocated, o, |out|, emits);
    && block.status == Ok
    && Succeeds(t, block.insts, o, |out|, emits, jump)
    && report == ReportOf(t, block.insts, relocated, emits, jump)
    && LaidOut(out, before, Code(emits) + jump.code)
  }

  /** The status that a relocation ends with. */
  function Outcome(t: TargetOps, block: Block.Result, relocated: u64, o: Options, capacity: nat): Status {
    var emits := Emits(t, relocated, capacity, block.insts);
    if block.status != Ok then block.status
    else if FirstFailure(t, block.insts, emits, o.emit) != Ok then FirstFailure(t, block.insts, emits, o.emit)
    else JumpOf(t, relocated, o, capacity, emits).status
  }

  /** The instruction loop of `asmkit_relocate_prologue`. */
  method RelocateInsts(t: TargetOps, block: seq<Inst>, relocated: u64, o: EmitOptions, out: array<u8>)
    returns (status: Status, tally: Tally)
    requires ValidTarget(t)
    modifies out
    ensures status == FirstFailure(t, block, Emits(t, relocated, out.Length, block), o)
    ensures status == Ok ==>
              var emits := Emits(t, relocated, out.Length, block);
              && AllAccepted(t, block, emits, o)
              && tally == TallyOf(t, relocated, block, emits)
              && tally.offset <= out.Length
              && |Code(emits)| == tally.offset
              && LaidOut(out[..], old(out[..]), Code(emits))
  {
    hide Wrap, ValidTarget, Emits, Size, Code, UnionLo, UnionHi, Hazards, Records, LaidOut, GoodEmit, Or, SubMask,
         FirstFailure, AllAccepted;
    ghost var before := out[..];
    tally := Tally(0, 0, 0, 0, []);
    NothingEmitted(t, relocated, out.Length, o);
    NothingLaidOut(before);
    assert block[..0] == [];
    var i := 0;
    while i < |block|
      invariant 0 <= i <= |block|
      invariant FirstFailure(t, block[..i], FirstEmits(t, relocated, out.Length, block, i), o) == Ok
      invariant tally == TallyOf(t, relocated, block[..i], FirstEmits(t, relocated, out.Length, block, i))
      invariant tally.offset <= out.Length
      invariant |Code(FirstEmits(t, relocated, out.Length, block, i))| == tally.offset
      invariant LaidOut(out[..], before, Code(FirstEmits(t, relocated, out.Length, block, i)))
    {
      var inst := block[i];
      var analysis := t.analyze(inst);
      TallyOneMore(t, relocated, out.Length, block, i);
      FailureOneMore(t, relocated, out.Length, block, i, o);
      if analysis.status != Ok {
        return analysis.status, tally;
      }
      var emit := EmitAt(t, inst, relocated, out, tally.offset, before, Code(FirstEmits(t, relocated, out.Length, block, i)));
      if emit.status != Ok {
        return emit.status, tally;
      }
      if !SubMask(emit.clobberLo, o.allowedLo) || !SubMask(emit.clobberHi, o.allowedHi) {
        return ForbiddenClobber, tally;
      }
      tally := Tally(tally.offset + emit.size, Or(tally.clobberLo, emit.clobberLo), Or(tally.clobberHi, emit.clobberHi),
                     Or(tally.hazards, analysis.hazards),
                     tally.records + [RelocatedInst(inst.address, inst.size, Wrap(relocated + tally.offset), tally.offset, emit.size)]);
      i := i + 1;
    }
    assert block[..i] == block;
    NoFailure(t, block, Emits(t, relocated, out.Length, block), o);
    status := Ok;
  }

  /** `asmkit_relocate_prologue`.  `report` is meaningful on success. */
  method RelocatePrologue(t: TargetOps, code: seq<u8>, original: u64, relocated: u64, o: Options, out: array<u8>)
    returns (status: Status, report: Report)
    requires ValidTarget(t)
    modifies out
    ensures status == Outcome(t, Prologue(t, code, original, MinSize(o)), relocated, o, out.Length)
    ensures status == Ok ==>
              Relocated(t, Prologue(t, code, original, MinSize(o)), relocated, o, out[..], old(out[..]), report)
  {
    hide Wrap, ValidTarget, Emits, Size, Code, UnionLo, UnionHi, Hazards, Records, LaidOut, GoodEmit, EmitJump, BlockFrom,
         Total, Or, AllAccepted, FirstFailure;
    var insts := new Inst[MAX_BLOCK](_ => Inst(0, 0, false, [], 0));
    var count, total;
    status, count, total := DecodeBlockUntil(t.decode, code, original, MinSize(o), insts);
    if status != Ok {
      return status, NO_REPORT;
    }
    var block := insts[..count];
    var tally;
    status, tally := RelocateInsts(t, block, relocated, o.emit, out);
    if status != Ok {
      return status, NO_REPORT;
    }
    var jump := JumpAt(t, relocated, o.continuation, o.emit, out, tally.offset, old(out[..]),
                       Code(Emits(t, relocated, out.Length, block)));
    if jump.status != Ok {
      return jump.status, NO_REPORT;
    }
    report := Report(total, tally.offset + jump.size, tally.records, tally.offset, jump.size,
                     Or(tally.clobberLo, jump.clobberLo), Or(tally.clobberHi, jump.clobberHi), tally.hazards);
  }

  lemma NothingEmitted(t: TargetOps, relocated: u64, capacity: nat, o: EmitOptions)
    ensures FirstFailure(t, [], [], o) == Ok
    ensures Emits(t, relocated, capacity, []) == [] && Size([]) == 0 && Code([]) == []
    ensures UnionLo([]) == 0 && UnionHi([]) == 0 && Hazards(t, []) == 0 && Records(relocated, [], []) == []
  {
  }

  lemma NothingLaidOut(before: seq<u8>)
    ensures LaidOut(before, before, [])
  {
  }

  /** One more instruction either goes through or decides the outcome. */
  lemma FailureOneMore(t: TargetOps, relocated: u64, capacity: nat, insts: seq<Inst>, n: nat, o: EmitOptions)
    requires n < |insts|
    requires FirstFailure(t, insts[..n], FirstEmits(t, relocated, capacity, insts, n), o) == Ok
    ensures var e := EmitFor(t, relocated, capacity, insts[n], Size(FirstEmits(t, relocated, capacity, insts, n)));
            var s := InstStatus(t, insts[n], e, o);
            && FirstFailure(t, insts[..n + 1], FirstEmits(t, relocated, capacity, insts, n + 1), o) == s
            && (s != Ok ==> FirstFailure(t, insts, Emits(t, relocated, capacity, insts), o) == s)
  {
    hide EmitFor, InstStatus, Size;
    assert insts[..n + 1][..n] == insts[..n];
    var e := EmitFor(t, relocated, capacity, insts[n], Size(FirstEmits(t, relocated, capacity, insts, n)));
    assert FirstEmits(t, relocated, capacity, insts, n + 1)[..n] == FirstEmits(t, relocated, capacity, insts, n);
    if InstStatus(t, insts[n], e, o) != Ok { FailureSticks(t, relocated, capacity, insts, n + 1, o); }
  }

  lemma {:induction false} FailureSticks(t: TargetOps, relocated: u64, capacity: nat, insts: seq<Inst>, n: nat, o: EmitOptions)
    requires n <= |insts|
    requires FirstFailure(t, insts[..n], FirstEmits(t, relocated, capacity, insts, n), o) != Ok
    ensures FirstFailure(t, insts, Emits(t, relocated, capacity, insts), o)
         == FirstFailure(t, insts[..n], FirstEmits(t, relocated, capacity, insts, n), o)
    decreases |insts|
  {
    hide EmitFor, InstStatus, Size;
    if n == |insts| {
      assert insts[..n] == insts;
    } else {
      var m := |insts| - 1;
      assert insts[..m][..n] == insts[..n];
      FailureSticks(t, relocated, capacity, insts[..m], n, o);
      assert Emits(t, relocated, capacity, insts)[..m] == Emits(t, relocated, capacity, insts[..m]);
    }
  }

  lemma {:induction false} NoFailure(t: TargetOps, insts: seq<Inst>, emits: seq<Emit>, o: EmitOptions)
    requires |emits| == |insts|
    ensures FirstFailure(t, insts, emits, o) == Ok <==> AllAccepted(t, insts, emits, o)
    decreases |insts|
  {
    hide Accepted;
    if insts != [] {
      var n := |insts| - 1;
      NoFailure(t, insts[..n], emits[..n], o);
      assert forall k :: 0 <= k < n ==> insts[..n][k] == insts[k] && emits[..n][k] == emits[k];
    }
  }

  // ---- what the layout means

  /** Emission `k` of a layout, and the offset it was made for. */
  lemma {:induction false} EmitsEach(t: TargetOps, relocated: u64, capacity: nat, insts: seq<Inst>, k: nat)
    requires k < |insts|
    ensures var emits := Emits(t, relocated, capacity, insts);
            emits[k] == EmitFor(t, relocated, capacity, insts[k], Size(emits[..k]))
    decreases |insts|
  {
    hide EmitFor, Size;
    var n := |insts| - 1;
    var emits := Emits(t, relocated, capacity, insts);
    var before := Emits(t, relocated, capacity, insts[..n]);
    assert emits[..n] == before;
    if k < n {
      EmitsEach(t, relocated, capacity, insts[..n], k);
      assert emits[..k] == before[..k];
    }
  }

  lemma {:induction false} SizeGrows(emits: seq<Emit>, k: nat)
    requires k < |emits|
    ensures Size(emits[..k + 1]) == Size(emits[..k]) + emits[k].size
    ensures Size(emits[..k]) <= Size(emits)
    ensures Size(emits[..k + 1]) <= Size(emits)
    decreases |emits|
  {
    assert emits[..k + 1][..k] == emits[..k];
    assert emits[..|emits|] == emits;
    if k < |emits| - 1 {
      SizeGrows(emits[..|emits| - 1], k);
      assert emits[..|emits| - 1][..k] == emits[..k] && emits[..|emits| - 1][..k + 1] == emits[..k + 1];
    }
  }

  /** The record of instruction `k`. */
  lemma {:induction false} RecordsEach(relocated: u64, insts: seq<Inst>, emits: seq<Emit>, k: nat)
    requires |emits| == |insts| && k < |insts|
    ensures Records(relocated, insts, emits)[k]
         == RelocatedInst(insts[k].address, insts[k].size, Wrap(relocated + Size(emits[..k])), Size(emits[..k]), emits[k].size)
    decreases |insts|
  {
    hide Wrap, Size;
    var n := |insts| - 1;
    if k < n {
      RecordsEach(relocated, insts[..n], emits[..n], k);
      assert emits[..n][..k] == emits[..k];
    }
  }

  /** Neighbouring records meet. */
  lemma RecordsMeet(relocated: u64, insts: seq<Inst>, emits: seq<Emit>, k: nat)
    requires |emits| == |insts| && k < |insts|
    ensures var r := Records(relocated, insts, emits);
            && r[k].relocatedAddress == Wrap(relocated + r[k].relocatedOffset)
            && r[k].originalAddress == insts[k].address && r[k].originalSize == insts[k].size
            && (k == 0 ==> r[k].relocatedOffset == 0)
            && r[k].relocatedOffset + r[k].relocatedSize == if k + 1 < |r| then r[k + 1].relocatedOffset else Size(emits)
  {
    SizeGrows(emits, k);
    assert emits[..|emits|] == emits;
    assert emits[..0] == [];
    hide Wrap, Records;
    RecordsEach(relocated, insts, emits, k);
    if k + 1 < |insts| { RecordsEach(relocated, insts, emits, k + 1); }
  }

  /** The recorded offsets of a report are prefix sums: they start at 0, follow each other without
      gaps, and end at the jump back, which ends the relocated code. */
  ghost predicate TilesReport(report: Report, insts: seq<Inst>, relocated: u64) {
    && |report.insts| == |insts|
    && (report.insts != [] ==> report.insts[0].relocatedOffset == 0)
    && (forall k :: 0 <= k < |insts| ==> RecordTiles(report, insts[k], relocated, k))
    && report.jumpBackOffset + report.jumpBackSize == report.relocatedSize
  }

  predicate RecordTiles(report: Report, inst: Inst, relocated: u64, k: nat)
    requires k < |report.insts|
  {
    var r := report.insts[k];
    && r.relocatedAddress == Wrap(relocated + r.relocatedOffset)
    && r.originalAddress == inst.address
    && r.originalSize == inst.size
    && r.relocatedOffset + r.relocatedSize
       == if k + 1 < |report.insts| then report.insts[k + 1].relocatedOffset else report.jumpBackOffset
  }

  lemma ReportTiles(t: TargetOps, insts: seq<Inst>, relocated: u64, emits: seq<Emit>, jump: Emit)
    requires |emits| == |insts|
    ensures TilesReport(ReportOf(t, insts, relocated, emits, jump), insts, relocated)
  {
    hide Wrap, Or, Records, Size, UnionLo, UnionHi, Hazards, Total;
    var report := ReportOf(t, insts, relocated, emits, jump);
    forall k: nat | k < |insts| ensures RecordTiles(report, insts[k], relocated, k) {
      RecordsMeet(relocated, insts, emits, k);
    }
    if insts != [] { RecordsMeet(relocated, insts, emits, 0); }
  }

  /** The layout that a relocation reports tiles the relocated code, which fits the buffer. */
  lemma OffsetsTile(t: TargetOps, block: Block.Result, relocated: u64, o: Options, out: seq<u8>, before: seq<u8>, report: Report)
    requires Relocated(t, block, relocated, o, out, before, report)
    ensures TilesReport(report, block.insts, relocated) && report.relocatedSize <= |out|
  {
    hide ReportOf, TilesReport, Emits, LaidOut, Code, AllAccepted, JumpOf;
    var emits := Emits(t, relocated, |out|, block.insts);
    var jump := JumpOf(t, relocated, o, |out|, emits);
    ReportTiles(t, block.insts, relocated, emits, jump);
    ReportedSize(t, block.insts, relocated, emits, jump);
  }

  lemma ReportedSize(t: TargetOps, insts: seq<Inst>, relocated: u64, emits: seq<Emit>, jump: Emit)
    requires |emits| == |insts|
    ensures var report := ReportOf(t, insts, relocated, emits, jump);
            && report.overwrittenSize == Total(insts)
            && report.hazards == Hazards(t, insts)
            && report.relocatedSize == Size(emits) + jump.size
            && report.jumpBackOffset == Size(emits)
            && report.jumpBackSize == jump.size
            && report.clobberLo == Or(UnionLo(emits), jump.clobberLo)
            && report.clobberHi == Or(UnionHi(emits), jump.clobberHi)
            && report.insts == Records(relocated, insts, emits)
  {
  }

  /** The bytes that some relocated instructions took where they were. */
  function Overwritten(records: seq<RelocatedInst>): nat {
    if records == [] then 0 else Overwritten(records[..|records| - 1]) + records[|records| - 1].originalSize
  }

  lemma {:induction false} OverwrittenIsStart(records: seq<RelocatedInst>, insts: seq<Inst>, k: nat)
    requires k <= |insts| == |records| && forall i :: 0 <= i < |insts| ==> records[i].originalSize == insts[i].size
    ensures Overwritten(records[..k]) == Start(insts, k)
    decreases k
  {
    if k > 0 {
      OverwrittenIsStart(records, insts, k - 1);
      assert records[..k][..k - 1] == records[..k - 1] && insts[..k][..k - 1] == insts[..k - 1];
    }
  }

  predicate NamesInst(r: RelocatedInst, inst: Inst) {
    r.originalAddress == inst.address && r.originalSize == inst.size
  }

  lemma RecordsOfBlock(decode: Decoder, code: seq<u8>, original: u64, minSize: nat, insts: seq<Inst>, records: seq<RelocatedInst>, k: nat)
    requires ValidDecoder(decode) && ReportsAddress(decode)
    requires WholeBlock(decode, code, original, minSize, MAX_BLOCK) == Block.Result(Ok, insts)
    requires |records| == |insts| && forall i :: 0 <= i < |insts| ==> NamesInst(records[i], insts[i])
    ensures Total(insts) == Overwritten(records) <= |code| && minSize <= Total(insts)
    ensures k < |insts| ==>
              records[k].originalAddress == Wrap(original + Overwritten(records[..k])) && Overwritten(records[..k]) < minSize
  {
    hide Wrap, WholeBlock, Total, Start, Overwritten, ReportsAddress, ValidDecoder, TileAt;
    BlockMeaning(decode, code, original, minSize, MAX_BLOCK, insts);
    StartOfAll(insts);
    StartInside(decode, code, original, insts, |insts|);
    OverwrittenIsStart(records, insts, |insts|);
    assert records[..|insts|] == records;
    if k < |insts| {
      OverwrittenIsStart(records, insts, k);
      BlockAddresses(decode, code, original, minSize, MAX_BLOCK, insts, k);
      assert NamesInst(records[k], insts[k]);
    }
  }

  lemma RecordsName(report: Report, insts: seq<Inst>, relocated: u64)
    requires TilesReport(report, insts, relocated)
    ensures |report.insts| == |insts| && forall i :: 0 <= i < |insts| ==> NamesInst(report.insts[i], insts[i])
  {
    hide Wrap;
    forall i | 0 <= i < |insts| ensures NamesInst(report.insts[i], insts[i]) {
      assert RecordTiles(report, insts[i], relocated, i);
    }
  }

  lemma BlockOfReport(t: TargetOps, block: Block.Result, relocated: u64, o: Options, out: seq<u8>, before: seq<u8>, report: Report)
    requires Relocated(t, block, relocated, o, out, before, report)
    ensures block.status == Ok && report.overwrittenSize == Total(block.insts)
  {
    hide Emits, JumpOf, LaidOut, Code, AllAccepted, ReportOf, Total;
    var emits := Emits(t, relocated, |out|, block.insts);
    ReportedSize(t, block.insts, relocated, emits, JumpOf(t, relocated, o, |out|, emits));
  }

  /** The instructions take the reported size together, which is at least what was asked for and not zero; none of
      them could have been left out. */
  predicate LeastSize(report: Report, minOverwrite: nat) {
    && 0 < report.overwrittenSize == Overwritten(report.insts)
    && minOverwrite <= report.overwrittenSize
    && forall k :: 0 < k < |report.insts| ==> Overwritten(report.insts[..k]) < minOverwrite
  }

  /** Each record names the address that its instruction had: the original one, advanced by the sizes of those before. */
  predicate NamesPlaces(report: Report, original: u64) {
    forall k :: 0 <= k < |report.insts| ==> report.insts[k].originalAddress == Wrap(original + Overwritten(report.insts[..k]))
  }

  /** The records and the size of a report are those of the code at the original address. */
  lemma RecordsOfCode(t: TargetOps, code: seq<u8>, original: u64, relocated: u64, o: Options, out: seq<u8>, before: seq<u8>,
                      report: Report)
    requires ValidTarget(t) && ReportsAddress(t.decode)
    requires Relocated(t, Prologue(t, code, original, MinSize(o)), relocated, o, out, before, report)
    ensures LeastSize(report, o.minOverwrite) && report.overwrittenSize <= |code| && NamesPlaces(report, original)
  {
    hide Wrap, WholeBlock, Relocated, Total, Overwritten, ReportsAddress, ValidTarget, ValidDecoder, TilesReport, NamesInst;
    var block := Prologue(t, code, original, MinSize(o));
    DecoderOf(t);
    OffsetsTile(t, block, relocated, o, out, before, report);
    BlockOfReport(t, block, relocated, o, out, before, report);
    RecordsName(report, block.insts, relocated);
    RecordsOfPrologue(t, code, original, o, block.insts, report.insts, 0);
    forall k: nat | k < |report.insts|
      ensures report.insts[k].originalAddress == Wrap(original + Overwritten(report.insts[..k]))
      ensures k > 0 ==> Overwritten(report.insts[..k]) < o.minOverwrite
    {
      RecordsOfPrologue(t, code, original, o, block.insts, report.insts, k);
    }
  }

  lemma DecoderOf(t: TargetOps)
    requires ValidTarget(t)
    ensures ValidDecoder(t.decode)
  {
    hide ValidDecoder;
  }

  lemma RecordsOfPrologue(t: TargetOps, code: seq<u8>, original: u64, o: Options, insts: seq<Inst>, records: seq<RelocatedInst>, k: nat)
    requires ValidDecoder(t.decode) && ReportsAddress(t.decode)
    requires Prologue(t, code, original, MinSize(o)) == Block.Result(Ok, insts)
    requires |records| == |insts| && forall i :: 0 <= i < |insts| ==> NamesInst(records[i], insts[i])
    ensures 0 < Total(insts) == Overwritten(records) <= |code| && o.minOverwrite <= Total(insts)
    ensures k < |insts| ==>
              && records[k].originalAddress == Wrap(original + Overwritten(records[..k]))
              && (k > 0 ==> Overwritten(records[..k]) < o.minOverwrite)
  {
    hide Wrap, WholeBlock, Total, Overwritten, ReportsAddress, ValidDecoder, NamesInst;
    RecordsOfBlock(t.decode, code, original, MinSize(o), insts, records, k);
    if 0 < k < |insts| { SomethingBefore(t, code, original, o, insts, records, k); }
  }

  lemma SomethingBefore(t: TargetOps, code: seq<u8>, original: u64, o: Options, insts: seq<Inst>, records: seq<RelocatedInst>, k: nat)
    requires ValidDecoder(t.decode) && Prologue(t, code, original, MinSize(o)) == Block.Result(Ok, insts)
    requires |records| == |insts| && forall i :: 0 <= i < |insts| ==> NamesInst(records[i], insts[i])
    requires 0 < k < |insts|
    ensures Overwritten(records[..k]) > 0
  {
    hide Wrap, WholeBlock, Total, Start, Overwritten, TileAt, ValidDecoder;
    BlockMeaning(t.decode, code, original, MinSize(o), MAX_BLOCK, insts);
    StartBounds(t.decode, code, original, insts, k - 1);
    OverwrittenIsStart(records, insts, k);
  }

  predicate Filled(emits: seq<Emit>) {
    forall k :: 0 <= k < |emits| ==> |emits[k].code| == emits[k].size
  }

  /** The code of a layout holds each emission at its offset. */
  lemma {:induction false} CodeEach(emits: seq<Emit>, k: nat)
    requires Filled(emits) && k < |emits|
    ensures |Code(emits)| == Size(emits)
    ensures Size(emits[..k]) + emits[k].size <= Size(emits)
    ensures Code(emits)[Size(emits[..k])..Size(emits[..k]) + emits[k].size] == emits[k].code
    decreases |emits|
  {
    var n := |emits| - 1;
    if k < n {
      CodeEach(emits[..n], k);
      assert emits[..n][..k] == emits[..k];
    } else if n > 0 {
      CodeEach(emits[..n], n - 1);
    }
  }

  lemma SliceOfPrefix(out: seq<u8>, code: seq<u8>, rest: seq<u8>, at: nat, size: nat)
    requires |code + rest| <= |out| && out[..|code + rest|] == code + rest && at + size <= |code|
    ensures out[at..at + size] == code[at..at + size]
  {
    var all := code + rest;
    forall i | at <= i < at + size ensures out[i] == code[i] {
      assert out[..|all|][i] == all[i];
    }
  }

  /** The finished buffer: the emissions, the jump back, and untouched bytes. */
  lemma Finished(t: TargetOps, block: Block.Result, relocated: u64, o: Options, out: seq<u8>, before: seq<u8>, report: Report)
    requires ValidTarget(t) && Relocated(t, block, relocated, o, out, before, report)
    ensures var emits := Emits(t, relocated, |out|, block.insts);
            var code, jump := Code(emits), JumpOf(t, relocated, o, |out|, emits).code;
            && Filled(emits)
            && |code| == Size(emits)
            && |code + jump| == report.relocatedSize <= |out| == |before|
            && out[..report.relocatedSize] == code + jump
            && out[report.relocatedSize..] == before[report.relocatedSize..]
  {
    hide Wrap, Or, Hazards, UnionLo, UnionHi, Emits, EmitJump, ValidTarget, AllAccepted, Records, Code, Size, Filled;
    var emits := Emits(t, relocated, |out|, block.insts);
    EmitsAreGood(t, relocated, |out|, block.insts, o.emit);
    JumpIsGood(t, Wrap(relocated + Size(emits)), o, |out| - Size(emits));
    CodeSize(emits);
  }

  lemma {:induction false} CodeSize(emits: seq<Emit>)
    requires Filled(emits)
    ensures |Code(emits)| == Size(emits)
    decreases |emits|
  {
    if emits != [] { CodeSize(emits[..|emits| - 1]); }
  }

  /** The recorded range of instruction `k` holds what relocating it there produced. */
  ghost predicate Kept(t: TargetOps, inst: Inst, r: RelocatedInst, out: seq<u8>) {
    && r.relocatedOffset + r.relocatedSize <= |out|
    && out[r.relocatedOffset..r.relocatedOffset + r.relocatedSize]
       == t.relocate(inst, r.relocatedAddress, |out| - r.relocatedOffset).code
  }

  lemma KeptInPrefix(t: TargetOps, relocated: u64, insts: seq<Inst>, out: seq<u8>, jump: seq<u8>, k: nat)
    requires k < |insts|
    requires var emits := Emits(t, relocated, |out|, insts);
             var code := Code(emits);
             && Filled(emits) && |code| == Size(emits)
             && |code + jump| <= |out| && out[..|code + jump|] == code + jump
    ensures Kept(t, insts[k], Records(relocated, insts, Emits(t, relocated, |out|, insts))[k], out)
  {
    hide Wrap, Code, Size, Emits, Records, Filled;
    var emits := Emits(t, relocated, |out|, insts);
    CodeEach(emits, k);
    EmitsEach(t, relocated, |out|, insts, k);
    RecordsEach(relocated, insts, emits, k);
    SliceOfPrefix(out, Code(emits), jump, Size(emits[..k]), emits[k].size);
  }

  /** No instruction's bytes are overwritten later, and nothing beyond the relocated code is written. */
  lemma BytesKept(t: TargetOps, block: Block.Result, relocated: u64, o: Options, out: seq<u8>, before: seq<u8>, report: Report)
    requires ValidTarget(t) && Relocated(t, block, relocated, o, out, before, report)
    ensures |report.insts| == |block.insts|
    ensures forall k :: 0 <= k < |block.insts| ==> Kept(t, block.insts[k], report.insts[k], out)
    ensures report.relocatedSize <= |out| == |before| && out[report.relocatedSize..] == before[report.relocatedSize..]
  {
    Finished(t, block, relocated, o, out, before, report);
    hide Wrap, Code, Size, Emits, ValidTarget, Records, Filled, JumpOf, Succeeds, LaidOut, Or, Kept, ReportOf;
    var emits := Emits(t, relocated, |out|, block.insts);
    var jump := JumpOf(t, relocated, o, |out|, emits);
    ReportedSize(t, block.insts, relocated, emits, jump);
    forall k: nat | k < |block.insts| ensures Kept(t, block.insts[k], report.insts[k], out) {
      KeptInPrefix(t, relocated, block.insts, out, jump.code, k);
    }
  }

  /** Record `k` of a relocation names the emission of instruction `k`, which succeeded. */
  lemma EmissionEach(t: TargetOps, insts: seq<Inst>, relocated: u64, o: Options, out: seq<u8>, before: seq<u8>, report: Report, k: nat)
    requires ValidTarget(t) && Relocated(t, Block.Result(Ok, insts), relocated, o, out, before, report)
    ensures |report.insts| == |insts|
    ensures k < |insts| ==>
              var r := report.insts[k];
              && Kept(t, insts[k], r, out)
              && r.relocatedOffset == Size(Emits(t, relocated, |out|, insts)[..k])
              && r.relocatedAddress == Wrap(relocated + r.relocatedOffset)
              && Emits(t, relocated, |out|, insts)[k] == t.relocate(insts[k], r.relocatedAddress, |out| - r.relocatedOffset)
              && t.relocate(insts[k], r.relocatedAddress, |out| - r.relocatedOffset).status == Ok
  {
    hide Emits, Size, Code, Records, Or, Hazards, UnionLo, UnionHi, Total, Wrap, LaidOut, JumpOf, Kept, ReportOf, ValidTarget, SubMask;
    BytesKept(t, Block.Result(Ok, insts), relocated, o, out, before, report);
    if k < |insts| {
      var emits := Emits(t, relocated, |out|, insts);
      var jump := JumpOf(t, relocated, o, |out|, emits);
      assert AllAccepted(t, insts, emits, o.emit) && Size(emits) <= |out|;
      hide Relocated;
      ReportedSize(t, insts, relocated, emits, jump);
      RecordsEach(relocated, insts, emits, k);
      EmitsEach(t, relocated, |out|, insts, k);
      SizeGrows(emits, k);
    }
  }

  /** The jump back, as it is stored. */
  lemma JumpStored(t: TargetOps, insts: seq<Inst>, relocated: u64, o: Options, out: seq<u8>, before: seq<u8>, report: Report)
    requires ValidTarget(t) && Relocated(t, Block.Result(Ok, insts), relocated, o, out, before, report)
    ensures report.jumpBackOffset + report.jumpBackSize <= |out|
    ensures var e := EmitJump(t, Wrap(relocated + report.jumpBackOffset), o.continuation, o.emit, |out| - report.jumpBackOffset);
            && e.status == Ok
            && out[report.jumpBackOffset..report.jumpBackOffset + report.jumpBackSize] == e.code
  {
    hide Emits, Size, Code, Records, Or, Hazards, UnionLo, UnionHi, Total, Wrap, LaidOut, ReportOf, ValidTarget, SubMask, Filled,
         EmitJump, AllAccepted;
    var emits := Emits(t, relocated, |out|, insts);
    var jump := JumpOf(t, relocated, o, |out|, emits);
    assert jump.status == Ok && Size(emits) <= |out| && report == ReportOf(t, insts, relocated, emits, jump);
    Finished(t, Block.Result(Ok, insts), relocated, o, out, before, report);
    hide Relocated;
    ReportedSize(t, insts, relocated, emits, jump);
    var at := report.jumpBackOffset;
    JumpIsGood(t, Wrap(relocated + at), o, |out| - at);
    assert out[at..at + jump.size] == out[..report.relocatedSize][at..];
  }

  lemma JumpIsGood(t: TargetOps, address: u64, o: Options, capacity: nat)
    requires ValidTarget(t) && EmitJump(t, address, o.continuation, o.emit, capacity).status == Ok
    ensures var e := EmitJump(t, address, o.continuation, o.emit, capacity); |e.code| == e.size <= capacity
  {
    assert GoodEmit(t.jump(address, o.continuation, o.emit, capacity), capacity);
  }

  lemma EmitsAreGood(t: TargetOps, relocated: u64, capacity: nat, insts: seq<Inst>, o: EmitOptions)
    requires ValidTarget(t) && AllAccepted(t, insts, Emits(t, relocated, capacity, insts), o)
    ensures Filled(Emits(t, relocated, capacity, insts))
  {
    hide Wrap, Emits, Size;
    var emits := Emits(t, relocated, capacity, insts);
    forall k | 0 <= k < |insts| ensures |emits[k].code| == emits[k].size {
      EmitsEach(t, relocated, capacity, insts, k);
      var at := Size(emits[..k]);
      var room := if at <= capacity then capacity - at else 0;
      assert GoodEmit(t.relocate(insts[k], Wrap(relocated + at), room), room);
      assert Accepted(t, insts[k], emits[k], o);
    }
  }

  // ---- clobbers

  lemma {:induction false} BitOfUnion(emits: seq<Emit>, b: nat)
    ensures Bit(UnionLo(emits), b) <==> exists k :: 0 <= k < |emits| && Bit(emits[k].clobberLo, b)
    ensures Bit(UnionHi(emits), b) <==> exists k :: 0 <= k < |emits| && Bit(emits[k].clobberHi, b)
    decreases |emits|
  {
    if emits == [] {
      BitZero(b);
    } else {
      var n := |emits| - 1;
      BitOfUnion(emits[..n], b);
      BitOr(UnionLo(emits[..n]), emits[n].clobberLo, b);
      BitOr(UnionHi(emits[..n]), emits[n].clobberHi, b);
      assert forall k :: 0 <= k < n ==> emits[..n][k] == emits[k];
    }
  }

  lemma InsideMask(m: nat, allowed: u64)
    requires forall b: nat :: Bit(m, b) ==> Bit(allowed, b)
    ensures AndNot(m, allowed) == 0
  {
    AndNotBits(m, allowed);
    forall b: nat ensures Bit(AndNot(m, allowed), b) == Bit(0, b) { BitZero(b); }
    SameBits(AndNot(m, allowed), 0);
  }

  lemma BitInside(m: u64, allowed: u64, b: nat)
    requires SubMask(m, allowed)
    ensures Bit(m, b) ==> Bit(allowed, b)
  {
    BitAndNot(m, allowed, b);
    BitZero(b);
  }

  /** The reported clobbers are the union of what every emitted piece clobbers, the jump back included,
      and a subset of what the caller allowed. */
  lemma ClobbersReported(t: TargetOps, block: Block.Result, relocated: u64, o: Options, out: seq<u8>, before: seq<u8>, report: Report)
    requires Relocated(t, block, relocated, o, out, before, report)
    ensures var emits := Emits(t, relocated, |out|, block.insts);
            var all := emits + [JumpOf(t, relocated, o, |out|, emits)];
            && report.clobberLo == UnionLo(all) && report.clobberHi == UnionHi(all)
            && (forall b: nat :: Bit(UnionLo(all), b) <==> exists k :: 0 <= k < |all| && Bit(all[k].clobberLo, b))
            && (forall b: nat :: Bit(UnionHi(all), b) <==> exists k :: 0 <= k < |all| && Bit(all[k].clobberHi, b))
    ensures AndNot(report.clobberLo, o.emit.allowedLo) == 0 && AndNot(report.clobberHi, o.emit.allowedHi) == 0
  {
    hide Wrap, Emits, Size, Code, EmitJump, LaidOut, Hazards, Records, SubMask, Bit, UnionLo, UnionHi, ReportOf, AndNot;
    var emits := Emits(t, relocated, |out|, block.insts);
    var jump := JumpOf(t, relocated, o, |out|, emits);
    var all := emits + [jump];
    OneMoreEmit(emits, jump);
    ReportedSize(t, block.insts, relocated, emits, jump);
    JumpClobbers(t, Wrap(relocated + Size(emits)), o.continuation, o.emit, |out| - Size(emits));
    forall k | 0 <= k < |all|
      ensures SubMask(all[k].clobberLo, o.emit.allowedLo) && SubMask(all[k].clobberHi, o.emit.allowedHi)
    {
      if k < |emits| { assert Accepted(t, block.insts[k], emits[k], o.emit); }
    }
    UnionInside(all, o.emit);
    UnionBits(all);
  }

  /** A union stays inside a mask exactly when each of its parts does. */
  lemma {:induction false} UnionWithin(all: seq<Emit>, lo: nat, hi: nat)
    ensures AndNot(UnionLo(all), lo) == 0 <==> forall k :: 0 <= k < |all| ==> AndNot(all[k].clobberLo, lo) == 0
    ensures AndNot(UnionHi(all), hi) == 0 <==> forall k :: 0 <= k < |all| ==> AndNot(all[k].clobberHi, hi) == 0
    decreases |all|
  {
    assert UnionLo([]) == 0 && UnionHi([]) == 0 && AndNot(0, lo) == 0 && AndNot(0, hi) == 0;
    hide AndNot, Or;
    if all != [] {
      var n := |all| - 1;
      assert forall k :: 0 <= k < n ==> all[..n][k] == all[k];
      UnionWithin(all[..n], lo, hi);
      OrWithin(UnionLo(all[..n]), all[n].clobberLo, lo);
      OrWithin(UnionHi(all[..n]), all[n].clobberHi, hi);
    }
  }

  lemma OrWithin(a: nat, b: nat, mask: nat)
    ensures AndNot(Or(a, b), mask) == 0 <==> AndNot(a, mask) == 0 && AndNot(b, mask) == 0
  {
    hide Bit, Or, AndNot;
    OrBits(a, b);
    AndNotBits(Or(a, b), mask);
    AndNotBits(a, mask);
    AndNotBits(b, mask);
    forall i: nat { BitZero(i); }
    if AndNot(Or(a, b), mask) == 0 {
      SameBits(AndNot(a, mask), 0);
      SameBits(AndNot(b, mask), 0);
    } else if AndNot(a, mask) == 0 && AndNot(b, mask) == 0 {
      SameBits(AndNot(Or(a, b), mask), 0);
    }
  }

  lemma UnionBits(all: seq<Emit>)
    ensures forall b: nat :: Bit(UnionLo(all), b) <==> exists k :: 0 <= k < |all| && Bit(all[k].clobberLo, b)
    ensures forall b: nat :: Bit(UnionHi(all), b) <==> exists k :: 0 <= k < |all| && Bit(all[k].clobberHi, b)
  {
    forall b: nat
      ensures Bit(UnionLo(all), b) <==> exists k :: 0 <= k < |all| && Bit(all[k].clobberLo, b)
      ensures Bit(UnionHi(all), b) <==> exists k :: 0 <= k < |all| && Bit(all[k].clobberHi, b)
    {
      BitOfUnion(all, b);
    }
  }

  lemma UnionInside(all: seq<Emit>, o: EmitOptions)
    requires forall k :: 0 <= k < |all| ==> SubMask(all[k].clobberLo, o.allowedLo) && SubMask(all[k].clobberHi, o.allowedHi)
    ensures AndNot(UnionLo(all), o.allowedLo) == 0 && AndNot(UnionHi(all), o.allowedHi) == 0
  {
    hide Bit, SubMask, UnionLo, UnionHi, AndNot;
    forall b: nat
      ensures Bit(UnionLo(all), b) ==> Bit(o.allowedLo, b)
      ensures Bit(UnionHi(all), b) ==> Bit(o.allowedHi, b)
    {
      BitOfUnion(all, b);
      forall k | 0 <= k < |all|
        ensures Bit(all[k].clobberLo, b) ==> Bit(o.allowedLo, b)
        ensures Bit(all[k].clobberHi, b) ==> Bit(o.allowedHi, b)
      {
        BitInside(all[k].clobberLo, o.allowedLo, b);
        BitInside(all[k].clobberHi, o.allowedHi, b);
      }
    }
    InsideMask(UnionLo(all), o.allowedLo);
    InsideMask(UnionHi(all), o.allowedHi);
  }
}
