/** Running a whole relocated prologue on AArch64: it does what the overwritten instructions did. */
module A64Trampoline {
  import opened Bits
  import opened Wrappers
  import opened ByteOrder
  import opened PcRelative
  import opened PackedFields
  import opened A64Code
  import opened A64Relocate
  import opened A64Target
  import opened Block
  import opened Relocate
  import EmitRel

  // ---- a run, instruction by instruction

  /** What an instruction of a run leaves behind; a called routine returns into the run. */
  datatype Event = Ran(effects: seq<Effect>) | Called(target: u64)

  /** The processor state that the instructions find, for everything that has happened before. */
  type World = seq<Event> -> Env

  /** Where a run ends: it leaves for an address at instruction `at`, or calls a routine that will return
      into the middle of what was run, or falls off the end. */
  datatype Ending =
    | Left(at: nat, target: u64, history: seq<Event>)
    | Astray(at: nat, target: u64, history: seq<Event>)
    | Overrun(history: seq<Event>)

  datatype Turn = Next(history: seq<Event>) | Ends(ending: Ending)

  function Log(effects: seq<Effect>): seq<Event> {
    if effects == [] then [] else [Ran(effects)]
  }

  /** One instruction's code, of `size` words, ran and ended in `exit`. */
  function Follow(exit: Exit, size: nat, at: nat, history: seq<Event>): Turn {
    var done := history + Log(exit.effects);
    if exit.Falls? then Next(done)
    else if exit.link.None? then Ends(Left(at, exit.target, done))
    else if exit.link.value == size then Next(done + [Called(exit.target)])
    else Ends(Astray(at, exit.target, done))
  }

  /** The address of word `k` of some code. */
  function Place(base: u64, k: nat): u64 {
    Wrap(base + 4 * k)
  }

  /** Word `k` of the code, where it was. */
  function Step(word: u32, address: u64, world: World, k: nat, history: seq<Event>): Turn {
    Follow(Execute([word], address, world(history)), 1, k, history)
  }

  /** The overwritten words, which began at `original`, from the `k`-th on, and then the code at the continuation. */
  function RunOriginal(words: seq<u32>, original: u64, continuation: u64, world: World, k: nat, history: seq<Event>): Ending
    requires k <= |words|
    decreases |words| - k
  {
    if k == |words| then Left(k, continuation, history)
    else
      match Step(words[k], Place(original, k), world, k, history)
      case Next(more) => RunOriginal(words, original, continuation, world, k + 1, more)
      case Ends(ending) => ending
  }

  // ---- the same from the buffer

  /** The words stored in some bytes. */
  function WordsAt(bytes: seq<u8>): seq<u32> {
    if |bytes| < 4 then []
    else
      BytesOfLoad32(bytes[|bytes| - 4..]);
      WordsAt(bytes[..|bytes| - 4]) + [Load32(bytes[|bytes| - 4..])]
  }

  predicate InBuffer(report: Report, out: seq<u8>) {
    && (forall k :: 0 <= k < |report.insts| ==> report.insts[k].relocatedOffset + report.insts[k].relocatedSize <= |out|)
    && report.jumpBackOffset + report.jumpBackSize <= |out|
  }

  function Part(out: seq<u8>, offset: nat, size: nat): seq<u32>
    requires offset + size <= |out|
  {
    WordsAt(out[offset..offset + size])
  }

  /** The code that instruction `k` was relocated to. */
  function RelocatedStep(out: seq<u8>, r: RelocatedInst, world: World, k: nat, history: seq<Event>): Turn
    requires r.relocatedOffset + r.relocatedSize <= |out|
  {
    var words := Part(out, r.relocatedOffset, r.relocatedSize);
    Follow(Execute(words, r.relocatedAddress, world(history)), |words|, k, history)
  }

  /** The relocated code from the `k`-th instruction on, with the jump back. */
  function RunTrampoline(report: Report, out: seq<u8>, relocated: u64, world: World, k: nat, history: seq<Event>): Ending
    requires InBuffer(report, out) && k <= |report.insts|
    decreases |report.insts| - k
  {
    if k == |report.insts| then
      var words := Part(out, report.jumpBackOffset, report.jumpBackSize);
      match Follow(Execute(words, Wrap(relocated + report.jumpBackOffset), world(history)), |words|, k, history)
      case Next(more) => Overrun(more)
      case Ends(ending) => ending
    else
      match RelocatedStep(out, report.insts[k], world, k, history)
      case Next(more) => RunTrampoline(report, out, relocated, world, k + 1, more)
      case Ends(ending) => ending
  }

  /** Every instruction that the run gets to was relocated faithfully. */
  predicate FaithfulRun(words: seq<u32>, original: u64, report: Report, world: World, k: nat, history: seq<Event>)
    requires k <= |words| == |report.insts|
    decreases |words| - k
  {
    k < |words| ==>
      && Faithful(words[k], Place(original, k), report.insts[k].relocatedAddress)
      && var turn := Step(words[k], Place(original, k), world, k, history);
         turn.Next? ==> FaithfulRun(words, original, report, world, k + 1, turn.history)
  }

  // ---- words and bytes

  lemma {:induction false} WordsOfFlatten(words: seq<u32>)
    ensures WordsAt(Flatten(words)) == words
    decreases |words|
  {
    if words != [] {
      hide Bytes32, Load32;
      var n := |words| - 1;
      WordsOfFlatten(words[..n]);
      LoadOfBytes32(words[n]);
      FourBytes(words[n]);
      var bytes := Flatten(words);
      assert bytes[..|bytes| - 4] == Flatten(words[..n]);
      assert bytes[|bytes| - 4..] == Bytes32(words[n]);
    }
  }

  lemma FourBytes(v: u32)
    ensures |Bytes32(v)| == 4
  {
  }

  /** Each stored word is made of its own four bytes. */
  lemma {:induction false} WordsAtEach(bytes: seq<u8>, n: nat, k: nat)
    requires |bytes| == 4 * n
    ensures |WordsAt(bytes)| == n
    ensures k < n ==> WordsAt(bytes)[k] == Load32(bytes[4 * k..4 * k + 4])
    decreases n
  {
    hide Load32;
    if n > 0 {
      var at := 4 * (n - 1);
      WordsAtEach(bytes[..at], n - 1, k);
      assert bytes[at..at + 4] == bytes[at..];
      if k < n - 1 { assert bytes[..at][4 * k..4 * k + 4] == bytes[4 * k..4 * k + 4]; }
    }
  }

  /** What the decoder reports: four bytes, the ones it was given, at the address it was given. */
  ghost predicate A64Decoder(decode: Decoder) {
    forall code: seq<u8>, address: u64 :: decode(code, address).Good? ==>
      && |code| >= 4
      && decode(code, address).inst.size == 4
      && decode(code, address).inst.address == address
      && decode(code, address).inst.bytes == code[..4]
  }

  predicate WholeWord(inst: Inst) {
    inst.size == 4 && |inst.bytes| == 4 && inst.address % 4 == 0
  }

  lemma {:induction false} WordBlock(decode: Decoder, code: seq<u8>, address: u64, insts: seq<Inst>, k: nat)
    requires A64Decoder(decode) && Tiles(decode, code, address, insts) && address % 4 == 0 && k <= |insts|
    ensures Start(insts, k) == 4 * k
    ensures k < |insts| ==> IsWordOfCode(insts[k], code, address, k)
    decreases k
  {
    hide Wrap, A64Decoder, Start, TileAt, IsWordOfCode;
    if k > 0 {
      WordBlock(decode, code, address, insts, k - 1);
      StartBounds(decode, code, address, insts, k - 1);
      OneTile(decode, code, address, 4 * (k - 1), insts[k - 1]);
    } else {
      StartOfAll(insts);
    }
    if k < |insts| {
      OneTile(decode, code, address, 4 * k, insts[k]);
    }
  }

  /** Word `k` of the code, at its address. */
  predicate IsWordOfCode(inst: Inst, code: seq<u8>, address: u64, k: nat) {
    && WholeWord(inst)
    && inst.address == Place(address, k)
    && 4 * k + 4 <= |code|
    && inst.bytes == code[4 * k..4 * k + 4]
  }

  lemma OneTile(decode: Decoder, code: seq<u8>, address: u64, at: nat, inst: Inst)
    requires A64Decoder(decode) && TileAt(decode, code, address, at, inst) && address % 4 == 0 && at % 4 == 0
    ensures inst.size == 4 && IsWordOfCode(inst, code, address, at / 4)
  {
    hide Wrap;
    WrapAligned(address + at);
    assert inst.bytes == code[at..][..4];
  }

  // ---- one instruction

  /** Exits that a caller cannot tell apart are followed alike. */
  lemma FollowAlike(a: Exit, aSize: nat, b: Exit, bSize: nat, at: nat, history: seq<Event>)
    requires SameExit(a, aSize, b, bSize) && (a.Leaves? && a.link.Some? ==> a.link.value == aSize)
    ensures Follow(a, aSize, at, history) == Follow(b, bSize, at, history)
  {
  }

  lemma AloneReturns(word: u32, base: u64, env: Env)
    ensures var exit := Execute([word], base, env); exit.Leaves? && exit.link.Some? ==> exit.link.value == 1
  {
    hide FormOf, Reaches, Get, Execute, Holds;
    AloneRuns(word, base, env);
  }

  /** A call out of direct range is emitted as an absolute call. */
  lemma FarCall(word: u32, address: u64, relocated: u64, capacity: nat, other: Option<u64>)
    requires FormOf(word) == Some(Jump26) && RelocateWord(word, address, relocated, capacity, other).status == Ok
    requires !Faithful(word, address, relocated)
    ensures RelocateWord(word, address, relocated, capacity, other).words == AbsoluteWords(true, Reaches(word, address, Jump26))
  {
    hide FormOf, Reaches, Get, Wrap, EmitRel.A64Word, EmitRel.FitsWords4, Distance, AbsoluteWords, NewDisp, InReach, Reencoded,
         SkipWord;
  }

  /** A conditional branch out of reach is emitted as a skip over an absolute branch. */
  lemma FarCondition(word: u32, address: u64, relocated: u64, capacity: nat, other: Option<u64>, form: Form)
    requires FormOf(word) == Some(form) && !form.Jump26? && RelocateWord(word, address, relocated, capacity, other).status == Ok
    requires !Faithful(word, address, relocated)
    ensures form.Cond19? && Get(word, 0, 4) >= 14 && SkipWord(word, form) < U32
    ensures RelocateWord(word, address, relocated, capacity, other).words
         == [SkipWord(word, form)] + AbsoluteWords(false, Reaches(word, address, form))
  {
    hide FormOf, Reaches, Get, Wrap, EmitDirect, EmitAbs, Distance, AbsoluteWords, NewDisp, InReach, Reencoded, SkipWord;
    NewWords(word, form, NewDisp(relocated, Reaches(word, address, form), form));
  }

  /** A relocation that is not faithful goes astray, or stays where the instruction left. */
  lemma Unfaithful(word: u32, address: u64, relocated: u64, capacity: nat, other: Option<u64>, env: Env, k: nat, history: seq<Event>)
    requires RelocateWord(word, address, relocated, capacity, other).status == Ok && !Faithful(word, address, relocated)
    ensures var piece := RelocateWord(word, address, relocated, capacity, other).words;
            var was := Follow(Execute([word], address, env), 1, k, history);
            var moved := Follow(Execute(piece, relocated, env), |piece|, k, history);
            || (moved.Ends? && moved.ending.Astray?)
            || (was.Ends? && was.ending.Left? && was.ending.at == k && moved.Next?)
  {
    var form := FormOf(word).value;
    var target := Reaches(word, address, form);
    FourWords(true, target);
    assert FormOf(word).Some?;
    hide FormOf, Reaches, Get, Wrap, Execute, AbsoluteWords, SkipWord, RelocateWord, Faithful, Holds;
    if form.Jump26? {
      FarCall(word, address, relocated, capacity, other);
      AbsoluteCall(target, relocated, env);
    } else {
      FarCondition(word, address, relocated, capacity, other, form);
      AloneRuns(word, address, env);
      ExpandedRuns(word, form, relocated, env, target);
      AlwaysHolds(word, form, env);
    }
  }

  lemma AbsoluteCall(target: u64, base: u64, env: Env)
    ensures Execute(AbsoluteWords(true, target), base, env) == Leaves(target, Some(2), [])
  {
    FourWords(true, target);
    hide Run, AbsoluteWords;
    var words := AbsoluteWords(true, target);
    assert words[0..] == words;
    AbsoluteRuns(words, base, env, 0, true, target);
  }

  lemma AlwaysHolds(word: u32, form: Form, env: Env)
    requires FormOf(word) == Some(form) && form.Cond19? && Get(word, 0, 4) >= 14
    ensures Holds(env, word, form) && Holds(env, SkipWord(word, form), form)
  {
    SkipMeaning(word, form, env);
    ConditionCode(word, form, env);
  }

  /** The stored code of a relocated instruction is its piece. */
  lemma StoredPiece(targets: OperandTargets, inst: Inst, address: u64, capacity: nat)
    requires WholeWord(inst)
    requires RelocateInst(targets, inst, address, capacity).status == Ok
    ensures RelocateWord(WordOf(inst), inst.address, address, capacity, targets(inst)).status == Ok
    ensures WordsAt(RelocateInst(targets, inst, address, capacity).code)
         == RelocateWord(WordOf(inst), inst.address, address, capacity, targets(inst)).words
  {
    hide FormOf, Load32, Flatten;
    var word := WordOf(inst);
    if FormOf(word).None? && targets(inst).None? {
      assert inst.bytes[..4] == inst.bytes;
      assert inst.bytes[0..] == inst.bytes && inst.bytes[..0] == [];
      assert WordsAt([]) == [];
    } else {
      hide RelocateWord;
      WordsOfFlatten(RelocateWord(word, inst.address, address, capacity, targets(inst)).words);
    }
  }

  /** What is known of instruction `k` after a successful relocation. */
  ghost predicate Stored(targets: OperandTargets, inst: Inst, r: RelocatedInst, out: seq<u8>) {
    && WholeWord(inst)
    && r.relocatedAddress % 4 == 0
    && r.relocatedOffset + r.relocatedSize <= |out|
    && RelocateInst(targets, inst, r.relocatedAddress, |out| - r.relocatedOffset).status == Ok
    && out[r.relocatedOffset..r.relocatedOffset + r.relocatedSize]
       == RelocateInst(targets, inst, r.relocatedAddress, |out| - r.relocatedOffset).code
  }

  /** A faithful relocation goes on as the instruction did; another one does not. */
  ghost predicate GoesOn(was: Turn, moved: Turn, faithful: bool, k: nat) {
    if faithful then moved == was
    else
      || (moved.Ends? && moved.ending.Astray?)
      || (was.Ends? && was.ending.Left? && was.ending.at == k && moved.Next?)
  }

  lemma OneWord(word: u32, address: u64, relocated: u64, capacity: nat, other: Option<u64>, env: Env, k: nat, history: seq<Event>)
    requires address % 4 == 0 && relocated % 4 == 0
    requires RelocateWord(word, address, relocated, capacity, other).status == Ok
    ensures var piece := RelocateWord(word, address, relocated, capacity, other).words;
            GoesOn(Follow(Execute([word], address, env), 1, k, history), Follow(Execute(piece, relocated, env), |piece|, k, history),
                   Faithful(word, address, relocated), k)
  {
    hide RelocateWord, Faithful, Execute, SameExit, Follow;
    var piece := RelocateWord(word, address, relocated, capacity, other).words;
    RelocationMeaning(word, address, relocated, capacity, other, env);
    if Faithful(word, address, relocated) {
      AloneReturns(word, address, env);
      FollowAlike(Execute([word], address, env), 1, Execute(piece, relocated, env), |piece|, k, history);
    } else {
      Unfaithful(word, address, relocated, capacity, other, env, k, history);
    }
  }

  lemma OneInstruction(targets: OperandTargets, inst: Inst, r: RelocatedInst, out: seq<u8>, world: World, k: nat, history: seq<Event>)
    requires Stored(targets, inst, r, out)
    ensures GoesOn(Step(WordOf(inst), inst.address, world, k, history), RelocatedStep(out, r, world, k, history),
                   Faithful(WordOf(inst), inst.address, r.relocatedAddress), k)
  {
    hide RelocateWord, RelocateInst, WordOf, Load32, Faithful, Execute, GoesOn, Follow, WordsAt;
    StoredPiece(targets, inst, r.relocatedAddress, |out| - r.relocatedOffset);
    OneWord(WordOf(inst), inst.address, r.relocatedAddress, |out| - r.relocatedOffset, targets(inst), world(history), k, history);
  }

  // ---- the whole run

  /** The code leaves for the continuation, whatever the processor state. */
  ghost predicate LeavesFor(words: seq<u32>, address: u64, continuation: u64) {
    forall env: Env :: Execute(words, address, env) == Leaves(continuation, None, [])
  }

  ghost predicate JumpsBack(report: Report, out: seq<u8>, relocated: u64, continuation: u64)
    requires InBuffer(report, out)
  {
    LeavesFor(Part(out, report.jumpBackOffset, report.jumpBackSize), Wrap(relocated + report.jumpBackOffset), continuation)
  }

  /** The original run never goes astray, and ends at the instruction it got to or later. */
  lemma {:induction false} OriginalEnds(words: seq<u32>, original: u64, continuation: u64, world: World, k: nat, history: seq<Event>)
    requires k <= |words|
    ensures var ending := RunOriginal(words, original, continuation, world, k, history); ending.Left? && ending.at >= k
    decreases |words| - k
  {
    if k < |words| {
      AloneReturns(words[k], Place(original, k), world(history));
      hide Execute, Place;
      var turn := Step(words[k], Place(original, k), world, k, history);
      if turn.Next? { OriginalEnds(words, original, continuation, world, k + 1, turn.history); }
    }
  }

  lemma {:induction false} TrampolineEnds(report: Report, out: seq<u8>, relocated: u64, world: World, k: nat, history: seq<Event>)
    requires InBuffer(report, out) && k <= |report.insts|
    ensures var ending := RunTrampoline(report, out, relocated, world, k, history); ending.Left? ==> ending.at >= k
    decreases |report.insts| - k
  {
    hide Execute, Part;
    if k < |report.insts| {
      var turn := RelocatedStep(out, report.insts[k], world, k, history);
      if turn.Next? { TrampolineEnds(report, out, relocated, world, k + 1, turn.history); }
    }
  }

  /** The decoded instructions are the words of the code, at their places. */
  ghost predicate AreWords(insts: seq<Inst>, words: seq<u32>, original: u64) {
    |words| == |insts| && forall i :: 0 <= i < |insts| ==> IsWordAt(insts[i], words[i], Place(original, i))
  }

  predicate IsWordAt(inst: Inst, word: u32, address: u64) {
    WordOf(inst) == word && inst.address == address
  }

  lemma {:induction false} RunsAlike(targets: OperandTargets, insts: seq<Inst>, words: seq<u32>, original: u64, report: Report,
                                     out: seq<u8>, relocated: u64, continuation: u64, world: World, k: nat, history: seq<Event>)
    requires InBuffer(report, out) && JumpsBack(report, out, relocated, continuation) && AreWords(insts, words, original)
    requires k <= |insts| && AllStoredAt(targets, insts, report, out)
    ensures RunTrampoline(report, out, relocated, world, k, history) == RunOriginal(words, original, continuation, world, k, history)
            <==> FaithfulRun(words, original, report, world, k, history)
    decreases |insts| - k
  {
    hide Stored, Step, RelocatedStep, Faithful, Execute, Part, WordOf, Place;
    if k < |insts| {
      var word, address := words[k], Place(original, k);
      assert IsWordAt(insts[k], word, address);
      OneInstruction(targets, insts[k], report.insts[k], out, world, k, history);
      OriginalEnds(words, original, continuation, world, k, history);
      var was, moved := Step(word, address, world, k, history), RelocatedStep(out, report.insts[k], world, k, history);
      if Faithful(word, address, report.insts[k].relocatedAddress) {
        if was.Next? { RunsAlike(targets, insts, words, original, report, out, relocated, continuation, world, k + 1, was.history); }
      } else if moved.Next? {
        TrampolineEnds(report, out, relocated, world, k + 1, moved.history);
      }
    }
  }

  // ---- relocated prologues

  /** The operations of an AArch64 target. */
  ghost predicate IsA64(t: TargetOps, targets: OperandTargets) {
    && (forall inst: Inst, address: u64, capacity: nat ::
          t.relocate(inst, address, capacity) == RelocateInst(targets, inst, address, capacity))
    && (forall address: u64, target: u64, o: EmitOptions, capacity: nat ::
          t.jump(address, target, o, capacity) == EmitOf(JumpPiece(address, target, o, capacity)))
  }

  lemma OpsAreA64(decode: Decoder, targets: OperandTargets)
    ensures IsA64(Ops(decode, targets), targets) && Ops(decode, targets).decode == decode
  {
    hide RelocateInst, JumpPiece, EmitOf;
  }

  lemma A64Relocates(t: TargetOps, targets: OperandTargets, inst: Inst, address: u64, capacity: nat)
    requires IsA64(t, targets)
    ensures t.relocate(inst, address, capacity) == RelocateInst(targets, inst, address, capacity)
  {
    hide RelocateInst, JumpPiece, EmitOf;
  }

  lemma A64Jumps(t: TargetOps, targets: OperandTargets, address: u64, target: u64, o: EmitOptions, capacity: nat)
    requires IsA64(t, targets)
    ensures t.jump(address, target, o, capacity) == EmitOf(JumpPiece(address, target, o, capacity))
  {
    hide RelocateInst, JumpPiece, EmitOf;
  }

  lemma SizeAligned(targets: OperandTargets, inst: Inst, address: u64, capacity: nat)
    requires WholeWord(inst)
    ensures RelocateInst(targets, inst, address, capacity).size % 4 == 0
  {
    hide RelocateWord, FormOf, WordOf, Flatten;
  }

  lemma EmitAligned(t: TargetOps, targets: OperandTargets, relocated: u64, capacity: nat, inst: Inst, at: nat)
    requires IsA64(t, targets) && WholeWord(inst)
    ensures EmitFor(t, relocated, capacity, inst, at).size % 4 == 0
  {
    hide Wrap, RelocateInst, WholeWord, IsA64;
    var room := if at <= capacity then capacity - at else 0;
    A64Relocates(t, targets, inst, Wrap(relocated + at), room);
    SizeAligned(targets, inst, Wrap(relocated + at), room);
  }

  lemma {:induction false} SizesAligned(t: TargetOps, targets: OperandTargets, relocated: u64, capacity: nat, insts: seq<Inst>, k: nat)
    requires IsA64(t, targets) && k <= |insts| && forall i :: 0 <= i < |insts| ==> WholeWord(insts[i])
    ensures Size(Emits(t, relocated, capacity, insts)[..k]) % 4 == 0
    decreases k
  {
    hide Emits, EmitFor, WholeWord, IsA64;
    if k > 0 {
      var emits := Emits(t, relocated, capacity, insts);
      SizesAligned(t, targets, relocated, capacity, insts, k - 1);
      EmitsEach(t, relocated, capacity, insts, k - 1);
      SizeGrows(emits, k - 1);
      EmitAligned(t, targets, relocated, capacity, insts[k - 1], Size(emits[..k - 1]));
    }
  }

  /** The instructions of a block are the words of the code that it takes. */
  lemma BlockOfWords(decode: Decoder, code: seq<u8>, address: u64, minSize: nat)
    requires ValidDecoder(decode) && A64Decoder(decode) && address % 4 == 0
    requires WholeBlock(decode, code, address, minSize, MAX_BLOCK).status == Ok
    ensures var insts := WholeBlock(decode, code, address, minSize, MAX_BLOCK).insts;
            && Total(insts) <= |code|
            && AreWords(insts, WordsAt(code[..Total(insts)]), address)
            && forall k :: 0 <= k < |insts| ==> WholeWord(insts[k])
  {
    hide WholeBlock, WordOf, WordsAt, Minimal, Tiles, A64Decoder, Total, WholeWord, Place, Start;
    var insts := WholeBlock(decode, code, address, minSize, MAX_BLOCK).insts;
    BlockMeaning(decode, code, address, minSize, MAX_BLOCK, insts);
    WordBlock(decode, code, address, insts, |insts|);
    StartOfAll(insts);
    StartInside(decode, code, address, insts, |insts|);
    var bytes := code[..Total(insts)];
    WordsAtEach(bytes, |insts|, 0);
    forall k: nat | k < |insts| ensures WholeWord(insts[k]) && IsWordAt(insts[k], WordsAt(bytes)[k], Place(address, k)) {
      WordBlock(decode, code, address, insts, k);
      WordsAtEach(bytes, |insts|, k);
      assert bytes[4 * k..4 * k + 4] == code[4 * k..4 * k + 4];
      WordOfBytes(insts[k]);
    }
  }

  lemma WordOfBytes(inst: Inst)
    requires WholeWord(inst)
    ensures WordOf(inst) == Load32(inst.bytes)
  {
    hide Load32;
    assert inst.bytes[..4] == inst.bytes;
  }

  ghost predicate StoredAt(targets: OperandTargets, insts: seq<Inst>, report: Report, out: seq<u8>, k: nat) {
    k < |insts| && k < |report.insts| && Stored(targets, insts[k], report.insts[k], out)
  }

  lemma StoredEach(t: TargetOps, targets: OperandTargets, insts: seq<Inst>, relocated: u64, o: Options, out: seq<u8>,
                   before: seq<u8>, report: Report, k: nat)
    requires forall i :: 0 <= i < |insts| ==> WholeWord(insts[i])
    requires ValidTarget(t) && IsA64(t, targets) && relocated % 4 == 0
    requires Relocated(t, Block.Result(Ok, insts), relocated, o, out, before, report)
    ensures |report.insts| == |insts|
    ensures k < |insts| ==> StoredAt(targets, insts, report, out, k)
  {
    hide ValidTarget, Relocated, IsA64, Wrap, RelocateInst, WordOf, Load32, Size, WholeWord;
    EmissionEach(t, insts, relocated, o, out, before, report, k);
    if k < |insts| {
      var r := report.insts[k];
      SizesAligned(t, targets, relocated, |out|, insts, k);
      WrapAligned(relocated + r.relocatedOffset);
      A64Relocates(t, targets, insts[k], r.relocatedAddress, |out| - r.relocatedOffset);
    }
  }

  lemma JumpBack(t: TargetOps, targets: OperandTargets, insts: seq<Inst>, relocated: u64, o: Options, out: seq<u8>,
                 before: seq<u8>, report: Report)
    requires ValidTarget(t) && IsA64(t, targets)
    requires Relocated(t, Block.Result(Ok, insts), relocated, o, out, before, report)
    ensures report.jumpBackOffset + report.jumpBackSize <= |out|
    ensures LeavesFor(Part(out, report.jumpBackOffset, report.jumpBackSize), Wrap(relocated + report.jumpBackOffset), o.continuation)
  {
    hide ValidTarget, Relocated, IsA64, Wrap, JumpPiece, WordsAt, Flatten, Execute, AndNot;
    JumpStored(t, insts, relocated, o, out, before, report);
    var address, capacity := Wrap(relocated + report.jumpBackOffset), |out| - report.jumpBackOffset;
    A64Jumps(t, targets, address, o.continuation, o.emit, capacity);
    var piece := JumpPiece(address, o.continuation, o.emit, capacity);
    WordsOfFlatten(piece.words);
    forall env: Env ensures Execute(piece.words, address, env) == Leaves(o.continuation, None, []) {
      JumpMeans(address, o.continuation, o.emit, capacity, env);
    }
  }

  lemma StoredInBuffer(targets: OperandTargets, insts: seq<Inst>, report: Report, out: seq<u8>)
    requires |report.insts| == |insts| && forall k :: 0 <= k < |insts| ==> Stored(targets, insts[k], report.insts[k], out)
    requires report.jumpBackOffset + report.jumpBackSize <= |out|
    ensures InBuffer(report, out)
  {
  }

  lemma AllStored(t: TargetOps, targets: OperandTargets, insts: seq<Inst>, relocated: u64, o: Options, out: seq<u8>,
                  before: seq<u8>, report: Report)
    requires ValidTarget(t) && IsA64(t, targets) && relocated % 4 == 0
    requires Relocated(t, Block.Result(Ok, insts), relocated, o, out, before, report)
    requires forall i :: 0 <= i < |insts| ==> WholeWord(insts[i])
    ensures |report.insts| == |insts| && InBuffer(report, out)
    ensures forall k :: 0 <= k < |insts| ==> Stored(targets, insts[k], report.insts[k], out)
    ensures JumpsBack(report, out, relocated, o.continuation)
  {
    hide ValidTarget, Relocated, IsA64, WordOf, Load32, WholeWord, Stored, LeavesFor, Part, Wrap;
    StoredEach(t, targets, insts, relocated, o, out, before, report, |insts|);
    forall k: nat | k < |insts| ensures Stored(targets, insts[k], report.insts[k], out) {
      StoredEach(t, targets, insts, relocated, o, out, before, report, k);
    }
    JumpBack(t, targets, insts, relocated, o, out, before, report);
    StoredInBuffer(targets, insts, report, out);
  }

  /** The words that a relocation overwrites. */
  function OverwrittenWords(code: seq<u8>, report: Report): seq<u32>
    requires report.overwrittenSize <= |code|
  {
    WordsAt(code[..report.overwrittenSize])
  }

  /** A successfully relocated prologue, run from the caller's buffer, does what the overwritten words of the code did at
      their own addresses and goes on at the continuation - in every processor state, exactly when each instruction
      that the run gets to was relocated faithfully. */
  lemma TrampolineMeaning(decode: Decoder, targets: OperandTargets, code: seq<u8>, original: u64, relocated: u64, o: Options,
                          out: seq<u8>, before: seq<u8>, report: Report, world: World)
    requires ValidDecoder(decode) && A64Decoder(decode) && forall inst: Inst :: targets(inst).Some? ==> inst.size >= 4
    requires original % 4 == 0 && relocated % 4 == 0
    requires Relocated(Ops(decode, targets), Prologue(Ops(decode, targets), code, original, MinSize(o)), relocated, o, out, before, report)
    ensures report.overwrittenSize == 4 * |report.insts| <= |code|
    ensures forall k :: 0 <= k < |report.insts| ==> report.insts[k].originalAddress == Place(original, k)
    ensures var words := OverwrittenWords(code, report);
            && |words| == |report.insts|
            && InBuffer(report, out)
            && (RunTrampoline(report, out, relocated, world, 0, []) == RunOriginal(words, original, o.continuation, world, 0, [])
                <==> FaithfulRun(words, original, report, world, 0, []))
  {
    hide WholeBlock, RunTrampoline, RunOriginal, FaithfulRun, WordsAt, WholeWord, A64Decoder, ValidDecoder, MinSize,
         JumpsBack, InBuffer, AreWords, Total, Place, Relocated, AllStoredAt;
    var insts := Prologue(Ops(decode, targets), code, original, MinSize(o)).insts;
    TrampolineParts(decode, targets, code, original, relocated, o, out, before, report);
    RunsAlike(targets, insts, OverwrittenWords(code, report), original, report, out, relocated, o.continuation, world, 0, []);
  }

  ghost predicate AllStoredAt(targets: OperandTargets, insts: seq<Inst>, report: Report, out: seq<u8>) {
    |report.insts| == |insts| && forall i :: 0 <= i < |insts| ==> Stored(targets, insts[i], report.insts[i], out)
  }

  lemma TrampolineParts(decode: Decoder, targets: OperandTargets, code: seq<u8>, original: u64, relocated: u64, o: Options,
                        out: seq<u8>, before: seq<u8>, report: Report)
    requires ValidDecoder(decode) && A64Decoder(decode) && forall inst: Inst :: targets(inst).Some? ==> inst.size >= 4
    requires original % 4 == 0 && relocated % 4 == 0
    requires Relocated(Ops(decode, targets), Prologue(Ops(decode, targets), code, original, MinSize(o)), relocated, o, out, before, report)
    ensures report.overwrittenSize == 4 * |report.insts| <= |code|
    ensures forall k :: 0 <= k < |report.insts| ==> report.insts[k].originalAddress == Place(original, k)
    ensures var insts := Prologue(Ops(decode, targets), code, original, MinSize(o)).insts;
            && |insts| == |report.insts| == |OverwrittenWords(code, report)|
            && AreWords(insts, OverwrittenWords(code, report), original)
            && AllStoredAt(targets, insts, report, out)
            && InBuffer(report, out)
            && JumpsBack(report, out, relocated, o.continuation)
  {
    hide WholeBlock, Stored, WordsAt, WholeWord, A64Decoder, ValidDecoder, MinSize, JumpsBack, InBuffer, AreWords, Total, Place;
    KeepsContracts(decode, targets);
    var t := Ops(decode, targets);
    OpsAreA64(decode, targets);
    var block := Prologue(t, code, original, MinSize(o));
    BlockOfReport(t, block, relocated, o, out, before, report);
    hide ValidTarget, Relocated, Ops, IsA64;
    assert block == Block.Result(Ok, block.insts);
    BlockOfWords(decode, code, original, MinSize(o));
    AllStored(t, targets, block.insts, relocated, o, out, before, report);
    OriginalPlaces(t, block, relocated, o, out, before, report, OverwrittenWords(code, report), original);
    WordsAtEach(code[..report.overwrittenSize], |report.insts|, 0);
  }

  lemma OriginalPlaces(t: TargetOps, block: Block.Result, relocated: u64, o: Options, out: seq<u8>, before: seq<u8>, report: Report,
                       words: seq<u32>, original: u64)
    requires Relocated(t, block, relocated, o, out, before, report) && AreWords(block.insts, words, original)
    requires forall k :: 0 <= k < |block.insts| ==> WholeWord(block.insts[k])
    ensures |report.insts| == |block.insts| && Total(block.insts) == 4 * |block.insts|
    ensures forall k :: 0 <= k < |report.insts| ==> report.insts[k].originalAddress == Place(original, k)
  {
    hide Relocated, WordOf, Place, Wrap;
    OffsetsTile(t, block, relocated, o, out, before, report);
    forall k | 0 <= k < |report.insts| ensures report.insts[k].originalAddress == Place(original, k) {
      assert RecordTiles(report, block.insts[k], relocated, k);
      assert IsWordAt(block.insts[k], words[k], Place(original, k));
    }
    TotalOfWords(block.insts);
  }

  lemma {:induction false} TotalOfWords(insts: seq<Inst>)
    requires forall k :: 0 <= k < |insts| ==> WholeWord(insts[k])
    ensures Total(insts) == 4 * |insts|
    decreases |insts|
  {
    if insts != [] { TotalOfWords(insts[..|insts| - 1]); }
  }

  // ---- branches into the overwritten bytes

  /** The first word at an address. */
  function At(n: nat, original: u64, address: u64): (k: Option<nat>)
    ensures k.Some? ==> k.value < n && Place(original, k.value) == address
    ensures k.None? ==> forall i: nat :: i < n ==> Place(original, i) != address
  {
    if n == 0 then None
    else
      var before := At(n - 1, original, address);
      if before.Some? then before else if Place(original, n - 1) == address then Some(n - 1) else None
  }

  /** The run left for a word that is overwritten. */
  predicate Reenters(words: seq<u32>, original: u64, ending: Ending) {
    ending.Left? && At(|words|, original, ending.target).Some?
  }

  /** The run of the words before they were overwritten, where a branch back to one of them goes on there; after `fuel`
      such branches it counts as endless. */
  function RunLooping(words: seq<u32>, original: u64, continuation: u64, world: World, k: nat, history: seq<Event>, fuel: nat): Ending
    requires k <= |words|
    decreases fuel
  {
    var ending := RunOriginal(words, original, continuation, world, k, history);
    if !Reenters(words, original, ending) then ending
    else if fuel == 0 then Overrun(ending.history)
    else RunLooping(words, original, continuation, world, At(|words|, original, ending.target).value, ending.history, fuel - 1)
  }

  lemma {:induction false} LoopingLeaves(words: seq<u32>, original: u64, continuation: u64, world: World, k: nat, history: seq<Event>,
                                         fuel: nat)
    requires k <= |words|
    ensures !Reenters(words, original, RunLooping(words, original, continuation, world, k, history, fuel))
    decreases fuel
  {
    hide RunOriginal, Place;
    var ending := RunOriginal(words, original, continuation, world, k, history);
    if Reenters(words, original, ending) && fuel > 0 {
      LoopingLeaves(words, original, continuation, world, At(|words|, original, ending.target).value, ending.history, fuel - 1);
    }
  }

  /** A faithful trampoline does what the words did before they were overwritten, however often they would have branched
      back among themselves, exactly when they did not. */
  lemma LoopingMeaning(decode: Decoder, targets: OperandTargets, code: seq<u8>, original: u64, relocated: u64, o: Options,
                       out: seq<u8>, before: seq<u8>, report: Report, world: World, fuel: nat)
    requires ValidDecoder(decode) && A64Decoder(decode) && forall inst: Inst :: targets(inst).Some? ==> inst.size >= 4
    requires original % 4 == 0 && relocated % 4 == 0
    requires Relocated(Ops(decode, targets), Prologue(Ops(decode, targets), code, original, MinSize(o)), relocated, o, out, before, report)
    ensures report.overwrittenSize <= |code|
    ensures var words := OverwrittenWords(code, report);
            && |words| == |report.insts|
            && InBuffer(report, out)
            && (FaithfulRun(words, original, report, world, 0, []) ==>
                  (RunTrampoline(report, out, relocated, world, 0, [])
                   == RunLooping(words, original, o.continuation, world, 0, [], fuel)
                   <==> !Reenters(words, original, RunOriginal(words, original, o.continuation, world, 0, []))))
  {
    hide Relocated, WholeBlock, ValidDecoder, A64Decoder, RunTrampoline, RunOriginal, FaithfulRun, InBuffer, MinSize, Ops, WordsAt, Place;
    TrampolineMeaning(decode, targets, code, original, relocated, o, out, before, report, world);
    LoopingLeaves(OverwrittenWords(code, report), original, o.continuation, world, 0, [], fuel);
  }

  /** A branch to itself, whatever follows it, is left for the address that it had, which is overwritten. */
  lemma LoopCounterexample(words: seq<u32>, original: u64, continuation: u64, world: World)
    requires words != [] && FormOf(words[0]) == Some(Jump26) && Get(words[0], 31, 1) == 0
    requires Reaches(words[0], original, Jump26) == original
    ensures RunOriginal(words, original, continuation, world, 0, []) == Left(0, original, [])
    ensures Reenters(words, original, Left(0, original, []))
  {
    hide Place, FormOf, Reaches, Get, Step, At;
    FirstPlace(original);
    LeavesForItself(words[0], original, world);
  }

  lemma FirstPlace(original: u64)
    ensures Place(original, 0) == original
  {
  }

  lemma LeavesForItself(word: u32, address: u64, world: World)
    requires FormOf(word) == Some(Jump26) && Get(word, 31, 1) == 0 && Reaches(word, address, Jump26) == address
    ensures Step(word, address, world, 0, []) == Ends(Left(0, address, []))
  {
    hide FormOf, Reaches, Get, Execute, Rest, LdrX16;
    AloneRuns(word, address, world([]));
    var nothing: seq<Event> := [];
    assert nothing + Log([]) == nothing;
  }

  /** There is such a branch. */
  lemma SelfBranch(address: u64, disp: i64) returns (word: u32)
    requires disp == 0
    ensures word == EmitRel.A64Word(false, disp)
    ensures FormOf(word) == Some(Jump26) && Get(word, 31, 1) == 0 && Reaches(word, address, Jump26) == address
  {
    assert Distance(address, address) == disp;
    hide FormOf, Reaches, Get, EmitRel.A64Word;
    DirectWordIs(false, address, address);
    OneBit(EmitRel.A64Word(false, disp));
    word := EmitRel.A64Word(false, disp);
  }

  lemma OneBit(word: nat)
    ensures Get(word, 31, 1) < 2
  {
    GetBelow(word, 31, 1);
    assert Pow2(1) == 2;
  }
}
