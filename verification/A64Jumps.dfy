/** The jumps of the AArch64 target: which ones the emitter accepts, and that the patch size, the bound for the jump
    back and the room reserved for an instruction are the sizes that come about. */
module A64Jumps {
  import opened Bits
  import opened Wrappers
  import opened PcRelative
  import opened A64Code
  import opened A64Relocate
  import opened A64Target
  import opened A64Reach
  import opened Block
  import opened Relocate
  import opened Detour
  import EmitRel

  /** A direct branch reaches: word-aligned and within 128 MB. */
  predicate IsNear(address: u64, target: u64) {
    var disp := Distance(address, target);
    disp % 4 == 0 && -0x800_0000 <= disp <= 0x7ff_fffc
  }

  lemma X16Allowed(allowed: u64)
    ensures AndNot(X16_MASK, allowed) == 0 <==> Bit(allowed, 16)
  {
    hide Bit, AndNot, Pow2;
    SixteenBits();
    AndNotBits(Pow2(16), allowed);
    Pow2Bits(16);
    if AndNot(X16_MASK, allowed) == 0 {
      BitZero(16);
    }
    if Bit(allowed, 16) {
      forall i: nat ensures Bit(AndNot(X16_MASK, allowed), i) == Bit(0, i) { BitZero(i); }
      SameBits(AndNot(X16_MASK, allowed), 0);
    }
  }

  lemma SixteenBits()
    ensures Pow2(16) == X16_MASK
  {
    assert Pow2(8) == 0x100;
    Pow2Add(8, 8);
  }

  /** The room that a jump takes in a mode, if it is possible at all. */
  function JumpRoom(address: u64, target: u64, o: EmitOptions): Option<nat> {
    if IsNear(address, target) && o.mode != AbsoluteOnly then Some(4)
    else if (o.mode == Auto || o.mode == AbsoluteOnly || o.mode == AllowScratchClobber) && Bit(o.allowedLo, 16) then Some(16)
    else None
  }

  /** A jump is emitted exactly when a direct branch reaches and the mode permits one, or the mode permits one by address
      and the caller lets X16 be overwritten, and there is room. */
  lemma JumpSucceeds(decode: Decoder, targets: OperandTargets, address: u64, target: u64, o: EmitOptions, capacity: nat)
    ensures var e, room := EmitJump(Ops(decode, targets), address, target, o, capacity), JumpRoom(address, target, o);
            && (e.status == Ok <==> room.Some? && capacity >= room.value)
            && (e.status == Ok ==> e.size == room.value && e.clobberHi == 0
                                   && (e.clobberLo == if room.value == 4 then 0 else X16_MASK))
  {
    hide Distance, EmitRel.A64Word, Flatten, AndNot, Bit;
    X16Allowed(o.allowedLo);
    NothingOutside(o.allowedHi);
    var e := EmitOf(JumpPiece(address, target, o, capacity));
    assert Ops(decode, targets).jump(address, target, o, capacity) == e;
  }

  lemma NothingOutside(mask: nat)
    ensures AndNot(0, mask) == 0
  {
  }

  /** The patch size is the size of the jump that the same mode emits for it, and its clobbers are that jump's; it is 0
      exactly when no such jump can be emitted, given that X16 may be overwritten. */
  lemma PatchIsJump(address: u64, replacement: u64, o: EmitOptions)
    requires Bit(o.allowedLo, 16)
    ensures var patch, room := MinPatch(address, replacement, o.mode), JumpRoom(address, replacement, o);
            && (patch.size > 0 <==> room.Some?)
            && (room.Some? ==> patch.size == room.value && patch.clobberHi == 0
                               && patch.clobberLo == if room.value == 4 then 0 else X16_MASK)
  {
    hide Distance, Bit;
  }

  /** The bound for the jump back is the least one: a far jump takes it, or cannot be made and the plan says that the
      trampoline must be near; a near one takes it where only those can be made. */
  lemma JumpBackIsBound(address: u64, target: u64, o: EmitOptions)
    requires Bit(o.allowedLo, 16)
    ensures var bound, room := PlanJumpBack(o.mode), JumpRoom(address, target, o);
            && (room.Some? ==> room.value <= bound.size)
            && (!IsNear(address, target) ==> room == if bound.nearIsland then None else Some(bound.size))
            && (IsNear(address, target) && bound.nearIsland ==> room == Some(bound.size))
  {
    hide Distance, Bit;
  }

  /** An instruction that refers to an address takes one word where it still reaches, and otherwise all of the room that
      its analysis announces. */
  lemma InstRoom(targets: OperandTargets, inst: Inst, address: u64, capacity: nat)
    requires inst.address % 4 == 0 && address % 4 == 0 && FormOf(WordOf(inst)).Some?
    requires RelocateInst(targets, inst, address, capacity).status == Ok
    ensures var word := WordOf(inst);
            var form := FormOf(word).value;
            RelocateInst(targets, inst, address, capacity).size
            == if CanReach(word, form, address, Reaches(word, inst.address, form)) then 4 else Analyze(inst).maxEmitSize
  {
    hide FormOf, Reaches, CanReach, RelocateWord, WordOf, Flatten;
    RelocationSucceeds(WordOf(inst), inst.address, address, capacity, targets(inst));
  }
}
