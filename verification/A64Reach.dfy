/** Which words the AArch64 relocator can move where, and that it and the decoder's operands agree on the address that a
    word refers to. */
module A64Reach {
  import opened Bits
  import opened Wrappers
  import opened PcRelative
  import opened PackedFields
  import opened Immediates
  import opened A64Immediates
  import opened A64Code
  import opened A64Relocate
  import opened A64FormTests
  import A64PcRel
  import Block
  import EmitRel

  // ---- where a word can be moved

  /** Some word of the form that differs in its immediate only refers to the target from the new address. */
  ghost predicate CanReach(word: u32, form: Form, relocated: u64, target: u64) {
    exists w: u32 :: FormOf(w) == Some(form) && Rest(w, form) == Rest(word, form) && Reaches(w, relocated, form) == target
  }

  function Width(form: Form): nat {
    match form
    case Jump26 => 26
    case Test14 => 14
    case Adr => 21
    case Adrp => 21
    case _ => 19
  }

  /** The immediate as it stands in the word. */
  function Field(word: nat, form: Form): nat {
    match form
    case Jump26 => Get(word, 0, 26)
    case Test14 => Get(word, 5, 14)
    case Adr => AdrImm(word)
    case Adrp => AdrImm(word)
    case _ => Get(word, 5, 19)
  }

  lemma OffsetOfField(word: nat, form: Form)
    ensures Offset(word, form) == SignExtend(Field(word, form), Width(form))
  {
    hide SignExtend, Get, AdrImm;
  }

  lemma FieldFits(word: nat, form: Form)
    ensures Field(word, form) < Pow2(Width(form))
  {
    FieldSizes();
    hide Get, Pow2;
    GetBelow(word, 0, 26);
    GetBelow(word, 5, 14);
    GetBelow(word, 5, 19);
    GetBelow(word, 29, 2);
  }

  lemma OffsetRange(word: nat, form: Form)
    ensures var n := Offset(word, form);
            match form
            case Jump26 => -0x200_0000 <= n < 0x200_0000
            case Test14 => -0x2000 <= n < 0x2000
            case Adr => -0x10_0000 <= n < 0x10_0000
            case Adrp => -0x10_0000 <= n < 0x10_0000
            case _ => -0x4_0000 <= n < 0x4_0000
  {
    FieldSizes();
    Pow2Add(21, 4);
    hide SignExtend, Pow2, Field, Offset;
    OffsetOfField(word, form);
    FieldFits(word, form);
    SignExtendRange(Field(word, form), Width(form));
  }

  /** What a word refers to is in reach of its form. */
  lemma ReachedIsNear(w: u32, form: Form, relocated: u64)
    requires relocated % 4 == 0
    ensures var disp := NewDisp(relocated, Reaches(w, relocated, form), form);
            InReach(disp, form) && (form.Jump26? ==> disp % 4 == 0)
  {
    hide Offset, Wrap, Distance, AlignDown;
    OffsetRange(w, form);
    TargetAligned(w, relocated, form);
    var n := Offset(w, form);
    match form
    case Adr => DistanceUnique(relocated, n);
    case Adrp =>
      DistanceUnique(AlignDown(relocated, PAGE), n * PAGE);
      A64PcRel.Whole(n, PAGE);
    case _ => DistanceUnique(relocated, n * 4);
  }

  /** Direct jumps that agree in bit 31 agree outside their immediate. */
  lemma SameJump(a: u32, b: u32)
    requires FormOf(a) == Some(Jump26) && FormOf(b) == Some(Jump26) && (Get(a, 31, 1) == 1 <==> Get(b, 31, 1) == 1)
    ensures Rest(a, Jump26) == Rest(b, Jump26)
  {
    hide FormOf, Get, Bit, Put, Tested;
    FormTests(a, Jump26);
    FormTests(b, Jump26);
    TestedBits(a, Jump26);
    TestedBits(b, Jump26);
    TopBit(a);
    TopBit(b);
    forall i: nat ensures Bit(Put(a, 0, 26, 0), i) == Bit(Put(b, 0, 26, 0), i) {
      BitOfPut(a, 0, 26, 0, i);
      BitOfPut(b, 0, 26, 0, i);
      if i >= 32 {
        WordSizes();
        BitAbove(a, 32, i);
        BitAbove(b, 32, i);
      }
    }
    SameBits(Put(a, 0, 26, 0), Put(b, 0, 26, 0));
  }

  lemma TopBit(word: nat)
    ensures Get(word, 31, 1) == 1 <==> Bit(word, 31)
  {
    hide Get, Bit, Agrees, Ones, Pow2;
    OneValue();
    FieldTest(word, 31, 1, 1);
    EachBit(word, 31, Ones(1), 1);
    OnesBits(1);
  }

  /** The relocator's range is exactly what the form can express. */
  lemma ReachIsRange(word: u32, form: Form, address: u64, relocated: u64)
    requires FormOf(word) == Some(form) && address % 4 == 0 && relocated % 4 == 0
    ensures var target := Reaches(word, address, form);
            CanReach(word, form, relocated, target) <==> InReach(NewDisp(relocated, target, form), form)
  {
    hide Reaches, FormOf, Rest, NewDisp, InReach, Reencoded;
    var target := Reaches(word, address, form);
    if w: u32 :| FormOf(w) == Some(form) && Rest(w, form) == Rest(word, form) && Reaches(w, relocated, form) == target {
      ReachedIsNear(w, form, relocated);
    }
    if InReach(NewDisp(relocated, target, form), form) {
      var w := NearWord(word, form, address, relocated);
    }
  }

  lemma NearWord(word: u32, form: Form, address: u64, relocated: u64) returns (w: u32)
    requires FormOf(word) == Some(form) && address % 4 == 0 && relocated % 4 == 0
    requires InReach(NewDisp(relocated, Reaches(word, address, form), form), form)
    ensures FormOf(w) == Some(form) && Rest(w, form) == Rest(word, form)
    ensures Reaches(w, relocated, form) == Reaches(word, address, form)
  {
    hide Reaches, FormOf, Rest, Reencoded, EmitRel.A64Word, Get, Distance, AlignDown;
    var target := Reaches(word, address, form);
    var disp := NewDisp(relocated, target, form);
    if form.Jump26? {
      var isCall := Get(word, 31, 1) == 1;
      TargetAligned(word, address, form);
      AlignedApart(relocated, target);
      DirectWordIs(isCall, relocated, target);
      w := EmitRel.A64Word(isCall, Distance(relocated, target));
      SameJump(w, word);
    } else {
      NewWords(word, form, disp);
      w := Reencoded(word, form, disp);
      ReencodedWord(word, form, disp);
      SameTarget(word, form, address, relocated);
    }
  }

  /** When a word can be moved, and the room that it takes: one word where the form still reaches, and otherwise a
      jump by address, behind the opposite condition when there is one; address forms out of reach are refused, as are
      words that the decoder calls PC-relative without a form of their own. */
  lemma RelocationSucceeds(word: u32, address: u64, relocated: u64, capacity: nat, other: Option<u64>)
    requires address % 4 == 0 && relocated % 4 == 0
    ensures var form, p := FormOf(word), RelocateWord(word, address, relocated, capacity, other);
            if form.None? then
              && (p.status == Block.Ok <==> other.None? && capacity >= 4)
              && (p.status == Block.Ok ==> p.words == [word])
              && (p.status == Block.UnsupportedRelocation <==>
                    other.Some? && -0x800_0000 <= Distance(relocated, other.value) <= 0x7ff_fffc && capacity >= 4)
              && (p.status == Block.BranchOutOfRange <==>
                    other.Some? && !(-0x800_0000 <= Distance(relocated, other.value) <= 0x7ff_fffc))
            else
              var near := CanReach(word, form.value, relocated, Reaches(word, address, form.value));
              var room := if near then 4 else if form.value.Jump26? then 16 else 20;
              if near || form.value.Jump26? || IsCond(form.value) then
                && p.status == (if capacity >= room then Block.Ok else Block.OutputTooSmall)
                && (p.status == Block.Ok ==> 4 * |p.words| == room)
              else p.status == Block.BranchOutOfRange
  {
    hide Reaches, FormOf, CanReach, Get, NewDisp, SkipWord, Reencoded, EmitRel.A64Word, InReach, Distance;
    if FormOf(word).Some? {
      var form := FormOf(word).value;
      ReachIsRange(word, form, address, relocated);
      if form.Jump26? { JumpRange(word, address, relocated); }
    } else if other.Some? {
      JumpReach(Distance(relocated, other.value));
    }
  }

  lemma JumpReach(disp: int)
    ensures InReach(disp, Jump26) <==> -0x800_0000 <= disp <= 0x7ff_fffc
  {
  }

  lemma JumpRange(word: u32, address: u64, relocated: u64)
    requires address % 4 == 0 && relocated % 4 == 0
    ensures var target := Reaches(word, address, Jump26);
            InReach(NewDisp(relocated, target, Jump26), Jump26) <==> EmitRel.FitsWords4(Distance(relocated, target), 0x800_0000)
  {
    hide Reaches, Distance;
    TargetAligned(word, address, Jump26);
    AlignedApart(relocated, Reaches(word, address, Jump26));
  }

  // ---- the decoder's operand

  function TransformOf(form: Form): Transform {
    match form
    case Adr => PcRelAdr
    case Adrp => PcRelAdrp
    case _ => PcRelWords4
  }

  /** The operand that the decoder reads from the immediate of a word has the target that the relocator computes from
      the word. */
  lemma OperandTarget(word: u32, address: u64, form: Form, d: OperandDesc)
    requires d.transform == TransformOf(form) && d.sourceMask == Ones(Width(form))
    ensures Field(word, form) < U32
    ensures var back := A64PcRel.DecodePcRel(address, Field(word, form), d);
            back.Some? && back.value.absTarget == Reaches(word, address, form)
  {
    hide SignExtend, SourceWidth, Pow2, Ones, Field, Offset, RawSigned;
    FieldFits(word, form);
    Pow2Monotone(Width(form), 32);
    WordSizes();
    RawSignedContiguous(0, Width(form));
    OffsetOfField(word, form);
  }
}
