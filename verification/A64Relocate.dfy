/** Relocating AArch64 instructions: the target's relocator, analysis and jump emitter. */
module A64Relocate {
  import opened Bits
  import opened Wrappers
  import opened PcRelative
  import opened PackedFields
  import opened Immediates
  import opened A64Code
  import Block
  import EmitRel

  const X16_MASK: u64 := 0x1_0000

  /** What the relocator produces: the code as words. */
  datatype Piece = Piece(status: Block.Status, words: seq<u32>, clobbersX16: bool)

  function Failed(status: Block.Status): Piece {
    Piece(status, [], false)
  }

  // ---- emission

  /** `a64_emit_abs`: load the address behind the branch into X16 and branch to it. */
  function AbsoluteWords(isCall: bool, target: u64): seq<u32> {
    [LDR_X16_NEXT, if isCall then BLR_X16 else BR_X16, target % U32, target / U32]
  }

  function EmitAbs(isCall: bool, target: u64, capacity: nat): Piece {
    if capacity < 16 then Failed(Block.OutputTooSmall) else Piece(Block.Ok, AbsoluteWords(isCall, target), true)
  }

  /** `asmkit_gen_aarch64_emit_rel`, as a value. */
  function EmitDirect(isCall: bool, address: u64, target: u64, capacity: nat): Piece {
    var disp := Distance(address, target);
    if !EmitRel.FitsWords4(disp, 0x800_0000) then Failed(Block.BranchOutOfRange)
    else if capacity < 4 then Failed(Block.OutputTooSmall)
    else
      EmitRel.A64RoundTrip(isCall, address, target);
      Piece(Block.Ok, [EmitRel.A64Word(isCall, disp)], false)
  }

  // ---- relocation

  /** `a64_range_min` and `a64_range_max`. */
  predicate InReach(disp: int, form: Form) {
    match form
    case Test14 => -32768 <= disp <= 32764
    case Adr => -1048576 <= disp <= 1048575
    case Adrp => -1048576 <= disp <= 1048575
    case Jump26 => -134217728 <= disp <= 134217724
    case _ => -1048576 <= disp <= 1048572
  }

  /** The displacement in bytes, or in pages for ADRP. */
  function NewDisp(relocated: u64, target: u64, form: Form): int {
    if form.Adrp? then Distance(AlignDown(relocated, PAGE), AlignDown(target, PAGE)) / PAGE
    else Distance(relocated, target)
  }

  /** The word with its immediate replaced. */
  function Reencoded(word: nat, form: Form, disp: int): nat {
    match form
    case Test14 => Put(word, 5, 14, disp / 4 % 0x4000)
    case Adr => Put(Put(word, 29, 2, disp % 4), 5, 19, disp % 0x20_0000 / 4)
    case Adrp => Put(Put(word, 29, 2, disp % 4), 5, 19, disp % 0x20_0000 / 4)
    case _ => Put(word, 5, 19, disp / 4 % 0x8_0000)
  }

  function Flipped(bit: nat): nat {
    if bit == 0 then 1 else 0
  }

  /** `cond ^ 1`. */
  function Opposite(cond: nat): nat {
    if cond % 2 == 0 then cond + 1 else cond - 1
  }

  /** `a64_invert_conditional_to_skip`: the opposite condition, over five words. */
  function SkipWord(word: nat, form: Form): nat {
    match form
    case Cond19 =>
      var cond := Get(word, 0, 4);
      Put(Put(word, 5, 19, 5), 0, 4, Opposite(cond))
    case Test14 => Put(Put(word, 5, 14, 5), 24, 1, Flipped(Get(word, 24, 1)))
    case _ => Put(Put(word, 5, 19, 5), 24, 1, Flipped(Get(word, 24, 1)))
  }

  lemma NewWords(word: u32, form: Form, disp: int)
    ensures Reencoded(word, form, disp) < U32 && SkipWord(word, form) < U32
  {
    hide Put, Get, Opposite, Flipped;
    PutIsWord(word, 5, 14, disp / 4 % 0x4000);
    PutIsWord(word, 29, 2, disp % 4);
    PutIsWord(Put(word, 29, 2, disp % 4), 5, 19, disp % 0x20_0000 / 4);
    PutIsWord(word, 5, 19, disp / 4 % 0x8_0000);
    PutIsWord(word, 5, 19, 5);
    PutIsWord(word, 5, 14, 5);
    PutIsWord(Put(word, 5, 19, 5), 0, 4, Opposite(Get(word, 0, 4)));
    PutIsWord(Put(word, 5, 14, 5), 24, 1, Flipped(Get(word, 24, 1)));
    PutIsWord(Put(word, 5, 19, 5), 24, 1, Flipped(Get(word, 24, 1)));
  }

  /** `a64_relocate`.  `other` is the operand target of a word that the decoder calls PC-relative but
      whose form the relocator does not know. */
  function RelocateWord(word: u32, address: u64, relocated: u64, capacity: nat, other: Option<u64>): Piece {
    var form := FormOf(word);
    if form.None? then
      if other.Some? && !InReach(Distance(relocated, other.value), Jump26) then Failed(Block.BranchOutOfRange)
      else if capacity < 4 then Failed(Block.OutputTooSmall)
      else if other.Some? then Failed(Block.UnsupportedRelocation)
      else Piece(Block.Ok, [word], false)
    else
      var target := Reaches(word, address, form.value);
      var disp := NewDisp(relocated, target, form.value);
      NewWords(word, form.value, disp);
      if form.value.Jump26? then
        var isCall := Get(word, 31, 1) == 1;
        var direct := EmitDirect(isCall, relocated, target, capacity);
        if direct.status == Block.Ok || direct.status == Block.OutputTooSmall then direct
        else EmitAbs(isCall, target, capacity)
      else if !InReach(disp, form.value) then
        if !IsCond(form.value) then Failed(Block.BranchOutOfRange)
        else if capacity < 20 then Failed(Block.OutputTooSmall)
        else Piece(Block.Ok, [SkipWord(word, form.value)] + AbsoluteWords(false, target), true)
      else if capacity < 4 then Failed(Block.OutputTooSmall)
      else Piece(Block.Ok, [Reencoded(word, form.value, disp)], false)
  }

  // ---- the re-encoded word

  lemma FieldSizes()
    ensures Pow2(13) == 0x2000 && Pow2(14) == 0x4000 && Pow2(18) == 0x4_0000 && Pow2(19) == 0x8_0000
    ensures Pow2(20) == 0x10_0000 && Pow2(21) == 0x20_0000 && Pow2(1) == 2 && Pow2(2) == 4 && Pow2(4) == 16
  {
    assert Pow2(9) == 0x200 && Pow2(10) == 0x400 && Pow2(11) == 0x800;
    Pow2Add(9, 9);
    Pow2Add(9, 10);
    Pow2Add(10, 10);
    Pow2Add(10, 11);
  }

  /** The fields that tell the forms apart, the condition and the sense bit. */
  predicate SameOpcode(a: nat, b: nat) {
    && Get(a, 26, 5) == Get(b, 26, 5) && Get(a, 24, 8) == Get(b, 24, 8) && Get(a, 4, 1) == Get(b, 4, 1)
    && Get(a, 25, 6) == Get(b, 25, 6) && Get(a, 24, 2) == Get(b, 24, 2) && Get(a, 27, 3) == Get(b, 27, 3)
    && Get(a, 24, 5) == Get(b, 24, 5) && Get(a, 31, 1) == Get(b, 31, 1) && Get(a, 0, 4) == Get(b, 0, 4)
    && Get(a, 24, 1) == Get(b, 24, 1)
  }

  /** Replacing bits between 5 and 23 keeps the opcode. */
  lemma OpcodeKept(word: nat, width: nat, value: nat)
    requires width <= 19
    ensures SameOpcode(Put(word, 5, width, value), word)
  {
    hide Put, Get;
    GetPut(word, 5, width, value, 26, 5);
    GetPut(word, 5, width, value, 24, 8);
    GetPut(word, 5, width, value, 4, 1);
    GetPut(word, 5, width, value, 25, 6);
    GetPut(word, 5, width, value, 24, 2);
    GetPut(word, 5, width, value, 27, 3);
    GetPut(word, 5, width, value, 24, 5);
    GetPut(word, 5, width, value, 31, 1);
    GetPut(word, 5, width, value, 0, 4);
    GetPut(word, 5, width, value, 24, 1);
  }

  /** The fields that an address form looks at besides its immediate. */
  lemma AdrOpcodeKept(word: nat, lo: nat)
    requires FormOf(word) == Some(Adr) || FormOf(word) == Some(Adrp)
    ensures FormOf(Put(word, 29, 2, lo)) == FormOf(word)
  {
    hide Put;
    GetPut(word, 29, 2, lo, 24, 5);
    GetPut(word, 29, 2, lo, 31, 1);
    AdrFields(word);
    AdrFields(Put(word, 29, 2, lo));
  }

  /** `10000` in bits 24 to 28 excludes all the other forms. */
  lemma AdrFields(word: nat)
    ensures Get(word, 24, 5) == 0x10 ==>
              && Get(word, 26, 5) != 5 && Get(word, 24, 8) != 0x54 && Get(word, 25, 6) != 0x1a && Get(word, 25, 6) != 0x1b
              && Get(word, 27, 3) != 3
  {
    assert Bit(0x10, 4) && !Bit(0x10, 3) && !Bit(0x10, 2);
    assert Bit(5, 0) && Bit(0x54, 2) && Bit(0x1a, 1) && Bit(0x1b, 1) && Bit(3, 0);
    hide Get, Bit;
    BitOfGet(word, 24, 5, 4);
    BitOfGet(word, 24, 5, 3);
    BitOfGet(word, 24, 5, 2);
    BitOfGet(word, 26, 5, 0);
    BitOfGet(word, 24, 8, 2);
    BitOfGet(word, 25, 6, 1);
    BitOfGet(word, 27, 3, 0);
  }

  /** A re-encoded word has the form and the other operands of the original, and the new immediate. */
  lemma ReencodedWord(word: nat, form: Form, disp: int)
    requires FormOf(word) == Some(form) && !form.Jump26?
    ensures var w := Reencoded(word, form, disp);
            && FormOf(w) == Some(form)
            && Rest(w, form) == Rest(word, form)
            && Get(w, 0, 4) == Get(word, 0, 4)
            && Get(w, 24, 1) == Get(word, 24, 1)
            && (form.Test14? ==> Get(w, 5, 14) == disp / 4 % 0x4000)
            && (form.Cond19? || form.Compare19? || form.Literal19? ==> Get(w, 5, 19) == disp / 4 % 0x8_0000)
            && (form.Adr? || form.Adrp? ==> AdrImm(w) == disp % 0x20_0000)
  {
    FieldSizes();
    hide Put, Get, Pow2;
    if form.Adr? || form.Adrp? {
      var lo, hi := disp % 4, disp % 0x20_0000 / 4;
      var low := Put(word, 29, 2, lo);
      AdrOpcodeKept(word, lo);
      OpcodeKept(low, 19, hi);
      GetPut(low, 5, 19, hi, 5, 19);
      GetPut(low, 5, 19, hi, 29, 2);
      GetPut(word, 29, 2, lo, 29, 2);
      GetPut(word, 29, 2, lo, 0, 4);
      GetPut(word, 29, 2, lo, 24, 1);
      PutPut(low, 5, 19, hi, 0);
      PutApart(word, 29, 2, lo, 5, 19, 0);
      PutPut(Put(word, 5, 19, 0), 29, 2, lo, 0);
      TwoBits(disp);
    } else {
      var width := if form.Test14? then 14 else 19;
      var value := if form.Test14? then disp / 4 % 0x4000 else disp / 4 % 0x8_0000;
      OpcodeKept(word, width, value);
      GetPut(word, 5, width, value, 5, width);
      PutPut(word, 5, width, value, 0);
    }
  }

  lemma TwoBits(disp: int)
    ensures disp % 4 + 4 * (disp % 0x20_0000 / 4) == disp % 0x20_0000
  {
  }

  lemma WrapAligned(x: int)
    requires x % 4 == 0
    ensures Wrap(x) % 4 == 0
  {
    var k := x / U64;
    assert x % U64 == 4 * (x / 4 - 0x4000_0000_0000_0000 * k);
  }

  lemma WrapPage(n: int)
    ensures AlignDown(Wrap(n * PAGE), PAGE) == Wrap(n * PAGE)
  {
    var k := n * PAGE / U64;
    assert n * PAGE % U64 == PAGE * (n - 0x10_0000_0000_0000 * k);
  }

  /** What the word refers to, at aligned addresses. */
  lemma TargetAligned(word: nat, address: u64, form: Form)
    requires address % 4 == 0
    ensures !form.Adr? && !form.Adrp? ==> Reaches(word, address, form) % 4 == 0
    ensures form.Adrp? ==> AlignDown(Reaches(word, address, form), PAGE) == Reaches(word, address, form)
  {
    var offset := Offset(word, form);
    hide Offset, Wrap;
    if form.Adrp? {
      assert AlignDown(address, PAGE) + offset * PAGE == (address / PAGE + offset) * PAGE;
      WrapPage(address / PAGE + offset);
    } else if !form.Adr? {
      WrapAligned(address + offset * 4);
    }
  }

  /** A word re-encoded within reach refers to the same place from its new address. */
  lemma SameTarget(word: nat, form: Form, address: u64, relocated: u64)
    requires FormOf(word) == Some(form) && !form.Jump26? && address % 4 == 0 && relocated % 4 == 0
    requires var disp := NewDisp(relocated, Reaches(word, address, form), form); InReach(disp, form)
    ensures var target := Reaches(word, address, form);
            Reaches(Reencoded(word, form, NewDisp(relocated, target, form)), relocated, form) == target
  {
    var target := Reaches(word, address, form);
    var disp := NewDisp(relocated, target, form);
    FieldSizes();
    hide Get, Put, Pow2, SignExtend, Reencoded, Wrap, Distance, AlignDown;
    ReencodedWord(word, form, disp);
    TargetAligned(word, address, form);
    if form.Adrp? {
      DistanceArrives(AlignDown(relocated, PAGE), target);
      PagesApart(relocated, target);
      SignExtendOfMod(disp, 21);
    } else {
      DistanceArrives(relocated, target);
      if form.Adr? {
        SignExtendOfMod(disp, 21);
      } else {
        AlignedApart(relocated, target);
        SignExtendOfMod(disp / 4, if form.Test14? then 14 else 19);
      }
    }
  }

  lemma SignedPages(n: int)
    ensures Signed(n * PAGE) % PAGE == 0
  {
    var k := n * PAGE / U64;
    assert n * PAGE % U64 == PAGE * (n - 0x10_0000_0000_0000 * k);
  }

  lemma PagesApart(a: u64, b: u64)
    requires AlignDown(b, PAGE) == b
    ensures Distance(AlignDown(a, PAGE), AlignDown(b, PAGE)) % PAGE == 0
  {
    assert AlignDown(a, PAGE) == a / PAGE * PAGE && b == b / PAGE * PAGE;
    SignedPages(b / PAGE - a / PAGE);
    assert b - AlignDown(a, PAGE) == (b / PAGE - a / PAGE) * PAGE;
  }

  lemma AlignedApart(a: u64, b: u64)
    requires a % 4 == 0 && b % 4 == 0
    ensures Distance(a, b) % 4 == 0
  {
  }

  // ---- one word

  /** What a single word does where it stands. */
  function Alone(word: u32, base: u64, env: Env): Exit {
    var form := FormOf(word);
    if form.None? then Falls([Does(word)])
    else
      var target := Reaches(word, base, form.value);
      if form.value.Jump26? then Leaves(target, if Get(word, 31, 1) == 1 then Some(1) else None, [])
      else if IsCond(form.value) then
        if Holds(env, word, form.value) then Leaves(target, None, []) else Falls([])
      else Falls([Refers(Rest(word, form.value), target)])
  }

  lemma RunEnds(words: seq<u32>, base: u64, env: Env, x16: Option<u64>, effects: seq<Effect>)
    ensures Run(words, base, env, |words|, x16, effects) == Falls(effects)
  {
  }

  lemma FirstAddress(base: u64)
    ensures Wrap(base + 4 * 0) == base
  {
  }

  lemma AloneRuns(word: u32, base: u64, env: Env)
    ensures Execute([word], base, env) == Alone(word, base, env)
  {
    hide FormOf, Rest, Reaches, Holds, Get, LdrX16, Wrap;
    FirstAddress(base);
    RunEnds([word], base, env, None, []);
    RunEnds([word], base, env, None, [] + [Does(word)]);
    assert [] + [Does(word)] == [Does(word)];
    if FormOf(word).Some? {
      var effect := Refers(Rest(word, FormOf(word).value), Reaches(word, base, FormOf(word).value));
      RunEnds([word], base, env, None, [] + [effect]);
      assert [] + [effect] == [effect];
    }
  }

  // ---- the absolute branch

  /** Fields of a word made of a high byte and 24 low bits. */
  lemma SplitWord(high: nat, low: nat, at: nat, n: nat)
    requires low < 0x100_0000
    ensures at + n <= 24 ==> Get(high * 0x100_0000 + low, at, n) == Get(low, at, n)
    ensures at >= 24 ==> Get(high * 0x100_0000 + low, at, n) == Get(high, at - 24, n)
  {
    EmitRel.BranchPowers();
    hide Bit, Get, Pow2;
    var w := high * 0x100_0000 + low;
    ShlIsTimes(high, 24);
    Joined(low, high, 24);
    if at + n <= 24 {
      forall i: nat ensures Bit(Get(w, at, n), i) == Bit(Get(low, at, n), i) {
        BitOfGet(w, at, n, i);
        BitOfGet(low, at, n, i);
        BitLow(w, 24, i + at);
      }
      SameBits(Get(w, at, n), Get(low, at, n));
    }
    if at >= 24 {
      forall i: nat ensures Bit(Get(w, at, n), i) == Bit(Get(high, at - 24, n), i) {
        BitOfGet(w, at, n, i);
        BitOfGet(high, at - 24, n, i);
        BitShr(w, 24, i + at - 24);
      }
      SameBits(Get(w, at, n), Get(high, at - 24, n));
    }
  }

  lemma SmallFields()
    ensures Get(0x58, 2, 5) == 22 && Get(0x58, 0, 8) == 0x58 && Get(0x58, 1, 6) == 0x2c && Get(0x58, 0, 2) == 0 && Get(0x58, 3, 3) == 3
    ensures Get(0x50, 5, 19) == 2
  {
    assert Shr(0x58, 2) == 22 && Shr(0x58, 1) == 44 && Shr(0x58, 3) == 11 && Shr(0x58, 0) == 0x58 && Shr(0x50, 5) == 2;
    assert Pow2(5) == 32 && Pow2(8) == 256 && Pow2(6) == 64 && Pow2(2) == 4 && Pow2(3) == 8;
    hide Shr, And, Pow2;
    TwoFits();
    AndLow(22, 5);
    AndLow(0x58, 8);
    AndLow(44, 6);
    AndLow(0x58, 2);
    AndLow(11, 3);
    AndLow(2, 19);
    assert Low(0x58, 2) == 0 && Low(11, 3) == 3;
    LowSmall(22, 5);
    LowSmall(0x58, 8);
    LowSmall(44, 6);
    LowSmall(2, 19);
  }

  lemma TwoFits()
    ensures 2 < Pow2(19)
  {
    FieldSizes();
  }

  lemma AndLow(v: nat, n: nat)
    ensures And(v, Ones(n)) == Low(v, n)
  {
    AndOnes(v, n);
  }

  lemma LoadFields(word: nat, high: nat, low: nat)
    requires word == high * 0x100_0000 + low && high == 0x58 && low == 0x50
    ensures Get(word, 26, 5) == 22 && Get(word, 24, 8) == 0x58 && Get(word, 25, 6) == 0x2c
    ensures Get(word, 24, 2) == 0 && Get(word, 27, 3) == 3 && Get(word, 5, 19) == 2
  {
    SmallFields();
    hide Get;
    SplitWord(high, low, 26, 5);
    SplitWord(high, low, 24, 8);
    SplitWord(high, low, 25, 6);
    SplitWord(high, low, 24, 2);
    SplitWord(high, low, 27, 3);
    SplitWord(high, low, 5, 19);
  }

  /** `LDR X16, #8` loads from eight bytes on. */
  lemma LoadWord(word: nat, here: u64)
    requires word == LDR_X16_NEXT
    ensures FormOf(word) == Some(Literal19)
    ensures Rest(word, Literal19) == LdrX16()
    ensures Reaches(word, here, Literal19) == Wrap(here + 8)
  {
    FieldSizes();
    hide Get, Put, Pow2, SignExtend;
    LoadFields(word, 0x58, 0x50);
    SignExtendValue(2, 19);
  }

  lemma BranchByte()
    ensures Get(0xd6, 2, 5) == 21 && Get(0xd6, 0, 8) == 0xd6 && Get(0xd6, 1, 6) == 43 && Get(0xd6, 0, 2) == 2 && Get(0xd6, 0, 5) == 22
  {
    assert Shr(0xd6, 2) == 53 && Shr(0xd6, 1) == 107 && Shr(0xd6, 0) == 0xd6;
    assert Low(53, 5) == 21 && Low(0xd6, 8) == 0xd6 && Low(107, 6) == 43 && Low(0xd6, 2) == 2 && Low(0xd6, 5) == 22;
    hide Shr, And, Low;
    AndLow(53, 5);
    AndLow(0xd6, 8);
    AndLow(107, 6);
    AndLow(0xd6, 2);
    AndLow(0xd6, 5);
  }

  lemma BranchFields(word: nat, high: nat, low: nat)
    requires word == high * 0x100_0000 + low && high == 0xd6 && low < 0x100_0000
    ensures Get(word, 26, 5) == 21 && Get(word, 24, 8) == 0xd6 && Get(word, 25, 6) == 43
    ensures Get(word, 24, 2) == 2 && Get(word, 24, 5) == 22
  {
    BranchByte();
    hide Get;
    SplitWord(high, low, 26, 5);
    SplitWord(high, low, 24, 8);
    SplitWord(high, low, 25, 6);
    SplitWord(high, low, 24, 2);
    SplitWord(high, low, 24, 5);
  }

  /** `BR X16` and `BLR X16` are not PC-relative. */
  lemma BranchWord(word: nat)
    requires word == BR_X16 || word == BLR_X16
    ensures FormOf(word).None?
  {
    hide Get;
    BranchFields(word, 0xd6, if word == BR_X16 then 0x1f_0200 else 0x3f_0200);
  }

  lemma InsideAt(base: u64, offset: nat, n: nat)
    requires offset <= n <= 8
    ensures Inside(Wrap(base + 4 * offset), base, n) == Some(offset)
  {
  }

  lemma Loaded(target: u64)
    ensures target % U32 < U32 && target / U32 < U32 && Literal(target % U32, target / U32) == target
  {
  }

  /** The absolute branch, at the end of a run of code, leaves for its target; a call returns to the
      word behind its branch, which is the first half of the literal. */
  lemma AbsoluteRuns(words: seq<u32>, base: u64, env: Env, at: nat, isCall: bool, target: u64)
    requires at + 4 == |words| <= 5 && words[at..] == AbsoluteWords(isCall, target)
    ensures Run(words, base, env, at, None, []) == Leaves(target, if isCall then Some(at + 2) else None, [])
  {
    hide FormOf, Rest, Reaches, Get, Put, Wrap, Inside, LdrX16;
    var here := Wrap(base + 4 * at);
    assert words[at] == words[at..][0] && words[at + 1] == words[at..][1];
    assert words[at + 2] == words[at..][2] && words[at + 3] == words[at..][3];
    LoadWord(words[at], here);
    BranchWord(words[at + 1]);
    WrapTwice(base, 4 * at, 8);
    InsideAt(base, at + 2, |words|);
    Loaded(target);
    assert 8 + 4 * at == 4 * (at + 2);
  }

  // ---- the expanded conditional branch

  lemma OppositeHolds(flag: nat -> bool, cond: nat)
    requires cond < 16
    ensures Opposite(cond) < 16 && (Opposite(cond) >= 14 <==> cond >= 14)
    ensures cond < 14 ==> (flag(Opposite(cond) / 2) != (Opposite(cond) % 2 == 1)) == !(flag(cond / 2) != (cond % 2 == 1))
  {
  }

  /** The forms of compare and test words do not depend on their sense bit. */
  lemma SenseAside(word: nat, sense: nat)
    requires FormOf(word) == Some(Compare19) || FormOf(word) == Some(Test14)
    ensures FormOf(Put(word, 24, 1, sense)) == FormOf(word)
  {
    hide Put;
    GetPut(word, 24, 1, sense, 26, 5);
    GetPut(word, 24, 1, sense, 25, 6);
    NotCond(word);
    NotCond(Put(word, 24, 1, sense));
  }

  lemma NotCond(word: nat)
    ensures Get(word, 25, 6) == 0x1a || Get(word, 25, 6) == 0x1b ==> Get(word, 24, 8) != 0x54
  {
    assert !Bit(0x1a, 5) && !Bit(0x1b, 5) && Bit(0x54, 6);
    hide Get, Bit;
    BitOfGet(word, 25, 6, 5);
    BitOfGet(word, 24, 8, 6);
  }

  /** The skip word has the same form, jumps 20 bytes on, and tests the opposite, except that the
      opposite of "always" is "always". */
  lemma SkipMeaning(word: nat, form: Form, env: Env)
    requires FormOf(word) == Some(form) && IsCond(form)
    ensures var w := SkipWord(word, form);
            && FormOf(w) == Some(form)
            && Offset(w, form) == 5
            && (Holds(env, w, form) <==> if form.Cond19? && Get(word, 0, 4) >= 14 then true else !Holds(env, word, form))
  {
    FieldSizes();
    var width := if form.Test14? then 14 else 19;
    var moved := Put(word, 5, width, 5);
    GetBelow(word, 0, 4);
    GetBelow(word, 24, 1);
    hide Put, Get, Pow2, SignExtend, Opposite;
    OpcodeKept(word, width, 5);
    GetPut(word, 5, width, 5, 5, width);
    SignExtendValue(5, width);
    if form.Cond19? {
      var cond := Get(word, 0, 4);
      OppositeHolds(env.flag, cond);
      var w := Put(moved, 0, 4, Opposite(cond));
      GetPut(moved, 0, 4, Opposite(cond), 0, 4);
      GetPut(moved, 0, 4, Opposite(cond), 5, 19);
      GetPut(moved, 0, 4, Opposite(cond), 26, 5);
      GetPut(moved, 0, 4, Opposite(cond), 24, 8);
      GetPut(moved, 0, 4, Opposite(cond), 4, 1);
    } else {
      var sense := Flipped(Get(word, 24, 1));
      SenseAside(moved, sense);
      GetPut(moved, 24, 1, sense, 5, width);
      GetPut(moved, 24, 1, sense, 24, 1);
      PutApart(moved, 24, 1, sense, 5, width, 0);
      PutPut(word, 5, width, 5, 0);
      PutPut(Put(word, 5, width, 0), 24, 1, sense, 0);
    }
  }

  /** A conditional branch at the start of a run, over all of it. */
  lemma SkipRuns(words: seq<u32>, form: Form, base: u64, env: Env)
    requires 1 < |words| <= 8 && FormOf(words[0]) == Some(form) && IsCond(form)
    requires Reaches(words[0], base, form) == Wrap(base + 4 * |words|)
    ensures Execute(words, base, env)
         == if Holds(env, words[0], form) then Falls([]) else Run(words, base, env, 1, None, [])
  {
    hide FormOf, Rest, Reaches, Holds, Get, LdrX16, Wrap, Inside;
    FirstAddress(base);
    InsideAt(base, |words|, |words|);
    RunEnds(words, base, env, None, []);
  }

  lemma ExpandedRuns(word: u32, form: Form, base: u64, env: Env, target: u64)
    requires FormOf(word) == Some(form) && IsCond(form) && SkipWord(word, form) < U32
    ensures Execute([SkipWord(word, form)] + AbsoluteWords(false, target), base, env)
         == if Holds(env, SkipWord(word, form), form) then Falls([]) else Leaves(target, None, [])
  {
    var skip := SkipWord(word, form);
    var words := [skip] + AbsoluteWords(false, target);
    SkipMeaning(word, form, env);
    FourWords(false, target);
    hide FormOf, Rest, Holds, Get, Put, SkipWord, AbsoluteWords, Offset, Inside, LdrX16, Run, Wrap, Execute;
    assert words[0] == skip;
    assert words[1..] == AbsoluteWords(false, target);
    SkipRuns(words, form, base, env);
    AbsoluteRuns(words, base, env, 1, false, target);
  }

  lemma FourWords(isCall: bool, target: u64)
    ensures |AbsoluteWords(isCall, target)| == 4
  {
  }

  // ---- relocation preserves meaning

  /** The relocations that do not keep the meaning: a call out of direct range, and a conditional
      branch out of reach whose condition is "always". */
  predicate Faithful(word: nat, address: u64, relocated: u64) {
    var form := FormOf(word);
    form.Some? ==>
      var target := Reaches(word, address, form.value);
      && (form.value.Jump26? && Get(word, 31, 1) == 1 ==> EmitRel.FitsWords4(Distance(relocated, target), 0x800_0000))
      && (form.value.Cond19? && !InReach(NewDisp(relocated, target, form.value), form.value) ==> Get(word, 0, 4) < 14)
  }

  lemma JumpLiterals(high: nat)
    requires high == 5 || high == 37
    ensures Low(high, 5) == 5 && Shr(high, 5) == (if high == 37 then 1 else 0) && Low(Shr(high, 5), 1) == Shr(high, 5)
  {
    assert Shl(1, 5) == 32 && Pow2(5) == 32 && Pow2(1) == 2;
    hide Low, Shr, Shl, Pow2;
    LowSmall(5, 5);
    JoinedParts(5, 1, 5);
    LowSmall(0, 1);
    LowSmall(1, 1);
  }

  lemma DirectFields(w: nat, high: nat, field: nat)
    requires Shr(w, 26) == high && And(w, Ones(26)) == field && (high == 5 || high == 37)
    ensures Get(w, 26, 5) == 5 && Get(w, 0, 26) == field && (Get(w, 31, 1) == 1 <==> high == 37)
  {
    JumpLiterals(high);
    ShrNone(w);
    hide And, Shr, Low, Pow2, Ones;
    AndLow(high, 5);
    ShrShr(w, 26, 5);
    AndLow(Shr(high, 5), 1);
  }

  lemma DirectWordIs(isCall: bool, address: u64, target: u64)
    requires EmitRel.FitsWords4(Distance(address, target), 0x800_0000)
    ensures var w := EmitRel.A64Word(isCall, Distance(address, target));
            && w < U32 && FormOf(w) == Some(Jump26) && Reaches(w, address, Jump26) == target
            && (Get(w, 31, 1) == 1 <==> isCall)
  {
    hide SignExtend, Distance, Wrap, EmitRel.A64Word, Get;
    DirectIsWord(isCall, address, target);
    DirectOpcode(isCall, Distance(address, target));
    DistanceArrives(address, target);
  }

  lemma DirectIsWord(isCall: bool, address: u64, target: u64)
    requires EmitRel.FitsWords4(Distance(address, target), 0x800_0000)
    ensures EmitRel.A64Word(isCall, Distance(address, target)) < U32
  {
    hide EmitRel.A64Word, EmitRel.DecodeA64;
    EmitRel.A64RoundTrip(isCall, address, target);
  }

  lemma DirectOpcode(isCall: bool, disp: i64)
    requires EmitRel.FitsWords4(disp, 0x800_0000)
    ensures var w := EmitRel.A64Word(isCall, disp);
            Get(w, 26, 5) == 5 && (Get(w, 31, 1) == 1 <==> isCall) && SignExtend(Get(w, 0, 26), 26) * 4 == disp
  {
    EmitRel.BranchPowers();
    var high, field := if isCall then 37 else 5, EmitRel.OffsetBits(disp / 4, 26);
    hide And, Or, Shr, Low, Pow2, SignExtend, EmitRel.OffsetBits, Get;
    EmitRel.OffsetBack(disp / 4, 26);
    EmitRel.HighAndField(high, field, 26);
    DirectFields(EmitRel.A64Word(isCall, disp), high, field);
  }

  lemma ShrNone(v: nat)
    ensures Shr(v, 0) == v
  {
  }

  /** Relocated code means what the instruction meant, in every processor state, exactly for the
      faithful relocations. */
  lemma RelocationMeaning(word: u32, address: u64, relocated: u64, capacity: nat, other: Option<u64>, env: Env)
    requires address % 4 == 0 && relocated % 4 == 0
    requires RelocateWord(word, address, relocated, capacity, other).status == Block.Ok
    ensures var piece := RelocateWord(word, address, relocated, capacity, other);
            SameExit(Execute([word], address, env), 1, Execute(piece.words, relocated, env), |piece.words|)
            <==> Faithful(word, address, relocated)
  {
    AloneRuns(word, address, env);
    var form := FormOf(word);
    if form.None? {
      AloneRuns(word, relocated, env);
    } else if form.value.Jump26? {
      JumpMeaning(word, address, relocated, capacity, other, env);
    } else {
      OtherMeaning(word, address, relocated, capacity, other, env, form.value);
    }
  }

  lemma JumpMeaning(word: u32, address: u64, relocated: u64, capacity: nat, other: Option<u64>, env: Env)
    requires FormOf(word) == Some(Jump26) && RelocateWord(word, address, relocated, capacity, other).status == Block.Ok
    ensures var piece := RelocateWord(word, address, relocated, capacity, other);
            SameExit(Alone(word, address, env), 1, Execute(piece.words, relocated, env), |piece.words|)
            <==> Faithful(word, address, relocated)
  {
    var target, isCall := Reaches(word, address, Jump26), Get(word, 31, 1) == 1;
    hide Reaches, Get, Wrap, EmitRel.A64Word, Distance, Execute, Alone, AbsoluteWords, NewDisp, InReach, Reencoded, SkipWord,
         IsCond, SameExit;
    if EmitRel.FitsWords4(Distance(relocated, target), 0x800_0000) {
      DirectMeaning(word, address, relocated, target, isCall, env);
    } else {
      FourWords(isCall, target);
      AbsoluteMeaning(word, address, relocated, target, isCall, env);
    }
  }

  lemma DirectMeaning(word: u32, address: u64, relocated: u64, target: u64, isCall: bool, env: Env)
    requires FormOf(word) == Some(Jump26) && target == Reaches(word, address, Jump26) && (isCall <==> Get(word, 31, 1) == 1)
    requires EmitRel.FitsWords4(Distance(relocated, target), 0x800_0000)
    ensures EmitRel.A64Word(isCall, Distance(relocated, target)) < U32
    ensures SameExit(Alone(word, address, env), 1,
                     Execute([EmitRel.A64Word(isCall, Distance(relocated, target))], relocated, env), 1)
  {
    hide Reaches, Get, Wrap, EmitRel.A64Word, Distance, Execute, Holds, IsCond, FormOf;
    DirectWordIs(isCall, relocated, target);
    AloneRuns(EmitRel.A64Word(isCall, Distance(relocated, target)), relocated, env);
  }

  lemma AbsoluteMeaning(word: u32, address: u64, relocated: u64, target: u64, isCall: bool, env: Env)
    requires FormOf(word) == Some(Jump26) && target == Reaches(word, address, Jump26) && (isCall <==> Get(word, 31, 1) == 1)
    ensures SameExit(Alone(word, address, env), 1, Execute(AbsoluteWords(isCall, target), relocated, env), 4) <==> !isCall
  {
    FourWords(isCall, target);
    hide Reaches, Get, Wrap, Run, Holds, IsCond, FormOf, AbsoluteWords;
    var words := AbsoluteWords(isCall, target);
    assert words[0..] == words;
    AbsoluteRuns(words, relocated, env, 0, isCall, target);
  }

  lemma OtherMeaning(word: u32, address: u64, relocated: u64, capacity: nat, other: Option<u64>, env: Env, form: Form)
    requires address % 4 == 0 && relocated % 4 == 0
    requires FormOf(word) == Some(form) && !form.Jump26?
    requires RelocateWord(word, address, relocated, capacity, other).status == Block.Ok
    ensures var piece := RelocateWord(word, address, relocated, capacity, other);
            SameExit(Alone(word, address, env), 1, Execute(piece.words, relocated, env), |piece.words|)
            <==> Faithful(word, address, relocated)
  {
    var target := Reaches(word, address, form);
    var disp := NewDisp(relocated, target, form);
    NewWords(word, form, disp);
    FourWords(false, target);
    hide Reaches, Get, Wrap, Distance, Execute, Alone, AbsoluteWords, NewDisp, InReach, Reencoded, SkipWord, SameExit, FormOf;
    if InReach(disp, form) {
      ReencodedMeaning(word, address, relocated, form, env);
    } else {
      ExpandedMeaning(word, address, relocated, form, env);
    }
  }

  lemma ReencodedMeaning(word: u32, address: u64, relocated: u64, form: Form, env: Env)
    requires address % 4 == 0 && relocated % 4 == 0 && FormOf(word) == Some(form) && !form.Jump26?
    requires InReach(NewDisp(relocated, Reaches(word, address, form), form), form)
    ensures var w := Reencoded(word, form, NewDisp(relocated, Reaches(word, address, form), form));
            w < U32 && SameExit(Alone(word, address, env), 1, Execute([w], relocated, env), 1)
  {
    var disp := NewDisp(relocated, Reaches(word, address, form), form);
    hide FormOf, Reaches, Get, Wrap, Rest, Reencoded, NewDisp, Execute, InReach;
    NewWords(word, form, disp);
    SameTarget(word, form, address, relocated);
    ReencodedWord(word, form, disp);
    AloneRuns(Reencoded(word, form, disp), relocated, env);
  }

  lemma ExpandedMeaning(word: u32, address: u64, relocated: u64, form: Form, env: Env)
    requires FormOf(word) == Some(form) && IsCond(form)
    ensures SkipWord(word, form) < U32 && |AbsoluteWords(false, Reaches(word, address, form))| == 4
    ensures SameExit(Alone(word, address, env), 1,
                     Execute([SkipWord(word, form)] + AbsoluteWords(false, Reaches(word, address, form)), relocated, env), 5)
            <==> !(form.Cond19? && Get(word, 0, 4) >= 14)
  {
    var target := Reaches(word, address, form);
    FourWords(false, target);
    hide FormOf, Reaches, Get, Wrap, Rest, SkipWord, Holds, Execute, AbsoluteWords, Offset;
    NewWords(word, form, 0);
    SkipMeaning(word, form, env);
    ExpandedRuns(word, form, relocated, env, target);
    ConditionCode(word, form, env);
  }

  lemma ConditionCode(word: nat, form: Form, env: Env)
    ensures form.Cond19? && Get(word, 0, 4) >= 14 ==> Holds(env, word, form)
  {
  }

  // ---- the two relocations that lose the meaning

  /** `BL` to its own address, moved `2^30` bytes, no longer returns behind itself. */
  lemma FarCallCounterexample(address: u64, relocated: u64, env: Env)
    requires address == 0 && relocated == 0x4000_0000
    ensures EmitRel.FitsWords4(Distance(address, address), 0x800_0000)
    ensures var word := EmitRel.A64Word(true, Distance(address, address));
            word < U32
            && var piece := RelocateWord(word, address, relocated, 16, None);
               && piece.status == Block.Ok
               && !SameExit(Execute([word], address, env), 1, Execute(piece.words, relocated, env), |piece.words|)
  {
    assert Distance(address, address) == 0 && Distance(relocated, address) == -0x4000_0000;
    DirectWordIs(true, address, address);
    FourWords(true, address);
    hide FormOf, Reaches, Get, Wrap, EmitRel.A64Word, Execute, SameExit, AbsoluteWords, Distance, NewDisp, Reencoded, SkipWord, InReach;
    RelocationMeaning(EmitRel.A64Word(true, Distance(address, address)), address, relocated, 16, None, env);
  }

  lemma AlwaysBytes()
    ensures Get(0x54, 2, 5) == 21 && Get(0x54, 0, 8) == 0x54
    ensures Get(0x0e, 4, 1) == 0 && Get(0x0e, 0, 4) == 14 && Get(0x0e, 5, 19) == 0
  {
    assert Shr(0x54, 2) == 21 && Shr(0x54, 0) == 0x54 && Shr(0x0e, 4) == 0 && Shr(0x0e, 0) == 0x0e && Shr(0x0e, 5) == 0;
    assert Low(21, 5) == 21 && Low(0x54, 8) == 0x54 && Low(0x0e, 4) == 14;
    hide Shr, And, Low;
    AndLow(21, 5);
    AndLow(0x54, 8);
    AndLow(0x0e, 4);
    NoBits(1);
    NoBits(19);
  }

  lemma NoBits(n: nat)
    ensures And(0, Ones(n)) == 0
  {
  }

  /** `B.AL` to its own address. */
  lemma AlwaysWord(word: nat, high: nat, low: nat, address: u64)
    requires word == high * 0x100_0000 + low && high == 0x54 && low == 0x0e
    ensures FormOf(word) == Some(Cond19) && Get(word, 0, 4) == 14 && Reaches(word, address, Cond19) == address
  {
    AlwaysBytes();
    FieldSizes();
    hide Get, SignExtend, Pow2;
    SplitWord(high, low, 26, 5);
    SplitWord(high, low, 24, 8);
    SplitWord(high, low, 4, 1);
    SplitWord(high, low, 0, 4);
    SplitWord(high, low, 5, 19);
    SignExtendValue(0, 19);
  }

  /** `B.AL` to its own address, moved `2^30` bytes, falls through. */
  lemma FarAlwaysCounterexample(word: u32, high: nat, low: nat, address: u64, relocated: u64, env: Env)
    requires word == high * 0x100_0000 + low && high == 0x54 && low == 0x0e && address == 0 && relocated == 0x4000_0000
    ensures var piece := RelocateWord(word, address, relocated, 20, None);
            && piece.status == Block.Ok
            && !SameExit(Execute([word], address, env), 1, Execute(piece.words, relocated, env), |piece.words|)
  {
    assert NewDisp(relocated, address, Cond19) == -0x4000_0000;
    hide FormOf, Reaches, Get, Wrap, Execute, SameExit, AbsoluteWords, Distance, NewDisp, Reencoded, SkipWord;
    AlwaysWord(word, high, low, address);
    NewWords(word, Cond19, NewDisp(relocated, address, Cond19));
    FourWords(false, address);
    RelocationMeaning(word, address, relocated, 20, None, env);
  }
}
