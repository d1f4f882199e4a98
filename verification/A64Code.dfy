/** What short runs of AArch64 code do, as far as control flow and PC-relative operands go
    (ARM DDI 0487, sections C4.1 and C6.2): enough to compare an instruction with its relocation. */
module A64Code {
  import opened Bits
  import opened Wrappers
  import opened PcRelative
  import opened PackedFields
  import opened Immediates

  /** The PC-relative forms, by where the immediate sits in the word. */
  datatype Form = Jump26 | Cond19 | Compare19 | Test14 | Literal19 | Adr | Adrp

  /** `a64_word_is_*`, each mask test as the fields that it looks at. */
  function FormOf(word: nat): Option<Form> {
    if Get(word, 26, 5) == 5 then Some(Jump26)
    else if Get(word, 24, 8) == 0x54 && Get(word, 4, 1) == 0 then Some(Cond19)
    else if Get(word, 25, 6) == 0x1a then Some(Compare19)
    else if Get(word, 25, 6) == 0x1b then Some(Test14)
    else if Get(word, 24, 2) == 0 && Get(word, 27, 3) == 3 then Some(Literal19)
    else if Get(word, 24, 5) == 0x10 then Some(if Get(word, 31, 1) == 0 then Adr else Adrp)
    else None
  }

  const PAGE: nat := 0x1000

  /** The immediate, in units of the form. */
  function Offset(word: nat, form: Form): int {
    match form
    case Jump26 => SignExtend(Get(word, 0, 26), 26)
    case Cond19 => SignExtend(Get(word, 5, 19), 19)
    case Compare19 => SignExtend(Get(word, 5, 19), 19)
    case Test14 => SignExtend(Get(word, 5, 14), 14)
    case Literal19 => SignExtend(Get(word, 5, 19), 19)
    case Adr => SignExtend(AdrImm(word), 21)
    case Adrp => SignExtend(AdrImm(word), 21)
  }

  function AdrImm(word: nat): nat {
    Get(word, 29, 2) + 4 * Get(word, 5, 19)
  }

  /** The address that the word refers to from `address`; for ADRP, the page. */
  function Reaches(word: nat, address: u64, form: Form): u64 {
    match form
    case Adr => Wrap(address + Offset(word, form))
    case Adrp => Wrap(AlignDown(address, PAGE) + Offset(word, form) * PAGE)
    case _ => Wrap(address + Offset(word, form) * 4)
  }

  /** The word without its immediate. */
  function Rest(word: nat, form: Form): nat {
    match form
    case Jump26 => Put(word, 0, 26, 0)
    case Test14 => Put(word, 5, 14, 0)
    case Adr => Put(Put(word, 5, 19, 0), 29, 2, 0)
    case Adrp => Put(Put(word, 5, 19, 0), 29, 2, 0)
    case _ => Put(word, 5, 19, 0)
  }

  // ---- conditions

  /** What the processor state says: the base conditions of the flags, and for a compare or test
      instruction (named by its word without immediate and without sense bit) whether the register or
      bit is zero. */
  datatype Env = Env(flag: nat -> bool, zero: nat -> bool)

  /** The condition of a conditional branch word.  Condition codes 14 and 15 both mean "always". */
  function Holds(env: Env, word: nat, form: Form): bool {
    if form.Cond19? then
      var cond := Get(word, 0, 4);
      if cond >= 14 then true else env.flag(cond / 2) != (cond % 2 == 1)
    else env.zero(Put(Rest(word, form), 24, 1, 0)) != (Get(word, 24, 1) == 1)
  }

  predicate IsCond(form: Form) {
    form.Cond19? || form.Compare19? || form.Test14?
  }

  // ---- running code

  /** What an instruction leaves behind besides control flow. */
  datatype Effect = Refers(rest: nat, target: u64) | Does(word: nat)

  /** How a run of code ends: past its last word, or at an address outside, with the word offset that
      a called routine will return to. */
  datatype Exit = Falls(effects: seq<Effect>) | Leaves(target: u64, link: Option<nat>, effects: seq<Effect>)

  /** `LDR X16, #8`. */
  const LDR_X16_NEXT: nat := 0x5800_0050
  const BR_X16: nat := 0xd61f_0200
  const BLR_X16: nat := 0xd63f_0200

  /** `LDR X16, literal` without its immediate. */
  function LdrX16(): nat {
    Put(LDR_X16_NEXT, 5, 19, 0)
  }

  /** The word offset in the code that an address is at, if it is inside the code or at its end. */
  function Inside(target: u64, base: u64, n: nat): Option<nat> {
    var bytes := (target - base) % U64;
    if bytes % 4 == 0 && bytes / 4 <= n then Some(bytes / 4) else None
  }

  /** Runs `words`, placed at `base`, from word `at` on; `x16` is the address that X16 holds if the
      code itself loaded one. */
  function Run(words: seq<u32>, base: u64, env: Env, at: nat, x16: Option<u64>, effects: seq<Effect>): Exit
    requires at <= |words|
    decreases |words| - at
  {
    if at == |words| then Falls(effects)
    else
      var word, here := words[at], Wrap(base + 4 * at);
      var form := FormOf(word);
      if form.Some? then
        var target := Reaches(word, here, form.value);
        var inside := Inside(target, base, |words|);
        if form.value.Jump26? then Leaves(target, if Get(word, 31, 1) == 1 then Some(at + 1) else None, effects)
        else if IsCond(form.value) then
          if !Holds(env, word, form.value) then Run(words, base, env, at + 1, x16, effects)
          else if inside.Some? && inside.value > at + 1 then Run(words, base, env, inside.value, x16, effects)
          else Leaves(target, None, effects)
        else if Rest(word, form.value) == LdrX16() && inside.Some? && at < inside.value && inside.value + 2 <= |words| then
          Run(words, base, env, at + 1, Some(Literal(words[inside.value], words[inside.value + 1])), effects)
        else Run(words, base, env, at + 1, x16, effects + [Refers(Rest(word, form.value), target)])
      else if (word == BR_X16 || word == BLR_X16) && x16.Some? then
        Leaves(x16.value, if word == BLR_X16 then Some(at + 1) else None, effects)
      else Run(words, base, env, at + 1, x16, effects + [Does(word)])
  }

  function Literal(lo: u32, hi: u32): (v: u64) {
    lo + U32 * hi
  }

  function Execute(words: seq<u32>, base: u64, env: Env): Exit {
    Run(words, base, env, 0, None, [])
  }

  /** The same outcome for a caller: both fall off their end with the same effects, or both leave for
      the same place, and a called routine returns to the end of either. */
  predicate SameExit(a: Exit, aSize: nat, b: Exit, bSize: nat) {
    && a.effects == b.effects
    && (a.Falls? <==> b.Falls?)
    && (a.Leaves? ==>
          && a.target == b.target
          && (a.link.Some? <==> b.link.Some?)
          && (a.link.Some? ==> (a.link == Some(aSize) <==> b.link == Some(bSize))))
  }
}
