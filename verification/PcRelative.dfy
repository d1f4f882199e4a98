/** Addresses modulo `2^64` and signed distances between them. */
module PcRelative {
  import opened Bits
  import Residues

  /** An address expression, wrapped to 64 bits. */
  function Wrap(x: int): u64 {
    x % U64
  }

  /** A 64-bit difference read as signed. */
  function Signed(x: int): i64 {
    var m := x % U64;
    if m < 0x8000_0000_0000_0000 then m else m - U64
  }

  /** The distance from `base` to `target`. */
  function Distance(base: u64, target: u64): i64 {
    Signed(target - base)
  }

  /** Walking the distance arrives at the target. */
  lemma DistanceArrives(base: u64, target: u64)
    ensures Wrap(base + Distance(base, target)) == target
  {
  }

  /** A distance in the signed range is the distance to where it leads. */
  lemma DistanceUnique(base: u64, disp: i64)
    ensures Distance(base, Wrap(base + disp)) == disp
  {
  }

  lemma WrapTwice(a: int, b: int, c: int)
    ensures Wrap(Wrap(a + b) + c) == Wrap(a + (c + b))
  {
  }

  /** `address & ~(2^k - 1)` for the two alignments used. */
  function AlignDown(address: u64, step: nat): u64
    requires step > 0
  {
    Residues.RemIsMod(address, step);
    Residues.RemAtMost(address, step);
    address - address % step
  }

  /** The parts of a PC-relative operand that the codec reads and writes. */
  datatype Target = Target(imm: int, absTarget: u64, width: nat)

  /** The absolute target of an operand: `abs_target`, or the displacement when only that is given. */
  function TargetOf(address: u64, operand: Target): u64 {
    if operand.absTarget != 0 || operand.imm == 0 then operand.absTarget else Wrap(address + operand.imm)
  }
}
