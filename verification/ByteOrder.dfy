/** Little-endian loads and stores. */
module ByteOrder {
  import opened Bits

  type u8 = x: nat | x < 0x100
  type u16 = x: nat | x < 0x1_0000

  function Byte(v: nat, k: nat): (b: u8)
  {
    ByteRange(Shr(v, 8 * k));
    And(Shr(v, 8 * k), 0xff)
  }

  lemma ByteRange(v: nat)
    ensures And(v, 0xff) < 0x100
  {
    assert Ones(8) == 0xff && Pow2(8) == 0x100;
    hide And, Pow2;
    AndOnes(v, 8);
    LowAtMost(v, 8);
  }

  function Bytes16(v: u16): seq<u8> {
    [Byte(v, 0), Byte(v, 1)]
  }

  function Bytes32(v: u32): seq<u8> {
    [Byte(v, 0), Byte(v, 1), Byte(v, 2), Byte(v, 3)]
  }

  /** `asmkit_load16le`. */
  function Load16(p: seq<u8>): nat
    requires |p| >= 2
  {
    Or(p[0], Shl(p[1], 8))
  }

  /** `asmkit_load32le`. */
  function Load32(p: seq<u8>): nat
    requires |p| >= 4
  {
    Or(Or(Or(p[0], Shl(p[1], 8)), Shl(p[2], 16)), Shl(p[3], 24))
  }

  /** `asmkit_store16le`. */
  method Store16(p: array<u8>, at: nat, v: u16)
    requires at + 2 <= p.Length
    modifies p
    ensures p[..] == old(p[..at]) + Bytes16(v) + old(p[at + 2..])
  {
    p[at], p[at + 1] := Byte(v, 0), Byte(v, 1);
  }

  /** `asmkit_store32le`. */
  method Store32(p: array<u8>, at: nat, v: u32)
    requires at + 4 <= p.Length
    modifies p
    ensures p[..] == old(p[..at]) + Bytes32(v) + old(p[at + 4..])
  {
    p[at], p[at + 1], p[at + 2], p[at + 3] := Byte(v, 0), Byte(v, 1), Byte(v, 2), Byte(v, 3);
  }

  lemma BitOfByte(v: nat, k: nat, i: nat)
    ensures Bit(Byte(v, k), i) <==> i < 8 && Bit(v, i + 8 * k)
  {
    assert Ones(8) == 0xff;
    hide Bit, Shr, And, Pow2;
    BitAnd(Shr(v, 8 * k), 0xff, i);
    BitShr(v, 8 * k, i);
    BitOnes(8, i);
  }

  lemma BitOfLoad32(p: seq<u8>, i: nat)
    requires |p| >= 4
    ensures Bit(Load32(p), i) <==>
            || Bit(p[0], i)
            || (i >= 8 && Bit(p[1], i - 8))
            || (i >= 16 && Bit(p[2], i - 16))
            || (i >= 24 && Bit(p[3], i - 24))
  {
    hide Bit, Or, Shl;
    BitOr(Or(Or(p[0], Shl(p[1], 8)), Shl(p[2], 16)), Shl(p[3], 24), i);
    BitOr(Or(p[0], Shl(p[1], 8)), Shl(p[2], 16), i);
    BitOr(p[0], Shl(p[1], 8), i);
    BitShl(p[1], 8, i);
    BitShl(p[2], 16, i);
    BitShl(p[3], 24, i);
  }

  /** The first byte is the lowest. */
  lemma LoadIsSum(p: seq<u8>, a: nat, b: nat, c: nat, d: nat)
    requires |p| >= 4 && p[0] == a && p[1] == b && p[2] == c && p[3] == d
    ensures Load16(p) == a + 0x100 * b
    ensures Load32(p) == a + 0x100 * b + 0x1_0000 * c + 0x100_0000 * d
  {
    hide Or, Shl, Pow2;
    BytePowers();
    ShlIsTimes(b, 8);
    OrDisjoint(a, b, 8);
    ShlIsTimes(c, 16);
    ShlIsTimes(d, 24);
    OrDisjoint(a + 0x100 * b, c, 16);
    OrDisjoint(a + 0x100 * b + 0x1_0000 * c, d, 24);
  }

  lemma BytePowers()
    ensures Pow2(8) == 0x100 && Pow2(16) == 0x1_0000 && Pow2(24) == 0x100_0000
  {
    Pow2Add(8, 8);
    Pow2Add(16, 8);
  }

  lemma ByteBits(b: u8, i: nat)
    requires i >= 8
    ensures !Bit(b, i)
  {
    assert Pow2(8) == 0x100;
    BitAbove(b, 8, i);
  }

  /** A stored word is loaded back. */
  lemma LoadOfBytes32(v: u32)
    ensures Load32(Bytes32(v)) == v
  {
    hide Bit, Load32, Byte, Pow2;
    var p := Bytes32(v);
    forall i: nat ensures Bit(Load32(p), i) == Bit(v, i) {
      BitOfLoad32(p, i);
      BitOfByte(v, 0, i);
      if i >= 8 { BitOfByte(v, 1, i - 8); }
      if i >= 16 { BitOfByte(v, 2, i - 16); }
      if i >= 24 { BitOfByte(v, 3, i - 24); }
      if i >= 32 { WordSizes(); BitAbove(v, 32, i); }
    }
    SameBits(Load32(p), v);
  }

  lemma LoadOfBytes16(v: u16)
    ensures Load16(Bytes16(v)) == v
  {
    hide Bit, Or, Shl, Byte, Pow2;
    var p := Bytes16(v);
    forall i: nat ensures Bit(Load16(p), i) == Bit(v, i) {
      BitOr(p[0], Shl(p[1], 8), i);
      BitShl(p[1], 8, i);
      BitOfByte(v, 0, i);
      if i >= 8 { BitOfByte(v, 1, i - 8); }
      if i >= 16 { WordSizes(); BitAbove(v, 16, i); }
    }
    SameBits(Load16(p), v);
  }

  /** And stored bytes are those that were loaded. */
  lemma BytesOfLoad32(p: seq<u8>)
    requires |p| == 4
    ensures Load32(p) < U32 && Bytes32(Load32(p)) == p
  {
    hide Bit, Load32, Byte, Pow2;
    forall i: nat | i >= 32 ensures !Bit(Load32(p), i) {
      BitOfLoad32(p, i);
      forall k | 0 <= k < 4 ensures !Bit(p[k], i - 8 * k) { ByteBits(p[k], i - 8 * k); }
      assert !Bit(p[0], i - 8 * 0) && !Bit(p[1], i - 8 * 1) && !Bit(p[2], i - 8 * 2) && !Bit(p[3], i - 8 * 3);
    }
    BelowPow2(Load32(p), 32);
    WordSizes();
    forall k | 0 <= k < 4 ensures Byte(Load32(p), k) == p[k] { ByteOfLoad(p, k); }
  }

  lemma ByteOfLoad(p: seq<u8>, k: nat)
    requires |p| == 4 && k < 4
    ensures Byte(Load32(p), k) == p[k]
  {
    hide Bit, Load32, Byte;
    forall i: nat ensures Bit(Byte(Load32(p), k), i) == Bit(p[k], i) {
      BitOfByte(Load32(p), k, i);
      if i < 8 {
        BitOfLoad32(p, i + 8 * k);
        if k >= 1 { ByteBits(p[0], i + 8 * k); }
        if k >= 2 { ByteBits(p[1], i + 8 * k - 8); }
        if k >= 3 { ByteBits(p[2], i + 8 * k - 16); }
      } else {
        ByteBits(p[k], i);
      }
    }
    SameBits(Byte(Load32(p), k), p[k]);
  }
}
