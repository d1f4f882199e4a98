/** The J1 and J2 bits of the T32 branches: offset bits 22 and 21, stored exclusive-nor with the sign
    bit 23 (encoding T4 of B in section A8.8.18 of ARM DDI 0406C). */
module BranchBits {
  import opened Bits

  /** How the encoder turns offset bits into stored bits. */
  function StoreJ(value: nat): nat {
    var i, j1, j2 := And(value, 0x80_0000) != 0, And(value, 0x40_0000) != 0, And(value, 0x20_0000) != 0;
    var v := if i != j1 then AndNot(value, 0x40_0000) else Or(value, 0x40_0000);
    if i != j2 then AndNot(v, 0x20_0000) else Or(v, 0x20_0000)
  }

  /** How the decoder turns stored bits into offset bits. */
  function LoadJ(value: nat): nat {
    var i := And(value, 0x80_0000) != 0;
    var j1 := if i != (And(value, 0x40_0000) == 0) then 0x40_0000 else 0;
    var j2 := if i != (And(value, 0x20_0000) == 0) then 0x20_0000 else 0;
    Or(Or(AndNot(value, 0x60_0000), j1), j2)
  }

  lemma BranchSizes()
    ensures Pow2(20) == 0x10_0000 && Pow2(21) == 0x20_0000 && Pow2(22) == 0x40_0000
    ensures Pow2(23) == 0x80_0000 && Pow2(24) == 0x100_0000
  {
    assert Pow2(10) == 0x400 && Pow2(11) == 0x800 && Pow2(12) == 0x1000;
    Pow2Add(10, 10);
    Pow2Add(10, 11);
    Pow2Add(11, 11);
    Pow2Add(11, 12);
    Pow2Add(12, 12);
  }

  /** Bit `i` of `0x60_0000`. */
  lemma BothBits(i: nat)
    ensures Bit(0x60_0000, i) <==> i == 21 || i == 22
  {
    BranchSizes();
    assert Pow2(2) == 4 && Ones(2) == 3;
    hide Pow2, Bit, Shl;
    ShlIsTimes(3, 21);
    BitShl(3, 21, i);
    if i >= 21 { BitOnes(2, i - 21); }
  }

  predicate Stored(value: nat, i: nat) {
    if i == 22 then Bit(value, 23) == Bit(value, 22)
    else if i == 21 then Bit(value, 23) == Bit(value, 21)
    else Bit(value, i)
  }

  lemma BitSetOrCleared(v: nat, k: nat, i: nat)
    ensures Bit(Or(v, Pow2(k)), i) <==> i == k || Bit(v, i)
    ensures Bit(AndNot(v, Pow2(k)), i) <==> i != k && Bit(v, i)
  {
    hide Pow2, Bit;
    BitOr(v, Pow2(k), i);
    BitAndNot(v, Pow2(k), i);
    BitPow2(k, i);
  }

  lemma BitOfStoreJ(value: nat, i: nat)
    ensures Bit(StoreJ(value), i) <==> Stored(value, i)
  {
    BranchSizes();
    hide Pow2, Bit, And, AndNot, Or;
    TestPow2(value, 23);
    TestPow2(value, 22);
    TestPow2(value, 21);
    var v := if Bit(value, 23) != Bit(value, 22) then AndNot(value, Pow2(22)) else Or(value, Pow2(22));
    BitSetOrCleared(value, 22, i);
    BitSetOrCleared(v, 21, i);
  }

  lemma BitOfLoadJ(value: nat, i: nat)
    ensures Bit(LoadJ(value), i) <==> Stored(value, i)
  {
    BranchSizes();
    hide Pow2, Bit, And, AndNot, Or;
    TestPow2(value, 23);
    TestPow2(value, 22);
    TestPow2(value, 21);
    var j1 := if Bit(value, 23) != !Bit(value, 22) then Pow2(22) else 0;
    var j2 := if Bit(value, 23) != !Bit(value, 21) then Pow2(21) else 0;
    BitOr(Or(AndNot(value, 0x60_0000), j1), j2, i);
    BitOr(AndNot(value, 0x60_0000), j1, i);
    BitAndNot(value, 0x60_0000, i);
    BothBits(i);
    BitPow2(22, i);
    BitPow2(21, i);
    BitZero(i);
  }

  /** The two conversions are the same involution. */
  lemma LoadOfStore(value: nat)
    ensures LoadJ(value) == StoreJ(value) && LoadJ(StoreJ(value)) == value
  {
    hide StoreJ, LoadJ, Bit;
    forall i: nat
      ensures Bit(LoadJ(value), i) == Bit(StoreJ(value), i)
      ensures Bit(LoadJ(StoreJ(value)), i) == Bit(value, i)
    {
      BitOfLoadJ(value, i);
      BitOfStoreJ(value, i);
      BitOfLoadJ(StoreJ(value), i);
      BitOfStoreJ(value, 21);
      BitOfStoreJ(value, 22);
      BitOfStoreJ(value, 23);
    }
    SameBits(LoadJ(value), StoreJ(value));
    SameBits(LoadJ(StoreJ(value)), value);
  }

  /** Clearing bit 0 commutes with the conversions. */
  lemma LowBitAside(value: nat)
    ensures LoadJ(AndNot(StoreJ(value), 1)) == AndNot(value, 1)
  {
    assert Pow2(0) == 1;
    hide StoreJ, LoadJ, Bit, AndNot, Pow2;
    var stored := AndNot(StoreJ(value), 1);
    forall i: nat ensures Bit(LoadJ(stored), i) == Bit(AndNot(value, 1), i) {
      BitOfLoadJ(stored, i);
      StoredBit(value, i);
      StoredBit(value, 21);
      StoredBit(value, 22);
      StoredBit(value, 23);
      BitAndNot(value, 1, i);
      BitPow2(0, i);
    }
    SameBits(LoadJ(stored), AndNot(value, 1));
  }

  lemma StoredBit(value: nat, i: nat)
    ensures Bit(AndNot(StoreJ(value), 1), i) <==> i != 0 && Stored(value, i)
  {
    assert Pow2(0) == 1;
    hide StoreJ, Bit, AndNot, Pow2;
    BitAndNot(StoreJ(value), 1, i);
    BitPow2(0, i);
    BitOfStoreJ(value, i);
  }

  lemma StoreJFits(value: nat)
    requires value < 0x100_0000
    ensures StoreJ(value) < 0x100_0000
  {
    BranchSizes();
    hide StoreJ, Bit, Pow2;
    forall i: nat | i >= 24 ensures !Bit(StoreJ(value), i) {
      BitOfStoreJ(value, i);
      BitAbove(value, 24, i);
    }
    BelowPow2(StoreJ(value), 24);
  }
}
