/** Words put together from bit fields: `a << p | b << q | ...` and `(word >> p) & mask`. */
module PackedFields {
  import opened Bits

  /** `value << at`, which occupies `width` bits. */
  datatype Field = Field(at: nat, width: nat, value: nat)

  /** The fields, or-ed together. */
  function Pack(fields: seq<Field>): nat {
    if fields == [] then 0
    else Or(Pack(fields[..|fields| - 1]), Shl(fields[|fields| - 1].value, fields[|fields| - 1].at))
  }

  /** `(word >> at) & (2^width - 1)`. */
  function Get(word: nat, at: nat, width: nat): nat {
    And(Shr(word, at), Ones(width))
  }

  predicate Apart(a: Field, at: nat, width: nat) {
    a.at + a.width <= at || at + width <= a.at
  }

  predicate Fits(f: Field) {
    f.value < Pow2(f.width)
  }

  /** Every field fits its width and the fields do not overlap. */
  predicate Laid(fields: seq<Field>) {
    && (forall k :: 0 <= k < |fields| ==> Fits(fields[k]))
    && (forall j, k :: 0 <= j < k < |fields| ==> Apart(fields[j], fields[k].at, fields[k].width))
  }

  lemma {:induction false} BitOfPack(fields: seq<Field>, i: nat)
    ensures Bit(Pack(fields), i) <==>
            exists k :: 0 <= k < |fields| && i >= fields[k].at && Bit(fields[k].value, i - fields[k].at)
    decreases |fields|
  {
    if fields == [] {
      BitZero(i);
    } else {
      var n := |fields| - 1;
      BitOfPack(fields[..n], i);
      BitOr(Pack(fields[..n]), Shl(fields[n].value, fields[n].at), i);
      BitShl(fields[n].value, fields[n].at, i);
      assert forall k :: 0 <= k < n ==> fields[..n][k] == fields[k];
    }
  }

  lemma BitOfGet(word: nat, at: nat, width: nat, i: nat)
    ensures Bit(Get(word, at, width), i) <==> i < width && Bit(word, i + at)
  {
    BitAnd(Shr(word, at), Ones(width), i);
    BitOnes(width, i);
    BitShr(word, at, i);
  }

  lemma GetBelow(word: nat, at: nat, width: nat)
    ensures Get(word, at, width) < Pow2(width)
  {
    AndOnes(Shr(word, at), width);
    LowAtMost(Shr(word, at), width);
  }

  /** A field is read back whatever else was packed beside it. */
  lemma GetPacked(fields: seq<Field>, k: nat)
    requires Laid(fields) && k < |fields|
    ensures Get(Pack(fields), fields[k].at, fields[k].width) == fields[k].value
  {
    hide Bit, Pack, Get, Pow2;
    var f, word := fields[k], Pack(fields);
    var back := Get(word, f.at, f.width);
    assert Fits(f);
    forall i: nat ensures Bit(back, i) == Bit(f.value, i) {
      BitOfGet(word, f.at, f.width, i);
      BitOfPack(fields, i + f.at);
      if i >= f.width {
        BitAbove(f.value, f.width, i);
      } else {
        forall j | 0 <= j < |fields| && j != k && i + f.at >= fields[j].at
          ensures !Bit(fields[j].value, i + f.at - fields[j].at)
        {
          assert Fits(fields[j]);
          assert Apart(fields[j], f.at, f.width);
          BitAbove(fields[j].value, fields[j].width, i + f.at - fields[j].at);
        }
      }
    }
    SameBits(back, f.value);
  }

  // ---- replacing a field

  /** `(word & ~(mask << at)) | ((value & mask) << at)`, with `mask` of `width` bits. */
  function Put(word: nat, at: nat, width: nat, value: nat): nat {
    Or(AndNot(word, Shl(Ones(width), at)), Shl(And(value, Ones(width)), at))
  }

  lemma BitOfPut(word: nat, at: nat, width: nat, value: nat, i: nat)
    ensures Bit(Put(word, at, width, value), i) <==> if at <= i < at + width then Bit(value, i - at) else Bit(word, i)
  {
    hide Bit, Or, And, AndNot, Shl, Ones;
    BitOr(AndNot(word, Shl(Ones(width), at)), Shl(And(value, Ones(width)), at), i);
    BitAndNot(word, Shl(Ones(width), at), i);
    BitShl(Ones(width), at, i);
    BitShl(And(value, Ones(width)), at, i);
    if i >= at {
      BitAnd(value, Ones(width), i - at);
      BitOnes(width, i - at);
    }
  }

  /** The replaced field, and the fields beside it. */
  lemma GetPut(word: nat, at: nat, width: nat, value: nat, from: nat, n: nat)
    ensures from == at && n == width && value < Pow2(width) ==> Get(Put(word, at, width, value), from, n) == value
    ensures from + n <= at || at + width <= from ==> Get(Put(word, at, width, value), from, n) == Get(word, from, n)
  {
    hide Bit, Put, Get, Pow2;
    var back := Get(Put(word, at, width, value), from, n);
    if from == at && n == width && value < Pow2(width) {
      forall i: nat ensures Bit(back, i) == Bit(value, i) {
        BitOfGet(Put(word, at, width, value), from, n, i);
        BitOfPut(word, at, width, value, i + from);
        if i >= width { BitAbove(value, width, i); }
      }
      SameBits(back, value);
    }
    if from + n <= at || at + width <= from {
      forall i: nat ensures Bit(back, i) == Bit(Get(word, from, n), i) {
        BitOfGet(Put(word, at, width, value), from, n, i);
        BitOfGet(word, from, n, i);
        BitOfPut(word, at, width, value, i + from);
      }
      SameBits(back, Get(word, from, n));
    }
  }

  /** The last replacement of a field counts, and replacements of different fields commute. */
  lemma PutPut(word: nat, at: nat, width: nat, a: nat, b: nat)
    ensures Put(Put(word, at, width, a), at, width, b) == Put(word, at, width, b)
  {
    hide Bit, Put;
    forall i: nat ensures Bit(Put(Put(word, at, width, a), at, width, b), i) == Bit(Put(word, at, width, b), i) {
      BitOfPut(Put(word, at, width, a), at, width, b, i);
      BitOfPut(word, at, width, a, i);
      BitOfPut(word, at, width, b, i);
    }
    SameBits(Put(Put(word, at, width, a), at, width, b), Put(word, at, width, b));
  }

  lemma PutApart(word: nat, at: nat, width: nat, a: nat, from: nat, n: nat, b: nat)
    requires from + n <= at || at + width <= from
    ensures Put(Put(word, at, width, a), from, n, b) == Put(Put(word, from, n, b), at, width, a)
  {
    hide Bit, Put;
    var x, y := Put(Put(word, at, width, a), from, n, b), Put(Put(word, from, n, b), at, width, a);
    forall i: nat ensures Bit(x, i) == Bit(y, i) {
      BitOfPut(Put(word, at, width, a), from, n, b, i);
      BitOfPut(word, at, width, a, i);
      BitOfPut(Put(word, from, n, b), at, width, a, i);
      BitOfPut(word, from, n, b, i);
    }
    SameBits(x, y);
  }

  lemma PutIsWord(word: u32, at: nat, width: nat, value: nat)
    requires at + width <= 32
    ensures Put(word, at, width, value) < U32
  {
    hide Bit, Put, Pow2;
    WordSizes();
    forall i: nat | i >= 32 ensures !Bit(Put(word, at, width, value), i) {
      BitOfPut(word, at, width, value, i);
      BitAbove(word, 32, i);
    }
    BelowPow2(Put(word, at, width, value), 32);
  }
}
