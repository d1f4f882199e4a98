/** CPU feature sets: 512 feature bits in eight 64-bit words, as engines, configurations and
    records carry them. */
module Features {
  import opened Bits

  const FEATURE_WORDS: nat := 8
  const FEATURE_CAPACITY: nat := 512

  type Words = s: seq<u64> | |s| == 8 witness [0, 0, 0, 0, 0, 0, 0, 0]

  const ALL_ONES: u64 := 0xffff_ffff_ffff_ffff
  const FULL: Words := [ALL_ONES, ALL_ONES, ALL_ONES, ALL_ONES, ALL_ONES, ALL_ONES, ALL_ONES, ALL_ONES]

  /** The feature ids whose bit is set. */
  ghost function Ids(words: Words): set<nat> {
    set id | 0 <= id < FEATURE_CAPACITY && Bit(words[id / 64], id % 64)
  }

  lemma {:induction false} AndNotAtMost(a: nat, b: nat)
    ensures AndNot(a, b) <= a
    decreases a
  {
    if a > 0 { AndNotAtMost(a / 2, b / 2); }
  }

  lemma OneMoreBit(word: u64, bit: nat)
    requires bit < 64
    ensures Or(word, Pow2(bit)) < U64
    ensures forall i: nat :: Bit(Or(word, Pow2(bit)), i) <==> i == bit || Bit(word, i)
  {
    WordSizes();
    OrBits(word, Pow2(bit));
    Pow2Bits(bit);
    forall i: nat | i >= 64 ensures !Bit(Or(word, Pow2(bit)), i) { BitAbove(word, 64, i); }
    BelowPow2(Or(word, Pow2(bit)), 64);
  }

  lemma OneBitLess(word: u64, bit: nat)
    ensures AndNot(word, Pow2(bit)) < U64
    ensures forall i: nat :: Bit(AndNot(word, Pow2(bit)), i) <==> i != bit && Bit(word, i)
  {
    AndNotAtMost(word, Pow2(bit));
    AndNotBits(word, Pow2(bit));
    Pow2Bits(bit);
  }

  lemma UpdatedIds(before: Words, after: Words, id: nat, on: bool)
    requires id < FEATURE_CAPACITY
    requires forall w: nat :: w < FEATURE_WORDS && w != id / 64 ==> after[w] == before[w]
    requires forall i: nat :: Bit(after[id / 64], i) <==> if i == id % 64 then on else Bit(before[id / 64], i)
    ensures Ids(after) == if on then Ids(before) + {id} else Ids(before) - {id}
  {
    hide Bit;
    forall other: nat | other < FEATURE_CAPACITY
      ensures other in Ids(after) <==> if other == id then on else other in Ids(before)
    {
      if other / 64 == id / 64 && other % 64 == id % 64 { assert other == id; }
    }
  }

  class FeatureSet {
    const words: array<u64>

    ghost predicate Valid() reads this {
      words.Length == FEATURE_WORDS
    }

    ghost function Contents(): set<nat>
      requires Valid()
      reads this, words
    {
      Ids(words[..])
    }

    constructor ()
      ensures Valid() && fresh(words) && Contents() == {}
    {
      words := new u64[FEATURE_WORDS];
      new;
      Clear();
    }

    method Clear()
      requires Valid()
      modifies words
      ensures Contents() == {}
    {
      var i := 0;
      while i < FEATURE_WORDS
        invariant 0 <= i <= FEATURE_WORDS
        invariant forall j :: 0 <= j < i ==> words[j] == 0
      {
        words[i] := 0;
        i := i + 1;
      }
      forall b: nat { BitZero(b); }
    }

    method Fill()
      requires Valid()
      modifies words
      ensures forall id: nat :: id < FEATURE_CAPACITY ==> id in Contents()
    {
      var i := 0;
      while i < FEATURE_WORDS
        invariant 0 <= i <= FEATURE_WORDS
        invariant forall j :: 0 <= j < i ==> words[j] == ALL_ONES
      {
        words[i] := ALL_ONES;
        i := i + 1;
      }
      AllOnesBits();
    }

    method Enable(id: nat) returns (ok: bool)
      requires Valid()
      modifies words
      ensures ok <==> id < FEATURE_CAPACITY
      ensures Contents() == if ok then old(Contents()) + {id} else old(Contents())
    {
      if id >= FEATURE_CAPACITY {
        return false;
      }
      ghost var before := words[..];
      OneMoreBit(words[id / 64], id % 64);
      words[id / 64] := Or(words[id / 64], Pow2(id % 64));
      UpdatedIds(before, words[..], id, true);
      return true;
    }

    method Disable(id: nat) returns (ok: bool)
      requires Valid()
      modifies words
      ensures ok <==> id < FEATURE_CAPACITY
      ensures Contents() == if ok then old(Contents()) - {id} else old(Contents())
    {
      if id >= FEATURE_CAPACITY {
        return false;
      }
      ghost var before := words[..];
      OneBitLess(words[id / 64], id % 64);
      words[id / 64] := AndNot(words[id / 64], Pow2(id % 64));
      UpdatedIds(before, words[..], id, false);
      return true;
    }

    method Contains(id: nat) returns (ok: bool, enabled: bool)
      requires Valid()
      ensures ok <==> id < FEATURE_CAPACITY
      ensures enabled <==> id in Contents()
    {
      if id >= FEATURE_CAPACITY {
        return false, false;
      }
      TestPow2(words[id / 64], id % 64);
      return true, And(words[id / 64], Pow2(id % 64)) != 0;
    }
  }

  lemma AllOnesBits()
    ensures forall i: nat :: Bit(ALL_ONES, i) <==> i < 64
  {
    WordSizes();
    assert Ones(64) == ALL_ONES;
    hide Bit, Pow2;
    OnesBits(64);
  }

  // ---- engines

  /** An engine's feature configuration: the all-features flag, the explicit flag, the bits. */
  datatype Config = Config(all: bool, explicit: bool, bits: Words)

  /** `asmkit_engine_feature_word`. */
  function FeatureWord(engine: Config, w: nat): u64 {
    if engine.all then ALL_ONES else if w < FEATURE_WORDS then engine.bits[w] else 0
  }

  /** The features `asmkit_engine_init` leaves an engine with: all of them unless the caller set
      them explicitly and did not ask for all. */
  function Initialised(config: Config): Config {
    if config.all || !config.explicit then config.(all := true, bits := FULL) else config
  }

  /** What the engine can do, as a set of features. */
  ghost function Enabled(engine: Config): set<nat> {
    Ids(seq(FEATURE_WORDS, (w: nat) requires w < FEATURE_WORDS => FeatureWord(engine, w)))
  }

  /** `a64_td_features_match` and `arm_td_features_match`. */
  predicate Supports(engine: Config, required: Words) {
    forall w: nat :: w < FEATURE_WORDS ==> AndNot(required[w], FeatureWord(engine, w)) == 0
  }

  method SupportsLoop(engine: Config, required: Words) returns (ok: bool)
    ensures ok <==> Supports(engine, required)
  {
    var w := 0;
    while w < FEATURE_WORDS
      invariant 0 <= w <= FEATURE_WORDS
      invariant forall v :: 0 <= v < w ==> AndNot(required[v], FeatureWord(engine, v)) == 0
    {
      if AndNot(required[w], FeatureWord(engine, w)) != 0 {
        return false;
      }
      w := w + 1;
    }
    return true;
  }

  ghost predicate Covers(have: u64, required: u64) {
    forall b: nat :: b < 64 && Bit(required, b) ==> Bit(have, b)
  }

  lemma NoneMissing(required: u64, have: u64)
    ensures AndNot(required, have) == 0 <==> Covers(have, required)
  {
    AndNotBits(required, have);
    if AndNot(required, have) == 0 {
      forall b: nat | b < 64 && Bit(required, b) ensures Bit(have, b) {
        BitZero(b);
        assert !Bit(AndNot(required, have), b);
      }
    } else if Covers(have, required) {
      forall b: nat ensures Bit(AndNot(required, have), b) == Bit(0, b) {
        BitZero(b);
        if b >= 64 { WordSizes(); BitAbove(required, 64, b); }
      }
      SameBits(AndNot(required, have), 0);
    }
  }

  /** The word test is set inclusion. */
  lemma SupportsIsInclusion(engine: Config, required: Words)
    ensures Supports(engine, required) <==> Ids(required) <= Enabled(engine)
  {
    hide Bit, AndNot;
    forall w: nat | w < FEATURE_WORDS
      ensures AndNot(required[w], FeatureWord(engine, w)) == 0
              <==> Covers(FeatureWord(engine, w), required[w])
    {
      NoneMissing(required[w], FeatureWord(engine, w));
    }
    if Supports(engine, required) {
      forall id | id in Ids(required) ensures id in Enabled(engine) {
        assert AndNot(required[id / 64], FeatureWord(engine, id / 64)) == 0;
      }
    }
    if Ids(required) <= Enabled(engine) {
      forall w: nat, b: nat | w < FEATURE_WORDS && b < 64 && Bit(required[w], b)
        ensures Bit(FeatureWord(engine, w), b)
      {
        IdOf(w, b);
        assert 64 * w + b in Ids(required);
        assert 64 * w + b in Enabled(engine);
      }
    }
  }

  lemma IdOf(w: nat, b: nat)
    requires w < FEATURE_WORDS && b < 64
    ensures 64 * w + b < FEATURE_CAPACITY && (64 * w + b) / 64 == w && (64 * w + b) % 64 == b
  {
  }

  /** An initialised engine has all features, or exactly those that the caller listed. */
  lemma InitialisedFeatures(config: Config)
    ensures var engine := Initialised(config);
            && (engine.all ==> forall id: nat :: id < FEATURE_CAPACITY ==> id in Enabled(engine))
            && (!engine.all ==> Enabled(engine) == Ids(config.bits))
            && (engine.all <==> config.all || !config.explicit)
  {
    AllOnesBits();
    hide Bit;
    var engine := Initialised(config);
    var words := seq(FEATURE_WORDS, (w: nat) requires w < FEATURE_WORDS => FeatureWord(engine, w));
    if !engine.all {
      assert words == config.bits;
    }
  }

  /** More features never lose support; all features support everything. */
  lemma SupportGrows(small: Config, large: Config, required: Words)
    requires Enabled(small) <= Enabled(large) && Supports(small, required)
    ensures Supports(large, required)
  {
    hide Supports;
    SupportsIsInclusion(small, required);
    SupportsIsInclusion(large, required);
  }

  lemma AllSupportsAll(engine: Config, required: Words)
    requires engine.all
    ensures Supports(engine, required)
  {
    forall w: nat | w < FEATURE_WORDS ensures AndNot(required[w], FeatureWord(engine, w)) == 0 {
      AllOnesBits();
      NoneMissing(required[w], ALL_ONES);
    }
  }
}
