/** AArch64 record lookup: the indexed search with its running best candidate. */
module A64Lookup {
  import opened Bits
  import opened Wrappers
  import opened DecodeIndex
  import opened Features
  import opened Selection
  import opened A64Records

  /** The tables of the decoder and the engine that uses them. */
  datatype Tables = Tables(
    pstates: seq<PstateLiteral>,
    records: seq<Record>,
    index: Index)

  function Patterns(records: seq<Record>): (p: seq<Pattern>)
    ensures |p| == |records| && forall i :: 0 <= i < |records| ==> p[i] == records[i].pattern
  {
    seq(|records|, i requires 0 <= i < |records| => records[i].pattern)
  }

  function Ranks(records: seq<Record>): (r: seq<Rank>)
    ensures |r| == |records| && forall i :: 0 <= i < |records| ==> r[i] == Rank(0, records[i].fixedBits)
  {
    seq(|records|, i requires 0 <= i < |records| => Rank(0, records[i].fixedBits))
  }

  predicate InTable(records: seq<Record>, i: nat) {
    i < |records|
  }

  ghost function AllRecords(records: seq<Record>): set<nat> {
    set i: nat | i < |records| && InTable(records, i)
  }

  /** The index files every record, and the pieces of every record fit in a word. */
  ghost predicate ValidTables(t: Tables) {
    && WellFormed(t.index, Patterns(t.records), AllRecords(t.records))
    && forall i :: 0 <= i < |t.records| ==> ShiftsInWord(t.records[i].pieces)
  }

  /** Record `r` may decode `word`. */
  ghost predicate Accepts(t: Tables, engine: Config, check: bool, r: Record, word: u32) {
    && Matches(r.pattern, word)
    && (check ==> Supports(engine, r.features))
    && GuardMatch(engine, t.pstates, r, word)
    && OperandsMatch(r, word)
  }

  ghost function Candidates(t: Tables, engine: Config, check: bool, word: u32, among: set<nat>): set<nat> {
    set i | i in among && i < |t.records| && Accepts(t, engine, check, t.records[i], word)
  }

  class Search {
    const t: Tables
    const engine: Config
    const word: u32
    const check: bool
    var best: Option<nat>
    var bestIndex: nat
    var bestFixedBits: nat
    var haveMatch: bool
    ghost var visited: set<nat>

    /** The running best is the best of what was visited. */
    ghost predicate Valid() reads this {
      && (haveMatch <==> best.Some?)
      && IsBest(Ranks(t.records), Candidates(t, engine, check, word, visited), best)
      && (best.Some? ==> bestIndex == best.value && bestFixedBits == t.records[best.value].fixedBits)
    }

    constructor (t: Tables, engine: Config, word: u32, check: bool)
      ensures Valid() && visited == {}
      ensures this.t == t && this.engine == engine && this.word == word && this.check == check
    {
      this.t, this.engine, this.word, this.check := t, engine, word, check;
      best, bestIndex, bestFixedBits, haveMatch := None, 0xffff_ffff, 0, false;
      visited := {};
    }

    /** `a64_td_predicate_match`. */
    method GuardMatches(r: Record) returns (ok: bool)
      ensures ok <==> GuardMatch(engine, t.pstates, r, word)
    {
      hide LiteralMatch, GuardField;
      if r.guard.Unguarded? {
        return true;
      }
      if InvalidPstate(word) || r.guard.UnknownGuard? {
        return false;
      }
      ok := LiteralMatchLoop(engine, t.pstates, r.guard, GuardField(r.guard, word));
    }

    method Acceptable(r: Record) returns (ok: bool)
      requires ShiftsInWord(r.pieces)
      ensures ok <==> Accepts(t, engine, check, r, word)
    {
      hide Matches, Supports, GuardMatch, OperandsMatch;
      if !Matches(r.pattern, word) {
        return false;
      }
      if check {
        ok := SupportsLoop(engine, r.features);
        if !ok { return; }
      }
      ok := GuardMatches(r);
      if !ok { return; }
      ok := OperandsMatchLoop(r, word);
    }

    /** `a64_consider_td_record`. */
    method Consider(i: nat)
      requires Valid() && ValidTables(t) && i < |t.records|
      modifies this
      ensures Valid() && visited == old(visited) + {i}
    {
      hide Accepts, WellFormed;
      var r := t.records[i];
      var ok := Acceptable(r);
      visited := visited + {i};
      assert Candidates(t, engine, check, word, visited)
          == Candidates(t, engine, check, word, old(visited)) + if ok then {i} else {};
      if !ok {
        return;
      }
      OneMore(Ranks(t.records), Candidates(t, engine, check, word, old(visited)), best, i);
      if !haveMatch || r.fixedBits > bestFixedBits || (r.fixedBits == bestFixedBits && i < bestIndex) {
        best, bestIndex, bestFixedBits, haveMatch := Some(i), i, r.fixedBits, true;
      }
    }

    /** One of the loops over a slice of record indices. */
    method ConsiderSlice(indices: seq<nat>, first: nat, count: nat)
      requires Valid() && ValidTables(t) && first + count <= |indices| && AllIn(indices, AllRecords(t.records))
      modifies this
      ensures Valid() && visited == old(visited) + Slice(indices, first, count)
    {
      hide IsBest, Candidates, ValidTables;
      var i := first;
      while i < first + count
        invariant first <= i <= first + count && Valid()
        invariant visited == old(visited) + Slice(indices, first, i - first)
      {
        assert indices[i] in AllRecords(t.records);
        Consider(indices[i]);
        i := i + 1;
      }
    }

    /** `a64_consider_td_indexed_bucket`. */
    method ConsiderBucket(desc: SubDesc, base: seq<nat>, first: nat, count: nat)
      requires Valid() && ValidTables(t) && DescInRange(t.index, desc)
      requires first + count <= |base| && AllIn(base, AllRecords(t.records))
      modifies this
      ensures Valid() && visited == old(visited) + BucketReach(t.index, desc, base, first, count, word)
    {
      hide Valid, Filed, LevelInRange;
      if desc.mask != 0 {
        var sub := FindSubbucket(t.index, desc, word);
        if sub.Some? {
          var range := t.index.subbuckets[sub.value];
          ConsiderSlice(t.index.subIndices, range.first, range.count);
        }
        ConsiderSlice(t.index.subFallback, desc.fallbackFirst, desc.fallbackCount);
        return;
      }
      ConsiderSlice(base, first, count);
    }

    method ConsiderLevel(level: Level)
      requires Valid() && ValidTables(t) && LevelInRange(t.index, level) && AllIn(level.indices, AllRecords(t.records))
      modifies this
      ensures Valid() && visited == old(visited) + LevelReach(t.index, level, word)
    {
      hide Valid, Filed, BucketReach, DescInRange;
      AndAtMost(word, level.mask);
      var bucket := FindKey(level.buckets, 0, |level.buckets|, And(word, level.mask));
      if bucket.Some? {
        var range := level.buckets[bucket.value];
        ConsiderBucket(level.subdescs[bucket.value], level.indices, range.first, range.count);
      }
    }
  }

  /** `a64_find_td_record`: the indexed search finds what a scan of the whole table finds. */
  method FindRecord(t: Tables, engine: Config, word: u32, check: bool) returns (best: Option<nat>)
    requires ValidTables(t)
    ensures best == Find(t, engine, word, check)
  {
    hide LevelReach, BucketReach, LevelInRange, DescInRange, Filed, IsBest, Accepts, Reach, Scan;
    var search := new Search(t, engine, word, check);
    search.ConsiderLevel(t.index.primary);
    search.ConsiderLevel(t.index.fallback);
    search.ConsiderBucket(t.index.lastDesc, t.index.lastIndices, 0, |t.index.lastIndices|);
    best := search.best;
    ReachDecides(t, engine, word, check);
    assert search.visited == Reach(t.index, word) by { ReachParts(t.index, word); }
    BestIsScan(Ranks(t.records), Candidates(t, engine, check, word, search.visited), best);
  }

  lemma ReachParts(ix: Index, word: u32)
    requires InRange(ix)
    ensures Reach(ix, word) == LevelReach(ix, ix.primary, word) + LevelReach(ix, ix.fallback, word)
                               + BucketReach(ix, ix.lastDesc, ix.lastIndices, 0, |ix.lastIndices|, word)
  {
    hide LevelReach, BucketReach;
  }

  /** The scan over all records, in table order. */
  ghost function Find(t: Tables, engine: Config, word: u32, check: bool): Option<nat> {
    Scan(Ranks(t.records), Candidates(t, engine, check, word, AllRecords(t.records)), |t.records|)
  }

  /** The visited records decide like the whole table. */
  lemma ReachDecides(t: Tables, engine: Config, word: u32, check: bool)
    requires ValidTables(t)
    ensures Candidates(t, engine, check, word, Reach(t.index, word))
         == Candidates(t, engine, check, word, AllRecords(t.records))
  {
    hide Reach, Filed, Matches;
    Complete(t.index, Patterns(t.records), AllRecords(t.records), word);
    var patterns := Patterns(t.records);
    forall i | i in Candidates(t, engine, check, word, AllRecords(t.records)) ensures i in Reach(t.index, word) {
      assert Matches(patterns[i], word);
    }
  }

  // ---- what a lookup returns

  /** The bits of the word that name a PSTATE field: op1, op2 and, where a field is one bit wide, the bits above it. */
  function PstateBits(guard: Guard, word: u32): nat {
    (if guard == PstateImm0To1 then 64 * (word / 0x200 % 8) else 0) + 8 * (word / 0x1_0000 % 8) + word / 0x20 % 8
  }

  /** The word names a PSTATE field that is listed for the guard and whose features are on.  The low fields under
      op1 = 0 belong to other instructions. */
  ghost predicate NamesPstate(t: Tables, engine: Config, guard: Guard, word: u32) {
    && (guard == PstateImm0To15 || guard == PstateImm0To1)
    && (word / 0x1_0000 % 8 != 0 || word / 0x20 % 8 > 2)
    && exists i :: 0 <= i < |t.pstates| && t.pstates[i].guard == guard && t.pstates[i].encoding == PstateBits(guard, word)
                   && Ids(t.pstates[i].features) <= Enabled(engine)
  }

  /** What the tables say about a record and a word: fixed bits, features, PSTATE field and operands. */
  ghost predicate Admits(t: Tables, engine: Config, check: bool, r: Record, word: u32) {
    && And(word, r.pattern.mask) == r.pattern.value
    && (check ==> Ids(r.features) <= Enabled(engine))
    && (r.guard.Unguarded? || NamesPstate(t, engine, r.guard, word))
    && OperandsDecode(r, word)
  }

  /** The field that the guard looks at, as numbers. */
  lemma GuardFieldIs(guard: Guard, word: u32)
    ensures GuardField(guard, word) == PstateBits(guard, word)
    ensures InvalidPstate(word) <==> word / 0x1_0000 % 8 == 0 && word / 0x20 % 8 <= 2
  {
    assert Pow2(3) == 8 && Ones(3) == 7 && Pow2(5) == 0x20 && Pow2(9) == 0x200 && Pow2(6) == 64;
    WordSizes();
    hide And, Or, Shl, Shr, Low, Pow2;
    FieldIs(word, 16);
    FieldIs(word, 5);
    FieldIs(word, 9);
    var op1, op2, high := word / 0x1_0000 % 8, word / 0x20 % 8, word / 0x200 % 8;
    Joined(op2, op1, 3);
    ShlIsTimes(op1, 3);
    HighField(high, op1, op2);
  }

  lemma FieldIs(word: u32, at: nat)
    ensures And(Shr(word, at), 7) == word / Pow2(at) % 8
  {
    assert Pow2(3) == 8 && Ones(3) == 7;
    hide And, Shr, Low, Pow2;
    AndOnes(Shr(word, at), 3);
    LowIsMod(Shr(word, at), 3);
    LowIsMod(word, at);
  }

  lemma TwoParts(high: nat, low: nat, n: nat, p: nat)
    requires low < p == Pow2(n)
    ensures Or(Shl(high, n), low) == high * p + low
    ensures Shl(high, n) == high * p
  {
    hide Or, Shl, Pow2;
    Joined(low, high, n);
    ShlIsTimes(high, n);
  }

  lemma SmallPowers()
    ensures Pow2(3) == 8 && Pow2(6) == 64
  {
  }

  lemma HighField(high: nat, op1: nat, op2: nat)
    requires op1 < 8 && op2 < 8
    ensures Or(Or(Shl(high, 6), Shl(op1, 3)), op2) == 64 * high + 8 * op1 + op2
  {
    hide Or, Shl, Pow2;
    SmallPowers();
    TwoParts(op1, 0, 3, 8);
    TwoParts(high, 8 * op1, 6, 64);
    TwoParts(8 * high + op1, op2, 3, 8);
  }

  lemma AcceptsIs(t: Tables, engine: Config, check: bool, r: Record, word: u32)
    ensures Accepts(t, engine, check, r, word) <==> Admits(t, engine, check, r, word)
  {
    hide OperandsMatch, OperandsDecode, Supports, Enabled, GuardField, InvalidPstate, Ids, And, PstateBits;
    OperandsMatchIs(r, word);
    SupportsIsInclusion(engine, r.features);
    GuardFieldIs(r.guard, word);
    forall i | 0 <= i < |t.pstates| { SupportsIsInclusion(engine, t.pstates[i].features); }
  }

  /** What a lookup returns: nothing exactly when no record admits the word, and otherwise a record that does, with the
      most fixed bits and, among those, the lowest index. */
  lemma FindMeaning(t: Tables, engine: Config, word: u32, check: bool)
    ensures var best := Find(t, engine, word, check);
            && (best.None? <==> forall i :: 0 <= i < |t.records| ==> !Admits(t, engine, check, t.records[i], word))
            && (best.Some? ==>
                  && best.value < |t.records|
                  && Admits(t, engine, check, t.records[best.value], word)
                  && forall i :: 0 <= i < |t.records| && Admits(t, engine, check, t.records[i], word) ==>
                       || t.records[i].fixedBits < t.records[best.value].fixedBits
                       || (t.records[i].fixedBits == t.records[best.value].fixedBits && best.value <= i))
  {
    hide Accepts, Admits;
    var all := Candidates(t, engine, check, word, AllRecords(t.records));
    ScanIsBest(Ranks(t.records), all, |t.records|);
    assert Below(all, |t.records|) == all;
    forall i | 0 <= i < |t.records| ensures Admits(t, engine, check, t.records[i], word) <==> i in all {
      AcceptsIs(t, engine, check, t.records[i], word);
    }
  }

  /** A checked lookup never returns a record with a missing feature, nor one whose fixed bits the word lacks. */
  lemma FoundIsEnabled(t: Tables, engine: Config, word: u32)
    requires Find(t, engine, word, true).Some?
    ensures var i := Find(t, engine, word, true).value;
            i < |t.records| && Ids(t.records[i].features) <= Enabled(engine)
            && And(word, t.records[i].pattern.mask) == t.records[i].pattern.value
  {
    hide Find, OperandsDecode, NamesPstate, Ids, Enabled;
    FindMeaning(t, engine, word, true);
  }

  /** With more features a found word stays found, with no fewer fixed bits. */
  lemma FindGrows(t: Tables, small: Config, large: Config, word: u32, check: bool)
    requires Enabled(small) <= Enabled(large) && Find(t, small, word, check).Some?
    ensures Find(t, large, word, check).Some?
    ensures t.records[Find(t, large, word, check).value].fixedBits >= t.records[Find(t, small, word, check).value].fixedBits
  {
    hide Accepts, Admits;
    FindMeaning(t, small, word, check);
    FindMeaning(t, large, word, check);
    AdmitsGrows(t, small, large, word, check, t.records[Find(t, small, word, check).value]);
  }

  lemma AdmitsGrows(t: Tables, small: Config, large: Config, word: u32, check: bool, r: Record)
    requires Enabled(small) <= Enabled(large) && Admits(t, small, check, r, word)
    ensures Admits(t, large, check, r, word)
  {
    hide OperandsDecode, Enabled, Ids, And, PstateBits;
  }

  /** With all features on, checking them changes nothing. */
  lemma AllFeaturesUnchecked(t: Tables, engine: Config, word: u32)
    requires engine.all
    ensures Find(t, engine, word, true) == Find(t, engine, word, false)
  {
    hide Supports, OperandsMatch, Matches, GuardMatch;
    forall i | 0 <= i < |t.records| { AllSupportsAll(engine, t.records[i].features); }
    assert Candidates(t, engine, true, word, AllRecords(t.records)) == Candidates(t, engine, false, word, AllRecords(t.records));
  }
}
