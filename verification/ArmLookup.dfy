/** A32 and T32 record lookup: the indexed search keeps the best usable candidate and the best one
    that a missing feature blocks. */
module ArmLookup {
  import opened Bits
  import opened Wrappers
  import opened DecodeIndex
  import opened Features
  import opened Selection
  import opened ArmRecords
  import opened Operands
  import OperandBits

  const SPACE_THUMB2_COPROC: nat := 8
  const SPACE_THUMB2_CDE: nat := 9
  const SPACE_PRIMARY: nat := 254
  const SPACE_ANY: nat := 255

  datatype Tables = Tables(regs: RegisterTable, records: seq<Record>)

  function Patterns(records: seq<Record>): (p: seq<Pattern>)
    ensures |p| == |records| && forall i :: 0 <= i < |records| ==> p[i] == records[i].pattern
  {
    seq(|records|, i requires 0 <= i < |records| => records[i].pattern)
  }

  function Ranks(records: seq<Record>): (r: seq<Rank>)
    ensures |r| == |records|
    ensures forall i :: 0 <= i < |records| ==> r[i] == Rank(records[i].priority, records[i].fixedBits)
  {
    seq(|records|, i requires 0 <= i < |records| => Rank(records[i].priority, records[i].fixedBits))
  }

  predicate HasSize(records: seq<Record>, i: nat, size: nat)
    requires i < |records|
  {
    records[i].size == size
  }

  /** The records of one instruction size, which one index serves. */
  ghost function OfSize(records: seq<Record>, size: nat): set<nat> {
    set i | 0 <= i < |records| && HasSize(records, i, size)
  }

  ghost predicate ValidTables(t: Tables, ix: Index, family: set<nat>) {
    && WellFormed(ix, Patterns(t.records), family)
    && forall i :: 0 <= i < |t.records| ==> OperandBits.DstInWord(t.records[i].pieces)
  }

  /** `arm_td_space_matches`. */
  predicate SpaceMatches(recordSpace: nat, requested: nat) {
    if requested == SPACE_ANY then true
    else if requested == SPACE_PRIMARY then recordSpace != SPACE_THUMB2_COPROC && recordSpace != SPACE_THUMB2_CDE
    else recordSpace == requested
  }

  /** Record `r` describes `word`: it is in the space, its fixed bits match, and its operands decode
      (tried at address 0, as `arm_td_record_decodes_operands` does). */
  predicate Describes(t: Tables, space: nat, r: Record, word: u32)
    requires OperandBits.DstInWord(r.pieces)
  {
    SpaceMatches(r.space, space) && Matches(r.pattern, word) && DecodeOperands(t.regs, r, word, 0).Some?
  }

  /** What is being looked up, by whom. */
  datatype Query = Query(engine: Config, word: u32, space: nat, check: bool)

  predicate Usable(q: Query, r: Record) {
    q.check ==> Supports(q.engine, r.features)
  }

  ghost function Described(t: Tables, q: Query, among: set<nat>): set<nat>
    requires forall i :: 0 <= i < |t.records| ==> OperandBits.DstInWord(t.records[i].pieces)
  {
    set i | i in among && i < |t.records| && Describes(t, q.space, t.records[i], q.word)
  }

  ghost function Allowed(t: Tables, q: Query, among: set<nat>): set<nat>
    requires forall i :: 0 <= i < |t.records| ==> OperandBits.DstInWord(t.records[i].pieces)
  {
    set i | i in Described(t, q, among) && Usable(q, t.records[i])
  }

  ghost function Blocked(t: Tables, q: Query, among: set<nat>): set<nat>
    requires forall i :: 0 <= i < |t.records| ==> OperandBits.DstInWord(t.records[i].pieces)
  {
    set i | i in Described(t, q, among) && !Usable(q, t.records[i])
  }

  class Search {
    const t: Tables
    const ix: Index
    const q: Query
    ghost const family: set<nat>
    var best: Option<nat>
    var bestIndex: nat
    var bestPriority: nat
    var bestFixedBits: nat
    var haveBest: bool
    var blockedIndex: nat
    var blockedPriority: nat
    var blockedFixedBits: nat
    var haveBlocked: bool
    ghost var visited: set<nat>

    /** The running best candidates are the best of what was visited. */
    ghost predicate Valid() reads this {
      && ValidTables(t, ix, family)
      && (haveBest <==> best.Some?)
      && IsBest(Ranks(t.records), Allowed(t, q, visited), best)
      && (best.Some? ==>
            && bestIndex == best.value
            && Rank(bestPriority, bestFixedBits) == Ranks(t.records)[best.value])
      && IsBest(Ranks(t.records), Blocked(t, q, visited), if haveBlocked then Some(blockedIndex) else None)
      && (haveBlocked ==> Rank(blockedPriority, blockedFixedBits) == Ranks(t.records)[blockedIndex])
    }

    constructor (t: Tables, ix: Index, q: Query, ghost family: set<nat>)
      requires ValidTables(t, ix, family)
      ensures Valid() && visited == {}
      ensures this.t == t && this.ix == ix && this.q == q && this.family == family
    {
      this.t, this.ix, this.q, this.family := t, ix, q, family;
      best, bestIndex, bestPriority, bestFixedBits, haveBest := None, 0xffff_ffff, 0, 0, false;
      blockedIndex, blockedPriority, blockedFixedBits, haveBlocked := 0xffff_ffff, 0, 0, false;
      visited := {};
    }

    method Describing(r: Record) returns (ok: bool)
      requires OperandBits.DstInWord(r.pieces)
      ensures ok <==> Describes(t, q.space, r, q.word)
    {
      hide Matches, DecodeOperands, OperandBits.DstInWord;
      if !SpaceMatches(r.space, q.space) || !Matches(r.pattern, q.word) {
        return false;
      }
      var scratch := new Operand[MAX_OPERANDS](_ => NONE);
      assert scratch[..] == EMPTY_SLOTS;
      ok := DecodeOperandsLoop(t.regs, r, q.word, 0, scratch);
    }

    /** `arm_consider_td_record`. */
    method Consider(i: nat)
      requires Valid() && i < |t.records|
      modifies this
      ensures Valid() && visited == old(visited) + {i}
    {
      hide Describes, WellFormed, Usable, OperandBits.DstInWord, Supports;
      var r := t.records[i];
      var described := Describing(r);
      visited := visited + {i};
      assert Allowed(t, q, visited) == Allowed(t, q, old(visited)) + if described && Usable(q, r) then {i} else {};
      assert Blocked(t, q, visited) == Blocked(t, q, old(visited)) + if described && !Usable(q, r) then {i} else {};
      if !described {
        return;
      }
      var usable := true;
      if q.check {
        usable := SupportsLoop(q.engine, r.features);
      }
      UsableIs(q, r);
      ConsiderDescribed(i, r, usable, Allowed(t, q, old(visited)), Blocked(t, q, old(visited)));
    }

    method ConsiderDescribed(i: nat, r: Record, usable: bool, ghost enabled: set<nat>, ghost blocked: set<nat>)
      requires ValidTables(t, ix, family) && i < |t.records| && r == t.records[i] && i in visited
      requires usable <==> Usable(q, r)
      requires haveBest <==> best.Some?
      requires best.Some? ==> best.value < |t.records|
      requires best.Some? ==> bestIndex == best.value && Rank(bestPriority, bestFixedBits) == Ranks(t.records)[best.value]
      requires haveBlocked ==> blockedIndex < |t.records|
      requires haveBlocked ==> Rank(blockedPriority, blockedFixedBits) == Ranks(t.records)[blockedIndex]
      requires IsBest(Ranks(t.records), enabled, best)
      requires IsBest(Ranks(t.records), blocked, if haveBlocked then Some(blockedIndex) else None)
      requires Allowed(t, q, visited) == enabled + if usable then {i} else {}
      requires Blocked(t, q, visited) == blocked + if usable then {} else {i}
      modifies `best, `bestIndex, `bestPriority, `bestFixedBits, `haveBest,
               `blockedIndex, `blockedPriority, `blockedFixedBits, `haveBlocked
      ensures Valid()
    {
      hide Usable, Allowed, Blocked, WellFormed, OperandBits.DstInWord;
      if !usable {
        OneMore(Ranks(t.records), blocked, if haveBlocked then Some(blockedIndex) else None, i);
        assert enabled + {} == enabled;
        if !haveBlocked || r.priority > blockedPriority
           || (r.priority == blockedPriority && r.fixedBits > blockedFixedBits)
           || (r.priority == blockedPriority && r.fixedBits == blockedFixedBits && i < blockedIndex)
        {
          blockedIndex, blockedPriority, blockedFixedBits, haveBlocked := i, r.priority, r.fixedBits, true;
        }
        return;
      }
      OneMore(Ranks(t.records), enabled, best, i);
      assert blocked + {} == blocked;
      if !haveBest || r.priority > bestPriority
         || (r.priority == bestPriority && r.fixedBits > bestFixedBits)
         || (r.priority == bestPriority && r.fixedBits == bestFixedBits && i < bestIndex)
      {
        best, bestIndex, bestPriority, bestFixedBits, haveBest := Some(i), i, r.priority, r.fixedBits, true;
      }
    }

    lemma Listed(i: nat)
      requires Valid() && i in family
      ensures i < |t.records|
    {
      FamilyInTable(t, ix, family);
    }

    method ConsiderSlice(indices: seq<nat>, first: nat, count: nat)
      requires Valid() && first + count <= |indices| && AllIn(indices, family)
      modifies this
      ensures Valid() && visited == old(visited) + Slice(indices, first, count)
    {
      hide Valid, ValidTables, Slice;
      var i := first;
      NoSlice(indices, first);
      while i < first + count
        invariant first <= i <= first + count && Valid()
        invariant visited == old(visited) + Slice(indices, first, i - first)
      {
        Listed(indices[i]);
        SliceOneMore(indices, first, i - first);
        Consider(indices[i]);
        i := i + 1;
      }
    }

    /** `arm_consider_*_td_indexed_bucket`. */
    method ConsiderBucket(desc: SubDesc, base: seq<nat>, first: nat, count: nat)
      requires Valid() && DescInRange(ix, desc) && SubtablesInRange(ix)
      requires AllIn(ix.subIndices, family) && AllIn(ix.subFallback, family)
      requires first + count <= |base| && AllIn(base, family)
      modifies this
      ensures Valid() && visited == old(visited) + BucketReach(ix, desc, base, first, count, q.word)
    {
      hide Valid, AllIn;
      if desc.mask != 0 {
        var sub := FindSubbucket(ix, desc, q.word);
        if sub.Some? {
          var range := ix.subbuckets[sub.value];
          ConsiderSlice(ix.subIndices, range.first, range.count);
        }
        ConsiderSlice(ix.subFallback, desc.fallbackFirst, desc.fallbackCount);
        return;
      }
      ConsiderSlice(base, first, count);
    }

    method ConsiderLevel(level: Level)
      requires Valid() && SubtablesInRange(ix) && LevelInRange(ix, level)
      requires AllIn(ix.subIndices, family) && AllIn(ix.subFallback, family) && AllIn(level.indices, family)
      modifies this
      ensures Valid() && visited == old(visited) + LevelReach(ix, level, q.word)
    {
      hide Valid, BucketReach, DescInRange, AllIn;
      AndAtMost(q.word, level.mask);
      var bucket := FindKey(level.buckets, 0, |level.buckets|, And(q.word, level.mask));
      if bucket.Some? {
        var range := level.buckets[bucket.value];
        ConsiderBucket(level.subdescs[bucket.value], level.indices, range.first, range.count);
      }
    }
  }

  lemma UsableIs(q: Query, r: Record)
    ensures Usable(q, r) <==> (q.check ==> Supports(q.engine, r.features))
  {
  }

  lemma FamilyInTable(t: Tables, ix: Index, family: set<nat>)
    requires ValidTables(t, ix, family)
    ensures forall i :: i in family ==> i < |t.records|
  {
  }

  /** What a lookup returns: the best enabled record, unless a blocked record outranks it. */
  ghost function Find(t: Tables, q: Query, family: set<nat>): Option<nat>
    requires forall i :: 0 <= i < |t.records| ==> OperandBits.DstInWord(t.records[i].pieces)
  {
    var ranks := Ranks(t.records);
    var best, blocked := Scan(ranks, Allowed(t, q, family), |ranks|), Scan(ranks, Blocked(t, q, family), |ranks|);
    if q.check && blocked.Some? && (best.None? || Outranks(ranks[blocked.value], ranks[best.value])) then None else best
  }

  lemma ReachDecides(t: Tables, ix: Index, q: Query, family: set<nat>)
    requires ValidTables(t, ix, family)
    ensures Allowed(t, q, Reach(ix, q.word)) == Allowed(t, q, family)
    ensures Blocked(t, q, Reach(ix, q.word)) == Blocked(t, q, family)
  {
    hide Reach, Filed, Matches, DecodeOperands, OperandBits.DstInWord;
    Complete(ix, Patterns(t.records), family, q.word);
    var patterns := Patterns(t.records);
    forall i | i in Described(t, q, family) ensures i in Reach(ix, q.word) {
      assert Matches(patterns[i], q.word);
    }
    assert Described(t, q, Reach(ix, q.word)) == Described(t, q, family);
  }

  lemma ReachParts(ix: Index, word: u32)
    requires InRange(ix)
    ensures Reach(ix, word) == LevelReach(ix, ix.primary, word) + LevelReach(ix, ix.fallback, word)
                               + BucketReach(ix, ix.lastDesc, ix.lastIndices, 0, |ix.lastIndices|, word)
  {
    hide LevelReach, BucketReach;
  }

  /** `arm_find_a32_td_record_in_space`, and each size of `arm_find_thumb_td_record_in_space`. */
  method FindInSpace(t: Tables, ix: Index, q: Query, ghost family: set<nat>) returns (found: Option<nat>)
    requires ValidTables(t, ix, family)
    ensures found == Find(t, q, family)
  {
    hide LevelReach, BucketReach, LevelInRange, DescInRange, Filed, IsBest, Reach, Scan, Allowed, Blocked, OperandBits.DstInWord;
    var search := new Search(t, ix, q, family);
    search.ConsiderLevel(ix.primary);
    search.ConsiderLevel(ix.fallback);
    search.ConsiderBucket(ix.lastDesc, ix.lastIndices, 0, |ix.lastIndices|);
    ReachParts(ix, q.word);
    assert search.visited == Reach(ix, q.word);
    ReachDecides(t, ix, q, family);
    BestIsScan(Ranks(t.records), Allowed(t, q, family), search.best);
    BestIsScan(Ranks(t.records), Blocked(t, q, family), if search.haveBlocked then Some(search.blockedIndex) else None);
    if q.check && search.haveBlocked
       && (!search.haveBest || search.blockedPriority > search.bestPriority
           || (search.blockedPriority == search.bestPriority && search.blockedFixedBits > search.bestFixedBits))
    {
      return None;
    }
    return search.best;
  }

  /** `arm_find_thumb_td_record_in_space`: one index per instruction size. */
  method FindThumb(t: Tables, wide: Index, narrow: Index, size: nat, q: Query) returns (found: Option<nat>)
    requires ValidTables(t, wide, OfSize(t.records, 4)) && ValidTables(t, narrow, OfSize(t.records, 2))
    ensures found == Find(t, q, OfSize(t.records, if size == 4 then 4 else 2))
  {
    hide WellFormed, Find, OperandBits.DstInWord;
    if size == 4 {
      found := FindInSpace(t, wide, q, OfSize(t.records, 4));
    } else {
      found := FindInSpace(t, narrow, q, OfSize(t.records, 2));
    }
  }

  // ---- what feature checks mean

  function Unchecked(q: Query): Query {
    q.(check := false)
  }

  ghost predicate InTable(t: Tables, family: set<nat>) {
    && (forall i :: 0 <= i < |t.records| ==> OperandBits.DstInWord(t.records[i].pieces))
    && (forall i :: i in family ==> i < |t.records|)
  }

  lemma BestOf(t: Tables, candidates: set<nat>)
    requires forall i :: i in candidates ==> i < |t.records|
    ensures IsBest(Ranks(t.records), candidates, Scan(Ranks(t.records), candidates, |t.records|))
  {
    ScanIsBest(Ranks(t.records), candidates, |t.records|);
    assert Below(candidates, |t.records|) == candidates;
  }

  /** A checked lookup fails exactly when no enabled record describes the word, or a record that a
      missing feature blocks strictly outranks all enabled ones; otherwise it returns the best enabled
      record, whose rank is that of the unchecked winner. */
  lemma CheckedMeaning(t: Tables, q: Query, family: set<nat>)
    requires InTable(t, family) && q.check
    ensures var ranks, found, open := Ranks(t.records), Find(t, q, family), Find(t, Unchecked(q), family);
            && (found.None? <==>
                  || Allowed(t, q, family) == {}
                  || exists b :: b in Blocked(t, q, family) && forall e :: e in Allowed(t, q, family) ==> Outranks(ranks[b], ranks[e]))
            && (found.Some? ==>
                  && IsBest(ranks, Allowed(t, q, family), found)
                  && open.Some?
                  && ranks[open.value] == ranks[found.value])
            && (open.None? <==> Described(t, q, family) == {})
            && (open.Some? ==> IsBest(ranks, Described(t, q, family), open))
  {
    hide Describes, Usable, Scan, OperandBits.DstInWord;
    var ranks := Ranks(t.records);
    var enabled, blocked, all := Allowed(t, q, family), Blocked(t, q, family), Described(t, q, family);
    BestOf(t, enabled);
    BestOf(t, blocked);
    UncheckedTakesAll(t, q, family);
    BestOf(t, all);
    assert all == enabled + blocked;
    var best, stop := Scan(ranks, enabled, |ranks|), Scan(ranks, blocked, |ranks|);
    Parts(ranks, enabled, blocked, best, stop, Scan(ranks, all, |ranks|));
  }

  lemma UncheckedTakesAll(t: Tables, q: Query, family: set<nat>)
    requires InTable(t, family)
    ensures Allowed(t, Unchecked(q), family) == Described(t, q, family) && Blocked(t, Unchecked(q), family) == {}
    ensures Find(t, Unchecked(q), family) == Scan(Ranks(t.records), Described(t, q, family), |t.records|)
  {
    hide Describes, Scan, OperandBits.DstInWord;
    assert Described(t, Unchecked(q), family) == Described(t, q, family);
    forall i | i in Described(t, q, family) ensures Usable(Unchecked(q), t.records[i]) {}
  }

  /** The best of two disjoint candidate sets and of their union. */
  lemma Parts(ranks: seq<Rank>, enabled: set<nat>, blocked: set<nat>, best: Option<nat>, stop: Option<nat>, open: Option<nat>)
    requires IsBest(ranks, enabled, best) && IsBest(ranks, blocked, stop) && IsBest(ranks, enabled + blocked, open)
    ensures (stop.Some? && (best.None? || Outranks(ranks[stop.value], ranks[best.value])))
            <==> exists b :: b in blocked && forall e :: e in enabled ==> Outranks(ranks[b], ranks[e])
    ensures best.Some? && (stop.None? || !Outranks(ranks[stop.value], ranks[best.value])) ==>
              open.Some? && ranks[open.value] == ranks[best.value]
  {
    if stop.Some? && (best.None? || Outranks(ranks[stop.value], ranks[best.value])) {
      forall e | e in enabled ensures Outranks(ranks[stop.value], ranks[e]) {}
    }
    if b :| b in blocked && forall e :: e in enabled ==> Outranks(ranks[b], ranks[e]) {
      assert stop.Some?;
    }
  }

  // ---- the same in terms of the tables

  /** 255 asks for the whole decode space, 254 for all of it but the coprocessor part 8 and the CDE part 9. */
  predicate InSpace(recordSpace: nat, requested: nat) {
    requested == 255 || recordSpace == requested || (requested == 254 && recordSpace != 8 && recordSpace != 9)
  }

  /** The record is in the family and the space, the word has its fixed bits, and its operands decode. */
  ghost predicate Admits(t: Tables, q: Query, family: set<nat>, i: nat)
    requires InTable(t, family)
  {
    && i in family
    && InSpace(t.records[i].space, q.space)
    && And(q.word, t.records[i].pattern.mask) == t.records[i].pattern.value
    && DecodeOperands(t.regs, t.records[i], q.word, 0).Some?
  }

  ghost predicate IsEnabled(t: Tables, q: Query, i: nat)
    requires i < |t.records|
  {
    q.check ==> Ids(t.records[i].features) <= Enabled(q.engine)
  }

  predicate Above(a: Record, b: Record) {
    a.priority > b.priority || (a.priority == b.priority && a.fixedBits > b.fixedBits)
  }

  lemma DescribedIs(t: Tables, q: Query, family: set<nat>, i: nat)
    requires InTable(t, family) && i < |t.records|
    ensures i in Described(t, q, family) <==> Admits(t, q, family, i)
    ensures i in Allowed(t, q, family) <==> Admits(t, q, family, i) && IsEnabled(t, q, i)
    ensures i in Blocked(t, q, family) <==> Admits(t, q, family, i) && !IsEnabled(t, q, i)
    ensures Admits(t, q, family, i) ==> i in family && i < |t.records| && (!q.check ==> IsEnabled(t, q, i))
  {
    hide DecodeOperands, Supports, Enabled, Ids, And, OperandBits.DstInWord;
    SupportsIsInclusion(q.engine, t.records[i].features);
  }

  /** What a lookup returns: nothing exactly when no enabled record admits the word, or the lookup checks features and a
      disabled record that admits it is above every enabled one; and otherwise an enabled record that admits it, of the
      highest priority, then with the most fixed bits, then first in the table. */
  lemma FindMeaning(t: Tables, q: Query, family: set<nat>)
    requires InTable(t, family)
    ensures var found := Find(t, q, family);
            && (found.None? <==>
                  || (forall i :: i in family ==> !(Admits(t, q, family, i) && IsEnabled(t, q, i)))
                  || (exists b :: b in family && Admits(t, q, family, b) && !IsEnabled(t, q, b)
                                  && forall e :: e in family && Admits(t, q, family, e) && IsEnabled(t, q, e) ==>
                                       Above(t.records[b], t.records[e])))
            && (found.Some? ==>
                  && Admits(t, q, family, found.value) && IsEnabled(t, q, found.value)
                  && forall i :: i in family && Admits(t, q, family, i) && IsEnabled(t, q, i) ==>
                       || Above(t.records[found.value], t.records[i])
                       || (!Above(t.records[i], t.records[found.value]) && found.value <= i))
  {
    hide Describes, Usable, Scan, OperandBits.DstInWord, Admits, IsEnabled, Allowed, Blocked, Described, Find;
    Members(t, q, family);
    forall i: nat | i < |t.records| { DescribedIs(t, q, family, i); }
    AboveIsOutranks(t, family);
    if q.check {
      CheckedMeaning(t, q, family);
    } else {
      UncheckedTakesAll(t, q, family);
      BestOf(t, Described(t, q, family));
      assert Unchecked(q) == q;
    }
  }

  lemma Members(t: Tables, q: Query, family: set<nat>)
    requires InTable(t, family)
    ensures forall i :: i in Described(t, q, family) ==> i in family && i < |t.records|
    ensures Allowed(t, q, family) <= Described(t, q, family) && Blocked(t, q, family) <= Described(t, q, family)
  {
    hide Describes, OperandBits.DstInWord, Supports;
  }

  lemma AboveIsOutranks(t: Tables, family: set<nat>)
    requires InTable(t, family)
    ensures forall a, b :: 0 <= a < |t.records| && 0 <= b < |t.records| ==>
                             (Outranks(Ranks(t.records)[a], Ranks(t.records)[b]) <==> Above(t.records[a], t.records[b]))
  {
    hide OperandBits.DstInWord;
  }

  /** With more features a found word stays found, by a record of the same rank. */
  lemma FindGrows(t: Tables, q: Query, large: Config, family: set<nat>)
    requires InTable(t, family) && q.check && Find(t, q, family).Some?
    requires Enabled(q.engine) <= Enabled(large)
    ensures Find(t, q.(engine := large), family).Some?
    ensures Ranks(t.records)[Find(t, q.(engine := large), family).value] == Ranks(t.records)[Find(t, q, family).value]
  {
    hide Describes, Supports, Scan, OperandBits.DstInWord, Enabled;
    var more := q.(engine := large);
    CheckedMeaning(t, q, family);
    CheckedMeaning(t, more, family);
    var ranks, found := Ranks(t.records), Find(t, q, family).value;
    assert Described(t, more, family) == Described(t, q, family);
    forall i | i in Allowed(t, q, family) ensures i in Allowed(t, more, family) {
      SupportGrows(q.engine, large, t.records[i].features);
    }
    forall b | b in Blocked(t, more, family) ensures b in Blocked(t, q, family) {}
    assert found in Allowed(t, more, family);
    UncheckedTakesAll(t, q, family);
    UncheckedTakesAll(t, more, family);
    forall b | b in Blocked(t, more, family) ensures !Outranks(ranks[b], ranks[found]) {
      assert b in Described(t, q, family);
    }
  }

  /** With all features on, the checked and the unchecked lookup coincide. */
  lemma AllFeaturesUnchecked(t: Tables, q: Query, family: set<nat>)
    requires InTable(t, family) && q.engine.all
    ensures Find(t, q, family) == Find(t, Unchecked(q), family)
  {
    hide Describes, Supports, Scan, OperandBits.DstInWord;
    forall i | 0 <= i < |t.records| { AllSupportsAll(q.engine, t.records[i].features); }
    UncheckedTakesAll(t, q, family);
    assert Allowed(t, q, family) == Described(t, q, family);
    assert Blocked(t, q, family) == {};
    BestOf(t, Blocked(t, q, family));
  }

  /** A record that a lookup returns decodes its operands at every address: `arm_finish_td` does not
      fail on it. */
  lemma FoundDecodes(t: Tables, q: Query, family: set<nat>, address: u64)
    requires InTable(t, family) && Find(t, q, family).Some?
    ensures Find(t, q, family).value < |t.records|
    ensures DecodeOperands(t.regs, t.records[Find(t, q, family).value], q.word, address).Some?
  {
    hide DecodeOperands, Matches, Supports, OperandBits.DstInWord, Scan;
    BestOf(t, Allowed(t, q, family));
    var i := Find(t, q, family).value;
    assert i in Allowed(t, q, family);
    DecodesAnywhere(t.regs, t.records[i], q.word, 0, address);
  }
}
