/** The three-level bucket index in front of a record table.

    A64, A32, 32-bit Thumb and 16-bit Thumb each have one such index.  A word selects at most
    one primary bucket and at most one fallback bucket by binary search over sorted keys, and
    always the second fallback list; inside each of them a sub-bucket search may narrow the
    records further.  The generated tables are a parameter here: `WellFormed` says what they
    must satisfy, and `Complete` proves that a well-formed index loses no record. */
module DecodeIndex {
  import opened Bits
  import opened Wrappers

  /** The fixed bits of one record: a word belongs to it when `word & mask == value`. */
  datatype Pattern = Pattern(mask: u32, value: u32)

  datatype Range = Range(key: u32, first: nat, count: nat)

  datatype SubDesc = SubDesc(mask: u32, first: nat, count: nat, fallbackFirst: nat, fallbackCount: nat)

  datatype Level = Level(mask: u32, buckets: seq<Range>, subdescs: seq<SubDesc>, indices: seq<nat>)

  datatype Index = Index(
    primary: Level,
    fallback: Level,
    lastDesc: SubDesc,
    lastIndices: seq<nat>,
    subbuckets: seq<Range>,
    subIndices: seq<nat>,
    subFallback: seq<nat>)

  predicate Matches(p: Pattern, word: u32) {
    And(word, p.mask) == p.value
  }

  // ---- binary search

  predicate Sorted(ranges: seq<Range>, lo: nat, hi: nat)
    requires lo <= hi <= |ranges|
  {
    forall i, j :: lo <= i < j < hi ==> ranges[i].key < ranges[j].key
  }

  /** The position of `key` among the keys of `ranges[lo..hi]`. */
  function KeyAt(ranges: seq<Range>, lo: nat, hi: nat, key: u32): (r: Option<nat>)
    requires lo <= hi <= |ranges|
    ensures r.Some? ==> lo <= r.value < hi && ranges[r.value].key == key
    ensures r.None? ==> forall i :: lo <= i < hi ==> ranges[i].key != key
    decreases hi - lo
  {
    if lo == hi then None
    else if ranges[lo].key == key then Some(lo)
    else KeyAt(ranges, lo + 1, hi, key)
  }

  /** The lower-bound search shared by the bucket and sub-bucket lookups. */
  method FindKey(ranges: seq<Range>, first: nat, end: nat, key: u32) returns (found: Option<nat>)
    requires first <= end <= |ranges| && Sorted(ranges, first, end)
    ensures found == KeyAt(ranges, first, end, key)
  {
    var lo, hi := first, end;
    while lo < hi
      invariant first <= lo <= hi <= end
      invariant forall i :: first <= i < lo ==> ranges[i].key < key
      invariant forall i :: hi <= i < end ==> ranges[i].key >= key
    {
      var mid := lo + (hi - lo) / 2;
      if ranges[mid].key < key {
        lo := mid + 1;
      } else {
        hi := mid;
      }
    }
    if lo < end && ranges[lo].key == key {
      found := Some(lo);
    } else {
      found := None;
    }
  }

  method FindSubbucket(ix: Index, desc: SubDesc, word: u32) returns (found: Option<nat>)
    requires DescInRange(ix, desc)
    ensures found == SubbucketAt(ix, desc, word)
  {
    if desc.mask == 0 || desc.count == 0 {
      return None;
    }
    var key := And(word, desc.mask);
    AndAtMost(word, desc.mask);
    found := FindKey(ix.subbuckets, desc.first, desc.first + desc.count, key);
  }

  // ---- what a lookup visits

  ghost function Slice(indices: seq<nat>, first: nat, count: nat): set<nat>
    requires first + count <= |indices|
  {
    set k | first <= k < first + count :: indices[k]
  }

  lemma SliceOneMore(indices: seq<nat>, first: nat, count: nat)
    requires first + count < |indices|
    ensures Slice(indices, first, count + 1) == Slice(indices, first, count) + {indices[first + count]}
  {
  }

  lemma NoSlice(indices: seq<nat>, first: nat)
    requires first <= |indices|
    ensures Slice(indices, first, 0) == {}
  {
  }

  function SubbucketAt(ix: Index, desc: SubDesc, word: u32): (r: Option<nat>)
    requires DescInRange(ix, desc)
    ensures r.Some? ==> r.value < |ix.subbuckets|
  {
    AndAtMost(word, desc.mask);
    if desc.mask == 0 || desc.count == 0 then None
    else KeyAt(ix.subbuckets, desc.first, desc.first + desc.count, And(word, desc.mask))
  }

  function BucketAt(level: Level, word: u32): (r: Option<nat>)
    ensures r.Some? ==> r.value < |level.buckets|
  {
    AndAtMost(word, level.mask);
    KeyAt(level.buckets, 0, |level.buckets|, And(word, level.mask))
  }

  /** The records visited in one bucket. */
  ghost function BucketReach(ix: Index, desc: SubDesc, base: seq<nat>, first: nat, count: nat, word: u32): set<nat>
    requires SubtablesInRange(ix) && DescInRange(ix, desc) && first + count <= |base|
  {
    if desc.mask == 0 then Slice(base, first, count)
    else
      var sub := SubbucketAt(ix, desc, word);
      (if sub.None? then {} else
         var r := ix.subbuckets[sub.value]; Slice(ix.subIndices, r.first, r.count))
      + Slice(ix.subFallback, desc.fallbackFirst, desc.fallbackCount)
  }

  ghost function LevelReach(ix: Index, level: Level, word: u32): set<nat>
    requires SubtablesInRange(ix) && LevelInRange(ix, level)
  {
    var b := BucketAt(level, word);
    if b.None? then {} else
      var r := level.buckets[b.value];
      BucketReach(ix, level.subdescs[b.value], level.indices, r.first, r.count, word)
  }

  /** Every record index that a lookup of `word` visits. */
  ghost function Reach(ix: Index, word: u32): set<nat>
    requires InRange(ix)
  {
    LevelReach(ix, ix.primary, word)
    + LevelReach(ix, ix.fallback, word)
    + BucketReach(ix, ix.lastDesc, ix.lastIndices, 0, |ix.lastIndices|, word)
  }

  // ---- well-formed tables

  predicate DescInRange(ix: Index, desc: SubDesc) {
    && desc.first + desc.count <= |ix.subbuckets|
    && Sorted(ix.subbuckets, desc.first, desc.first + desc.count)
    && desc.fallbackFirst + desc.fallbackCount <= |ix.subFallback|
  }

  predicate SubtablesInRange(ix: Index) {
    forall k :: 0 <= k < |ix.subbuckets| ==> ix.subbuckets[k].first + ix.subbuckets[k].count <= |ix.subIndices|
  }

  predicate LevelInRange(ix: Index, level: Level) {
    && |level.subdescs| == |level.buckets|
    && Sorted(level.buckets, 0, |level.buckets|)
    && (forall b :: 0 <= b < |level.buckets| ==> level.buckets[b].first + level.buckets[b].count <= |level.indices|)
    && (forall b :: 0 <= b < |level.subdescs| ==> DescInRange(ix, level.subdescs[b]))
  }

  predicate InRange(ix: Index) {
    && SubtablesInRange(ix)
    && LevelInRange(ix, ix.primary)
    && LevelInRange(ix, ix.fallback)
    && DescInRange(ix, ix.lastDesc)
  }

  /** `p` fixes every bit that the key mask `m` looks at, and its value has the key `key`. */
  predicate Keyed(p: Pattern, m: u32, key: u32) {
    AndNot(m, p.mask) == 0 && And(p.value, m) == key
  }

  /** Record `i` sits in this bucket: in its plain list, in the sub-bucket of its own key, or in
      the sub-bucket fallback list. */
  ghost predicate FiledInBucket(ix: Index, desc: SubDesc, base: seq<nat>, first: nat, count: nat, p: Pattern, i: nat)
    requires SubtablesInRange(ix) && DescInRange(ix, desc) && first + count <= |base|
  {
    if desc.mask == 0 then i in Slice(base, first, count)
    else
      || i in Slice(ix.subFallback, desc.fallbackFirst, desc.fallbackCount)
      || exists s :: desc.first <= s < desc.first + desc.count
                     && Keyed(p, desc.mask, ix.subbuckets[s].key)
                     && i in Slice(ix.subIndices, ix.subbuckets[s].first, ix.subbuckets[s].count)
  }

  ghost predicate FiledInLevel(ix: Index, level: Level, p: Pattern, i: nat)
    requires SubtablesInRange(ix) && LevelInRange(ix, level)
  {
    exists b :: 0 <= b < |level.buckets|
                && Keyed(p, level.mask, level.buckets[b].key)
                && FiledInBucket(ix, level.subdescs[b], level.indices, level.buckets[b].first, level.buckets[b].count, p, i)
  }

  ghost predicate Filed(ix: Index, p: Pattern, i: nat)
    requires InRange(ix)
  {
    || FiledInLevel(ix, ix.primary, p, i)
    || FiledInLevel(ix, ix.fallback, p, i)
    || FiledInBucket(ix, ix.lastDesc, ix.lastIndices, 0, |ix.lastIndices|, p, i)
  }

  predicate AllIn(indices: seq<nat>, family: set<nat>) {
    forall k :: 0 <= k < |indices| ==> indices[k] in family
  }

  /** The index serves the records `family` of the table: ranges fit, keys are sorted, only those
      records are listed, and each is filed under a key that its own mask and value imply. */
  ghost predicate WellFormed(ix: Index, patterns: seq<Pattern>, family: set<nat>) {
    && InRange(ix)
    && (forall i :: i in family ==> i < |patterns|)
    && AllIn(ix.primary.indices, family)
    && AllIn(ix.fallback.indices, family)
    && AllIn(ix.lastIndices, family)
    && AllIn(ix.subIndices, family)
    && AllIn(ix.subFallback, family)
    && (forall i :: i in family ==> Filed(ix, patterns[i], i))
  }

  // ---- completeness

  /** A word of the pattern has the pattern's key under every mask the pattern covers. */
  lemma KeyOfWord(p: Pattern, m: u32, word: u32)
    requires Matches(p, word) && AndNot(m, p.mask) == 0
    ensures And(word, m) == And(p.value, m)
  {
    AndNotBits(m, p.mask);
    AndBits(word, p.mask);
    AndBits(word, m);
    AndBits(p.value, m);
    forall i: nat ensures Bit(And(word, m), i) == Bit(And(p.value, m), i) {
      BitZero(i);
      assert Bit(AndNot(m, p.mask), i) == Bit(0, i);
    }
    SameBits(And(word, m), And(p.value, m));
  }

  /** A sorted key occurs once, so the search finds the position where it is. */
  lemma {:induction false} KeyAtUnique(ranges: seq<Range>, lo: nat, hi: nat, at: nat)
    requires lo <= at < hi <= |ranges| && Sorted(ranges, lo, hi)
    ensures KeyAt(ranges, lo, hi, ranges[at].key) == Some(at)
  {
    var r := KeyAt(ranges, lo, hi, ranges[at].key);
    assert r.Some?;
    assert !(r.value < at) && !(at < r.value);
  }

  lemma BucketComplete(ix: Index, desc: SubDesc, base: seq<nat>, first: nat, count: nat, p: Pattern, i: nat, word: u32)
    requires SubtablesInRange(ix) && DescInRange(ix, desc) && first + count <= |base|
    requires FiledInBucket(ix, desc, base, first, count, p, i) && Matches(p, word)
    ensures i in BucketReach(ix, desc, base, first, count, word)
  {
    if desc.mask != 0 && i !in Slice(ix.subFallback, desc.fallbackFirst, desc.fallbackCount) {
      var s :| desc.first <= s < desc.first + desc.count
               && Keyed(p, desc.mask, ix.subbuckets[s].key)
               && i in Slice(ix.subIndices, ix.subbuckets[s].first, ix.subbuckets[s].count);
      KeyOfWord(p, desc.mask, word);
      KeyAtUnique(ix.subbuckets, desc.first, desc.first + desc.count, s);
    }
  }

  lemma LevelComplete(ix: Index, level: Level, p: Pattern, i: nat, word: u32)
    requires SubtablesInRange(ix) && LevelInRange(ix, level)
    requires FiledInLevel(ix, level, p, i) && Matches(p, word)
    ensures i in LevelReach(ix, level, word)
  {
    var b :| 0 <= b < |level.buckets|
             && Keyed(p, level.mask, level.buckets[b].key)
             && FiledInBucket(ix, level.subdescs[b], level.indices, level.buckets[b].first, level.buckets[b].count, p, i);
    KeyOfWord(p, level.mask, word);
    KeyAtUnique(level.buckets, 0, |level.buckets|, b);
    BucketComplete(ix, level.subdescs[b], level.indices, level.buckets[b].first, level.buckets[b].count, p, i, word);
  }

  /** A lookup visits every record of the family whose pattern the word matches, and visits no
      record outside the family. */
  lemma Complete(ix: Index, patterns: seq<Pattern>, family: set<nat>, word: u32)
    requires WellFormed(ix, patterns, family)
    ensures Reach(ix, word) <= family
    ensures forall i :: i in family && Matches(patterns[i], word) ==> i in Reach(ix, word)
  {
    forall i | i in family && Matches(patterns[i], word) ensures i in Reach(ix, word) {
      var p := patterns[i];
      if FiledInLevel(ix, ix.primary, p, i) {
        LevelComplete(ix, ix.primary, p, i, word);
      } else if FiledInLevel(ix, ix.fallback, p, i) {
        LevelComplete(ix, ix.fallback, p, i, word);
      } else {
        BucketComplete(ix, ix.lastDesc, ix.lastIndices, 0, |ix.lastIndices|, p, i, word);
      }
    }
  }
}
