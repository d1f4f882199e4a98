/** The best of a set of candidate records: the order that the running "best so far" of the
    lookups follows, and a plain scan over the whole table to compare them with. */
module Selection {
  import opened Wrappers

  datatype Rank = Rank(priority: nat, fixedBits: nat)

  predicate Outranks(a: Rank, b: Rank) {
    a.priority > b.priority || (a.priority == b.priority && a.fixedBits > b.fixedBits)
  }

  /** Record `i` is preferred to record `j`: a higher rank, or the same rank and a lower index. */
  predicate Better(ranks: seq<Rank>, i: nat, j: nat)
    requires i < |ranks| && j < |ranks|
  {
    Outranks(ranks[i], ranks[j]) || (ranks[i] == ranks[j] && i < j)
  }

  ghost predicate IsBest(ranks: seq<Rank>, candidates: set<nat>, best: Option<nat>) {
    && (forall i :: i in candidates ==> i < |ranks|)
    && (best.None? ==> candidates == {})
    && (best.Some? ==> best.value in candidates
                       && forall i :: i in candidates ==> i == best.value || Better(ranks, best.value, i))
  }

  /** The scan over all records in table order. */
  ghost function Scan(ranks: seq<Rank>, candidates: set<nat>, n: nat): (best: Option<nat>)
    requires n <= |ranks|
    ensures best.Some? ==> best.value < n && best.value in candidates
  {
    if n == 0 then None
    else
      var before := Scan(ranks, candidates, n - 1);
      if n - 1 in candidates && (before.None? || Better(ranks, n - 1, before.value)) then Some(n - 1) else before
  }

  ghost function Below(candidates: set<nat>, n: nat): set<nat> {
    set i | i in candidates && i < n
  }

  lemma {:induction false} ScanIsBest(ranks: seq<Rank>, candidates: set<nat>, n: nat)
    requires n <= |ranks|
    ensures IsBest(ranks, Below(candidates, n), Scan(ranks, candidates, n))
    decreases n
  {
    if n > 0 {
      ScanIsBest(ranks, candidates, n - 1);
      assert Below(candidates, n) == Below(candidates, n - 1) + if n - 1 in candidates then {n - 1} else {};
    }
  }

  /** There is one best candidate: any search that ends in it agrees with the scan, in whatever
      order and however often it looked at the records. */
  lemma BestIsScan(ranks: seq<Rank>, candidates: set<nat>, best: Option<nat>)
    requires IsBest(ranks, candidates, best)
    ensures best == Scan(ranks, candidates, |ranks|)
  {
    ScanIsBest(ranks, candidates, |ranks|);
    assert Below(candidates, |ranks|) == candidates;
  }

  /** One more candidate: the rule of `a64_consider_td_record` and `arm_consider_td_record`. */
  lemma OneMore(ranks: seq<Rank>, candidates: set<nat>, best: Option<nat>, i: nat)
    requires IsBest(ranks, candidates, best) && i < |ranks|
    ensures IsBest(ranks, candidates + {i}, if best.None? || Better(ranks, i, best.value) then Some(i) else best)
  {
  }
}
