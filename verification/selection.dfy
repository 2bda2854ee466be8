/** The best-match loop of `execute`: the candidate with the smallest
    distance wins, and of several with that distance the first one listed,
    since a later candidate replaces the best only when strictly closer. */
module Selection {
  import opened Wrappers

  /** `i` is the earliest index of a smallest entry of `dists`. */
  ghost predicate IsEarliestMin(dists: seq<int>, i: nat) {
    && i < |dists|
    && (forall j :: 0 <= j < |dists| ==> dists[i] <= dists[j])
    && (forall j :: 0 <= j < i ==> dists[i] < dists[j])
  }

  /** Picks the index of the best candidate from the candidates' distances.
      With no candidates there is no best and the distance stays 0. */
  method PickBest(dists: seq<int>) returns (best: Option<nat>, distance: int)
    ensures best.None? <==> |dists| == 0
    ensures best.None? ==> distance == 0
    ensures best.Some? ==> IsEarliestMin(dists, best.value) && distance == dists[best.value]
  {
    best := None;
    distance := 0;
    var k := 0;
    while k < |dists|
      invariant 0 <= k <= |dists|
      invariant best.None? <==> k == 0
      invariant best.None? ==> distance == 0
      invariant best.Some? ==> IsEarliestMin(dists[..k], best.value) && distance == dists[best.value]
    {
      var thisdistance := dists[k];
      if best == None || thisdistance < distance {
        best := Some(k);
        distance := thisdistance;
      }
      k := k + 1;
    }
    assert dists[..k] == dists;
  }

  /** The earliest minimum is unique, so the contract above fixes the choice. */
  lemma EarliestMinUnique(dists: seq<int>, i: nat, j: nat)
    requires IsEarliestMin(dists, i) && IsEarliestMin(dists, j)
    ensures i == j
  {
    assert dists[i] == dists[j];
    assert !(j < i) && !(i < j);
  }
}
