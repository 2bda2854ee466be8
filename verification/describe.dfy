/** `execute` after the repository is open and the target resolved: index
    the tags, find the nearest tagged commits, measure each, keep the closest
    and format the result. */
module Describe {
  import opened CommitGraph
  import opened TagIndex
  import opened Candidates
  import opened CommitDistance
  import opened Selection
  import opened Format

  /** Every candidate the search returns is an ancestor of the target. */
  lemma NearestAreAncestors(g: Graph, rank: map<CommitId, nat>, tagged: set<CommitId>, target: CommitId)
    requires Ranked(g, rank)
    ensures NearestTagged(g, rank, tagged, target) <= Ancestors(g, rank, target)
  {
    ReachWithinAncestors(g, rank, tagged, target);
  }

  /** Appending the next wanted value to a prefix gives the next prefix. */
  lemma PrefixGrows(want: seq<int>, done: seq<int>, k: nat, x: int)
    requires k < |want| && done == want[..k] && x == want[k]
    ensures done + [x] == want[..k + 1]
  {
  }

  /** Measures every candidate, in order. */
  method MeasureAll(g: Graph, ghost rank: map<CommitId, nat>, target: CommitId, cands: seq<CommitId>)
    returns (dists: seq<int>)
    requires Ranked(g, rank) && target in g
    requires Elems(cands) <= LoadedAncestors(g, rank, target)
    ensures |dists| == |cands|
    ensures forall k :: 0 <= k < |cands| ==> dists[k] == Distance(g, rank, target, cands[k])
  {
    ghost var want := seq(|cands|, i requires 0 <= i < |cands| => Distance(g, rank, target, cands[i]));
    dists := [];
    var k := 0;
    while k < |cands|
      invariant 0 <= k <= |cands| && dists == want[..k]
    {
      assert cands[k] in Elems(cands);
      var thisdistance := DistanceBetween(g, rank, target, cands[k]);
      PrefixGrows(want, dists, k, thisdistance);
      dists := dists + [thisdistance];
      k := k + 1;
    }
    assert want[..k] == want;
  }

  /** What a correct description of `target` is: with no tag behind it, its
      abbreviation alone; otherwise the name of a nearest tagged commit at
      the smallest distance, that distance, and the abbreviation. Of several
      at the smallest distance, one the search reaches in fewest steps wins. */
  ghost predicate Describes(g: Graph, rank: map<CommitId, nat>, tags: seq<Tag>, target: CommitId, abbrev: string,
                            d: Description)
    requires Ranked(g, rank)
  {
    var index := CollectTags(tags);
    var near := NearestTagged(g, rank, index.Keys, target);
    && d.abbrev == abbrev
    && (d.Untagged? <==> near == {})
    && (d.Tagged? ==>
          exists c :: && c in near
                      && d.tag == index[c]
                      && d.distance == Distance(g, rank, target, c)
                      && (forall c' :: c' in near ==> d.distance <= Distance(g, rank, target, c'))
                      && Fewest(g, rank, index.Keys, target, c, d.distance))
  }

  /** Among the nearest tagged commits at distance `distance`, none is
      reached in fewer steps than `c`. */
  ghost predicate Fewest(g: Graph, rank: map<CommitId, nat>, tagged: set<CommitId>, target: CommitId, c: CommitId,
                         distance: int)
    requires Ranked(g, rank)
  {
    forall c', k :: && c' in NearestTagged(g, rank, tagged, target)
                    && Distance(g, rank, target, c') == distance
                    && c' in Near(g, tagged, target, k)
                    ==> c in Near(g, tagged, target, k)
  }

  /** With a single nearest tagged commit the description is determined:
      exactly that commit's tag name and distance describe the target. */
  lemma SingleCandidate(g: Graph, rank: map<CommitId, nat>, tags: seq<Tag>, target: CommitId, abbrev: string,
                        d: Description, c: CommitId)
    requires Ranked(g, rank)
    requires NearestTagged(g, rank, CollectTags(tags).Keys, target) == {c}
    ensures c in CollectTags(tags)
    ensures Describes(g, rank, tags, target, abbrev, d) <==>
            d == Tagged(CollectTags(tags)[c], Distance(g, rank, target, c), abbrev)
  {
    if Describes(g, rank, tags, target, abbrev, d) {
      SingleDescribed(g, rank, tags, target, abbrev, d, c);
    }
    if d == Tagged(CollectTags(tags)[c], Distance(g, rank, target, c), abbrev) {
      SingleDescribes(g, rank, tags, target, abbrev, c);
    }
  }

  /** Only that description is correct. */
  lemma SingleDescribed(g: Graph, rank: map<CommitId, nat>, tags: seq<Tag>, target: CommitId, abbrev: string,
                        d: Description, c: CommitId)
    requires Ranked(g, rank) && Describes(g, rank, tags, target, abbrev, d)
    requires NearestTagged(g, rank, CollectTags(tags).Keys, target) == {c}
    ensures c in CollectTags(tags)
    ensures d == Tagged(CollectTags(tags)[c], Distance(g, rank, target, c), abbrev)
  {
    var near := NearestTagged(g, rank, CollectTags(tags).Keys, target);
    assert c in near;
    var c' :| c' in near && d.tag == CollectTags(tags)[c'] && d.distance == Distance(g, rank, target, c');
  }

  /** That description is correct. */
  lemma SingleDescribes(g: Graph, rank: map<CommitId, nat>, tags: seq<Tag>, target: CommitId, abbrev: string,
                        c: CommitId)
    requires Ranked(g, rank)
    requires NearestTagged(g, rank, CollectTags(tags).Keys, target) == {c}
    ensures c in CollectTags(tags)
    ensures Describes(g, rank, tags, target, abbrev, Tagged(CollectTags(tags)[c], Distance(g, rank, target, c), abbrev))
  {
    var near := NearestTagged(g, rank, CollectTags(tags).Keys, target);
    assert c in near;
    FewestSingle(g, rank, CollectTags(tags).Keys, target, c, Distance(g, rank, target, c));
  }

  /** With two nearest tagged commits at the same distance, of which `b` is
      reached in fewer steps than `a`, a description is correct exactly when
      it names `b`: the tie goes to the commit the search finds first. */
  lemma CloserWins(g: Graph, rank: map<CommitId, nat>, tags: seq<Tag>, target: CommitId, abbrev: string,
                   d: Description, a: CommitId, b: CommitId, k: nat)
    requires Ranked(g, rank)
    requires NearestTagged(g, rank, CollectTags(tags).Keys, target) == {a, b}
    requires Distance(g, rank, target, a) == Distance(g, rank, target, b)
    requires b in Near(g, CollectTags(tags).Keys, target, k) && a !in Near(g, CollectTags(tags).Keys, target, k)
    ensures b in CollectTags(tags)
    ensures Describes(g, rank, tags, target, abbrev, d) <==>
            d == Tagged(CollectTags(tags)[b], Distance(g, rank, target, b), abbrev)
  {
    var tagged := CollectTags(tags).Keys;
    assert b in NearestTagged(g, rank, tagged, target);
    if Describes(g, rank, tags, target, abbrev, d) {
      CloserDescribed(g, rank, tags, target, abbrev, d, a, b, k);
    }
    if d == Tagged(CollectTags(tags)[b], Distance(g, rank, target, b), abbrev) {
      CloserDescribes(g, rank, tags, target, abbrev, a, b, k);
    }
  }

  /** Only the description naming `b` is correct. */
  lemma CloserDescribed(g: Graph, rank: map<CommitId, nat>, tags: seq<Tag>, target: CommitId, abbrev: string,
                        d: Description, a: CommitId, b: CommitId, k: nat)
    requires Ranked(g, rank) && Describes(g, rank, tags, target, abbrev, d)
    requires NearestTagged(g, rank, CollectTags(tags).Keys, target) == {a, b}
    requires Distance(g, rank, target, a) == Distance(g, rank, target, b)
    requires b in Near(g, CollectTags(tags).Keys, target, k) && a !in Near(g, CollectTags(tags).Keys, target, k)
    ensures d == Tagged(CollectTags(tags)[b], Distance(g, rank, target, b), abbrev)
  {
    var tagged := CollectTags(tags).Keys;
    OneOfTwo(NearestTagged(g, rank, tagged, target), a, b);
    var c := DescribedBy(g, rank, tags, target, abbrev, d);
    OneOfTwo(NearestTagged(g, rank, tagged, target), a, b);
    assert c == a || c == b;
    FewestReaches(g, rank, tagged, target, c, Distance(g, rank, target, c), b, k);
  }

  lemma OneOfTwo(s: set<CommitId>, a: CommitId, b: CommitId)
    requires s == {a, b}
    ensures b in s && forall c :: c in s ==> c == a || c == b
  {
  }

  /** The nearest tagged commit a correct description names. */
  lemma DescribedBy(g: Graph, rank: map<CommitId, nat>, tags: seq<Tag>, target: CommitId, abbrev: string,
                    d: Description)
    returns (c: CommitId)
    requires Ranked(g, rank) && Describes(g, rank, tags, target, abbrev, d)
    requires NearestTagged(g, rank, CollectTags(tags).Keys, target) != {}
    ensures c in NearestTagged(g, rank, CollectTags(tags).Keys, target) && c in CollectTags(tags)
    ensures d == Tagged(CollectTags(tags)[c], Distance(g, rank, target, c), abbrev)
    ensures Fewest(g, rank, CollectTags(tags).Keys, target, c, Distance(g, rank, target, c))
  {
    var index := CollectTags(tags);
    var near := NearestTagged(g, rank, index.Keys, target);
    c :| && c in near && d.tag == index[c] && d.distance == Distance(g, rank, target, c)
         && Fewest(g, rank, index.Keys, target, c, d.distance);
  }

  /** What `c` being reached in fewest steps says about one rival `b`. */
  lemma FewestReaches(g: Graph, rank: map<CommitId, nat>, tagged: set<CommitId>, target: CommitId, c: CommitId,
                      distance: int, b: CommitId, k: nat)
    requires Ranked(g, rank) && Fewest(g, rank, tagged, target, c, distance)
    requires b in NearestTagged(g, rank, tagged, target) && Distance(g, rank, target, b) == distance
    requires b in Near(g, tagged, target, k)
    ensures c in Near(g, tagged, target, k)
  {
  }

  /** The description naming `b` is correct. */
  lemma CloserDescribes(g: Graph, rank: map<CommitId, nat>, tags: seq<Tag>, target: CommitId, abbrev: string,
                        a: CommitId, b: CommitId, k: nat)
    requires Ranked(g, rank)
    requires NearestTagged(g, rank, CollectTags(tags).Keys, target) == {a, b}
    requires Distance(g, rank, target, a) == Distance(g, rank, target, b)
    requires b in Near(g, CollectTags(tags).Keys, target, k) && a !in Near(g, CollectTags(tags).Keys, target, k)
    ensures b in CollectTags(tags)
    ensures Describes(g, rank, tags, target, abbrev,
                      Tagged(CollectTags(tags)[b], Distance(g, rank, target, b), abbrev))
  {
    var tagged := CollectTags(tags).Keys;
    OneOfTwo(NearestTagged(g, rank, tagged, target), a, b);
    FewestCloser(g, rank, tagged, target, a, b, k, Distance(g, rank, target, b));
    TaggedDescribes(g, rank, tags, target, abbrev, b);
  }

  /** A nearest tagged commit at the least distance, reached in fewest steps
      among those at that distance, gives a correct description. */
  lemma TaggedDescribes(g: Graph, rank: map<CommitId, nat>, tags: seq<Tag>, target: CommitId, abbrev: string,
                        c: CommitId)
    requires Ranked(g, rank) && c in NearestTagged(g, rank, CollectTags(tags).Keys, target)
    requires forall c' :: c' in NearestTagged(g, rank, CollectTags(tags).Keys, target) ==>
                            Distance(g, rank, target, c) <= Distance(g, rank, target, c')
    requires Fewest(g, rank, CollectTags(tags).Keys, target, c, Distance(g, rank, target, c))
    ensures c in CollectTags(tags)
    ensures Describes(g, rank, tags, target, abbrev, Tagged(CollectTags(tags)[c], Distance(g, rank, target, c), abbrev))
  {
  }

  /** Of two nearest tagged commits, the one reached in fewer steps is
      reached in fewest steps, whatever the distance. */
  lemma FewestCloser(g: Graph, rank: map<CommitId, nat>, tagged: set<CommitId>, target: CommitId,
                     a: CommitId, b: CommitId, k: nat, distance: int)
    requires Ranked(g, rank) && NearestTagged(g, rank, tagged, target) == {a, b}
    requires b in Near(g, tagged, target, k) && a !in Near(g, tagged, target, k)
    ensures Fewest(g, rank, tagged, target, b, distance)
  {
    forall c', k' | && c' in NearestTagged(g, rank, tagged, target)
                    && Distance(g, rank, target, c') == distance
                    && c' in Near(g, tagged, target, k')
      ensures b in Near(g, tagged, target, k')
    {
      if k <= k' {
        NearMono(g, tagged, target, k, k');
      } else {
        NearMono(g, tagged, target, k', k);
      }
    }
  }

  /** A lone nearest tagged commit is trivially reached in fewest steps. */
  lemma FewestSingle(g: Graph, rank: map<CommitId, nat>, tagged: set<CommitId>, target: CommitId, c: CommitId,
                     distance: int)
    requires Ranked(g, rank) && NearestTagged(g, rank, tagged, target) == {c}
    ensures Fewest(g, rank, tagged, target, c, distance)
  {
    forall c', k | && c' in NearestTagged(g, rank, tagged, target)
                   && Distance(g, rank, target, c') == distance
                   && c' in Near(g, tagged, target, k)
      ensures c in Near(g, tagged, target, k)
    {
      assert c' == c;
    }
  }

  /** The candidate the selection keeps is at the least distance, and of
      those at that distance it is one the search reached in fewest steps,
      since the search lists candidates in breadth-first order. */
  lemma BestCandidate(g: Graph, rank: map<CommitId, nat>, tagged: set<CommitId>, target: CommitId,
                      cands: seq<CommitId>, dists: seq<int>, b: nat)
    requires Ranked(g, rank)
    requires Elems(cands) == NearestTagged(g, rank, tagged, target) && DiscoveryOrder(g, tagged, target, cands)
    requires |dists| == |cands| && forall k :: 0 <= k < |cands| ==> dists[k] == Distance(g, rank, target, cands[k])
    requires IsEarliestMin(dists, b)
    ensures forall c' :: c' in NearestTagged(g, rank, tagged, target) ==> dists[b] <= Distance(g, rank, target, c')
    ensures Fewest(g, rank, tagged, target, cands[b], dists[b])
  {
    var near := NearestTagged(g, rank, tagged, target);
    forall c' | c' in near
      ensures dists[b] <= Distance(g, rank, target, c')
    {
      var j :| 0 <= j < |cands| && cands[j] == c';
      assert dists[b] <= dists[j];
    }
    forall c', k | && c' in near && Distance(g, rank, target, c') == dists[b]
                   && c' in Near(g, tagged, target, k)
      ensures cands[b] in Near(g, tagged, target, k)
    {
      var j :| 0 <= j < |cands| && cands[j] == c';
      if b < j {
        assert cands[j] in Near(g, tagged, target, k);
      }
    }
  }

  /** `execute` from the tag index on: the result is a correct description,
      rendered. A tagged target is described by its own tag at distance 0. */
  method Describe(g: Graph, ghost rank: map<CommitId, nat>, tags: seq<Tag>, target: CommitId, abbrev: string)
    returns (d: Description, out: string)
    requires Ranked(g, rank) && target in g
    ensures Describes(g, rank, tags, target, abbrev, d) && out == Render(d)
    ensures target in CollectTags(tags) ==> d == Tagged(CollectTags(tags)[target], 0, abbrev)
  {
    var index := CollectTags(tags);
    var cands := CandidateCommits(g, rank, index, target);
    ghost var near := NearestTagged(g, rank, index.Keys, target);
    NearestAreAncestors(g, rank, index.Keys, target);
    var dists := MeasureAll(g, rank, target, cands);
    var best, distance := PickBest(dists);
    if best.Some? {
      var c := cands[best.value];
      assert c in Elems(cands);
      d := Tagged(index[c], distance, abbrev);
      BestCandidate(g, rank, index.Keys, target, cands, dists, best.value);
    } else {
      assert Elems<CommitId>([]) == {};
      d := Untagged(abbrev);
    }
    out := Render(d);
  }
}
