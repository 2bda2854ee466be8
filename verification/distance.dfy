/** `distanceBetween`: a breadth-first walk from the target that counts every
    commit it dequeues, except that on reaching the candidate it marks all of
    the candidate's ancestors as seen and takes back the ones it had already
    counted. */
module CommitDistance {
  import opened CommitGraph
  import AncestorWalk

  /** The parent loop of the walk: the loadable parents of a commit that are
      not yet seen, in order. Unlike the tag search it does not mark them. */
  method UnseenLoadable(g: Graph, ps: seq<CommitId>, seena: set<CommitId>) returns (more: seq<CommitId>)
    ensures Elems(more) == Elems(ps) * g.Keys - seena
  {
    more := [];
    var j := 0;
    while j < |ps|
      invariant 0 <= j <= |ps|
      invariant Elems(more) == Elems(ps[..j]) * g.Keys - seena
    {
      var oid := ps[j];
      assert ps[..j + 1] == ps[..j] + [oid];
      ElemsConcat(ps[..j], [oid]);
      if oid !in seena && oid in g {
        ElemsConcat(more, [oid]);
        more := more + [oid];
      }
      j := j + 1;
    }
    assert ps[..j] == ps;
  }

  /** The correction loop: one less for every id of `seenb` already in `seena`. */
  method TakeBack(distance: int, seenb: set<CommitId>, seena: set<CommitId>) returns (d: int)
    ensures d == distance - |seenb * seena|
  {
    d := distance;
    var pending := seenb;
    while pending != {}
      invariant pending <= seenb
      invariant d == distance - |(seenb - pending) * seena|
      decreases |pending|
    {
      var oid :| oid in pending;
      ghost var took := (seenb - pending) * seena;
      assert oid !in took;
      if oid in seena {
        assert (seenb - (pending - {oid})) * seena == took + {oid};
        d := d - 1;
      } else {
        assert (seenb - (pending - {oid})) * seena == took;
      }
      pending := pending - {oid};
    }
    assert seenb - pending == seenb;
  }

  /** The set part of what the walk knows between iterations. `loaded` stands
      for the loadable ancestors of the target, `ancP` for the ancestors of the
      candidate, `counted` for the commits counted so far and `queued` for the
      queue's elements. Once the candidate is seen, so are all its ancestors. */
  ghost predicate Tracked(loaded: set<CommitId>, ancP: set<CommitId>, child: CommitId, parent: CommitId,
                          counted: set<CommitId>, seena: set<CommitId>, queued: set<CommitId>)
  {
    && queued <= loaded && counted <= loaded && parent !in counted
    && child in seena + queued
    && (parent !in seena ==> seena == counted)
    && (parent in seena ==> parent in loaded && seena == counted + ancP)
  }

  /** The count part: before the candidate is reached `distance` counts
      `counted`; after, the counted ancestors of the candidate are taken back. */
  ghost predicate Tally(ancP: set<CommitId>, parent: CommitId, counted: set<CommitId>, seena: set<CommitId>,
                        seenb: set<CommitId>, distance: int)
  {
    && (parent !in seena ==> seenb == {} && distance == |counted|)
    && (parent in seena ==> distance == |counted - ancP|)
  }

  /** Every loadable parent of a counted commit is in `seen`. */
  ghost predicate Expanded(g: Graph, counted: set<CommitId>, seen: set<CommitId>)
    requires counted <= g.Keys
  {
    forall n, p :: n in counted && p in g[n] && p in g ==> p in seen
  }

  /** A commit dequeued a second time is skipped. */
  lemma SkipTracked(loaded: set<CommitId>, ancP: set<CommitId>, child: CommitId, parent: CommitId,
                    counted: set<CommitId>, seena: set<CommitId>, commit: CommitId, rest: set<CommitId>)
    requires Tracked(loaded, ancP, child, parent, counted, seena, {commit} + rest) && commit in seena
    ensures Tracked(loaded, ancP, child, parent, counted, seena, rest)
    ensures seena + rest == seena + ({commit} + rest)
  {
  }

  /** Reaching the candidate marks all its ancestors seen. */
  lemma FoundTracked(loaded: set<CommitId>, ancP: set<CommitId>, child: CommitId, parent: CommitId,
                     counted: set<CommitId>, seena: set<CommitId>, rest: set<CommitId>, seenb: set<CommitId>)
    requires Tracked(loaded, ancP, child, parent, counted, seena, {parent} + rest) && parent !in seena
    requires parent in ancP && seenb == ancP - {parent}
    ensures Tracked(loaded, ancP, child, parent, counted, seena + {parent} + seenb, rest)
    ensures seena + ({parent} + rest) <= (seena + {parent} + seenb) + rest
    ensures |loaded - (seena + {parent} + seenb)| < |loaded - seena|
  {
    UnseenDecreases(loaded, seena, seena + {parent} + seenb, parent);
  }

  /** Taking back the counted ancestors of the candidate. */
  lemma FoundTally(ancP: set<CommitId>, parent: CommitId, counted: set<CommitId>, seena: set<CommitId>,
                   distance: int, seenb: set<CommitId>, distance': int)
    requires Tally(ancP, parent, counted, seena, {}, distance) && parent !in seena && seena == counted
    requires parent in ancP && seenb == ancP - {parent}
    requires distance' == distance - |seenb * (seena + {parent})|
    ensures Tally(ancP, parent, counted, seena + {parent} + seenb, seenb, distance')
  {
    assert seenb * (seena + {parent}) == counted * ancP;
    assert counted == (counted - ancP) + counted * ancP;
    assert (counted - ancP) * (counted * ancP) == {};
  }

  /** Counting a commit seen for the first time and queuing its unseen
      loadable parents `more`. */
  lemma CountTracked(loaded: set<CommitId>, ancP: set<CommitId>, child: CommitId, parent: CommitId,
                     counted: set<CommitId>, seena: set<CommitId>, commit: CommitId, rest: set<CommitId>,
                     more: set<CommitId>)
    requires Tracked(loaded, ancP, child, parent, counted, seena, {commit} + rest)
    requires commit !in seena && commit != parent && more <= loaded
    ensures Tracked(loaded, ancP, child, parent, counted + {commit}, seena + {commit}, rest + more)
    ensures |loaded - (seena + {commit})| < |loaded - seena|
    ensures commit !in counted && (parent in seena ==> commit !in ancP)
  {
    UnseenDecreases(loaded, seena, seena + {commit}, commit);
  }

  /** A newly counted commit adds one to the tally. */
  lemma CountTally(ancP: set<CommitId>, parent: CommitId, counted: set<CommitId>, seena: set<CommitId>,
                   seenb: set<CommitId>, distance: int, commit: CommitId)
    requires Tally(ancP, parent, counted, seena, seenb, distance)
    requires commit !in seena && commit != parent && commit !in counted
    requires parent in seena ==> commit !in ancP
    ensures Tally(ancP, parent, counted + {commit}, seena + {commit}, seenb, distance + 1)
  {
    if parent in seena {
      assert counted + {commit} - ancP == (counted - ancP) + {commit};
    }
  }

  /** After counting `commit`, the counted commits' loadable parents are all
      seen or queued. */
  lemma CountEdges(g: Graph, commit: CommitId, counted: set<CommitId>, seena: set<CommitId>,
                   rest: set<CommitId>, more: set<CommitId>)
    requires commit in g && counted <= g.Keys && more == Elems(g[commit]) * g.Keys - (seena + {commit})
    requires Expanded(g, counted, seena + ({commit} + rest))
    ensures Expanded(g, counted + {commit}, (seena + {commit}) + (rest + more))
  {
    forall n, p | n in counted + {commit} && p in g[n] && p in g
      ensures p in (seena + {commit}) + (rest + more)
    {
      if n == commit {
        assert p in Elems(g[commit]);
      }
    }
  }

  /** Seeing more keeps the counted commits expanded. */
  lemma ExpandedMore(g: Graph, counted: set<CommitId>, seen: set<CommitId>, seen': set<CommitId>)
    requires counted <= g.Keys && Expanded(g, counted, seen) && seen <= seen'
    ensures Expanded(g, counted, seen')
  {
  }

  /** Everything the walk knows between iterations. */
  ghost predicate Walking(g: Graph, loaded: set<CommitId>, ancP: set<CommitId>, child: CommitId, parent: CommitId,
                          counted: set<CommitId>, seena: set<CommitId>, seenb: set<CommitId>,
                          q: seq<CommitId>, distance: int)
  {
    && Tracked(loaded, ancP, child, parent, counted, seena, Elems(q))
    && Tally(ancP, parent, counted, seena, seenb, distance)
    && counted <= g.Keys && Expanded(g, counted, seena + Elems(q))
  }

  /** The walk starts with only the target queued. */
  lemma WalkStart(g: Graph, rank: map<CommitId, nat>, child: CommitId, parent: CommitId)
    requires Ranked(g, rank) && child in g
    ensures Walking(g, LoadedAncestors(g, rank, child), Ancestors(g, rank, parent), child, parent,
                    {}, {}, {}, [child], 0)
    ensures parent in Ancestors(g, rank, parent)
  {
    assert Elems([child]) == {child};
    assert child in Ancestors(g, rank, child);
  }

  /** Skipping a commit seen before keeps the walk state. */
  lemma SkipStep(g: Graph, loaded: set<CommitId>, ancP: set<CommitId>, child: CommitId, parent: CommitId,
                 counted: set<CommitId>, seena: set<CommitId>, seenb: set<CommitId>,
                 q: seq<CommitId>, distance: int)
    requires Walking(g, loaded, ancP, child, parent, counted, seena, seenb, q, distance)
    requires |q| > 0 && q[0] in seena
    ensures Walking(g, loaded, ancP, child, parent, counted, seena, seenb, q[1..], distance)
  {
    ElemsHead(q);
    SkipTracked(loaded, ancP, child, parent, counted, seena, q[0], Elems(q[1..]));
  }

  /** Reaching the candidate keeps the walk state and grows the seen set. */
  lemma FoundStep(g: Graph, rank: map<CommitId, nat>, child: CommitId, parent: CommitId,
                  counted: set<CommitId>, seena: set<CommitId>, seenb: set<CommitId>,
                  q: seq<CommitId>, distance: int, seenb': set<CommitId>, distance': int)
    requires Ranked(g, rank)
    requires Walking(g, LoadedAncestors(g, rank, child), Ancestors(g, rank, parent), child, parent,
                     counted, seena, seenb, q, distance)
    requires |q| > 0 && q[0] == parent && parent !in seena
    requires seenb' == seenb + StrictAncestors(g, rank, parent)
    requires distance' == distance - |seenb' * (seena + {parent})|
    ensures Walking(g, LoadedAncestors(g, rank, child), Ancestors(g, rank, parent), child, parent,
                    counted, seena + {parent} + seenb', seenb', q[1..], distance')
    ensures |LoadedAncestors(g, rank, child) - (seena + {parent} + seenb')|
          < |LoadedAncestors(g, rank, child) - seena|
  {
    var loaded, ancP := LoadedAncestors(g, rank, child), Ancestors(g, rank, parent);
    assert parent in ancP;
    assert seenb' == ancP - {parent};
    ElemsHead(q);
    FoundTracked(loaded, ancP, child, parent, counted, seena, Elems(q[1..]), seenb');
    FoundTally(ancP, parent, counted, seena, distance, seenb', distance');
    ExpandedMore(g, counted, seena + Elems(q), (seena + {parent} + seenb') + Elems(q[1..]));
  }

  /** Counting a new commit keeps the walk state and grows the seen set. */
  lemma CountStep(g: Graph, rank: map<CommitId, nat>, child: CommitId, parent: CommitId,
                  counted: set<CommitId>, seena: set<CommitId>, seenb: set<CommitId>,
                  q: seq<CommitId>, distance: int, more: seq<CommitId>)
    requires Ranked(g, rank)
    requires Walking(g, LoadedAncestors(g, rank, child), Ancestors(g, rank, parent), child, parent,
                     counted, seena, seenb, q, distance)
    requires |q| > 0 && q[0] in g && q[0] !in seena && q[0] != parent && child in g
    requires Elems(more) == Elems(g[q[0]]) * g.Keys - (seena + {q[0]})
    ensures Walking(g, LoadedAncestors(g, rank, child), Ancestors(g, rank, parent), child, parent,
                    counted + {q[0]}, seena + {q[0]}, seenb, q[1..] + more, distance + 1)
    ensures |LoadedAncestors(g, rank, child) - (seena + {q[0]})| < |LoadedAncestors(g, rank, child) - seena|
  {
    var commit, loaded, ancP := q[0], LoadedAncestors(g, rank, child), Ancestors(g, rank, parent);
    ElemsHead(q);
    ParentsInRegion(g, rank, {}, child, commit);
    ElemsConcat(q[1..], more);
    CountTracked(loaded, ancP, child, parent, counted, seena, commit, Elems(q[1..]), Elems(more));
    CountTally(ancP, parent, counted, seena, seenb, distance, commit);
    CountEdges(g, commit, counted, seena, Elems(q[1..]), Elems(more));
  }

  /** When the queue is empty the count is the describe distance, or, if the
      candidate is not an ancestor at all, the number of loadable ancestors. */
  lemma DistanceComplete(g: Graph, rank: map<CommitId, nat>, child: CommitId, parent: CommitId,
                         counted: set<CommitId>, seena: set<CommitId>, seenb: set<CommitId>, distance: int)
    requires Ranked(g, rank) && child in g
    requires Walking(g, LoadedAncestors(g, rank, child), Ancestors(g, rank, parent), child, parent,
                     counted, seena, seenb, [], distance)
    ensures parent in Ancestors(g, rank, child) ==> distance == Distance(g, rank, child, parent)
    ensures parent !in Ancestors(g, rank, child) ==> distance == |LoadedAncestors(g, rank, child)|
  {
    assert Elems<CommitId>([]) == {};
    if parent !in seena {
      NeverFound(g, rank, child, parent, counted);
    } else {
      FoundAndTakenBack(g, rank, child, parent, counted, seena);
    }
  }

  /** A walk that never met the candidate counted every loadable ancestor;
      the candidate was then not a loadable ancestor. */
  lemma NeverFound(g: Graph, rank: map<CommitId, nat>, child: CommitId, parent: CommitId, counted: set<CommitId>)
    requires Ranked(g, rank) && child in g && child in counted && parent !in counted
    requires counted <= LoadedAncestors(g, rank, child) && Expanded(g, counted, counted)
    ensures counted == LoadedAncestors(g, rank, child)
    ensures parent in Ancestors(g, rank, child) ==> |counted| == Distance(g, rank, child, parent)
  {
    assert Closed(g, {}, counted);
    ReachWithin(g, rank, {}, counted, child);
    if parent in Ancestors(g, rank, child) {
      assert parent !in g;
      assert LoadedAncestors(g, rank, parent) == {};
    }
  }

  /** A walk that met the candidate counted exactly the loadable ancestors of
      the target outside the candidate's ancestors. */
  lemma FoundAndTakenBack(g: Graph, rank: map<CommitId, nat>, child: CommitId, parent: CommitId,
                          counted: set<CommitId>, seena: set<CommitId>)
    requires Ranked(g, rank) && child in g && child in seena
    requires counted <= LoadedAncestors(g, rank, child) && seena == counted + Ancestors(g, rank, parent)
    requires Expanded(g, counted, seena)
    ensures counted - Ancestors(g, rank, parent)
         == LoadedAncestors(g, rank, child) - LoadedAncestors(g, rank, parent)
  {
    var below := LoadedAncestors(g, rank, parent);
    CandidateClosed(g, rank, parent);
    assert Closed(g, {}, counted + below);
    ReachWithin(g, rank, {}, counted + below, child);
  }

  /** The loadable ancestors of a commit are closed under parent edges. */
  lemma CandidateClosed(g: Graph, rank: map<CommitId, nat>, c: CommitId)
    requires Ranked(g, rank)
    ensures Closed(g, {}, LoadedAncestors(g, rank, c))
  {
    forall n, p | n in LoadedAncestors(g, rank, c) && p in g[n] && p in g
      ensures p in LoadedAncestors(g, rank, c)
    {
      ReachStep(g, rank, {}, c, n, p);
    }
  }

  /** A commit is at distance 0 from itself. */
  lemma DistanceToSelf(g: Graph, rank: map<CommitId, nat>, c: CommitId)
    requires Ranked(g, rank)
    ensures Distance(g, rank, c, c) == 0
  {
  }

  /** Measured from a strict ancestor, the target itself is counted, so the
      distance is at least 1. */
  lemma DistanceCountsTarget(g: Graph, rank: map<CommitId, nat>, child: CommitId, parent: CommitId)
    requires Ranked(g, rank) && child in g && parent in StrictAncestors(g, rank, child)
    ensures child in LoadedAncestors(g, rank, child) - LoadedAncestors(g, rank, parent)
    ensures Distance(g, rank, child, parent) >= 1
  {
    assert child in Ancestors(g, rank, child);
    if parent in g {
      ReachRank(g, rank, {}, child, parent);
      forall y | y in Ancestors(g, rank, parent) && y in g
        ensures rank[y] <= rank[parent]
      {
        ReachRank(g, rank, {}, parent, y);
      }
    }
  }

  /** `distanceBetween`: for a candidate that is an ancestor of the target,
      the number of loadable ancestors of the target that are not ancestors
      of the candidate. */
  method DistanceBetween(g: Graph, ghost rank: map<CommitId, nat>, child: CommitId, parent: CommitId)
    returns (distance: int)
    requires Ranked(g, rank) && child in g && parent in g
    ensures parent in Ancestors(g, rank, child) ==> distance == Distance(g, rank, child, parent)
    ensures parent !in Ancestors(g, rank, child) ==> distance == |LoadedAncestors(g, rank, child)|
  {
    var seena: set<CommitId> := {};
    var seenb: set<CommitId> := {};
    var q := [child];
    distance := 0;
    ghost var counted: set<CommitId> := {};
    ghost var loaded, ancP := LoadedAncestors(g, rank, child), Ancestors(g, rank, parent);
    WalkStart(g, rank, child, parent);
    while |q| > 0
      invariant Walking(g, loaded, ancP, child, parent, counted, seena, seenb, q, distance)
      decreases |loaded - seena|, |q|
    {
      var commit := q[0];
      if commit in seena {
        SkipStep(g, loaded, ancP, child, parent, counted, seena, seenb, q, distance);
        q := q[1..];
        continue;
      }
      if commit == parent {
        var seenb' := AncestorWalk.SeeAllParents(g, rank, commit, seenb);
        var d := TakeBack(distance, seenb', seena + {commit});
        FoundStep(g, rank, child, parent, counted, seena, seenb, q, distance, seenb', d);
        seenb := seenb';
        distance := d;
        seena := seena + {commit} + seenb;
        q := q[1..];
        continue;
      }
      ElemsHead(q);
      var more := UnseenLoadable(g, g[commit], seena + {commit});
      CountStep(g, rank, child, parent, counted, seena, seenb, q, distance, more);
      seena := seena + {commit};
      q := q[1..] + more;
      distance := distance + 1;
      counted := counted + {commit};
    }
    DistanceComplete(g, rank, child, parent, counted, seena, seenb, distance);
  }
}
