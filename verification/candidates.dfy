/** The nearest-tag finder (`candidateCommits`): a breadth-first search from
    the target that records every tagged commit it dequeues and does not look
    behind it. */
module Candidates {
  import opened CommitGraph

  /** The tagged commits a search from `c` can reach without passing through
      another tagged commit: the nearest tag on every lineage. */
  ghost function NearestTagged(g: Graph, rank: map<CommitId, nat>, tagged: set<CommitId>, c: CommitId): set<CommitId>
    requires Ranked(g, rank)
  {
    Reach(g, rank, tagged, c) * g.Keys * tagged
  }

  /** A commit is a nearest tagged commit of `c` exactly when it is loadable
      and tagged and some parent path leads to it from `c` through loadable
      untagged commits only (`c` included when the path is longer than `c`). */
  lemma NearestTaggedPaths(g: Graph, rank: map<CommitId, nat>, tagged: set<CommitId>, c: CommitId, y: CommitId)
    requires Ranked(g, rank)
    ensures y in NearestTagged(g, rank, tagged, c) <==>
            && y in g && y in tagged
            && exists path :: ParentPath(g, tagged, path) && path[0] == c && path[|path| - 1] == y
  {
    ReachIsPathEnds(g, rank, tagged, c, y);
  }

  /** The parent loop of the search: every parent not yet seen is marked seen
      and, when it can be loaded, returned for the queue, in order and once.
      An unloadable parent is still marked seen, since the id is added before
      the load is tried. */
  method UnseenParents(g: Graph, ps: seq<CommitId>, seen: set<CommitId>)
    returns (seen': set<CommitId>, queued: seq<CommitId>)
    ensures seen' == seen + Elems(ps)
    ensures Elems(queued) == Elems(ps) * g.Keys - seen
    ensures Distinct(queued)
  {
    seen' := seen;
    queued := [];
    var j := 0;
    while j < |ps|
      invariant 0 <= j <= |ps|
      invariant seen' == seen + Elems(ps[..j])
      invariant Elems(queued) == Elems(ps[..j]) * g.Keys - seen
      invariant Distinct(queued)
    {
      var oid := ps[j];
      assert ps[..j + 1] == ps[..j] + [oid];
      ElemsConcat(ps[..j], [oid]);
      if oid !in seen' {
        if oid in g {
          assert Elems([oid]) == {oid};
          DistinctConcat(queued, [oid]);
          ElemsConcat(queued, [oid]);
          queued := queued + [oid];
        }
        seen' := seen' + {oid};
      }
      j := j + 1;
    }
    assert ps[..j] == ps;
  }

  /** What the search knows between two iterations: `done` is the set of
      dequeued commits, `q` the queue, `seen` the parents enqueued or skipped,
      and `found` the tagged commits dequeued so far, in order. */
  ghost predicate SearchState(g: Graph, rank: map<CommitId, nat>, tagged: set<CommitId>, child: CommitId,
                              done: set<CommitId>, q: seq<CommitId>, seen: set<CommitId>, found: seq<CommitId>)
    requires Ranked(g, rank)
  {
    Searching(g, Reach(g, rank, tagged, child) * g.Keys, tagged, child, done, q, seen, found)
  }

  /** The search state with the loadable part of the region behind `child`
      taken as a given set. */
  ghost predicate Searching(g: Graph, region: set<CommitId>, tagged: set<CommitId>, child: CommitId,
                            done: set<CommitId>, q: seq<CommitId>, seen: set<CommitId>, found: seq<CommitId>)
  {
    && child in g && child !in seen && region <= g.Keys
    && Elems(q) + done <= region
    && Elems(q) !! done
    && Elems(q) + done <= seen + {child}
    && child in Elems(q) + done
    && seen * g.Keys <= Elems(q) + done
    && Elems(found) == done * tagged
    && Distinct(found) && Distinct(q)
    && (forall n, p :: n in done && n !in tagged && p in g[n] ==> p in seen)
    && (child in tagged ==> (done == {} && q == [child] && found == []) || (q == [] && found == [child]))
  }

  /** The search starts with only `child` queued. */
  lemma SearchStart(g: Graph, rank: map<CommitId, nat>, tagged: set<CommitId>, child: CommitId)
    requires Ranked(g, rank) && child in g
    ensures SearchState(g, rank, tagged, child, {}, [child], {}, [])
  {
    assert Elems([child]) == {child};
    assert child in Reach(g, rank, tagged, child);
  }

  /** Dequeuing a tagged commit records it and explores nothing behind it. */
  lemma RecordTagged(g: Graph, rank: map<CommitId, nat>, tagged: set<CommitId>, child: CommitId,
                     done: set<CommitId>, q: seq<CommitId>, seen: set<CommitId>, found: seq<CommitId>)
    requires Ranked(g, rank) && SearchState(g, rank, tagged, child, done, q, seen, found)
    requires |q| > 0 && q[0] in tagged
    ensures SearchState(g, rank, tagged, child, done + {q[0]}, q[1..], seen, found + [q[0]])
  {
    DistinctHead(q);
    ElemsConcat(found, [q[0]]);
    assert Elems(found) * {q[0]} == {};
    DistinctConcat(found, [q[0]]);
  }

  /** Dequeuing an untagged commit and queuing its unseen loadable parents
      keeps the search state, and shrinks the unseen part of the graph or the
      queue. */
  lemma ExpandUntagged(g: Graph, rank: map<CommitId, nat>, tagged: set<CommitId>, child: CommitId,
                       done: set<CommitId>, q: seq<CommitId>, seen: set<CommitId>, found: seq<CommitId>,
                       seen': set<CommitId>, queued: seq<CommitId>)
    requires Ranked(g, rank) && SearchState(g, rank, tagged, child, done, q, seen, found)
    requires |q| > 0 && q[0] in g && q[0] !in tagged
    requires seen' == seen + Elems(g[q[0]])
    requires Elems(queued) == Elems(g[q[0]]) * g.Keys - seen && Distinct(queued)
    ensures SearchState(g, rank, tagged, child, done + {q[0]}, q[1..] + queued, seen', found)
    ensures |g.Keys - seen'| < |g.Keys - seen| || (g.Keys - seen' == g.Keys - seen && |q[1..] + queued| < |q|)
  {
    assert q[0] in Elems(q);
    ParentsInRegion(g, rank, tagged, child, q[0]);
    ExpandSearching(g, Reach(g, rank, tagged, child) * g.Keys, tagged, child, done, q, seen, found, seen', queued);
  }

  /** One expansion, over the region taken as a given set. */
  lemma ExpandSearching(g: Graph, region: set<CommitId>, tagged: set<CommitId>, child: CommitId,
                        done: set<CommitId>, q: seq<CommitId>, seen: set<CommitId>, found: seq<CommitId>,
                        seen': set<CommitId>, queued: seq<CommitId>)
    requires Searching(g, region, tagged, child, done, q, seen, found)
    requires |q| > 0 && q[0] in g && q[0] !in tagged
    requires Elems(g[q[0]]) * g.Keys <= region && child !in Elems(g[q[0]])
    requires seen' == seen + Elems(g[q[0]])
    requires Elems(queued) == Elems(g[q[0]]) * g.Keys - seen && Distinct(queued)
    ensures Searching(g, region, tagged, child, done + {q[0]}, q[1..] + queued, seen', found)
    ensures |g.Keys - seen'| < |g.Keys - seen| || (g.Keys - seen' == g.Keys - seen && |q[1..] + queued| < |q|)
  {
    var commit, rest := q[0], q[1..];
    DistinctHead(q);
    ElemsConcat(rest, queued);
    ExpandSets(commit, child, Elems(rest), Elems(queued), done, seen, seen', Elems(g[commit]), g.Keys, region);
    DistinctConcat(rest, queued);
    if |queued| > 0 {
      assert queued[0] in Elems(queued);
      UnseenDecreases(g.Keys, seen, seen', queued[0]);
    } else {
      assert g.Keys - seen' == g.Keys - seen;
    }
  }

  /** The set bookkeeping of one expansion: `rest` is the queue behind
      `commit`, `parents` its parents, `queued` those loadable and unseen. */
  lemma ExpandSets(commit: CommitId, child: CommitId, rest: set<CommitId>, queued: set<CommitId>,
                   done: set<CommitId>, seen: set<CommitId>, seen': set<CommitId>,
                   parents: set<CommitId>, keys: set<CommitId>, region: set<CommitId>)
    requires commit !in rest && {commit} + rest + done <= region && ({commit} + rest) !! done
    requires {commit} + rest + done <= seen + {child} && child in {commit} + rest + done
    requires seen * keys <= {commit} + rest + done && region <= keys
    requires seen' == seen + parents && queued == parents * keys - seen
    requires queued <= region && child !in parents
    ensures (rest + queued) + (done + {commit}) <= region
    ensures (rest + queued) !! (done + {commit})
    ensures (rest + queued) + (done + {commit}) <= seen' + {child}
    ensures child in (rest + queued) + (done + {commit})
    ensures seen' * keys <= (rest + queued) + (done + {commit})
    ensures rest !! queued
  {
  }

  /** Once the queue is empty, the dequeued commits are the whole region and
      `found` holds exactly its tagged commits. */
  lemma SearchComplete(g: Graph, rank: map<CommitId, nat>, tagged: set<CommitId>, child: CommitId,
                       done: set<CommitId>, seen: set<CommitId>, found: seq<CommitId>)
    requires Ranked(g, rank) && SearchState(g, rank, tagged, child, done, [], seen, found)
    ensures Elems(found) == NearestTagged(g, rank, tagged, child)
    ensures child in tagged ==> found == [child]
  {
    assert Elems<CommitId>([]) == {};
    assert Closed(g, tagged, done);
    ReachWithin(g, rank, tagged, done, child);
  }

  /** `y` first shows up at level `e` of the search from `child`. */
  ghost predicate AtDepth(g: Graph, tagged: set<CommitId>, child: CommitId, y: CommitId, e: nat) {
    y in Near(g, tagged, child, e) - Below(g, tagged, child, e)
  }

  /** The ids the search finds before level `e`. */
  ghost function Below(g: Graph, tagged: set<CommitId>, child: CommitId, e: nat): set<CommitId> {
    if e == 0 then {} else Near(g, tagged, child, e - 1)
  }

  /** Breadth-first order: whatever is within `k` steps of `child`, every
      earlier entry of `found` is too. */
  ghost predicate DiscoveryOrder(g: Graph, tagged: set<CommitId>, child: CommitId, found: seq<CommitId>) {
    forall i, j, k :: 0 <= i < j < |found| && found[j] in Near(g, tagged, child, k) ==>
                        found[i] in Near(g, tagged, child, k)
  }

  /** `depths` gives the level of every entry of `found`, none past `d`, in
      non-decreasing order. */
  ghost predicate DepthsOf(g: Graph, tagged: set<CommitId>, child: CommitId, found: seq<CommitId>,
                           depths: seq<nat>, d: nat) {
    && |depths| == |found|
    && (forall i, j :: 0 <= i < j < |depths| ==> depths[i] <= depths[j])
    && (forall i :: 0 <= i < |depths| ==> depths[i] <= d && AtDepth(g, tagged, child, found[i], depths[i]))
  }

  /** The queue during level `here`: the first `cut` entries are of this
      level, the rest of the next one, and every loadable commit of this
      level is dequeued or among the first `cut`. */
  ghost predicate Levels(g: Graph, tagged: set<CommitId>, below: set<CommitId>, here: set<CommitId>,
                         next: set<CommitId>, cut: nat, q: seq<CommitId>, done: set<CommitId>) {
    && cut <= |q|
    && Elems(q[..cut]) <= here - below
    && Elems(q[cut..]) <= next - here
    && here * g.Keys <= done + Elems(q[..cut])
    && (forall n, p :: n in here && n in g && n !in tagged && p in g[n] ==> p in next)
  }

  /** The level bookkeeping of the search at level `d`. */
  ghost predicate LevelState(g: Graph, tagged: set<CommitId>, child: CommitId, d: nat, cut: nat, q: seq<CommitId>,
                             done: set<CommitId>, found: seq<CommitId>, depths: seq<nat>) {
    && Levels(g, tagged, Below(g, tagged, child, d), Near(g, tagged, child, d), Near(g, tagged, child, d + 1),
              cut, q, done)
    && DepthsOf(g, tagged, child, found, depths, d)
  }

  lemma NearNext(g: Graph, tagged: set<CommitId>, child: CommitId, d: nat)
    ensures forall n, p :: n in Near(g, tagged, child, d) && n in g && n !in tagged && p in g[n] ==>
                             p in Near(g, tagged, child, d + 1)
  {
    forall n, p | n in Near(g, tagged, child, d) && n in g && n !in tagged && p in g[n]
      ensures p in Near(g, tagged, child, d + 1)
    {
      NearStep(g, tagged, child, d, n, p);
    }
  }

  /** The search starts at level 0 with `child` alone. */
  lemma LevelStart(g: Graph, tagged: set<CommitId>, child: CommitId)
    ensures LevelState(g, tagged, child, 0, 1, [child], {}, [], [])
  {
    assert [child][..1] == [child] && [child][1..] == [];
    assert Elems([child]) == {child};
    assert Elems<CommitId>([]) == {};
    NearNext(g, tagged, child, 0);
  }

  /** When the queue holds no more of this level, it holds exactly the
      loadable commits of the next level not yet dequeued. */
  lemma LevelAdvance(g: Graph, rank: map<CommitId, nat>, tagged: set<CommitId>, child: CommitId, d: nat,
                     q: seq<CommitId>, done: set<CommitId>, seen: set<CommitId>, found: seq<CommitId>,
                     depths: seq<nat>)
    requires Ranked(g, rank) && SearchState(g, rank, tagged, child, done, q, seen, found)
    requires LevelState(g, tagged, child, d, 0, q, done, found, depths)
    ensures LevelState(g, tagged, child, d + 1, |q|, q, done, found, depths)
  {
    var here, next := Near(g, tagged, child, d), Near(g, tagged, child, d + 1);
    assert next == here + set n, p | n in here && n in g && n !in tagged && p in g[n] :: p;
    NearNext(g, tagged, child, d + 1);
    LevelsAdvance(g, tagged, Below(g, tagged, child, d), here, next, Near(g, tagged, child, d + 2), q, done, seen);
  }

  lemma LevelsAdvance(g: Graph, tagged: set<CommitId>, below: set<CommitId>, here: set<CommitId>,
                      next: set<CommitId>, next2: set<CommitId>, q: seq<CommitId>, done: set<CommitId>,
                      seen: set<CommitId>)
    requires Levels(g, tagged, below, here, next, 0, q, done)
    requires next == here + set n, p | n in here && n in g && n !in tagged && p in g[n] :: p
    requires forall n, p :: n in next && n in g && n !in tagged && p in g[n] ==> p in next2
    requires done <= g.Keys && forall n, p :: n in done && n !in tagged && p in g[n] ==> p in seen
    requires seen * g.Keys <= Elems(q) + done
    ensures Levels(g, tagged, here, next, next2, |q|, q, done)
  {
    assert q[..0] == [] && q[0..] == q && q[..|q|] == q && q[|q|..] == [];
    assert Elems<CommitId>([]) == {};
    assert here * g.Keys <= done;
    forall y | y in next && y in g
      ensures y in done + Elems(q)
    {
      if y !in here {
        var n, p :| n in here && n in g && n !in tagged && p in g[n] && y == p;
        assert n in done;
        assert y in seen * g.Keys;
      }
    }
  }

  /** Dequeuing an entry of this level and queuing commits of the next one. */
  lemma LevelsPop(g: Graph, tagged: set<CommitId>, below: set<CommitId>, here: set<CommitId>,
                  next: set<CommitId>, cut: nat, q: seq<CommitId>, done: set<CommitId>, queued: seq<CommitId>)
    requires Levels(g, tagged, below, here, next, cut, q, done) && 0 < cut
    requires Elems(queued) <= next - here
    ensures q[0] in here - below
    ensures Levels(g, tagged, below, here, next, cut - 1, q[1..] + queued, done + {q[0]})
  {
    var q' := q[1..] + queued;
    assert q'[..cut - 1] == q[1..cut] == q[..cut][1..];
    assert q'[cut - 1..] == q[cut..] + queued;
    ElemsHead(q[..cut]);
    ElemsConcat(q[cut..], queued);
  }

  /** A commit of level `d` may follow the ones found so far. */
  lemma DepthsAppend(g: Graph, tagged: set<CommitId>, child: CommitId, found: seq<CommitId>, depths: seq<nat>,
                     d: nat, y: CommitId)
    requires DepthsOf(g, tagged, child, found, depths, d) && AtDepth(g, tagged, child, y, d)
    ensures DepthsOf(g, tagged, child, found + [y], depths + [d], d)
  {
  }

  /** Recording a tagged commit of this level keeps the level bookkeeping. */
  lemma LevelTagged(g: Graph, tagged: set<CommitId>, child: CommitId, d: nat, cut: nat, q: seq<CommitId>,
                    done: set<CommitId>, found: seq<CommitId>, depths: seq<nat>)
    requires LevelState(g, tagged, child, d, cut, q, done, found, depths) && 0 < cut
    ensures LevelState(g, tagged, child, d, cut - 1, q[1..], done + {q[0]}, found + [q[0]], depths + [d])
  {
    assert Elems<CommitId>([]) == {};
    LevelsPop(g, tagged, Below(g, tagged, child, d), Near(g, tagged, child, d), Near(g, tagged, child, d + 1),
              cut, q, done, []);
    assert q[1..] + [] == q[1..];
    DepthsAppend(g, tagged, child, found, depths, d, q[0]);
  }

  /** Expanding an untagged commit of this level queues commits of the next
      level only: a parent that is not yet seen cannot be of this level. */
  lemma LevelExpand(g: Graph, rank: map<CommitId, nat>, tagged: set<CommitId>, child: CommitId, d: nat, cut: nat,
                    q: seq<CommitId>, done: set<CommitId>, seen: set<CommitId>, found: seq<CommitId>,
                    depths: seq<nat>, queued: seq<CommitId>)
    requires Ranked(g, rank) && SearchState(g, rank, tagged, child, done, q, seen, found)
    requires LevelState(g, tagged, child, d, cut, q, done, found, depths) && 0 < cut
    requires q[0] in g && q[0] !in tagged
    requires Elems(queued) == Elems(g[q[0]]) * g.Keys - seen
    ensures LevelState(g, tagged, child, d, cut - 1, q[1..] + queued, done + {q[0]}, found, depths)
  {
    assert q[0] in Elems(q);
    ParentsInRegion(g, rank, tagged, child, q[0]);
    assert q[..cut] <= q;
    LevelsExpand(g, tagged, Below(g, tagged, child, d), Near(g, tagged, child, d), Near(g, tagged, child, d + 1),
                 cut, q, done, seen, child, queued);
  }

  lemma LevelsExpand(g: Graph, tagged: set<CommitId>, below: set<CommitId>, here: set<CommitId>,
                     next: set<CommitId>, cut: nat, q: seq<CommitId>, done: set<CommitId>, seen: set<CommitId>,
                     child: CommitId, queued: seq<CommitId>)
    requires Levels(g, tagged, below, here, next, cut, q, done) && 0 < cut
    requires q[0] in g && q[0] !in tagged && child !in Elems(g[q[0]])
    requires Elems(q[..cut]) + done <= seen + {child}
    requires Elems(queued) == Elems(g[q[0]]) * g.Keys - seen
    ensures Levels(g, tagged, below, here, next, cut - 1, q[1..] + queued, done + {q[0]})
  {
    assert q[0] in Elems(q[..cut]);
    assert q[0] in here;
    forall p | p in Elems(queued)
      ensures p in next && p !in here
    {
      assert p in g[q[0]];
      assert p in next;
      assert p in g && p !in seen + {child};
      assert p !in done + Elems(q[..cut]);
    }
    LevelsPop(g, tagged, below, here, next, cut, q, done, queued);
  }

  /** Before a dequeue: when this level is exhausted, move to the next one,
      so the head of the queue is always of the current level. */
  lemma NextInLevel(g: Graph, rank: map<CommitId, nat>, tagged: set<CommitId>, child: CommitId, d: nat, cut: nat,
                    q: seq<CommitId>, done: set<CommitId>, seen: set<CommitId>, found: seq<CommitId>,
                    depths: seq<nat>)
    returns (d': nat, cut': nat)
    requires Ranked(g, rank) && SearchState(g, rank, tagged, child, done, q, seen, found)
    requires LevelState(g, tagged, child, d, cut, q, done, found, depths) && |q| > 0
    ensures LevelState(g, tagged, child, d', cut', q, done, found, depths) && 0 < cut'
  {
    if cut == 0 {
      LevelAdvance(g, rank, tagged, child, d, q, done, seen, found, depths);
      d', cut' := d + 1, |q|;
    } else {
      d', cut' := d, cut;
    }
  }

  /** The level bookkeeping of dequeuing a tagged commit. */
  lemma TaggedLevel(g: Graph, rank: map<CommitId, nat>, tagged: set<CommitId>, child: CommitId, d: nat, cut: nat,
                    q: seq<CommitId>, done: set<CommitId>, seen: set<CommitId>, found: seq<CommitId>,
                    depths: seq<nat>)
    returns (d': nat, cut': nat, depths': seq<nat>)
    requires Ranked(g, rank) && SearchState(g, rank, tagged, child, done, q, seen, found)
    requires LevelState(g, tagged, child, d, cut, q, done, found, depths) && |q| > 0
    ensures LevelState(g, tagged, child, d', cut', q[1..], done + {q[0]}, found + [q[0]], depths')
  {
    var e, c := NextInLevel(g, rank, tagged, child, d, cut, q, done, seen, found, depths);
    LevelTagged(g, tagged, child, e, c, q, done, found, depths);
    d', cut', depths' := e, c - 1, depths + [e];
  }

  /** The level bookkeeping of expanding an untagged commit. */
  lemma ExpandLevel(g: Graph, rank: map<CommitId, nat>, tagged: set<CommitId>, child: CommitId, d: nat, cut: nat,
                    q: seq<CommitId>, done: set<CommitId>, seen: set<CommitId>, found: seq<CommitId>,
                    depths: seq<nat>, queued: seq<CommitId>)
    returns (d': nat, cut': nat)
    requires Ranked(g, rank) && SearchState(g, rank, tagged, child, done, q, seen, found)
    requires LevelState(g, tagged, child, d, cut, q, done, found, depths) && |q| > 0
    requires q[0] in g && q[0] !in tagged
    requires Elems(queued) == Elems(g[q[0]]) * g.Keys - seen
    ensures LevelState(g, tagged, child, d', cut', q[1..] + queued, done + {q[0]}, found, depths)
  {
    var e, c := NextInLevel(g, rank, tagged, child, d, cut, q, done, seen, found, depths);
    LevelExpand(g, rank, tagged, child, e, c, q, done, seen, found, depths, queued);
    d', cut' := e, c - 1;
  }

  /** Levels recorded in non-decreasing order give the breadth-first order. */
  lemma FoundInOrder(g: Graph, tagged: set<CommitId>, child: CommitId, found: seq<CommitId>, depths: seq<nat>,
                     d: nat)
    requires DepthsOf(g, tagged, child, found, depths, d)
    ensures DiscoveryOrder(g, tagged, child, found)
  {
    forall i, j, k | 0 <= i < j < |found| && found[j] in Near(g, tagged, child, k)
      ensures found[i] in Near(g, tagged, child, k)
    {
      if k < depths[j] {
        NearMono(g, tagged, child, k, depths[j] - 1);
      }
      NearMono(g, tagged, child, depths[i], k);
    }
  }

  /** `candidateCommits`: the search from `child` returns each nearest tagged
      commit exactly once, in discovery order; a tagged `child` is returned
      alone. */
  method CandidateCommits(g: Graph, ghost rank: map<CommitId, nat>, tagged: map<CommitId, string>, child: CommitId)
    returns (found: seq<CommitId>)
    requires Ranked(g, rank) && child in g
    ensures Elems(found) == NearestTagged(g, rank, tagged.Keys, child)
    ensures Distinct(found)
    ensures child in tagged ==> found == [child]
    ensures DiscoveryOrder(g, tagged.Keys, child, found)
  {
    ghost var done: set<CommitId> := {};
    ghost var d: nat, cut: nat, depths: seq<nat> := 0, 1, [];
    var q := [child];
    var seen: set<CommitId> := {};
    found := [];
    SearchStart(g, rank, tagged.Keys, child);
    LevelStart(g, tagged.Keys, child);
    while |q| > 0
      invariant SearchState(g, rank, tagged.Keys, child, done, q, seen, found)
      invariant LevelState(g, tagged.Keys, child, d, cut, q, done, found, depths)
      decreases |g.Keys - seen|, |q|
    {
      var commit := q[0];
      assert commit in Elems(q);
      if commit in tagged {
        RecordTagged(g, rank, tagged.Keys, child, done, q, seen, found);
        d, cut, depths := TaggedLevel(g, rank, tagged.Keys, child, d, cut, q, done, seen, found, depths);
        q := q[1..];
        found := found + [commit];
      } else {
        var seen', queued := UnseenParents(g, g[commit], seen);
        ExpandUntagged(g, rank, tagged.Keys, child, done, q, seen, found, seen', queued);
        d, cut := ExpandLevel(g, rank, tagged.Keys, child, d, cut, q, done, seen, found, depths, queued);
        q := q[1..] + queued;
        seen := seen';
      }
      done := done + {commit};
    }
    SearchComplete(g, rank, tagged.Keys, child, done, seen, found);
    FoundInOrder(g, tagged.Keys, child, found, depths, d);
  }
}
