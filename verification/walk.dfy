/** `seeAllParents`: a queue walk over every ancestor of a commit with no
    visited set, so a commit reachable along several paths is expanded once
    per path. It terminates because the graph is acyclic; the measure is the
    number of paths still to walk. */
module AncestorWalk {
  import opened CommitGraph

  /** Number of parent paths that start at loadable `c` and run through
      loadable commits: how often the walk from `c` expands something. */
  ghost function Paths(g: Graph, rank: map<CommitId, nat>, c: CommitId): nat
    requires Ranked(g, rank) && c in g
    decreases rank[c], 1, 0
  {
    1 + PathsVia(g, rank, c, |g[c]|)
  }

  /** Paths through the first `k` parents of `c`. */
  ghost function PathsVia(g: Graph, rank: map<CommitId, nat>, c: CommitId, k: nat): nat
    requires Ranked(g, rank) && c in g && k <= |g[c]|
    decreases rank[c], 0, k
  {
    if k == 0 then 0
    else PathsVia(g, rank, c, k - 1) + (if g[c][k - 1] in g then Paths(g, rank, g[c][k - 1]) else 0)
  }

  /** Paths still to walk from a queue of loadable commits. */
  ghost function Pending(g: Graph, rank: map<CommitId, nat>, q: seq<CommitId>): nat
    requires Ranked(g, rank) && Elems(q) <= g.Keys
  {
    if q == [] then 0 else Paths(g, rank, q[0]) + Pending(g, rank, q[1..])
  }

  /** The loadable ids of `ps`, in order: what `mapCommit` turns into queue entries. */
  function Loadable(g: Graph, ps: seq<CommitId>): (r: seq<CommitId>)
    ensures Elems(r) == Elems(ps) * g.Keys
  {
    if ps == [] then []
    else
      var init, last := ps[..|ps| - 1], ps[|ps| - 1];
      assert ps == init + [last];
      ElemsConcat(init, [last]);
      var r := Loadable(g, init) + (if last in g then [last] else []);
      ElemsConcat(Loadable(g, init), if last in g then [last] else []);
      r
  }

  lemma {:induction false} PendingConcat(g: Graph, rank: map<CommitId, nat>, a: seq<CommitId>, b: seq<CommitId>)
    requires Ranked(g, rank) && Elems(a) <= g.Keys && Elems(b) <= g.Keys
    ensures Elems(a + b) <= g.Keys
    ensures Pending(g, rank, a + b) == Pending(g, rank, a) + Pending(g, rank, b)
    decreases |a|
  {
    ElemsConcat(a, b);
    if a == [] {
      assert a + b == b;
    } else {
      assert (a + b)[0] == a[0];
      assert (a + b)[1..] == a[1..] + b;
      assert a[0] in Elems(a);
      assert Elems(a[1..]) <= Elems(a);
      PendingConcat(g, rank, a[1..], b);
    }
  }

  /** Queuing the loadable parents of `c` adds one path fewer than `c` had. */
  lemma {:induction false} LoadableParentsPending(g: Graph, rank: map<CommitId, nat>, c: CommitId, k: nat)
    requires Ranked(g, rank) && c in g && k <= |g[c]|
    ensures Pending(g, rank, Loadable(g, g[c][..k])) == PathsVia(g, rank, c, k)
  {
    if k > 0 {
      var p := g[c][k - 1];
      assert g[c][..k][..k - 1] == g[c][..k - 1];
      LoadableParentsPending(g, rank, c, k - 1);
      var tail := if p in g then [p] else [];
      assert Elems(tail) <= g.Keys;
      PendingConcat(g, rank, Loadable(g, g[c][..k - 1]), tail);
      if p in g {
        assert Pending(g, rank, [p]) == Paths(g, rank, p) by {
          assert [p][1..] == [];
        }
      }
    } else {
      assert g[c][..k] == [];
    }
  }

  /** The parent loop of the walk: every parent id is marked seen, and the
      loadable ones are returned for the queue, in order. */
  method MarkParents(g: Graph, ps: seq<CommitId>, seen: set<CommitId>)
    returns (seen': set<CommitId>, loaded: seq<CommitId>)
    ensures seen' == seen + Elems(ps)
    ensures loaded == Loadable(g, ps)
  {
    seen' := seen;
    loaded := [];
    var j := 0;
    while j < |ps|
      invariant 0 <= j <= |ps|
      invariant seen' == seen + Elems(ps[..j])
      invariant loaded == Loadable(g, ps[..j])
    {
      var oid := ps[j];
      assert ps[..j + 1][..j] == ps[..j];
      ElemsConcat(ps[..j], [oid]);
      assert ps[..j + 1] == ps[..j] + [oid];
      seen' := seen' + {oid};
      if oid in g {
        loaded := loaded + [oid];
      }
      j := j + 1;
    }
    assert ps[..j] == ps;
  }

  /** What the walk knows between iterations: `done` holds the commits
      expanded so far, `q` the queue, `seen` the caller's set and `cur` the
      set being filled. */
  ghost predicate WalkState(g: Graph, rank: map<CommitId, nat>, child: CommitId, seen: set<CommitId>,
                            done: set<CommitId>, q: seq<CommitId>, cur: set<CommitId>)
    requires Ranked(g, rank)
  {
    && child in g
    && Elems(q) + done <= LoadedAncestors(g, rank, child)
    && seen <= cur <= seen + StrictAncestors(g, rank, child)
    && child in Elems(q) + done
    && (forall n, p :: n in done && p in g[n] ==> p in cur)
    && (forall n, p :: n in done && p in g[n] && p in g ==> p in done + Elems(q))
  }

  /** Expanding the head of the queue keeps the walk state and uses up one path. */
  lemma WalkStep(g: Graph, rank: map<CommitId, nat>, child: CommitId, seen: set<CommitId>,
                 done: set<CommitId>, q: seq<CommitId>, cur: set<CommitId>)
    requires Ranked(g, rank) && WalkState(g, rank, child, seen, done, q, cur) && |q| > 0 && q[0] in g
    ensures WalkState(g, rank, child, seen, done + {q[0]}, q[1..] + Loadable(g, g[q[0]]), cur + Elems(g[q[0]]))
    ensures Elems(q[1..] + Loadable(g, g[q[0]])) <= g.Keys
    ensures Pending(g, rank, q[1..] + Loadable(g, g[q[0]])) < Pending(g, rank, q)
  {
    var commit, rest, loaded := q[0], q[1..], Loadable(g, g[q[0]]);
    assert Elems(q) == {commit} + Elems(rest) by {
      assert q == [commit] + rest;
      ElemsConcat([commit], rest);
    }
    ElemsConcat(rest, loaded);
    ParentsInRegion(g, rank, {}, child, commit);
    WalkSets(commit, child, Elems(rest), Elems(loaded), done, seen, cur, Elems(g[commit]), g.Keys,
             Ancestors(g, rank, child));
    WalkEdges(g, done, commit, Elems(rest), Elems(rest + loaded), cur);
    PendingStep(g, rank, q);
  }

  /** After expanding `commit`, the expanded commits' parents are all marked,
      and their loadable parents are all expanded or queued. */
  lemma WalkEdges(g: Graph, done: set<CommitId>, commit: CommitId, rest: set<CommitId>, queue: set<CommitId>,
                  cur: set<CommitId>)
    requires commit in g && done <= g.Keys && queue == rest + Elems(g[commit]) * g.Keys
    requires forall n, p :: n in done && p in g[n] ==> p in cur
    requires forall n, p :: n in done && p in g[n] && p in g ==> p in done + ({commit} + rest)
    ensures forall n, p :: n in done + {commit} && p in g[n] ==> p in cur + Elems(g[commit])
    ensures forall n, p :: n in done + {commit} && p in g[n] && p in g ==> p in (done + {commit}) + queue
  {
    forall n, p | n in done + {commit} && p in g[n]
      ensures p in cur + Elems(g[commit])
    {
      if n == commit {
        assert p in Elems(g[commit]);
      }
    }
    forall n, p | n in done + {commit} && p in g[n] && p in g
      ensures p in (done + {commit}) + queue
    {
      if n == commit {
        assert p in Elems(g[commit]) * g.Keys;
      }
    }
  }

  /** The set bookkeeping of one expansion of the walk: `rest` is the queue
      behind `commit`, `parents` its parents and `loaded` the loadable ones;
      `anc` stands for the ancestors of `child`. */
  lemma WalkSets(commit: CommitId, child: CommitId, rest: set<CommitId>, loaded: set<CommitId>,
                 done: set<CommitId>, seen: set<CommitId>, cur: set<CommitId>,
                 parents: set<CommitId>, keys: set<CommitId>, anc: set<CommitId>)
    requires {commit} + rest + done <= anc * keys
    requires seen <= cur <= seen + (anc - {child})
    requires child in {commit} + rest + done
    requires loaded == parents * keys && parents <= anc && child !in parents
    ensures (rest + loaded) + (done + {commit}) <= anc * keys
    ensures seen <= cur + parents <= seen + (anc - {child})
    ensures child in (rest + loaded) + (done + {commit})
  {
  }

  /** Replacing the head of the queue by its loadable parents uses up one path. */
  lemma PendingStep(g: Graph, rank: map<CommitId, nat>, q: seq<CommitId>)
    requires Ranked(g, rank) && Elems(q) <= g.Keys && |q| > 0
    ensures Elems(q[1..] + Loadable(g, g[q[0]])) <= g.Keys
    ensures Pending(g, rank, q[1..] + Loadable(g, g[q[0]])) == Pending(g, rank, q) - 1
  {
    var commit := q[0];
    assert commit in Elems(q);
    assert Elems(q[1..]) <= Elems(q);
    assert g[commit][..|g[commit]|] == g[commit];
    LoadableParentsPending(g, rank, commit, |g[commit]|);
    PendingConcat(g, rank, q[1..], Loadable(g, g[commit]));
  }

  /** When the queue is empty every strict ancestor has been marked. */
  lemma WalkComplete(g: Graph, rank: map<CommitId, nat>, child: CommitId, seen: set<CommitId>,
                     done: set<CommitId>, cur: set<CommitId>)
    requires Ranked(g, rank) && WalkState(g, rank, child, seen, done, [], cur)
    ensures cur == seen + StrictAncestors(g, rank, child)
  {
    assert Elems<CommitId>([]) == {};
    assert Closed(g, {}, done);
    ReachWithin(g, rank, {}, done, child);
    forall y | y in StrictAncestors(g, rank, child)
      ensures y in cur
    {
      var n := StrictAncestorHasChild(g, rank, child, y);
    }
  }

  /** `seeAllParents`: adds to `seen` exactly the strict ancestors of `child`
      and nothing else. */
  method SeeAllParents(g: Graph, ghost rank: map<CommitId, nat>, child: CommitId, seen: set<CommitId>)
    returns (seen': set<CommitId>)
    requires Ranked(g, rank) && child in g
    ensures seen' == seen + StrictAncestors(g, rank, child)
  {
    seen' := seen;
    var q := [child];
    ghost var done: set<CommitId> := {};
    assert Elems([child]) == {child};
    assert child in Ancestors(g, rank, child);
    while |q| > 0
      invariant WalkState(g, rank, child, seen, done, q, seen')
      decreases Pending(g, rank, q)
    {
      var commit := q[0];
      assert commit in Elems(q);
      WalkStep(g, rank, child, seen, done, q, seen');
      var marked, loaded := MarkParents(g, g[commit], seen');
      q := q[1..] + loaded;
      seen' := marked;
      done := done + {commit};
    }
    WalkComplete(g, rank, child, seen, done, seen');
  }
}
