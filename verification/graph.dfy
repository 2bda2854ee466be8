/** The commit graph as the describe algorithm sees it: a parent map over
    commit ids, with the reflexive ancestor sets that define "distance". */
module CommitGraph {

  /** A commit id (a JGit ObjectId). The algorithm only compares ids for equality. */
  type CommitId = nat

  /** Parent ids of every commit that can be loaded. An id that is not a key
      is an object `mapCommit` fails to read: an edge to it is skipped. */
  type Graph = map<CommitId, seq<CommitId>>

  /** `rank` strictly decreases along every parent edge between loadable
      commits, so the graph is acyclic (commit histories are by construction). */
  ghost predicate Ranked(g: Graph, rank: map<CommitId, nat>) {
    && g.Keys <= rank.Keys
    && forall c, p :: c in g && p in g[c] && p in g ==> rank[p] < rank[c]
  }

  /** The ids reachable from `c` by following parent edges, where only a
      loadable commit outside `stop` has its parents followed. With `stop`
      empty this is the reflexive ancestor set of `c`; with `stop` the tagged
      commits it is the region the nearest-tag search explores. */
  ghost function Reach(g: Graph, rank: map<CommitId, nat>, stop: set<CommitId>, c: CommitId): set<CommitId>
    requires Ranked(g, rank)
    decreases if c in g then rank[c] + 1 else 0
  {
    if c in g && c !in stop then
      {c} + set p, y | p in g[c] && y in Reach(g, rank, stop, p) :: y
    else
      {c}
  }

  /** Reflexive ancestor set Anc*(c). */
  ghost function Ancestors(g: Graph, rank: map<CommitId, nat>, c: CommitId): set<CommitId>
    requires Ranked(g, rank)
  {
    Reach(g, rank, {}, c)
  }

  /** Strict ancestors: everything in Anc*(c) but `c` itself. */
  ghost function StrictAncestors(g: Graph, rank: map<CommitId, nat>, c: CommitId): set<CommitId>
    requires Ranked(g, rank)
  {
    Ancestors(g, rank, c) - {c}
  }

  /** The loadable commits of Anc*(c): the ones a traversal can dequeue and count. */
  ghost function LoadedAncestors(g: Graph, rank: map<CommitId, nat>, c: CommitId): set<CommitId>
    requires Ranked(g, rank)
  {
    Ancestors(g, rank, c) * g.Keys
  }

  /** The describe distance from `child` to `parent`: commits that are
      ancestors of `child` but not of `parent`. */
  ghost function Distance(g: Graph, rank: map<CommitId, nat>, child: CommitId, parent: CommitId): nat
    requires Ranked(g, rank)
  {
    |LoadedAncestors(g, rank, child) - LoadedAncestors(g, rank, parent)|
  }

  /** Every loadable commit of `d` outside `stop` has its loadable parents in `d`. */
  ghost predicate Closed(g: Graph, stop: set<CommitId>, d: set<CommitId>) {
    forall n, p :: n in d && n in g && n !in stop && p in g[n] && p in g ==> p in d
  }

  /** A chain of parent edges from `path[0]` to its last id, every commit
      before the last loadable and outside `stop`. */
  ghost predicate ParentPath(g: Graph, stop: set<CommitId>, path: seq<CommitId>) {
    && |path| > 0
    && forall k :: 0 <= k < |path| - 1 ==>
         path[k] in g && path[k] !in stop && path[k + 1] in g[path[k]]
  }

  /** Reach is exactly the set of ends of parent paths from `c`. */
  lemma {:induction false} ReachIsPathEnds(g: Graph, rank: map<CommitId, nat>, stop: set<CommitId>, c: CommitId, y: CommitId)
    requires Ranked(g, rank)
    ensures y in Reach(g, rank, stop, c) <==>
            exists path :: ParentPath(g, stop, path) && path[0] == c && path[|path| - 1] == y
  {
    if y in Reach(g, rank, stop, c) {
      var path := PathTo(g, rank, stop, c, y);
    }
    if path :| ParentPath(g, stop, path) && path[0] == c && path[|path| - 1] == y {
      PathEndReached(g, rank, stop, path);
    }
  }

  /** A witness path for every member of Reach. */
  lemma {:induction false} PathTo(g: Graph, rank: map<CommitId, nat>, stop: set<CommitId>, c: CommitId, y: CommitId)
    returns (path: seq<CommitId>)
    requires Ranked(g, rank) && y in Reach(g, rank, stop, c)
    ensures ParentPath(g, stop, path) && path[0] == c && path[|path| - 1] == y
    decreases if c in g then rank[c] + 1 else 0
  {
    if y == c {
      path := [c];
    } else {
      var p :| p in g[c] && y in Reach(g, rank, stop, p);
      var rest := PathTo(g, rank, stop, p, y);
      path := [c] + rest;
      forall k | 0 <= k < |path| - 1
        ensures path[k] in g && path[k] !in stop && path[k + 1] in g[path[k]]
      {
        if k > 0 {
          assert path[k] == rest[k - 1] && path[k + 1] == rest[k];
        }
      }
    }
  }

  /** The end of every parent path from `path[0]` is in Reach. */
  lemma {:induction false} PathEndReached(g: Graph, rank: map<CommitId, nat>, stop: set<CommitId>, path: seq<CommitId>)
    requires Ranked(g, rank) && ParentPath(g, stop, path)
    ensures path[|path| - 1] in Reach(g, rank, stop, path[0])
    decreases |path|
  {
    if |path| > 1 {
      var rest := path[1..];
      assert ParentPath(g, stop, rest) by {
        forall k | 0 <= k < |rest| - 1
          ensures rest[k] in g && rest[k] !in stop && rest[k + 1] in g[rest[k]]
        {
          assert rest[k] == path[k + 1] && rest[k + 1] == path[k + 2];
        }
      }
      PathEndReached(g, rank, stop, rest);
      assert path[1] in g[path[0]] && path[0] in g && path[0] !in stop;
      assert rest[|rest| - 1] == path[|path| - 1];
    }
  }

  /** One parent edge out of a loadable, unstopped member of Reach stays in Reach. */
  lemma {:induction false} ReachStep(g: Graph, rank: map<CommitId, nat>, stop: set<CommitId>, c: CommitId, n: CommitId, p: CommitId)
    requires Ranked(g, rank)
    requires n in Reach(g, rank, stop, c) && n in g && n !in stop && p in g[n]
    ensures p in Reach(g, rank, stop, c)
    decreases if c in g then rank[c] + 1 else 0
  {
    if n == c {
      assert p in Reach(g, rank, stop, p);
    } else {
      var q :| q in g[c] && n in Reach(g, rank, stop, q);
      ReachStep(g, rank, stop, q, n, p);
    }
  }

  /** Ranks do not increase from a commit to the loadable ids it reaches. */
  lemma {:induction false} ReachRank(g: Graph, rank: map<CommitId, nat>, stop: set<CommitId>, c: CommitId, y: CommitId)
    requires Ranked(g, rank)
    requires c in g && y in g && y in Reach(g, rank, stop, c)
    ensures rank[y] <= rank[c]
    ensures y != c ==> rank[y] < rank[c]
    decreases rank[c]
  {
    if y != c {
      var q :| q in g[c] && y in Reach(g, rank, stop, q);
      if q in g {
        ReachRank(g, rank, stop, q, y);
      }
    }
  }

  /** A commit is never its own strict ancestor. */
  lemma ParentNotChild(g: Graph, rank: map<CommitId, nat>, stop: set<CommitId>, c: CommitId, n: CommitId, p: CommitId)
    requires Ranked(g, rank) && c in g
    requires n in Reach(g, rank, stop, c) && n in g && p in g[n]
    ensures p != c
  {
    if p in g {
      ReachRank(g, rank, stop, c, n);
    }
  }

  /** Every parent of a commit a search expands lies in the search's region,
      and none of them is the commit the search started from. */
  lemma ParentsInRegion(g: Graph, rank: map<CommitId, nat>, stop: set<CommitId>, c: CommitId, n: CommitId)
    requires Ranked(g, rank) && c in g
    requires n in Reach(g, rank, stop, c) && n in g && n !in stop
    ensures Elems(g[n]) <= Reach(g, rank, stop, c)
    ensures c !in Elems(g[n])
  {
    forall p | p in Elems(g[n])
      ensures p in Reach(g, rank, stop, c) && p != c
    {
      ReachStep(g, rank, stop, c, n, p);
      ParentNotChild(g, rank, stop, c, n, p);
    }
  }

  /** A set that contains `c` and is closed under followed edges contains
      every loadable id Reach finds from `c`. */
  lemma {:induction false} ReachWithin(g: Graph, rank: map<CommitId, nat>, stop: set<CommitId>, d: set<CommitId>, c: CommitId)
    requires Ranked(g, rank) && Closed(g, stop, d) && c in d
    ensures Reach(g, rank, stop, c) * g.Keys <= d
    decreases if c in g then rank[c] + 1 else 0
  {
    if c in g && c !in stop {
      forall y | y in Reach(g, rank, stop, c) && y in g
        ensures y in d
      {
        if y != c {
          var p :| p in g[c] && y in Reach(g, rank, stop, p);
          if p in g {
            ReachWithin(g, rank, stop, d, p);
          }
        }
      }
    }
  }

  /** Stopping at some commits only shrinks what is reached. */
  lemma {:induction false} ReachWithinAncestors(g: Graph, rank: map<CommitId, nat>, stop: set<CommitId>, c: CommitId)
    requires Ranked(g, rank)
    ensures Reach(g, rank, stop, c) <= Ancestors(g, rank, c)
    decreases if c in g then rank[c] + 1 else 0
  {
    if c in g && c !in stop {
      forall y | y in Reach(g, rank, stop, c)
        ensures y in Ancestors(g, rank, c)
      {
        if y != c {
          var p :| p in g[c] && y in Reach(g, rank, stop, p);
          ReachWithinAncestors(g, rank, stop, p);
        }
      }
    }
  }

  /** Every strict ancestor is a parent of some loadable ancestor. */
  lemma {:induction false} StrictAncestorHasChild(g: Graph, rank: map<CommitId, nat>, c: CommitId, y: CommitId)
    returns (n: CommitId)
    requires Ranked(g, rank) && y in StrictAncestors(g, rank, c)
    ensures n in LoadedAncestors(g, rank, c) && y in g[n]
    decreases if c in g then rank[c] + 1 else 0
  {
    var p :| p in g[c] && y in Reach(g, rank, {}, p);
    if y == p {
      n := c;
    } else {
      n := StrictAncestorHasChild(g, rank, p, y);
    }
  }

  /** The ids reached from `c` in at most `k` parent steps, where only a
      loadable commit outside `stop` has its parents followed: what a
      breadth-first search from `c` finds in its first `k + 1` levels. */
  ghost function Near(g: Graph, stop: set<CommitId>, c: CommitId, k: nat): set<CommitId>
  {
    if k == 0 then {c}
    else
      var prev := Near(g, stop, c, k - 1);
      prev + set n, p | n in prev && n in g && n !in stop && p in g[n] :: p
  }

  /** One more step reaches the followed parents of the last level. */
  lemma NearStep(g: Graph, stop: set<CommitId>, c: CommitId, k: nat, n: CommitId, p: CommitId)
    requires n in Near(g, stop, c, k) && n in g && n !in stop && p in g[n]
    ensures p in Near(g, stop, c, k + 1)
  {
  }

  /** Allowing more steps never loses an id. */
  lemma {:induction false} NearMono(g: Graph, stop: set<CommitId>, c: CommitId, k: nat, k': nat)
    requires k <= k'
    ensures Near(g, stop, c, k) <= Near(g, stop, c, k')
    decreases k' - k
  {
    if k < k' {
      NearMono(g, stop, c, k, k' - 1);
    }
  }

  /** `Near` is exactly the set of ends of parent paths from `c` with at
      most `k` edges. */
  lemma NearIsShortPaths(g: Graph, stop: set<CommitId>, c: CommitId, k: nat, y: CommitId)
    ensures y in Near(g, stop, c, k) <==>
            exists path :: ParentPath(g, stop, path) && path[0] == c && path[|path| - 1] == y && |path| <= k + 1
  {
    if y in Near(g, stop, c, k) {
      var path := ShortPathTo(g, stop, c, k, y);
    }
    if path :| ParentPath(g, stop, path) && path[0] == c && path[|path| - 1] == y && |path| <= k + 1 {
      ShortPathEnd(g, stop, path);
      NearMono(g, stop, c, |path| - 1, k);
    }
  }

  /** A witness path with at most `k` edges for every member of `Near`. */
  lemma {:induction false} ShortPathTo(g: Graph, stop: set<CommitId>, c: CommitId, k: nat, y: CommitId)
    returns (path: seq<CommitId>)
    requires y in Near(g, stop, c, k)
    ensures ParentPath(g, stop, path) && path[0] == c && path[|path| - 1] == y && |path| <= k + 1
  {
    if k == 0 {
      path := [c];
    } else if y in Near(g, stop, c, k - 1) {
      path := ShortPathTo(g, stop, c, k - 1, y);
    } else {
      var n :| n in Near(g, stop, c, k - 1) && n in g && n !in stop && y in g[n];
      var init := ShortPathTo(g, stop, c, k - 1, n);
      path := init + [y];
      forall i | 0 <= i < |path| - 1
        ensures path[i] in g && path[i] !in stop && path[i + 1] in g[path[i]]
      {
        if i < |init| - 1 {
          assert path[i] == init[i] && path[i + 1] == init[i + 1];
        }
      }
    }
  }

  /** The end of a parent path with `m` edges is within `m` steps of its start. */
  lemma {:induction false} ShortPathEnd(g: Graph, stop: set<CommitId>, path: seq<CommitId>)
    requires ParentPath(g, stop, path)
    ensures path[|path| - 1] in Near(g, stop, path[0], |path| - 1)
    decreases |path|
  {
    if |path| > 1 {
      var init := path[..|path| - 1];
      assert ParentPath(g, stop, init) by {
        forall i | 0 <= i < |init| - 1
          ensures init[i] in g && init[i] !in stop && init[i + 1] in g[init[i]]
        {
          assert init[i] == path[i] && init[i + 1] == path[i + 1];
        }
      }
      ShortPathEnd(g, stop, init);
      var n := path[|path| - 2];
      assert init[|init| - 1] == n && init[0] == path[0];
      NearStep(g, stop, path[0], |path| - 2, n, path[|path| - 1]);
    }
  }

  /** No id occurs twice. */
  ghost predicate Distinct<T>(s: seq<T>) {
    forall i, j :: 0 <= i < j < |s| ==> s[i] != s[j]
  }

  /** The ids a sequence holds. */
  ghost function Elems<T>(s: seq<T>): set<T> {
    set x | x in s
  }

  /** Splitting a sequence splits the ids it holds. */
  lemma ElemsConcat<T>(a: seq<T>, b: seq<T>)
    ensures Elems(a + b) == Elems(a) + Elems(b)
  {
  }

  /** The elements of a queue are its head and the elements of its tail. */
  lemma ElemsHead<T>(s: seq<T>)
    requires |s| > 0
    ensures Elems(s) == {s[0]} + Elems(s[1..])
  {
    assert s == [s[0]] + s[1..];
    ElemsConcat([s[0]], s[1..]);
  }

  /** The head of a duplicate-free sequence does not occur in its tail. */
  lemma DistinctHead<T>(s: seq<T>)
    requires Distinct(s) && |s| > 0
    ensures s == [s[0]] + s[1..] && Elems(s) == {s[0]} + Elems(s[1..]) && s[0] !in Elems(s[1..])
    ensures Distinct(s[1..])
  {
    assert s == [s[0]] + s[1..];
    ElemsConcat([s[0]], s[1..]);
    forall k | 0 <= k < |s[1..]|
      ensures s[1..][k] != s[0]
    {
      assert s[1..][k] == s[k + 1];
    }
  }

  /** Joining two duplicate-free sequences with no common id keeps it duplicate-free. */
  lemma DistinctConcat<T>(a: seq<T>, b: seq<T>)
    requires Distinct(a) && Distinct(b)
    requires Elems(a) !! Elems(b)
    ensures Distinct(a + b)
  {
    forall i, j | 0 <= i < j < |a + b|
      ensures (a + b)[i] != (a + b)[j]
    {
      if j >= |a| {
        assert (a + b)[j] == b[j - |a|] && b[j - |a|] in Elems(b);
        if i < |a| {
          assert (a + b)[i] == a[i] && a[i] in Elems(a);
        }
      }
    }
  }

  /** Marking one more member of `a` as seen leaves one fewer unseen. */
  lemma UnseenShrinks<T>(a: set<T>, seen: set<T>, x: T)
    requires x in a && x !in seen
    ensures |a - (seen + {x})| == |a - seen| - 1
  {
    assert a - seen == (a - (seen + {x})) + {x};
  }

  /** Marking more as seen, `x` among them, strictly shrinks the unseen part of `a`. */
  lemma UnseenDecreases<T>(a: set<T>, seen: set<T>, seen': set<T>, x: T)
    requires x in a && x !in seen && seen + {x} <= seen'
    ensures |a - seen'| < |a - seen|
  {
    UnseenShrinks(a, seen, x);
    SubsetCard(a - seen', a - (seen + {x}));
  }

  lemma SubsetCard<T>(s: set<T>, t: set<T>)
    requires s <= t
    ensures |s| <= |t|
  {
    assert t == s + (t - s);
  }
}
