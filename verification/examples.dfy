/** Three small histories worked through the reference definitions: a straight
    line A <- B <- C <- D, a diamond A <- B, A <- C, B <- M, C <- M, and a
    fork A <- B, A <- C, B <- E, E <- F, C <- F whose merge F lists E first.
    Commit ids stand for the letters: A = 1, B = 2, C = 3, D, M and E = 4,
    F = 5. */
module Examples {
  import opened CommitGraph
  import opened TagIndex
  import opened Candidates
  import opened Format
  import opened Describe

  /** A loadable commit with no parents reaches only itself. */
  lemma ReachRoot(g: Graph, rank: map<CommitId, nat>, stop: set<CommitId>, c: CommitId)
    requires Ranked(g, rank) && c in g && g[c] == []
    ensures Reach(g, rank, stop, c) == {c}
  {
  }

  /** A stopped commit reaches only itself. */
  lemma ReachStopped(g: Graph, rank: map<CommitId, nat>, stop: set<CommitId>, c: CommitId)
    requires Ranked(g, rank) && c in stop
    ensures Reach(g, rank, stop, c) == {c}
  {
  }

  /** A loadable, unstopped commit with one parent reaches itself and what the parent reaches. */
  lemma ReachOne(g: Graph, rank: map<CommitId, nat>, stop: set<CommitId>, c: CommitId, p: CommitId)
    requires Ranked(g, rank) && c in g && c !in stop && g[c] == [p]
    ensures Reach(g, rank, stop, c) == {c} + Reach(g, rank, stop, p)
  {
    assert forall y :: y in Reach(g, rank, stop, p) ==> y in Reach(g, rank, stop, c) by {
      assert p in g[c];
    }
  }

  /** The same for a merge commit with two parents. */
  lemma ReachTwo(g: Graph, rank: map<CommitId, nat>, stop: set<CommitId>, c: CommitId, p: CommitId, q: CommitId)
    requires Ranked(g, rank) && c in g && c !in stop && g[c] == [p, q]
    ensures Reach(g, rank, stop, c) == {c} + Reach(g, rank, stop, p) + Reach(g, rank, stop, q)
  {
    assert p in g[c] && q in g[c];
  }

  /** A merge's ancestors, from those of its two parents. */
  lemma AncestorsTwo(g: Graph, rank: map<CommitId, nat>, c: CommitId, p: CommitId, q: CommitId,
                     sp: set<CommitId>, sq: set<CommitId>, s: set<CommitId>)
    requires Ranked(g, rank) && c in g && g[c] == [p, q]
    requires Ancestors(g, rank, p) == sp && Ancestors(g, rank, q) == sq && s == {c} + sp + sq
    ensures Ancestors(g, rank, c) == s
  {
    ReachTwo(g, rank, {}, c, p, q);
  }

  /** When every ancestor can be loaded, all of them count. */
  lemma LoadedAll(g: Graph, rank: map<CommitId, nat>, c: CommitId, s: set<CommitId>)
    requires Ranked(g, rank) && Ancestors(g, rank, c) == s && s <= g.Keys
    ensures LoadedAncestors(g, rank, c) == s
  {
  }

  function Linear(): Graph {
    map[1 := [], 2 := [1], 3 := [2], 4 := [3]]
  }

  function LinearRank(): map<CommitId, nat> {
    map[1 := 0, 2 := 1, 3 := 2, 4 := 3]
  }

  function Diamond(): Graph {
    map[1 := [], 2 := [1], 3 := [1], 4 := [2, 3]]
  }

  function DiamondRank(): map<CommitId, nat> {
    map[1 := 0, 2 := 1, 3 := 1, 4 := 2]
  }

  lemma LinearRanked()
    ensures Ranked(Linear(), LinearRank())
  {
  }

  lemma DiamondRanked()
    ensures Ranked(Diamond(), DiamondRank())
  {
  }

  lemma LinearLow()
    ensures Ranked(Linear(), LinearRank())
    ensures Ancestors(Linear(), LinearRank(), 2) == {1, 2}
  {
    LinearRanked();
    ReachRoot(Linear(), LinearRank(), {}, 1);
    ReachOne(Linear(), LinearRank(), {}, 2, 1);
  }

  lemma LinearAncestors()
    ensures Ranked(Linear(), LinearRank())
    ensures Ancestors(Linear(), LinearRank(), 2) == {1, 2}
    ensures Ancestors(Linear(), LinearRank(), 4) == {1, 2, 3, 4}
  {
    LinearLow();
    ReachOne(Linear(), LinearRank(), {}, 3, 2);
    ReachOne(Linear(), LinearRank(), {}, 4, 3);
  }

  /** In the line, D is two commits (D and C) past B. */
  lemma LinearDistance()
    ensures Ranked(Linear(), LinearRank())
    ensures Distance(Linear(), LinearRank(), 4, 2) == 2
  {
    LinearAncestors();
    assert LoadedAncestors(Linear(), LinearRank(), 4) - LoadedAncestors(Linear(), LinearRank(), 2) == {3, 4};
  }

  lemma DiamondSides()
    ensures Ranked(Diamond(), DiamondRank())
    ensures Ancestors(Diamond(), DiamondRank(), 1) == {1}
    ensures Ancestors(Diamond(), DiamondRank(), 2) == {1, 2}
    ensures Ancestors(Diamond(), DiamondRank(), 3) == {1, 3}
  {
    DiamondRanked();
    ReachRoot(Diamond(), DiamondRank(), {}, 1);
    ReachOne(Diamond(), DiamondRank(), {}, 2, 1);
    ReachOne(Diamond(), DiamondRank(), {}, 3, 1);
  }

  lemma DiamondAncestors()
    ensures Ranked(Diamond(), DiamondRank())
    ensures Ancestors(Diamond(), DiamondRank(), 1) == {1}
    ensures Ancestors(Diamond(), DiamondRank(), 4) == {1, 2, 3, 4}
  {
    DiamondSides();
    ReachTwo(Diamond(), DiamondRank(), {}, 4, 2, 3);
  }

  /** Every commit of the diamond is loadable, so its ancestors all count. */
  lemma DiamondLoaded()
    ensures Ranked(Diamond(), DiamondRank())
    ensures LoadedAncestors(Diamond(), DiamondRank(), 1) == {1}
    ensures LoadedAncestors(Diamond(), DiamondRank(), 4) == DiamondCommits()
  {
    DiamondAncestors();
    assert Diamond().Keys == {1, 2, 3, 4};
  }

  /** In the diamond, M is three commits (M, B and C) past A, each counted once. */
  lemma DiamondDistance()
    ensures Ranked(Diamond(), DiamondRank())
    ensures Distance(Diamond(), DiamondRank(), 4, 1) == 3
  {
    DiamondLoaded();
    ThreeLeft();
  }

  lemma ThreeLeft()
    ensures |DiamondCommits() - {1}| == 3
  {
    assert DiamondCommits() - {1} == {2, 3, 4};
  }

  function DiamondCommits(): set<CommitId> {
    {1, 2, 3, 4}
  }

  /** With B tagged, the search from D stops at B. */
  lemma LinearNearest()
    ensures Ranked(Linear(), LinearRank())
    ensures NearestTagged(Linear(), LinearRank(), {2}, 4) == {2}
  {
    var g, rank := Linear(), LinearRank();
    LinearRanked();
    ReachStopped(g, rank, {2}, 2);
    ReachOne(g, rank, {2}, 3, 2);
    ReachOne(g, rank, {2}, 4, 3);
  }

  lemma OneTag()
    ensures CollectTags([Tag("v1", 2)]) == map[2 := "v1"]
  {
    assert [Tag("v1", 2)][..0] == [];
  }

  /** The facts about the tagged line that the description depends on. */
  lemma LinearTagged()
    ensures Ranked(Linear(), LinearRank())
    ensures NearestTagged(Linear(), LinearRank(), CollectTags([Tag("v1", 2)]).Keys, 4) == {2}
    ensures CollectTags([Tag("v1", 2)])[2] == "v1"
    ensures Distance(Linear(), LinearRank(), 4, 2) == 2
  {
    OneTag();
    assert CollectTags([Tag("v1", 2)]).Keys == {2};
    LinearNearest();
    LinearDistance();
  }

  /** With B tagged `v1`, the only correct description of D is `v1-2-g`
      followed by the abbreviation. */
  lemma LinearDescription(abbrev: string, d: Description)
    ensures Ranked(Linear(), LinearRank())
    ensures Describes(Linear(), LinearRank(), [Tag("v1", 2)], 4, abbrev, d) <==> d == Tagged("v1", 2, abbrev)
    ensures Render(Tagged("v1", 2, abbrev)) == "v1-2-g" + abbrev
  {
    LinearTagged();
    SingleCandidate(Linear(), LinearRank(), [Tag("v1", 2)], 4, abbrev, d, 2);
    RenderV1(abbrev);
  }

  lemma RenderV1(abbrev: string)
    ensures Render(Tagged("v1", 2, abbrev)) == "v1-2-g" + abbrev
  {
    assert Decimal(2) == "2";
  }

  function Fork(): Graph {
    map[1 := [], 2 := [1], 3 := [1], 4 := [2], 5 := [4, 3]]
  }

  function ForkRank(): map<CommitId, nat> {
    map[1 := 0, 2 := 1, 3 := 1, 4 := 2, 5 := 3]
  }

  function ForkCommits(): set<CommitId> {
    {1, 2, 3, 4, 5}
  }

  lemma ForkRanked()
    ensures Ranked(Fork(), ForkRank())
  {
  }

  lemma ForkRoot()
    ensures Ranked(Fork(), ForkRank())
    ensures Ancestors(Fork(), ForkRank(), 1) == {1}
  {
    ForkRanked();
    ReachRoot(Fork(), ForkRank(), {}, 1);
  }

  lemma ForkB()
    ensures Ranked(Fork(), ForkRank())
    ensures Ancestors(Fork(), ForkRank(), 2) == {1, 2}
  {
    ForkRoot();
    ReachOne(Fork(), ForkRank(), {}, 2, 1);
  }

  lemma ForkC()
    ensures Ranked(Fork(), ForkRank())
    ensures Ancestors(Fork(), ForkRank(), 3) == {1, 3}
  {
    ForkRoot();
    ReachOne(Fork(), ForkRank(), {}, 3, 1);
  }

  lemma ForkE()
    ensures Ranked(Fork(), ForkRank())
    ensures Ancestors(Fork(), ForkRank(), 4) == {1, 2, 4}
  {
    ForkB();
    ReachOne(Fork(), ForkRank(), {}, 4, 2);
  }

  lemma ForkF()
    ensures Ranked(Fork(), ForkRank())
    ensures Ancestors(Fork(), ForkRank(), 5) == ForkCommits()
  {
    ForkE();
    ForkC();
    AncestorsTwo(Fork(), ForkRank(), 5, 4, 3, {1, 2, 4}, {1, 3}, ForkCommits());
  }

  /** Every commit of the fork is loadable. */
  lemma ForkLoaded()
    ensures Ranked(Fork(), ForkRank())
    ensures LoadedAncestors(Fork(), ForkRank(), 2) == {1, 2}
    ensures LoadedAncestors(Fork(), ForkRank(), 3) == {1, 3}
    ensures LoadedAncestors(Fork(), ForkRank(), 5) == ForkCommits()
  {
    ForkB();
    ForkC();
    ForkF();
    ForkKeys();
    LoadedAll(Fork(), ForkRank(), 2, {1, 2});
    LoadedAll(Fork(), ForkRank(), 3, {1, 3});
    LoadedAll(Fork(), ForkRank(), 5, ForkCommits());
  }

  lemma ForkKeys()
    ensures Fork().Keys == ForkCommits()
  {
  }

  lemma ForkLeftovers()
    ensures |ForkCommits() - {1, 2}| == 3
    ensures |ForkCommits() - {1, 3}| == 3
  {
    assert ForkCommits() - {1, 2} == {3, 4, 5};
    assert ForkCommits() - {1, 3} == {2, 4, 5};
  }

  /** F is three commits past B (F, E and C) and three past C (F, E and B). */
  lemma ForkDistances()
    ensures Ranked(Fork(), ForkRank())
    ensures Distance(Fork(), ForkRank(), 5, 2) == 3
    ensures Distance(Fork(), ForkRank(), 5, 3) == 3
  {
    ForkLoaded();
    ForkLeftovers();
  }

  /** With B and C tagged, the search from F finds both. */
  lemma ForkNearest()
    ensures Ranked(Fork(), ForkRank())
    ensures NearestTagged(Fork(), ForkRank(), {2, 3}, 5) == {2, 3}
  {
    var g, rank := Fork(), ForkRank();
    ForkRanked();
    ReachStopped(g, rank, {2, 3}, 2);
    ReachStopped(g, rank, {2, 3}, 3);
    ReachOne(g, rank, {2, 3}, 4, 2);
    ReachTwo(g, rank, {2, 3}, 5, 4, 3);
  }

  /** One step from F reaches C but not B. */
  lemma ForkFirstLevel(tagged: set<CommitId>)
    requires tagged == {2, 3}
    ensures Near(Fork(), tagged, 5, 1) == {5, 4, 3}
    ensures 3 in Near(Fork(), tagged, 5, 1) && 2 !in Near(Fork(), tagged, 5, 1)
  {
    assert Near(Fork(), tagged, 5, 0) == {5};
    assert 4 in Fork()[5] && 3 in Fork()[5];
  }

  lemma TwoTags()
    ensures CollectTags([Tag("x", 2), Tag("y", 3)]) == map[2 := "x", 3 := "y"]
  {
    assert [Tag("x", 2), Tag("y", 3)][..1] == [Tag("x", 2)];
    assert [Tag("x", 2)][..0] == [];
  }

  /** The facts about the tagged fork that the description depends on. */
  lemma ForkTagged()
    ensures Ranked(Fork(), ForkRank())
    ensures NearestTagged(Fork(), ForkRank(), CollectTags([Tag("x", 2), Tag("y", 3)]).Keys, 5) == {2, 3}
    ensures Distance(Fork(), ForkRank(), 5, 2) == Distance(Fork(), ForkRank(), 5, 3) == 3
    ensures 3 in Near(Fork(), CollectTags([Tag("x", 2), Tag("y", 3)]).Keys, 5, 1)
    ensures 2 !in Near(Fork(), CollectTags([Tag("x", 2), Tag("y", 3)]).Keys, 5, 1)
    ensures CollectTags([Tag("x", 2), Tag("y", 3)])[3] == "y"
  {
    TwoTags();
    assert CollectTags([Tag("x", 2), Tag("y", 3)]).Keys == {2, 3};
    ForkNearest();
    ForkDistances();
    ForkFirstLevel(CollectTags([Tag("x", 2), Tag("y", 3)]).Keys);
  }

  /** With B tagged `x` and C tagged `y`, both three commits behind F, the
      only correct description of F names `y`: C is one step from F, while B
      is two, although F lists E, the parent leading to B, first. */
  lemma ForkDescription(abbrev: string, d: Description)
    ensures Ranked(Fork(), ForkRank())
    ensures Describes(Fork(), ForkRank(), [Tag("x", 2), Tag("y", 3)], 5, abbrev, d) <==> d == Tagged("y", 3, abbrev)
  {
    ForkTagged();
    CloserWins(Fork(), ForkRank(), [Tag("x", 2), Tag("y", 3)], 5, abbrev, d, 2, 3, 1);
  }
}
