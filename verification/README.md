# jgit-describe: the nearest-tag describe core in Dafny

This project models the Ant task `JGitDescribeTask` once it has the
repository open and the target commit resolved. It reads the repository's
tags and searches the target's history breadth-first for the nearest tagged
commit on every lineage. It then measures how many commits separate the
target from each such commit, counting a commit once even when merges reach
it along several paths. Finally it writes `<tag>-<distance>-g<abbrev>`, or the
abbreviated id alone when no tag is behind the target.

The commit graph is a map from commit id to the ids of its parents. An id
that is not a key stands for an object `mapCommit` cannot read. The code
catches that error, prints the stack trace and skips the edge, and the model
skips the edge the same way. Commit histories are acyclic. The model states
this with a ghost `rank` that drops along every parent edge between
loadable commits.

The contracts are stated against two reference definitions. The first is
`CommitGraph.Reach`: the set of ids reachable from a commit through loadable
commits, where the walk stops at a set of commits. From it come:

- `Ancestors`: Reach with nothing to stop at.
- `NearestTagged`: Reach stopping at the tagged commits, cut to the tagged
  commits that can be loaded.
- `Distance(child, parent)`: the number of loadable ancestors of `child`
  that are not ancestors of `parent`.

`CommitGraph.ReachIsPathEnds` characterises Reach as the ends of parent paths.

The second is `CommitGraph.Near(g, stop, c, k)`: the ids a breadth-first
search from `c` reaches within `k` levels, never expanding a commit in
`stop`. `CommitGraph.NearIsShortPaths` characterises it as the ends of parent
paths of at most `k` edges. The breadth-first order of the list
`CandidateCommits` returns, and the rule in `Describes` that a tie at the
least distance goes to a commit reached in fewest steps, are stated against
Near.

Modules, one per part of the source:

- `CommitGraph` (graph.dfy): the graph, the reference definitions and their lemmas.
- `TagIndex` (tags.dfy): `collectTags`.
- `Candidates` (candidates.dfy): `candidateCommits`.
- `AncestorWalk` (walk.dfy): `seeAllParents`.
- `CommitDistance` (distance.dfy): `distanceBetween`.
- `Selection` (selection.dfy): the best-match loop of `execute`.
- `Format` (format.dfy): the string `execute` builds, with a parser as its inverse.
- `Describe` (describe.dfy): `execute` from the tag index on.
- `Wrappers` (wrappers.dfy): the `Option` used where the code uses `null`.
- `Examples` (examples.dfy): a straight line, a diamond and a fork worked
  through the definitions.

## Model

| member | source | states |
|---|---|---|
| TagIndex.CollectTags | src/org/mdonoughe/JGitDescribeTask.java:51-61 | an id is a key of the index exactly when some tag ref holds it, and the name stored for it is the name of a tag holding that id |
| Candidates.CandidateCommits | src/org/mdonoughe/JGitDescribeTask.java:63-90 | the returned list holds exactly the nearest tagged commits of the target (tagged, loadable, reached through untagged commits only), each once, in breadth-first order: whatever is within k steps of the target, so is every earlier entry; a tagged target yields the list holding only itself |
| Candidates.UnseenParents | src/org/mdonoughe/JGitDescribeTask.java:77-86 | every parent id is marked seen, even one that cannot be loaded; the queued ids are exactly the loadable parents not seen before, each once |
| CommitGraph.NearIsShortPaths | src/org/mdonoughe/JGitDescribeTask.java:63-90 | the ids within k steps of the search are exactly the ends of parent paths of at most k edges through loadable untagged commits, which makes the breadth-first order above an order by shortest path |
| Candidates.NearestTaggedPaths | src/org/mdonoughe/JGitDescribeTask.java:70-87 | a commit is found by the search exactly when it is loadable and tagged and a parent path leads to it from the target through loadable untagged commits |
| AncestorWalk.SeeAllParents | src/org/mdonoughe/JGitDescribeTask.java:92-108 | the walk adds to the caller's set exactly the strict ancestors of the commit and nothing else; it ends although it keeps no visited set |
| AncestorWalk.MarkParents | src/org/mdonoughe/JGitDescribeTask.java:99-106 | all parent ids are added to the set, and exactly the loadable ones are queued, in parent order |
| AncestorWalk.Loadable | src/org/mdonoughe/JGitDescribeTask.java:101-105 | the ids that reach the queue are exactly the parents that can be loaded |
| CommitDistance.DistanceBetween | src/org/mdonoughe/JGitDescribeTask.java:110-153 | for a candidate that is an ancestor of the target, the result is the number of loadable ancestors of the target that are not ancestors of the candidate; for any other commit, the number of loadable ancestors of the target |
| CommitDistance.UnseenLoadable | src/org/mdonoughe/JGitDescribeTask.java:140-148 | the ids queued are exactly the loadable parents not yet seen; nothing is marked |
| CommitDistance.TakeBack | src/org/mdonoughe/JGitDescribeTask.java:131-135 | the count drops by exactly the number of the candidate's ancestors that were already seen |
| CommitDistance.DistanceToSelf | src/org/mdonoughe/JGitDescribeTask.java:110-153 | a commit is at distance 0 from itself |
| CommitDistance.DistanceCountsTarget | src/org/mdonoughe/JGitDescribeTask.java:110-153 | measured from a strict ancestor, the target itself is counted, so the distance is at least 1 |
| CommitGraph.ReachIsPathEnds | src/org/mdonoughe/JGitDescribeTask.java:63-108 | the region a stopping walk covers is exactly the set of ends of parent paths that pass only through loadable, unstopped commits |
| Selection.PickBest | src/org/mdonoughe/JGitDescribeTask.java:188-197 | there is no best exactly when there are no candidates, and then the distance stays 0; otherwise the best is a candidate of least distance, earlier than every other candidate at that distance, and its distance is returned |
| Selection.EarliestMinUnique | src/org/mdonoughe/JGitDescribeTask.java:193 | the earliest least entry is unique, so the strict comparison fixes the winner among equal distances |
| Format.Decimal | src/org/mdonoughe/JGitDescribeTask.java:203 | the distance is written as a decimal numeral: digits only, no sign, and no superfluous leading zero |
| Format.Render | src/org/mdonoughe/JGitDescribeTask.java:199-206 | for a tagged result, the tag name, `-`, the decimal numeral of the distance (which reads back as the distance), `-g` and the abbreviation; otherwise the abbreviation alone |
| Format.DecimalValue | src/org/mdonoughe/JGitDescribeTask.java:203 | the numeral written for a distance reads back as that distance |
| Format.ValueDecimal | src/org/mdonoughe/JGitDescribeTask.java:203 | every numeral without a superfluous leading zero is the one written for its value |
| Format.ParseRender | src/org/mdonoughe/JGitDescribeTask.java:199-206 | reading back the string built for a description whose abbreviation has no `-` gives that description, tag name and distance included |
| Format.RenderParse | src/org/mdonoughe/JGitDescribeTask.java:199-206 | every string that reads back is the string built for what it reads to, and that description is well formed |
| Describe.MeasureAll | src/org/mdonoughe/JGitDescribeTask.java:191-192 | the distance of every candidate, in candidate order |
| Describe.Describe | src/org/mdonoughe/JGitDescribeTask.java:184-206 | the result is a correct description: the abbreviation alone exactly when no tagged commit is behind the target; otherwise the name of a nearest tagged commit at the least distance among them, with that distance, and of those at that distance one reached in fewest steps. The output is its rendering, and a tagged target gets its own tag at distance 0 |
| Describe.BestCandidate | src/org/mdonoughe/JGitDescribeTask.java:188-197 | the candidate the strict comparison keeps has the least distance, and no candidate at that distance is reached in fewer steps, because the candidates arrive in breadth-first order |
| Describe.CloserWins | src/org/mdonoughe/JGitDescribeTask.java:184-206 | when the two nearest tagged commits are at the same distance and only one of them lies within some number of steps of the target, a description is correct exactly when it names that one, with its distance |
| Describe.SingleCandidate | src/org/mdonoughe/JGitDescribeTask.java:184-206 | with a single nearest tagged commit, a description is correct exactly when it is that commit's tag name with its distance |
| Describe.NearestAreAncestors | src/org/mdonoughe/JGitDescribeTask.java:186-192 | every candidate handed to the distance walk is an ancestor of the target |
| Examples.LinearDistance | src/org/mdonoughe/JGitDescribeTask.java:110-153 | in a line A, B, C, D the distance from D to B is 2 |
| Examples.DiamondDistance | src/org/mdonoughe/JGitDescribeTask.java:110-153 | in a diamond where merge M has parents B and C, both children of A, the distance from M to A is 3: M, B and C are counted, and A, reached along both sides, is not |
| Examples.LinearNearest | src/org/mdonoughe/JGitDescribeTask.java:63-90 | in the line with B tagged, the search from D finds B alone |
| Examples.LinearDescription | src/org/mdonoughe/JGitDescribeTask.java:184-206 | in the line with B tagged `v1`, a description of D is correct exactly when it is tag `v1` at distance 2, which renders as `v1-2-g` followed by the abbreviation |
| Examples.ForkDescription | src/org/mdonoughe/JGitDescribeTask.java:184-206 | in a fork whose merge F has parents E and C, with B the parent of E, both B and C children of A, B tagged `x` and C tagged `y`: both tags are three commits behind F, and a description of F is correct exactly when it is tag `y` at distance 3, although F lists E first |

## Left out

- Ant plumbing (the attribute setters, the constructor's defaults, the checks for a missing `property` or directory, and `setProperty`): not part of the algorithm.
- Opening the repository and resolving the target, with their error messages: I/O. The model starts from a loadable target commit.
- `abbreviate`: a JGit call into the object database. The abbreviated id is taken as a given string. Only the round trip Format.ParseRender assumes it holds no `-`, which a hexadecimal id never does.
- The stack traces printed when a parent cannot be loaded: output only. The edge is skipped, as in the code.
- A parent whose object is missing: JGit's `mapCommit` then returns `null` rather than raising. The code queues the `null` (lines 81, 102, 143) and dereferences it at the next dequeue (lines 72, 99, 121). The resulting `NullPointerException` aborts `execute`. The model instead skips that edge, as it does for a read error, so it describes histories with missing objects where the code fails.
- Iteration order of the tag map and of the `seenb` set: `HashMap` and `HashSet` order is unspecified. The tag list and the set walk of `TakeBack` take any order.
- Annotated tags: the index maps the id each tag ref holds (line 56). For an annotated tag that is the id of the tag object, not of the commit it names, and no commit has a tag object as a parent. So the search never meets such an id, and the description only ever uses lightweight tags. The model keeps this behaviour: a tag is a name and the id its ref holds, and it does not peel annotated tags.
- TagIndex.CollectTags: does not say which name survives when two tags point at one commit. The code keeps the last one in map iteration order, which is unspecified.
- CommitDistance.DistanceBetween: does not model 32-bit overflow of the counter, because a history would need more than 2^31 commits.
- Candidates.CandidateCommits: states the breadth-first order level by level only. Within one level the list follows the parent lists of the commits expanded before, which the contract does not state.
- Describe.Describe: of several nearest tags at the least distance and the same number of steps from the target, it does not say which wins. The code keeps the first in queue order, which follows the order of each commit's parent list. Selection.PickBest states that rule over the candidate list.
- Describe.MeasureAll: the code measures each candidate inside the selection loop, while the model measures all of them first. The walks change no shared state, so the two orders compute the same distances; measuring first only changes the order of the stack traces printed for unreadable parents.
- Running time: `seeAllParents` keeps no visited set, so a commit reachable along many paths is queued once per path. Its queue can grow exponentially with the number of merges, so memory is not bounded by the size of any visited set. The model proves that the walk ends and what it adds; it does not bound its cost.
