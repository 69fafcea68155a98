# Tapped-line fault locator — a Dafny model of the core

The tapped-line fault locator takes the line strings of one tapped power
line and a reference point, the substation. It builds an **edge-node tree**
rooted at the line end nearest the reference point. It then **validates**
the geometry against three topology rules. Given a distance to a fault, it
**walks** that tree down every branch and collects each point that lies at
that distance from the root.

This project models those three pieces as immutable datatypes and pure
functions, and proves properties of them:

- `geometry.dfy` (module `Geometry`). Coordinates are compared by exact
  equality. A line is an ordered sequence of at least two coordinates.
  `Reverse` reverses a line. `RemoveFirst` is a list's remove-by-value.
- `edge_tree.dfy` (module `EdgeTree`). `Edge` is a line with its start and
  end read off once. `Node` is an edge with ordered children. The module also
  holds the tree invariants `Continuous` and `DrawnFrom`.
- `rules_tester.dfy` (module `RulesTester`). It states each of the three
  rules twice:
  - as the scan the tester performs: `ContainsClosedLoop`,
    `ConnectedLineStrings` and `SharedPoints`;
  - as the property the scan decides: `SomeLineClosed`,
    `EveryLineHasPartner` and `NoInteriorSharing`.

  `Check` combines the rules in the tester's order and `Passes` is the gate.
  When a scan skips "the line itself", it compares two line strings with the
  geometry library's topological equality (the same point set), not with
  exact coordinate-by-coordinate equality. So a line also skips its own
  reverse. That comparison is the parameter `same`. `LineIdentity` records
  what topological equality guarantees:
  - every line is the same as itself and as its reverse;
  - the relation is symmetric;
  - two segments are the same only when they have the same two endpoints.
- `tree_builder.dfy` (module `TreeBuilder`) holds the construction:
  - the anchor search `Anchor`;
  - the root line `RootLine` and its orientation `Orient`;
  - the growth `ConstructEdgeTree`;
  - the whole construction `ConstructEdgeNodeTree`.

  The growth loop iterates over a copy-on-write list. The loop therefore
  visits the pool as it was when the node was entered (its *snapshot*).
  Meanwhile removals, both here and in deeper growth, shrink the *live*
  pool. The model is a fold over the snapshot that threads the live pool
  (`AttachFrom`). Its termination measure is the size of the entry pool.
  At every depth, growth leaves nothing hanging. Take a pool line with an
  endpoint at the end of any edge in the grown tree: that line is itself an
  edge of the tree, as it is or reversed (`TreeBuilder.Saturated`, over the
  tree's edge lines `EdgeTree.TreeLines` and edge ends `EdgeTree.TreeEnds`).
- `fault_locator.dfy` (module `FaultLocator`). `LocateFault` walks the tree.
  Every point it returns is located on a root-to-node path (`Located`). When
  no line has a negative length, it returns exactly the points `Located`
  defines.
- `wrappers.dfy` (module `Wrappers`) holds `Option` and `Result`.

Three geodesic measurements are also parameters of the model:

- the planar distance used by the anchor search;
- the geodesic length of a line;
- the point located a distance along a line.

The model names them `distance`, `Geodesy.length` and
`Geodesy.locateAlong`. Every statement holds for every choice of them,
except where a contract says otherwise.

Some behaviours of the code that a reader might not expect:

- A geometry of one line fails the connectivity rule, although the doc
  comment of `connectedLineStrings` says a single line string need not be
  connected (`TreeBuilder.SingleLineRejected`).
- Nothing checks that every line was placed in the tree. Construction
  succeeds exactly when an anchor exists and the three rules hold
  (`TreeBuilder.ConstructSucceedsIff`).
- A pool line with both ends at the growing edge's end is attached twice:
  once as it is and once reversed (`TreeBuilder.LoopBackAttachedTwice`).
- The back-and-forth pair P-Q, Q-P on its own fails the connectivity rule:
  each line skips the other as the same line (`TreeBuilder.BackAndForthRejected`).
- With a third line S-P, both P-Q and Q-P meet S-P at P, so the rules pass.
  The tree then holds the edge P-Q twice under the same parent
  (`TreeBuilder.RoundTripPassesRules`).
- A line and its reverse are not compared by the interior-sharing rule, so
  A-B-C and C-B-A together pass it (`RulesTester.ReversedCopySharesNoInterior`).
- When the root line had to be reversed, the pool still holds the original
  line. That line is grown again as a child of the root
  (`TreeBuilder.ReversedRootReappears`).

## Model

| member | source | states |
|---|---|---|
| EdgeTree.NewEdge | src/main/java/com/yakovliam/EdgeNodeTreeConstructor.java:184-189 | An edge's start is its line's first coordinate and its end is the line's last coordinate |
| EdgeTree.NewEdgeReversed | src/main/java/com/yakovliam/EdgeNodeTreeConstructor.java:150 | The edge of a reversed line has the start and end swapped |
| Geometry.Reverse | src/main/java/com/yakovliam/EdgeNodeTreeConstructor.java:98 | The reversed line has the same length and holds the coordinates in the opposite order, so first and last swap |
| Geometry.ReverseInvolutive | src/main/java/com/yakovliam/EdgeNodeTreeConstructor.java:150 | Reversing twice gives back the original line |
| Geometry.RemoveFirst | src/main/java/com/yakovliam/EdgeNodeTreeConstructor.java:104 | Removal by value takes exactly one occurrence out of the pool when one is present, and nothing otherwise |
| Geometry.RemoveFirstSplits | src/main/java/com/yakovliam/EdgeNodeTreeConstructor.java:145 | The occurrence removed is the first one exactly equal, and the order of the rest is kept |
| Geometry.RemovalShrinks | src/main/java/com/yakovliam/EdgeNodeTreeConstructor.java:137-155 | Removing a snapshot line from the live pool leaves a pool strictly smaller than the snapshot and still within it, whether or not deeper growth already took the line; this is why growth terminates |
| RulesTester.ContainsClosedLoop | src/main/java/com/yakovliam/TappedLineRulesTester.java:50-64 | The scan reports true exactly when some line's first coordinate equals its last |
| RulesTester.ConnectedLineStrings | src/main/java/com/yakovliam/TappedLineRulesTester.java:72-106 | True exactly when every line shares one of the four endpoint pairings with some line that is not the same line (topologically) as it |
| RulesTester.AllConnectedFrom | src/main/java/com/yakovliam/TappedLineRulesTester.java:81-105 | The outer scan succeeds exactly when every line from the current position on has a partner; it stops at the first line without one |
| RulesTester.HasPartnerFrom | src/main/java/com/yakovliam/TappedLineRulesTester.java:85-97 | The inner scan finds a partner exactly when a later line is not the same line as the given one and shares an endpoint with it |
| RulesTester.CopiesAreNotConnected | src/main/java/com/yakovliam/TappedLineRulesTester.java:85-88 | A geometry whose lines are all copies of one line, one line in particular, is not connected |
| RulesTester.BackAndForthNotConnected | src/main/java/com/yakovliam/TappedLineRulesTester.java:85-88 | A line and its reverse skip each other, so the pair P-Q, Q-P on its own is not connected |
| RulesTester.SharedPoints | src/main/java/com/yakovliam/TappedLineRulesTester.java:115-148 | True exactly when no line has a coordinate lying inside a line that is not the same line as it, away from that line's two ends |
| RulesTester.AnyHitFrom | src/main/java/com/yakovliam/TappedLineRulesTester.java:124-145 | The outer scan hits exactly when some line from the current position on has a coordinate inside a line not the same as it |
| RulesTester.OtherHitFrom | src/main/java/com/yakovliam/TappedLineRulesTester.java:127-140 | The middle scan hits exactly when some later line that is not the same as the given line holds one of its coordinates away from its ends |
| RulesTester.ReversedCopySharesNoInterior | src/main/java/com/yakovliam/TappedLineRulesTester.java:127-130 | S-A, A-B-C, C-B-A passes the interior-sharing rule, because A-B-C and its reverse are never compared |
| RulesTester.CoordHitFrom | src/main/java/com/yakovliam/TappedLineRulesTester.java:132-139 | The coordinate scan hits exactly when some remaining coordinate occurs in the other line but is neither its first nor its last |
| RulesTester.TwoPointLinesShareNoInterior | src/main/java/com/yakovliam/TappedLineRulesTester.java:132-135 | Lines of two points have no interior, so they never break the interior-sharing rule |
| RulesTester.Check | src/main/java/com/yakovliam/TappedLineRulesTester.java:16-41 | The null-root verdict comes only from a missing root, and a pass only with a root |
| RulesTester.CheckReportsFirstFailure | src/main/java/com/yakovliam/TappedLineRulesTester.java:16-41 | The verdict names the first failing check in the order closed loop, connectivity, shared points, null root; a later check fails only when all earlier ones hold |
| RulesTester.Passes | src/main/java/com/yakovliam/TappedLineRulesTester.java:16-41 | The gate passes exactly when no line is closed, every line has a partner, no interior point is shared, and there is a root |
| RulesTester.EmptyGeometryPasses | src/main/java/com/yakovliam/TappedLineRulesTester.java:57-63 | An empty geometry passes the three geometry checks, so only the root decides |
| TreeBuilder.NearestFrom | src/main/java/com/yakovliam/EdgeNodeTreeConstructor.java:49-69 | The strict-less-than scan ends holding the first endpoint of least distance, if that distance is below the largest double, and nothing otherwise |
| TreeBuilder.EndpointsAt | src/main/java/com/yakovliam/EdgeNodeTreeConstructor.java:52-58 | The scan visits each line's first coordinate and then its last, line by line |
| TreeBuilder.Anchor | src/main/java/com/yakovliam/EdgeNodeTreeConstructor.java:49-73 | An empty line list has no anchor |
| TreeBuilder.AnchorMissing | src/main/java/com/yakovliam/EdgeNodeTreeConstructor.java:49-73 | No anchor is found exactly when every endpoint is at least the largest double away from the reference, the empty input in particular |
| TreeBuilder.AnchorIsFirstNearest | src/main/java/com/yakovliam/EdgeNodeTreeConstructor.java:52-69 | The anchor is an endpoint of some line, and no endpoint is strictly nearer; every endpoint scanned before it is strictly farther, so on a tie the earliest wins |
| TreeBuilder.RootLine | src/main/java/com/yakovliam/EdgeNodeTreeConstructor.java:78-92 | The root line is the first input line with the anchor as an endpoint; there is none exactly when no line touches the anchor |
| TreeBuilder.Orient | src/main/java/com/yakovliam/EdgeNodeTreeConstructor.java:96-99 | The oriented root line starts at the anchor; it is the line's reverse when its last coordinate is the anchor and the line as it is otherwise |
| TreeBuilder.MatchOne | src/main/java/com/yakovliam/EdgeNodeTreeConstructor.java:142-154 | Every line one pool line contributes starts at the growing edge's end and is that line or its reverse |
| TreeBuilder.Matches | src/main/java/com/yakovliam/EdgeNodeTreeConstructor.java:137-154 | Every line the snapshot contributes as a child starts at the growing edge's end |
| TreeBuilder.ConstructEdgeTree | src/main/java/com/yakovliam/EdgeNodeTreeConstructor.java:130-158 | The grown subtree is continuous and drawn from the entry pool. Its children are the matches of the whole entry snapshot, in snapshot order, whatever deeper growth removed from the live pool. At every depth, each entry-pool line that touches the end of any edge of the subtree is itself an edge of the subtree, as it is or reversed. Each line that left the live pool was attached somewhere in the subtree |
| TreeBuilder.ChainGrowsBeyondFirstLevel | src/main/java/com/yakovliam/EdgeNodeTreeConstructor.java:143-146 | Growing an edge ending at P from the pool [P-Q, Q-R] puts Q-R, which hangs off the child P-Q, on the tree as well |
| TreeBuilder.AttachFrom | src/main/java/com/yakovliam/EdgeNodeTreeConstructor.java:137-155 | The snapshot loop attaches, in order, every match of the snapshot from the current position; each child starts at the end and the live pool only shrinks. Each line the loop takes out of the live pool is on the attached subtrees, and so is each line live on entry that touches one of their edge ends |
| TreeBuilder.AttachOne | src/main/java/com/yakovliam/EdgeNodeTreeConstructor.java:138-154 | One turn attaches the line as it is when it starts at the end, and then reversed when it ends there |
| TreeBuilder.AttachAsIs | src/main/java/com/yakovliam/EdgeNodeTreeConstructor.java:142-147 | The first test attaches the line as it is exactly when it starts at the end, and the live pool only shrinks |
| TreeBuilder.AttachReversed | src/main/java/com/yakovliam/EdgeNodeTreeConstructor.java:149-154 | The second test attaches the reversed line exactly when the line ends at the end, and the live pool only shrinks |
| TreeBuilder.GrowChild | src/main/java/com/yakovliam/EdgeNodeTreeConstructor.java:143-153 | The child's subtree is continuous and drawn from the snapshot, grown from the live pool with the line removed. Every line of the live pool that touches one of its edge ends, or that its growth consumed, is on the subtree |
| TreeBuilder.RootedTree | src/main/java/com/yakovliam/EdgeNodeTreeConstructor.java:78-106 | Growth from the root fails with "no line string" exactly when no line touches the anchor. Otherwise the root edge is the first line touching the anchor, oriented to start there. Its children are the matches of the input with the first exact copy of that oriented line removed, and the tree is continuous and drawn from the input. Every input line that touches the end of any edge of the tree is itself an edge of the tree, as it is or reversed |
| TreeBuilder.ConstructEdgeNodeTree | src/main/java/com/yakovliam/EdgeNodeTreeConstructor.java:36-118 | Empty input fails for want of a closest point; a tree is returned only when the rules pass on the input; the returned tree is the one grown from the anchor's root line, starts at the anchor, is continuous and uses only input lines or their reverses; every input line touching the end of one of its edges is on it |
| TreeBuilder.ConstructSucceedsIff | src/main/java/com/yakovliam/EdgeNodeTreeConstructor.java:71-117 | Construction succeeds exactly when an anchor exists and the three rules hold, so no leftover line causes failure; it fails for want of an anchor exactly when every endpoint is too far |
| TreeBuilder.SingleLineRejected | src/main/java/com/yakovliam/TappedLineRulesTester.java:85-105 | A geometry of one line is never built into a tree |
| TreeBuilder.BackAndForthRejected | src/main/java/com/yakovliam/EdgeNodeTreeConstructor.java:110-113 | The input P-Q, Q-P is never built into a tree |
| TreeBuilder.IsolatedLineRejected | src/main/java/com/yakovliam/EdgeNodeTreeConstructor.java:110-113 | A line sharing no endpoint with a different line makes construction fail |
| TreeBuilder.MatchesContain | src/main/java/com/yakovliam/EdgeNodeTreeConstructor.java:137-154 | Every child a pool line yields is among the children the whole snapshot yields |
| TreeBuilder.MatchesContainAll | src/main/java/com/yakovliam/EdgeNodeTreeConstructor.java:137-154 | Counting repetitions, every child a pool line yields is among the children the whole snapshot yields |
| TreeBuilder.LoopBackAttachedTwice | src/main/java/com/yakovliam/EdgeNodeTreeConstructor.java:142-154 | A pool line with both ends at the growing edge's end becomes two children, itself and its reverse, counted separately even when the line reads the same backwards |
| TreeBuilder.ReversedRootReappears | src/main/java/com/yakovliam/EdgeNodeTreeConstructor.java:96-106 | When the root line was reversed, the original line stays in the pool and becomes a child of the root |
| TreeBuilder.GrowthRetriesConsumedLine | src/main/java/com/yakovliam/EdgeNodeTreeConstructor.java:137-154 | A line consumed by deeper growth is still tried by the parent's loop from its snapshot, and attached again |
| TreeBuilder.RoundTripPassesRules | src/main/java/com/yakovliam/EdgeNodeTreeConstructor.java:36-118 | The input S-P, P-Q, Q-P passes the rules, because P-Q and Q-P both meet S-P, and yields a root with two children along P-Q |
| FaultLocator.WalkTree | src/main/java/com/yakovliam/FaultLocator.java:22-55 | A remaining distance of zero or less yields nothing; a distance within the node's own edge yields at most the point located on it, and nothing when none can be located |
| FaultLocator.WalkKids | src/main/java/com/yakovliam/FaultLocator.java:50-54 | A node with no children yields nothing past its edge, and every child's points are among the children's points |
| FaultLocator.WalkKidsMember | src/main/java/com/yakovliam/FaultLocator.java:50-54 | The points from the children are exactly those found in some child's walk |
| FaultLocator.WalkSound | src/main/java/com/yakovliam/FaultLocator.java:22-55 | Every point the walk returns is located on some root-to-node path, at the node whose cumulative span contains the distance |
| FaultLocator.WalkComplete | src/main/java/com/yakovliam/FaultLocator.java:22-55 | With non-negative lengths, every point located on a root-to-node path is returned by the walk |
| FaultLocator.LocateFault | src/main/java/com/yakovliam/FaultLocator.java:14-20 | No point for a distance of zero or less; every returned point is located on a branch; with non-negative lengths every located point is returned |
| FaultLocator.SingleEdge | src/main/java/com/yakovliam/FaultLocator.java:29-54 | A single edge of length L gives at most one point: the located point for a distance in (0, L] when it exists, and nothing beyond L |
| FaultLocator.ChildrenUnvisitedWithinEdge | src/main/java/com/yakovliam/FaultLocator.java:35-46 | When the distance ends within a node's own edge, the children do not affect the result |
| FaultLocator.FanOut | src/main/java/com/yakovliam/FaultLocator.java:50-54 | Past a node's edge, with every child long enough, the result is one located point per child, with duplicates collapsed |
| FaultLocator.SiblingOrderIrrelevant | src/main/java/com/yakovliam/FaultLocator.java:16 | The result depends only on which children a node has, not on their order or repetition |

## Left out

- Topological line equality is not computed: it is the parameter `same`. Only the facts in `RulesTester.LineIdentity` are assumed of it, and only by the lemmas that need them.
- GeometryUtil.java is not part of this model. The geodesic length and locate-along computations are the parameters `Geodesy.length` and `Geodesy.locateAlong`, and the planar distance is the parameter `distance`.
- Bootstrapper.java is not part of this model: resource reading, GeoJSON parsing and writing, the distance sweep, and file output are I/O.
- `debugPrintEdgeTree`, `writeToFile` and all logging produce output only and are left out.
- Floating point is not modelled. Distances and lengths are exact reals, so rounding in the repeated subtraction, NaN and negative zero do not arise.
- The null-`Double` unboxing failure when a length cannot be computed is left out: the length is treated as a total function.
- Z (elevation) coordinates are left out: a coordinate is its x and y only.
- The thread safety of the copy-on-write collections is left out. Only their snapshot-iteration semantics are modelled.
- The tester and the walk do not change the geometry or the tree. The model needs no statement for this, because its values are immutable and its functions are pure.
- The `NullRoot` verdict is modelled in `RulesTester.Check`, but construction never produces it, because construction always passes a root.
- FaultLocator.LocateFault: completeness, meaning every located point is returned, is stated only for non-negative lengths. With a negative length, a path that passes through a non-positive cumulative distance is cut off by the walk's early return.
- TreeBuilder.ConstructEdgeTree: the order and the multiplicity of children below the first level are not stated. They depend on which lines are still live at that depth, and the contract states that pool only as a sub-pool of the entry pool. Below the first level, the contract states which lines the tree holds (every pool line meeting an edge end), not where each one hangs.
