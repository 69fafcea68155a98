/** The branching distance walk: the points reached by travelling a given
    distance from the root along every branch of the edge-node tree. */
module FaultLocator {
  import opened Wrappers
  import opened Geometry
  import opened EdgeTree

  /** The geodesic measurements the walk relies on: the length of a line, and
      the point reached by walking a distance from a line's start along its
      vertices (`None` when it cannot be computed). */
  datatype Geodesy = Geodesy(length: Line -> real, locateAlong: (Line, real) -> Option<Coord>)

  /** Geodesic lengths are sums of distances and so never negative. */
  ghost predicate NonNegativeLengths(g: Geodesy) {
    forall l :: g.length(l) >= 0.0
  }

  /** The walk at node `n` with `remaining` distance still to travel. */
  function WalkTree(n: Node, remaining: real, g: Geodesy): (r: set<Coord>)
    ensures remaining <= 0.0 ==> r == {}
    ensures remaining <= g.length(n.edge.line) && g.locateAlong(n.edge.line, remaining).None? ==> r == {}
    ensures remaining <= g.length(n.edge.line) && g.locateAlong(n.edge.line, remaining).Some? ==>
      r <= {g.locateAlong(n.edge.line, remaining).value}
    decreases n
  {
    if remaining <= 0.0 then {}
    else if remaining <= g.length(n.edge.line) then
      match g.locateAlong(n.edge.line, remaining)
      case None => {}
      case Some(p) => {p}
    else WalkKids(n.kids, remaining - g.length(n.edge.line), g)
  }

  /** The walk continued into every child, results gathered into one set. */
  function WalkKids(kids: seq<Node>, remaining: real, g: Geodesy): (r: set<Coord>)
    ensures |kids| == 0 ==> r == {}
    ensures forall k {:trigger kids[k]} :: 0 <= k < |kids| ==> WalkTree(kids[k], remaining, g) <= r
    decreases kids
  {
    if |kids| == 0 then {} else WalkTree(kids[0], remaining, g) + WalkKids(kids[1..], remaining, g)
  }

  /** A point comes out of the children's walk exactly when it comes out of
      the walk of some child. */
  lemma {:induction false} WalkKidsMember(kids: seq<Node>, remaining: real, g: Geodesy, p: Coord)
    ensures p in WalkKids(kids, remaining, g) <==> exists k :: 0 <= k < |kids| && p in WalkTree(kids[k], remaining, g)
    decreases |kids|
  {
    if |kids| > 0 {
      WalkKidsMember(kids[1..], remaining, g, p);
      assert forall k :: 1 <= k < |kids| ==> kids[k] == kids[1..][k - 1];
    }
  }

  // ---------------------------------------------------------------------------
  // Reference definition: points reached along root-to-node paths

  /** `path` runs down the tree from `n`, each node a child of the one before. */
  ghost predicate IsPath(n: Node, path: seq<Node>)
    decreases |path|
  {
    && |path| > 0
    && path[0] == n
    && (|path| == 1 || (path[1] in n.kids && IsPath(path[1], path[1..])))
  }

  /** The summed edge lengths of the nodes of `path`. */
  function PathLength(path: seq<Node>, g: Geodesy): real {
    if |path| == 0 then 0.0 else g.length(path[0].edge.line) + PathLength(path[1..], g)
  }

  /** `p` is what the last node of `path` contributes for distance `d`: its
      strict ancestors' lengths sum to `s` with s < d <= s + its own length,
      and walking d - s along its line gives `p`. */
  ghost predicate HitsAt(path: seq<Node>, d: real, g: Geodesy, p: Coord)
    requires |path| > 0
  {
    var last := path[|path| - 1];
    var s := PathLength(path[..|path| - 1], g);
    s < d <= s + g.length(last.edge.line) && g.locateAlong(last.edge.line, d - s) == Some(p)
  }

  /** `p` lies at distance `d` from the start of `n` along some branch. */
  ghost predicate Located(n: Node, d: real, g: Geodesy, p: Coord) {
    exists path :: IsPath(n, path) && HitsAt(path, d, g, p)
  }

  lemma PathLengthCons(n: Node, path: seq<Node>, g: Geodesy)
    ensures PathLength([n] + path, g) == g.length(n.edge.line) + PathLength(path, g)
  {
    assert ([n] + path)[1..] == path;
  }

  lemma {:induction false} PathLengthNonNegative(path: seq<Node>, g: Geodesy)
    requires NonNegativeLengths(g)
    ensures PathLength(path, g) >= 0.0
  {
    if |path| > 0 {
      PathLengthNonNegative(path[1..], g);
    }
  }

  /** A branch below child `k` of `n` that hits `p` at the reduced distance
      extends, through `n`, to a branch from `n` hitting `p` at `d`. */
  lemma ExtendPath(n: Node, k: nat, tail: seq<Node>, d: real, g: Geodesy, p: Coord)
    requires k < |n.kids|
    requires IsPath(n.kids[k], tail) && HitsAt(tail, d - g.length(n.edge.line), g, p)
    ensures IsPath(n, [n] + tail) && HitsAt([n] + tail, d, g, p)
  {
    var path := [n] + tail;
    assert path[..|path| - 1] == [n] + tail[..|tail| - 1];
    PathLengthCons(n, tail[..|tail| - 1], g);
    assert path[1..] == tail;
  }

  /** A node whose own line reaches `p` at `d` is a one-node branch hitting `p`. */
  lemma HitsHere(n: Node, d: real, g: Geodesy, p: Coord)
    requires 0.0 < d <= g.length(n.edge.line) && g.locateAlong(n.edge.line, d) == Some(p)
    ensures IsPath(n, [n]) && HitsAt([n], d, g, p)
  {
    assert [n][..0] == [];
  }

  /** What membership in the walk at `n` tells: the distance is positive, and
      the point is either on `n`'s own line or found among its children. */
  lemma WalkTreeMember(n: Node, d: real, g: Geodesy, p: Coord)
    requires p in WalkTree(n, d, g)
    ensures 0.0 < d
    ensures d <= g.length(n.edge.line) ==> g.locateAlong(n.edge.line, d) == Some(p)
    ensures d > g.length(n.edge.line) ==> p in WalkKids(n.kids, d - g.length(n.edge.line), g)
  {
  }

  /** The child whose walk yields a point of the children's walk. */
  lemma KidWitness(kids: seq<Node>, remaining: real, g: Geodesy, p: Coord) returns (k: nat)
    requires p in WalkKids(kids, remaining, g)
    ensures k < |kids| && p in WalkTree(kids[k], remaining, g)
  {
    WalkKidsMember(kids, remaining, g, p);
    k :| 0 <= k < |kids| && p in WalkTree(kids[k], remaining, g);
  }

  /** Soundness: every point the walk returns is located along some branch,
      at the node whose span of cumulative distance contains `d`; the branch
      is returned. */
  lemma {:induction false} WalkSound(n: Node, d: real, g: Geodesy, p: Coord) returns (path: seq<Node>)
    requires p in WalkTree(n, d, g)
    ensures IsPath(n, path) && HitsAt(path, d, g, p)
    decreases n
  {
    var len := g.length(n.edge.line);
    WalkTreeMember(n, d, g, p);
    if d <= len {
      HitsHere(n, d, g, p);
      path := [n];
    } else {
      var k := KidWitness(n.kids, d - len, g, p);
      var tail := WalkSound(n.kids[k], d - len, g, p);
      ExtendPath(n, k, tail, d, g, p);
      path := [n] + tail;
    }
  }

  /** A branch of two or more nodes hitting `p` at `d` continues below its
      first child as a branch hitting `p` at the reduced distance; with
      non-negative lengths the distance has passed the first node's edge. */
  lemma TailHits(n: Node, path: seq<Node>, d: real, g: Geodesy, p: Coord)
    requires NonNegativeLengths(g)
    requires IsPath(n, path) && HitsAt(path, d, g, p) && |path| > 1
    ensures IsPath(path[1], path[1..]) && HitsAt(path[1..], d - g.length(n.edge.line), g, p)
    ensures g.length(n.edge.line) < d
  {
    var tail := path[1..];
    assert path[..|path| - 1] == [n] + tail[..|tail| - 1];
    PathLengthCons(n, tail[..|tail| - 1], g);
    PathLengthNonNegative(tail[..|tail| - 1], g);
  }

  /** Completeness: with non-negative lengths, every point located along a
      branch is returned by the walk. */
  lemma {:induction false} WalkComplete(n: Node, path: seq<Node>, d: real, g: Geodesy, p: Coord)
    requires NonNegativeLengths(g)
    requires IsPath(n, path) && HitsAt(path, d, g, p)
    ensures p in WalkTree(n, d, g)
    decreases |path|
  {
    if |path| == 1 {
      assert path[..0] == [];
    } else {
      var len := g.length(n.edge.line);
      TailHits(n, path, d, g, p);
      WalkComplete(path[1], path[1..], d - len, g, p);
      var k :| 0 <= k < |n.kids| && n.kids[k] == path[1];
      assert p in WalkKids(n.kids, d - len, g);
    }
  }

  /** The walk computes the reference set: soundness always, completeness when
      lengths are non-negative. */
  lemma WalkMatchesReference(n: Node, d: real, g: Geodesy)
    ensures forall p :: p in WalkTree(n, d, g) ==> Located(n, d, g, p)
    ensures NonNegativeLengths(g) ==> forall p :: Located(n, d, g, p) ==> p in WalkTree(n, d, g)
  {
    forall p | p in WalkTree(n, d, g)
      ensures Located(n, d, g, p)
    {
      var path := WalkSound(n, d, g, p);
    }
    if NonNegativeLengths(g) {
      forall p | Located(n, d, g, p)
        ensures p in WalkTree(n, d, g)
      {
        var path :| IsPath(n, path) && HitsAt(path, d, g, p);
        WalkComplete(n, path, d, g, p);
      }
    }
  }

  // ---------------------------------------------------------------------------
  // The entry point

  /** The fault locations at distance `d` from the root. No point is found
      for a distance of zero or less; every point found is located along a
      branch, and with non-negative lengths every located point is found. */
  function LocateFault(root: Node, d: real, g: Geodesy): (r: set<Coord>)
    ensures d <= 0.0 ==> r == {}
    ensures forall p :: p in r ==> Located(root, d, g, p)
    ensures NonNegativeLengths(g) ==> forall p :: Located(root, d, g, p) ==> p in r
  {
    WalkMatchesReference(root, d, g);
    WalkTree(root, d, g)
  }

  // ---------------------------------------------------------------------------
  // Consequences

  /** On a single-edge tree a distance within (0, L] gives the one point
      located on the edge, or nothing when it cannot be located, and a longer
      distance gives nothing: never more than one point. */
  lemma SingleEdge(e: Edge, d: real, g: Geodesy)
    ensures var r := LocateFault(Node(e, []), d, g);
      && |r| <= 1
      && (0.0 < d <= g.length(e.line) && g.locateAlong(e.line, d).Some? ==> r == {g.locateAlong(e.line, d).value})
      && (0.0 < d <= g.length(e.line) && g.locateAlong(e.line, d).None? ==> r == {})
      && (d > g.length(e.line) ==> r == {})
  {
  }

  /** When the distance ends within a node's own edge, its children are never
      visited: any children give the same result. */
  lemma ChildrenUnvisitedWithinEdge(e: Edge, a: seq<Node>, b: seq<Node>, d: real, g: Geodesy)
    requires d <= g.length(e.line)
    ensures LocateFault(Node(e, a), d, g) == LocateFault(Node(e, b), d, g)
  {
    assert WalkTree(Node(e, a), d, g) == WalkTree(Node(e, b), d, g);
  }

  /** A node whose edge is shorter than `d`, with every child long enough to
      absorb the rest: the result is one located point per child, at `d` minus
      the node's length into that child, duplicates collapsed. */
  lemma FanOut(n: Node, d: real, g: Geodesy)
    requires 0.0 < d && g.length(n.edge.line) < d
    requires forall c :: c in n.kids ==> d - g.length(n.edge.line) <= g.length(c.edge.line)
    ensures forall p :: p in LocateFault(n, d, g) <==>
      exists c :: c in n.kids && g.locateAlong(c.edge.line, d - g.length(n.edge.line)) == Some(p)
  {
    var rest := d - g.length(n.edge.line);
    assert LocateFault(n, d, g) == WalkKids(n.kids, rest, g);
    forall p
      ensures p in WalkKids(n.kids, rest, g) <==>
        exists c :: c in n.kids && g.locateAlong(c.edge.line, rest) == Some(p)
    {
      FanOutPoint(n.kids, rest, g, p);
    }
  }

  /** One point of that statement: with every child long enough for
      `remaining`, a point comes out of the children's walk exactly when some
      child locates it. */
  lemma FanOutPoint(kids: seq<Node>, remaining: real, g: Geodesy, p: Coord)
    requires 0.0 < remaining
    requires forall c :: c in kids ==> remaining <= g.length(c.edge.line)
    ensures p in WalkKids(kids, remaining, g) <==>
      exists c :: c in kids && g.locateAlong(c.edge.line, remaining) == Some(p)
  {
    WalkKidsMember(kids, remaining, g, p);
    if p in WalkKids(kids, remaining, g) {
      var k :| 0 <= k < |kids| && p in WalkTree(kids[k], remaining, g);
      assert g.locateAlong(kids[k].edge.line, remaining) == Some(p);
    }
    if exists c :: c in kids && g.locateAlong(c.edge.line, remaining) == Some(p) {
      var c :| c in kids && g.locateAlong(c.edge.line, remaining) == Some(p);
      var k :| 0 <= k < |kids| && kids[k] == c;
      assert p in WalkTree(kids[k], remaining, g);
    }
  }

  /** Only which children a node has matters, not their order or how often
      one is repeated. */
  lemma SiblingOrderIrrelevant(e: Edge, a: seq<Node>, b: seq<Node>, d: real, g: Geodesy)
    requires forall c :: c in a <==> c in b
    ensures LocateFault(Node(e, a), d, g) == LocateFault(Node(e, b), d, g)
  {
    var rest := d - g.length(e.line);
    forall p | p in WalkKids(a, rest, g)
      ensures p in WalkKids(b, rest, g)
    {
      WalkKidsMember(a, rest, g, p);
      WalkKidsMember(b, rest, g, p);
      var k :| 0 <= k < |a| && p in WalkTree(a[k], rest, g);
      assert a[k] in a;
      var j :| 0 <= j < |b| && b[j] == a[k];
    }
    forall p | p in WalkKids(b, rest, g)
      ensures p in WalkKids(a, rest, g)
    {
      WalkKidsMember(a, rest, g, p);
      WalkKidsMember(b, rest, g, p);
      var k :| 0 <= k < |b| && p in WalkTree(b[k], rest, g);
      assert b[k] in b;
      var j :| 0 <= j < |a| && a[j] == b[k];
    }
  }
}
