/** Construction of the edge-node tree from an unordered list of lines and a
    reference point: the anchor search, the root line and its orientation, the
    recursive growth by endpoint matching, and the final rules gate. */
module TreeBuilder {
  import opened Wrappers
  import opened Geometry
  import opened EdgeTree
  import RulesTester

  /** The largest finite double, the starting value of the anchor search's
      best distance: an endpoint is only ever picked when its distance is
      strictly below it. */
  const DoubleMax: real := 179769313486231570814527423731704356798070567525844996598917476803157260780028538760589558632766878171540458953514382464234321326889464182768467546703537516986049910576551282076245490090389328944075868508455133942304583236903222948165808559332123348274797826204144723168738177180919299881250404026184124858368.0

  /** Why construction gave up. */
  datatype BuildError =
    | NoClosestPoint       // no endpoint is nearer than the starting best distance
    | NoClosestLineString  // no line has the anchor as an endpoint
    | RulesViolated        // the geometry fails the topology rules

  // ---------------------------------------------------------------------------
  // The anchor: the endpoint nearest the reference point

  /** `a` is the first or the last coordinate of `l`. */
  predicate Touches(l: Line, a: Coord) {
    First(l) == a || Last(l) == a
  }

  /** The endpoints in the order the anchor search visits them: line by line,
      each line's first coordinate before its last. */
  function Endpoints(lines: seq<Line>): (pts: seq<Coord>)
    ensures |pts| == 2 * |lines|
  {
    if |lines| == 0 then [] else [First(lines[0]), Last(lines[0])] + Endpoints(lines[1..])
  }

  /** Line `i` contributes its first and its last coordinate, in that order, at
      positions `2 * i` and `2 * i + 1`. */
  lemma {:induction false} EndpointsAt(lines: seq<Line>, i: nat)
    requires i < |lines|
    ensures Endpoints(lines)[2 * i] == First(lines[i])
    ensures Endpoints(lines)[2 * i + 1] == Last(lines[i])
  {
    if i > 0 {
      EndpointsAt(lines[1..], i - 1);
    }
  }

  /** Every visited endpoint is the first or last coordinate of some line. */
  lemma {:induction false} EndpointsOwner(lines: seq<Line>, k: nat) returns (i: nat)
    requires k < |Endpoints(lines)|
    ensures i < |lines|
    ensures Endpoints(lines)[k] == First(lines[i]) || Endpoints(lines)[k] == Last(lines[i])
  {
    if k < 2 {
      i := 0;
    } else {
      var j := EndpointsOwner(lines[1..], k - 2);
      i := j + 1;
    }
  }

  /** After the first `k` endpoints, `best` is the index of the first of them
      whose distance is least, provided it is below `DoubleMax`; it is `None`
      when none of them is below `DoubleMax`. */
  ghost predicate FirstNearestAmong(pts: seq<Coord>, dist: Coord -> real, k: nat, best: Option<nat>)
    requires k <= |pts|
  {
    match best
    case None => forall j :: 0 <= j < k ==> dist(pts[j]) >= DoubleMax
    case Some(m) =>
      && m < k
      && dist(pts[m]) < DoubleMax
      && (forall j :: 0 <= j < k ==> dist(pts[m]) <= dist(pts[j]))
      && (forall j :: 0 <= j < m ==> dist(pts[m]) < dist(pts[j]))
  }

  /** The anchor search from endpoint `k` on. An endpoint replaces the current
      best only when it is strictly nearer, so on a tie the earlier one stays. */
  function NearestFrom(pts: seq<Coord>, dist: Coord -> real, k: nat, best: Option<nat>): (r: Option<nat>)
    requires k <= |pts|
    requires FirstNearestAmong(pts, dist, k, best)
    ensures FirstNearestAmong(pts, dist, |pts|, r)
    decreases |pts| - k
  {
    if k == |pts| then best
    else
      var closestDistance := if best.Some? then dist(pts[best.value]) else DoubleMax;
      NearestFrom(pts, dist, k + 1, if dist(pts[k]) < closestDistance then Some(k) else best)
  }

  /** The anchor point: the endpoint nearest `reference`, or `None` when no
      endpoint is below the starting best distance (in particular, when there
      are no lines). */
  function Anchor(lines: seq<Line>, reference: Coord, distance: (Coord, Coord) -> real): (a: Option<Coord>)
    ensures lines == [] ==> a.None?
  {
    var pts := Endpoints(lines);
    match NearestFrom(pts, c => distance(c, reference), 0, None)
    case None => None
    case Some(m) => Some(pts[m])
  }

  /** The anchor is missing exactly when every endpoint is at least the
      starting best distance away. */
  lemma AnchorMissing(lines: seq<Line>, reference: Coord, distance: (Coord, Coord) -> real)
    ensures Anchor(lines, reference, distance).None? <==>
      forall i :: 0 <= i < |lines| ==>
        distance(First(lines[i]), reference) >= DoubleMax && distance(Last(lines[i]), reference) >= DoubleMax
  {
    var pts := Endpoints(lines);
    var dist := c => distance(c, reference);
    var r := NearestFrom(pts, dist, 0, None);
    if r.None? {
      forall i | 0 <= i < |lines|
        ensures distance(First(lines[i]), reference) >= DoubleMax && distance(Last(lines[i]), reference) >= DoubleMax
      {
        EndpointsAt(lines, i);
        assert dist(pts[2 * i]) >= DoubleMax && dist(pts[2 * i + 1]) >= DoubleMax;
      }
    } else {
      var i := EndpointsOwner(lines, r.value);
      assert dist(pts[r.value]) < DoubleMax;
    }
  }

  /** A found anchor is an endpoint of some line, no endpoint is strictly
      nearer, and every endpoint visited before it is strictly farther. */
  lemma AnchorIsFirstNearest(lines: seq<Line>, reference: Coord, distance: (Coord, Coord) -> real)
    requires Anchor(lines, reference, distance).Some?
    ensures var a := Anchor(lines, reference, distance).value;
      && distance(a, reference) < DoubleMax
      && (exists i :: 0 <= i < |lines| && Touches(lines[i], a))
      && (forall i :: 0 <= i < |lines| ==>
           distance(a, reference) <= distance(First(lines[i]), reference) &&
           distance(a, reference) <= distance(Last(lines[i]), reference))
      && (exists k :: 0 <= k < |Endpoints(lines)| && Endpoints(lines)[k] == a &&
           forall j :: 0 <= j < k ==> distance(a, reference) < distance(Endpoints(lines)[j], reference))
  {
    var pts := Endpoints(lines);
    var dist := c => distance(c, reference);
    var m := NearestFrom(pts, dist, 0, None).value;
    var a := pts[m];
    assert a == Anchor(lines, reference, distance).value;
    var i := EndpointsOwner(lines, m);
    assert Touches(lines[i], a);
    forall i | 0 <= i < |lines|
      ensures distance(a, reference) <= distance(First(lines[i]), reference)
      ensures distance(a, reference) <= distance(Last(lines[i]), reference)
    {
      EndpointsAt(lines, i);
      assert dist(pts[m]) <= dist(pts[2 * i]) && dist(pts[m]) <= dist(pts[2 * i + 1]);
    }
    assert forall j :: 0 <= j < m ==> dist(pts[m]) < dist(pts[j]);
  }

  // ---------------------------------------------------------------------------
  // The root line and its orientation

  /** The first line, in input order, that has `a` as an endpoint. */
  function RootLine(lines: seq<Line>, a: Coord): (r: Option<Line>)
    ensures r.None? <==> forall i :: 0 <= i < |lines| ==> !Touches(lines[i], a)
    ensures r.Some? ==> exists i :: 0 <= i < |lines| && lines[i] == r.value && Touches(r.value, a)
                                    && forall j :: 0 <= j < i ==> !Touches(lines[j], a)
  {
    if |lines| == 0 then None
    else if Touches(lines[0], a) then Some(lines[0])
    else
      var r := RootLine(lines[1..], a);
      assert forall j :: 1 <= j < |lines| ==> lines[j] == lines[1..][j - 1];
      r
  }

  /** The root line oriented to start at the anchor: reversed when the anchor is
      its last coordinate, kept as it is otherwise. */
  function Orient(l: Line, a: Coord): (r: Line)
    ensures Touches(l, a) ==> First(r) == a
    ensures Last(l) == a ==> r == Reverse(l) && Last(r) == First(l)
    ensures Last(l) != a ==> r == l
  {
    if Last(l) == a then Reverse(l) else l
  }

  // ---------------------------------------------------------------------------
  // Growing the tree

  /** The children one pool line `x` gives a node whose edge ends at `end`:
      `x` as it is when it starts at `end`, then `x` reversed when it ends
      at `end`; both when it does both. */
  function MatchOne(end: Coord, x: Line): (ms: seq<Line>)
    ensures forall l :: l in ms ==> First(l) == end
    ensures forall l :: l in ms ==> l == x || l == Reverse(x)
  {
    (if First(x) == end then [x] else []) + (if Last(x) == end then [Reverse(x)] else [])
  }

  /** The lines a node whose edge ends at `end` receives as its children, in
      order, when the pool it is entered with is `snapshot`. */
  function Matches(end: Coord, snapshot: seq<Line>): (ms: seq<Line>)
    ensures forall l :: l in ms ==> First(l) == end
  {
    if |snapshot| == 0 then [] else MatchOne(end, snapshot[0]) + Matches(end, snapshot[1..])
  }

  /** Position `i` of the snapshot contributes its matches ahead of the rest. */
  lemma MatchesStep(end: Coord, snapshot: seq<Line>, i: nat)
    requires i < |snapshot|
    ensures Matches(end, snapshot[i..]) == MatchOne(end, snapshot[i]) + Matches(end, snapshot[i + 1..])
  {
    assert snapshot[i..][1..] == snapshot[i + 1..];
  }

  /** A grown subtree together with what is left of the live pool. */
  datatype Grown = Grown(node: Node, live: seq<Line>)

  /** Attached children together with what is left of the live pool. */
  datatype Attached = Attached(kids: seq<Node>, live: seq<Line>)

  /** Each of `kids` is a continuous subtree starting at `end` whose edges
      are all lines of `src` or their reverses. */
  predicate ChildrenOf(kids: seq<Node>, end: Coord, src: seq<Line>) {
    forall k :: k in kids ==> k.edge.start == end && Continuous(k) && DrawnFrom(k, src)
  }

  lemma ChildrenOfAppend(a: seq<Node>, b: seq<Node>, end: Coord, src: seq<Line>)
    requires ChildrenOf(a, end, src) && ChildrenOf(b, end, src)
    ensures ChildrenOf(a + b, end, src)
  {
  }

  /** `y` is the line of some edge among `ls`, as it is or reversed. */
  predicate Covered(ls: set<Line>, y: Line) {
    y in ls || Reverse(y) in ls
  }

  /** Every line of `src` that has an endpoint among the edge ends `ends` is
      covered by the edge lines `ls`: no line of `src` that could hang off one
      of those edges was left out. */
  predicate Saturated(src: seq<Line>, ends: set<Coord>, ls: set<Line>) {
    forall y, e :: y in src && e in ends && Touches(y, e) ==> Covered(ls, y)
  }

  /** Every line of `before` that is gone from `after` is covered by `ls`: a
      line leaves the live pool only by being attached. */
  predicate Accounted(before: seq<Line>, after: seq<Line>, ls: set<Line>) {
    forall y :: y in before && y !in after ==> Covered(ls, y)
  }

  /** Two consecutive stretches of the loop, the second starting from the live
      pool the first left: together they account for what both took out, and
      every line live at the start that touches an end of either stretch's
      subtrees is covered by one of them. */
  lemma ComposeCovered(live: seq<Line>, mid: seq<Line>, out: seq<Line>, a: seq<Node>, b: seq<Node>)
    requires Accounted(live, mid, ForestLines(a)) && Saturated(live, ForestEnds(a), ForestLines(a))
    requires Accounted(mid, out, ForestLines(b)) && Saturated(mid, ForestEnds(b), ForestLines(b))
    ensures Accounted(live, out, ForestLines(a + b))
    ensures Saturated(live, ForestEnds(a + b), ForestLines(a + b))
  {
    ForestAppend(a, b);
  }

  /** A child grown from the live pool without `x` also covers `x` itself, so
      the two facts carry over from the reduced pool to the whole live pool. */
  lemma GrowChildCovered(live: seq<Line>, x: Line, child: Line, n: Node, out: seq<Line>)
    requires child == x || Reverse(child) == x
    requires n.edge.line == child
    requires Accounted(RemoveFirst(live, x), out, TreeLines(n))
    requires Saturated(RemoveFirst(live, x), TreeEnds(n), TreeLines(n))
    ensures Accounted(live, out, TreeLines(n))
    ensures Saturated(live, TreeEnds(n), TreeLines(n))
  {
    assert Covered(TreeLines(n), x) by {
      if child != x {
        ReverseInvolutive(child);
      }
    }
    forall y | y in live && y != x
      ensures y in RemoveFirst(live, x)
    {
      RemovalKeepsOthers(live, x, y);
    }
  }

  /** Every pool line that touches `end` is covered by the children whose
      lines are the pool's matches at `end`. */
  lemma MatchesCovered(end: Coord, pool: seq<Line>, kids: seq<Node>)
    requires KidLines(kids) == Matches(end, pool)
    ensures forall y :: y in pool && Touches(y, end) ==> Covered(ForestLines(kids), y)
  {
    forall y | y in pool && Touches(y, end)
      ensures Covered(ForestLines(kids), y)
    {
      MatchesContain(end, pool, y);
      var m := if First(y) == end then y else Reverse(y);
      assert m in MatchOne(end, y);
      assert m in KidLines(kids);
      var k :| 0 <= k < |kids| && KidLines(kids)[k] == m;
      assert m in TreeLines(kids[k]);
    }
  }

  /** Grows the subtree whose edge is `line`, drawing from `pool`. Returns the
      node and the pool as the growth left it. */
  function ConstructEdgeTree(line: Line, pool: seq<Line>): (r: Grown)
    ensures multiset(r.live) <= multiset(pool)
    ensures r.node.edge == NewEdge(line)
    ensures Continuous(r.node)
    ensures KidLines(r.node.kids) == Matches(Last(line), pool)
    ensures ChildrenOf(r.node.kids, Last(line), pool)
    ensures Accounted(pool, r.live, TreeLines(r.node))
    ensures Saturated(pool, TreeEnds(r.node), TreeLines(r.node))
    decreases |pool|, 1, 0
  {
    var edge := NewEdge(line);
    var a := AttachFrom(edge.end, pool, 0, pool);
    MatchesCovered(edge.end, pool, a.kids);
    Grown(Node(edge, a.kids), a.live)
  }

  /** The loop over the pool as it was when the node was entered (`snapshot`),
      from position `i` on, while removals here and in deeper growth shrink the
      live pool (`live`). A snapshot line is tried even when deeper growth has
      already taken it out of the live pool. */
  function AttachFrom(end: Coord, snapshot: seq<Line>, i: nat, live: seq<Line>): (r: Attached)
    requires i <= |snapshot|
    requires multiset(live) <= multiset(snapshot)
    ensures multiset(r.live) <= multiset(live)
    ensures ChildrenOf(r.kids, end, snapshot)
    ensures KidLines(r.kids) == Matches(end, snapshot[i..])
    ensures Accounted(live, r.live, ForestLines(r.kids))
    ensures Saturated(live, ForestEnds(r.kids), ForestLines(r.kids))
    decreases |snapshot|, 0, |snapshot| - i + 2
  {
    if i == |snapshot| then Attached([], live)
    else
      var one := AttachOne(end, snapshot, snapshot[i], live);
      var rest := AttachFrom(end, snapshot, i + 1, one.live);
      MatchesStep(end, snapshot, i);
      KidLinesAppend(one.kids, rest.kids);
      ChildrenOfAppend(one.kids, rest.kids, end, snapshot);
      ComposeCovered(live, one.live, rest.live, one.kids, rest.kids);
      Attached(one.kids + rest.kids, rest.live)
  }

  /** One turn of that loop, for the snapshot line `x`: attach it as it is when
      it starts at `end`, then reversed when it ends at `end`. */
  function AttachOne(end: Coord, snapshot: seq<Line>, x: Line, live: seq<Line>): (r: Attached)
    requires x in snapshot
    requires multiset(live) <= multiset(snapshot)
    ensures multiset(r.live) <= multiset(live)
    ensures ChildrenOf(r.kids, end, snapshot)
    ensures KidLines(r.kids) == MatchOne(end, x)
    ensures Accounted(live, r.live, ForestLines(r.kids))
    ensures Saturated(live, ForestEnds(r.kids), ForestLines(r.kids))
    decreases |snapshot|, 0, 2
  {
    var asIs := AttachAsIs(end, snapshot, x, live);
    var reversed := AttachReversed(end, snapshot, x, asIs.live);
    KidLinesAppend(asIs.kids, reversed.kids);
    ChildrenOfAppend(asIs.kids, reversed.kids, end, snapshot);
    ComposeCovered(live, asIs.live, reversed.live, asIs.kids, reversed.kids);
    Attached(asIs.kids + reversed.kids, reversed.live)
  }

  /** The first test of the turn: `x` starts at `end`. */
  function AttachAsIs(end: Coord, snapshot: seq<Line>, x: Line, live: seq<Line>): (r: Attached)
    requires x in snapshot
    requires multiset(live) <= multiset(snapshot)
    ensures multiset(r.live) <= multiset(live)
    ensures ChildrenOf(r.kids, end, snapshot)
    ensures KidLines(r.kids) == if First(x) == end then [x] else []
    ensures Accounted(live, r.live, ForestLines(r.kids))
    ensures Saturated(live, ForestEnds(r.kids), ForestLines(r.kids))
    decreases |snapshot|, 0, 1
  {
    if First(x) == end then
      var g := GrowChild(snapshot, x, x, live);
      ForestSingle(g.node);
      Attached([g.node], g.live)
    else Attached([], live)
  }

  /** The second test of the turn: `x` ends at `end`, and is attached reversed. */
  function AttachReversed(end: Coord, snapshot: seq<Line>, x: Line, live: seq<Line>): (r: Attached)
    requires x in snapshot
    requires multiset(live) <= multiset(snapshot)
    ensures multiset(r.live) <= multiset(live)
    ensures ChildrenOf(r.kids, end, snapshot)
    ensures KidLines(r.kids) == if Last(x) == end then [Reverse(x)] else []
    ensures Accounted(live, r.live, ForestLines(r.kids))
    ensures Saturated(live, ForestEnds(r.kids), ForestLines(r.kids))
    decreases |snapshot|, 0, 1
  {
    if Last(x) == end then
      ReverseInvolutive(x);
      var g := GrowChild(snapshot, x, Reverse(x), live);
      ForestSingle(g.node);
      Attached([g.node], g.live)
    else Attached([], live)
  }

  /** Takes the snapshot line `x` out of the live pool and grows the child
      whose edge is `child` (`x` or its reverse) from what is left. The pool
      handed down is strictly smaller than `snapshot`, which is what makes the
      growth terminate. */
  function GrowChild(snapshot: seq<Line>, x: Line, child: Line, live: seq<Line>): (r: Grown)
    requires x in snapshot
    requires child == x || Reverse(child) == x
    requires multiset(live) <= multiset(snapshot)
    ensures multiset(r.live) <= multiset(live)
    ensures r.node.edge == NewEdge(child)
    ensures DrawnFrom(r.node, snapshot)
    ensures Continuous(r.node)
    ensures KidLines(r.node.kids) == Matches(Last(child), RemoveFirst(live, x))
    ensures Accounted(live, r.live, TreeLines(r.node))
    ensures Saturated(live, TreeEnds(r.node), TreeLines(r.node))
    decreases |snapshot|, 0, 0
  {
    RemovalShrinks(live, snapshot, x);
    var g := ConstructEdgeTree(child, RemoveFirst(live, x));
    GrowChildCovered(live, x, child, g.node, g.live);
    assert forall l :: l in RemoveFirst(live, x) ==> l in snapshot by {
      forall l | l in RemoveFirst(live, x)
        ensures l in snapshot
      {
        assert l in multiset(RemoveFirst(live, x));
      }
    }
    DrawnAllWider(g.node.kids, RemoveFirst(live, x), snapshot);
    g
  }

  // ---------------------------------------------------------------------------
  // Construction

  /** The tree grown from the root line for anchor `a`, before the rules gate.
      The pool handed to the growth is the input without the first line
      exactly equal to the oriented root line. */
  function RootedTree(lines: seq<Line>, a: Coord): (r: Result<Node, BuildError>)
    ensures r.Failure? <==> forall i :: 0 <= i < |lines| ==> !Touches(lines[i], a)
    ensures r.Failure? ==> r.error == NoClosestLineString
    ensures r.Success? ==> r.value.edge.start == a && Continuous(r.value) && DrawnFrom(r.value, lines)
    ensures r.Success? ==>
      var root := Orient(RootLine(lines, a).value, a);
      && r.value.edge == NewEdge(root)
      && KidLines(r.value.kids) == Matches(Last(root), RemoveFirst(lines, root))
    ensures r.Success? ==> Saturated(lines, TreeEnds(r.value), TreeLines(r.value))
  {
    match RootLine(lines, a)
    case None => Failure(NoClosestLineString)
    case Some(l) =>
      var root := Orient(l, a);
      RootGrowthDrawn(lines, l, root);
      var g := ConstructEdgeTree(root, RemoveFirst(lines, root));
      GrowChildCovered(lines, root, root, g.node, g.live);
      Success(g.node)
  }

  /** The tree grown from an input line, or its reverse, with the rest of
      the input as the pool uses only input lines and their reverses. */
  lemma RootGrowthDrawn(lines: seq<Line>, l: Line, root: Line)
    requires l in lines
    requires root == l || root == Reverse(l)
    ensures DrawnFrom(ConstructEdgeTree(root, RemoveFirst(lines, root)).node, lines)
  {
    var pool := RemoveFirst(lines, root);
    var g := ConstructEdgeTree(root, pool);
    assert root in lines || Reverse(root) in lines by {
      if root != l {
        ReverseInvolutive(l);
      }
    }
    RemovalWithin(lines, root);
    DrawnAllWider(g.node.kids, pool, lines);
  }

  /** Removal never adds an element. */
  lemma {:induction false} RemovalWithin(s: seq<Line>, x: Line)
    ensures forall y :: y in RemoveFirst(s, x) ==> y in s
  {
    if |s| > 0 && s[0] != x {
      RemovalWithin(s[1..], x);
    }
  }

  /** The whole construction: anchor, root line, growth, then the rules gate.
      A tree is returned only when the rules pass on the input lines. */
  function ConstructEdgeNodeTree(lines: seq<Line>, reference: Coord, distance: (Coord, Coord) -> real,
                                 same: (Line, Line) -> bool)
    : (r: Result<Node, BuildError>)
    ensures lines == [] ==> r == Failure(NoClosestPoint)
    ensures r != Failure(NoClosestLineString)
    ensures r.Success? ==> RulesTester.Passes(lines, Some(r.value), same)
    ensures r.Success? ==>
      && Anchor(lines, reference, distance).Some?
      && r.value.edge.start == Anchor(lines, reference, distance).value
      && Continuous(r.value)
      && DrawnFrom(r.value, lines)
      && r == RootedTree(lines, Anchor(lines, reference, distance).value)
    ensures r.Success? ==> Saturated(lines, TreeEnds(r.value), TreeLines(r.value))
  {
    match Anchor(lines, reference, distance)
    case None => Failure(NoClosestPoint)
    case Some(a) =>
      AnchorIsFirstNearest(lines, reference, distance);
      match RootedTree(lines, a)
      case Failure(e) => Failure(e)
      case Success(tree) =>
        if RulesTester.Passes(lines, Some(tree), same) then Success(tree) else Failure(RulesViolated)
  }

  /** Construction succeeds exactly when an anchor exists and the input lines
      pass the three geometry rules; it fails for want of an anchor exactly
      when every endpoint is at least the starting best distance away. No
      check that every line was placed in the tree takes part. */
  lemma ConstructSucceedsIff(lines: seq<Line>, reference: Coord, distance: (Coord, Coord) -> real,
                             same: (Line, Line) -> bool)
    ensures ConstructEdgeNodeTree(lines, reference, distance, same).Success? <==>
      && Anchor(lines, reference, distance).Some?
      && !RulesTester.SomeLineClosed(lines)
      && RulesTester.EveryLineHasPartner(lines, same)
      && RulesTester.NoInteriorSharing(lines, same)
    ensures ConstructEdgeNodeTree(lines, reference, distance, same) == Failure(NoClosestPoint) <==>
      forall i :: 0 <= i < |lines| ==>
        distance(First(lines[i]), reference) >= DoubleMax && distance(Last(lines[i]), reference) >= DoubleMax
  {
    AnchorMissing(lines, reference, distance);
    if Anchor(lines, reference, distance).Some? {
      AnchorIsFirstNearest(lines, reference, distance);
    }
  }

  /** A geometry of a single line is never built into a tree: the line has no
      partner, so the connectivity rule fails. */
  lemma SingleLineRejected(l: Line, reference: Coord, distance: (Coord, Coord) -> real, same: (Line, Line) -> bool)
    requires RulesTester.LineIdentity(same)
    ensures ConstructEdgeNodeTree([l], reference, distance, same).Failure?
  {
    RulesTester.CopiesAreNotConnected([l], l, same);
  }

  /** The back-and-forth pair P-Q, Q-P is never built into a tree: each line
      is the same as the other's reverse, so neither has a partner. */
  lemma BackAndForthRejected(p: Coord, q: Coord, reference: Coord, distance: (Coord, Coord) -> real,
                             same: (Line, Line) -> bool)
    requires RulesTester.LineIdentity(same)
    ensures ConstructEdgeNodeTree([[p, q], [q, p]], reference, distance, same).Failure?
  {
    RulesTester.BackAndForthNotConnected(p, q, same);
  }

  /** A line sharing no endpoint with any different line makes construction
      fail; it is never silently left out of a returned tree. */
  lemma IsolatedLineRejected(lines: seq<Line>, i: nat, reference: Coord, distance: (Coord, Coord) -> real,
                             same: (Line, Line) -> bool)
    requires i < |lines|
    requires forall j :: 0 <= j < |lines| ==> !RulesTester.Partner(lines[i], lines[j], same)
    ensures ConstructEdgeNodeTree(lines, reference, distance, same).Failure?
  {
    assert !RulesTester.HasPartnerIn(lines, lines[i], same);
  }

  // ---------------------------------------------------------------------------
  // Consequences of the growth rules

  /** Every line a pool line `x` contributes appears among the matches of any
      pool holding `x`. */
  lemma {:induction false} MatchesContain(end: Coord, s: seq<Line>, x: Line)
    requires x in s
    ensures forall l :: l in MatchOne(end, x) ==> l in Matches(end, s)
  {
    if s[0] != x {
      MatchesContain(end, s[1..], x);
    }
  }

  /** The same, counting repetitions: the matches of a pool line occur in
      the snapshot's matches at least as often as the line yields them. */
  lemma {:induction false} MatchesContainAll(end: Coord, s: seq<Line>, x: Line)
    requires x in s
    ensures multiset(MatchOne(end, x)) <= multiset(Matches(end, s))
  {
    if s[0] != x {
      MatchesContainAll(end, s[1..], x);
    }
  }

  /** A pool line whose first and last coordinates both equal the end of the
      growing edge becomes two children: itself, and its reverse. The two
      are counted separately even when the line reads the same backwards. */
  lemma LoopBackAttachedTwice(line: Line, pool: seq<Line>, x: Line)
    requires x in pool
    requires First(x) == Last(line) && Last(x) == Last(line)
    ensures multiset{x, Reverse(x)} <= multiset(KidLines(ConstructEdgeTree(line, pool).node.kids))
  {
    MatchesContainAll(Last(line), pool, x);
    assert MatchOne(Last(line), x) == [x, Reverse(x)];
  }

  /** When the root line had to be reversed, the pool handed to the growth is
      the input without its first line equal to the REVERSED root; the original
      line stays in the pool, starts where the root edge ends, and so becomes a
      child of the root: the root line appears twice in the tree. */
  lemma ReversedRootReappears(lines: seq<Line>, a: Coord, l: Line)
    requires RootLine(lines, a) == Some(l)
    requires Last(l) == a && First(l) != a
    ensures RootedTree(lines, a).Success?
    ensures RootedTree(lines, a).value.edge.line == Reverse(l)
    ensures l in KidLines(RootedTree(lines, a).value.kids)
  {
    var root := Reverse(l);
    assert Orient(l, a) == root;
    var pool := RemoveFirst(lines, root);
    assert RootedTree(lines, a) == Success(ConstructEdgeTree(root, pool).node);
    assert First(root) == a;
    RemovalKeepsOthers(lines, root, l);
    MatchesContain(Last(root), pool, l);
    assert MatchOne(Last(root), l)[0] == l;
  }

  /** Removing `x` keeps every other element of the pool. */
  lemma RemovalKeepsOthers(s: seq<Line>, x: Line, l: Line)
    requires l in s && l != x
    ensures l in RemoveFirst(s, x)
  {
    assert multiset(RemoveFirst(s, x))[l] == multiset(s)[l];
    assert l in multiset(RemoveFirst(s, x));
  }

  /** The matches behind the example below: from the pool [P-Q, Q-P], an edge
      ending at P receives P-Q twice (once as it is, once as Q-P reversed), and
      from the pool [Q-P] an edge ending at Q receives Q-P. */
  lemma RoundTripMatches(p: Coord, q: Coord)
    requires p != q
    ensures Matches(p, [[p, q], [q, p]]) == [[p, q], [p, q]]
    ensures Matches(q, [[q, p]]) == [[q, p]]
  {
    var pq: Line, qp: Line := [p, q], [q, p];
    assert Reverse(qp) == pq;
    assert [pq, qp][1..] == [qp] && [qp][1..] == [];
    assert MatchOne(p, pq) == [pq];
    assert MatchOne(p, qp) == [pq];
    assert Matches(p, [qp]) == [pq] + Matches(p, []);
    assert MatchOne(q, qp) == [qp];
    assert Matches(q, [qp]) == [qp] + Matches(q, []);
  }

  /** When the first pool line starts at the end of the growing edge, it is
      the first child, and it is grown from the rest of the pool. */
  lemma FirstPoolLineFirstChild(line: Line, pool: seq<Line>)
    requires |pool| > 0 && First(pool[0]) == Last(line)
    ensures var kids := ConstructEdgeTree(line, pool).node.kids;
      && |kids| > 0
      && kids[0].edge.line == pool[0]
      && KidLines(kids[0].kids) == Matches(Last(pool[0]), pool[1..])
  {
    var end := Last(line);
    var one := AttachOne(end, pool, pool[0], pool);
    assert ConstructEdgeTree(line, pool).node.kids == one.kids + AttachFrom(end, pool, 1, one.live).kids;
    var asIs := AttachAsIs(end, pool, pool[0], pool);
    assert one.kids == asIs.kids + AttachReversed(end, pool, pool[0], asIs.live).kids;
    assert asIs.kids[0] == GrowChild(pool, pool[0], pool[0], pool).node;
  }

  /** Growth reaches below the first level: growing an edge that ends at P
      from the pool [P-Q, Q-R] attaches P-Q, and Q-R, which meets P-Q's end,
      is on the grown tree as well. */
  lemma ChainGrowsBeyondFirstLevel(o: Coord, p: Coord, q: Coord, r: Coord)
    requires p != q && p != r
    ensures Covered(TreeLines(ConstructEdgeTree([o, p], [[p, q], [q, r]]).node), [q, r])
  {
    var pq: Line, qr: Line := [p, q], [q, r];
    var n := ConstructEdgeTree([o, p], [pq, qr]).node;
    assert Matches(p, [pq, qr]) == [pq] by {
      assert [pq, qr][1..] == [qr] && [qr][1..] == [];
      assert MatchOne(p, pq) == [pq];
      assert MatchOne(p, qr) == [];
      assert Matches(p, [qr]) == [] + Matches(p, []);
    }
    assert n.kids[0].edge.end == q;
    assert q in TreeEnds(n);
    assert Touches(qr, q);
  }

  /** Snapshot iteration on three distinct points S, P, Q: growing the edge
      S-P from the pool [P-Q, Q-P]. Growing P-Q consumes Q-P deeper down, yet
      the S-P node's own loop still tries Q-P from its snapshot and attaches it
      reversed, so S-P gets two children along P-Q. */
  lemma GrowthRetriesConsumedLine(s: Coord, p: Coord, q: Coord)
    requires s != p && p != q
    ensures var top := ConstructEdgeTree([s, p], [[p, q], [q, p]]).node;
      && KidLines(top.kids) == [[p, q], [p, q]]
      && KidLines(top.kids[0].kids) == [[q, p]]
  {
    RoundTripMatches(p, q);
    var pq: Line, qp: Line := [p, q], [q, p];
    FirstPoolLineFirstChild([s, p], [pq, qp]);
    assert [pq, qp][1..] == [qp];
  }

  /** The rules hold for the round-trip input S-P, P-Q, Q-P: no line is
      closed, every line has a partner, and no line has interior points. */
  lemma RoundTripRulesHold(s: Coord, p: Coord, q: Coord, same: (Line, Line) -> bool)
    requires RulesTester.LineIdentity(same)
    requires s != p && p != q && s != q
    ensures var lines: seq<Line> := [[s, p], [p, q], [q, p]];
      && !RulesTester.SomeLineClosed(lines)
      && RulesTester.EveryLineHasPartner(lines, same)
      && RulesTester.NoInteriorSharing(lines, same)
  {
    var sp: Line, pq: Line, qp: Line := [s, p], [p, q], [q, p];
    var lines := [sp, pq, qp];
    RoundTripPartners(s, p, q, same);
    RulesTester.TwoPointLinesShareNoInterior(lines, same);
  }

  /** In S-P, P-Q, Q-P each of P-Q and Q-P is the same as the other, but
      both meet S-P at P, and S-P is a different segment from P-Q. */
  lemma RoundTripPartners(s: Coord, p: Coord, q: Coord, same: (Line, Line) -> bool)
    requires RulesTester.LineIdentity(same)
    requires s != p && p != q && s != q
    ensures RulesTester.EveryLineHasPartner([[s, p], [p, q], [q, p]], same)
  {
    var sp: Line, pq: Line, qp: Line := [s, p], [p, q], [q, p];
    var lines := [sp, pq, qp];
    assert {s, p} != {p, q} by {
      assert s !in {p, q};
    }
    assert !same(sp, pq) && !same(pq, sp);
    assert RulesTester.Partner(sp, lines[1], same);
    assert RulesTester.Partner(pq, lines[0], same);
    assert {q, p} != {s, p} by {
      assert s !in {q, p};
    }
    assert !same(qp, sp);
    assert RulesTester.Partner(qp, lines[0], same);
    assert RulesTester.HasPartnerIn(lines, lines[0], same);
    assert RulesTester.HasPartnerIn(lines, lines[1], same);
    assert RulesTester.HasPartnerIn(lines, lines[2], same);
  }

  /** A distance that is zero from a point to itself and one otherwise. */
  function UnitDistance(c: Coord, ref: Coord): real {
    if c == ref then 0.0 else 1.0
  }

  /** With a distance that is zero at the reference point and one elsewhere,
      the anchor is the reference point itself whenever it is an endpoint. */
  lemma AnchorAtReference(lines: seq<Line>, s: Coord)
    requires exists i :: 0 <= i < |lines| && Touches(lines[i], s)
    ensures Anchor(lines, s, UnitDistance) == Some(s)
  {
    var distance := UnitDistance;
    var i :| 0 <= i < |lines| && Touches(lines[i], s);
    AnchorMissing(lines, s, distance);
    assert distance(First(lines[i]), s) < DoubleMax;
    AnchorIsFirstNearest(lines, s, distance);
  }

  /** The same input run through the whole construction, with S as the
      reference point. P-Q and Q-P are the same line to the tester and so are
      not each other's partners, but both meet S-P at P: the rules pass and
      the tree with the doubled P-Q edge is returned. */
  lemma RoundTripPassesRules(s: Coord, p: Coord, q: Coord, same: (Line, Line) -> bool)
    requires RulesTester.LineIdentity(same)
    requires s != p && p != q && s != q
    ensures ConstructEdgeNodeTree([[s, p], [p, q], [q, p]], s, UnitDistance, same).Success?
    ensures KidLines(ConstructEdgeNodeTree([[s, p], [p, q], [q, p]], s, UnitDistance, same).value.kids) == [[p, q], [p, q]]
  {
    var sp: Line, pq: Line, qp: Line := [s, p], [p, q], [q, p];
    var lines := [sp, pq, qp];
    var distance := UnitDistance;
    assert Touches(lines[0], s);
    AnchorAtReference(lines, s);
    assert RootLine(lines, s) == Some(sp);
    assert RemoveFirst(lines, sp) == [pq, qp];
    GrowthRetriesConsumedLine(s, p, q);
    RoundTripRulesHold(s, p, q, same);
    ConstructSucceedsIff(lines, s, distance, same);
  }
}
