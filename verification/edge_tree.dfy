/** The oriented-edge tree the builder produces and the locator walks. */
module EdgeTree {
  import opened Geometry

  /** A line bound to a traversal direction. Its start and end are taken from
      the line once, when the edge is made. */
  datatype Edge = Edge(line: Line, start: Coord, end: Coord) {
    /** The stored endpoints are the line's first and last coordinates. */
    predicate Valid() {
      start == First(line) && end == Last(line)
    }
  }

  /** A tree node: one edge and its ordered children. */
  datatype Node = Node(edge: Edge, kids: seq<Node>)

  /** Makes the edge of `line`, reading its endpoints off the line. */
  function NewEdge(line: Line): (e: Edge)
    ensures e.line == line && e.Valid()
  {
    Edge(line, line[0], line[|line| - 1])
  }

  /** Making the edge of the reversed line swaps the two endpoints. */
  lemma NewEdgeReversed(line: Line)
    ensures NewEdge(Reverse(line)).start == NewEdge(line).end
    ensures NewEdge(Reverse(line)).end == NewEdge(line).start
  {
  }

  /** Parent-child continuity, throughout the tree: every edge is valid and
      every child's edge starts where its parent's edge ends. */
  predicate Continuous(n: Node) {
    && n.edge.Valid()
    && forall c :: c in n.kids ==> c.edge.start == n.edge.end && Continuous(c)
  }

  /** Every edge of the tree is a line of `src` or the reverse of one. */
  predicate DrawnFrom(n: Node, src: seq<Line>) {
    && (n.edge.line in src || Reverse(n.edge.line) in src)
    && forall c :: c in n.kids ==> DrawnFrom(c, src)
  }

  /** The lines of a sequence of nodes, in order. */
  function KidLines(kids: seq<Node>): (ls: seq<Line>)
    ensures |ls| == |kids|
    ensures forall k :: 0 <= k < |kids| ==> ls[k] == kids[k].edge.line
  {
    if |kids| == 0 then [] else [kids[0].edge.line] + KidLines(kids[1..])
  }

  lemma KidLinesAppend(a: seq<Node>, b: seq<Node>)
    ensures KidLines(a + b) == KidLines(a) + KidLines(b)
  {
  }

  /** Drawing from a source is kept when the source grows. */
  lemma {:induction false} DrawnFromWider(n: Node, small: seq<Line>, big: seq<Line>)
    requires forall l :: l in small ==> l in big
    requires DrawnFrom(n, small)
    ensures DrawnFrom(n, big)
    decreases n
  {
    forall c | c in n.kids
      ensures DrawnFrom(c, big)
    {
      DrawnFromWider(c, small, big);
    }
  }

  /** The same, for every node of a sequence of subtrees. */
  lemma DrawnAllWider(kids: seq<Node>, small: seq<Line>, big: seq<Line>)
    requires forall l :: l in small ==> l in big
    requires forall c :: c in kids ==> DrawnFrom(c, small)
    ensures forall c :: c in kids ==> DrawnFrom(c, big)
  {
    forall c | c in kids
      ensures DrawnFrom(c, big)
    {
      DrawnFromWider(c, small, big);
    }
  }

  /** The lines of every edge of a tree. */
  function TreeLines(n: Node): (ls: set<Line>)
    ensures n.edge.line in ls
    decreases n
  {
    {n.edge.line} + ForestLines(n.kids)
  }

  /** The lines of every edge of a sequence of subtrees. */
  function ForestLines(kids: seq<Node>): (ls: set<Line>)
    ensures forall k :: 0 <= k < |kids| ==> TreeLines(kids[k]) <= ls
    decreases kids
  {
    if |kids| == 0 then {} else TreeLines(kids[0]) + ForestLines(kids[1..])
  }

  /** The end coordinate of every edge of a tree. */
  function TreeEnds(n: Node): (es: set<Coord>)
    ensures n.edge.end in es
    decreases n
  {
    {n.edge.end} + ForestEnds(n.kids)
  }

  /** The end coordinate of every edge of a sequence of subtrees. */
  function ForestEnds(kids: seq<Node>): (es: set<Coord>)
    ensures forall k :: 0 <= k < |kids| ==> TreeEnds(kids[k]) <= es
    decreases kids
  {
    if |kids| == 0 then {} else TreeEnds(kids[0]) + ForestEnds(kids[1..])
  }

  /** Both collections distribute over the concatenation of subtree sequences. */
  lemma {:induction false} ForestAppend(a: seq<Node>, b: seq<Node>)
    ensures ForestLines(a + b) == ForestLines(a) + ForestLines(b)
    ensures ForestEnds(a + b) == ForestEnds(a) + ForestEnds(b)
  {
    if |a| == 0 {
      assert a + b == b;
    } else {
      assert (a + b)[0] == a[0];
      assert (a + b)[1..] == a[1..] + b;
      ForestAppend(a[1..], b);
    }
  }

  /** A single subtree's collections are the tree's own. */
  lemma ForestSingle(n: Node)
    ensures ForestLines([n]) == TreeLines(n)
    ensures ForestEnds([n]) == TreeEnds(n)
  {
    assert [n][1..] == [];
  }
}
