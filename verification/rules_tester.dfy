/** The topology rules a constructed tree must pass before it is used. Every
    rule is evaluated over the original, unoriented line list. Each rule is
    given twice: as the scan the tester performs, and as the property that
    scan decides, with the scan's contract tying the two together.

    When a scan skips "the line itself" it compares two line strings with
    the geometry library's topological equality (same point set), not with
    exact coordinate-by-coordinate equality. That comparison is the
    parameter `same`; `LineIdentity` records what it is known to satisfy. */
module RulesTester {
  import opened Wrappers
  import opened Geometry
  import opened EdgeTree

  /** The first rule that fails, in the order the checks run. */
  datatype Verdict = Pass | ClosedLoop | NotConnected | InteriorPointShared | NullRoot

  // ---------------------------------------------------------------------------
  // Line identity

  /** Facts about topological line equality: every line is the same as itself
      and as its reverse, the relation is symmetric, and two segments are the
      same only when they have the same pair of endpoints. */
  ghost predicate LineIdentity(same: (Line, Line) -> bool) {
    && (forall l: Line :: same(l, l))
    && (forall l: Line :: same(l, Reverse(l)))
    && (forall l: Line, o: Line :: same(l, o) ==> same(o, l))
    && (forall l: Line, o: Line :: same(l, o) && |l| == 2 && |o| == 2 ==> {First(l), Last(l)} == {First(o), Last(o)})
  }

  // ---------------------------------------------------------------------------
  // Rule 1: no closed loops

  /** Some line of the geometry is closed. */
  ghost predicate SomeLineClosed(lines: seq<Line>) {
    exists i :: 0 <= i < |lines| && IsClosed(lines[i])
  }

  /** Scans the lines in order and reports a closed one as soon as it is met. */
  function ContainsClosedLoop(lines: seq<Line>): (r: bool)
    ensures r <==> SomeLineClosed(lines)
  {
    if |lines| == 0 then false
    else if IsClosed(lines[0]) then true
    else
      var r := ContainsClosedLoop(lines[1..]);
      assert SomeLineClosed(lines[1..]) ==> SomeLineClosed(lines) by {
        if SomeLineClosed(lines[1..]) {
          var i :| 0 <= i < |lines[1..]| && IsClosed(lines[1..][i]);
          assert lines[i + 1] == lines[1..][i];
        }
      }
      assert SomeLineClosed(lines) ==> SomeLineClosed(lines[1..]) by {
        if SomeLineClosed(lines) {
          var i :| 0 <= i < |lines| && IsClosed(lines[i]);
          assert i != 0;
          assert lines[1..][i - 1] == lines[i];
        }
      }
      r
  }

  // ---------------------------------------------------------------------------
  // Rule 2: every line is connected to another one

  /** One of the four start/end pairings of `l` and `o` coincides. */
  predicate ShareEndpoint(l: Line, o: Line) {
    First(l) == First(o) || First(l) == Last(o) || Last(l) == First(o) || Last(l) == Last(o)
  }

  /** `o` is a partner of `l`: a line not the same as `l` that shares an
      endpoint with it. */
  predicate Partner(l: Line, o: Line, same: (Line, Line) -> bool) {
    !same(l, o) && ShareEndpoint(l, o)
  }

  /** Some line of the geometry is a partner of `l`. */
  ghost predicate HasPartnerIn(lines: seq<Line>, l: Line, same: (Line, Line) -> bool) {
    exists j :: 0 <= j < |lines| && Partner(l, lines[j], same)
  }

  /** Every line has a partner in the geometry. */
  ghost predicate EveryLineHasPartner(lines: seq<Line>, same: (Line, Line) -> bool) {
    forall i {:trigger HasPartnerIn(lines, lines[i], same)} :: 0 <= i < |lines| ==> HasPartnerIn(lines, lines[i], same)
  }

  /** The inner scan: looks for a partner of `l` among `lines[j..]`, skipping
      lines the same as `l` and stopping at the first shared endpoint. */
  function HasPartnerFrom(lines: seq<Line>, l: Line, j: nat, same: (Line, Line) -> bool): (r: bool)
    requires j <= |lines|
    ensures r <==> exists k :: j <= k < |lines| && Partner(l, lines[k], same)
    decreases |lines| - j
  {
    if j == |lines| then false
    else if same(l, lines[j]) then HasPartnerFrom(lines, l, j + 1, same)
    else if ShareEndpoint(l, lines[j]) then true
    else HasPartnerFrom(lines, l, j + 1, same)
  }

  /** The outer scan: every line from index `i` on has a partner; stops at the
      first line without one. */
  function AllConnectedFrom(lines: seq<Line>, i: nat, same: (Line, Line) -> bool): (r: bool)
    requires i <= |lines|
    ensures r <==> forall k {:trigger HasPartnerIn(lines, lines[k], same)} :: i <= k < |lines| ==> HasPartnerIn(lines, lines[k], same)
    decreases |lines| - i
  {
    if i == |lines| then true
    else if !HasPartnerFrom(lines, lines[i], 0, same) then
      assert !HasPartnerIn(lines, lines[i], same);
      false
    else AllConnectedFrom(lines, i + 1, same)
  }

  /** The connectivity rule as the tester evaluates it. */
  function ConnectedLineStrings(lines: seq<Line>, same: (Line, Line) -> bool): (r: bool)
    ensures r <==> EveryLineHasPartner(lines, same)
  {
    AllConnectedFrom(lines, 0, same)
  }

  /** A line has no partner among copies of itself: a geometry all of whose
      lines equal one line (in particular, a geometry of one line) is never
      connected. */
  lemma CopiesAreNotConnected(lines: seq<Line>, l: Line, same: (Line, Line) -> bool)
    requires LineIdentity(same)
    requires |lines| > 0
    requires forall i :: 0 <= i < |lines| ==> lines[i] == l
    ensures !ConnectedLineStrings(lines, same)
  {
    assert !HasPartnerIn(lines, lines[0], same);
  }

  /** A line has no partner in its own reverse either: the back-and-forth
      pair P-Q, Q-P on its own is never connected. */
  lemma BackAndForthNotConnected(p: Coord, q: Coord, same: (Line, Line) -> bool)
    requires LineIdentity(same)
    ensures !ConnectedLineStrings([[p, q], [q, p]], same)
  {
    var pq: Line, qp: Line := [p, q], [q, p];
    assert Reverse(pq) == qp;
    var lines := [pq, qp];
    assert same(pq, lines[0]) && same(pq, lines[1]);
    assert !HasPartnerIn(lines, lines[0], same);
  }

  // ---------------------------------------------------------------------------
  // Rule 3: points are shared only at line ends

  /** Some coordinate of `l` occurs in `o` other than as `o`'s first or last coordinate. */
  predicate InteriorHit(l: Line, o: Line) {
    exists k :: 0 <= k < |l| && l[k] in o && l[k] != First(o) && l[k] != Last(o)
  }

  /** No line has a coordinate that lies inside a line not the same as it. */
  ghost predicate NoInteriorSharing(lines: seq<Line>, same: (Line, Line) -> bool) {
    forall i, j :: 0 <= i < |lines| && 0 <= j < |lines| && !same(lines[i], lines[j]) ==> !InteriorHit(lines[i], lines[j])
  }

  /** The innermost scan, over the coordinates of `l` from index `k`. */
  function CoordHitFrom(l: Line, o: Line, k: nat): (r: bool)
    requires k <= |l|
    ensures r <==> exists m :: k <= m < |l| && l[m] in o && l[m] != First(o) && l[m] != Last(o)
    decreases |l| - k
  {
    if k == |l| then false
    else if l[k] in o && l[k] != First(o) && l[k] != Last(o) then true
    else CoordHitFrom(l, o, k + 1)
  }

  /** The middle scan, over the other lines from index `j`, skipping lines the same as `l`. */
  function OtherHitFrom(lines: seq<Line>, l: Line, j: nat, same: (Line, Line) -> bool): (r: bool)
    requires j <= |lines|
    ensures r <==> exists m :: j <= m < |lines| && !same(l, lines[m]) && InteriorHit(l, lines[m])
    decreases |lines| - j
  {
    if j == |lines| then false
    else if same(l, lines[j]) then OtherHitFrom(lines, l, j + 1, same)
    else if CoordHitFrom(l, lines[j], 0) then true
    else OtherHitFrom(lines, l, j + 1, same)
  }

  /** The outer scan, over the lines from index `i`; stops at the first hit. */
  function AnyHitFrom(lines: seq<Line>, i: nat, same: (Line, Line) -> bool): (r: bool)
    requires i <= |lines|
    ensures r <==> exists k, m :: i <= k < |lines| && 0 <= m < |lines| && !same(lines[k], lines[m]) && InteriorHit(lines[k], lines[m])
    decreases |lines| - i
  {
    if i == |lines| then false
    else if OtherHitFrom(lines, lines[i], 0, same) then true
    else AnyHitFrom(lines, i + 1, same)
  }

  /** The interior-sharing rule as the tester evaluates it. */
  function SharedPoints(lines: seq<Line>, same: (Line, Line) -> bool): (r: bool)
    ensures r <==> NoInteriorSharing(lines, same)
  {
    !AnyHitFrom(lines, 0, same)
  }

  /** A line of two points has no interior, so a geometry of two-point lines
      always passes the interior-sharing rule. */
  lemma TwoPointLinesShareNoInterior(lines: seq<Line>, same: (Line, Line) -> bool)
    requires forall i :: 0 <= i < |lines| ==> |lines[i]| == 2
    ensures NoInteriorSharing(lines, same)
  {
    forall i, j | 0 <= i < |lines| && 0 <= j < |lines| && !same(lines[i], lines[j])
      ensures !InteriorHit(lines[i], lines[j])
    {
      var o := lines[j];
      assert forall c :: c in o ==> c == First(o) || c == Last(o);
    }
  }

  /** A line and its reverse are not compared with each other: in S-A, A-B-C,
      C-B-A the interior point B of A-B-C lies on C-B-A, yet the geometry
      passes the interior-sharing rule. */
  lemma ReversedCopySharesNoInterior(s: Coord, a: Coord, b: Coord, c: Coord, same: (Line, Line) -> bool)
    requires LineIdentity(same)
    requires s != a && s != b && s != c && a != b && a != c && b != c
    ensures SharedPoints([[s, a], [a, b, c], [c, b, a]], same)
  {
    var sa: Line, abc: Line, cba: Line := [s, a], [a, b, c], [c, b, a];
    assert Reverse(abc) == cba;
    assert same(abc, cba) && same(cba, abc);
    var lines := [sa, abc, cba];
    forall i, j | 0 <= i < 3 && 0 <= j < 3 && !same(lines[i], lines[j])
      ensures !InteriorHit(lines[i], lines[j])
    {
      assert i != j && {i, j} != {1, 2};
    }
  }

  // ---------------------------------------------------------------------------
  // The combined gate

  /** Runs the checks in order and reports the first that fails. */
  function Check(lines: seq<Line>, root: Option<Node>, same: (Line, Line) -> bool): (v: Verdict)
    ensures v.NullRoot? ==> root.None?
    ensures v.Pass? ==> root.Some?
  {
    if ContainsClosedLoop(lines) then ClosedLoop
    else if !ConnectedLineStrings(lines, same) then NotConnected
    else if !SharedPoints(lines, same) then InteriorPointShared
    else if root.None? then NullRoot
    else Pass
  }

  /** The verdict names the first rule, in check order, that the geometry
      breaks, and the root is only looked at once the geometry passes. */
  lemma CheckReportsFirstFailure(lines: seq<Line>, root: Option<Node>, same: (Line, Line) -> bool)
    ensures Check(lines, root, same).ClosedLoop? <==> SomeLineClosed(lines)
    ensures Check(lines, root, same).NotConnected? <==> !SomeLineClosed(lines) && !EveryLineHasPartner(lines, same)
    ensures Check(lines, root, same).InteriorPointShared? <==>
      !SomeLineClosed(lines) && EveryLineHasPartner(lines, same) && !NoInteriorSharing(lines, same)
    ensures Check(lines, root, same).NullRoot? <==>
      !SomeLineClosed(lines) && EveryLineHasPartner(lines, same) && NoInteriorSharing(lines, same) && root.None?
  {
    var closed := ContainsClosedLoop(lines);
    var connected := ConnectedLineStrings(lines, same);
    var shared := SharedPoints(lines, same);
    if closed {
      assert SomeLineClosed(lines);
    } else if !connected {
      assert !SomeLineClosed(lines) && !EveryLineHasPartner(lines, same);
    } else if !shared {
      assert !SomeLineClosed(lines) && EveryLineHasPartner(lines, same) && !NoInteriorSharing(lines, same);
    } else {
      assert !SomeLineClosed(lines) && EveryLineHasPartner(lines, same) && NoInteriorSharing(lines, same);
    }
  }

  /** The tester's answer: all four checks hold. */
  function Passes(lines: seq<Line>, root: Option<Node>, same: (Line, Line) -> bool): (b: bool)
    ensures b <==>
      !SomeLineClosed(lines) && EveryLineHasPartner(lines, same) && NoInteriorSharing(lines, same) && root.Some?
  {
    Check(lines, root, same) == Pass
  }

  /** An empty geometry passes all three geometry checks; only the root decides. */
  lemma EmptyGeometryPasses(root: Option<Node>, same: (Line, Line) -> bool)
    ensures Passes([], root, same) <==> root.Some?
  {
  }
}
