/** Planar line geometry as the tree builder and the rules tester see it:
    coordinates compared by exact equality, and lines as ordered coordinate
    sequences of at least two points. */
module Geometry {

  /** A coordinate; two coordinates are the same point only when both
      components are exactly equal (no tolerance). */
  datatype Coord = Coord(x: real, y: real)

  /** A line string: an ordered sequence of at least two coordinates. Two lines
      are equal exactly when their coordinate sequences are equal in order. */
  type Line = s: seq<Coord> | |s| >= 2 witness [Coord(0.0, 0.0), Coord(0.0, 0.0)]

  function First(l: Line): Coord { l[0] }

  function Last(l: Line): Coord { l[|l| - 1] }

  /** A line whose first and last coordinates coincide. */
  predicate IsClosed(l: Line) { First(l) == Last(l) }

  /** The same coordinates in the opposite order. */
  function Reverse(l: Line): (r: Line)
    ensures |r| == |l|
    ensures forall i :: 0 <= i < |l| ==> r[i] == l[|l| - 1 - i]
    ensures First(r) == Last(l) && Last(r) == First(l)
    ensures forall c :: c in r <==> c in l
  {
    var r := seq(|l|, i requires 0 <= i < |l| => l[|l| - 1 - i]);
    assert forall c :: c in l ==> c in r by {
      forall c | c in l
        ensures c in r
      {
        var i :| 0 <= i < |l| && l[i] == c;
        assert r[|l| - 1 - i] == c;
      }
    }
    r
  }

  /** Reversing twice gives the line back. */
  lemma ReverseInvolutive(l: Line)
    ensures Reverse(Reverse(l)) == l
  {
    var rr := Reverse(Reverse(l));
    assert |rr| == |l|;
    forall i | 0 <= i < |l|
      ensures rr[i] == l[i]
    {
    }
  }

  /** Removal of the first element equal to `x`, as a list's remove-by-value does;
      the sequence is unchanged when no element equals `x`. */
  function RemoveFirst<T(==)>(s: seq<T>, x: T): (r: seq<T>)
    ensures x !in s ==> r == s
    ensures x in s ==> multiset(r) == multiset(s) - multiset{x}
  {
    if |s| == 0 then []
    else if s[0] == x then
      assert s == [s[0]] + s[1..];
      s[1..]
    else
      assert s == [s[0]] + s[1..];
      [s[0]] + RemoveFirst(s[1..], x)
  }

  /** The element removed is the FIRST one equal to `x`, at index `i`:
      everything before it and everything after it is kept in order. */
  lemma {:induction false} RemoveFirstSplits<T>(s: seq<T>, x: T) returns (i: nat)
    requires x in s
    ensures i < |s| && s[i] == x && x !in s[..i]
    ensures RemoveFirst(s, x) == s[..i] + s[i + 1..]
  {
    if s[0] == x {
      i := 0;
    } else {
      assert s == [s[0]] + s[1..];
      var j := RemoveFirstSplits(s[1..], x);
      i := j + 1;
      assert s[..i] == [s[0]] + s[1..][..j];
      assert s[i + 1..] == s[1..][j + 1..];
    }
  }

  /** Removing from a sub-pool of `entry` an element of `entry` leaves a pool
      strictly smaller than `entry` and still inside it: whether or not `x` is
      still present, something of `entry` is missing afterwards. */
  lemma RemovalShrinks<T>(live: seq<T>, entry: seq<T>, x: T)
    requires multiset(live) <= multiset(entry)
    requires x in entry
    ensures multiset(RemoveFirst(live, x)) <= multiset(entry)
    ensures |RemoveFirst(live, x)| < |entry|
  {
    var r := RemoveFirst(live, x);
    if x in live {
      assert |multiset(r)| == |multiset(live)| - 1;
      SubMultisetSize(multiset(live), multiset(entry));
    } else {
      assert x in multiset(entry) && x !in multiset(live);
      assert multiset(live) < multiset(entry);
      StrictSubMultisetSize(multiset(live), multiset(entry));
    }
  }

  lemma SubMultisetSize<T>(a: multiset<T>, b: multiset<T>)
    requires a <= b
    ensures |a| <= |b|
  {
    assert b == a + (b - a);
  }

  lemma StrictSubMultisetSize<T>(a: multiset<T>, b: multiset<T>)
    requires a < b
    ensures |a| < |b|
  {
    assert b == a + (b - a);
    assert b - a != multiset{};
  }
}
