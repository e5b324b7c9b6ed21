/**
 * The three blueprint filters: stateless maps from one blueprint to another
 * that keep the author and the name and only ever drop points.
 *
 * IdentityFilter returns its argument. RedundancyFilter collapses every run
 * of consecutive equal points into one point; UndersamplingFilter keeps the
 * points at even indices, unless there are two points or fewer, in which
 * case it keeps them all.
 */
module Filters {
  import opened Model

  // ---------------------------------------------------------------------
  // Identity
  // ---------------------------------------------------------------------

  /** IdentityFilter.apply: every blueprint is accepted and returned as is. */
  function ApplyIdentity(bp: Blueprint): (r: Blueprint)
    ensures r.author == bp.author && r.name == bp.name
    ensures |r.points| == |bp.points|
    ensures forall i :: 0 <= i < |bp.points| ==> r.points[i] == bp.points[i]
  {
    bp
  }

  // ---------------------------------------------------------------------
  // Redundancy
  // ---------------------------------------------------------------------

  /** No point is equal to the point immediately before it. */
  predicate NoAdjacentRepeats(ps: seq<Point>)
  {
    forall i :: 0 < i < |ps| ==> ps[i - 1] != ps[i]
  }

  /** `r` can be obtained from `s` by deleting points, keeping the order. */
  predicate IsSubsequence(r: seq<Point>, s: seq<Point>)
    decreases |s|
  {
    if r == [] then true
    else if s == [] then false
    else if r[0] == s[0] then IsSubsequence(r[1..], s[1..])
    else IsSubsequence(r, s[1..])
  }

  /**
   * The points of RedundancyFilter: a point is dropped exactly when it
   * equals the point before it, so each run of equal points leaves its
   * first point. The result starts where the input starts and has no two
   * equal neighbours.
   */
  function Collapse(ps: seq<Point>): (r: seq<Point>)
    ensures |r| <= |ps|
    ensures r == [] <==> ps == []
    ensures ps != [] ==> r[0] == ps[0]
    ensures NoAdjacentRepeats(r)
    decreases |ps|
  {
    if |ps| <= 1 then ps
    else if ps[0] == ps[1] then Collapse(ps[1..])
    else [ps[0]] + Collapse(ps[1..])
  }

  /** `n` copies of `p`. */
  function Repeat(p: Point, n: nat): (s: seq<Point>)
    ensures |s| == n
    ensures forall i :: 0 <= i < n ==> s[i] == p
  {
    if n == 0 then [] else [p] + Repeat(p, n - 1)
  }

  /** The length of each run of equal consecutive points, in order. */
  function RunLengths(ps: seq<Point>): (c: seq<nat>)
    ensures |c| == |Collapse(ps)|
    ensures forall k :: 0 <= k < |c| ==> c[k] >= 1
    decreases |ps|
  {
    if |ps| <= 1 then (if ps == [] then [] else [1])
    else if ps[0] == ps[1] then
      var c := RunLengths(ps[1..]);
      [c[0] + 1] + c[1..]
    else [1] + RunLengths(ps[1..])
  }

  /** Replaces each point `r[k]` by `c[k]` copies of it. */
  function Expand(r: seq<Point>, c: seq<nat>): seq<Point>
    requires |r| == |c|
    decreases |r|
  {
    if r == [] then [] else Repeat(r[0], c[0]) + Expand(r[1..], c[1..])
  }

  /** Lengthening the first run by one puts one more copy of its point in front. */
  lemma ExpandLongerFirstRun(r: seq<Point>, c: seq<nat>)
    requires |r| == |c| && r != []
    ensures Expand(r, [c[0] + 1] + c[1..]) == [r[0]] + Expand(r, c)
  {
    var c' := [c[0] + 1] + c[1..];
    assert c'[1..] == c[1..];
    assert Repeat(r[0], c[0] + 1) == [r[0]] + Repeat(r[0], c[0]);
  }

  /**
   * Collapsing loses nothing but repetition: repeating each kept point as
   * often as its run was long gives back the input.
   */
  lemma {:induction false} CollapseRoundTrip(ps: seq<Point>)
    ensures Expand(Collapse(ps), RunLengths(ps)) == ps
    decreases |ps|
  {
    if |ps| == 1 {
      assert Repeat(ps[0], 1) == [ps[0]];
    } else if |ps| > 1 {
      var r, c := Collapse(ps[1..]), RunLengths(ps[1..]);
      CollapseRoundTrip(ps[1..]);
      if ps[0] == ps[1] {
        ExpandLongerFirstRun(r, c);
      } else {
        var r' := [ps[0]] + r;
        var c' := [1] + c;
        assert r'[1..] == r && c'[1..] == c;
        assert Repeat(ps[0], 1) == [ps[0]];
        assert Expand(r', c') == [ps[0]] + Expand(r, c);
      }
    }
  }

  /** Dropping a point from the front of `s` can only make `r` harder to find in it. */
  lemma {:induction false} SubsequenceOfTail(r: seq<Point>, s: seq<Point>)
    requires s != [] && IsSubsequence(r, s[1..])
    ensures IsSubsequence(r, s)
    decreases |s|
  {
    if r != [] && r[0] == s[0] {
      // IsSubsequence(r, s) reduces to IsSubsequence(r[1..], s[1..]).
      DropHeadOfSubsequence(r, s[1..]);
      SubsequenceOfTail(r[1..], s[1..]);
    }
  }

  /** A subsequence without its first point is still a subsequence. */
  lemma {:induction false} DropHeadOfSubsequence(r: seq<Point>, s: seq<Point>)
    requires r != [] && IsSubsequence(r, s)
    ensures s != [] && IsSubsequence(r[1..], s[1..])
    decreases |s|
  {
    if r[0] != s[0] {
      DropHeadOfSubsequence(r, s[1..]);
      SubsequenceOfTail(r[1..], s[1..]);
    }
  }

  /** The collapsed points occur in the input, in the same order. */
  lemma {:induction false} CollapseIsSubsequence(ps: seq<Point>)
    ensures IsSubsequence(Collapse(ps), ps)
    decreases |ps|
  {
    if |ps| == 1 {
      assert ps[1..] == [];
    } else if |ps| > 1 {
      var r := Collapse(ps[1..]);
      CollapseIsSubsequence(ps[1..]);
      if ps[0] == ps[1] {
        DropHeadOfSubsequence(r, ps[1..]);
        SubsequenceOfTail(r[1..], ps[1..]);
      } else {
        assert ([ps[0]] + r)[1..] == r;
      }
    }
  }

  /** Every value in the input survives: only repetitions are removed. */
  lemma {:induction false} CollapseKeepsEveryValue(ps: seq<Point>, p: Point)
    ensures p in Collapse(ps) <==> p in ps
    decreases |ps|
  {
    if |ps| > 1 {
      CollapseKeepsEveryValue(ps[1..], p);
      assert ps == [ps[0]] + ps[1..];
    }
  }

  /**
   * A point list with no equal neighbours passes through unchanged; in
   * particular equal points that are not adjacent are all kept.
   */
  lemma {:induction false} CollapseNoRepeatsUnchanged(ps: seq<Point>)
    requires NoAdjacentRepeats(ps)
    ensures Collapse(ps) == ps
    decreases |ps|
  {
    if |ps| > 1 {
      CollapseNoRepeatsUnchanged(ps[1..]);
    }
  }

  /** Applying the redundancy filter twice is the same as applying it once. */
  lemma CollapseIdempotent(ps: seq<Point>)
    ensures Collapse(Collapse(ps)) == Collapse(ps)
  {
    CollapseNoRepeatsUnchanged(Collapse(ps));
  }

  /** RedundancyFilter.apply: keeps author and name, collapses the points. */
  function ApplyRedundancy(bp: Blueprint): (r: Blueprint)
    ensures r.author == bp.author && r.name == bp.name
    ensures r.points == Collapse(bp.points)
    ensures NoAdjacentRepeats(r.points)
    ensures IsSubsequence(r.points, bp.points)
    ensures r.points == [] <==> bp.points == []
  {
    CollapseIsSubsequence(bp.points);
    bp.(points := Collapse(bp.points))
  }

  // ---------------------------------------------------------------------
  // Undersampling
  // ---------------------------------------------------------------------

  /** The points at indices 0, 2, 4, ..., in order. */
  function EvenIndexed(ps: seq<Point>): (r: seq<Point>)
    ensures |r| == (|ps| + 1) / 2
    ensures forall i :: 0 <= i < |r| ==> r[i] == ps[2 * i]
    decreases |ps|
  {
    if |ps| <= 1 then ps else [ps[0]] + EvenIndexed(ps[2..])
  }

  /** The points of UndersamplingFilter: unchanged up to two points, else the even-indexed ones. */
  function Undersample(ps: seq<Point>): (r: seq<Point>)
    ensures |ps| <= 2 ==> r == ps
    ensures |ps| > 2 ==> |r| == (|ps| + 1) / 2 && forall i :: 0 <= i < |r| ==> r[i] == ps[2 * i]
  {
    if |ps| <= 2 then ps else EvenIndexed(ps)
  }

  /** UndersamplingFilter.apply: keeps author and name, undersamples the points. */
  function ApplyUndersampling(bp: Blueprint): (r: Blueprint)
    ensures r.author == bp.author && r.name == bp.name
    ensures |bp.points| <= 2 ==> r.points == bp.points
    ensures |bp.points| > 2 ==> |r.points| == (|bp.points| + 1) / 2
    ensures |bp.points| > 2 ==> forall i :: 0 <= i < |r.points| ==> r.points[i] == bp.points[2 * i]
  {
    bp.(points := Undersample(bp.points))
  }

  // ---------------------------------------------------------------------
  // The cases exercised by the filter unit tests
  // ---------------------------------------------------------------------

  lemma RedundancyCases()
    ensures Collapse([Point(1, 1), Point(1, 1), Point(2, 2)]) == [Point(1, 1), Point(2, 2)]
    ensures Collapse([Point(1, 1), Point(1, 1), Point(2, 2), Point(2, 2), Point(2, 2), Point(3, 3)])
         == [Point(1, 1), Point(2, 2), Point(3, 3)]
    ensures Collapse([Point(1, 1), Point(2, 2), Point(1, 1)]) == [Point(1, 1), Point(2, 2), Point(1, 1)]
    ensures Collapse([]) == []
  {
    var a := [Point(1, 1), Point(1, 1), Point(2, 2), Point(2, 2), Point(2, 2), Point(3, 3)];
    assert a[1..][1..][1..][1..] == [Point(2, 2), Point(3, 3)];
    CollapseNoRepeatsUnchanged([Point(1, 1), Point(2, 2), Point(1, 1)]);
  }

  lemma UndersamplingCases()
    ensures Undersample([Point(1, 1), Point(2, 2), Point(3, 3), Point(4, 4), Point(5, 5), Point(6, 6)])
         == [Point(1, 1), Point(3, 3), Point(5, 5)]
    ensures Undersample([Point(1, 1), Point(2, 2), Point(3, 3), Point(4, 4), Point(5, 5)])
         == [Point(1, 1), Point(3, 3), Point(5, 5)]
    ensures Undersample([Point(1, 1), Point(2, 2)]) == [Point(1, 1), Point(2, 2)]
    ensures Undersample([Point(1, 1)]) == [Point(1, 1)]
  {
  }
}
