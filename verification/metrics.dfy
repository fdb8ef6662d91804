/**
 * Network indicators reported after the network is built: the share of
 * population points that lie within a radius of some station, and the
 * average degree of the network.
 */
module Metrics {
  import opened Wrappers
  import opened Graph
  import opened Stations

  /**
   * Failures of the coverage computation: a node without a position
   * (`KeyError` while collecting positions), an empty network (no tree
   * can be built over zero points), and no population points (division
   * by zero).
   */
  datatype CoverageError = MissingPosition | NoNodes | NoPoints

  /** Squared Euclidean distance between two points. */
  function SqDist(p: Point, q: Point): nat {
    (p.x - q.x) * (p.x - q.x) + (p.y - q.y) * (p.y - q.y)
  }

  /** Every node of the network has a position. */
  predicate Placed(nodes: seq<NodeId>, pos: Positions) {
    forall k :: 0 <= k < |nodes| ==> nodes[k] in pos
  }

  /** The station positions, in node order. */
  function Sites(nodes: seq<NodeId>, pos: Positions): (sites: seq<Point>)
    requires Placed(nodes, pos)
    ensures |sites| == |nodes|
    ensures forall k :: 0 <= k < |nodes| ==> sites[k] == pos[nodes[k]]
  {
    seq(|nodes|, k requires 0 <= k < |nodes| => pos[nodes[k]])
  }

  /** A point is covered when some station lies at distance at most `radius` from it. */
  predicate Covered(sites: seq<Point>, p: Point, radius: int) {
    radius >= 0 && exists k :: 0 <= k < |sites| && SqDist(sites[k], p) <= radius * radius
  }

  /** Number of covered points. */
  function CoveredCount(sites: seq<Point>, points: seq<Point>, radius: int): nat
    decreases |points|
  {
    if points == [] then 0
    else
      var last := if Covered(sites, points[|points| - 1], radius) then 1 else 0;
      CoveredCount(sites, points[..|points| - 1], radius) + last
  }

  /** At most every point is covered. */
  lemma {:induction false} CoveredCountBound(sites: seq<Point>, points: seq<Point>, radius: int)
    ensures CoveredCount(sites, points, radius) <= |points|
    decreases |points|
  {
    if points != [] {
      CoveredCountBound(sites, points[..|points| - 1], radius);
    }
  }

  /** Widening the radius never uncovers a point. */
  lemma CoveredMonotone(sites: seq<Point>, p: Point, r1: int, r2: int)
    requires r1 <= r2 && Covered(sites, p, r1)
    ensures Covered(sites, p, r2)
  {
    SquareMonotone(r1, r2);
  }

  /** Squaring is monotone on non-negative integers. */
  lemma SquareMonotone(a: int, b: int)
    requires 0 <= a <= b
    ensures a * a <= b * b
  {
    var d := b - a;
    assert b * b == a * a + 2 * a * d + d * d;
  }

  /** Dividing by the same positive count keeps the order. */
  lemma RatioMonotone(a: nat, b: nat, n: nat)
    requires a <= b && n > 0
    ensures a as real / n as real <= b as real / n as real
    ensures 0.0 <= a as real / n as real && n as real / n as real == 1.0
  {
    var q := 1.0 / n as real;
    assert a as real / n as real == a as real * q;
    assert b as real / n as real == b as real * q;
  }

  /** Widening the radius never lowers the number of covered points. */
  lemma {:induction false} CoveredCountMonotone(sites: seq<Point>, points: seq<Point>, r1: int, r2: int)
    requires r1 <= r2
    ensures CoveredCount(sites, points, r1) <= CoveredCount(sites, points, r2)
    decreases |points|
  {
    if points != [] {
      CoveredCountMonotone(sites, points[..|points| - 1], r1, r2);
      if Covered(sites, points[|points| - 1], r1) {
        CoveredMonotone(sites, points[|points| - 1], r1, r2);
      }
    }
  }

  /** The nearest-neighbour query: the smallest squared distance from `p` to a station. */
  method Nearest(sites: seq<Point>, p: Point) returns (best: nat)
    requires |sites| > 0
    ensures exists k :: 0 <= k < |sites| && best == SqDist(sites[k], p)
    ensures forall k :: 0 <= k < |sites| ==> best <= SqDist(sites[k], p)
  {
    best := SqDist(sites[0], p);
    ghost var at := 0;
    var i := 1;
    while i < |sites|
      invariant 1 <= i <= |sites| && 0 <= at < i && best == SqDist(sites[at], p)
      invariant forall k :: 0 <= k < i ==> best <= SqDist(sites[k], p)
    {
      if SqDist(sites[i], p) < best {
        best := SqDist(sites[i], p);
        at := i;
      }
      i := i + 1;
    }
  }

  /** A point is covered exactly when its nearest station is within the radius. */
  lemma NearestDecides(sites: seq<Point>, p: Point, radius: int, best: nat)
    requires exists k :: 0 <= k < |sites| && best == SqDist(sites[k], p)
    requires forall k :: 0 <= k < |sites| ==> best <= SqDist(sites[k], p)
    ensures Covered(sites, p, radius) <==> radius >= 0 && best <= radius * radius
  {
  }

  /** The share of population points within `radius` of a station. */
  method ServiceCoverage(nodes: seq<NodeId>, pos: Positions, points: seq<Point>, radius: int)
    returns (r: Result<real, CoverageError>)
    ensures !Placed(nodes, pos) ==> r == Err(MissingPosition)
    ensures Placed(nodes, pos) && |nodes| == 0 ==> r == Err(NoNodes)
    ensures Placed(nodes, pos) && |nodes| > 0 && |points| == 0 ==> r == Err(NoPoints)
    ensures Placed(nodes, pos) && |nodes| > 0 && |points| > 0 ==>
      r == Ok(CoveredCount(Sites(nodes, pos), points, radius) as real / |points| as real)
  {
    var k := 0;
    while k < |nodes|
      invariant k <= |nodes| && forall i :: 0 <= i < k ==> nodes[i] in pos
    {
      if nodes[k] !in pos {
        return Err(MissingPosition);
      }
      k := k + 1;
    }
    if |nodes| == 0 {
      return Err(NoNodes);
    }
    var sites := Sites(nodes, pos);
    var count := 0;
    var i := 0;
    while i < |points|
      invariant i <= |points| && count == CoveredCount(sites, points[..i], radius)
    {
      var best := Nearest(sites, points[i]);
      NearestDecides(sites, points[i], radius, best);
      if radius >= 0 && best <= radius * radius {
        count := count + 1;
      }
      assert points[..i + 1][..i] == points[..i];
      i := i + 1;
    }
    assert points[..i] == points;
    if |points| == 0 {
      return Err(NoPoints);
    }
    return Ok(count as real / |points| as real);
  }

  /** A coverage ratio lies between zero and one. */
  lemma CoverageRatioBounds(sites: seq<Point>, points: seq<Point>, radius: int)
    requires |points| > 0
    ensures 0.0 <= CoveredCount(sites, points, radius) as real / |points| as real <= 1.0
  {
    var c := CoveredCount(sites, points, radius);
    CoveredCountBound(sites, points, radius);
    RatioMonotone(0, c, |points|);
    RatioMonotone(c, |points|, |points|);
  }

  /** The coverage ratio grows with the radius. */
  lemma CoverageRatioMonotone(sites: seq<Point>, points: seq<Point>, r1: int, r2: int)
    requires |points| > 0 && r1 <= r2
    ensures CoveredCount(sites, points, r1) as real / |points| as real
         <= CoveredCount(sites, points, r2) as real / |points| as real
  {
    CoveredCountMonotone(sites, points, r1, r2);
    RatioMonotone(CoveredCount(sites, points, r1), CoveredCount(sites, points, r2), |points|);
  }

  /** Sum of degrees over the number of nodes; `None` for an empty network (division by zero). */
  function AverageDegree(nodes: seq<NodeId>, E: Edges): (avg: Option<real>)
    ensures avg.None? <==> |nodes| == 0
  {
    if |nodes| == 0 then None else Some(DegreeSum(nodes, E) as real / |nodes| as real)
  }

  /** By the handshake lemma, the average degree is twice the edge count over the node count. */
  lemma AverageDegreeHandshake(nodes: seq<NodeId>, E: Edges)
    requires NoDup(nodes) && EdgesWithin(nodes, E) && |nodes| > 0
    ensures AverageDegree(nodes, E) == Some((2 * |E|) as real / |nodes| as real)
  {
    Handshake(nodes, E);
  }
}
