/**
 * `calculate_accessibility` (problem2.py:188-195): for every node, the number
 * of nodes whose shortest-path travel time from it, by the `weight`
 * attribute, is within the threshold.
 *
 * The shortest-path lengths that `single_source_dijkstra_path_length` returns
 * are computed here by relaxing edges until none improves, and are proved to
 * be exactly the least cost of a walk (`IsWalk`, `Cost`) from the source.
 * networkx gives an edge without a `weight` key the weight 1 (`EdgeWeight`).
 */
module Paths {
  import opened Wrappers
  import opened Graph

  function EdgeWeight(E: Edges, p: Pair): nat {
    if p in E && E[p].weight.Some? then E[p].weight.value else 1
  }

  /** A non-empty sequence of nodes, each adjacent to the next. */
  predicate IsWalk(E: Edges, w: seq<NodeId>) {
    |w| >= 1 && forall i :: 0 <= i < |w| - 1 ==> Key(w[i], w[i + 1]) in E
  }

  /** The total weight of the edges a walk crosses. */
  function Cost(E: Edges, w: seq<NodeId>): nat
    decreases |w|
  {
    if |w| <= 1 then 0 else Cost(E, w[..|w| - 1]) + EdgeWeight(E, Key(w[|w| - 2], w[|w| - 1]))
  }

  /** `w` is a walk from `s` to `v`. */
  predicate WalkFrom(E: Edges, s: NodeId, v: NodeId, w: seq<NodeId>) {
    IsWalk(E, w) && w[0] == s && w[|w| - 1] == v
  }

  /** Some walk from `s` to `v` takes at most `T`. */
  ghost predicate WithinTime(E: Edges, s: NodeId, v: NodeId, T: int) {
    exists w :: WalkFrom(E, s, v, w) && Cost(E, w) <= T
  }

  /** Crossing one more edge extends a walk and adds that edge's weight to its cost. */
  lemma ExtendWalk(E: Edges, s: NodeId, w: seq<NodeId>, v: NodeId)
    requires |w| >= 1 && WalkFrom(E, s, w[|w| - 1], w) && Key(w[|w| - 1], v) in E
    ensures WalkFrom(E, s, v, w + [v])
    ensures Cost(E, w + [v]) == Cost(E, w) + EdgeWeight(E, Key(w[|w| - 1], v))
  {
    assert (w + [v])[..|w|] == w;
  }

  /** A walk that starts at a node only visits nodes. */
  lemma WalkStaysInNodes(E: Edges, nodes: seq<NodeId>, w: seq<NodeId>)
    requires EdgesWithin(nodes, E) && IsWalk(E, w) && w[0] in nodes
    ensures forall x :: x in w ==> x in nodes
  {
    forall x | x in w ensures x in nodes {
      var i :| 0 <= i < |w| && w[i] == x;
      if i > 0 {
        assert Key(w[i - 1], w[i]) in E;
      }
    }
  }

  // ---------------------------------------------------------------------------
  // Relaxation

  /** Distance to `nodes[j]` improves by going through `nodes[i]`. */
  predicate CanRelax(E: Edges, nodes: seq<NodeId>, d: seq<Option<nat>>, i: nat, j: nat)
    requires i < |nodes| && j < |nodes| && |d| == |nodes|
  {
    Key(nodes[i], nodes[j]) in E && d[i].Some?
    && (d[j].None? || d[i].value + EdgeWeight(E, Key(nodes[i], nodes[j])) < d[j].value)
  }

  /** How many nodes have no distance yet. */
  function Unreached(d: seq<Option<nat>>): nat
    decreases |d|
  {
    if d == [] then 0 else Unreached(d[..|d| - 1]) + (if d[|d| - 1].None? then 1 else 0)
  }

  /** The sum of the known distances. */
  function DistanceSum(d: seq<Option<nat>>): nat
    decreases |d|
  {
    if d == [] then 0 else DistanceSum(d[..|d| - 1]) + (if d[|d| - 1].Some? then d[|d| - 1].value else 0)
  }

  /** Setting one distance changes the two measures by that entry alone. */
  lemma {:induction false} UpdateMeasures(d: seq<Option<nat>>, j: nat, c: nat)
    requires j < |d|
    ensures Unreached(d[j := Some(c)]) == Unreached(d) - (if d[j].None? then 1 else 0)
    ensures DistanceSum(d[j := Some(c)]) == DistanceSum(d) - (if d[j].Some? then d[j].value else 0) + c
    decreases |d|
  {
    var d' := d[j := Some(c)];
    if j == |d| - 1 {
      assert d'[..|d| - 1] == d[..|d| - 1];
    } else {
      assert d'[..|d| - 1] == d[..|d| - 1][j := Some(c)];
      UpdateMeasures(d[..|d| - 1], j, c);
    }
  }

  /**
   * `single_source_dijkstra_path_length` from `nodes[si]`: `d[k]` is the least
   * cost of a walk to `nodes[k]`, and `None` when there is no walk.
   */
  method ShortestDistances(E: Edges, nodes: seq<NodeId>, si: nat) returns (d: seq<Option<nat>>)
    requires NoDup(nodes) && EdgesWithin(nodes, E) && si < |nodes|
    ensures |d| == |nodes| && d[si] == Some(0)
    ensures IsDistances(E, nodes, si, d)
  {
    var n := |nodes|;
    d := seq(n, k requires 0 <= k < n => if k == si then Some(0) else None);
    ghost var wit: seq<seq<NodeId>> := seq(n, k requires 0 <= k < n => [nodes[si]]);
    while exists i, j :: 0 <= i < n && 0 <= j < n && CanRelax(E, nodes, d, i, j)
      invariant |d| == n && d[si] == Some(0)
      invariant Witnessed(E, nodes, si, d, wit)
      decreases Unreached(d), DistanceSum(d)
    {
      var i, j :| 0 <= i < n && 0 <= j < n && CanRelax(E, nodes, d, i, j);
      var c := d[i].value + EdgeWeight(E, Key(nodes[i], nodes[j]));
      RelaxStep(E, nodes, si, d, wit, i, j, c);
      d := d[j := Some(c)];
      wit := wit[j := wit[i] + [nodes[j]]];
    }
    StableDistances(E, nodes, d, si);
    WitnessedSound(E, nodes, si, d, wit);
  }

  /** Each recorded distance is the cost of the walk kept beside it. */
  ghost predicate Witnessed(E: Edges, nodes: seq<NodeId>, si: nat, d: seq<Option<nat>>, wit: seq<seq<NodeId>>) {
    si < |nodes| && |d| == |nodes| && |wit| == |nodes|
    && forall k :: 0 <= k < |nodes| && d[k].Some? ==>
      WalkFrom(E, nodes[si], nodes[k], wit[k]) && Cost(E, wit[k]) == d[k].value
  }

  /** The kept walks make every recorded distance the cost of some walk. */
  lemma WitnessedSound(E: Edges, nodes: seq<NodeId>, si: nat, d: seq<Option<nat>>, wit: seq<seq<NodeId>>)
    requires Witnessed(E, nodes, si, d, wit)
    ensures forall k :: 0 <= k < |nodes| && d[k].Some? ==>
      exists w :: WalkFrom(E, nodes[si], nodes[k], w) && Cost(E, w) == d[k].value
  {
    forall k | 0 <= k < |nodes| && d[k].Some?
      ensures exists w :: WalkFrom(E, nodes[si], nodes[k], w) && Cost(E, w) == d[k].value
    {
      assert WalkFrom(E, nodes[si], nodes[k], wit[k]);
    }
  }

  /** Relaxing the edge from `i` to `j` keeps a witness walk for every distance. */
  lemma RelaxKeepsWitnessed(E: Edges, nodes: seq<NodeId>, si: nat, d: seq<Option<nat>>, wit: seq<seq<NodeId>>, i: nat, j: nat)
    requires Witnessed(E, nodes, si, d, wit) && i < |nodes| && j < |nodes| && CanRelax(E, nodes, d, i, j)
    ensures Witnessed(E, nodes, si, d[j := Some(d[i].value + EdgeWeight(E, Key(nodes[i], nodes[j])))], wit[j := wit[i] + [nodes[j]]])
  {
    ExtendWalk(E, nodes[si], wit[i], nodes[j]);
  }

  /** One relaxation keeps the loop invariant and lowers the termination measure. */
  lemma RelaxStep(E: Edges, nodes: seq<NodeId>, si: nat, d: seq<Option<nat>>, wit: seq<seq<NodeId>>, i: nat, j: nat, c: nat)
    requires Witnessed(E, nodes, si, d, wit) && d[si] == Some(0)
    requires i < |nodes| && j < |nodes| && CanRelax(E, nodes, d, i, j)
    requires c == d[i].value + EdgeWeight(E, Key(nodes[i], nodes[j]))
    ensures var d' := d[j := Some(c)];
      |d'| == |d| && d'[si] == Some(0) && Witnessed(E, nodes, si, d', wit[j := wit[i] + [nodes[j]]])
      && (Unreached(d') < Unreached(d) || (Unreached(d') == Unreached(d) && DistanceSum(d') < DistanceSum(d)))
  {
    RelaxKeepsWitnessed(E, nodes, si, d, wit, i, j);
    UpdateMeasures(d, j, c);
  }

  /** Once no edge relaxes, no walk from the source is shorter than the recorded distance of its end. */
  lemma StableDistances(E: Edges, nodes: seq<NodeId>, d: seq<Option<nat>>, si: nat)
    requires NoDup(nodes) && EdgesWithin(nodes, E) && si < |nodes| && |d| == |nodes| && d[si] == Some(0)
    requires !exists i, j :: 0 <= i < |nodes| && 0 <= j < |nodes| && CanRelax(E, nodes, d, i, j)
    ensures forall k, w {:trigger WalkFrom(E, nodes[si], nodes[k], w)} :: 0 <= k < |nodes| && WalkFrom(E, nodes[si], nodes[k], w) ==>
      d[k].Some? && d[k].value <= Cost(E, w)
  {
    forall k, w {:trigger WalkFrom(E, nodes[si], nodes[k], w)} | 0 <= k < |nodes| && WalkFrom(E, nodes[si], nodes[k], w)
      ensures d[k].Some? && d[k].value <= Cost(E, w)
    {
      WalkStaysInNodes(E, nodes, w);
      StableIsComplete(E, nodes, d, si, k, w);
    }
  }

  /**
   * Once no edge relaxes, every walk from the source costs at least the
   * distance recorded for where it ends.
   */
  lemma {:induction false} StableIsComplete(E: Edges, nodes: seq<NodeId>, d: seq<Option<nat>>, si: nat, k: nat, w: seq<NodeId>)
    requires NoDup(nodes) && si < |nodes| && k < |nodes| && |d| == |nodes| && d[si] == Some(0)
    requires forall i, j :: 0 <= i < |nodes| && 0 <= j < |nodes| ==> !CanRelax(E, nodes, d, i, j)
    requires WalkFrom(E, nodes[si], nodes[k], w) && forall x :: x in w ==> x in nodes
    ensures d[k].Some? && d[k].value <= Cost(E, w)
    decreases |w|
  {
    if |w| == 1 {
      assert k == si;
    } else {
      var w' := w[..|w| - 1];
      var u := w[|w| - 2];
      assert u in w;
      var ku :| 0 <= ku < |nodes| && nodes[ku] == u;
      assert WalkFrom(E, nodes[si], nodes[ku], w') by {
        forall i | 0 <= i < |w'| - 1 ensures Key(w'[i], w'[i + 1]) in E {
          assert w'[i] == w[i] && w'[i + 1] == w[i + 1];
        }
      }
      assert forall x :: x in w' ==> x in w;
      StableIsComplete(E, nodes, d, si, ku, w');
      assert Key(w[|w| - 2], w[|w| - 1]) in E;
      assert !CanRelax(E, nodes, d, ku, k);
    }
  }

  // ---------------------------------------------------------------------------
  // Accessibility

  /** The nodes that can be reached from `s` within `T`; `calculate_accessibility` counts them. */
  ghost function Accessible(E: Edges, nodes: seq<NodeId>, s: NodeId, T: int): set<NodeId> {
    set v | v in nodes && WithinTime(E, s, v, T)
  }

  /**
   * `d` holds the shortest-path lengths from `nodes[si]`: each known distance
   * is the cost of some walk, and no walk is shorter.
   */
  ghost predicate IsDistances(E: Edges, nodes: seq<NodeId>, si: nat, d: seq<Option<nat>>) {
    si < |nodes| && |d| == |nodes|
    && (forall k :: 0 <= k < |nodes| && d[k].Some? ==>
      exists w :: WalkFrom(E, nodes[si], nodes[k], w) && Cost(E, w) == d[k].value)
    && (forall k, w {:trigger WalkFrom(E, nodes[si], nodes[k], w)} :: 0 <= k < |nodes| && WalkFrom(E, nodes[si], nodes[k], w) ==>
      d[k].Some? && d[k].value <= Cost(E, w))
  }

  /** Reached within `T` exactly when the computed distance is known and at most `T`. */
  lemma DistanceDecides(E: Edges, nodes: seq<NodeId>, si: nat, d: seq<Option<nat>>, T: int, k: nat)
    requires k < |nodes| && IsDistances(E, nodes, si, d)
    ensures nodes[k] in Accessible(E, nodes, nodes[si], T) <==> d[k].Some? && d[k].value <= T
  {
    if WithinTime(E, nodes[si], nodes[k], T) {
      var w :| WalkFrom(E, nodes[si], nodes[k], w) && Cost(E, w) <= T;
    }
  }

  function Elems(xs: seq<NodeId>): set<NodeId> {
    set v | v in xs
  }

  /** Counting the members of `A` over one more entry of a list without repeats. */
  lemma CountStep(nodes: seq<NodeId>, k: nat, A: set<NodeId>)
    requires NoDup(nodes) && k < |nodes|
    ensures |Elems(nodes[..k + 1]) * A| == |Elems(nodes[..k]) * A| + (if nodes[k] in A then 1 else 0)
  {
    assert nodes[..k + 1] == nodes[..k] + [nodes[k]];
    assert Elems(nodes[..k + 1]) == Elems(nodes[..k]) + {nodes[k]};
    assert nodes[k] !in Elems(nodes[..k]);
    if nodes[k] in A {
      assert Elems(nodes[..k + 1]) * A == Elems(nodes[..k]) * A + {nodes[k]};
    } else {
      assert Elems(nodes[..k + 1]) * A == Elems(nodes[..k]) * A;
    }
  }

  /** `sum(1 for t in times.values() if t <= time_threshold)` over the distances from `nodes[si]`. */
  method CountWithin(E: Edges, nodes: seq<NodeId>, si: nat, d: seq<Option<nat>>, T: int) returns (count: nat)
    requires NoDup(nodes) && IsDistances(E, nodes, si, d)
    ensures count == |Accessible(E, nodes, nodes[si], T)|
  {
    ghost var A := Accessible(E, nodes, nodes[si], T);
    count := 0;
    var k := 0;
    while k < |nodes|
      invariant 0 <= k <= |nodes|
      invariant count == |Elems(nodes[..k]) * A|
    {
      CountWithinStep(E, nodes, si, d, T, k);
      if d[k].Some? && d[k].value <= T {
        count := count + 1;
      }
      k := k + 1;
    }
    AccessibleAreNodes(E, nodes, nodes[si], T, k);
  }

  /** Looking at one more node adds one to the count exactly when its distance is within `T`. */
  lemma CountWithinStep(E: Edges, nodes: seq<NodeId>, si: nat, d: seq<Option<nat>>, T: int, k: nat)
    requires NoDup(nodes) && k < |nodes| && IsDistances(E, nodes, si, d)
    ensures var A := Accessible(E, nodes, nodes[si], T);
      |Elems(nodes[..k + 1]) * A| == |Elems(nodes[..k]) * A| + (if d[k].Some? && d[k].value <= T then 1 else 0)
  {
    DistanceDecides(E, nodes, si, d, T, k);
    CountStep(nodes, k, Accessible(E, nodes, nodes[si], T));
  }

  /** Every accessible node is among the first |nodes| nodes. */
  lemma AccessibleAreNodes(E: Edges, nodes: seq<NodeId>, s: NodeId, T: int, k: nat)
    requires k == |nodes|
    ensures Elems(nodes[..k]) * Accessible(E, nodes, s, T) == Accessible(E, nodes, s, T)
  {
    assert nodes[..k] == nodes;
  }

  /**
   * `calculate_accessibility(G, time_threshold)`: one entry per node, holding
   * the number of nodes reachable from it within the threshold.
   */
  method Accessibility(g: Network, T: int) returns (acc: map<NodeId, nat>)
    requires g.Valid()
    ensures acc.Keys == set v | v in g.nodes
    ensures forall v :: v in acc ==> acc[v] == |Accessible(g.edges, g.nodes, v, T)|
  {
    acc := map[];
    var k := 0;
    while k < |g.nodes|
      invariant 0 <= k <= |g.nodes|
      invariant acc.Keys == set v | v in g.nodes[..k]
      invariant forall v :: v in acc ==> acc[v] == |Accessible(g.edges, g.nodes, v, T)|
    {
      var d := ShortestDistances(g.edges, g.nodes, k);
      var c := CountWithin(g.edges, g.nodes, k, d, T);
      assert g.nodes[..k + 1] == g.nodes[..k] + [g.nodes[k]];
      acc := acc[g.nodes[k] := c];
      k := k + 1;
    }
    assert g.nodes[..k] == g.nodes;
  }

  /** A list has at least as many entries as distinct values. */
  lemma {:induction false} DistinctAtMostLength(nodes: seq<NodeId>)
    ensures |set v | v in nodes| <= |nodes|
    decreases |nodes|
  {
    if nodes != [] {
      var init := nodes[..|nodes| - 1];
      DistinctAtMostLength(init);
      assert nodes == init + [nodes[|nodes| - 1]];
      assert (set v | v in nodes) == (set v | v in init) + {nodes[|nodes| - 1]};
    }
  }

  /**
   * With a threshold of at least 0 every node reaches itself, so each count
   * is at least 1, and it never exceeds the number of nodes.
   */
  lemma AccessibleBounds(E: Edges, nodes: seq<NodeId>, s: NodeId, T: int)
    requires s in nodes && T >= 0
    ensures s in Accessible(E, nodes, s, T)
    ensures 1 <= |Accessible(E, nodes, s, T)| <= |nodes|
  {
    assert WalkFrom(E, s, s, [s]) && Cost(E, [s]) == 0;
    SubsetCard({s}, Accessible(E, nodes, s, T));
    SubsetCard(Accessible(E, nodes, s, T), set v | v in nodes);
    DistinctAtMostLength(nodes);
  }

  /** Raising the threshold keeps every node that was reachable, so no count decreases. */
  lemma AccessibleMonotone(E: Edges, nodes: seq<NodeId>, s: NodeId, T1: int, T2: int)
    requires T1 <= T2
    ensures Accessible(E, nodes, s, T1) <= Accessible(E, nodes, s, T2)
    ensures |Accessible(E, nodes, s, T1)| <= |Accessible(E, nodes, s, T2)|
  {
    forall v | v in Accessible(E, nodes, s, T1) ensures v in Accessible(E, nodes, s, T2) {
      var w :| WalkFrom(E, s, v, w) && Cost(E, w) <= T1;
    }
    SubsetCard(Accessible(E, nodes, s, T1), Accessible(E, nodes, s, T2));
  }

  lemma SubsetCard(a: set<NodeId>, b: set<NodeId>)
    requires a <= b
    ensures |a| <= |b|
  {
    assert b == a + (b - a);
  }
}
