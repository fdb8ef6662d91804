/**
 * The optimisation passes of problem3.py:149-179, run on the network that
 * the construction passes built: one extra link per low-degree node, a second walking
 * pass with a smaller radius, and links that skip one stop along each route.
 * All three only insert edges that are absent, so no pass changes or removes
 * an existing edge.
 */
module Optimise {
  import opened Wrappers
  import opened RouteText
  import opened RouteMatch
  import opened Graph
  import opened Build

  /** A node whose degree is below this is a low-degree node. */
  const DegreeLimit: nat := 4

  /** Attributes of a low-degree link: `color='blue', type='bus', width=2.0`. */
  const BlueEdge: Attrs := Attrs(Some("blue"), Some(Bus), Some(2.0), None)

  /** Attributes of a skip-one link: `color='orange', type='bus', width=1.5`. */
  const OrangeEdge: Attrs := Attrs(Some("orange"), Some(Bus), Some(1.5), None)

  // ---------------------------------------------------------------------------
  // Low-degree linking: problem3.py:149-157

  /** `[n for n, d in G.degree() if d < 4]`: the low-degree nodes in node order. */
  function LowDegreeNodes(nodes: seq<NodeId>, E: Edges): (low: seq<NodeId>)
    ensures |low| <= |nodes|
    ensures forall n :: n in low <==> n in nodes && Degree(E, n) < DegreeLimit
    decreases |nodes|
  {
    if nodes == [] then []
    else
      var init := nodes[..|nodes| - 1];
      var n := nodes[|nodes| - 1];
      assert forall m :: m in nodes <==> m in init || m == n by {
        assert nodes == init + [n];
      }
      LowDegreeNodes(init, E) + (if Degree(E, n) < DegreeLimit then [n] else [])
  }

  /** Node `t` qualifies as a partner of `node`. */
  predicate IsCandidate(E: Edges, node: NodeId, t: NodeId) {
    t != node && Degree(E, t) < DegreeLimit
  }

  /**
   * `low_degree_neighbors[:1]`: the first node, in node order, that is not
   * `node` and whose current degree is below the limit.
   */
  function FirstCandidate(nodes: seq<NodeId>, E: Edges, node: NodeId): (t: Option<NodeId>)
    decreases |nodes|
  {
    if nodes == [] then None
    else if IsCandidate(E, node, nodes[0]) then Some(nodes[0])
    else FirstCandidate(nodes[1..], E, node)
  }

  /** The candidate is a node other than `node` with low degree, and every node before it fails to qualify. */
  lemma {:induction false} FirstCandidateFacts(nodes: seq<NodeId>, E: Edges, node: NodeId)
    ensures FirstCandidate(nodes, E, node).None? <==> forall n :: n in nodes ==> !IsCandidate(E, node, n)
    ensures FirstCandidate(nodes, E, node).Some? ==>
      exists i :: 0 <= i < |nodes| && nodes[i] == FirstCandidate(nodes, E, node).value
        && IsCandidate(E, node, nodes[i])
        && forall k :: 0 <= k < i ==> !IsCandidate(E, node, nodes[k])
    decreases |nodes|
  {
    if nodes != [] && !IsCandidate(E, node, nodes[0]) {
      var rest := nodes[1..];
      FirstCandidateFacts(rest, E, node);
      assert forall n :: n in nodes <==> n == nodes[0] || n in rest;
      if FirstCandidate(rest, E, node).Some? {
        var i :| 0 <= i < |rest| && rest[i] == FirstCandidate(rest, E, node).value
          && IsCandidate(E, node, rest[i]) && forall k :: 0 <= k < i ==> !IsCandidate(E, node, rest[k]);
        assert nodes[i + 1] == rest[i];
        forall k | 0 <= k < i + 1 ensures !IsCandidate(E, node, nodes[k]) {
          if k > 0 {
            assert nodes[k] == rest[k - 1];
          }
        }
      }
    }
  }

  /** The candidate, when there is one, is one of the nodes. */
  lemma {:induction false} FirstCandidateIn(nodes: seq<NodeId>, E: Edges, node: NodeId)
    ensures FirstCandidate(nodes, E, node).Some? ==> FirstCandidate(nodes, E, node).value in nodes
    decreases |nodes|
  {
    if nodes != [] && !IsCandidate(E, node, nodes[0]) {
      FirstCandidateIn(nodes[1..], E, node);
      if FirstCandidate(nodes[1..], E, node).Some? {
        assert nodes[1..][0..] == nodes[1..];
        assert forall x :: x in nodes[1..] ==> x in nodes;
      }
    }
  }

  /** One iteration of the outer loop for `node`. */
  function LinkStep(E: Edges, nodes: seq<NodeId>, node: NodeId): Edges {
    match FirstCandidate(nodes, E, node)
    case None => E
    case Some(t) => if Key(node, t) in E then E else E[Key(node, t) := BlueEdge]
  }

  /** The low-degree loop over the snapshot `cands`, in order. */
  function LinkAll(E: Edges, nodes: seq<NodeId>, cands: seq<NodeId>): Edges
    decreases |cands|
  {
    if cands == [] then E
    else LinkStep(LinkAll(E, nodes, cands[..|cands| - 1]), nodes, cands[|cands| - 1])
  }

  /**
   * One iteration adds at most one edge, which is a blue bus link between
   * `node` and its first candidate and never a self-loop; all other edges keep
   * their attributes, and nothing changes when that candidate is missing or
   * already adjacent.
   */
  lemma LinkStepFacts(E: Edges, nodes: seq<NodeId>, node: NodeId)
    ensures forall p :: p in E ==> p in LinkStep(E, nodes, node) && LinkStep(E, nodes, node)[p] == E[p]
    ensures |E| <= |LinkStep(E, nodes, node)| <= |E| + 1
    ensures forall p :: p in LinkStep(E, nodes, node) && p !in E ==>
      FirstCandidate(nodes, E, node).Some? && p == Key(node, FirstCandidate(nodes, E, node).value)
      && p.lo != p.hi && LinkStep(E, nodes, node)[p] == BlueEdge
    ensures FirstCandidate(nodes, E, node).None? ==> LinkStep(E, nodes, node) == E
    ensures FirstCandidate(nodes, E, node).Some? && Key(node, FirstCandidate(nodes, E, node).value) in E ==>
      LinkStep(E, nodes, node) == E
  {
    var c := FirstCandidate(nodes, E, node);
    if c.Some? && Key(node, c.value) !in E {
      FirstCandidateFacts(nodes, E, node);
      assert E[Key(node, c.value) := BlueEdge].Keys == E.Keys + {Key(node, c.value)};
    }
  }

  /** The candidate of a node is one of the nodes. */
  lemma LinkStepWithin(E: Edges, nodes: seq<NodeId>, node: NodeId)
    requires EdgesWithin(nodes, E) && node in nodes
    ensures EdgesWithin(nodes, LinkStep(E, nodes, node))
  {
    FirstCandidateFacts(nodes, E, node);
  }

  /**
   * Over the whole loop: the edges only grow, old edges keep their
   * attributes, at most one edge is added per snapshot entry, and every added
   * edge is a blue bus link that is not a self-loop.
   */
  lemma {:induction false} LinkAllFacts(E: Edges, nodes: seq<NodeId>, cands: seq<NodeId>)
    ensures forall p :: p in E ==> p in LinkAll(E, nodes, cands) && LinkAll(E, nodes, cands)[p] == E[p]
    ensures |E| <= |LinkAll(E, nodes, cands)| <= |E| + |cands|
    ensures forall p :: p in LinkAll(E, nodes, cands) && p !in E ==> p.lo != p.hi && LinkAll(E, nodes, cands)[p] == BlueEdge
    decreases |cands|
  {
    if cands != [] {
      var prev := LinkAll(E, nodes, cands[..|cands| - 1]);
      LinkAllFacts(E, nodes, cands[..|cands| - 1]);
      LinkStepFacts(prev, nodes, cands[|cands| - 1]);
    }
  }

  lemma LinkAllStep(E: Edges, nodes: seq<NodeId>, cands: seq<NodeId>, k: nat)
    requires k < |cands|
    ensures LinkAll(E, nodes, cands[..k + 1]) == LinkStep(LinkAll(E, nodes, cands[..k]), nodes, cands[k])
  {
    assert cands[..k + 1][..k] == cands[..k];
  }

  /**
   * problem3.py:150-157.  `low_degree_nodes` is taken once, before the loop,
   * while each iteration re-reads the current degrees to choose a partner.
   */
  method LinkLowDegree(g: Network)
    requires g.Valid()
    modifies g
    ensures g.Valid() && g.nodes == old(g.nodes)
    ensures g.edges == LinkAll(old(g.edges), g.nodes, LowDegreeNodes(g.nodes, old(g.edges)))
  {
    ghost var E0 := g.edges;
    var low := LowDegreeNodes(g.nodes, g.edges);
    var k := 0;
    while k < |low|
      invariant 0 <= k <= |low|
      invariant g.Valid() && g.nodes == old(g.nodes)
      invariant g.edges == LinkAll(E0, g.nodes, low[..k])
    {
      assert low[k] in low;
      LinkOne(g, low[k]);
      LinkAllStep(E0, g.nodes, low, k);
      k := k + 1;
    }
    assert low[..k] == low;
  }

  /** The loop body for one low-degree `node`. */
  method LinkOne(g: Network, node: NodeId)
    requires g.Valid() && node in g.nodes
    modifies g
    ensures g.Valid() && g.nodes == old(g.nodes)
    ensures g.edges == LinkStep(old(g.edges), g.nodes, node)
  {
    var target := FindCandidate(g, node);
    if target.Some? {
      FirstCandidateIn(g.nodes, g.edges, node);
      var _ := g.AddEdgeIfAbsent(node, target.value, BlueEdge);
    }
  }

  /** The scan that builds `low_degree_neighbors` and keeps its first entry. */
  method FindCandidate(g: Network, node: NodeId) returns (t: Option<NodeId>)
    ensures t == FirstCandidate(g.nodes, g.edges, node)
  {
    var i := 0;
    while i < |g.nodes| && !IsCandidate(g.edges, node, g.nodes[i])
      invariant 0 <= i <= |g.nodes|
      invariant FirstCandidate(g.nodes[i..], g.edges, node) == FirstCandidate(g.nodes, g.edges, node)
    {
      assert g.nodes[i..][1..] == g.nodes[i + 1..];
      i := i + 1;
    }
    if i < |g.nodes| {
      t := Some(g.nodes[i]);
    } else {
      t := None;
    }
  }

  // ---------------------------------------------------------------------------
  // Second walking pass: problem3.py:159-164

  /**
   * The second query uses a smaller radius on the same points, so its pairs
   * are among those of the first pass; every one of them is already an edge
   * and the second pass adds nothing.
   */
  lemma SecondWalkPassAddsNothing(E: Edges, stopIds: seq<NodeId>, first: seq<IndexPair>, second: seq<IndexPair>)
    requires PairsInRange(first, |stopIds|) && PairsInRange(second, |stopIds|)
    requires forall q :: q in second ==> q in first
    requires forall p :: p in WalkKeys(stopIds, first) ==> p in E
    ensures AddIfAbsent(E, WalkKeys(stopIds, second), WalkEdge) == E
  {
    var ps := WalkKeys(stopIds, second);
    var qs := WalkKeys(stopIds, first);
    forall p | p in ps ensures p in E {
      var k :| 0 <= k < |ps| && ps[k] == p;
      assert second[k] in second;
      var m :| 0 <= m < |first| && first[m] == second[k];
      assert qs[m] == p;
    }
    AddIfAbsentNoOp(E, ps, WalkEdge);
  }

  /**
   * On the network as built, whose walking edges come from the first query,
   * and after the low-degree pass, the second walking pass adds nothing when
   * its pairs are among the first query's.
   */
  lemma SecondWalkPassAfterBuild(transit: Edges, stopIds: seq<NodeId>, first: seq<IndexPair>,
                                 second: seq<IndexPair>, nodes: seq<NodeId>, cands: seq<NodeId>)
    requires PairsInRange(first, |stopIds|) && PairsInRange(second, |stopIds|)
    requires forall q :: q in second ==> q in first
    ensures var built := AddIfAbsent(transit, WalkKeys(stopIds, first), WalkEdge);
      var linked := LinkAll(built, nodes, cands);
      AddIfAbsent(linked, WalkKeys(stopIds, second), WalkEdge) == linked
  {
    var built := AddIfAbsent(transit, WalkKeys(stopIds, first), WalkEdge);
    var linked := LinkAll(built, nodes, cands);
    AddIfAbsentFacts(transit, WalkKeys(stopIds, first), WalkEdge);
    LinkAllFacts(built, nodes, cands);
    forall p | p in WalkKeys(stopIds, first) ensures p in linked {
      assert p in PairSet(WalkKeys(stopIds, first));
    }
    SecondWalkPassAddsNothing(linked, stopIds, first, second);
  }

  // ---------------------------------------------------------------------------
  // Skip-one links along each route: problem3.py:166-179

  function Max0(n: int): nat {
    if n < 0 then 0 else n
  }

  function Min(a: int, b: int): int {
    if a <= b then a else b
  }

  /** The pairs `(ids[i], ids[i + 2])` visited by the nested loops, in order. */
  function SkipOnePairs(ids: seq<NodeId>): (ps: seq<Pair>)
    ensures |ps| == Max0(|ids| - 2)
    ensures forall i :: 0 <= i < |ps| ==> ps[i] == Key(ids[i], ids[i + 2])
  {
    seq(Max0(|ids| - 2), i requires 0 <= i < Max0(|ids| - 2) => Key(ids[i], ids[i + 2]))
  }

  /**
   * The nested loops for one route.  The inner `range(i + 2, min(i + 3, n))`
   * holds at most one index, so each route inserts at most `n - 2` edges.
   */
  method AddSkipOneEdges(g: Network, related: seq<NodeId>) returns (added: nat)
    requires g.Valid() && IdsAreNodes(related, g.nodes)
    modifies g
    ensures g.Valid() && g.nodes == old(g.nodes)
    ensures g.edges == AddIfAbsent(old(g.edges), SkipOnePairs(related), OrangeEdge)
    ensures added == |g.edges| - |old(g.edges)| && added <= Max0(|related| - 2)
  {
    ghost var E0 := g.edges;
    ghost var ps := SkipOnePairs(related);
    added := 0;
    var i := 0;
    while i < |related| - 1
      invariant 0 <= i && (|related| > 0 ==> i <= |related| - 1)
      invariant g.Valid() && g.nodes == old(g.nodes)
      invariant g.edges == AddIfAbsent(E0, ps[..Min(i, |ps|)], OrangeEdge)
      invariant added == |g.edges| - |E0|
    {
      ghost var E1 := g.edges;
      var n := SkipFrom(g, related, i);
      SkipOneStep(E0, related, i, E1, g.edges);
      added := added + n;
      i := i + 1;
    }
    assert ps[..Min(i, |ps|)] == ps;
    AddIfAbsentCount(E0, ps, OrangeEdge);
  }

  /** What the inner loop for stop `i` adds extends the fold over the skip-one pairs by one pair. */
  lemma SkipOneStep(E0: Edges, related: seq<NodeId>, i: nat, E1: Edges, E2: Edges)
    requires E1 == AddIfAbsent(E0, SkipOnePairs(related)[..Min(i, |SkipOnePairs(related)|)], OrangeEdge)
    requires i + 2 < |related| ==> E2 == AddIfAbsent(E1, [Key(related[i], related[i + 2])], OrangeEdge)
    requires i + 2 >= |related| ==> E2 == E1
    ensures E2 == AddIfAbsent(E0, SkipOnePairs(related)[..Min(i + 1, |SkipOnePairs(related)|)], OrangeEdge)
  {
    var ps := SkipOnePairs(related);
    if i < |ps| {
      AddIfAbsentStep(E0, ps, i, OrangeEdge);
      assert [ps[i]][..0] == [];
    }
  }

  /** The inner loop for stop `i`: links it to the stop two places on, if there is one and they are not adjacent. */
  method SkipFrom(g: Network, related: seq<NodeId>, i: nat) returns (n: nat)
    requires g.Valid() && IdsAreNodes(related, g.nodes) && i < |related|
    modifies g
    ensures g.Valid() && g.nodes == old(g.nodes)
    ensures i + 2 < |related| ==> g.edges == AddIfAbsent(old(g.edges), [Key(related[i], related[i + 2])], OrangeEdge)
    ensures i + 2 >= |related| ==> g.edges == old(g.edges)
    ensures n == |g.edges| - |old(g.edges)|
  {
    n := 0;
    var j := i + 2;
    while j < Min(i + 3, |related|)
      invariant i + 2 <= j <= i + 3 && (j == i + 3 ==> i + 2 < |related|)
      invariant g.Valid() && g.nodes == old(g.nodes)
      invariant j == i + 2 ==> g.edges == old(g.edges)
      invariant j == i + 3 ==> g.edges == AddIfAbsent(old(g.edges), [Key(related[i], related[i + 2])], OrangeEdge)
      invariant n == |g.edges| - |old(g.edges)|
    {
      var u, v := related[i], related[j];
      assert u in related && v in related;
      assert [Key(u, v)][..0] == [];
      var isNew := g.AddEdgeIfAbsent(u, v, OrangeEdge);
      if isNew {
        n := n + 1;
      }
      j := j + 1;
    }
  }

  /** After the nested loops every stop is adjacent to the stop two places further on. */
  lemma SkipOneCover(E: Edges, related: seq<NodeId>, i: nat)
    requires i + 2 < |related|
    ensures Key(related[i], related[i + 2]) in AddIfAbsent(E, SkipOnePairs(related), OrangeEdge)
  {
    var ps := SkipOnePairs(related);
    assert ps[i] in PairSet(ps);
    AddIfAbsentFacts(E, ps, OrangeEdge);
  }

  /** The skip-one pass over all routes, in table order. */
  function SkipOneAll(E: Edges, runs: seq<RouteRun>): Edges
    decreases |runs|
  {
    if runs == [] then E
    else AddIfAbsent(SkipOneAll(E, runs[..|runs| - 1]), SkipOnePairs(runs[|runs| - 1].related), OrangeEdge)
  }

  lemma SkipOneAllStep(E: Edges, runs: seq<RouteRun>, k: nat)
    requires k < |runs|
    ensures SkipOneAll(E, runs[..k + 1]) == AddIfAbsent(SkipOneAll(E, runs[..k]), SkipOnePairs(runs[k].related), OrangeEdge)
  {
    assert runs[..k + 1][..k] == runs[..k];
  }

  /** The outer loop of problem3.py:167-179: recompute `related_ids` for each route, then link. */
  method AddSkipOneLinks(g: Network, stops: seq<Stop>, routes: seq<RouteRow>)
    requires g.Valid() && IdsAreNodes(StopIds(stops), g.nodes)
    modifies g
    ensures g.Valid() && g.nodes == old(g.nodes)
    ensures g.edges == SkipOneAll(old(g.edges), Runs(stops, routes))
  {
    ghost var E0 := g.edges;
    ghost var runs := Runs(stops, routes);
    RunsAreStops(stops, routes);
    var k := 0;
    while k < |routes|
      invariant 0 <= k <= |routes|
      invariant g.Valid() && g.nodes == old(g.nodes)
      invariant g.edges == SkipOneAll(E0, runs[..k])
    {
      var routeNum := Strip(routes[k].number);
      var related := RelatedIds(stops, routeNum);
      assert related == runs[k].related;
      assert IdsAreNodes(runs[k].related, StopIds(stops));
      var added := AddSkipOneEdges(g, related);
      SkipOneAllStep(E0, runs, k);
      k := k + 1;
    }
    assert runs[..k] == runs;
  }

  /** The skip-one pass keeps every edge it finds and inserts only orange bus links. */
  lemma {:induction false} SkipOneAllFacts(E: Edges, runs: seq<RouteRun>)
    ensures forall p :: p in E ==> p in SkipOneAll(E, runs) && SkipOneAll(E, runs)[p] == E[p]
    ensures forall p :: p in SkipOneAll(E, runs) && p !in E ==> SkipOneAll(E, runs)[p] == OrangeEdge
    decreases |runs|
  {
    if runs != [] {
      var prev := SkipOneAll(E, runs[..|runs| - 1]);
      SkipOneAllFacts(E, runs[..|runs| - 1]);
      AddIfAbsentFacts(prev, SkipOnePairs(runs[|runs| - 1].related), OrangeEdge);
    }
  }

  // ---------------------------------------------------------------------------
  // All three passes

  /**
   * problem3.py:149-179 in order.  `walkPairs` is the pair list of the second
   * proximity query.  No pass removes or changes an edge.
   */
  method OptimiseNetwork(g: Network, stops: seq<Stop>, routes: seq<RouteRow>, stopIds: seq<NodeId>,
                         walkPairs: seq<IndexPair>)
    requires g.Valid() && IdsAreNodes(StopIds(stops), g.nodes) && IdsAreNodes(stopIds, g.nodes)
    requires PairsInRange(walkPairs, |stopIds|)
    modifies g
    ensures g.Valid() && g.nodes == old(g.nodes)
    ensures g.edges == SkipOneAll(
      AddIfAbsent(LinkAll(old(g.edges), g.nodes, LowDegreeNodes(g.nodes, old(g.edges))),
                  WalkKeys(stopIds, walkPairs), WalkEdge),
      Runs(stops, routes))
    ensures forall p :: p in old(g.edges) ==> p in g.edges && g.edges[p] == old(g.edges)[p]
  {
    ghost var E0 := g.edges;
    LinkLowDegree(g);
    ghost var E1 := g.edges;
    AddWalkEdges(g, stopIds, walkPairs);
    ghost var E2 := g.edges;
    AddSkipOneLinks(g, stops, routes);
    LinkAllFacts(E0, g.nodes, LowDegreeNodes(g.nodes, E0));
    AddIfAbsentFacts(E1, WalkKeys(stopIds, walkPairs), WalkEdge);
    SkipOneAllFacts(E2, Runs(stops, routes));
  }
}
