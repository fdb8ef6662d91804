/**
 * `add_random_station_and_connection` (problem2.py:293-317): new stations get
 * consecutive ids above the current largest one and a position inside the
 * bounding box of the known positions; each new station is then linked to a
 * node picked at random among all nodes, unless it picks itself.
 *
 * The three random sources are parameters: `draws` holds the positions
 * `random.uniform` returns, `choices` the indices `random.choice` picks in
 * `list(G.nodes())`, and `weights` the values of `random.randint(1, 10)`.
 */
module Stations {
  import opened Wrappers
  import opened Graph

  /** A position in the projected plane. */
  datatype Point = Point(x: int, y: int)

  type Positions = map<NodeId, Point>

  /** `max` of an empty id list, and `min` of an empty position table, raise `ValueError`. */
  datatype StationError = NoExistingNodes | NoPositions

  /** `max(existing_node_ids, key=int)`. */
  function MaxId(ids: seq<NodeId>): (m: NodeId)
    requires ids != []
    ensures m in ids
    ensures forall x :: x in ids ==> x <= m
    decreases |ids|
  {
    if |ids| == 1 then ids[0]
    else
      var rest := MaxId(ids[1..]);
      assert forall x :: x in ids ==> x == ids[0] || x in ids[1..] by {
        assert ids == [ids[0]] + ids[1..];
      }
      if ids[0] <= rest then rest else ids[0]
  }

  /** `new_stations`: `max + i + 1` for `i` in `range(num)`. */
  function NewIds(nodes: seq<NodeId>, num: nat): seq<NodeId>
    requires num > 0 ==> nodes != []
  {
    if num == 0 then [] else seq(num, i requires 0 <= i < num => MaxId(nodes) + i + 1)
  }

  /** The new ids are consecutive and increasing, and none of them is already a node. */
  lemma NewIdsFresh(nodes: seq<NodeId>, num: nat)
    requires num > 0 ==> nodes != []
    ensures |NewIds(nodes, num)| == num
    ensures forall i :: 0 <= i < num ==> NewIds(nodes, num)[i] !in nodes
    ensures forall i :: 0 <= i < num - 1 ==> NewIds(nodes, num)[i + 1] == NewIds(nodes, num)[i] + 1
    ensures NoDup(NewIds(nodes, num))
  {
    var ids := NewIds(nodes, num);
    if num > 0 {
      forall i | 0 <= i < num ensures ids[i] !in nodes {
        assert ids[i] == MaxId(nodes) + i + 1;
      }
    }
  }

  /** `add_nodes_from` of ids that are all new and distinct appends them in order. */
  lemma {:induction false} AppendFresh(ns: seq<NodeId>, ids: seq<NodeId>)
    requires NoDup(ids) && forall x :: x in ids ==> x !in ns
    ensures AppendNew(ns, ids) == ns + ids
    decreases |ids|
  {
    if ids != [] {
      var init := ids[..|ids| - 1];
      var x := ids[|ids| - 1];
      assert ids == init + [x];
      assert NoDup(init) by {
        forall i, j | 0 <= i < j < |init| ensures init[i] != init[j] {
          assert init[i] == ids[i] && init[j] == ids[j];
        }
      }
      AppendFresh(ns, init);
      assert x !in init by {
        forall k | 0 <= k < |init| ensures init[k] != x {
          assert init[k] == ids[k];
        }
      }
      assert x in ids;
      assert AppendNew(ns, ids) == AppendNew(ns, init) + [x];
    }
  }

  /** `q` lies between the smallest and the largest coordinate of the known positions, on both axes. */
  predicate InBox(q: Point, pos: Positions) {
    (exists v :: v in pos && pos[v].x <= q.x) && (exists v :: v in pos && q.x <= pos[v].x)
    && (exists v :: v in pos && pos[v].y <= q.y) && (exists v :: v in pos && q.y <= pos[v].y)
  }

  /** `new_positions`: one drawn position per new station. */
  function NewPositions(ids: seq<NodeId>, draws: seq<Point>): (m: Positions)
    requires |draws| == |ids| && NoDup(ids)
    ensures m.Keys == set i | 0 <= i < |ids| :: ids[i]
    ensures forall i :: 0 <= i < |ids| ==> m[ids[i]] == draws[i]
  {
    map i | 0 <= i < |ids| :: ids[i] := draws[i]
  }

  /** The attribute dictionary of a random link: only `weight`. */
  function WeightOnly(w: nat): Attrs {
    Attrs(None, None, None, Some(w))
  }

  /** One iteration: station `s` picked node `t` and drew weight `w`. */
  function LinkNew(E: Edges, s: NodeId, t: NodeId, w: nat): Edges {
    if t != s then E[Key(s, t) := Merge(Attr(E, Key(s, t)), WeightOnly(w))] else E
  }

  lemma LinkNewCount(E: Edges, s: NodeId, t: NodeId, w: nat)
    ensures |E| <= |LinkNew(E, s, t, w)| <= |E| + 1
  {
    LinkNewFacts(E, s, t, w);
  }

  /** One iteration adds at most the edge between `s` and `t`, and leaves every edge not touching `s` alone. */
  lemma LinkNewFacts(E: Edges, s: NodeId, t: NodeId, w: nat)
    ensures LinkNew(E, s, t, w).Keys == E.Keys + (if t != s then {Key(s, t)} else {})
    ensures |E| <= |LinkNew(E, s, t, w)| <= |E| + 1
    ensures forall p :: p in E && p.lo != s && p.hi != s ==> LinkNew(E, s, t, w)[p] == E[p]
    ensures t != s ==> LinkNew(E, s, t, w)[Key(s, t)] == Merge(Attr(E, Key(s, t)), WeightOnly(w))
  {
    if t != s {
      var p := Key(s, t);
      if p in E {
        assert E[p := Merge(Attr(E, p), WeightOnly(w))].Keys == E.Keys;
      }
    }
  }

  /**
   * The linking loop after the first `n` new stations: station `ids[i]` picks
   * `nodes[choices[i]]` and, unless that is itself, `G.add_edge` sets the
   * weight `weights[i]` on the edge between them.
   */
  function RandomLinks(E: Edges, nodes: seq<NodeId>, ids: seq<NodeId>, choices: seq<nat>, weights: seq<nat>, n: nat): Edges
    requires n <= |ids| && n <= |choices| && n <= |weights|
    requires forall i :: 0 <= i < n ==> choices[i] < |nodes|
    decreases n
  {
    if n == 0 then E
    else
      LinkNew(RandomLinks(E, nodes, ids, choices, weights, n - 1), ids[n - 1], nodes[choices[n - 1]], weights[n - 1])
  }

  /** Edges between two old nodes are untouched by the linking loop. */
  lemma {:induction false} RandomLinksKeep(E: Edges, old_nodes: seq<NodeId>, nodes: seq<NodeId>, ids: seq<NodeId>,
                                           choices: seq<nat>, weights: seq<nat>, n: nat)
    requires n <= |ids| && n <= |choices| && n <= |weights|
    requires forall i :: 0 <= i < n ==> choices[i] < |nodes|
    requires EdgesWithin(old_nodes, E) && forall i :: 0 <= i < |ids| ==> ids[i] !in old_nodes
    ensures forall p :: p in E ==>
      (p in RandomLinks(E, nodes, ids, choices, weights, n) && RandomLinks(E, nodes, ids, choices, weights, n)[p] == E[p])
    decreases n
  {
    if n > 0 {
      var prev := RandomLinks(E, nodes, ids, choices, weights, n - 1);
      RandomLinksKeep(E, old_nodes, nodes, ids, choices, weights, n - 1);
      LinkNewFacts(prev, ids[n - 1], nodes[choices[n - 1]], weights[n - 1]);
      assert ids[n - 1] !in old_nodes;
    }
  }

  /** Each new station inserts at most one edge. */
  lemma {:induction false} RandomLinksCount(E: Edges, nodes: seq<NodeId>, ids: seq<NodeId>,
                                            choices: seq<nat>, weights: seq<nat>, n: nat)
    requires n <= |ids| && n <= |choices| && n <= |weights|
    requires forall i :: 0 <= i < n ==> choices[i] < |nodes|
    ensures |E| <= |RandomLinks(E, nodes, ids, choices, weights, n)| <= |E| + n
    decreases n
  {
    if n > 0 {
      var prev := RandomLinks(E, nodes, ids, choices, weights, n - 1);
      RandomLinksCount(E, nodes, ids, choices, weights, n - 1);
      LinkNewCount(prev, ids[n - 1], nodes[choices[n - 1]], weights[n - 1]);
      assert RandomLinks(E, nodes, ids, choices, weights, n) == LinkNew(prev, ids[n - 1], nodes[choices[n - 1]], weights[n - 1]);
    }
  }

  /** An edge with only a weight, between 1 and 10. */
  predicate IsRandomLink(a: Attrs) {
    a.colour.None? && a.kind.None? && a.width.None? && a.weight.Some? && 1 <= a.weight.value <= 10
  }

  /**
   * Every edge the linking loop inserts joins one of the new stations to a
   * different node and carries only a weight between 1 and 10.
   */
  lemma {:induction false} RandomLinksNew(E: Edges, nodes: seq<NodeId>, ids: seq<NodeId>,
                                          choices: seq<nat>, weights: seq<nat>, n: nat)
    requires n <= |ids| && n <= |choices| && n <= |weights|
    requires forall i :: 0 <= i < n ==> choices[i] < |nodes|
    requires forall i :: 0 <= i < n ==> 1 <= weights[i] <= 10
    ensures forall p :: p in RandomLinks(E, nodes, ids, choices, weights, n) && p !in E ==>
      p.lo != p.hi && (p.lo in ids[..n] || p.hi in ids[..n]) && IsRandomLink(RandomLinks(E, nodes, ids, choices, weights, n)[p])
    decreases n
  {
    if n > 0 {
      var prev := RandomLinks(E, nodes, ids, choices, weights, n - 1);
      RandomLinksNew(E, nodes, ids, choices, weights, n - 1);
      var s, t, w := ids[n - 1], nodes[choices[n - 1]], weights[n - 1];
      var next := LinkNew(prev, s, t, w);
      LinkNewFacts(prev, s, t, w);
      assert ids[..n] == ids[..n - 1] + [s];
      forall p | p in next && p !in E
        ensures p.lo != p.hi && (p.lo in ids[..n] || p.hi in ids[..n]) && IsRandomLink(next[p])
      {
        if t != s && p == Key(s, t) {
          MergeLaws(NoAttrs, WeightOnly(w));
        } else {
          assert p in prev;
        }
      }
    }
  }

  /**
   * problem2.py:293-317.  With `num > 0` an empty graph or an empty position
   * table is an error, and nothing changes; otherwise the node list grows by
   * exactly the new ids, in order, the edges are those of the linking loop,
   * and the returned table adds one position per new station.
   */
  method AddRandomStations(g: Network, pos: Positions, num: nat,
                           draws: seq<Point>, choices: seq<nat>, weights: seq<nat>)
    returns (r: Result<Positions, StationError>)
    requires g.Valid()
    requires |draws| == num && |choices| == num && |weights| == num
    requires forall i :: 0 <= i < num ==> choices[i] < |g.nodes| + num
    requires forall i :: 0 <= i < num ==> 1 <= weights[i] <= 10
    requires pos != map[] ==> forall i :: 0 <= i < num ==> InBox(draws[i], pos)
    modifies g
    ensures num > 0 && old(g.nodes) == [] ==> r == Err(NoExistingNodes)
    ensures num > 0 && old(g.nodes) != [] && pos == map[] ==> r == Err(NoPositions)
    ensures r.Err? ==> g.nodes == old(g.nodes) && g.edges == old(g.edges)
    ensures r.Ok? ==> num > 0 ==> old(g.nodes) != [] && pos != map[]
    ensures r.Ok? ==>
      (g.Valid()
       && g.nodes == old(g.nodes) + NewIds(old(g.nodes), num)
       && g.edges == RandomLinks(old(g.edges), g.nodes, NewIds(old(g.nodes), num), choices, weights, num)
       && r.value == pos + NewPositions(NewIds(old(g.nodes), num), draws))
  {
    if num > 0 && g.nodes == [] {
      return Err(NoExistingNodes);
    }
    if num > 0 && pos == map[] {
      return Err(NoPositions);
    }
    var ids := NewIds(g.nodes, num);
    NewIdsFresh(g.nodes, num);
    var newPos := pos + NewPositions(ids, draws);
    AppendFresh(g.nodes, ids);
    g.AddNodes(ids);
    LinkStations(g, ids, choices, weights);
    r := Ok(newPos);
  }

  /** The loop `for new_station in new_stations` over stations already added as nodes. */
  method LinkStations(g: Network, ids: seq<NodeId>, choices: seq<nat>, weights: seq<nat>)
    requires g.Valid() && IdsAreNodes(ids, g.nodes)
    requires |choices| == |ids| && |weights| == |ids|
    requires forall i :: 0 <= i < |ids| ==> choices[i] < |g.nodes|
    modifies g
    ensures g.Valid() && g.nodes == old(g.nodes)
    ensures g.edges == RandomLinks(old(g.edges), g.nodes, ids, choices, weights, |ids|)
  {
    ghost var E0 := g.edges;
    var i := 0;
    while i < |ids|
      invariant 0 <= i <= |ids|
      invariant g.Valid() && g.nodes == old(g.nodes)
      invariant g.edges == RandomLinks(E0, g.nodes, ids, choices, weights, i)
    {
      var station := ids[i];
      var existing := g.nodes[choices[i]];
      assert station in ids;
      if existing != station {
        g.AddEdge(station, existing, WeightOnly(weights[i]));
      }
      i := i + 1;
    }
  }

  /** Every position drawn for a new station lies inside the bounding box of the known positions. */
  lemma NewPositionsInBox(pos: Positions, ids: seq<NodeId>, draws: seq<Point>)
    requires |draws| == |ids| && NoDup(ids) && pos != map[]
    requires forall i :: 0 <= i < |ids| ==> InBox(draws[i], pos)
    ensures forall i :: 0 <= i < |ids| ==>
      (ids[i] in pos + NewPositions(ids, draws) && InBox((pos + NewPositions(ids, draws))[ids[i]], pos))
  {
  }
}
