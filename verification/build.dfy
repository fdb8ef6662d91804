/**
 * Construction of the transit network (problem2.py:71-107, repeated at
 * problem3.py:69-105) and the two weighted passes of problem2.py:152-186.
 *
 * Each loop of the scripts is a method whose postcondition ties the new edge
 * table to a fold over the old one (`AddIfAbsent`, `Reweigh`, `TransitEdges`,
 * `BusWeightsAll`); the lemmas below state what those folds guarantee.
 */
module Build {
  import opened Wrappers
  import opened RouteText
  import opened RouteMatch
  import opened Colours
  import opened Graph

  const WalkColour: string := "#cccccc"

  /** Attributes of a transit edge: `color=colour, type='bus', width=2.0`. */
  function BusEdge(colour: string): Attrs {
    Attrs(Some(colour), Some(Bus), Some(2.0), None)
  }

  /** Attributes of a walking edge: `color='#cccccc', type='walk', width=0.5`. */
  const WalkEdge: Attrs := Attrs(Some(WalkColour), Some(Walk), Some(0.5), None)

  /** A pair of row indices reported by the proximity query. */
  datatype IndexPair = IndexPair(i: nat, j: nat)

  /** The pairs `(ids[i], ids[i + 1])` visited by `for i in range(len(ids) - 1)`. */
  function ConsecutivePairs(ids: seq<NodeId>): (ps: seq<Pair>)
    ensures |ps| == if |ids| == 0 then 0 else |ids| - 1
    ensures forall i :: 0 <= i < |ps| ==> ps[i] == Key(ids[i], ids[i + 1])
  {
    if |ids| <= 1 then [] else seq(|ids| - 1, i requires 0 <= i < |ids| - 1 => Key(ids[i], ids[i + 1]))
  }

  /** `stop_ids = stops['stop_id'].tolist()`. */
  function StopIds(stops: seq<Stop>): (ids: seq<NodeId>)
    ensures |ids| == |stops| && forall k :: 0 <= k < |stops| ==> ids[k] == stops[k].id
  {
    seq(|stops|, k requires 0 <= k < |stops| => stops[k].id)
  }

  predicate PairsInRange(pairs: seq<IndexPair>, n: nat) {
    forall k :: 0 <= k < |pairs| ==> pairs[k].i < n && pairs[k].j < n
  }

  /** The edges `(stop_ids[i], stop_ids[j])` of the proximity pairs, in iteration order. */
  function WalkKeys(stopIds: seq<NodeId>, pairs: seq<IndexPair>): (ps: seq<Pair>)
    requires PairsInRange(pairs, |stopIds|)
    ensures |ps| == |pairs|
    ensures forall k :: 0 <= k < |ps| ==> ps[k] == Key(stopIds[pairs[k].i], stopIds[pairs[k].j])
  {
    seq(|pairs|, k requires 0 <= k < |pairs| => Key(stopIds[pairs[k].i], stopIds[pairs[k].j]))
  }

  /** `route_num = route['Route_Numb'].strip()` and the colour chosen for it. */
  function ColourOf(row: RouteRow): string {
    RouteColour(row.routeType, Strip(row.number)).value
  }

  /** `related_ids` of a route: the stops whose route list matches its number. */
  function RouteStops(stops: seq<Stop>, row: RouteRow): seq<NodeId> {
    RelatedIds(stops, Strip(row.number))
  }

  /** The two loop variables one iteration over a route computes: `related_ids` and `color`. */
  datatype RouteRun = RouteRun(related: seq<NodeId>, colour: string)

  function RunOf(stops: seq<Stop>, row: RouteRow): RouteRun {
    RouteRun(RouteStops(stops, row), ColourOf(row))
  }

  /** One run per route, in table order. */
  function Runs(stops: seq<Stop>, routes: seq<RouteRow>): (runs: seq<RouteRun>)
    ensures |runs| == |routes|
  {
    seq(|routes|, k requires 0 <= k < |routes| => RunOf(stops, routes[k]))
  }

  /** Every stop of every run is one of `nodes`. */
  predicate RunsWithin(runs: seq<RouteRun>, nodes: seq<NodeId>) {
    forall k :: 0 <= k < |runs| ==> IdsAreNodes(runs[k].related, nodes)
  }

  lemma RouteStopsAreStops(stops: seq<Stop>, row: RouteRow)
    ensures IdsAreNodes(RouteStops(stops, row), StopIds(stops))
  {
    forall id | id in RouteStops(stops, row) ensures id in StopIds(stops) {
      RelatedIdsAreStops(stops, Strip(row.number), id);
      var k :| 0 <= k < |stops| && stops[k].id == id && ServesRoute(stops[k].routes, Strip(row.number));
      assert StopIds(stops)[k] == id;
    }
  }

  /** Every route's `related_ids` are stop ids of the cleaned table. */
  lemma RunsAreStops(stops: seq<Stop>, routes: seq<RouteRow>)
    ensures RunsWithin(Runs(stops, routes), StopIds(stops))
  {
    forall k | 0 <= k < |routes| ensures IdsAreNodes(Runs(stops, routes)[k].related, StopIds(stops)) {
      RouteStopsAreStops(stops, routes[k]);
    }
  }

  lemma RunsWithinSlice(runs: seq<RouteRun>, nodes: seq<NodeId>, n: nat)
    requires RunsWithin(runs, nodes) && n <= |runs|
    ensures RunsWithin(runs[..n], nodes)
  {
  }

  // ---------------------------------------------------------------------------
  // Transit edges: problem2.py:93-99

  /** The edge loop of one route: returns how many edges it inserted. */
  method AddRouteEdges(g: Network, related: seq<NodeId>, colour: string) returns (edgeCount: nat)
    requires g.Valid() && IdsAreNodes(related, g.nodes)
    modifies g
    ensures g.Valid() && g.nodes == old(g.nodes)
    ensures g.edges == AddIfAbsent(old(g.edges), ConsecutivePairs(related), BusEdge(colour))
    ensures edgeCount == |g.edges| - |old(g.edges)|
  {
    ghost var E0 := g.edges;
    ghost var ps := ConsecutivePairs(related);
    edgeCount := 0;
    var i := 0;
    while i < |related| - 1
      invariant 0 <= i <= |ps|
      invariant g.Valid() && g.nodes == old(g.nodes)
      invariant g.edges == AddIfAbsent(E0, ps[..i], BusEdge(colour))
      invariant edgeCount == |g.edges| - |E0|
    {
      var u, v := related[i], related[i + 1];
      assert u in related && v in related;
      assert ps[i] == Key(u, v);
      AddIfAbsentStep(E0, ps, i, BusEdge(colour));
      var added := g.AddEdgeIfAbsent(u, v, BusEdge(colour));
      if added {
        edgeCount := edgeCount + 1;
      }
      i := i + 1;
    }
    assert ps[..i] == ps;
  }

  /** The walking-edge loop: problem2.py:104-107 and problem3.py:102-105, 161-164. */
  method AddWalkEdges(g: Network, stopIds: seq<NodeId>, walkPairs: seq<IndexPair>)
    requires g.Valid() && IdsAreNodes(stopIds, g.nodes) && PairsInRange(walkPairs, |stopIds|)
    modifies g
    ensures g.Valid() && g.nodes == old(g.nodes)
    ensures g.edges == AddIfAbsent(old(g.edges), WalkKeys(stopIds, walkPairs), WalkEdge)
  {
    ghost var E0 := g.edges;
    ghost var ps := WalkKeys(stopIds, walkPairs);
    var k := 0;
    while k < |walkPairs|
      invariant 0 <= k <= |walkPairs|
      invariant g.Valid() && g.nodes == old(g.nodes)
      invariant g.edges == AddIfAbsent(E0, ps[..k], WalkEdge)
    {
      var u, v := stopIds[walkPairs[k].i], stopIds[walkPairs[k].j];
      assert u in stopIds && v in stopIds;
      assert ps[k] == Key(u, v);
      AddIfAbsentStep(E0, ps, k, WalkEdge);
      var _ := g.AddEdgeIfAbsent(u, v, WalkEdge);
      k := k + 1;
    }
    assert ps[..k] == ps;
  }

  /** The edge table after the transit loop has run over `runs`, starting from `E`. */
  function TransitEdges(E: Edges, runs: seq<RouteRun>): Edges
    decreases |runs|
  {
    if runs == [] then E
    else
      var run := runs[|runs| - 1];
      AddIfAbsent(TransitEdges(E, runs[..|runs| - 1]), ConsecutivePairs(run.related), BusEdge(run.colour))
  }

  /**
   * The transit loop only adds edges, and whatever edge a route finds in place
   * (from the start or from an earlier route) keeps its attributes: the first
   * writer wins.
   */
  lemma {:induction false} TransitEdgesKeep(E: Edges, runs: seq<RouteRun>, k: nat)
    requires k <= |runs|
    ensures forall p :: p in TransitEdges(E, runs[..k]) ==>
      p in TransitEdges(E, runs) && TransitEdges(E, runs)[p] == TransitEdges(E, runs[..k])[p]
    decreases |runs|
  {
    if k < |runs| {
      var init := runs[..|runs| - 1];
      var run := runs[|runs| - 1];
      assert runs[..k] == init[..k];
      TransitEdgesKeep(E, init, k);
      AddIfAbsentFacts(TransitEdges(E, init), ConsecutivePairs(run.related), BusEdge(run.colour));
    } else {
      assert runs[..k] == runs;
    }
  }

  /** After the transit loop, every two consecutive stops of every route are adjacent. */
  lemma TransitEdgesCover(E: Edges, runs: seq<RouteRun>, k: nat, i: nat)
    requires k < |runs| && i + 1 < |runs[k].related|
    ensures Key(runs[k].related[i], runs[k].related[i + 1]) in TransitEdges(E, runs)
  {
    var ps := ConsecutivePairs(runs[k].related);
    assert runs[..k + 1][..k] == runs[..k];
    assert ps[i] in PairSet(ps);
    AddIfAbsentFacts(TransitEdges(E, runs[..k]), ps, BusEdge(runs[k].colour));
    TransitEdgesKeep(E, runs, k + 1);
  }

  /** The pairs of consecutive stops of a run join two nodes. */
  lemma ConsecutivePairsWithin(ids: seq<NodeId>, nodes: seq<NodeId>)
    requires IdsAreNodes(ids, nodes)
    ensures forall p :: p in PairSet(ConsecutivePairs(ids)) ==> p.lo <= p.hi && p.lo in nodes && p.hi in nodes
  {
    var ps := ConsecutivePairs(ids);
    forall p | p in PairSet(ps) ensures p.lo <= p.hi && p.lo in nodes && p.hi in nodes {
      var i :| 0 <= i < |ps| && ps[i] == p;
      assert ids[i] in ids && ids[i + 1] in ids;
    }
  }

  /** Every edge the transit loop adds joins two stops. */
  lemma {:induction false} TransitEdgesWithin(E: Edges, runs: seq<RouteRun>, nodes: seq<NodeId>)
    requires EdgesWithin(nodes, E) && RunsWithin(runs, nodes)
    ensures EdgesWithin(nodes, TransitEdges(E, runs))
    decreases |runs|
  {
    if runs != [] {
      var run := runs[|runs| - 1];
      var ps := ConsecutivePairs(run.related);
      RunsWithinSlice(runs, nodes, |runs| - 1);
      TransitEdgesWithin(E, runs[..|runs| - 1], nodes);
      ConsecutivePairsWithin(run.related, nodes);
      AddIfAbsentFacts(TransitEdges(E, runs[..|runs| - 1]), ps, BusEdge(run.colour));
    }
  }

  /** The `related_ids` and `color` the last route leaves behind, if any route ran. */
  function LastRun(runs: seq<RouteRun>): (last: Option<RouteRun>)
    ensures last.Some? <==> runs != []
    ensures last.Some? ==> last.value in runs
  {
    if runs == [] then None else Some(runs[|runs| - 1])
  }

  /**
   * The transit loop of problem2.py:71-99 (problem3.py:76-97): for each route
   * in table order, compute its colour and its matching stops, then join
   * consecutive stops that are not yet adjacent.  Returns the loop variables
   * the last route leaves behind.
   */
  method AddTransitEdges(g: Network, stops: seq<Stop>, routes: seq<RouteRow>) returns (last: Option<RouteRun>)
    requires g.Valid() && IdsAreNodes(StopIds(stops), g.nodes)
    modifies g
    ensures g.Valid() && g.nodes == old(g.nodes)
    ensures g.edges == TransitEdges(old(g.edges), Runs(stops, routes))
    ensures last == LastRun(Runs(stops, routes))
  {
    ghost var E0 := g.edges;
    ghost var runs := Runs(stops, routes);
    last := None;
    var k := 0;
    while k < |routes|
      invariant 0 <= k <= |routes|
      invariant g.Valid() && g.nodes == old(g.nodes)
      invariant g.edges == TransitEdges(E0, runs[..k])
      invariant last == LastRun(runs[..k])
    {
      var run := AddRun(g, stops, routes[k]);
      last := Some(run);
      TransitStep(E0, runs, k);
      k := k + 1;
    }
    assert runs[..k] == runs;
  }

  /** One iteration of the transit loop, for the route `row`. */
  method AddRun(g: Network, stops: seq<Stop>, row: RouteRow) returns (run: RouteRun)
    requires g.Valid() && IdsAreNodes(StopIds(stops), g.nodes)
    modifies g
    ensures run == RunOf(stops, row)
    ensures g.Valid() && g.nodes == old(g.nodes)
    ensures g.edges == AddIfAbsent(old(g.edges), ConsecutivePairs(run.related), BusEdge(run.colour))
  {
    var routeNum := Strip(row.number);
    var colour := RouteColour(row.routeType, routeNum).value;
    var related := RelatedIds(stops, routeNum);
    RouteStopsAreStops(stops, row);
    var edgeCount := AddRouteEdges(g, related, colour);
    run := RouteRun(related, colour);
  }

  /** The transit fold and the last run, one route further. */
  lemma TransitStep(E: Edges, runs: seq<RouteRun>, k: nat)
    requires k < |runs|
    ensures TransitEdges(E, runs[..k + 1])
      == AddIfAbsent(TransitEdges(E, runs[..k]), ConsecutivePairs(runs[k].related), BusEdge(runs[k].colour))
    ensures LastRun(runs[..k + 1]) == Some(runs[k])
  {
    assert runs[..k + 1][..k] == runs[..k];
  }

  /**
   * Sections 4 to 6 of problem2.py (and of problem3.py): clean both tables,
   * add every stop as a node, join consecutive matching stops of each route,
   * then add the walking edges.  Also returns the loop variables the last
   * route leaves behind.
   */
  method BuildNetwork(rawStops: seq<Stop>, rawRoutes: seq<RouteRow>, walkPairs: seq<IndexPair>)
    returns (g: Network, last: Option<RouteRun>)
    requires PairsInRange(walkPairs, |rawStops|)
    ensures fresh(g) && g.Valid()
    ensures g.nodes == AppendNew([], StopIds(rawStops))
    ensures g.edges == AddIfAbsent(
      TransitEdges(map[], Runs(CleanStops(rawStops), NormaliseRoutes(rawRoutes))),
      WalkKeys(StopIds(rawStops), walkPairs), WalkEdge)
    ensures last == LastRun(Runs(CleanStops(rawStops), NormaliseRoutes(rawRoutes)))
  {
    var stops := CleanStops(rawStops);
    var routes := NormaliseRoutes(rawRoutes);
    var stopIds := StopIds(stops);
    assert stopIds == StopIds(rawStops);
    g := new Network(stopIds);
    last := AddTransitEdges(g, stops, routes);
    AddWalkEdges(g, stopIds, walkPairs);
  }

  /** After construction, consecutive stops of every route and every proximity pair are adjacent. */
  lemma BuiltNetworkAdjacency(rawStops: seq<Stop>, rawRoutes: seq<RouteRow>, walkPairs: seq<IndexPair>,
                              k: nat, i: nat, w: nat)
    requires PairsInRange(walkPairs, |rawStops|)
    requires k < |rawRoutes| && i + 1 < |Runs(CleanStops(rawStops), NormaliseRoutes(rawRoutes))[k].related|
    requires w < |walkPairs|
    ensures var runs := Runs(CleanStops(rawStops), NormaliseRoutes(rawRoutes));
      var E := AddIfAbsent(TransitEdges(map[], runs), WalkKeys(StopIds(rawStops), walkPairs), WalkEdge);
      Key(runs[k].related[i], runs[k].related[i + 1]) in E
      && Key(StopIds(rawStops)[walkPairs[w].i], StopIds(rawStops)[walkPairs[w].j]) in E
  {
    var runs := Runs(CleanStops(rawStops), NormaliseRoutes(rawRoutes));
    var ps := WalkKeys(StopIds(rawStops), walkPairs);
    TransitEdgesCover(map[], runs, k, i);
    AddIfAbsentFacts(TransitEdges(map[], runs), ps, WalkEdge);
    assert ps[w] in PairSet(ps);
  }

  // ---------------------------------------------------------------------------
  // Weighted passes: problem2.py:152-186

  /** The inner loop at problem2.py:154-169 over one list of stops. */
  method WeighRoute(g: Network, related: seq<NodeId>, colour: string, busTime: Pair -> nat)
    requires g.Valid() && IdsAreNodes(related, g.nodes)
    modifies g
    ensures g.Valid() && g.nodes == old(g.nodes)
    ensures g.edges == Reweigh(old(g.edges), ConsecutivePairs(related), Some(colour), Bus, busTime)
  {
    ghost var E0 := g.edges;
    ghost var ps := ConsecutivePairs(related);
    var i := 0;
    while i < |related| - 1
      invariant 0 <= i <= |ps|
      invariant g.Valid() && g.nodes == old(g.nodes)
      invariant g.edges == Reweigh(E0, ps[..i], Some(colour), Bus, busTime)
    {
      var u := related[i];
      var v := related[i + 1];
      ReweighStep(E0, ps, i, Some(colour), Bus, busTime);
      g.AddEdge(u, v, Attrs(Some(colour), Some(Bus), None, Some(busTime(Key(u, v)))));
      i := i + 1;
    }
    assert ps[..i] == ps;
  }

  /** The edge table after the pass as written, which re-weighs the last route once per route. */
  function AsWrittenBusWeights(E: Edges, routeCount: nat, last: Option<RouteRun>, busTime: Pair -> nat): Edges
    requires routeCount > 0 ==> last.Some?
  {
    if routeCount == 0 then E
    else Reweigh(E, ConsecutivePairs(last.value.related), Some(last.value.colour), Bus, busTime)
  }

  /**
   * problem2.py:152-169 as written: the outer loop's body never recomputes
   * `related_ids` or `color`, so each of its iterations re-weighs the stops of
   * the route the transit loop processed last.
   */
  method AddBusWeightsAsWritten(g: Network, routeCount: nat, last: Option<RouteRun>, busTime: Pair -> nat)
    requires g.Valid()
    requires routeCount > 0 ==> last.Some? && IdsAreNodes(last.value.related, g.nodes)
    modifies g
    ensures g.Valid() && g.nodes == old(g.nodes)
    ensures g.edges == AsWrittenBusWeights(old(g.edges), routeCount, last, busTime)
  {
    ghost var E0 := g.edges;
    var r := 0;
    while r < routeCount
      invariant 0 <= r <= routeCount
      invariant g.Valid() && g.nodes == old(g.nodes)
      invariant g.edges == if r == 0 then E0 else AsWrittenBusWeights(E0, routeCount, last, busTime)
    {
      var run := last.value;
      WeighRoute(g, run.related, run.colour, busTime);
      ReweighIdempotent(E0, ConsecutivePairs(run.related), Some(run.colour), Bus, busTime);
      r := r + 1;
    }
  }

  /**
   * As written, an edge that the last route does not pass through keeps the
   * attributes it had, whichever route it came from; in particular an
   * unweighted bus edge stays unweighted.
   */
  lemma AsWrittenMissesOtherRoutes(E: Edges, routeCount: nat, run: RouteRun, busTime: Pair -> nat, p: Pair)
    requires p in E && p !in ConsecutivePairs(run.related)
    ensures p in AsWrittenBusWeights(E, routeCount, Some(run), busTime)
    ensures AsWrittenBusWeights(E, routeCount, Some(run), busTime)[p] == E[p]
  {
    ReweighFacts(E, ConsecutivePairs(run.related), Some(run.colour), Bus, busTime);
  }

  /**
   * A concrete case: two routes over disjoint stops 1-2 and 3-4.  After the
   * pass as written, the first route's edge still has no weight.
   */
  lemma AsWrittenExample(busTime: Pair -> nat)
    ensures var E := map[Pair(1, 2) := BusEdge("#1f77b4"), Pair(3, 4) := BusEdge("#8c564b")];
      var E' := AsWrittenBusWeights(E, 2, Some(RouteRun([3, 4], "#8c564b")), busTime);
      Pair(1, 2) in E' && E'[Pair(1, 2)].weight == None
  {
    var E := map[Pair(1, 2) := BusEdge("#1f77b4"), Pair(3, 4) := BusEdge("#8c564b")];
    var ps := ConsecutivePairs([3, 4]);
    assert ps == [Pair(3, 4)];
    AsWrittenMissesOtherRoutes(E, 2, RouteRun([3, 4], "#8c564b"), busTime, Pair(1, 2));
  }

  /** The weighted pass with `related_ids` and `color` recomputed for each route. */
  function BusWeightsAll(E: Edges, runs: seq<RouteRun>, busTime: Pair -> nat): Edges
    decreases |runs|
  {
    if runs == [] then E
    else
      var run := runs[|runs| - 1];
      Reweigh(BusWeightsAll(E, runs[..|runs| - 1], busTime), ConsecutivePairs(run.related), Some(run.colour), Bus, busTime)
  }

  /** problem2.py:152-169 with the outer loop's body restored: every route is weighed. */
  method AddBusWeightsPerRoute(g: Network, stops: seq<Stop>, routes: seq<RouteRow>, busTime: Pair -> nat)
    requires g.Valid() && IdsAreNodes(StopIds(stops), g.nodes)
    modifies g
    ensures g.Valid() && g.nodes == old(g.nodes)
    ensures g.edges == BusWeightsAll(old(g.edges), Runs(stops, routes), busTime)
  {
    ghost var E0 := g.edges;
    ghost var runs := Runs(stops, routes);
    var k := 0;
    while k < |routes|
      invariant 0 <= k <= |routes|
      invariant g.Valid() && g.nodes == old(g.nodes)
      invariant g.edges == BusWeightsAll(E0, runs[..k], busTime)
    {
      var run := WeighRun(g, stops, routes[k], busTime);
      assert run == runs[k];
      BusWeightsStep(E0, runs, k, busTime);
      k := k + 1;
    }
    assert runs[..k] == runs;
  }

  /** The weighing fold, one route further. */
  lemma BusWeightsStep(E: Edges, runs: seq<RouteRun>, k: nat, busTime: Pair -> nat)
    requires k < |runs|
    ensures BusWeightsAll(E, runs[..k + 1], busTime)
      == Reweigh(BusWeightsAll(E, runs[..k], busTime), ConsecutivePairs(runs[k].related), Some(runs[k].colour), Bus, busTime)
  {
    assert runs[..k + 1][..k] == runs[..k];
  }

  /** One iteration of the restored outer loop, for the route `row`. */
  method WeighRun(g: Network, stops: seq<Stop>, row: RouteRow, busTime: Pair -> nat) returns (run: RouteRun)
    requires g.Valid() && IdsAreNodes(StopIds(stops), g.nodes)
    modifies g
    ensures run == RunOf(stops, row)
    ensures g.Valid() && g.nodes == old(g.nodes)
    ensures g.edges == Reweigh(old(g.edges), ConsecutivePairs(run.related), Some(run.colour), Bus, busTime)
  {
    var routeNum := Strip(row.number);
    var colour := RouteColour(row.routeType, routeNum).value;
    var related := RelatedIds(stops, routeNum);
    RouteStopsAreStops(stops, row);
    WeighRoute(g, related, colour, busTime);
    run := RouteRun(related, colour);
  }

  /**
   * With every route weighed, each pair of consecutive stops of each route ends
   * as a bus edge carrying its travel time.
   */
  lemma {:induction false} BusWeightsAllCover(E: Edges, runs: seq<RouteRun>, busTime: Pair -> nat, k: nat, p: Pair)
    requires k < |runs| && p in ConsecutivePairs(runs[k].related)
    ensures TimedAs(BusWeightsAll(E, runs, busTime), p, Bus, busTime(p))
    decreases |runs|, 1
  {
    var run := runs[|runs| - 1];
    if p in ConsecutivePairs(run.related) {
      ReweighSets(BusWeightsAll(E, runs[..|runs| - 1], busTime), ConsecutivePairs(run.related), Some(run.colour), Bus, busTime, p);
    } else {
      CoverEarlier(E, runs, busTime, k, p);
    }
  }

  /** The case of a pair that the last route does not reweigh: it keeps what the earlier routes gave it. */
  lemma {:induction false} CoverEarlier(E: Edges, runs: seq<RouteRun>, busTime: Pair -> nat, k: nat, p: Pair)
    requires k < |runs| && p in ConsecutivePairs(runs[k].related)
    requires p !in ConsecutivePairs(runs[|runs| - 1].related)
    ensures TimedAs(BusWeightsAll(E, runs, busTime), p, Bus, busTime(p))
    decreases |runs|, 0
  {
    var init := runs[..|runs| - 1];
    var run := runs[|runs| - 1];
    assert k < |init|;
    assert init[k] == runs[k];
    BusWeightsAllCover(E, init, busTime, k, p);
    ReweighKeeps(BusWeightsAll(E, init, busTime), ConsecutivePairs(run.related), Some(run.colour), Bus, busTime, p, Bus, busTime(p));
  }

  /** The walking-edge weighted pass at problem2.py:172-186. */
  method AddWalkWeights(g: Network, stopIds: seq<NodeId>, walkPairs: seq<IndexPair>, walkTime: Pair -> nat)
    requires g.Valid() && IdsAreNodes(stopIds, g.nodes) && PairsInRange(walkPairs, |stopIds|)
    modifies g
    ensures g.Valid() && g.nodes == old(g.nodes)
    ensures g.edges == Reweigh(old(g.edges), WalkKeys(stopIds, walkPairs), Some(WalkColour), Walk, walkTime)
  {
    ghost var E0 := g.edges;
    ghost var ps := WalkKeys(stopIds, walkPairs);
    var k := 0;
    while k < |walkPairs|
      invariant 0 <= k <= |walkPairs|
      invariant g.Valid() && g.nodes == old(g.nodes)
      invariant g.edges == Reweigh(E0, ps[..k], Some(WalkColour), Walk, walkTime)
    {
      var u := stopIds[walkPairs[k].i];
      var v := stopIds[walkPairs[k].j];
      ReweighStep(E0, ps, k, Some(WalkColour), Walk, walkTime);
      g.AddEdge(u, v, Attrs(Some(WalkColour), Some(Walk), None, Some(walkTime(Key(u, v)))));
      k := k + 1;
    }
    assert ps[..k] == ps;
  }
}
