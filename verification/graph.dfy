/**
 * The undirected transit graph: nodes in insertion order and one attribute
 * record per unordered pair of endpoints.
 *
 * `G.add_edge(u, v, **attrs)` either creates the edge with exactly `attrs` or
 * updates the existing edge's attribute dictionary, replacing the keys it
 * passes and keeping the others (`Merge`).  The loops of the scripts are
 * specified by folds over the edge table (`AddIfAbsent` for the guarded
 * `if not G.has_edge(u, v)` loops, `Reweigh` for the unguarded weighted
 * passes).
 */
module Graph {
  import opened Wrappers

  type NodeId = int

  /** An unordered pair of endpoints, stored with `lo <= hi`. */
  datatype Pair = Pair(lo: NodeId, hi: NodeId)

  function Key(u: NodeId, v: NodeId): (p: Pair)
    ensures p.lo <= p.hi
    ensures (p.lo == u && p.hi == v) || (p.lo == v && p.hi == u)
  {
    if u <= v then Pair(u, v) else Pair(v, u)
  }

  /** `G.has_edge(u, v)` and `G.has_edge(v, u)` look up the same edge. */
  lemma KeySymmetric(u: NodeId, v: NodeId)
    ensures Key(u, v) == Key(v, u)
  {
  }

  datatype Kind = Bus | Walk

  /** The attribute dictionary of an edge; `None` is an absent key. */
  datatype Attrs = Attrs(colour: Option<string>, kind: Option<Kind>, width: Option<real>, weight: Option<nat>)

  const NoAttrs: Attrs := Attrs(None, None, None, None)

  function Pick<T>(cur: Option<T>, upd: Option<T>): Option<T> {
    if upd.Some? then upd else cur
  }

  /** `dict.update`: the keys present in `upd` replace those of `cur`. */
  function Merge(cur: Attrs, upd: Attrs): Attrs {
    Attrs(Pick(cur.colour, upd.colour), Pick(cur.kind, upd.kind), Pick(cur.width, upd.width), Pick(cur.weight, upd.weight))
  }

  /** Updating an empty dictionary gives the update; updating twice with the same keys is updating once. */
  lemma MergeLaws(cur: Attrs, upd: Attrs)
    ensures Merge(NoAttrs, upd) == upd
    ensures Merge(Merge(cur, upd), upd) == Merge(cur, upd)
  {
  }

  type Edges = map<Pair, Attrs>

  /** The attributes of `p`, or the empty dictionary when there is no such edge. */
  function Attr(E: Edges, p: Pair): Attrs {
    if p in E then E[p] else NoAttrs
  }

  function PairSet(ps: seq<Pair>): set<Pair> {
    set p | p in ps
  }

  /** The guarded loop `if not G.has_edge(u, v): G.add_edge(u, v, **a)` over the pairs `ps` in order. */
  function AddIfAbsent(E: Edges, ps: seq<Pair>, a: Attrs): Edges
    decreases |ps|
  {
    if ps == [] then E
    else
      var prev := AddIfAbsent(E, ps[..|ps| - 1], a);
      var p := ps[|ps| - 1];
      if p in prev then prev else prev[p := a]
  }

  /** One more iteration of the guarded loop. */
  lemma AddIfAbsentStep(E: Edges, ps: seq<Pair>, i: nat, a: Attrs)
    requires i < |ps|
    ensures AddIfAbsent(E, ps[..i + 1], a) ==
      if ps[i] in AddIfAbsent(E, ps[..i], a) then AddIfAbsent(E, ps[..i], a)
      else AddIfAbsent(E, ps[..i], a)[ps[i] := a]
  {
    assert ps[..i + 1][..i] == ps[..i];
  }

  /**
   * After the guarded loop every pair is an edge, every edge that existed
   * before keeps its attributes, and every new edge carries `a`.
   */
  lemma {:induction false} AddIfAbsentFacts(E: Edges, ps: seq<Pair>, a: Attrs)
    ensures AddIfAbsent(E, ps, a).Keys == E.Keys + PairSet(ps)
    ensures forall p :: p in E ==> AddIfAbsent(E, ps, a)[p] == E[p]
    ensures forall p :: p in AddIfAbsent(E, ps, a) && p !in E ==> AddIfAbsent(E, ps, a)[p] == a
    decreases |ps|
  {
    if ps != [] {
      var p := ps[|ps| - 1];
      AddIfAbsentFacts(E, ps[..|ps| - 1], a);
      assert PairSet(ps) == PairSet(ps[..|ps| - 1]) + {p} by {
        assert ps == ps[..|ps| - 1] + [p];
      }
    }
  }

  /** The guarded loop inserts at most one edge per pair. */
  lemma {:induction false} AddIfAbsentCount(E: Edges, ps: seq<Pair>, a: Attrs)
    ensures |E| <= |AddIfAbsent(E, ps, a)| <= |E| + |ps|
    decreases |ps|
  {
    if ps != [] {
      AddIfAbsentCount(E, ps[..|ps| - 1], a);
      AddIfAbsentFacts(E, ps[..|ps| - 1], a);
      var prev := AddIfAbsent(E, ps[..|ps| - 1], a);
      var p := ps[|ps| - 1];
      if p !in prev {
        assert prev[p := a].Keys == prev.Keys + {p};
      }
    }
  }

  /** When every pair is already an edge the guarded loop changes nothing. */
  lemma AddIfAbsentNoOp(E: Edges, ps: seq<Pair>, a: Attrs)
    requires forall p :: p in ps ==> p in E
    ensures AddIfAbsent(E, ps, a) == E
  {
    var E' := AddIfAbsent(E, ps, a);
    AddIfAbsentFacts(E, ps, a);
    assert E'.Keys == E.Keys;
  }

  /**
   * The unguarded loop `G.add_edge(u, v, color=colour, type=kind, weight=time(u, v))`
   * over the pairs `ps` in order.
   */
  function Reweigh(E: Edges, ps: seq<Pair>, colour: Option<string>, kind: Kind, time: Pair -> nat): Edges
    decreases |ps|
  {
    if ps == [] then E
    else
      var prev := Reweigh(E, ps[..|ps| - 1], colour, kind, time);
      var p := ps[|ps| - 1];
      prev[p := Merge(Attr(prev, p), Attrs(colour, Some(kind), None, Some(time(p))))]
  }

  /** One more iteration of the unguarded loop. */
  lemma ReweighStep(E: Edges, ps: seq<Pair>, i: nat, colour: Option<string>, kind: Kind, time: Pair -> nat)
    requires i < |ps|
    ensures Reweigh(E, ps[..i + 1], colour, kind, time) ==
      var prev := Reweigh(E, ps[..i], colour, kind, time);
      prev[ps[i] := Merge(Attr(prev, ps[i]), Attrs(colour, Some(kind), None, Some(time(ps[i]))))]
  {
    assert ps[..i + 1][..i] == ps[..i];
  }

  /**
   * After the unguarded loop each listed pair is an edge whose former
   * dictionary (empty if it was absent) is updated by the three keys, and
   * every other edge is left alone.
   */
  lemma {:induction false} ReweighFacts(E: Edges, ps: seq<Pair>, colour: Option<string>, kind: Kind, time: Pair -> nat)
    ensures Reweigh(E, ps, colour, kind, time).Keys == E.Keys + PairSet(ps)
    ensures forall p :: p in ps ==>
      Reweigh(E, ps, colour, kind, time)[p] == Merge(Attr(E, p), Attrs(colour, Some(kind), None, Some(time(p))))
    ensures forall p :: p in E && p !in ps ==> Reweigh(E, ps, colour, kind, time)[p] == E[p]
    decreases |ps|
  {
    if ps != [] {
      var p := ps[|ps| - 1];
      ReweighFacts(E, ps[..|ps| - 1], colour, kind, time);
      assert ps == ps[..|ps| - 1] + [p];
      MergeLaws(Attr(E, p), Attrs(colour, Some(kind), None, Some(time(p))));
    }
  }

  /** `p` is an edge of kind `kind` whose weight is `t`. */
  predicate TimedAs(E: Edges, p: Pair, kind: Kind, t: nat) {
    p in E && E[p].weight == Some(t) && E[p].kind == Some(kind)
  }

  /** A reweighed pair ends as an edge of the given kind carrying its time. */
  lemma ReweighSets(E: Edges, ps: seq<Pair>, colour: Option<string>, kind: Kind, time: Pair -> nat, p: Pair)
    requires p in ps
    ensures TimedAs(Reweigh(E, ps, colour, kind, time), p, kind, time(p))
  {
    ReweighFacts(E, ps, colour, kind, time);
  }

  /** An edge outside the reweighed pairs keeps its kind and weight. */
  lemma ReweighKeeps(E: Edges, ps: seq<Pair>, colour: Option<string>, kind: Kind, time: Pair -> nat, p: Pair, k: Kind, t: nat)
    requires TimedAs(E, p, k, t) && p !in ps
    ensures TimedAs(Reweigh(E, ps, colour, kind, time), p, k, t)
  {
    ReweighFacts(E, ps, colour, kind, time);
  }

  /** Running the unguarded loop a second time over the same pairs changes nothing. */
  lemma ReweighIdempotent(E: Edges, ps: seq<Pair>, colour: Option<string>, kind: Kind, time: Pair -> nat)
    ensures Reweigh(Reweigh(E, ps, colour, kind, time), ps, colour, kind, time) == Reweigh(E, ps, colour, kind, time)
  {
    var once := Reweigh(E, ps, colour, kind, time);
    var twice := Reweigh(once, ps, colour, kind, time);
    ReweighFacts(E, ps, colour, kind, time);
    ReweighFacts(once, ps, colour, kind, time);
    forall p | p in ps ensures twice[p] == once[p] {
      MergeLaws(Attr(E, p), Attrs(colour, Some(kind), None, Some(time(p))));
    }
  }

  /**
   * The unguarded loop replaces the type, colour and weight of an edge that
   * already existed, and keeps its width.
   */
  lemma ReweighRetypes(E: Edges, ps: seq<Pair>, colour: string, kind: Kind, time: Pair -> nat, p: Pair)
    requires p in ps && p in E
    ensures p in Reweigh(E, ps, Some(colour), kind, time)
    ensures Reweigh(E, ps, Some(colour), kind, time)[p].kind == Some(kind)
    ensures Reweigh(E, ps, Some(colour), kind, time)[p].colour == Some(colour)
    ensures Reweigh(E, ps, Some(colour), kind, time)[p].weight == Some(time(p))
    ensures Reweigh(E, ps, Some(colour), kind, time)[p].width == E[p].width
  {
    ReweighFacts(E, ps, Some(colour), kind, time);
  }

  // ---------------------------------------------------------------------------
  // Nodes

  predicate NoDup(s: seq<NodeId>) {
    forall i, j :: 0 <= i < j < |s| ==> s[i] != s[j]
  }

  /** `G.add_nodes_from(ids)`: ids not yet present are appended in order, once each. */
  function AppendNew(ns: seq<NodeId>, ids: seq<NodeId>): (r: seq<NodeId>)
    ensures |ns| <= |r| && r[..|ns|] == ns
    ensures NoDup(ns) ==> NoDup(r)
    ensures forall x :: x in r <==> x in ns || x in ids
    decreases |ids|
  {
    if ids == [] then ns
    else
      var prev := AppendNew(ns, ids[..|ids| - 1]);
      var x := ids[|ids| - 1];
      assert forall y :: y in ids <==> y in ids[..|ids| - 1] || y == x by {
        assert ids == ids[..|ids| - 1] + [x];
      }
      if x in prev then prev else prev + [x]
  }

  /** Every id in `ids` is one of `nodes`. */
  predicate IdsAreNodes(ids: seq<NodeId>, nodes: seq<NodeId>) {
    forall id :: id in ids ==> id in nodes
  }

  /** Every edge key is normalised and both its endpoints are nodes. */
  predicate EdgesWithin(nodes: seq<NodeId>, E: Edges) {
    forall p :: p in E ==> p.lo <= p.hi && p.lo in nodes && p.hi in nodes
  }

  // ---------------------------------------------------------------------------
  // Degrees

  /** `G.degree(n)`: a self-loop counts twice. */
  function Degree(E: Edges, n: NodeId): nat {
    |set p | p in E && p.lo == n| + |set p | p in E && p.hi == n|
  }

  /** Sum of the degrees of `nodes`. */
  function DegreeSum(nodes: seq<NodeId>, E: Edges): nat
    decreases |nodes|
  {
    if nodes == [] then 0 else DegreeSum(nodes[..|nodes| - 1], E) + Degree(E, nodes[|nodes| - 1])
  }

  function Occurrences(nodes: seq<NodeId>, x: NodeId): nat
    decreases |nodes|
  {
    if nodes == [] then 0
    else Occurrences(nodes[..|nodes| - 1], x) + (if nodes[|nodes| - 1] == x then 1 else 0)
  }

  lemma {:induction false} OccursOnce(nodes: seq<NodeId>, x: NodeId)
    requires NoDup(nodes) && x in nodes
    ensures Occurrences(nodes, x) == 1
    decreases |nodes|
  {
    var init := nodes[..|nodes| - 1];
    assert nodes == init + [nodes[|nodes| - 1]];
    if nodes[|nodes| - 1] == x {
      OccursNever(init, x);
    } else {
      OccursOnce(init, x);
    }
  }

  lemma {:induction false} OccursNever(nodes: seq<NodeId>, x: NodeId)
    requires x !in nodes
    ensures Occurrences(nodes, x) == 0
    decreases |nodes|
  {
    if nodes != [] {
      OccursNever(nodes[..|nodes| - 1], x);
    }
  }

  /** Removing one edge lowers the degree of each of its endpoints by one (a self-loop's by two). */
  lemma DegreeWithout(E: Edges, p: Pair, n: NodeId)
    requires p in E
    ensures Degree(E, n) == Degree(map q | q in E && q != p :: E[q], n)
      + (if p.lo == n then 1 else 0) + (if p.hi == n then 1 else 0)
  {
    var E' := map q | q in E && q != p :: E[q];
    LowEndsWithout(E, E', p, n);
    HighEndsWithout(E, E', p, n);
  }

  lemma LowEndsWithout(E: Edges, E': Edges, p: Pair, n: NodeId)
    requires p in E && E' == map q | q in E && q != p :: E[q]
    ensures |set q | q in E && q.lo == n| == |set q | q in E' && q.lo == n| + if p.lo == n then 1 else 0
  {
    var S, S' := set q | q in E && q.lo == n, set q | q in E' && q.lo == n;
    if p.lo == n {
      assert S == S' + {p};
    } else {
      assert S == S';
    }
  }

  lemma HighEndsWithout(E: Edges, E': Edges, p: Pair, n: NodeId)
    requires p in E && E' == map q | q in E && q != p :: E[q]
    ensures |set q | q in E && q.hi == n| == |set q | q in E' && q.hi == n| + if p.hi == n then 1 else 0
  {
    var S, S' := set q | q in E && q.hi == n, set q | q in E' && q.hi == n;
    if p.hi == n {
      assert S == S' + {p};
    } else {
      assert S == S';
    }
  }

  lemma {:induction false} DegreeSumWithout(nodes: seq<NodeId>, E: Edges, p: Pair)
    requires p in E
    ensures DegreeSum(nodes, E) == DegreeSum(nodes, map q | q in E && q != p :: E[q])
      + Occurrences(nodes, p.lo) + Occurrences(nodes, p.hi)
    decreases |nodes|
  {
    if nodes != [] {
      DegreeSumWithout(nodes[..|nodes| - 1], E, p);
      DegreeWithout(E, p, nodes[|nodes| - 1]);
    }
  }

  /** The handshake lemma: the degrees of the nodes add up to twice the number of edges. */
  lemma {:induction false} Handshake(nodes: seq<NodeId>, E: Edges)
    requires NoDup(nodes) && EdgesWithin(nodes, E)
    ensures DegreeSum(nodes, E) == 2 * |E|
    decreases |E|
  {
    if |E| == 0 {
      assert E == map[];
      ZeroDegreeSum(nodes, E);
    } else {
      var p :| p in E;
      var E' := map q | q in E && q != p :: E[q];
      assert E'.Keys == E.Keys - {p};
      DegreeSumWithout(nodes, E, p);
      OccursOnce(nodes, p.lo);
      OccursOnce(nodes, p.hi);
      Handshake(nodes, E');
    }
  }

  lemma {:induction false} ZeroDegreeSum(nodes: seq<NodeId>, E: Edges)
    requires E == map[]
    ensures DegreeSum(nodes, E) == 0
    decreases |nodes|
  {
    if nodes != [] {
      ZeroDegreeSum(nodes[..|nodes| - 1], E);
      var n := nodes[|nodes| - 1];
      assert (set p | p in E && p.lo == n) == {};
      assert (set p | p in E && p.hi == n) == {};
    }
  }

  // ---------------------------------------------------------------------------
  // The graph object

  class Network {
    var nodes: seq<NodeId>
    var edges: Edges

    predicate Valid()
      reads this
    {
      NoDup(nodes) && EdgesWithin(nodes, edges)
    }

    /** `G = nx.Graph(); G.add_nodes_from(ids)`. */
    constructor (ids: seq<NodeId>)
      ensures Valid()
      ensures nodes == AppendNew([], ids) && edges == map[]
    {
      nodes := AppendNew([], ids);
      edges := map[];
    }

    predicate HasEdge(u: NodeId, v: NodeId)
      reads this
    {
      Key(u, v) in edges
    }

    function DegreeOf(n: NodeId): nat
      reads this
    {
      Degree(edges, n)
    }

    /** `G.add_nodes_from(ids)` on an existing graph. */
    method AddNodes(ids: seq<NodeId>)
      requires Valid()
      modifies this
      ensures Valid()
      ensures nodes == AppendNew(old(nodes), ids) && edges == old(edges)
    {
      nodes := AppendNew(nodes, ids);
    }

    /** `G.add_edge(u, v, **a)` between two existing nodes. */
    method AddEdge(u: NodeId, v: NodeId, a: Attrs)
      requires Valid() && u in nodes && v in nodes
      modifies this
      ensures Valid()
      ensures nodes == old(nodes)
      ensures edges == old(edges)[Key(u, v) := Merge(Attr(old(edges), Key(u, v)), a)]
    {
      edges := edges[Key(u, v) := Merge(Attr(edges, Key(u, v)), a)];
    }

    /** `if not G.has_edge(u, v): G.add_edge(u, v, **a)`: reports whether the edge was new. */
    method AddEdgeIfAbsent(u: NodeId, v: NodeId, a: Attrs) returns (added: bool)
      requires Valid() && u in nodes && v in nodes
      modifies this
      ensures Valid() && nodes == old(nodes)
      ensures added <==> Key(u, v) !in old(edges)
      ensures edges == if added then old(edges)[Key(u, v) := a] else old(edges)
      ensures |edges| == |old(edges)| + if added then 1 else 0
    {
      added := !HasEdge(u, v);
      if added {
        MergeLaws(NoAttrs, a);
        AddEdge(u, v, a);
      }
    }
  }
}
