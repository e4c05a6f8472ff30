/**
 The public operations of SomGraph, each one atomic step from a graph to a
 graph (the lock that makes them atomic is not modelled). Exceptions become
 `Err` results that leave the graph as it was; loops the source writes with an
 index are written here with the same index behaviour.
 */
module SomOps {
  import opened SomGraph
  import opened EraseLoop

  /** add_node: the smallest id in `[0, size]` not in the table gets a fresh
      zero-error node. The "failed to add node" throw is unreachable. */
  method AddNode(g: Graph) returns (r: Graph, id: nat)
    ensures id !in g.nodes
    ensures forall k :: 0 <= k < id ==> k in g.nodes
    ensures id <= |g.nodes|
    ensures id in r.nodes && r.nodes[id] == Node(0.0)
    ensures forall n :: n in g.nodes ==> n in r.nodes && r.nodes[n] == g.nodes[n]
    ensures r.nodes.Keys == g.nodes.Keys + {id}
    ensures NodeCount(r) == NodeCount(g) + 1
    ensures r.edges == g.edges
    ensures Valid(g) ==> Valid(r)
  {
    var i: nat := 0;
    while i < |g.nodes| + 1
      invariant i <= |g.nodes| + 1
      invariant forall k :: 0 <= k < i ==> k in g.nodes
    {
      if i !in g.nodes {
        r, id := g.(nodes := g.nodes[i := Node(0.0)]), i;
        return;
      }
      i := i + 1;
    }
    RangeInKeys(g.nodes, i);
    assert false;
  }

  /** add_edge: throws on a self-loop or a missing endpoint; otherwise appends
      an age-0 edge unless the pair is already joined. */
  function AddEdge(g: Graph, a: nat, b: nat): (r: Result<Graph>)
    ensures a == b ==> r == Err(SameNode)
    ensures a != b && (a !in g.nodes || b !in g.nodes) ==> r == Err(NodeMissing)
    ensures r.Ok? <==> a != b && a in g.nodes && b in g.nodes
    ensures r.Ok? && HasEdge(g.edges, a, b) ==> r.value == g
    ensures r.Ok? && !HasEdge(g.edges, a, b) ==>
              r.value.nodes == g.nodes && r.value.edges == g.edges + [Edge(a, b, 0.0)]
  {
    if a == b then Err(SameNode)
    else if a !in g.nodes || b !in g.nodes then Err(NodeMissing)
    else if FindEdge(g.edges, a, b).Some? then Ok(g)
    else Ok(g.(edges := g.edges + [Edge(a, b, 0.0)]))
  }

  /** remove_node (and the internal _remove_node it calls): throws if the node
      is not live; otherwise runs the skipping erase loop over the incident
      edges and drops the node from the table. */
  method RemoveNode(g: Graph, n: nat) returns (r: Result<Graph>)
    ensures r.Err? <==> n !in g.nodes
    ensures r.Err? ==> r.error == NodeMissing
    ensures r.Ok? ==> r.value.nodes == g.nodes - {n}
    ensures r.Ok? ==> NodeCount(r.value) == NodeCount(g) - 1
    ensures r.Ok? ==> r.value.edges == SkipFilter(g.edges, IncidentTo(n))
    ensures r.Ok? ==> Subseq(r.value.edges, g.edges)
    ensures r.Ok? ==> forall e :: e in g.edges && !Touches(e, n) ==> e in r.value.edges
    ensures r.Ok? ==> Filter(r.value.edges, IncidentTo(n)) == Filter(g.edges, IncidentTo(n))
    ensures r.Ok? && NoAdjacent(g.edges, IncidentTo(n)) ==> Orphan(r.value.edges, n)
  {
    if n !in g.nodes {
      return Err(NodeMissing);
    }
    var es := EraseSkipping(g.edges, IncidentTo(n));
    r := Ok(Graph(g.nodes - {n}, es));
    if NoAdjacent(g.edges, IncidentTo(n)) {
      forall k | 0 <= k < |es| ensures !Touches(es[k], n) {
        assert es[k] in es;
      }
    }
  }

  /** The index of the first edge joining `a` and `b`, whichever way round. */
  ghost predicate FirstMatch(es: seq<Edge>, a: nat, b: nat, i: int) {
    0 <= i < |es| && Connects(es[i], a, b) && forall k :: 0 <= k < i ==> !Connects(es[k], a, b)
  }

  /** remove_edge: erases the first edge joining the pair, or throws. */
  function RemoveEdge(g: Graph, a: nat, b: nat): (r: Result<Graph>)
    ensures r.Err? <==> !HasEdge(g.edges, a, b)
    ensures r.Err? ==> r.error == EdgeNotFound
    ensures r.Ok? ==> r.value.nodes == g.nodes && EdgeCount(r.value) == EdgeCount(g) - 1
    ensures r.Ok? ==> exists i :: FirstMatch(g.edges, a, b, i) && r.value.edges == g.edges[..i] + g.edges[i + 1..]
  {
    match FindEdge(g.edges, a, b)
    case None => Err(EdgeNotFound)
    case Some(i) =>
      assert FirstMatch(g.edges, a, b, i);
      Ok(g.(edges := g.edges[..i] + g.edges[i + 1..]))
  }

  /** get_neighbours: every other endpoint of an edge at `n`, in edge order;
      a node with no edges, live or not, gets the empty list. */
  function GetNeighbours(g: Graph, n: nat): (r: seq<nat>)
    ensures forall m :: m in r <==> HasEdge(g.edges, n, m)
    ensures |r| == 0 <==> Orphan(g.edges, n)
  {
    NeighboursIn(g.edges, n)
  }

  /** purge_old_edges: the skipping erase loop over edges with `age > max_age`. */
  method PurgeOldEdges(g: Graph, maxAge: real) returns (r: Graph)
    ensures r.nodes == g.nodes
    ensures r.edges == SkipFilter(g.edges, OlderThan(maxAge))
    ensures Subseq(r.edges, g.edges)
    ensures forall e :: e in g.edges && e.age <= maxAge ==> e in r.edges
    ensures NoAdjacent(g.edges, OlderThan(maxAge)) ==> forall e :: e in r.edges ==> e.age <= maxAge
  {
    var es := EraseSkipping(g.edges, OlderThan(maxAge));
    r := g.(edges := es);
  }

  /** The orphans among `order`, in that order. */
  function OrphansIn(es: seq<Edge>, order: seq<nat>): (r: seq<nat>)
    ensures forall n :: n in r <==> n in order && Orphan(es, n)
    ensures NoDup(order) ==> NoDup(r)
  {
    if |order| == 0 then []
    else
      var init := order[..|order| - 1];
      var last := order[|order| - 1];
      assert order == init + [last];
      assert NoDup(order) ==> NoDup(init) && last !in init;
      OrphansIn(es, init) + (if Orphan(es, last) then [last] else [])
  }

  /** The inner orphan test of purge_orphans: scan the edges, stop at the first incident one. */
  method IsOrphan(es: seq<Edge>, n: nat) returns (b: bool)
    ensures b <==> Orphan(es, n)
  {
    b := true;
    var i := 0;
    while i < |es|
      invariant i <= |es|
      invariant forall k :: 0 <= k < i ==> !Touches(es[k], n)
    {
      if Touches(es[i], n) {
        b := false;
        break;
      }
      i := i + 1;
    }
  }

  /** The first loop of purge_orphans: test every id of the table, in iteration order. */
  method CollectOrphans(es: seq<Edge>, order: seq<nat>) returns (orphans: seq<nat>)
    ensures orphans == OrphansIn(es, order)
  {
    orphans := [];
    var i := 0;
    while i < |order|
      invariant i <= |order|
      invariant orphans == OrphansIn(es, order[..i])
    {
      var isOrphan := IsOrphan(es, order[i]);
      assert order[..i + 1][..i] == order[..i];
      if isOrphan {
        orphans := orphans + [order[i]];
      }
      i := i + 1;
    }
    assert order[..i] == order;
  }

  /** The second loop of purge_orphans: `_remove_node` on each collected id. None
      of them throws, and none has an edge for the erase loop to touch. */
  method RemoveOrphans(g: Graph, orphans: seq<nat>) returns (r: Graph)
    requires NoDup(orphans)
    requires forall n :: n in orphans ==> n in g.nodes && Orphan(g.edges, n)
    ensures r.edges == g.edges
    ensures forall n :: n in r.nodes <==> n in g.nodes && n !in orphans
    ensures forall n :: n in r.nodes ==> r.nodes[n] == g.nodes[n]
    ensures NodeCount(r) == NodeCount(g) - |orphans|
  {
    r := g;
    var k := 0;
    while k < |orphans|
      invariant k <= |orphans|
      invariant r.edges == g.edges
      invariant forall n :: n in r.nodes <==> n in g.nodes && n !in orphans[..k]
      invariant forall n :: n in r.nodes ==> r.nodes[n] == g.nodes[n]
      invariant NodeCount(r) == NodeCount(g) - k
    {
      var n := orphans[k];
      PrefixSnoc(orphans, k);
      NoDupPrefix(orphans, k);
      SkipFilterNoMatch(r.edges, IncidentTo(n));
      var res := RemoveNode(r, n);
      r := res.value;
      k := k + 1;
    }
    assert orphans[..k] == orphans;
  }

  /** purge_orphans: collect the live ids with no incident edge, in table
      iteration order, then remove each through the node-removal path. */
  method PurgeOrphans(g: Graph, order: seq<nat>) returns (r: Graph, orphans: seq<nat>)
    requires IsOrder(g.nodes, order)
    ensures orphans == OrphansIn(g.edges, order)
    ensures forall n :: n in orphans <==> n in g.nodes && Orphan(g.edges, n)
    ensures NoDup(orphans)
    ensures forall n :: n in r.nodes <==> n in g.nodes && n !in orphans
    ensures forall n :: n in r.nodes ==> r.nodes[n] == g.nodes[n]
    ensures NodeCount(r) == NodeCount(g) - |orphans|
    ensures r.edges == g.edges
    ensures Valid(g) ==> Valid(r)
  {
    orphans := CollectOrphans(g.edges, order);
    r := RemoveOrphans(g, orphans);
    if Valid(g) {
      forall k | 0 <= k < |r.edges| ensures r.edges[k].n1 in r.nodes && r.edges[k].n2 in r.nodes {
        assert Touches(g.edges[k], g.edges[k].n1) && Touches(g.edges[k], g.edges[k].n2);
      }
    }
  }

  /** get_edge_age: the age of the first edge joining the pair, or a throw. */
  function GetEdgeAge(g: Graph, a: nat, b: nat): (r: Result<real>)
    ensures r.Err? <==> !HasEdge(g.edges, a, b)
    ensures r.Err? ==> r.error == EdgeNotFound
    ensures r.Ok? ==> exists i :: FirstMatch(g.edges, a, b, i) && r.value == g.edges[i].age
  {
    match FindEdge(g.edges, a, b)
    case None => Err(EdgeNotFound)
    case Some(i) =>
      assert FirstMatch(g.edges, a, b, i);
      Ok(g.edges[i].age)
  }

  /** set_edge_age: overwrite the age of the first edge joining the pair, or throw. */
  function SetEdgeAge(g: Graph, a: nat, b: nat, age: real): (r: Result<Graph>)
    ensures r.Err? <==> !HasEdge(g.edges, a, b)
    ensures r.Err? ==> r.error == EdgeNotFound
    ensures r.Ok? ==> r.value.nodes == g.nodes && |r.value.edges| == |g.edges|
    ensures r.Ok? ==> exists i :: (FirstMatch(g.edges, a, b, i)
                      && r.value.edges[i] == g.edges[i].(age := age)
                      && forall k :: 0 <= k < |g.edges| && k != i ==> r.value.edges[k] == g.edges[k])
  {
    match FindEdge(g.edges, a, b)
    case None => Err(EdgeNotFound)
    case Some(i) =>
      assert FirstMatch(g.edges, a, b, i);
      Ok(g.(edges := g.edges[i := g.edges[i].(age := age)]))
  }

  /** get_node_error: `_nodes[node]` inserts a zero-error node under an unknown
      id, so the read returns the (possibly grown) graph as well as the error. */
  function GetNodeError(g: Graph, n: nat): (r: (Graph, real))
    ensures n in g.nodes ==> r.0 == g && r.1 == g.nodes[n].error
    ensures n !in g.nodes ==> r.1 == 0.0 && r.0.edges == g.edges
    ensures n !in g.nodes ==> r.0.nodes.Keys == g.nodes.Keys + {n} && r.0.nodes[n] == Node(0.0)
    ensures forall m :: m in g.nodes ==> m in r.0.nodes && r.0.nodes[m] == g.nodes[m]
    ensures Valid(g) ==> Valid(r.0)
  {
    if n in g.nodes then (g, g.nodes[n].error)
    else (g.(nodes := g.nodes[n := Node(0.0)]), 0.0)
  }

  /** set_node_error: `_nodes[node].error = error`, creating the node if absent. */
  function SetNodeError(g: Graph, n: nat, error: real): (r: Graph)
    ensures r.nodes.Keys == g.nodes.Keys + {n}
    ensures r.nodes[n].error == error
    ensures forall m :: m in g.nodes && m != n ==> r.nodes[m] == g.nodes[m]
    ensures r.edges == g.edges
    ensures Valid(g) ==> Valid(r)
  {
    g.(nodes := g.nodes[n := Node(error)])
  }

  /** The loop of increment_age over an edge vector. */
  function IncrementAges(es: seq<Edge>): (r: seq<Edge>)
    ensures |r| == |es|
    ensures forall k :: 0 <= k < |es| ==> r[k] == es[k].(age := es[k].age + 1.0)
  {
    if |es| == 0 then []
    else [es[0].(age := es[0].age + 1.0)] + IncrementAges(es[1..])
  }

  /** increment_age: every edge one step older. */
  function IncrementAge(g: Graph): (r: Graph)
    ensures r.nodes == g.nodes
    ensures |r.edges| == |g.edges|
    ensures forall k :: 0 <= k < |g.edges| ==>
              r.edges[k].n1 == g.edges[k].n1 && r.edges[k].n2 == g.edges[k].n2
              && r.edges[k].age == g.edges[k].age + 1.0
    ensures Valid(g) ==> Valid(r)
  {
    g.(edges := IncrementAges(g.edges))
  }

  /** reset_errors: every node of the table gets error 0. */
  function ResetErrors(g: Graph): (r: Graph)
    ensures r.nodes.Keys == g.nodes.Keys
    ensures forall n :: n in r.nodes ==> r.nodes[n].error == 0.0
    ensures r.edges == g.edges
    ensures Valid(g) ==> Valid(r)
  {
    g.(nodes := map n | n in g.nodes :: Node(0.0))
  }

  /** `r` is what the winner search returns for the table visited in `order`:
      0xFFFFFFFF when the table is empty; the first node when its error is
      negative; otherwise a node of least non-negative error that no node
      visited before it ties. */
  ghost predicate IsWpu(g: Graph, order: seq<nat>, r: nat) {
    && IsOrder(g.nodes, order)
    && (|order| == 0 ==> r == NoWpu)
    && (|order| > 0 ==> r in g.nodes)
    && (|order| > 0 && g.nodes[order[0]].error < 0.0 ==> r == order[0])
    && (|order| > 0 && g.nodes[order[0]].error >= 0.0 ==>
          && 0.0 <= g.nodes[r].error
          && (forall k :: 0 <= k < |order| && 0.0 <= g.nodes[order[k]].error ==>
               g.nodes[r].error <= g.nodes[order[k]].error)
          && (forall j, k :: 0 <= j < k < |order| && order[k] == r ==>
               g.nodes[order[j]].error != g.nodes[r].error))
  }

  /** The search's state after visiting `order[..i]`: when `i > 0` the current
      choice is `order[w]`, with error `minE`. */
  ghost predicate Scanned(g: Graph, order: seq<nat>, i: nat, w: nat, minE: real) {
    && (forall k :: 0 <= k < |order| ==> order[k] in g.nodes)
    && i <= |order|
    && (i > 0 ==> w < i && minE == g.nodes[order[w]].error)
    && (i > 0 && g.nodes[order[0]].error < 0.0 ==> w == 0)
    && (i > 0 && g.nodes[order[0]].error >= 0.0 ==>
          && 0.0 <= minE
          && (forall k :: 0 <= k < i && 0.0 <= g.nodes[order[k]].error ==> minE <= g.nodes[order[k]].error)
          && (forall k :: 0 <= k < w ==> g.nodes[order[k]].error != minE))
  }

  /** Visiting a node that becomes the new choice keeps the search state. */
  lemma ScanTake(g: Graph, order: seq<nat>, i: nat, w: nat, minE: real)
    requires Scanned(g, order, i, w, minE) && i < |order|
    requires (0.0 <= g.nodes[order[i]].error < minE) || i == 0
    ensures Scanned(g, order, i + 1, i, g.nodes[order[i]].error)
  {
    var e := g.nodes[order[i]].error;
    if i > 0 {
      assert 0.0 <= g.nodes[order[0]].error;
      assert forall k :: 0 <= k < i && 0.0 <= g.nodes[order[k]].error ==> e < g.nodes[order[k]].error;
    }
  }

  /** Visiting a node that does not replace the choice keeps the search state. */
  lemma ScanKeep(g: Graph, order: seq<nat>, i: nat, w: nat, minE: real)
    requires Scanned(g, order, i, w, minE) && i < |order|
    requires !((0.0 <= g.nodes[order[i]].error < minE) || i == 0)
    ensures Scanned(g, order, i + 1, w, minE)
  {
  }

  /** Once every node is visited, the choice is the winner. */
  lemma ScanDone(g: Graph, order: seq<nat>, w: nat, minE: real)
    requires IsOrder(g.nodes, order) && Scanned(g, order, |order|, w, minE)
    ensures IsWpu(g, order, if |order| == 0 then NoWpu else order[w])
  {
    if |order| > 0 && g.nodes[order[0]].error >= 0.0 {
      forall j, k | 0 <= j < k < |order| && order[k] == order[w]
        ensures g.nodes[order[j]].error != minE
      {
        assert k == w;
      }
    }
  }

  /** find_wpu: scan the table in iteration order; the first node is always
      taken, and a later one replaces the current choice only when its error
      `e` satisfies `0 <= e < min_e`. `-1` (as `unsigned`) on an empty table. */
  method FindWpu(g: Graph, order: seq<nat>) returns (r: nat)
    requires IsOrder(g.nodes, order)
    ensures IsWpu(g, order, r)
  {
    var wpu: Option<nat> := None;
    var minE: real := 0.0;
    var i := 0;
    ghost var w := 0;
    assert forall k :: 0 <= k < |order| ==> order[k] in g.nodes;
    while i < |order|
      invariant Scanned(g, order, i, w, minE)
      invariant wpu.None? <==> i == 0
      invariant wpu.Some? ==> wpu.value == order[w]
    {
      var e := g.nodes[order[i]].error;
      if (0.0 <= e && e < minE) || wpu.None? {
        ScanTake(g, order, i, w, minE);
        wpu := Some(order[i]);
        minE := e;
        w := i;
      } else {
        ScanKeep(g, order, i, w, minE);
      }
      i := i + 1;
    }
    ScanDone(g, order, w, minE);
    if wpu.None? {
      r := NoWpu;
    } else {
      r := wpu.value;
    }
  }
}
