/**
 Properties relating several SomGraph operations: round trips, idempotence,
 endpoint-order independence, and preservation of the structural invariant.
 The last part holds the two places where the erase-then-`i++` loop does not
 do what its callers rely on, with concrete graphs that show it and the
 stable-filter definitions that do.
 */
module SomProps {
  import opened SomGraph
  import opened EraseLoop
  import opened SomOps

  // ---------------------------------------------------------------------------
  // Edge invariants under subsequences

  /** Keeping some edges, in order, keeps the edge-only parts of the invariant. */
  lemma {:induction false} SubseqKeepsPairInvariants(a: seq<Edge>, b: seq<Edge>)
    requires Subseq(a, b)
    requires NoSelfLoops(b) && NoDuplicatePairs(b)
    ensures NoSelfLoops(a) && NoDuplicatePairs(a)
    decreases |b|
  {
    if |a| == 0 {
      return;
    }
    assert NoSelfLoops(b[1..]) && NoDuplicatePairs(b[1..]) by {
      forall k | 0 <= k < |b[1..]| ensures b[1..][k] == b[k + 1] { }
    }
    if a[0] == b[0] && Subseq(a[1..], b[1..]) {
      SubseqKeepsPairInvariants(a[1..], b[1..]);
      SubseqMembers(a[1..], b[1..]);
      forall k | 0 < k < |a| ensures a[k].n1 != a[k].n2 {
        assert a[k] == a[1..][k - 1];
      }
      forall j, k | 0 <= j < k < |a| ensures !SamePair(a[j], a[k]) {
        assert a[k] == a[1..][k - 1];
        if j == 0 {
          assert a[k] in b[1..];
          var k' :| 0 <= k' < |b[1..]| && b[1..][k'] == a[k];
          assert b[k' + 1] == a[k];
        } else {
          assert a[j] == a[1..][j - 1];
        }
      }
    } else {
      SubseqKeepsPairInvariants(a, b[1..]);
    }
  }

  /** Deleting one element leaves a subsequence. */
  lemma {:induction false} DeleteIsSubseq(s: seq<Edge>, i: nat)
    requires i < |s|
    ensures Subseq(s[..i] + s[i + 1..], s)
    decreases i
  {
    var d := s[..i] + s[i + 1..];
    if i == 0 {
      assert d == s[1..];
      SubseqRefl(s[1..]);
    } else {
      DeleteIsSubseq(s[1..], i - 1);
      assert s[1..][..i - 1] + s[1..][i..] == d[1..];
      assert d[0] == s[0];
    }
  }

  /** Edges kept in order, none touching a dropped node: the invariant survives. */
  lemma ShrinkKeepsValid(g: Graph, g': Graph)
    requires Subseq(g'.edges, g.edges)
    ensures Valid(g) && EndpointsLive(g') ==> Valid(g')
  {
    if Valid(g) {
      SubseqKeepsPairInvariants(g'.edges, g.edges);
    }
  }

  // ---------------------------------------------------------------------------
  // Edge insertion

  /** After a successful add_edge each endpoint lists the other as a neighbour. */
  lemma AddEdgeNeighbours(g: Graph, a: nat, b: nat)
    requires AddEdge(g, a, b).Ok?
    ensures b in GetNeighbours(AddEdge(g, a, b).value, a)
    ensures a in GetNeighbours(AddEdge(g, a, b).value, b)
  {
    var es := AddEdge(g, a, b).value.edges;
    if !HasEdge(g.edges, a, b) {
      assert Connects(es[|es| - 1], a, b);
    }
    assert HasEdge(es, a, b);
    var k :| 0 <= k < |es| && Connects(es[k], a, b);
    assert Connects(es[k], b, a);
  }

  /** Adding the same edge twice is adding it once. */
  lemma AddEdgeIdempotent(g: Graph, a: nat, b: nat)
    requires AddEdge(g, a, b).Ok?
    ensures AddEdge(AddEdge(g, a, b).value, a, b) == AddEdge(g, a, b)
    ensures EdgeCount(AddEdge(g, a, b).value) <= EdgeCount(g) + 1
  {
    var g' := AddEdge(g, a, b).value;
    if !HasEdge(g.edges, a, b) {
      assert Connects(g'.edges[|g'.edges| - 1], a, b);
    }
    assert HasEdge(g'.edges, a, b);
  }

  /** add_edge keeps every part of the structural invariant. */
  lemma AddEdgePreservesValid(g: Graph, a: nat, b: nat)
    requires Valid(g) && AddEdge(g, a, b).Ok?
    ensures Valid(AddEdge(g, a, b).value)
    ensures HasEdge(AddEdge(g, a, b).value.edges, a, b)
  {
    var g' := AddEdge(g, a, b).value;
    if !HasEdge(g.edges, a, b) {
      var e := Edge(a, b, 0.0);
      assert g'.edges[|g.edges|] == e;
      forall j, k | 0 <= j < k < |g'.edges| ensures !SamePair(g'.edges[j], g'.edges[k]) {
        if k == |g.edges| {
          assert !Connects(g.edges[j], a, b);
        }
      }
    } else {
      var k :| 0 <= k < |g.edges| && Connects(g.edges[k], a, b);
      assert Connects(g'.edges[k], a, b);
    }
  }

  // ---------------------------------------------------------------------------
  // Edge lookups by pair

  /** remove_edge(a, b) and remove_edge(b, a) are the same operation. */
  lemma RemoveEdgeSymmetric(g: Graph, a: nat, b: nat)
    ensures RemoveEdge(g, a, b) == RemoveEdge(g, b, a)
    ensures GetEdgeAge(g, a, b) == GetEdgeAge(g, b, a)
  {
  }

  /** Removing a freshly added edge gives back the graph it was added to. */
  lemma RemoveEdgeAfterAddEdge(g: Graph, a: nat, b: nat)
    requires AddEdge(g, a, b).Ok? && !HasEdge(g.edges, a, b)
    ensures RemoveEdge(AddEdge(g, a, b).value, a, b) == Ok(g)
  {
    var es := AddEdge(g, a, b).value.edges;
    var n := |g.edges|;
    assert Connects(es[n], a, b);
    var f := FindEdge(es, a, b);
    assert f.Some?;
    assert f.value == n;
    assert es[..n] + es[n + 1..] == g.edges;
  }

  /** On a valid graph remove_edge disconnects the pair and keeps the invariant. */
  lemma RemoveEdgePreservesValid(g: Graph, a: nat, b: nat)
    requires Valid(g) && RemoveEdge(g, a, b).Ok?
    ensures Valid(RemoveEdge(g, a, b).value)
    ensures !HasEdge(RemoveEdge(g, a, b).value.edges, a, b)
  {
    var es := g.edges;
    var i := FindEdge(es, a, b).value;
    var d := RemoveEdge(g, a, b).value.edges;
    assert d == es[..i] + es[i + 1..];
    DeleteIsSubseq(es, i);
    SubseqKeepsPairInvariants(d, es);
    forall k | 0 <= k < |d| ensures d[k] == es[if k < i then k else k + 1] && !Connects(d[k], a, b) {
      var k' := if k < i then k else k + 1;
    }
  }

  /** get_edge_age after set_edge_age on the same pair reads the age just written. */
  lemma SetEdgeAgeThenGet(g: Graph, a: nat, b: nat, age: real)
    requires SetEdgeAge(g, a, b, age).Ok?
    ensures GetEdgeAge(SetEdgeAge(g, a, b, age).value, a, b) == Ok(age)
    ensures Valid(g) ==> Valid(SetEdgeAge(g, a, b, age).value)
  {
    var es := g.edges;
    var i := FindEdge(es, a, b).value;
    var es' := SetEdgeAge(g, a, b, age).value.edges;
    assert es' == es[i := es[i].(age := age)];
    assert forall k :: 0 <= k < |es| ==> (Connects(es'[k], a, b) <==> Connects(es[k], a, b));
    var f := FindEdge(es', a, b);
    assert Connects(es'[i], a, b);
    assert f.Some?;
    assert f.value == i;
    if Valid(g) {
      assert forall k :: 0 <= k < |es| ==> es'[k].n1 == es[k].n1 && es'[k].n2 == es[k].n2;
    }
  }

  // ---------------------------------------------------------------------------
  // Neighbours

  /** With no self-loops and one edge per pair, each neighbour is listed once. */
  lemma {:induction false} NeighboursNoDup(es: seq<Edge>, n: nat)
    requires NoSelfLoops(es) && NoDuplicatePairs(es)
    ensures NoDup(NeighboursIn(es, n))
    decreases |es|
  {
    if |es| > 0 {
      var tail := es[1..];
      assert NoSelfLoops(tail) && NoDuplicatePairs(tail) by {
        forall k | 0 <= k < |tail| ensures tail[k] == es[k + 1] { }
      }
      NeighboursNoDup(tail, n);
      var own := EdgeNeighbours(es[0], n);
      var rest := NeighboursIn(tail, n);
      assert NeighboursIn(es, n) == own + rest;
      assert |own| <= 1;
      forall m | m in own ensures m !in rest {
        assert Connects(es[0], n, m);
        forall k | 0 <= k < |tail| ensures !Connects(tail[k], n, m) {
          assert tail[k] == es[k + 1];
        }
      }
      NoDupConcat(own, rest);
    }
  }

  lemma NoDupConcat<T>(a: seq<T>, b: seq<T>)
    requires NoDup(a) && NoDup(b)
    requires forall x :: x in a ==> x !in b
    ensures NoDup(a + b)
  {
    forall i, j | 0 <= i < j < |a + b| ensures (a + b)[i] != (a + b)[j] {
      if i < |a| && j >= |a| {
        assert (a + b)[i] in a && (a + b)[j] == b[j - |a|];
      }
    }
  }

  /** get_neighbours on a valid graph: a duplicate-free list of live ids. */
  lemma GetNeighboursOfValid(g: Graph, n: nat)
    requires Valid(g)
    ensures NoDup(GetNeighbours(g, n))
    ensures forall m :: m in GetNeighbours(g, n) ==> m in g.nodes && m != n
  {
    NeighboursNoDup(g.edges, n);
  }

  // ---------------------------------------------------------------------------
  // Bulk updates and node errors

  /** `k` successive calls of increment_age. */
  function IncrementAgeTimes(g: Graph, k: nat): Graph {
    if k == 0 then g else IncrementAge(IncrementAgeTimes(g, k - 1))
  }

  /** `k` calls of increment_age add exactly `k` to every edge's age and change nothing else. */
  lemma {:induction false} IncrementAgeAddsCount(g: Graph, k: nat)
    ensures IncrementAgeTimes(g, k).nodes == g.nodes
    ensures |IncrementAgeTimes(g, k).edges| == |g.edges|
    ensures forall i :: 0 <= i < |g.edges| ==>
              IncrementAgeTimes(g, k).edges[i] == g.edges[i].(age := g.edges[i].age + k as real)
  {
    if k > 0 {
      IncrementAgeAddsCount(g, k - 1);
    }
  }

  /** After reset_errors every live id reads error 0, and reading adds no node. */
  lemma ResetErrorsThenGet(g: Graph, n: nat)
    requires n in g.nodes
    ensures GetNodeError(ResetErrors(g), n) == (ResetErrors(g), 0.0)
  {
  }

  /** get_node_error after set_node_error reads back the value written. */
  lemma SetNodeErrorThenGet(g: Graph, n: nat, error: real)
    ensures GetNodeError(SetNodeError(g, n, error), n) == (SetNodeError(g, n, error), error)
  {
  }

  // ---------------------------------------------------------------------------
  // Winner selection

  /** Errors 5, 2 and 7 on ids 0, 1 and 2, visited in id order: the winner is id 1. */
  lemma FindWpuExample(r: nat)
    requires IsWpu(Graph(map[0 := Node(5.0), 1 := Node(2.0), 2 := Node(7.0)], []), [0, 1, 2], r)
    ensures r == 1
  {
    var g := Graph(map[0 := Node(5.0), 1 := Node(2.0), 2 := Node(7.0)], []);
    var order := [0, 1, 2];
    assert order[0] == 0 && order[1] == 1 && order[2] == 2;
    assert g.nodes[r].error <= g.nodes[order[1]].error;
  }

  // ---------------------------------------------------------------------------
  // Findings: the erase-then-`i++` loop

  /** remove_node as written, on nodes 0, 1, 2 with edges (0,1), (0,2): the
      second edge shifts into the erased slot and is skipped, so it survives and
      references the removed node, while the intended pass leaves no edge. The
      graph `after` is what `RemoveNode(before, 0)` returns. */
  lemma RemoveNodeLeavesDanglingEdge()
    ensures var before := Graph(map[0 := Node(0.0), 1 := Node(0.0), 2 := Node(0.0)],
                                [Edge(0, 1, 0.0), Edge(0, 2, 0.0)]);
            var after := Graph(before.nodes - {0}, SkipFilter(before.edges, IncidentTo(0)));
            && Valid(before)
            && after.edges == [Edge(0, 2, 0.0)]
            && Filter(before.edges, IncidentTo(0)) == []
            && !Valid(after)
  {
    var es := [Edge(0, 1, 0.0), Edge(0, 2, 0.0)];
    assert es[2..] == [];
    assert SkipFilter(es, IncidentTo(0)) == [Edge(0, 2, 0.0)];
  }

  /** purge_old_edges as written, on two adjacent edges both older than the
      limit: the second one survives, while the intended pass leaves no edge. */
  lemma PurgeOldEdgesKeepsOldEdge()
    ensures var es := [Edge(0, 1, 5.0), Edge(1, 2, 5.0)];
            && SkipFilter(es, OlderThan(1.0)) == [Edge(1, 2, 5.0)]
            && Filter(es, OlderThan(1.0)) == []
  {
    var es := [Edge(0, 1, 5.0), Edge(1, 2, 5.0)];
    assert es[2..] == [];
  }

  /** Node removal as intended: a stable filter drops every incident edge. */
  function RemoveNodeFiltered(g: Graph, n: nat): (r: Result<Graph>)
    ensures r.Err? <==> n !in g.nodes
    ensures r.Err? ==> r.error == NodeMissing
    ensures r.Ok? ==> r.value.nodes == g.nodes - {n}
    ensures r.Ok? ==> forall e :: e in r.value.edges <==> e in g.edges && !Touches(e, n)
    ensures r.Ok? ==> Subseq(r.value.edges, g.edges)
    ensures r.Ok? ==> forall m :: n !in GetNeighbours(r.value, m)
    ensures r.Ok? && Valid(g) ==> Valid(r.value)
  {
    if n !in g.nodes then Err(NodeMissing)
    else
      var es := Filter(g.edges, IncidentTo(n));
      var g' := Graph(g.nodes - {n}, es);
      FilterIsSubseq(g.edges, IncidentTo(n));
      ShrinkKeepsValid(g, g');
      assert forall k :: 0 <= k < |es| ==> es[k] in g.edges && !Touches(es[k], n) by {
        forall k | 0 <= k < |es| ensures es[k] in g.edges && !Touches(es[k], n) {
          assert es[k] in es;
        }
      }
      assert Orphan(es, n);
      Ok(g')
  }

  /** The as-written removal (`RemoveNode` yields these nodes and these edges)
      agrees with the intended one when no two incident edges are adjacent. */
  lemma RemoveNodeAgrees(g: Graph, n: nat)
    requires NoAdjacent(g.edges, IncidentTo(n))
    ensures n in g.nodes ==>
              RemoveNodeFiltered(g, n) == Ok(Graph(g.nodes - {n}, SkipFilter(g.edges, IncidentTo(n))))
  {
    SkipFilterNoAdjacent(g.edges, IncidentTo(n));
  }

  /** Age pruning as intended: an edge survives iff its age is at most the limit. */
  function PurgeOldEdgesFiltered(g: Graph, maxAge: real): (r: Graph)
    ensures r.nodes == g.nodes
    ensures forall e :: e in r.edges <==> e in g.edges && e.age <= maxAge
    ensures Subseq(r.edges, g.edges)
    ensures Valid(g) ==> Valid(r)
  {
    var r := g.(edges := Filter(g.edges, OlderThan(maxAge)));
    FilterIsSubseq(g.edges, OlderThan(maxAge));
    ShrinkKeepsValid(g, r);
    assert forall k :: 0 <= k < |r.edges| ==> r.edges[k] in g.edges by {
      forall k | 0 <= k < |r.edges| ensures r.edges[k] in g.edges {
        assert r.edges[k] in r.edges;
      }
    }
    r
  }

  /** The as-written pruning (`PurgeOldEdges` yields these edges) agrees with
      the intended one when no two old edges are adjacent. */
  lemma PurgeOldEdgesAgrees(g: Graph, maxAge: real)
    requires NoAdjacent(g.edges, OlderThan(maxAge))
    ensures PurgeOldEdgesFiltered(g, maxAge) == g.(edges := SkipFilter(g.edges, OlderThan(maxAge)))
  {
    SkipFilterNoAdjacent(g.edges, OlderThan(maxAge));
  }

  /** On a valid graph, as-written age pruning keeps the invariant (it only drops edges). */
  lemma PurgeOldEdgesPreservesValid(g: Graph, maxAge: real)
    requires Valid(g)
    ensures Valid(g.(edges := SkipFilter(g.edges, OlderThan(maxAge))))
  {
    var es := SkipFilter(g.edges, OlderThan(maxAge));
    SkipFilterIsSubseq(g.edges, OlderThan(maxAge));
    SubseqMembers(es, g.edges);
    assert forall k :: 0 <= k < |es| ==> es[k] in g.edges;
    ShrinkKeepsValid(g, g.(edges := es));
  }

  /** On a valid graph with no two adjacent incident edges, as-written node removal keeps the invariant. */
  lemma RemoveNodePreservesValid(g: Graph, n: nat)
    requires Valid(g) && n in g.nodes && NoAdjacent(g.edges, IncidentTo(n))
    ensures Valid(Graph(g.nodes - {n}, SkipFilter(g.edges, IncidentTo(n))))
  {
    RemoveNodeAgrees(g, n);
  }
}
