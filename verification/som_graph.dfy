/**
 The state of a SomGraph: the topology behind a growing-neural-gas learner.
 A node table maps an id to a unit carrying an accumulated error; an edge
 vector holds undirected adjacencies carrying an age. This module defines the
 state, the structural invariant the operations are meant to keep, and the
 two scans every pair lookup and neighbour query is built from.
 */
module SomGraph {

  /** A learned unit; only its accumulated error is stored. */
  datatype Node = Node(error: real)

  /** An undirected adjacency between units `n1` and `n2`, with its age. */
  datatype Edge = Edge(n1: nat, n2: nat, age: real)

  /** The node table (id to node) and the edge vector, in vector order. */
  datatype Graph = Graph(nodes: map<nat, Node>, edges: seq<Edge>)

  /** The runtime errors the graph throws. */
  datatype Error =
    | NodeMissing   // "node missing"
    | SameNode      // "cannot add edge to same node"
    | EdgeNotFound  // "edge not found"

  datatype Option<T> = None | Some(value: T)

  /** An operation either completes with a value or throws one of the errors. */
  datatype Result<T> = Ok(value: T) | Err(error: Error)

  /** `-1` converted to `unsigned`: what the winner search returns on an empty table. */
  const NoWpu: nat := 0xFFFF_FFFF

  function NodeCount(g: Graph): nat { |g.nodes| }

  function EdgeCount(g: Graph): nat { |g.edges| }

  /** Edge `e` joins `a` and `b`, in either endpoint order. */
  predicate Connects(e: Edge, a: nat, b: nat) {
    (e.n1 == a && e.n2 == b) || (e.n1 == b && e.n2 == a)
  }

  /** Edge `e` is incident to node `n`. */
  predicate Touches(e: Edge, n: nat) {
    e.n1 == n || e.n2 == n
  }

  /** Two edges join the same unordered pair of nodes. */
  predicate SamePair(e: Edge, f: Edge) {
    Connects(e, f.n1, f.n2)
  }

  ghost predicate HasEdge(es: seq<Edge>, a: nat, b: nat) {
    exists k :: 0 <= k < |es| && Connects(es[k], a, b)
  }

  /** No edge of `es` is incident to `n`. */
  predicate Orphan(es: seq<Edge>, n: nat) {
    forall k :: 0 <= k < |es| ==> !Touches(es[k], n)
  }

  ghost predicate NoDup<T>(s: seq<T>) {
    forall i, j :: 0 <= i < j < |s| ==> s[i] != s[j]
  }

  /** Growing a prefix by one element. */
  lemma PrefixSnoc<T>(s: seq<T>, k: nat)
    requires k < |s|
    ensures s[..k + 1] == s[..k] + [s[k]]
  {
  }

  /** In a sequence without repeats, an element does not occur before its own position. */
  lemma NoDupPrefix<T>(s: seq<T>, k: nat)
    requires NoDup(s) && k < |s|
    ensures s[k] !in s[..k]
  {
  }

  ghost predicate EndpointsLive(g: Graph) {
    forall k :: 0 <= k < |g.edges| ==> g.edges[k].n1 in g.nodes && g.edges[k].n2 in g.nodes
  }

  ghost predicate NoSelfLoops(es: seq<Edge>) {
    forall k :: 0 <= k < |es| ==> es[k].n1 != es[k].n2
  }

  ghost predicate NoDuplicatePairs(es: seq<Edge>) {
    forall j, k :: 0 <= j < k < |es| ==> !SamePair(es[j], es[k])
  }

  /** The structural invariant: live endpoints, no self-loops, one edge per pair. */
  ghost predicate Valid(g: Graph) {
    EndpointsLive(g) && NoSelfLoops(g.edges) && NoDuplicatePairs(g.edges)
  }

  /** `order` is an iteration order of the node table: every key exactly once. */
  ghost predicate IsOrder(nodes: map<nat, Node>, order: seq<nat>) {
    NoDup(order) && forall n :: n in order <==> n in nodes
  }

  /** The scan `for (i = from; i < size; i++) if (edge i joins a and b) ...`:
      the first index at or after `from` whose edge joins the pair. */
  function FindEdgeFrom(es: seq<Edge>, a: nat, b: nat, from: nat): (r: Option<nat>)
    requires from <= |es|
    ensures r.Some? ==> from <= r.value < |es| && Connects(es[r.value], a, b)
    ensures r.Some? ==> forall k :: from <= k < r.value ==> !Connects(es[k], a, b)
    ensures r.None? ==> forall k :: from <= k < |es| ==> !Connects(es[k], a, b)
    decreases |es| - from
  {
    if from == |es| then None
    else if Connects(es[from], a, b) then Some(from)
    else FindEdgeFrom(es, a, b, from + 1)
  }

  /** The index of the first edge joining `a` and `b`, if any. */
  function FindEdge(es: seq<Edge>, a: nat, b: nat): (r: Option<nat>)
    ensures r.Some? ==> r.value < |es| && Connects(es[r.value], a, b)
    ensures r.Some? ==> forall k :: 0 <= k < r.value ==> !Connects(es[k], a, b)
    ensures r.None? <==> !HasEdge(es, a, b)
  {
    FindEdgeFrom(es, a, b, 0)
  }

  /** What one edge contributes to the neighbour list of `n`: its other end when
      `n1 == n`, then its first end when `n2 == n` (two separate tests). */
  function EdgeNeighbours(e: Edge, n: nat): seq<nat> {
    (if e.n1 == n then [e.n2] else []) + (if e.n2 == n then [e.n1] else [])
  }

  /** Neighbours of `n`, in edge-vector order. */
  function NeighboursIn(es: seq<Edge>, n: nat): (r: seq<nat>)
    ensures forall m :: m in r <==> HasEdge(es, n, m)
    ensures |r| == 0 <==> Orphan(es, n)
  {
    if |es| == 0 then []
    else
      var rest := NeighboursIn(es[1..], n);
      assert forall m :: HasEdge(es, n, m) <==> Connects(es[0], n, m) || HasEdge(es[1..], n, m) by {
        forall m ensures HasEdge(es, n, m) ==> Connects(es[0], n, m) || HasEdge(es[1..], n, m) {
          if HasEdge(es, n, m) {
            var k :| 0 <= k < |es| && Connects(es[k], n, m);
            if k > 0 { assert es[1..][k - 1] == es[k]; }
          }
        }
        forall m | HasEdge(es[1..], n, m) ensures HasEdge(es, n, m) {
          var k :| 0 <= k < |es[1..]| && Connects(es[1..][k], n, m);
          assert es[k + 1] == es[1..][k];
        }
      }
      assert Orphan(es, n) <==> !Touches(es[0], n) && Orphan(es[1..], n) by {
        if !Touches(es[0], n) && Orphan(es[1..], n) {
          forall k | 0 < k < |es| ensures !Touches(es[k], n) {
            assert es[k] == es[1..][k - 1];
          }
        }
      }
      EdgeNeighbours(es[0], n) + rest
  }

  /** The ids `0 .. n-1`. */
  function Range(n: nat): (r: set<nat>)
    ensures forall k: nat :: k in r <==> k < n
    ensures |r| == n
  {
    if n == 0 then {} else Range(n - 1) + {n - 1}
  }

  /** Smallest-free-id pigeonhole: if `[0, n)` lies in the key set, there are at least `n` keys. */
  lemma RangeInKeys(m: map<nat, Node>, n: nat)
    requires forall k :: 0 <= k < n ==> k in m
    ensures n <= |m|
  {
    assert Range(n) <= m.Keys;
    SubsetSize(Range(n), m.Keys);
  }

  lemma {:induction false} SubsetSize(a: set<nat>, b: set<nat>)
    requires a <= b
    ensures |a| <= |b|
    decreases |b|
  {
    if a != {} {
      var x :| x in a;
      SubsetSize(a - {x}, b - {x});
    }
  }
}
