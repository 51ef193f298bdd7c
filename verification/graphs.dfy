/** Weighted directed graphs whose adjacency lists keep their declaration order,
    walks through them, and the cost of a walk. */
module Graphs {

  type Node = string

  /** A node's outgoing edges in declaration order, as (neighbour, weight) pairs. */
  type Adjacency = seq<(Node, nat)>

  type Graph = map<Node, Adjacency>

  /** A distance; `Inf` plays the part of the floating-point infinity reported for
      an unreachable goal or a failed search. */
  datatype Cost = Fin(n: nat) | Inf

  predicate CostLeq(a: Cost, b: Cost) {
    b.Inf? || (a.Fin? && a.n <= b.n)
  }

  predicate CostLess(a: Cost, b: Cost) {
    a.Fin? && (b.Inf? || a.n < b.n)
  }

  /** The neighbour names of an adjacency list, in order. */
  function Names(adj: Adjacency): seq<Node> {
    seq(|adj|, k requires 0 <= k < |adj| => adj[k].0)
  }

  /** Outgoing edges of `u`; a node that is not a key has none. */
  function Adj(g: Graph, u: Node): Adjacency {
    if u in g then g[u] else []
  }

  predicate IsEdge(g: Graph, u: Node, v: Node) {
    v in Names(Adj(g, u))
  }

  /** Neighbour names of one node are distinct, as the keys of a dictionary are. */
  predicate UniqueNames(adj: Adjacency) {
    forall i, j :: 0 <= i < j < |adj| ==> adj[i].0 != adj[j].0
  }

  /** Every adjacency list has distinct names and every neighbour is itself a key. */
  predicate ValidGraph(g: Graph) {
    forall u :: u in g ==>
      && UniqueNames(g[u])
      && forall k :: 0 <= k < |g[u]| ==> g[u][k].0 in g
  }

  /** The weight of the first edge to `v`, i.e. the dictionary lookup `adj[v]`. */
  function WeightOf(adj: Adjacency, v: Node): nat
    requires v in Names(adj)
  {
    if adj[0].0 == v then adj[0].1
    else
      assert Names(adj[1..]) == Names(adj)[1..];
      WeightOf(adj[1..], v)
  }

  function EdgeWeight(g: Graph, u: Node, v: Node): nat
    requires IsEdge(g, u, v)
  {
    WeightOf(Adj(g, u), v)
  }

  /** Every consecutive pair of `p` is an edge. */
  predicate IsWalk(g: Graph, p: seq<Node>) {
    forall i :: 0 <= i < |p| - 1 ==> IsEdge(g, p[i], p[i + 1])
  }

  predicate IsWalkFromTo(g: Graph, p: seq<Node>, s: Node, t: Node) {
    |p| > 0 && p[0] == s && p[|p| - 1] == t && IsWalk(g, p)
  }

  /** Sum of the edge weights along consecutive pairs of `p`. */
  function PathCost(g: Graph, p: seq<Node>): nat
    requires IsWalk(g, p)
    decreases |p|
  {
    if |p| < 2 then 0
    else
      assert IsWalk(g, p[..|p| - 1]);
      PathCost(g, p[..|p| - 1]) + EdgeWeight(g, p[|p| - 2], p[|p| - 1])
  }

  /** Some walk from `s` to `t` costs exactly `d`. */
  ghost predicate HasWalk(g: Graph, s: Node, t: Node, d: nat) {
    exists p :: IsWalkFromTo(g, p, s, t) && PathCost(g, p) == d
  }

  ghost predicate Reachable(g: Graph, s: Node, t: Node) {
    exists p :: IsWalkFromTo(g, p, s, t)
  }

  /** With distinct names, the lookup by name finds the weight stored at any index. */
  lemma {:induction false} WeightAtIndex(adj: Adjacency, k: nat)
    requires UniqueNames(adj) && k < |adj|
    ensures adj[k].0 in Names(adj)
    ensures WeightOf(adj, adj[k].0) == adj[k].1
  {
    assert Names(adj)[k] == adj[k].0;
    if k > 0 {
      assert Names(adj[1..]) == Names(adj)[1..];
      WeightAtIndex(adj[1..], k - 1);
    }
  }

  /** Edges leave keys, and in a valid graph they also end at keys. */
  lemma EdgeEnds(g: Graph, u: Node, v: Node)
    requires ValidGraph(g) && IsEdge(g, u, v)
    ensures u in g && v in g
  {
    assert u in g;
    var k :| 0 <= k < |g[u]| && Names(g[u])[k] == v;
  }

  /** Extending a walk by one edge adds that edge's weight to its cost. */
  lemma PathCostSnoc(g: Graph, p: seq<Node>, v: Node)
    requires |p| > 0 && IsWalk(g, p) && IsEdge(g, p[|p| - 1], v)
    ensures IsWalk(g, p + [v])
    ensures PathCost(g, p + [v]) == PathCost(g, p) + EdgeWeight(g, p[|p| - 1], v)
  {
    var q := p + [v];
    assert q[..|q| - 1] == p;
  }

  /** A walk to `u` followed by an edge `u -> v` is a walk to `v`. */
  lemma HasWalkExtend(g: Graph, s: Node, u: Node, d: nat, v: Node)
    requires HasWalk(g, s, u, d) && IsEdge(g, u, v)
    ensures HasWalk(g, s, v, d + EdgeWeight(g, u, v))
  {
    var p :| IsWalkFromTo(g, p, s, u) && PathCost(g, p) == d;
    PathCostSnoc(g, p, v);
    assert IsWalkFromTo(g, p + [v], s, v);
  }

  /** A potential `h` that never drops by more than an edge's weight along that edge
      bounds from below the cost of every walk: cost >= h(first) - h(last). */
  lemma {:induction false} PotentialLowerBound(g: Graph, h: map<Node, nat>, p: seq<Node>)
    requires forall u, k :: u in h && u in g && 0 <= k < |g[u]| ==>
               g[u][k].0 in h && h[u] <= g[u][k].1 + h[g[u][k].0]
    requires ValidGraph(g)
    requires IsWalk(g, p) && |p| > 0 && p[0] in h
    ensures p[|p| - 1] in h
    ensures h[p[0]] <= PathCost(g, p) + h[p[|p| - 1]]
    decreases |p|
  {
    if |p| > 1 {
      var q := p[..|p| - 1];
      assert IsWalk(g, q);
      PotentialLowerBound(g, h, q);
      var u, v := p[|p| - 2], p[|p| - 1];
      assert IsEdge(g, u, v);
      var k :| 0 <= k < |g[u]| && Names(g[u])[k] == v;
      WeightAtIndex(g[u], k);
    }
  }
}
