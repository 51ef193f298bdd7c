/** The shortest-path oracle: Dijkstra's algorithm with a priority queue held as a
    sequence, a distance map, lazy deletion of stale entries, and an early return
    when the goal is taken from the queue. */
module ShortestPath {
  import opened Sequences
  import opened Graphs

  /** A queue entry: a tentative distance and the node it was found for. */
  type Entry = (nat, Node)

  /** String order as the program's language compares strings: lexicographic by
      code point, a proper prefix coming first. */
  predicate StrLeq(a: string, b: string)
    decreases |a|
  {
    |a| == 0 || (|b| > 0 && (a[0] < b[0] || (a[0] == b[0] && StrLeq(a[1..], b[1..]))))
  }

  /** The order in which the heap releases entries: by distance, then by name. */
  predicate EntryLeq(x: Entry, y: Entry) {
    x.0 < y.0 || (x.0 == y.0 && StrLeq(x.1, y.1))
  }

  lemma {:induction false} StrLeqTotal(a: string, b: string)
    ensures StrLeq(a, b) || StrLeq(b, a)
    decreases |a|
  {
    if |a| > 0 && |b| > 0 && a[0] == b[0] {
      StrLeqTotal(a[1..], b[1..]);
    }
  }

  lemma {:induction false} StrLeqTrans(a: string, b: string, c: string)
    requires StrLeq(a, b) && StrLeq(b, c)
    ensures StrLeq(a, c)
    decreases |a|
  {
    if |a| > 0 && a[0] == b[0] && b[0] == c[0] {
      StrLeqTrans(a[1..], b[1..], c[1..]);
    }
  }

  lemma EntryLeqTrans(x: Entry, y: Entry, z: Entry)
    requires EntryLeq(x, y) && EntryLeq(y, z)
    ensures EntryLeq(x, z)
  {
    if x.0 == y.0 && y.0 == z.0 {
      StrLeqTrans(x.1, y.1, z.1);
    }
  }

  /** Position of the entry the heap pops: one that is least in entry order. */
  function ArgMin(q: seq<Entry>): (m: nat)
    requires |q| > 0
    ensures m < |q|
    ensures forall k :: 0 <= k < |q| ==> EntryLeq(q[m], q[k])
    decreases |q|
  {
    if |q| == 1 then
      StrLeqTotal(q[0].1, q[0].1);
      0
    else
      var m := ArgMin(q[..|q| - 1]);
      var last := |q| - 1;
      if EntryLeq(q[m], q[last]) then
        assert forall k :: 0 <= k < last ==> EntryLeq(q[m], q[k]) by {
          forall k | 0 <= k < last ensures EntryLeq(q[m], q[k]) {
            assert q[..last][k] == q[k];
          }
        }
        m
      else
        StrLeqTotal(q[m].1, q[last].1);
        assert EntryLeq(q[last], q[m]);
        assert forall k :: 0 <= k <= last ==> EntryLeq(q[last], q[k]) by {
          forall k | 0 <= k <= last ensures EntryLeq(q[last], q[k]) {
            if k < last {
              assert q[..last][k] == q[k];
              EntryLeqTrans(q[last], q[m], q[k]);
            } else {
              StrLeqTotal(q[k].1, q[k].1);
            }
          }
        }
        last
  }

  /** `dist'` and `pushed` are what relaxing every edge of `u`, reached at distance
      `d`, leaves behind: the same nodes carry a distance; a distance changes only
      by dropping strictly to `d` plus the weight of the edge from `u`, and the new
      entry is then pushed; afterwards every neighbour's distance is at most `d` plus
      its edge's weight; and only strict improvements were pushed. */
  ghost predicate Relaxed(g: Graph, dist: map<Node, Cost>, u: Node, d: nat,
                          dist': map<Node, Cost>, pushed: seq<Entry>)
    requires u in g
  {
    && dist'.Keys == dist.Keys
    && (forall v :: v in dist ==>
          || dist'[v] == dist[v]
          || (&& v in Names(g[u])
              && dist'[v] == Fin(d + WeightOf(g[u], v))
              && CostLess(dist'[v], dist[v])
              && (d + WeightOf(g[u], v), v) in pushed))
    && (forall v :: v in Names(g[u]) ==> v in dist' && CostLeq(dist'[v], Fin(d + WeightOf(g[u], v))))
    && (forall j :: 0 <= j < |pushed| ==>
          && pushed[j].1 in Names(g[u])
          && pushed[j].1 in dist
          && pushed[j].0 == d + WeightOf(g[u], pushed[j].1)
          && CostLess(Fin(pushed[j].0), dist[pushed[j].1]))
  }

  /** A distance differs from its original only by a strict drop to `d` plus the
      weight of the edge to it, and that drop was pushed. */
  ghost predicate OnlyImproved(adj: Adjacency, dist: map<Node, Cost>, d: nat,
                               dist': map<Node, Cost>, pushed: seq<Entry>)
  {
    forall v :: v in dist && v in dist' ==>
      || dist'[v] == dist[v]
      || (&& v in Names(adj)
          && dist'[v] == Fin(d + WeightOf(adj, v))
          && CostLess(dist'[v], dist[v])
          && (d + WeightOf(adj, v), v) in pushed)
  }

  /** Every pushed entry is a strict improvement along an edge of `adj`. */
  ghost predicate PushedImprove(adj: Adjacency, dist: map<Node, Cost>, d: nat, pushed: seq<Entry>) {
    forall j :: 0 <= j < |pushed| ==>
      && pushed[j].1 in Names(adj)
      && pushed[j].1 in dist
      && pushed[j].0 == d + WeightOf(adj, pushed[j].1)
      && CostLess(Fin(pushed[j].0), dist[pushed[j].1])
  }

  /** The loop invariant of `Relax` after the first `i` edges of `adj`. */
  ghost predicate RelaxedPrefix(adj: Adjacency, dist: map<Node, Cost>, d: nat, i: nat,
                                dist': map<Node, Cost>, pushed: seq<Entry>)
  {
    && i <= |adj|
    && dist'.Keys == dist.Keys
    && OnlyImproved(adj, dist, d, dist', pushed)
    && (forall k :: 0 <= k < i ==> adj[k].0 in dist' && CostLeq(dist'[adj[k].0], Fin(d + adj[k].1)))
    && PushedImprove(adj, dist, d, pushed)
    && PushedFresh(adj, i, pushed)
  }

  /** The pushed entries name distinct nodes, none of which comes again in `adj` from
      position `i` on. */
  ghost predicate PushedFresh(adj: Adjacency, i: nat, pushed: seq<Entry>) {
    && (forall j, k :: 0 <= j < k < |pushed| ==> pushed[j].1 != pushed[k].1)
    && (forall j, k :: 0 <= j < |pushed| && i <= k < |adj| ==> pushed[j].1 != adj[k].0)
  }

  /** Pushing the neighbour at position `i` keeps the pushed names distinct, because
      the names of an adjacency list are. */
  lemma FreshStep(adj: Adjacency, i: nat, pushed: seq<Entry>, e: Entry)
    requires UniqueNames(adj) && i < |adj| && e.1 == adj[i].0
    requires PushedFresh(adj, i, pushed)
    ensures PushedFresh(adj, i + 1, pushed + [e])
  {
    var pushed' := pushed + [e];
    forall j, k | 0 <= j < k < |pushed'| ensures pushed'[j].1 != pushed'[k].1 {
      if k == |pushed| {
        assert pushed'[j] == pushed[j];
      }
    }
  }

  lemma ImprovedStep(adj: Adjacency, dist: map<Node, Cost>, d: nat, i: nat,
                     dist': map<Node, Cost>, pushed: seq<Entry>)
    requires UniqueNames(adj) && i < |adj| && adj[i].0 in dist && adj[i].0 in dist'
    requires OnlyImproved(adj, dist, d, dist', pushed)
    requires CostLess(Fin(d + adj[i].1), dist'[adj[i].0])
    ensures OnlyImproved(adj, dist, d, dist'[adj[i].0 := Fin(d + adj[i].1)], pushed + [(d + adj[i].1, adj[i].0)])
  {
    var v, nd := adj[i].0, d + adj[i].1;
    var dist'', pushed' := dist'[v := Fin(nd)], pushed + [(nd, v)];
    WeightAtIndex(adj, i);
    assert pushed'[|pushed|] == (nd, v);
    forall x | x in dist && x in dist'' && x != v && dist''[x] != dist[x]
      ensures (d + WeightOf(adj, x), x) in pushed'
    {
      assert (d + WeightOf(adj, x), x) in pushed;
    }
  }

  lemma PushedStep(adj: Adjacency, dist: map<Node, Cost>, d: nat, i: nat,
                   dist': map<Node, Cost>, pushed: seq<Entry>)
    requires UniqueNames(adj) && i < |adj| && adj[i].0 in dist && adj[i].0 in dist'
    requires PushedImprove(adj, dist, d, pushed)
    requires OnlyImproved(adj, dist, d, dist', pushed)
    requires CostLess(Fin(d + adj[i].1), dist'[adj[i].0])
    ensures PushedImprove(adj, dist, d, pushed + [(d + adj[i].1, adj[i].0)])
  {
    var pushed' := pushed + [(d + adj[i].1, adj[i].0)];
    WeightAtIndex(adj, i);
    forall j | 0 <= j < |pushed'|
      ensures && pushed'[j].1 in Names(adj)
              && pushed'[j].1 in dist
              && pushed'[j].0 == d + WeightOf(adj, pushed'[j].1)
              && CostLess(Fin(pushed'[j].0), dist[pushed'[j].1])
    {
      if j < |pushed| {
        assert pushed'[j] == pushed[j];
      }
    }
  }

  /** Relaxing edge `i` when it improves its neighbour extends the invariant to `i + 1`. */
  lemma RelaxImproves(adj: Adjacency, dist: map<Node, Cost>, d: nat, i: nat,
                      dist': map<Node, Cost>, pushed: seq<Entry>,
                      dist'': map<Node, Cost>, pushed': seq<Entry>)
    requires UniqueNames(adj) && i < |adj| && adj[i].0 in dist
    requires RelaxedPrefix(adj, dist, d, i, dist', pushed)
    requires CostLess(Fin(d + adj[i].1), dist'[adj[i].0])
    requires dist'' == dist'[adj[i].0 := Fin(d + adj[i].1)]
    requires pushed' == pushed + [(d + adj[i].1, adj[i].0)]
    ensures RelaxedPrefix(adj, dist, d, i + 1, dist'', pushed')
  {
    ImprovedStep(adj, dist, d, i, dist', pushed);
    PushedStep(adj, dist, d, i, dist', pushed);
    FreshStep(adj, i, pushed, (d + adj[i].1, adj[i].0));
  }

  /** Skipping edge `i` when it does not improve its neighbour extends the invariant too. */
  lemma RelaxSkips(adj: Adjacency, dist: map<Node, Cost>, d: nat, i: nat,
                   dist': map<Node, Cost>, pushed: seq<Entry>)
    requires i < |adj| && adj[i].0 in dist
    requires RelaxedPrefix(adj, dist, d, i, dist', pushed)
    requires !CostLess(Fin(d + adj[i].1), dist'[adj[i].0])
    ensures RelaxedPrefix(adj, dist, d, i + 1, dist', pushed)
  {
  }

  /** The inner loop of the algorithm: relax every edge of `u` in declaration order,
      lowering a neighbour's distance and queueing it only on strict improvement. */
  method Relax(g: Graph, dist: map<Node, Cost>, u: Node, d: nat) returns (dist': map<Node, Cost>, pushed: seq<Entry>)
    requires ValidGraph(g) && u in g && g.Keys <= dist.Keys
    ensures Relaxed(g, dist, u, d, dist', pushed)
    ensures forall j, k :: 0 <= j < k < |pushed| ==> pushed[j].1 != pushed[k].1
  {
    var adj := g[u];
    dist' := dist;
    pushed := [];
    var i := 0;
    RelaxStart(adj, dist, d);
    while i < |adj|
      invariant RelaxedPrefix(adj, dist, d, i, dist', pushed)
    {
      var v, w := adj[i].0, adj[i].1;
      var nd := d + w;
      if CostLess(Fin(nd), dist'[v]) {
        ghost var before, pushedBefore := dist', pushed;
        dist' := dist'[v := Fin(nd)];
        pushed := pushed + [(nd, v)];
        RelaxImproves(adj, dist, d, i, before, pushedBefore, dist', pushed);
      } else {
        RelaxSkips(adj, dist, d, i, dist', pushed);
      }
      i := i + 1;
    }
    RelaxDone(g, dist, u, d, dist', pushed);
  }

  lemma RelaxStart(adj: Adjacency, dist: map<Node, Cost>, d: nat)
    ensures RelaxedPrefix(adj, dist, d, 0, dist, [])
  {
  }

  /** The invariant over all edges of `u` is the specification of the relaxation. */
  lemma RelaxDone(g: Graph, dist: map<Node, Cost>, u: Node, d: nat, dist': map<Node, Cost>, pushed: seq<Entry>)
    requires ValidGraph(g) && u in g
    requires RelaxedPrefix(g[u], dist, d, |g[u]|, dist', pushed)
    ensures Relaxed(g, dist, u, d, dist', pushed)
  {
    var adj := g[u];
    forall v | v in Names(adj) ensures v in dist' && CostLeq(dist'[v], Fin(d + WeightOf(adj, v))) {
      var k :| 0 <= k < |adj| && Names(adj)[k] == v;
      WeightAtIndex(adj, k);
    }
  }

  /** The queue after the heap releases the entry at position `m`. */
  function RemoveAt(q: seq<Entry>, m: nat): (r: seq<Entry>)
    requires m < |q|
    ensures |r| == |q| - 1
    ensures multiset(r) == multiset(q) - multiset{q[m]}
    ensures forall e :: e in r ==> e in q
    ensures forall k :: 0 <= k < |q| && k != m ==> q[k] in r
  {
    var r := q[..m] + q[m + 1..];
    assert q == q[..m] + [q[m]] + q[m + 1..];
    assert forall k :: 0 <= k < |q| && k != m ==> q[k] == (if k < m then r[k] else r[k - 1]);
    r
  }

  /** `r` is the length of a shortest walk from `s` to `t`, or `Inf` when there is no walk. */
  ghost predicate IsShortest(g: Graph, s: Node, t: Node, r: Cost) {
    && (r.Fin? ==> HasWalk(g, s, t, r.n))
    && (forall p :: IsWalkFromTo(g, p, s, t) ==> CostLeq(r, Fin(PathCost(g, p))))
  }

  /** Every queue entry names a node that has a distance no larger than the entry's,
      and a walk from `start` of exactly the entry's length. Only the goal may name a
      node that is not a key of the graph. */
  ghost predicate QueueSound(g: Graph, start: Node, goal: Node, dist: map<Node, Cost>, queue: seq<Entry>) {
    forall e :: e in queue ==>
      && e.1 in dist
      && (e.1 in g || e.1 == goal)
      && CostLeq(dist[e.1], Fin(e.0))
      && HasWalk(g, start, e.1, e.0)
  }

  /** Every node with a finite distance that is not settled waits in the queue with it. */
  ghost predicate Pending(dist: map<Node, Cost>, queue: seq<Entry>, closed: set<Node>) {
    forall v :: v in dist && dist[v].Fin? && v !in closed ==> (dist[v].n, v) in queue
  }

  /** Node `c` has a finite distance and all its edges have been relaxed from it. */
  ghost predicate RelaxedAt(g: Graph, dist: map<Node, Cost>, c: Node) {
    && c in g && c in dist && dist[c].Fin?
    && forall v :: v in Names(g[c]) ==> v in dist && CostLeq(dist[v], Fin(dist[c].n + WeightOf(g[c], v)))
  }

  /** Settled nodes are no farther than anything still queued. */
  ghost predicate ClosedBelow(dist: map<Node, Cost>, queue: seq<Entry>, closed: set<Node>) {
    forall c, e :: c in closed && e in queue ==> c in dist && CostLeq(dist[c], Fin(e.0))
  }

  /** The invariant of the main loop; `closed` is the set of settled nodes, those
      whose edges were relaxed from their final distance. */
  ghost predicate Inv(g: Graph, start: Node, goal: Node, dist: map<Node, Cost>, queue: seq<Entry>, closed: set<Node>) {
    && dist.Keys == g.Keys + {start}
    && dist[start] == Fin(0)
    && closed <= g.Keys
    && goal !in closed
    && QueueSound(g, start, goal, dist, queue)
    && Pending(dist, queue, closed)
    && (forall c :: c in closed ==> RelaxedAt(g, dist, c))
    && ClosedBelow(dist, queue, closed)
  }

  /** Some queued entry is at most `c`. */
  ghost predicate QueueHasAtMost(queue: seq<Entry>, c: nat) {
    exists e :: e in queue && e.0 <= c
  }

  lemma InitInv(g: Graph, start: Node, goal: Node)
    requires start in g || start == goal
    ensures Inv(g, start, goal, (map v | v in g :: Inf)[start := Fin(0)], [(0, start)], {})
  {
    assert IsWalkFromTo(g, [start], start, start);
  }

  /** Along any walk from `start`, either the last node's distance is at most the walk's
      cost, or some queued entry is: the first unsettled node of the walk is queued with
      a distance no larger than the cost of the walk up to it. */
  lemma {:induction false} Frontier(g: Graph, start: Node, dist: map<Node, Cost>,
                                    queue: seq<Entry>, closed: set<Node>, p: seq<Node>)
    requires ValidGraph(g) && g.Keys <= dist.Keys && start in dist && dist[start] == Fin(0)
    requires Pending(dist, queue, closed)
    requires forall c :: c in closed ==> RelaxedAt(g, dist, c)
    requires IsWalk(g, p) && |p| > 0 && p[0] == start
    ensures p[|p| - 1] in dist
    ensures CostLeq(dist[p[|p| - 1]], Fin(PathCost(g, p))) || QueueHasAtMost(queue, PathCost(g, p))
    decreases |p|
  {
    if |p| > 1 {
      var q := p[..|p| - 1];
      assert IsWalk(g, q);
      Frontier(g, start, dist, queue, closed, q);
      var a, v := q[|q| - 1], p[|p| - 1];
      assert IsEdge(g, a, v);
      EdgeEnds(g, a, v);
      PathCostSnoc(g, q, v);
      assert p == q + [v];
      if QueueHasAtMost(queue, PathCost(g, q)) {
        var e :| e in queue && e.0 <= PathCost(g, q);
        assert QueueHasAtMost(queue, PathCost(g, p));
      } else {
        assert a in closed;
        assert RelaxedAt(g, dist, a);
        assert v in Names(g[a]);
      }
    }
  }

  /** A goal that is not settled and can be reached is still waiting in the queue. */
  lemma FrontierEntry(g: Graph, start: Node, goal: Node, dist: map<Node, Cost>,
                      queue: seq<Entry>, closed: set<Node>, p: seq<Node>)
    requires ValidGraph(g) && Inv(g, start, goal, dist, queue, closed)
    requires IsWalkFromTo(g, p, start, goal)
    ensures QueueHasAtMost(queue, PathCost(g, p))
  {
    Frontier(g, start, dist, queue, closed, p);
  }

  /** Popping the goal as the least entry yields the shortest distance. */
  lemma GoalPopped(g: Graph, start: Node, goal: Node, dist: map<Node, Cost>,
                   queue: seq<Entry>, closed: set<Node>, m: nat)
    requires ValidGraph(g) && Inv(g, start, goal, dist, queue, closed)
    requires m < |queue| && queue[m].1 == goal
    requires forall k :: 0 <= k < |queue| ==> EntryLeq(queue[m], queue[k])
    ensures IsShortest(g, start, goal, Fin(queue[m].0))
  {
    assert queue[m] in queue;
    forall p | IsWalkFromTo(g, p, start, goal) ensures queue[m].0 <= PathCost(g, p) {
      FrontierEntry(g, start, goal, dist, queue, closed, p);
      var e :| e in queue && e.0 <= PathCost(g, p);
      var k :| 0 <= k < |queue| && queue[k] == e;
    }
  }

  /** An empty queue means the goal cannot be reached. */
  lemma Exhausted(g: Graph, start: Node, goal: Node, dist: map<Node, Cost>, closed: set<Node>)
    requires ValidGraph(g) && Inv(g, start, goal, dist, [], closed)
    ensures IsShortest(g, start, goal, Inf)
  {
    forall p | IsWalkFromTo(g, p, start, goal) ensures false {
      FrontierEntry(g, start, goal, dist, [], closed, p);
    }
  }

  /** The least entry is either a stale copy for a settled node or carries its node's
      current distance: a smaller distance would be queued and popped first. */
  lemma PopChoice(g: Graph, start: Node, goal: Node, dist: map<Node, Cost>,
                  queue: seq<Entry>, closed: set<Node>, m: nat)
    requires Inv(g, start, goal, dist, queue, closed)
    requires m < |queue| && queue[m].1 != goal
    requires forall k :: 0 <= k < |queue| ==> EntryLeq(queue[m], queue[k])
    ensures queue[m].1 in g && queue[m].1 in dist
    ensures CostLeq(dist[queue[m].1], Fin(queue[m].0))
    ensures HasWalk(g, start, queue[m].1, queue[m].0)
    ensures queue[m].1 in closed || dist[queue[m].1] == Fin(queue[m].0)
  {
    var u := queue[m].1;
    assert queue[m] in queue;
    if u !in closed {
      assert (dist[u].n, u) in queue;
      var k :| 0 <= k < |queue| && queue[k] == (dist[u].n, u);
      assert EntryLeq(queue[m], queue[k]);
    }
  }

  /** Relaxing from a settled node again, at a distance no smaller than its own,
      improves nothing. */
  lemma StaleRelax(g: Graph, dist: map<Node, Cost>, u: Node, d: nat, dist': map<Node, Cost>, pushed: seq<Entry>)
    requires RelaxedAt(g, dist, u) && CostLeq(dist[u], Fin(d))
    requires Relaxed(g, dist, u, d, dist', pushed)
    ensures pushed == [] && dist' == dist
  {
    assert forall v :: v in Names(g[u]) ==> !CostLess(Fin(d + WeightOf(g[u], v)), dist[v]);
    NonEmptyHead(pushed);
    assert forall v :: v in dist ==> dist'[v] == dist[v];
  }

  /** Settled nodes, including the one just popped, keep their distance. */
  lemma ClosedKept(g: Graph, dist: map<Node, Cost>, queue: seq<Entry>, closed: set<Node>,
                   m: nat, dist': map<Node, Cost>, pushed: seq<Entry>)
    requires m < |queue| && queue[m].1 in g && queue[m].1 in dist
    requires ClosedBelow(dist, queue, closed) && (forall c :: c in closed ==> RelaxedAt(g, dist, c))
    requires CostLeq(dist[queue[m].1], Fin(queue[m].0))
    requires Relaxed(g, dist, queue[m].1, queue[m].0, dist', pushed)
    ensures forall c :: c in closed + {queue[m].1} ==> c in dist && dist'[c] == dist[c]
  {
    assert queue[m] in queue;
  }

  lemma StepQueueSound(g: Graph, start: Node, goal: Node, dist: map<Node, Cost>,
                       queue: seq<Entry>, m: nat, dist': map<Node, Cost>, pushed: seq<Entry>)
    requires ValidGraph(g) && m < |queue| && queue[m].1 in g
    requires QueueSound(g, start, goal, dist, queue)
    requires HasWalk(g, start, queue[m].1, queue[m].0)
    requires Relaxed(g, dist, queue[m].1, queue[m].0, dist', pushed)
    ensures QueueSound(g, start, goal, dist', RemoveAt(queue, m) + pushed)
  {
    var u, d := queue[m].1, queue[m].0;
    forall e | e in RemoveAt(queue, m) + pushed
      ensures && e.1 in dist'
              && (e.1 in g || e.1 == goal)
              && CostLeq(dist'[e.1], Fin(e.0))
              && HasWalk(g, start, e.1, e.0)
    {
      if e in pushed {
        var j :| 0 <= j < |pushed| && pushed[j] == e;
        assert IsEdge(g, u, e.1);
        HasWalkExtend(g, start, u, d, e.1);
        var k :| 0 <= k < |g[u]| && Names(g[u])[k] == e.1;
      }
    }
  }

  lemma StepPending(dist: map<Node, Cost>, queue: seq<Entry>, closed: set<Node>, m: nat,
                    g: Graph, dist': map<Node, Cost>, pushed: seq<Entry>)
    requires m < |queue| && queue[m].1 in g
    requires Pending(dist, queue, closed)
    requires Relaxed(g, dist, queue[m].1, queue[m].0, dist', pushed)
    ensures Pending(dist', RemoveAt(queue, m) + pushed, closed + {queue[m].1})
  {
    forall v | v in dist' && dist'[v].Fin? && v !in closed + {queue[m].1}
      ensures (dist'[v].n, v) in RemoveAt(queue, m) + pushed
    {
      if dist'[v] == dist[v] {
        var k :| 0 <= k < |queue| && queue[k] == (dist[v].n, v);
        assert k != m;
      }
    }
  }

  /** Settled nodes, now including the popped one, stay relaxed. */
  lemma StepRelaxed(g: Graph, dist: map<Node, Cost>, queue: seq<Entry>, closed: set<Node>, m: nat,
                    dist': map<Node, Cost>, pushed: seq<Entry>)
    requires m < |queue| && queue[m].1 in g && queue[m].1 in dist
    requires ClosedBelow(dist, queue, closed) && (forall c :: c in closed ==> RelaxedAt(g, dist, c))
    requires queue[m].1 in closed || dist[queue[m].1] == Fin(queue[m].0)
    requires Relaxed(g, dist, queue[m].1, queue[m].0, dist', pushed)
    ensures forall c :: c in closed + {queue[m].1} ==> RelaxedAt(g, dist', c)
  {
    var u := queue[m].1;
    ClosedKept(g, dist, queue, closed, m, dist', pushed);
    forall c | c in closed + {u} ensures RelaxedAt(g, dist', c) {
      if c in closed {
        assert RelaxedAt(g, dist, c);
      }
    }
  }

  /** Settled nodes, now including the popped one, are no farther than anything queued. */
  lemma StepBelow(g: Graph, dist: map<Node, Cost>, queue: seq<Entry>, closed: set<Node>, m: nat,
                  dist': map<Node, Cost>, pushed: seq<Entry>)
    requires m < |queue| && queue[m].1 in g && queue[m].1 in dist
    requires forall k :: 0 <= k < |queue| ==> EntryLeq(queue[m], queue[k])
    requires ClosedBelow(dist, queue, closed) && (forall c :: c in closed ==> RelaxedAt(g, dist, c))
    requires queue[m].1 in closed || dist[queue[m].1] == Fin(queue[m].0)
    requires Relaxed(g, dist, queue[m].1, queue[m].0, dist', pushed)
    ensures ClosedBelow(dist', RemoveAt(queue, m) + pushed, closed + {queue[m].1})
  {
    var u, d := queue[m].1, queue[m].0;
    assert queue[m] in queue;
    ClosedKept(g, dist, queue, closed, m, dist', pushed);
    forall c, e | c in closed + {u} && e in RemoveAt(queue, m) + pushed
      ensures c in dist' && CostLeq(dist'[c], Fin(e.0))
    {
      if e in pushed {
        var j :| 0 <= j < |pushed| && pushed[j] == e;
      } else if c == u {
        var k :| 0 <= k < |queue| && queue[k] == e;
        assert EntryLeq(queue[m], queue[k]);
      }
    }
  }

  /** One round of the main loop keeps the invariant. */
  lemma Step(g: Graph, start: Node, goal: Node, dist: map<Node, Cost>,
             queue: seq<Entry>, closed: set<Node>, m: nat, dist': map<Node, Cost>, pushed: seq<Entry>)
    requires ValidGraph(g) && Inv(g, start, goal, dist, queue, closed)
    requires m < |queue| && queue[m].1 != goal
    requires forall k :: 0 <= k < |queue| ==> EntryLeq(queue[m], queue[k])
    requires queue[m].1 in g && Relaxed(g, dist, queue[m].1, queue[m].0, dist', pushed)
    ensures Inv(g, start, goal, dist', RemoveAt(queue, m) + pushed, closed + {queue[m].1})
    ensures queue[m].1 in closed ==> pushed == []
  {
    var u := queue[m].1;
    PopChoice(g, start, goal, dist, queue, closed, m);
    StepQueueSound(g, start, goal, dist, queue, m, dist', pushed);
    StepPending(dist, queue, closed, m, g, dist', pushed);
    StepRelaxed(g, dist, queue, closed, m, dist', pushed);
    StepBelow(g, dist, queue, closed, m, dist', pushed);
    if u in closed {
      StaleRelax(g, dist, u, queue[m].0, dist', pushed);
    }
    assert dist'[start] == Fin(0);
  }

  /** The termination measure: settling a new node shrinks the unsettled part of the
      distance map; popping a stale entry leaves it and pushes nothing. */
  lemma StepDecreases(dist: map<Node, Cost>, closed: set<Node>, u: Node)
    requires u in dist
    ensures u !in closed ==> |dist.Keys - (closed + {u})| < |dist.Keys - closed|
    ensures u in closed ==> closed + {u} == closed
  {
    if u !in closed {
      assert dist.Keys - closed == (dist.Keys - (closed + {u})) + {u};
    }
  }

  /** A walk of length zero is always available from a node to itself. */
  lemma ShortestToSelf(g: Graph, s: Node, r: Cost)
    requires IsShortest(g, s, s, r)
    ensures r == Fin(0)
  {
    assert IsWalkFromTo(g, [s], s, s);
  }

  lemma ShortestInf(g: Graph, s: Node, t: Node, r: Cost)
    requires IsShortest(g, s, t, r)
    ensures r == Inf <==> !Reachable(g, s, t)
  {
    if r.Fin? {
      var p :| IsWalkFromTo(g, p, s, t) && PathCost(g, p) == r.n;
    }
  }

  /** The shortest distance is unique. */
  lemma ShortestUnique(g: Graph, s: Node, t: Node, r1: Cost, r2: Cost)
    requires IsShortest(g, s, t, r1) && IsShortest(g, s, t, r2)
    ensures r1 == r2
  {
    if r1.Fin? {
      var p :| IsWalkFromTo(g, p, s, t) && PathCost(g, p) == r1.n;
    }
    if r2.Fin? {
      var p :| IsWalkFromTo(g, p, s, t) && PathCost(g, p) == r2.n;
    }
  }

  /** The oracle: the distance of a shortest walk from `start` to `goal`, `Inf` when
      there is none. The start must be a key unless it is the goal itself. */
  method Dijkstra(g: Graph, start: Node, goal: Node) returns (r: Cost)
    requires ValidGraph(g) && (start in g || start == goal)
    ensures IsShortest(g, start, goal, r)
    ensures r == Inf <==> !Reachable(g, start, goal)
    ensures start == goal ==> r == Fin(0)
  {
    var dist := (map v | v in g :: Inf)[start := Fin(0)];
    var queue: seq<Entry> := [(0, start)];
    ghost var closed: set<Node> := {};
    InitInv(g, start, goal);
    while |queue| > 0
      invariant Inv(g, start, goal, dist, queue, closed)
      decreases |dist.Keys - closed|, |queue|
    {
      var m := ArgMin(queue);
      var d, u := queue[m].0, queue[m].1;
      if u == goal {
        GoalPopped(g, start, goal, dist, queue, closed, m);
        r := Fin(d);
        ShortestInf(g, start, goal, r);
        if start == goal {
          ShortestToSelf(g, start, r);
        }
        return;
      }
      PopChoice(g, start, goal, dist, queue, closed, m);
      var dist', pushed := Relax(g, dist, u, d);
      Step(g, start, goal, dist, queue, closed, m, dist', pushed);
      StepDecreases(dist, closed, u);
      queue := RemoveAt(queue, m) + pushed;
      dist := dist';
      closed := closed + {u};
    }
    Exhausted(g, start, goal, dist, closed);
    r := Inf;
    ShortestInf(g, start, goal, r);
    if start == goal {
      ShortestToSelf(g, start, r);
    }
  }
}
