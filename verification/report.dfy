/** The search driver: run the depth-limited search from an empty state, price the
    path it found, ask the shortest-path oracle for the best price, and report both
    together with the exploration counts. */
module Report {
  import opened Graphs
  import opened DepthLimited
  import opened ShortestPath

  datatype Option<T> = None | Some(value: T)

  /** The statistics of one run, without the timing and memory figures. */
  datatype Statistics = Statistics(
    visitedCount: nat,
    exploredCount: nat,
    isOptimal: bool,
    dlsDistance: Cost,
    optimalDistance: Cost)

  /** Sum of the edge weights between consecutive nodes of `p`, accumulated from the
      front as the driver's generator expression does. */
  method WalkCost(g: Graph, p: seq<Node>) returns (s: nat)
    requires IsWalk(g, p)
    ensures s == PathCost(g, p)
  {
    s := 0;
    if |p| == 0 {
      return;
    }
    var i := 0;
    while i < |p| - 1
      invariant 0 <= i <= |p| - 1
      invariant IsWalk(g, p[..i + 1])
      invariant s == PathCost(g, p[..i + 1])
    {
      var q := p[..i + 2];
      assert q[..i + 1] == p[..i + 1];
      assert IsEdge(g, p[i], p[i + 1]);
      PathCostSnoc(g, p[..i + 1], p[i + 1]);
      assert p[..i + 1] + [p[i + 1]] == q;
      s := s + EdgeWeight(g, p[i], p[i + 1]);
      i := i + 1;
    }
    assert p[..i + 1] == p;
  }

  /** The price the report gives the depth-limited search: the cost of its path, or
      infinity when it found none. */
  method DlsDistance(g: Graph, found: bool, path: seq<Node>) returns (c: Cost)
    requires found ==> IsWalk(g, path)
    ensures found ==> c == Fin(PathCost(g, path))
    ensures !found ==> c == Inf
  {
    if found {
      var s := WalkCost(g, path);
      c := Fin(s);
    } else {
      c := Inf;
    }
  }

  /** One run of the driver: the path (absent when the search failed), the exploration
      log and the statistics. The oracle needs the start to be a key unless it is the
      goal, and every neighbour to be a key. */
  method Run(g: Graph, start: Node, goal: Node, limit: int)
    returns (path: Option<seq<Node>>, explored: seq<Node>, stats: Statistics)
    requires ValidGraph(g) && (start in g || start == goal)
    ensures explored == Search(g, start, goal, limit).1.explored
    ensures path.Some? <==> Search(g, start, goal, limit).0
    ensures path.Some? ==> && path.value == Search(g, start, goal, limit).1.path
                           && IsWalkFromTo(g, path.value, start, goal)
                           && (limit >= 0 ==> |path.value| <= limit + 1)
                           && stats.dlsDistance == Fin(PathCost(g, path.value))
    ensures path.None? ==> stats.dlsDistance == Inf
    ensures stats.visitedCount == stats.exploredCount == |explored|
    ensures IsShortest(g, start, goal, stats.optimalDistance)
    ensures stats.isOptimal <==> stats.dlsDistance == stats.optimalDistance
    ensures CostLeq(stats.optimalDistance, stats.dlsDistance)
    ensures limit < 0 ==> (path.Some? <==> Reachable(g, start, goal))
    ensures start == goal ==> && path == Some([start]) && explored == [start]
                              && stats.dlsDistance == Fin(0) && stats.isOptimal
  {
    var r := Search(g, start, goal, limit);
    var found, st := r.0, r.1;
    var dlsDistance := DlsDistance(g, found, st.path);
    var optimal := Dijkstra(g, start, goal);
    if found {
      assert IsWalkFromTo(g, st.path, start, goal);
    }
    if limit < 0 {
      NegativeLimitComplete(g, start, goal, limit);
    }
    if start == goal {
      StartIsGoal(g, start, limit);
    }
    stats := Statistics(|st.visited|, |st.explored|, dlsDistance == optimal, dlsDistance, optimal);
    path := if found then Some(st.path) else None;
    explored := st.explored;
  }
}
