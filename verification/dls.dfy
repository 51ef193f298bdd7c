/** Depth-limited depth-first search with a visited set that is never cleared on
    backtracking, threading an explicit search state through the recursion. */
module DepthLimited {
  import opened Sequences
  import opened Graphs

  /** The three accumulators of the search: nodes marked visited, the branch
      currently being followed, and the log of every node entered, in order. */
  datatype SearchState = SearchState(visited: set<Node>, path: seq<Node>, explored: seq<Node>)

  const Initial := SearchState({}, [], [])

  /** The log never repeats a node and holds exactly the visited nodes. */
  ghost predicate Consistent(st: SearchState) {
    NoDup(st.explored) && st.visited == Elems(st.explored)
  }

  /** Every node the search can ever enter: the keys and every named neighbour. */
  ghost function Universe(g: Graph): set<Node> {
    g.Keys + set u, k | u in g && 0 <= k < |g[u]| :: g[u][k].0
  }

  /** `after` only appended to the log of `before` and marked more nodes visited. */
  ghost predicate Grows(before: SearchState, after: SearchState) {
    && |before.explored| <= |after.explored|
    && after.explored[..|before.explored|] == before.explored
    && before.visited <= after.visited
  }

  /** The nodes entered between `before` and `after`. */
  ghost function Fresh(before: SearchState, after: SearchState): seq<Node>
    requires |before.explored| <= |after.explored|
  {
    after.explored[|before.explored|..]
  }

  /** The first node entered between `before` and `after` is `node`. */
  ghost predicate EnteredFirst(before: SearchState, after: SearchState, node: Node) {
    |before.explored| < |after.explored| && after.explored[|before.explored|] == node
  }

  /** The search between `before` and `after` reached `goal`: `goal` is the last node
      entered, and the branch was extended by a walk ending at `goal` that has at
      most `limit + 1` nodes when `limit` is non-negative. */
  ghost predicate Succeeded(g: Graph, before: SearchState, after: SearchState, goal: Node, limit: int) {
    && |before.explored| < |after.explored|
    && after.explored[|after.explored| - 1] == goal
    && |before.path| < |after.path|
    && after.path[..|before.path|] == before.path
    && var w := after.path[|before.path|..];
       && w[|w| - 1] == goal
       && IsWalk(g, w)
       && (limit >= 0 ==> |w| <= limit + 1)
  }

  /** The search between `before` and `after` gave up: the branch is back where it
      was and `goal` was never entered. */
  ghost predicate Backtracked(before: SearchState, after: SearchState, goal: Node) {
    && after.path == before.path
    && |before.explored| <= |after.explored|
    && goal !in Fresh(before, after)
  }

  /** Every neighbour of `from` from index `i` on is in `visited`. */
  ghost predicate AllMarked(g: Graph, from: Node, i: nat, visited: set<Node>) {
    forall k :: i <= k < |Adj(g, from)| ==> Adj(g, from)[k].0 in visited
  }

  /** Every neighbour of every node of `nodes` lies in `reached`. */
  ghost predicate ClosedUnder(g: Graph, nodes: seq<Node>, reached: set<Node>) {
    forall x :: x in nodes ==> forall y :: y in Names(Adj(g, x)) ==> y in reached
  }

  /** The state right after `node` is entered: marked, pushed and logged. */
  function Enter(st: SearchState, node: Node): SearchState {
    SearchState(st.visited + {node}, st.path + [node], st.explored + [node])
  }

  /** Backtracking: drop the last node of the current branch. */
  function Pop(st: SearchState): SearchState
    requires |st.path| > 0
  {
    st.(path := st.path[..|st.path| - 1])
  }

  /** Enter `node` with `limit` levels left. Returns whether `goal` was reached and
      the updated state. The goal test comes before the depth test, so the goal is
      found even at depth zero; the depth test is `limit == 0`, so a negative limit
      never cuts the search off. */
  function Dls(g: Graph, node: Node, goal: Node, limit: int, st: SearchState): (r: (bool, SearchState))
    requires Consistent(st) && node !in st.visited
    ensures Consistent(r.1) && Grows(st, r.1) && EnteredFirst(st, r.1, node) && node in r.1.visited
    ensures r.0 ==> Succeeded(g, st, r.1, goal, limit) && r.1.path[|st.path|] == node
    ensures !r.0 ==> Backtracked(st, r.1, goal)
    decreases |(Universe(g) + {node}) - st.visited|, 0, 0
  {
    var st1 := Enter(st, node);
    EnterPreserves(st, node);
    EnterDecreases(g, st, node);
    if node == goal then
      EnterFound(g, st, node, limit);
      (true, st1)
    else if limit == 0 then
      CutOff(st, node, goal);
      (false, Pop(st1))
    else
      var r := TryNeighbours(g, node, 0, goal, limit - 1, st1);
      if r.0 then
        ExpandFound(g, st, r.1, node, goal, limit);
        r
      else
        ExpandFailed(st, r.1, node, goal);
        (false, Pop(r.1))
  }

  /** Try the neighbours of `from` from index `i` on, in declaration order, skipping
      those already visited, and stop at the first that leads to `goal`. `limit` is
      the depth left for the neighbours themselves. */
  function TryNeighbours(g: Graph, from: Node, i: nat, goal: Node, limit: int, st: SearchState): (r: (bool, SearchState))
    requires Consistent(st) && i <= |Adj(g, from)|
    ensures Consistent(r.1) && Grows(st, r.1)
    ensures r.0 ==> Succeeded(g, st, r.1, goal, limit) && IsEdge(g, from, r.1.path[|st.path|])
    ensures !r.0 ==> Backtracked(st, r.1, goal) && AllMarked(g, from, i, r.1.visited)
    decreases |Universe(g) - st.visited|, 1, |Adj(g, from)| - i
  {
    if i == |Adj(g, from)| then
      NoNeighboursLeft(g, from, i, goal, st);
      (false, st)
    else
      var nb := Adj(g, from)[i].0;
      NeighbourInUniverse(g, from, i);
      if nb in st.visited then
        var r := TryNeighbours(g, from, i + 1, goal, limit, st);
        SkipVisited(g, from, i, st, r);
        r
      else
        var r1 := Dls(g, nb, goal, limit, st);
        if r1.0 then
          r1
        else
          SubsetCardinality(Universe(g) - r1.1.visited, Universe(g) - st.visited);
          var r2 := TryNeighbours(g, from, i + 1, goal, limit, r1.1);
          SiblingsChain(g, from, i, st, r1.1, r2, goal, limit);
          r2
  }

  lemma SubsetCardinality<T>(a: set<T>, b: set<T>)
    requires a <= b
    ensures |a| <= |b|
  {
    assert b == a + (b - a);
  }

  lemma NeighbourInUniverse(g: Graph, from: Node, i: nat)
    requires i < |Adj(g, from)|
    ensures IsEdge(g, from, Adj(g, from)[i].0)
    ensures Adj(g, from)[i].0 in Universe(g)
    ensures Universe(g) + {Adj(g, from)[i].0} == Universe(g)
  {
    assert Names(Adj(g, from))[i] == Adj(g, from)[i].0;
    assert from in g;
  }

  /** Entering an unvisited node keeps the log duplicate-free and equal to the visited set. */
  lemma EnterPreserves(st: SearchState, node: Node)
    requires Consistent(st) && node !in st.visited
    ensures Consistent(Enter(st, node)) && Grows(st, Enter(st, node))
    ensures EnteredFirst(st, Enter(st, node), node)
  {
    var e := st.explored + [node];
    ElemsSnoc(st.explored, node);
    ElemsMember(st.explored, node);
    assert e[..|e| - 1] == st.explored;
  }

  lemma EnterDecreases(g: Graph, st: SearchState, node: Node)
    requires node !in st.visited
    ensures |Universe(g) - Enter(st, node).visited| < |(Universe(g) + {node}) - st.visited|
  {
    assert (Universe(g) + {node}) - st.visited == (Universe(g) - Enter(st, node).visited) + {node};
  }

  lemma EnterFound(g: Graph, st: SearchState, node: Node, limit: int)
    ensures limit >= 0 ==> Succeeded(g, st, Enter(st, node), node, limit)
    ensures Succeeded(g, st, Enter(st, node), node, -1)
    ensures Enter(st, node).path[|st.path|] == node
  {
    var st1 := Enter(st, node);
    assert st1.path[..|st.path|] == st.path;
    assert st1.path[|st.path|..] == [node];
  }

  lemma CutOff(st: SearchState, node: Node, goal: Node)
    requires Consistent(Enter(st, node)) && Grows(st, Enter(st, node)) && node != goal
    ensures Consistent(Pop(Enter(st, node))) && Grows(st, Pop(Enter(st, node)))
    ensures EnteredFirst(st, Pop(Enter(st, node)), node)
    ensures Backtracked(st, Pop(Enter(st, node)), goal)
  {
    assert Fresh(st, Enter(st, node)) == [node];
    assert (st.path + [node])[..|st.path|] == st.path;
  }

  /** Success below `node`: the walk found among the neighbours, with `node` in front. */
  lemma ExpandFound(g: Graph, st: SearchState, st2: SearchState, node: Node, goal: Node, limit: int)
    requires Grows(st, Enter(st, node)) && Grows(Enter(st, node), st2) && limit != 0
    requires Succeeded(g, Enter(st, node), st2, goal, limit - 1)
    requires IsEdge(g, node, st2.path[|st.path| + 1])
    ensures Grows(st, st2) && EnteredFirst(st, st2, node)
    ensures Succeeded(g, st, st2, goal, limit)
    ensures st2.path[|st.path|] == node
  {
    var st1 := Enter(st, node);
    var w1 := st2.path[|st1.path|..];
    var w := st2.path[|st.path|..];
    assert st2.path[..|st1.path|] == st.path + [node];
    assert st2.path[..|st.path|] == st.path;
    assert w == [node] + w1;
    assert st2.explored[..|st.explored|] == st.explored;
    assert st2.explored[|st.explored|] == st2.explored[..|st1.explored|][|st.explored|];
    assert IsWalk(g, w);
  }

  /** Failure below `node`: popping `node` restores the branch. */
  lemma ExpandFailed(st: SearchState, st2: SearchState, node: Node, goal: Node)
    requires Grows(st, Enter(st, node)) && Grows(Enter(st, node), st2) && node != goal
    requires Consistent(st2) && Backtracked(Enter(st, node), st2, goal)
    ensures Consistent(Pop(st2)) && Grows(st, Pop(st2)) && EnteredFirst(st, Pop(st2), node)
    ensures Backtracked(st, Pop(st2), goal)
    ensures Fresh(st, Pop(st2)) == [node] + Fresh(Enter(st, node), st2)
  {
    assert st2.explored[..|st.explored|] == st.explored;
    assert st2.explored[|st.explored|] == st2.explored[..|st.explored| + 1][|st.explored|];
    assert Fresh(st, st2) == [node] + Fresh(Enter(st, node), st2);
    assert (st.path + [node])[..|st.path|] == st.path;
  }

  lemma NoNeighboursLeft(g: Graph, from: Node, i: nat, goal: Node, st: SearchState)
    requires i == |Adj(g, from)|
    ensures Grows(st, st) && Backtracked(st, st, goal) && AllMarked(g, from, i, st.visited)
  {
    assert Fresh(st, st) == [];
  }

  lemma SkipVisited(g: Graph, from: Node, i: nat, st: SearchState, r: (bool, SearchState))
    requires i < |Adj(g, from)| && Adj(g, from)[i].0 in st.visited
    requires Grows(st, r.1) && (!r.0 ==> AllMarked(g, from, i + 1, r.1.visited))
    ensures !r.0 ==> AllMarked(g, from, i, r.1.visited)
  {
  }

  /** A failed sibling followed by the remaining siblings. */
  lemma SiblingsChain(g: Graph, from: Node, i: nat, st: SearchState, st1: SearchState,
                      r2: (bool, SearchState), goal: Node, limit: int)
    requires i < |Adj(g, from)| && Adj(g, from)[i].0 in st1.visited
    requires Grows(st, st1) && Grows(st1, r2.1) && Backtracked(st, st1, goal)
    requires r2.0 ==> Succeeded(g, st1, r2.1, goal, limit) && IsEdge(g, from, r2.1.path[|st1.path|])
    requires !r2.0 ==> Backtracked(st1, r2.1, goal) && AllMarked(g, from, i + 1, r2.1.visited)
    ensures Grows(st, r2.1)
    ensures Fresh(st, r2.1) == Fresh(st, st1) + Fresh(st1, r2.1)
    ensures r2.0 ==> Succeeded(g, st, r2.1, goal, limit) && IsEdge(g, from, r2.1.path[|st.path|])
    ensures !r2.0 ==> Backtracked(st, r2.1, goal) && AllMarked(g, from, i, r2.1.visited)
  {
    var st2 := r2.1;
    assert st2.explored[..|st.explored|] == st2.explored[..|st1.explored|][..|st.explored|];
    assert Fresh(st, st2) == Fresh(st, st1) + Fresh(st1, st2);
  }

  /** Nodes of a failed sibling's region stay closed as the visited set grows, and
      the next siblings' region joins them. */
  lemma ClosedUnderConcat(g: Graph, a: seq<Node>, b: seq<Node>, v1: set<Node>, v: set<Node>)
    requires ClosedUnder(g, a, v1) && v1 <= v && ClosedUnder(g, b, v)
    ensures ClosedUnder(g, a + b, v)
  {
  }

  /** On success, the walk pushed on the branch was entered in that order. */
  lemma {:induction false} DlsOrder(g: Graph, node: Node, goal: Node, limit: int, st: SearchState)
    requires Consistent(st) && node !in st.visited
    ensures var r := Dls(g, node, goal, limit, st);
            r.0 ==> Subseq(r.1.path[|st.path|..], Fresh(st, r.1))
    decreases |(Universe(g) + {node}) - st.visited|, 0, 0
  {
    var st1 := Enter(st, node);
    EnterPreserves(st, node);
    EnterDecreases(g, st, node);
    if node == goal {
      assert st1.path[|st.path|..] == [node];
      assert Fresh(st, st1) == [node];
      assert Subseq([node][1..], [node][1..]);
    } else if limit != 0 {
      TryOrder(g, node, 0, goal, limit - 1, st1);
      var r := TryNeighbours(g, node, 0, goal, limit - 1, st1);
      if r.0 {
        OrderPrepend(g, st, r.1, node, goal, limit - 1);
      }
    }
  }

  lemma OrderPrepend(g: Graph, st: SearchState, st2: SearchState, node: Node, goal: Node, limit: int)
    requires Grows(Enter(st, node), st2) && Succeeded(g, Enter(st, node), st2, goal, limit)
    requires Subseq(st2.path[|st.path| + 1..], Fresh(Enter(st, node), st2))
    ensures |st.explored| <= |st2.explored|
    ensures Subseq(st2.path[|st.path|..], Fresh(st, st2))
  {
    var st1 := Enter(st, node);
    var w1 := st2.path[|st1.path|..];
    assert st2.path[..|st1.path|] == st.path + [node];
    assert st2.path[|st.path|..] == [node] + w1;
    assert st2.explored[..|st1.explored|] == st.explored + [node];
    assert Fresh(st, st2) == [node] + Fresh(st1, st2);
    SubseqCons(node, w1, Fresh(st1, st2));
  }

  lemma {:induction false} TryOrder(g: Graph, from: Node, i: nat, goal: Node, limit: int, st: SearchState)
    requires Consistent(st) && i <= |Adj(g, from)|
    ensures var r := TryNeighbours(g, from, i, goal, limit, st);
            r.0 ==> Subseq(r.1.path[|st.path|..], Fresh(st, r.1))
    decreases |Universe(g) - st.visited|, 1, |Adj(g, from)| - i
  {
    if i < |Adj(g, from)| {
      var nb := Adj(g, from)[i].0;
      NeighbourInUniverse(g, from, i);
      if nb in st.visited {
        TryOrder(g, from, i + 1, goal, limit, st);
      } else {
        DlsOrder(g, nb, goal, limit, st);
        var r1 := Dls(g, nb, goal, limit, st);
        if !r1.0 {
          SubsetCardinality(Universe(g) - r1.1.visited, Universe(g) - st.visited);
          TryOrder(g, from, i + 1, goal, limit, r1.1);
          var r2 := TryNeighbours(g, from, i + 1, goal, limit, r1.1);
          SiblingsChain(g, from, i, st, r1.1, r2, goal, limit);
          if r2.0 {
            SubseqPrepend(r2.1.path[|st.path|..], Fresh(st, r1.1), Fresh(r1.1, r2.1));
          }
        }
      }
    }
  }

  /** With a negative limit nothing is cut off: when the search below `node` fails,
      every neighbour of every node it entered has been visited. */
  lemma {:induction false} DlsClosure(g: Graph, node: Node, goal: Node, limit: int, st: SearchState)
    requires Consistent(st) && node !in st.visited && limit < 0
    ensures var r := Dls(g, node, goal, limit, st);
            !r.0 ==> ClosedUnder(g, Fresh(st, r.1), r.1.visited)
    decreases |(Universe(g) + {node}) - st.visited|, 0, 0
  {
    var st1 := Enter(st, node);
    EnterPreserves(st, node);
    EnterDecreases(g, st, node);
    if node != goal {
      TryClosure(g, node, 0, goal, limit - 1, st1);
      var r := TryNeighbours(g, node, 0, goal, limit - 1, st1);
      if !r.0 {
        ExpandFailed(st, r.1, node, goal);
        forall y | y in Names(Adj(g, node))
          ensures y in r.1.visited
        {
          var k :| 0 <= k < |Adj(g, node)| && Names(Adj(g, node))[k] == y;
        }
        assert ClosedUnder(g, [node], r.1.visited);
        ClosedUnderConcat(g, [node], Fresh(st1, r.1), r.1.visited, r.1.visited);
      }
    }
  }

  lemma {:induction false} TryClosure(g: Graph, from: Node, i: nat, goal: Node, limit: int, st: SearchState)
    requires Consistent(st) && i <= |Adj(g, from)| && limit < 0
    ensures var r := TryNeighbours(g, from, i, goal, limit, st);
            !r.0 ==> ClosedUnder(g, Fresh(st, r.1), r.1.visited)
    decreases |Universe(g) - st.visited|, 1, |Adj(g, from)| - i
  {
    if i == |Adj(g, from)| {
      assert Fresh(st, st) == [];
    } else {
      var nb := Adj(g, from)[i].0;
      NeighbourInUniverse(g, from, i);
      if nb in st.visited {
        TryClosure(g, from, i + 1, goal, limit, st);
      } else {
        DlsClosure(g, nb, goal, limit, st);
        var r1 := Dls(g, nb, goal, limit, st);
        if !r1.0 {
          SubsetCardinality(Universe(g) - r1.1.visited, Universe(g) - st.visited);
          TryClosure(g, from, i + 1, goal, limit, r1.1);
          var r2 := TryNeighbours(g, from, i + 1, goal, limit, r1.1);
          SiblingsChain(g, from, i, st, r1.1, r2, goal, limit);
          if !r2.0 {
            ClosedUnderConcat(g, Fresh(st, r1.1), Fresh(r1.1, r2.1), r1.1.visited, r2.1.visited);
          }
        }
      }
    }
  }

  /** The search as the program starts it, from `start` with empty accumulators.
      Success yields a walk from `start` to `goal` of at most `limit + 1` nodes when
      the limit is non-negative; failure leaves an empty branch; either way the log
      starts with `start` and has as many entries as there are visited nodes. */
  function Search(g: Graph, start: Node, goal: Node, limit: int): (r: (bool, SearchState))
    ensures Consistent(r.1) && |r.1.visited| == |r.1.explored|
    ensures |r.1.explored| > 0 && r.1.explored[0] == start
    ensures r.0 ==> && IsWalkFromTo(g, r.1.path, start, goal)
                    && (limit >= 0 ==> |r.1.path| <= limit + 1)
                    && r.1.explored[|r.1.explored| - 1] == goal
    ensures !r.0 ==> r.1.path == [] && goal !in r.1.explored
  {
    assert Consistent(Initial);
    var r := Dls(g, start, goal, limit, Initial);
    NoDupCard(r.1.explored);
    assert r.1.path[0..] == r.1.path;
    assert Fresh(Initial, r.1) == r.1.explored;
    r
  }

  /** No node is logged twice: the exploration log's positions hold distinct nodes. */
  lemma SearchLogDistinct(g: Graph, start: Node, goal: Node, limit: int)
    ensures var e := Search(g, start, goal, limit).1.explored;
            forall i, j :: 0 <= i < j < |e| ==> e[i] != e[j]
  {
    NoDupPairwise(Search(g, start, goal, limit).1.explored);
  }

  /** The goal is found at once, whatever the limit, when it is the start. */
  lemma StartIsGoal(g: Graph, start: Node, limit: int)
    ensures Search(g, start, start, limit) == (true, SearchState({start}, [start], [start]))
  {
    assert Enter(Initial, start) == SearchState({start}, [start], [start]);
  }

  /** A zero limit gives up right after entering the start, unless it is the goal. */
  lemma ZeroLimit(g: Graph, start: Node, goal: Node)
    requires start != goal
    ensures Search(g, start, goal, 0) == (false, SearchState({start}, [], [start]))
  {
    assert Enter(Initial, start) == SearchState({start}, [start], [start]);
    assert [start][..0] == [];
  }

  /** A successful search's path is an in-order subsequence of the exploration log. */
  lemma SearchOrder(g: Graph, start: Node, goal: Node, limit: int)
    ensures var r := Search(g, start, goal, limit);
            r.0 ==> Subseq(r.1.path, r.1.explored)
  {
    assert Consistent(Initial);
    DlsOrder(g, start, goal, limit, Initial);
    var r := Dls(g, start, goal, limit, Initial);
    assert r.1.path[0..] == r.1.path;
    assert Fresh(Initial, r.1) == r.1.explored;
  }

  /** Every node of a walk that starts inside a set closed under neighbours stays inside. */
  lemma {:induction false} WalkStaysInside(g: Graph, p: seq<Node>, explored: seq<Node>, visited: set<Node>)
    requires ClosedUnder(g, explored, visited) && forall x :: x in visited ==> x in explored
    requires IsWalk(g, p) && |p| > 0 && p[0] in visited
    ensures p[|p| - 1] in visited
    decreases |p|
  {
    if |p| > 1 {
      var q := p[..|p| - 1];
      assert IsWalk(g, q);
      WalkStaysInside(g, q, explored, visited);
      assert IsEdge(g, p[|p| - 2], p[|p| - 1]);
    }
  }

  /** With a negative limit the search is an unbounded depth-first search: it
      succeeds exactly when some walk leads from `start` to `goal`. */
  lemma NegativeLimitComplete(g: Graph, start: Node, goal: Node, limit: int)
    requires limit < 0
    ensures Search(g, start, goal, limit).0 <==> Reachable(g, start, goal)
  {
    var r := Search(g, start, goal, limit);
    if r.0 {
      assert IsWalkFromTo(g, r.1.path, start, goal);
    } else {
      assert Consistent(Initial);
      DlsClosure(g, start, goal, limit, Initial);
      assert Fresh(Initial, r.1) == r.1.explored;
      forall x | x in r.1.visited
        ensures x in r.1.explored
      {
        ElemsMember(r.1.explored, x);
      }
      ElemsMember(r.1.explored, start);
      if p :| IsWalkFromTo(g, p, start, goal) {
        WalkStaysInside(g, p, r.1.explored, r.1.visited);
        ElemsMember(r.1.explored, goal);
        assert false;
      }
    }
  }
}
