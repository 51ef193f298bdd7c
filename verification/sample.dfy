/** The program's built-in test graph and what the search and the oracle do on it,
    plus a small graph on which the never-cleared visited set hides a short walk. */
module SampleGraph {
  import opened Sequences
  import opened Graphs
  import opened DepthLimited
  import opened ShortestPath
  import opened Report

  /** A -> B (4), A -> C (2), B -> C (5), B -> D (10), C -> D (3); D has no edges. */
  const Sample: Graph := map["A" := [("B", 4), ("C", 2)], "B" := [("C", 5), ("D", 10)], "C" := [("D", 3)], "D" := []]

  lemma SampleValid()
    ensures ValidGraph(Sample)
  {
  }

  const S1 := SearchState({"A"}, ["A"], ["A"])
  const S2 := SearchState({"A", "B"}, ["A", "B"], ["A", "B"])
  const S3 := SearchState({"A", "B", "C"}, ["A", "B", "C"], ["A", "B", "C"])
  const S4 := SearchState({"A", "B", "C", "D"}, ["A", "B", "C", "D"], ["A", "B", "C", "D"])

  lemma States()
    ensures Consistent(S1) && Consistent(S2) && Consistent(S3)
    ensures Enter(Initial, "A") == S1 && Enter(S1, "B") == S2 && Enter(S2, "C") == S3 && Enter(S3, "D") == S4
  {
    assert S4.explored[..3] == S3.explored && S3.explored[..2] == S2.explored && S2.explored[..1] == S1.explored;
    assert S1.explored[..0] == [];
  }

  lemma DeepestStep()
    requires Consistent(S3) && Enter(S3, "D") == S4
    ensures TryNeighbours(Sample, "C", 0, "D", 0, S3) == (true, S4)
  {
    assert Dls(Sample, "D", "D", 0, S3) == (true, S4);
  }

  lemma MiddleStep()
    requires Consistent(S2) && Enter(S2, "C") == S3 && TryNeighbours(Sample, "C", 0, "D", 0, S3) == (true, S4)
    ensures TryNeighbours(Sample, "B", 0, "D", 1, S2) == (true, S4)
  {
    assert Dls(Sample, "C", "D", 1, S2) == (true, S4);
  }

  lemma TopStep()
    requires Consistent(S1) && Enter(S1, "B") == S2 && TryNeighbours(Sample, "B", 0, "D", 1, S2) == (true, S4)
    ensures TryNeighbours(Sample, "A", 0, "D", 2, S1) == (true, S4)
  {
    assert Dls(Sample, "B", "D", 2, S1) == (true, S4);
  }

  /** With depth limit 3 the search from A to D follows the first neighbour at every
      level and finds A, B, C, D, entering nothing else. */
  lemma SampleDepthThree()
    ensures Search(Sample, "A", "D", 3) == (true, S4)
    ensures PathCost(Sample, S4.path) == 12
  {
    States();
    DeepestStep();
    MiddleStep();
    TopStep();
    assert IsWalk(Sample, S4.path[..3]);
    assert IsWalk(Sample, S4.path[..3][..2]);
  }

  /** The oracle's answer on the sample is 5, the cost of A, C, D. The potential
      (A: 5, B: 8, C: 3, D: 0) never drops by more than an edge's weight, so no walk
      from A to D costs less. */
  lemma SampleShortest()
    ensures IsShortest(Sample, "A", "D", Fin(5))
  {
    SampleValid();
    SamplePotential();
    BestWalk();
    forall p | IsWalkFromTo(Sample, p, "A", "D") ensures 5 <= PathCost(Sample, p) {
      PotentialLowerBound(Sample, Potential, p);
    }
  }

  const Potential: map<Node, nat> := map["A" := 5, "B" := 8, "C" := 3, "D" := 0]

  lemma SamplePotential()
    ensures forall u, k :: u in Potential && u in Sample && 0 <= k < |Sample[u]| ==>
              Sample[u][k].0 in Potential && Potential[u] <= Sample[u][k].1 + Potential[Sample[u][k].0]
  {
  }

  lemma BestWalk()
    ensures IsWalkFromTo(Sample, ["A", "C", "D"], "A", "D")
    ensures PathCost(Sample, ["A", "C", "D"]) == 5
  {
    var best := ["A", "C", "D"];
    assert Names(Sample["A"])[1] == "C" && Names(Sample["C"])[0] == "D";
    assert IsWalkFromTo(Sample, best, "A", "D");
    assert best[..2] == ["A", "C"];
    assert best[..2][..1] == ["A"];
  }

  /** The driver on the sample, from A to D with limit 3: the path A, B, C, D of cost
      12 is reported as not optimal against the oracle's 5. */
  method SampleReport() returns (path: Option<seq<Node>>, explored: seq<Node>, stats: Statistics)
    ensures path == Some(["A", "B", "C", "D"]) && explored == ["A", "B", "C", "D"]
    ensures stats == Statistics(4, 4, false, Fin(12), Fin(5))
  {
    SampleValid();
    SampleDepthThree();
    SampleShortest();
    path, explored, stats := Run(Sample, "A", "D", 3);
    ShortestUnique(Sample, "A", "D", stats.optimalDistance, Fin(5));
  }

  /** A -> B, A -> C, B -> C, C -> D, all of weight 1. */
  const Diamond: Graph := map["A" := [("B", 1), ("C", 1)], "B" := [("C", 1)], "C" := [("D", 1)], "D" := []]

  const W := SearchState({"A", "B", "C"}, ["A"], ["A", "B", "C"])

  lemma DiamondStates()
    ensures Consistent(S1) && Consistent(S2) && Consistent(W)
    ensures Enter(Initial, "A") == S1 && Enter(S1, "B") == S2 && Enter(S2, "C") == S3
    ensures Pop(S3) == SearchState({"A", "B", "C"}, ["A", "B"], ["A", "B", "C"])
    ensures Pop(Pop(S3)) == W
  {
    States();
    assert W.explored == S3.explored;
  }

  lemma DiamondLower()
    requires Consistent(S1) && Enter(S1, "B") == S2
    requires Consistent(S2) && Enter(S2, "C") == S3
    requires Pop(S3) == SearchState({"A", "B", "C"}, ["A", "B"], ["A", "B", "C"])
    requires Pop(Pop(S3)) == W
    ensures Dls(Diamond, "B", "D", 1, S1) == (false, W)
  {
    var t := Pop(S3);
    assert Dls(Diamond, "C", "D", 0, S2) == (false, t);
    assert TryNeighbours(Diamond, "B", 1, "D", 0, t) == (false, t);
    assert TryNeighbours(Diamond, "B", 0, "D", 0, S2) == (false, t);
  }

  lemma DiamondUpper()
    requires Consistent(S1) && Consistent(W) && Dls(Diamond, "B", "D", 1, S1) == (false, W)
    ensures TryNeighbours(Diamond, "A", 0, "D", 1, S1) == (false, W)
  {
    assert TryNeighbours(Diamond, "A", 2, "D", 1, W) == (false, W);
    assert TryNeighbours(Diamond, "A", 1, "D", 1, W) == (false, W);
  }

  lemma DiamondWalk()
    ensures IsWalkFromTo(Diamond, ["A", "C", "D"], "A", "D")
  {
    assert Names(Diamond["A"])[1] == "C" && Names(Diamond["C"])[0] == "D";
  }

  /** Entering C below B marks it for the whole search, so with limit 2 the walk
      A, C, D of three nodes is never tried: C is skipped as a neighbour of A. Without
      a limit the same search reaches D. */
  lemma VisitedNeverCleared()
    ensures IsWalkFromTo(Diamond, ["A", "C", "D"], "A", "D")
    ensures Search(Diamond, "A", "D", 2) == (false, SearchState({"A", "B", "C"}, [], ["A", "B", "C"]))
    ensures Search(Diamond, "A", "D", -1).0
  {
    DiamondStates();
    DiamondLower();
    DiamondUpper();
    DiamondWalk();
    NegativeLimitComplete(Diamond, "A", "D", -1);
  }
}
