/**
 * Small graphs worked out in full: the exact sequences `getAllPaths`,
 * `getAllCycles` and `getUniquePaths` report for them, in order.
 */
module Scenarios {
  import opened Enumeration
  import opened PrimePaths

  /** One vertex with a self-loop: the pair (0, 0) stops at once, so the loop shows
      only as the cycle `[0, 0]`. */
  lemma SelfLoop()
    ensures EdgesInRange([[0]])
    ensures AllPaths([[0]]) == [[0]]
    ensures AllCycles([[0]]) == [[0, 0]]
  {
    var adj := [[0]];
    assert NoneVisited(1)[0 := true] == [true];
    assert PairPaths(adj, 0, 0) == [[0]];
    assert RowPaths(adj, 0, 1) == [[0]];
    assert [0] + [0] == [0, 0];
    assert CyclesVia(adj, [true], [0], 0, 1) == [[0, 0]];
    assert StartCycles(adj, 0) == [[0, 0]];
  }

  /** The single edge 0 -> 1: the pairs (0, 0), (0, 1), (1, 0), (1, 1) yield
      `[0]`, `[0, 1]`, nothing and `[1]`; there is no cycle. */
  lemma SingleEdge()
    ensures EdgesInRange([[1], []])
    ensures AllPaths([[1], []]) == [[0], [0, 1], [1]]
    ensures AllCycles([[1], []]) == []
  {
    var adj := [[1], []];
    assert NoneVisited(2)[0 := true] == [true, false];
    assert NoneVisited(2)[1 := true] == [false, true];
    assert [true, false][1 := true] == [true, true];
    assert [0] + [1] == [0, 1];
    assert PathsFrom(adj, [true, false], [0, 1], 1, 1) == [[0, 1]];
    assert PathsVia(adj, [true, false], [0], 0, 1, 1) == [[0, 1]];
    assert PathsVia(adj, [true, false], [0], 0, 1, 0) == [];
    assert PathsVia(adj, [false, true], [1], 1, 0, 0) == [];
    assert PairPaths(adj, 0, 0) == [[0]];
    assert PairPaths(adj, 0, 1) == [[0, 1]];
    assert PairPaths(adj, 1, 0) == [];
    assert PairPaths(adj, 1, 1) == [[1]];
    assert RowPaths(adj, 0, 2) == [[0], [0, 1]];
    assert RowPaths(adj, 1, 2) == [[1]];
    assert CyclesVia(adj, [true, true], [0, 1], 1, 0) == [];
    assert CyclesVia(adj, [true, false], [0], 0, 1) == [];
    assert CyclesVia(adj, [false, true], [1], 1, 0) == [];
    assert StartCycles(adj, 0) == [];
    assert StartCycles(adj, 1) == [];
  }

  /** The directed triangle 0 -> 1 -> 2 -> 0. */
  const Triangle: seq<seq<int>> := [[1], [2], [0]]

  lemma TriangleFrom0()
    ensures EdgesInRange(Triangle) && StartCycles(Triangle, 0) == [[0, 1, 2, 0]]
  {
    assert NoneVisited(3)[0 := true] == [true, false, false];
    assert [true, false, false][1 := true] == [true, true, false];
    assert [true, true, false][2 := true] == [true, true, true];
    assert [0] + [1] == [0, 1] && [0, 1] + [2] == [0, 1, 2] && [0, 1, 2] + [0] == [0, 1, 2, 0];
    assert CyclesFrom(Triangle, [true, true, false], [0, 1, 2], 2) == [[0, 1, 2, 0]];
    assert CyclesFrom(Triangle, [true, false, false], [0, 1], 1) == [[0, 1, 2, 0]];
  }

  lemma TriangleFrom1()
    ensures EdgesInRange(Triangle) && StartCycles(Triangle, 1) == [[1, 2, 0, 1]]
  {
    assert NoneVisited(3)[1 := true] == [false, true, false];
    assert [false, true, false][2 := true] == [false, true, true];
    assert [false, true, true][0 := true] == [true, true, true];
    assert [1] + [2] == [1, 2] && [1, 2] + [0] == [1, 2, 0] && [1, 2, 0] + [1] == [1, 2, 0, 1];
    assert CyclesFrom(Triangle, [false, true, true], [1, 2, 0], 0) == [[1, 2, 0, 1]];
    assert CyclesFrom(Triangle, [false, true, false], [1, 2], 2) == [[1, 2, 0, 1]];
  }

  lemma TriangleFrom2()
    ensures EdgesInRange(Triangle) && StartCycles(Triangle, 2) == [[2, 0, 1, 2]]
  {
    assert NoneVisited(3)[2 := true] == [false, false, true];
    assert [false, false, true][0 := true] == [true, false, true];
    assert [true, false, true][1 := true] == [true, true, true];
    assert [2] + [0] == [2, 0] && [2, 0] + [1] == [2, 0, 1] && [2, 0, 1] + [2] == [2, 0, 1, 2];
    assert CyclesFrom(Triangle, [true, false, true], [2, 0, 1], 1) == [[2, 0, 1, 2]];
    assert CyclesFrom(Triangle, [false, false, true], [2, 0], 0) == [[2, 0, 1, 2]];
  }

  /** Every rotation of the triangle is reported, one per start vertex. */
  lemma TriangleCycles()
    ensures EdgesInRange(Triangle)
    ensures AllCycles(Triangle) == [[0, 1, 2, 0], [1, 2, 0, 1], [2, 0, 1, 2]]
  {
    TriangleFrom0();
    TriangleFrom1();
    TriangleFrom2();
    assert CyclesUpTo(Triangle, 1) == [[0, 1, 2, 0]];
    assert CyclesUpTo(Triangle, 2) == [[0, 1, 2, 0], [1, 2, 0, 1]];
  }

  /** Two parallel edges 0 -> 1: the successor loop meets vertex 1 twice, so the
      path `[0, 1]` is reported twice. */
  lemma ParallelEdges()
    ensures EdgesInRange([[1, 1], []])
    ensures AllPaths([[1, 1], []]) == [[0], [0, 1], [0, 1], [1]]
    ensures AllCycles([[1, 1], []]) == []
  {
    var adj := [[1, 1], []];
    assert NoneVisited(2)[0 := true] == [true, false];
    assert NoneVisited(2)[1 := true] == [false, true];
    assert PairPaths(adj, 0, 1) == [[0, 1], [0, 1]] by {
      assert [0] + [1] == [0, 1];
      assert PathsVia(adj, [true, false], [0], 0, 2, 1) == [[0, 1], [0, 1]];
    }
    assert PairPaths(adj, 0, 0) == [[0]];
    assert PairPaths(adj, 1, 0) == [];
    assert PairPaths(adj, 1, 1) == [[1]];
    assert StartCycles(adj, 0) == [] by {
      assert [true, false][1 := true] == [true, true];
      assert CyclesVia(adj, [true, false], [0], 0, 2) == [];
    }
    assert StartCycles(adj, 1) == [];
  }

  /** ... and the two copies of `[0, 1]` eliminate each other, which leaves no
      prime path at all: `[0]` and `[1]` are runs of `[0, 1]`. */
  lemma ParallelEdgesNoPrimes()
    ensures Primes(AllPaths([[1, 1], []]) + AllCycles([[1, 1], []])) == []
  {
    ParallelEdges();
    var u := [[0], [0, 1], [0, 1], [1]];
    assert u + [] == u;
    assert MatchesAt(u[0], u[1], 0) && !Kept(u, 0);
    assert MatchesAt(u[1], u[2], 0) && !Kept(u, 1);
    assert MatchesAt(u[2], u[1], 0) && !Kept(u, 2);
    assert MatchesAt(u[3], u[1], 1) && !Kept(u, 3);
    assert PrimesUpTo(u, 1) == [] && PrimesUpTo(u, 2) == [] && PrimesUpTo(u, 3) == [];
  }
}
