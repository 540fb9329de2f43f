/**
 * The enumerations of module Enumeration are exact: they report simple paths and
 * simple cycles only (soundness), and every one of them (completeness).
 */
module Exactness {
  import opened Enumeration

  // ---------------------------------------------------------------------------
  // Extending a walk by one vertex in front
  // ---------------------------------------------------------------------------

  lemma {:induction false} Prepend(adj: seq<seq<int>>, v: int, t: seq<int>)
    requires |t| >= 1 && IsEdge(adj, v, t[0]) && IsWalk(adj, t) && Distinct(t) && v !in t
    ensures IsWalk(adj, [v] + t) && Distinct([v] + t)
  {
    var s := [v] + t;
    forall k | 0 <= k < |s| - 1 ensures IsEdge(adj, s[k], s[k + 1]) {
      if k > 0 { assert s[k] == t[k - 1] && s[k + 1] == t[k]; }
    }
    forall a, b | 0 <= a < b < |s| ensures s[a] != s[b] {
      assert s[b] == t[b - 1];
      if a > 0 { assert s[a] == t[a - 1]; }
    }
  }

  /** Marking `v` visited only removes `v` from what is unvisited. */
  lemma UnmarkedFrom(vis: seq<bool>, v: int, t: seq<int>)
    requires 0 <= v < |vis| && !vis[v] && AllUnvisited(vis[v := true], t)
    ensures v !in t && AllUnvisited(vis, [v] + t)
  {
    var s := [v] + t;
    forall k | 0 <= k < |s| ensures 0 <= s[k] < |vis| && !vis[s[k]] {
      if k > 0 { assert s[k] == t[k - 1]; }
    }
  }

  // ---------------------------------------------------------------------------
  // Paths: soundness
  // ---------------------------------------------------------------------------

  /** Every path `getAllPathsUtil(v, end, vis, buf)` reports extends the buffer by a
      simple path from `v` to `end` through unvisited vertices. */
  lemma {:induction false} PathsFromSound(adj: seq<seq<int>>, vis: seq<bool>, buf: seq<int>, v: int, end: int, p: seq<int>)
    requires EdgesInRange(adj) && |vis| == |adj| && 0 <= v < |adj| && !vis[v]
    requires |buf| > 0 && buf[|buf| - 1] == v
    requires p in PathsFrom(adj, vis, buf, v, end)
    ensures |p| >= |buf| && p[..|buf|] == buf
    ensures IsSimplePath(adj, p[|buf| - 1..], v, end) && AllUnvisited(vis, p[|buf| - 1..])
    decreases Unvisited(vis), 0, 0
  {
    if v == end {
      assert p == buf;
      assert p[|buf| - 1..] == [v];
    } else {
      MarkShrinks(vis, v);
      var vis' := vis[v := true];
      PathsViaSound(adj, vis', buf, v, |adj[v]|, end, p);
      var t := p[|buf|..];
      assert p[|buf| - 1..] == [v] + t;
      UnmarkedFrom(vis, v, t);
      Prepend(adj, v, t);
    }
  }

  lemma {:induction false} PathsViaSound(adj: seq<seq<int>>, vis: seq<bool>, buf: seq<int>, v: int, k: nat, end: int, p: seq<int>)
    requires EdgesInRange(adj) && |vis| == |adj| && 0 <= v < |adj| && k <= |adj[v]|
    requires p in PathsVia(adj, vis, buf, v, k, end)
    ensures |p| > |buf| && p[..|buf|] == buf && p[|buf|] in adj[v]
    ensures IsSimplePath(adj, p[|buf|..], p[|buf|], end) && AllUnvisited(vis, p[|buf|..])
    decreases Unvisited(vis), 1, k
  {
    var w := adj[v][k - 1];
    if !vis[w] && p in PathsFrom(adj, vis, buf + [w], w, end) {
      PathsFromSound(adj, vis, buf + [w], w, end, p);
      assert p[..|buf|] == p[..|buf| + 1][..|buf|];
    } else {
      PathsViaSound(adj, vis, buf, v, k - 1, end, p);
    }
  }

  // ---------------------------------------------------------------------------
  // Paths: completeness
  // ---------------------------------------------------------------------------

  lemma {:induction false} PathsViaIncludes(adj: seq<seq<int>>, vis: seq<bool>, buf: seq<int>, v: int, k: nat, end: int, w: int, p: seq<int>)
    requires EdgesInRange(adj) && |vis| == |adj| && 0 <= v < |adj| && k <= |adj[v]|
    requires w in adj[v][..k] && !vis[w] && p in PathsFrom(adj, vis, buf + [w], w, end)
    ensures p in PathsVia(adj, vis, buf, v, k, end)
    decreases k
  {
    if adj[v][k - 1] != w {
      assert w in adj[v][..k - 1] by { assert adj[v][..k] == adj[v][..k - 1] + [adj[v][k - 1]]; }
      PathsViaIncludes(adj, vis, buf, v, k - 1, end, w, p);
    }
  }

  /** Every simple path from `v` to `end` through unvisited vertices is reported,
      appended to the buffer. */
  lemma {:induction false} PathsFromComplete(adj: seq<seq<int>>, vis: seq<bool>, buf: seq<int>, v: int, end: int, s: seq<int>)
    requires EdgesInRange(adj) && |vis| == |adj| && 0 <= v < |adj| && !vis[v]
    requires IsSimplePath(adj, s, v, end) && AllUnvisited(vis, s)
    ensures buf + s[1..] in PathsFrom(adj, vis, buf, v, end)
    decreases |s|
  {
    if v == end {
      assert |s| == 1;
      assert buf + s[1..] == buf;
    } else {
      var w := s[1];
      var vis' := vis[v := true];
      assert w != v by { assert s[0] != s[1]; }
      assert IsEdge(adj, s[0], s[1]);
      var t := s[1..];
      assert IsSimplePath(adj, t, w, end) by {
        forall k | 0 <= k < |t| - 1 ensures IsEdge(adj, t[k], t[k + 1]) {
          assert IsEdge(adj, s[k + 1], s[k + 2]);
        }
      }
      assert AllUnvisited(vis', t) by {
        forall k | 0 <= k < |t| ensures !vis'[t[k]] {
          assert s[0] != s[k + 1];
        }
      }
      PathsFromComplete(adj, vis', buf + [w], w, end, t);
      assert buf + [w] + t[1..] == buf + s[1..];
      assert adj[v][..|adj[v]|] == adj[v];
      PathsViaIncludes(adj, vis', buf, v, |adj[v]|, end, w, buf + s[1..]);
    }
  }

  // ---------------------------------------------------------------------------
  // Paths: the pairs, the rows and getAllPaths
  // ---------------------------------------------------------------------------

  /** The pair (i, j) yields exactly the simple paths from `i` to `j`. */
  lemma PairPathsExact(adj: seq<seq<int>>, i: int, j: int, p: seq<int>)
    requires EdgesInRange(adj) && 0 <= i < |adj|
    ensures p in PairPaths(adj, i, j) <==> IsSimplePath(adj, p, i, j)
  {
    var vis := NoneVisited(|adj|);
    if p in PairPaths(adj, i, j) {
      PathsFromSound(adj, vis, [i], i, j, p);
      assert p[0..] == p;
    }
    if IsSimplePath(adj, p, i, j) {
      assert AllUnvisited(vis, p) by {
        forall k | 0 <= k < |p| ensures 0 <= p[k] < |adj| {
          if k > 0 { assert IsEdge(adj, p[k - 1], p[k]); }
        }
      }
      PathsFromComplete(adj, vis, [i], i, j, p);
      assert [i] + p[1..] == p;
    }
  }

  /** For i == j nothing is explored: the pair yields the trivial path alone,
      whatever the successors of `i`. */
  lemma PairPathsSelf(adj: seq<seq<int>>, i: int)
    requires EdgesInRange(adj) && 0 <= i < |adj|
    ensures PairPaths(adj, i, i) == [[i]]
  {
  }

  /** Row `i` up to column `m` yields the simple paths from `i` that end before `m`. */
  lemma {:induction false} RowPathsExact(adj: seq<seq<int>>, i: int, m: nat, p: seq<int>)
    requires EdgesInRange(adj) && 0 <= i < |adj| && m <= |adj|
    ensures p in RowPaths(adj, i, m) <==> |p| >= 1 && 0 <= p[|p| - 1] < m && IsSimplePath(adj, p, i, p[|p| - 1])
  {
    if m > 0 {
      RowPathsExact(adj, i, m - 1, p);
      PairPathsExact(adj, i, m - 1, p);
    }
  }

  lemma {:induction false} PathsOfRowsExact(adj: seq<seq<int>>, m: nat, p: seq<int>)
    requires EdgesInRange(adj) && m <= |adj|
    ensures p in PathsOfRows(adj, m) <==> |p| >= 1 && 0 <= p[0] < m && IsSimplePath(adj, p, p[0], p[|p| - 1])
  {
    if m > 0 {
      PathsOfRowsExact(adj, m - 1, p);
      RowPathsExact(adj, m - 1, |adj|, p);
      if |p| >= 1 && 0 <= p[0] < m && IsSimplePath(adj, p, p[0], p[|p| - 1]) {
        LastInRange(adj, p);
      }
    }
  }

  /** A walk that starts at a vertex stays among the vertices. */
  lemma LastInRange(adj: seq<seq<int>>, p: seq<int>)
    requires EdgesInRange(adj) && |p| >= 1 && 0 <= p[0] < |adj| && IsWalk(adj, p)
    ensures 0 <= p[|p| - 1] < |adj|
  {
    if |p| > 1 { assert IsEdge(adj, p[|p| - 2], p[|p| - 1]); }
  }

  /** `getAllPaths` reports exactly the simple paths of the graph, trivial ones included. */
  lemma AllPathsExact(adj: seq<seq<int>>, p: seq<int>)
    requires EdgesInRange(adj)
    ensures p in AllPaths(adj) <==> |p| >= 1 && 0 <= p[0] < |adj| && Distinct(p) && IsWalk(adj, p)
  {
    PathsOfRowsExact(adj, |adj|, p);
  }

  // ---------------------------------------------------------------------------
  // Cycles: soundness
  // ---------------------------------------------------------------------------

  /** Every cycle `getAllCyclesUtil(v, vis, buf)` reports extends the buffer by a
      simple path from `v` through unvisited vertices and closes it with the first
      vertex of the buffer. */
  lemma {:induction false} CyclesFromSound(adj: seq<seq<int>>, vis: seq<bool>, buf: seq<int>, v: int, c: seq<int>)
    requires EdgesInRange(adj) && |vis| == |adj| && 0 <= v < |adj| && !vis[v]
    requires |buf| > 0 && buf[|buf| - 1] == v
    requires c in CyclesFrom(adj, vis, buf, v)
    ensures |c| > |buf| && c[..|buf|] == buf && c[|c| - 1] == buf[0]
    ensures IsWalk(adj, c[|buf| - 1..])
    ensures Distinct(c[|buf| - 1..|c| - 1]) && AllUnvisited(vis, c[|buf| - 1..|c| - 1])
    decreases Unvisited(vis), 0, 0
  {
    MarkShrinks(vis, v);
    var vis' := vis[v := true];
    CyclesViaSound(adj, vis', buf, v, |adj[v]|, c);
    var t := c[|buf|..|c| - 1];
    assert c[|buf| - 1..|c| - 1] == [v] + t;
    UnmarkedFrom(vis, v, t);
    var u := c[|buf|..];
    assert c[|buf| - 1..] == [v] + u;
    forall k | 0 <= k < |u| ensures u[k] in adj[v] ==> IsEdge(adj, v, u[k]) {}
    if v in t {
      assert false;
    }
    assert IsWalk(adj, [v] + u) by {
      var s := [v] + u;
      forall k | 0 <= k < |s| - 1 ensures IsEdge(adj, s[k], s[k + 1]) {
        if k > 0 { assert s[k] == u[k - 1] && s[k + 1] == u[k]; }
      }
    }
    assert Distinct([v] + t) by {
      var s := [v] + t;
      forall a, b | 0 <= a < b < |s| ensures s[a] != s[b] {
        assert s[b] == t[b - 1];
        if a > 0 { assert s[a] == t[a - 1]; }
      }
    }
  }

  lemma {:induction false} CyclesViaSound(adj: seq<seq<int>>, vis: seq<bool>, buf: seq<int>, v: int, k: nat, c: seq<int>)
    requires EdgesInRange(adj) && |vis| == |adj| && |buf| > 0 && 0 <= v < |adj| && k <= |adj[v]|
    requires c in CyclesVia(adj, vis, buf, v, k)
    ensures |c| > |buf| && c[..|buf|] == buf && c[|c| - 1] == buf[0] && c[|buf|] in adj[v]
    ensures IsWalk(adj, c[|buf|..])
    ensures Distinct(c[|buf|..|c| - 1]) && AllUnvisited(vis, c[|buf|..|c| - 1])
    decreases Unvisited(vis), 1, k
  {
    var w := adj[v][k - 1];
    if !vis[w] && c in CyclesFrom(adj, vis, buf + [w], w) {
      CyclesFromSound(adj, vis, buf + [w], w, c);
      assert c[..|buf|] == c[..|buf| + 1][..|buf|];
    } else if vis[w] && w == buf[0] && c == buf + [buf[0]] {
      assert c[|buf|..] == [w];
    } else {
      CyclesViaSound(adj, vis, buf, v, k - 1, c);
    }
  }

  // ---------------------------------------------------------------------------
  // Cycles: completeness
  // ---------------------------------------------------------------------------

  lemma {:induction false} CyclesViaIncludes(adj: seq<seq<int>>, vis: seq<bool>, buf: seq<int>, v: int, k: nat, w: int, c: seq<int>)
    requires EdgesInRange(adj) && |vis| == |adj| && |buf| > 0 && 0 <= v < |adj| && k <= |adj[v]|
    requires w in adj[v][..k] && !vis[w] && c in CyclesFrom(adj, vis, buf + [w], w)
    ensures c in CyclesVia(adj, vis, buf, v, k)
    decreases k
  {
    if adj[v][k - 1] != w {
      assert w in adj[v][..k - 1] by { assert adj[v][..k] == adj[v][..k - 1] + [adj[v][k - 1]]; }
      CyclesViaIncludes(adj, vis, buf, v, k - 1, w, c);
    }
  }

  lemma {:induction false} CyclesViaCloses(adj: seq<seq<int>>, vis: seq<bool>, buf: seq<int>, v: int, k: nat)
    requires EdgesInRange(adj) && |vis| == |adj| && |buf| > 0 && 0 <= v < |adj| && k <= |adj[v]|
    requires buf[0] in adj[v][..k] && vis[buf[0]]
    ensures buf + [buf[0]] in CyclesVia(adj, vis, buf, v, k)
    decreases k
  {
    if adj[v][k - 1] != buf[0] {
      assert buf[0] in adj[v][..k - 1] by { assert adj[v][..k] == adj[v][..k - 1] + [adj[v][k - 1]]; }
      CyclesViaCloses(adj, vis, buf, v, k - 1);
    }
  }

  /** Every simple path from `v` through unvisited vertices whose last vertex has an
      edge back to the first vertex of the buffer is reported as a cycle. */
  lemma {:induction false} CyclesFromComplete(adj: seq<seq<int>>, vis: seq<bool>, buf: seq<int>, v: int, s: seq<int>)
    requires EdgesInRange(adj) && |vis| == |adj| && 0 <= v < |adj| && !vis[v]
    requires |buf| > 0 && 0 <= buf[0] < |adj| && (vis[buf[0]] || buf[0] == v)
    requires |s| >= 1 && s[0] == v && Distinct(s) && IsWalk(adj, s) && AllUnvisited(vis, s)
    requires IsEdge(adj, s[|s| - 1], buf[0])
    ensures buf + s[1..] + [buf[0]] in CyclesFrom(adj, vis, buf, v)
    decreases |s|
  {
    var vis' := vis[v := true];
    if |s| == 1 {
      assert buf + s[1..] + [buf[0]] == buf + [buf[0]];
      assert adj[v][..|adj[v]|] == adj[v];
      CyclesViaCloses(adj, vis', buf, v, |adj[v]|);
    } else {
      var w := s[1];
      assert w != v by { assert s[0] != s[1]; }
      assert IsEdge(adj, s[0], s[1]);
      var t := s[1..];
      assert IsWalk(adj, t) by {
        forall k | 0 <= k < |t| - 1 ensures IsEdge(adj, t[k], t[k + 1]) {
          assert IsEdge(adj, s[k + 1], s[k + 2]);
        }
      }
      assert AllUnvisited(vis', t) by {
        forall k | 0 <= k < |t| ensures !vis'[t[k]] {
          assert s[0] != s[k + 1];
        }
      }
      DistinctTail(s);
      CyclesFromComplete(adj, vis', buf + [w], w, t);
      assert buf + [w] + t[1..] + [buf[0]] == buf + s[1..] + [buf[0]];
      assert adj[v][..|adj[v]|] == adj[v];
      CyclesViaIncludes(adj, vis', buf, v, |adj[v]|, w, buf + s[1..] + [buf[0]]);
    }
  }

  lemma DistinctTail(s: seq<int>)
    requires |s| >= 1 && Distinct(s)
    ensures Distinct(s[1..])
  {
    var t := s[1..];
    forall a, b | 0 <= a < b < |t| ensures t[a] != t[b] {
      assert t[a] == s[a + 1] && t[b] == s[b + 1];
    }
  }

  // ---------------------------------------------------------------------------
  // Cycles: the starts and getAllCycles
  // ---------------------------------------------------------------------------

  /** The start `s` yields exactly the simple cycles that start and end at `s`. */
  lemma StartCyclesExact(adj: seq<seq<int>>, s: int, c: seq<int>)
    requires EdgesInRange(adj) && 0 <= s < |adj|
    ensures c in StartCycles(adj, s) <==> IsSimpleCycle(adj, c, s)
  {
    if c in StartCycles(adj, s) {
      StartCyclesSound(adj, s, c);
    }
    if IsSimpleCycle(adj, c, s) {
      StartCyclesComplete(adj, s, c);
    }
  }

  lemma StartCyclesSound(adj: seq<seq<int>>, s: int, c: seq<int>)
    requires EdgesInRange(adj) && 0 <= s < |adj| && c in StartCycles(adj, s)
    ensures IsSimpleCycle(adj, c, s)
  {
    CyclesFromSound(adj, NoneVisited(|adj|), [s], s, c);
    assert c[0..] == c;
    assert c[0..|c| - 1] == c[..|c| - 1];
  }

  lemma StartCyclesComplete(adj: seq<seq<int>>, s: int, c: seq<int>)
    requires EdgesInRange(adj) && 0 <= s < |adj| && IsSimpleCycle(adj, c, s)
    ensures c in StartCycles(adj, s)
  {
    var vis := NoneVisited(|adj|);
    var p := c[..|c| - 1];
    assert IsWalk(adj, p) by {
      forall k | 0 <= k < |p| - 1 ensures IsEdge(adj, p[k], p[k + 1]) {
        assert IsEdge(adj, c[k], c[k + 1]);
      }
    }
    assert AllUnvisited(vis, p) by {
      forall k | 0 <= k < |p| ensures 0 <= p[k] < |adj| {
        if k > 0 { assert IsEdge(adj, c[k - 1], c[k]); }
      }
    }
    assert IsEdge(adj, c[|c| - 2], c[|c| - 1]);
    CyclesFromComplete(adj, vis, [s], s, p);
    assert [s] + p[1..] + [s] == c;
  }

  /** A self-loop `s -> s` is reported as the cycle `[s, s]`. */
  lemma SelfLoopCycle(adj: seq<seq<int>>, s: int)
    requires EdgesInRange(adj) && 0 <= s < |adj| && s in adj[s]
    ensures [s, s] in StartCycles(adj, s)
  {
    StartCyclesExact(adj, s, [s, s]);
  }

  lemma {:induction false} CyclesUpToExact(adj: seq<seq<int>>, m: nat, c: seq<int>)
    requires EdgesInRange(adj) && m <= |adj|
    ensures c in CyclesUpTo(adj, m) <==> |c| >= 2 && 0 <= c[0] < m && IsSimpleCycle(adj, c, c[0])
  {
    if m > 0 {
      CyclesUpToExact(adj, m - 1, c);
      StartCyclesExact(adj, m - 1, c);
    }
  }

  /** `getAllCycles` reports exactly the simple cycles of the graph, each once per
      vertex it can start from (so every rotation of a cycle is reported). */
  lemma AllCyclesExact(adj: seq<seq<int>>, c: seq<int>)
    requires EdgesInRange(adj)
    ensures c in AllCycles(adj) <==> |c| >= 2 && 0 <= c[0] < |adj| && IsSimpleCycle(adj, c, c[0])
  {
    CyclesUpToExact(adj, |adj|, c);
  }
}
