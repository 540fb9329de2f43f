/**
 * The `Graph` class: a directed graph over the vertices 0 .. numberOfVertices - 1
 * kept as an array of successor lists, with the depth-first enumerations of all
 * simple paths and all simple cycles and the prime-path filter. Each enumeration
 * method is proved equal to the corresponding function of module Enumeration or
 * PrimePaths, whose meaning the lemmas of Exactness and PrimePaths establish.
 */
module Coverage {
  import opened Enumeration
  import opened PrimePaths

  /** `s` without its first occurrence of `x` (unchanged when `x` does not occur):
      what `List.remove(Object)` does to a list of vertices. */
  function RemoveFirst(s: seq<int>, x: int): (r: seq<int>)
    ensures x !in s ==> r == s
    ensures x in s ==> |r| == |s| - 1
  {
    if s == [] then []
    else if s[0] == x then s[1..]
    else [s[0]] + RemoveFirst(s[1..], x)
  }

  /** The element dropped is the first occurrence of `x`: when `k` is the first
      position holding `x`, everything before it and everything after it is kept. */
  lemma {:induction false} RemoveFirstDropsFirst(s: seq<int>, x: int, k: int)
    requires 0 <= k < |s| && s[k] == x && x !in s[..k]
    ensures RemoveFirst(s, x) == s[..k] + s[k + 1..]
  {
    if k == 0 {
      assert s[..0] + s[1..] == s[1..];
    } else {
      assert s[0] != x by { assert s[0] == s[..k][0]; }
      assert s[1..][..k - 1] == s[1..k];
      RemoveFirstDropsFirst(s[1..], x, k - 1);
      assert s[..k] == [s[0]] + s[1..k];
      assert s[k + 1..] == s[1..][k..];
    }
  }

  /** Removing a vertex by value from a buffer it was just appended to drops exactly
      the appended element, provided the buffer did not already hold the vertex. */
  lemma {:induction false} RemoveFirstAppended(s: seq<int>, x: int)
    requires x !in s
    ensures RemoveFirst(s + [x], x) == s
  {
    if s != [] {
      assert (s + [x])[1..] == s[1..] + [x];
      RemoveFirstAppended(s[1..], x);
    }
  }

  /** The state a DFS helper expects on entry at vertex `v`: the buffer ends with `v`,
      holds no vertex twice, and every vertex before `v` is marked visited. */
  predicate OnSearchPath(vis: seq<bool>, buf: seq<int>, v: int)
  {
    |buf| > 0 && buf[|buf| - 1] == v && Distinct(buf)
    && forall k :: 0 <= k < |buf| - 1 ==> 0 <= buf[k] < |vis| && vis[buf[k]]
  }

  /** Descending from `v` (now marked) to an unmarked successor `w`: `w` is not yet
      on the buffer, so appending it keeps the search-path state. */
  lemma ExtendSearchPath(vis: seq<bool>, buf: seq<int>, v: int, w: int)
    requires 0 <= v < |vis| && !vis[v] && OnSearchPath(vis, buf, v)
    requires 0 <= w < |vis| && !vis[v := true][w]
    ensures w !in buf && OnSearchPath(vis[v := true], buf + [w], w)
  {
    var marked := vis[v := true];
    var b := buf + [w];
    forall x, y | 0 <= x < y < |b| ensures b[x] != b[y] {
      if y < |buf| { assert b[x] == buf[x] && b[y] == buf[y]; }
    }
    forall k | 0 <= k < |b| - 1 ensures 0 <= b[k] < |marked| && marked[b[k]] {
      assert b[k] == buf[k];
    }
  }

  /** The path buffer shared by the recursive helpers (a `java.util.List<Integer>`). */
  class PathList {
    var items: seq<int>

    constructor ()
      ensures items == []
    {
      items := [];
    }

    /** `add(x)`: append at the end. */
    method Add(x: int)
      modifies this
      ensures items == old(items) + [x]
    {
      items := items + [x];
    }

    /** `remove(Object)`: drop the first element equal to `x`, if any. */
    method Remove(x: int)
      modifies this
      ensures items == RemoveFirst(old(items), x)
    {
      items := RemoveFirst(items, x);
    }

    /** `remove(int)`: drop the element at `index`. */
    method RemoveAt(index: int)
      requires 0 <= index < |items|
      modifies this
      ensures items == old(items)[..index] + old(items)[index + 1..]
    {
      items := items[..index] + items[index + 1..];
    }
  }

  class Graph {
    const numberOfVertices: nat
    /** `adjacencyLists[u]` lists the successors of `u` in edge-insertion order. */
    const adjacencyLists: array<seq<int>>

    predicate Valid()
    {
      adjacencyLists.Length == numberOfVertices
    }

    /** A graph with `numberOfVertices` vertices and no edges. */
    constructor (numberOfVertices: nat)
      ensures this.numberOfVertices == numberOfVertices
      ensures Valid() && fresh(adjacencyLists)
      ensures forall u :: 0 <= u < numberOfVertices ==> adjacencyLists[u] == []
    {
      this.numberOfVertices := numberOfVertices;
      adjacencyLists := new seq<int>[numberOfVertices];
      new;
      for i := 0 to numberOfVertices
        invariant forall u :: 0 <= u < i ==> adjacencyLists[u] == []
      {
        adjacencyLists[i] := [];
      }
    }

    /** Appends `endVertex` to the successors of `startVertex`; every other list is
        left as it was. Parallel edges and self-loops are kept. */
    method AddEdge(startVertex: int, endVertex: int)
      requires Valid() && 0 <= startVertex < numberOfVertices
      modifies adjacencyLists
      ensures adjacencyLists[startVertex] == old(adjacencyLists[startVertex]) + [endVertex]
      ensures forall u :: 0 <= u < numberOfVertices && u != startVertex ==> adjacencyLists[u] == old(adjacencyLists[u])
    {
      adjacencyLists[startVertex] := adjacencyLists[startVertex] + [endVertex];
    }

    /** Every simple path between every ordered pair of vertices, pair by pair. */
    method GetAllPaths() returns (paths: seq<seq<int>>)
      requires Valid() && EdgesInRange(adjacencyLists[..])
      ensures paths == AllPaths(adjacencyLists[..])
    {
      ghost var adj := adjacencyLists[..];
      paths := [];
      for i := 0 to numberOfVertices
        invariant paths == PathsOfRows(adj, i)
        invariant adjacencyLists[..] == adj
      {
        for j := 0 to numberOfVertices
          invariant paths == PathsOfRows(adj, i) + RowPaths(adj, i, j)
          invariant adjacencyLists[..] == adj
        {
          var isVisited := new bool[numberOfVertices](_ => false);
          var pathList := new PathList();
          pathList.Add(i);
          assert isVisited[..] == NoneVisited(numberOfVertices);
          assert pathList.items == [i];
          assert OnSearchPath(isVisited[..], pathList.items, i);
          var found := GetAllPathsUtil(i, j, isVisited, pathList);
          assert found == PairPaths(adj, i, j);
          paths := paths + found;
        }
      }
    }

    /** The depth-first search for the paths from `startVertex` to `endVertex` that
        extend `localPathList`; the visited markers and the buffer are restored
        before it returns. */
    method GetAllPathsUtil(startVertex: int, endVertex: int, isVisited: array<bool>, localPathList: PathList)
      returns (paths: seq<seq<int>>)
      requires Valid() && EdgesInRange(adjacencyLists[..]) && isVisited.Length == numberOfVertices
      requires 0 <= startVertex < numberOfVertices && !isVisited[startVertex]
      requires OnSearchPath(isVisited[..], localPathList.items, startVertex)
      modifies isVisited, localPathList
      ensures isVisited[..] == old(isVisited[..]) && localPathList.items == old(localPathList.items)
      ensures paths == PathsFrom(adjacencyLists[..], old(isVisited[..]), old(localPathList.items), startVertex, endVertex)
      decreases Unvisited(isVisited[..])
    {
      if startVertex == endVertex {
        paths := [localPathList.items];
        return;
      }
      ghost var adj := adjacencyLists[..];
      ghost var before := isVisited[..];
      ghost var buf := localPathList.items;
      isVisited[startVertex] := true;
      ghost var marked := isVisited[..];
      assert marked == before[startVertex := true];
      MarkShrinks(before, startVertex);
      var neighbors := adjacencyLists[startVertex];
      paths := [];
      var k := 0;
      while k < |neighbors|
        invariant 0 <= k <= |neighbors|
        invariant isVisited[..] == marked && localPathList.items == buf
        invariant paths == PathsVia(adj, marked, buf, startVertex, k, endVertex)
      {
        var neighbor := neighbors[k];
        if !isVisited[neighbor] {
          ExtendSearchPath(before, buf, startVertex, neighbor);
          localPathList.Add(neighbor);
          var found := GetAllPathsUtil(neighbor, endVertex, isVisited, localPathList);
          paths := paths + found;
          RemoveFirstAppended(buf, neighbor);
          localPathList.Remove(neighbor);
        }
        k := k + 1;
      }
      isVisited[startVertex] := false;
      assert isVisited[..] == before;
    }

    /** For every start vertex, the simple cycles that leave it and close back on it. */
    method GetAllCycles() returns (paths: seq<seq<int>>)
      requires Valid() && EdgesInRange(adjacencyLists[..])
      ensures paths == AllCycles(adjacencyLists[..])
    {
      ghost var adj := adjacencyLists[..];
      paths := [];
      for i := 0 to numberOfVertices
        invariant paths == CyclesUpTo(adj, i)
        invariant adjacencyLists[..] == adj
      {
        var isVisited := new bool[numberOfVertices](_ => false);
        var pathList := new PathList();
        pathList.Add(i);
        assert isVisited[..] == NoneVisited(numberOfVertices);
        assert pathList.items == [i];
        assert OnSearchPath(isVisited[..], pathList.items, i);
        var found := GetAllCyclesUtil(i, isVisited, pathList);
        assert found == StartCycles(adj, i);
        paths := paths + found;
      }
    }

    /** The depth-first search for the cycles that extend `localPathList` from
        `startVertex` and close on the buffer's first vertex; the visited markers
        and the buffer are restored before it returns. */
    method GetAllCyclesUtil(startVertex: int, isVisited: array<bool>, localPathList: PathList)
      returns (paths: seq<seq<int>>)
      requires Valid() && EdgesInRange(adjacencyLists[..]) && isVisited.Length == numberOfVertices
      requires 0 <= startVertex < numberOfVertices && !isVisited[startVertex]
      requires OnSearchPath(isVisited[..], localPathList.items, startVertex)
      modifies isVisited, localPathList
      ensures isVisited[..] == old(isVisited[..]) && localPathList.items == old(localPathList.items)
      ensures paths == CyclesFrom(adjacencyLists[..], old(isVisited[..]), old(localPathList.items), startVertex)
      decreases Unvisited(isVisited[..])
    {
      ghost var adj := adjacencyLists[..];
      ghost var before := isVisited[..];
      ghost var buf := localPathList.items;
      isVisited[startVertex] := true;
      ghost var marked := isVisited[..];
      assert marked == before[startVertex := true];
      MarkShrinks(before, startVertex);
      var neighbors := adjacencyLists[startVertex];
      paths := [];
      var k := 0;
      while k < |neighbors|
        invariant 0 <= k <= |neighbors|
        invariant isVisited[..] == marked && localPathList.items == buf
        invariant paths == CyclesVia(adj, marked, buf, startVertex, k)
      {
        var neighbor := neighbors[k];
        if !isVisited[neighbor] {
          ExtendSearchPath(before, buf, startVertex, neighbor);
          localPathList.Add(neighbor);
          var found := GetAllCyclesUtil(neighbor, isVisited, localPathList);
          paths := paths + found;
          RemoveFirstAppended(buf, neighbor);
          localPathList.Remove(neighbor);
        } else if neighbor == localPathList.items[0] {
          localPathList.Add(localPathList.items[0]);
          paths := paths + [localPathList.items];
          localPathList.RemoveAt(|localPathList.items| - 1);
          assert localPathList.items == (buf + [buf[0]])[..|buf|] == buf;
        }
        k := k + 1;
      }
      isVisited[startVertex] := false;
      assert isVisited[..] == before;
    }

    /** The prime paths: the paths and cycles, in their original order, that are
        not a contiguous run of the path or cycle at any other index. */
    method GetUniquePaths() returns (uniquePaths: seq<seq<int>>)
      requires Valid() && EdgesInRange(adjacencyLists[..])
      ensures uniquePaths == Primes(AllPaths(adjacencyLists[..]) + AllCycles(adjacencyLists[..]))
    {
      var allPaths := GetAllPaths();
      var allCycles := GetAllCycles();
      var paths := allPaths + allCycles;
      uniquePaths := [];
      for i := 0 to |paths|
        invariant uniquePaths == PrimesUpTo(paths, i)
      {
        var isUnique := true;
        var j := 0;
        while j < |paths|
          invariant 0 <= j <= |paths|
          invariant isUnique ==> forall t :: 0 <= t < j && t != i ==> !SubPath(paths[i], paths[t])
          invariant !isUnique ==> !Kept(paths, i)
        {
          if i != j {
            var sub := IsSubPath(paths[i], paths[j]);
            if sub {
              isUnique := false;
              break;
            }
          }
          j := j + 1;
        }
        if isUnique {
          uniquePaths := uniquePaths + [paths[i]];
        }
      }
    }

    /** Whether `path1` occurs in `path2` as a contiguous run. */
    method IsSubPath(path1: seq<int>, path2: seq<int>) returns (isSub: bool)
      ensures isSub == SubPath(path1, path2)
      ensures isSub <==> |path1| <= |path2| && exists k :: 0 <= k <= |path2| - |path1| && Window(path2, k, |path1|) == path1
    {
      SubPathSlice(path1, path2);
      if |path1| > |path2| {
        return false;
      }
      var i := 0;
      while i < |path2| - |path1| + 1
        invariant 0 <= i <= |path2| - |path1| + 1
        invariant forall k :: 0 <= k < i ==> !MatchesAt(path1, path2, k)
      {
        var matches := true;
        var j := 0;
        while j < |path1|
          invariant 0 <= j <= |path1|
          invariant matches ==> forall t :: 0 <= t < j ==> path1[t] == path2[i + t]
          invariant !matches ==> !MatchesAt(path1, path2, i)
        {
          if path1[j] != path2[i + j] {
            matches := false;
            break;
          }
          j := j + 1;
        }
        if matches {
          assert MatchesAt(path1, path2, i);
          return true;
        }
        i := i + 1;
      }
      return false;
    }
  }

  /** The enumerations only read the graph (they modify nothing the caller can
      see), so calling them again gives the same sequences in the same order. */
  method EnumerationsRepeat(g: Graph) returns (paths1: seq<seq<int>>, paths2: seq<seq<int>>, cycles1: seq<seq<int>>, cycles2: seq<seq<int>>)
    requires g.Valid() && EdgesInRange(g.adjacencyLists[..])
    ensures paths1 == paths2 && cycles1 == cycles2
  {
    paths1 := g.GetAllPaths();
    cycles1 := g.GetAllCycles();
    paths2 := g.GetAllPaths();
    cycles2 := g.GetAllCycles();
  }
}
