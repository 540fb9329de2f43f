# Prime path coverage: a verified model of `Graph`

This project models the `Graph` class of `GraphPathCoverageCalculator.java`. The
class is a directed graph over the vertices `0 .. numberOfVertices - 1`, kept as
an array of successor lists. On top of it sit three brute-force enumerations used
for prime path coverage:

- `getAllPaths` lists every simple path between every ordered pair of vertices,
  including the one-vertex path `[i]` for the pair `(i, i)`;
- `getAllCycles` lists, for every start vertex, the simple cycles that close
  back on it;
- `getUniquePaths` keeps those paths and cycles that are not a contiguous run
  (`isSubPath`) of the path or cycle at any other index.

The model keeps the imperative form of the code:

- `Coverage.Graph` holds the array of successor lists.
- The two recursive helpers work on a shared `array<bool>` of visited markers and
  a shared path buffer (`Coverage.PathList`). They add and remove vertices and set
  and clear markers exactly as the Java does.
- `getUniquePaths` and `isSubPath` are the same nested index loops, with the same
  flags, `break`s and early returns.

Each method is proved equal to a function:

- Module `Enumeration` follows the recursion branch for branch, so the order of
  the results is modelled too. `PathsFrom`/`PathsVia` specify `getAllPathsUtil`;
  `CyclesFrom`/`CyclesVia` specify `getAllCyclesUtil`.
- Module `PrimePaths` states the filter as `Primes`/`Kept` and the sub-path test
  as `SubPath`.
- Module `Exactness` characterises the enumerations completely. A sequence is
  reported for the pair `(i, j)` if and only if it is a simple path from `i` to
  `j`. It is reported for the start `s` if and only if it is a simple cycle that
  starts and ends at `s`.
- Module `Scenarios` works out small graphs in full.

Termination of the searches is proved on the set of unvisited vertices. Marking a
vertex shrinks that set strictly.

The code of `getAllCycles` rediscovers every rotation of a cycle. A search from
`v1` marks only `v1` on entry, so it can walk the whole cycle and close it on `v1`.
`Scenarios.TriangleCycles` shows all three rotations of a triangle being reported.

`localPathList.remove(neighbor)` is `List.remove(Object)`: it removes the first
occurrence of the value. The model proves that this drops exactly the vertex just
appended, because that vertex is never already on the buffer. The closing step of
the cycle search uses `remove(int)` and drops the last position.

## Model

| member | source | states |
|---|---|---|
| Coverage.Graph.constructor | GraphPathCoverageCalculator.java:89-94 | the graph has `numberOfVertices` vertices, each with an empty successor list, in a fresh array |
| Coverage.Graph.AddEdge | GraphPathCoverageCalculator.java:101-103 | `endVertex` is appended at the end of `startVertex`'s successor list; every other list is unchanged; `startVertex` must be a vertex |
| Coverage.Graph.GetAllPaths | GraphPathCoverageCalculator.java:109-120 | the result is `AllPaths` of the successor lists: pairs `(0,0), (0,1), …` in order, each searched with a fresh visited array and the buffer `[i]` |
| Coverage.Graph.GetAllPathsUtil | GraphPathCoverageCalculator.java:130-149 | returns `PathsFrom` of the visited markers and buffer it was given, and restores both markers and buffer exactly before returning |
| Coverage.Graph.GetAllCycles | GraphPathCoverageCalculator.java:155-164 | the result is `AllCycles` of the successor lists: starts `0, 1, …` in order, each with a fresh visited array and the buffer `[s]` |
| Coverage.Graph.GetAllCyclesUtil | GraphPathCoverageCalculator.java:173-191 | returns `CyclesFrom` of the visited markers and buffer it was given, and restores both exactly |
| Coverage.Graph.GetUniquePaths | GraphPathCoverageCalculator.java:197-215 | the result is `Primes(AllPaths ++ AllCycles)`: the elements, in their original order, that are a sub-path of no element at another index |
| Coverage.Graph.IsSubPath | GraphPathCoverageCalculator.java:223-240 | true exactly when `path1` is no longer than `path2` and occurs in it as a contiguous run at some offset, that is, when the run of `path2` of `path1`'s length at some offset `k` equals `path1` |
| Coverage.EnumerationsRepeat | GraphPathCoverageCalculator.java:109-164 | calling `getAllPaths` and `getAllCycles` twice on the same graph gives identical sequences |
| Coverage.PathList.constructor | GraphPathCoverageCalculator.java:114 | a new path buffer is empty |
| Coverage.PathList.Add | GraphPathCoverageCalculator.java:141 | `add` appends the vertex at the end of the buffer |
| Coverage.PathList.Remove | GraphPathCoverageCalculator.java:143 | `remove(Object)` drops the first occurrence of the value, and leaves the buffer alone when the value does not occur |
| Coverage.PathList.RemoveAt | GraphPathCoverageCalculator.java:185 | `remove(int)` drops the element at the given position |
| Coverage.RemoveFirst | GraphPathCoverageCalculator.java:143 | removing an absent value changes nothing; removing a present value shortens the list by one |
| Coverage.RemoveFirstDropsFirst | GraphPathCoverageCalculator.java:143 | when `k` is the first position holding `x`, removing `x` by value drops exactly position `k` and keeps everything before and after it |
| Coverage.RemoveFirstAppended | GraphPathCoverageCalculator.java:141-143 | after appending a vertex the buffer did not hold, removing it by value restores the buffer |
| Coverage.ExtendSearchPath | GraphPathCoverageCalculator.java:137-141 | an unvisited successor is not on the buffer, and appending it keeps the buffer repetition-free with every earlier vertex marked |
| Exactness.PathsFromSound | GraphPathCoverageCalculator.java:130-149 | every path the helper reports extends the buffer by a simple path from `startVertex` to `endVertex` through unvisited vertices |
| Exactness.PathsViaSound | GraphPathCoverageCalculator.java:139-145 | every path collected by the successor loop extends the buffer through a successor of the current vertex by a simple path to `endVertex` |
| Exactness.PathsViaIncludes | GraphPathCoverageCalculator.java:139-145 | whatever the search from an unvisited successor reports is among what the successor loop collects |
| Exactness.PathsFromComplete | GraphPathCoverageCalculator.java:130-149 | every simple path from `startVertex` to `endVertex` through unvisited vertices is reported, appended to the buffer |
| Exactness.PairPathsExact | GraphPathCoverageCalculator.java:113-116 | the pair `(i, j)` yields a sequence if and only if it is a simple path from `i` to `j` |
| Exactness.PairPathsSelf | GraphPathCoverageCalculator.java:132-135 | the pair `(i, i)` yields exactly `[[i]]`, even when `i` has a self-loop |
| Exactness.RowPathsExact | GraphPathCoverageCalculator.java:112-117 | the pairs `(i, 0) … (i, m-1)` yield exactly the simple paths from `i` whose last vertex is below `m` |
| Exactness.PathsOfRowsExact | GraphPathCoverageCalculator.java:111-118 | the rows `0 … m-1` yield exactly the simple paths whose first vertex is below `m` |
| Exactness.AllPathsExact | GraphPathCoverageCalculator.java:109-120 | `getAllPaths` reports a sequence if and only if it is non-empty, starts at a vertex, has no repeated vertex and joins consecutive vertices by edges |
| Exactness.CyclesFromSound | GraphPathCoverageCalculator.java:173-191 | every cycle the helper reports extends the buffer by a repetition-free walk from `startVertex` through unvisited vertices and ends with the buffer's first vertex |
| Exactness.CyclesViaSound | GraphPathCoverageCalculator.java:177-186 | every cycle the successor loop collects goes on through a successor of the current vertex and ends with the buffer's first vertex |
| Exactness.CyclesViaIncludes | GraphPathCoverageCalculator.java:178-181 | whatever the search from an unvisited successor reports is among what the successor loop collects |
| Exactness.CyclesViaCloses | GraphPathCoverageCalculator.java:182-186 | a visited successor equal to the buffer's first vertex yields the buffer closed with that vertex |
| Exactness.CyclesFromComplete | GraphPathCoverageCalculator.java:173-191 | every repetition-free walk through unvisited vertices whose last vertex has an edge back to the buffer's first vertex is reported as a cycle |
| Exactness.StartCyclesSound | GraphPathCoverageCalculator.java:157-161 | everything reported for the start `s` is a simple cycle starting and ending at `s` |
| Exactness.StartCyclesComplete | GraphPathCoverageCalculator.java:157-161 | every simple cycle starting and ending at `s` is reported for the start `s` |
| Exactness.StartCyclesExact | GraphPathCoverageCalculator.java:157-161 | the start `s` yields a sequence if and only if it is a simple cycle starting and ending at `s` |
| Exactness.SelfLoopCycle | GraphPathCoverageCalculator.java:182-186 | a self-loop `s -> s` yields the cycle `[s, s]` |
| Exactness.CyclesUpToExact | GraphPathCoverageCalculator.java:157-162 | the starts `0 … m-1` yield exactly the simple cycles whose first vertex is below `m` |
| Exactness.AllCyclesExact | GraphPathCoverageCalculator.java:155-164 | `getAllCycles` reports a sequence if and only if it is a simple cycle from its own first vertex, so every rotation of a cycle is reported |
| PrimePaths.MatchesAtSlice | GraphPathCoverageCalculator.java:229-234 | the inner loop's element-wise match at offset `k` holds exactly when the run of `q` of `p`'s length at offset `k` equals `p` |
| PrimePaths.SubPathSlice | GraphPathCoverageCalculator.java:223-240 | the sub-path test holds exactly when the shorter path equals the run of the longer one of its own length at some offset |
| PrimePaths.SubPathReflexive | GraphPathCoverageCalculator.java:223-240 | every path is a sub-path of itself |
| PrimePaths.PrimesUpToMembers | GraphPathCoverageCalculator.java:202-213 | after `m` rounds the kept list holds exactly the elements at indices below `m` that are a sub-path of no element at another index |
| PrimePaths.PrimesMembers | GraphPathCoverageCalculator.java:197-215 | the filter keeps a value if and only if it occurs at some index where it is a sub-path of no other index's element |
| PrimePaths.PrimeIsMaximal | GraphPathCoverageCalculator.java:202-213 | a kept element occurs in the input, only once, and is a sub-path of no different element |
| PrimePaths.DuplicatesEliminated | GraphPathCoverageCalculator.java:204-209 | two equal elements at different indices both disappear from the result |
| PrimePaths.SubsumedEliminated | GraphPathCoverageCalculator.java:204-209 | an element that is a contiguous run of a different element disappears from the result |
| PrimePaths.UniquePathsShape | GraphPathCoverageCalculator.java:197-215 | every prime path is a simple path or a simple cycle of the graph and is a sub-path of no different path or cycle of the graph |
| Scenarios.SelfLoop | GraphPathCoverageCalculator.java:130-191 | one vertex with a self-loop: all paths are `[[0]]`, all cycles `[[0, 0]]` |
| Scenarios.SingleEdge | GraphPathCoverageCalculator.java:109-164 | the edge `0 -> 1`: all paths are `[[0], [0, 1], [1]]` and there is no cycle |
| Scenarios.TriangleCycles | GraphPathCoverageCalculator.java:155-191 | the triangle `0 -> 1 -> 2 -> 0` yields its three rotations `[0,1,2,0]`, `[1,2,0,1]`, `[2,0,1,2]`, in that order |
| Scenarios.ParallelEdges | GraphPathCoverageCalculator.java:139-145 | two parallel edges `0 -> 1` make `[0, 1]` appear twice among the paths |
| Scenarios.ParallelEdgesNoPrimes | GraphPathCoverageCalculator.java:197-215 | for that graph the duplicate `[0, 1]` entries eliminate each other and no prime path remains |

## Left out

- `main` (GraphPathCoverageCalculator.java:17-73) is left out: console input through `Scanner`, printing and the totals are I/O.
- The display comparators (GraphPathCoverageCalculator.java:40-49, 57-66) are left out. They only order the output for printing.
- Java `int` width is not modelled. Vertex numbers and lengths are unbounded integers, which makes no difference for graphs small enough to enumerate.
- An out-of-range vertex makes the Java throw an array-index exception. The model does not model that exception. `Coverage.Graph.AddEdge` requires `startVertex` to be a vertex, and the enumerations require every successor to be a vertex (`EdgesInRange`).
- A negative vertex count makes the Java constructor throw. `Coverage.Graph.constructor` takes a natural number instead.
- Java object identity is not modelled. The lists are values, so the model does not capture aliasing between result lists (for example `uniquePaths` sharing the lists of `paths`), `Integer` boxing, or the copy `new ArrayList<>(localPathList)`.
- Coverage.Graph.GetAllPathsUtil: requires the state every call from `getAllPaths` and from itself sets up: the buffer ends at `startVertex`, has no repeated vertex, and marks every earlier vertex visited. Calls of the private helper from any other state are not modelled.
- Coverage.Graph.GetAllCyclesUtil: requires the same search-path state, for the same reason.
- Running time, output size and recursion depth are not modelled. The search is exponential by design.
