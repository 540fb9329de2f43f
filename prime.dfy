/**
 * The prime-path filter of `Graph.getUniquePaths` and the sub-path test `isSubPath`
 * it relies on, stated over sequences of vertex sequences.
 */
module PrimePaths {
  import opened Enumeration
  import opened Exactness

  /** `p` occurs in `q` as a contiguous run starting at offset `k`. */
  predicate MatchesAt(p: seq<int>, q: seq<int>, k: int)
  {
    0 <= k && k + |p| <= |q| && forall t :: 0 <= t < |p| ==> p[t] == q[k + t]
  }

  /** `p` is a contiguous run of `q`: never when `p` is the longer of the two. */
  predicate SubPath(p: seq<int>, q: seq<int>)
  {
    |p| <= |q| && exists k :: 0 <= k <= |q| - |p| && MatchesAt(p, q, k)
  }

  lemma MatchesAtSlice(p: seq<int>, q: seq<int>, k: int)
    requires 0 <= k <= |q| - |p|
    ensures MatchesAt(p, q, k) <==> q[k..k + |p|] == p
  {
    if MatchesAt(p, q, k) {
      assert q[k..k + |p|] == p;
    }
  }

  /** The run of `q` of length `n` that starts at offset `k`. */
  function Window(q: seq<int>, k: int, n: nat): (r: seq<int>)
    requires 0 <= k && k + n <= |q|
  {
    q[k..k + n]
  }

  /** The sub-path test in slice form: `p` is one of the runs of `q` of its own length. */
  lemma SubPathSlice(p: seq<int>, q: seq<int>)
    ensures SubPath(p, q) <==> |p| <= |q| && exists k :: 0 <= k <= |q| - |p| && Window(q, k, |p|) == p
  {
    forall k | 0 <= k <= |q| - |p| ensures MatchesAt(p, q, k) <==> Window(q, k, |p|) == p {
      MatchesAtSlice(p, q, k);
    }
  }

  /** Every sequence is a sub-path of itself. */
  lemma SubPathReflexive(p: seq<int>)
    ensures SubPath(p, p)
  {
    assert MatchesAt(p, p, 0);
  }

  /** Element `i` of `u` survives the filter: it is not a sub-path of the element at
      any other index, equal elements included. */
  predicate Kept(u: seq<seq<int>>, i: int)
    requires 0 <= i < |u|
  {
    forall j :: 0 <= j < |u| && j != i ==> !SubPath(u[i], u[j])
  }

  /** The survivors among `u[..m]`, in their original order. */
  function PrimesUpTo(u: seq<seq<int>>, m: nat): (r: seq<seq<int>>)
    requires m <= |u|
  {
    if m == 0 then []
    else PrimesUpTo(u, m - 1) + (if Kept(u, m - 1) then [u[m - 1]] else [])
  }

  /** The result of `getUniquePaths` when `u` is the union of paths and cycles. */
  function Primes(u: seq<seq<int>>): (r: seq<seq<int>>)
  {
    PrimesUpTo(u, |u|)
  }

  lemma {:induction false} PrimesUpToMembers(u: seq<seq<int>>, m: nat, x: seq<int>)
    requires m <= |u|
    ensures x in PrimesUpTo(u, m) <==> exists i :: 0 <= i < m && u[i] == x && Kept(u, i)
  {
    if m > 0 {
      PrimesUpToMembers(u, m - 1, x);
    }
  }

  /** The filter keeps exactly the elements that are sub-paths of no element at
      another index. */
  lemma PrimesMembers(u: seq<seq<int>>, x: seq<int>)
    ensures x in Primes(u) <==> exists i :: 0 <= i < |u| && u[i] == x && Kept(u, i)
  {
    PrimesUpToMembers(u, |u|, x);
  }

  /** A survivor occurs exactly once in `u` and is a sub-path of no other element. */
  lemma PrimeIsMaximal(u: seq<seq<int>>, x: seq<int>)
    requires x in Primes(u)
    ensures x in u
    ensures forall j, k :: 0 <= j < k < |u| && u[j] == x ==> u[k] != x
    ensures forall j :: 0 <= j < |u| && u[j] != x ==> !SubPath(x, u[j])
  {
    PrimesMembers(u, x);
    var i :| 0 <= i < |u| && u[i] == x && Kept(u, i);
    SubPathReflexive(x);
  }

  /** Two equal elements at different indices eliminate each other. */
  lemma DuplicatesEliminated(u: seq<seq<int>>, i: int, j: int)
    requires 0 <= i < |u| && 0 <= j < |u| && i != j && u[i] == u[j]
    ensures u[i] !in Primes(u)
  {
    if u[i] in Primes(u) {
      PrimeIsMaximal(u, u[i]);
    }
  }

  /** An element that is a contiguous run of a different element is dropped. */
  lemma SubsumedEliminated(u: seq<seq<int>>, x: seq<int>, j: int)
    requires 0 <= j < |u| && u[j] != x && SubPath(x, u[j])
    ensures x !in Primes(u)
  {
    if x in Primes(u) {
      PrimeIsMaximal(u, x);
    }
  }

  /** What `getUniquePaths` reports is a simple path or a simple cycle of the graph
      that is not a contiguous run of any other path or cycle of the graph. */
  lemma UniquePathsShape(adj: seq<seq<int>>, x: seq<int>)
    requires EdgesInRange(adj)
    requires x in Primes(AllPaths(adj) + AllCycles(adj))
    ensures (|x| >= 1 && 0 <= x[0] < |adj| && Distinct(x) && IsWalk(adj, x))
         || (|x| >= 2 && 0 <= x[0] < |adj| && IsSimpleCycle(adj, x, x[0]))
    ensures forall y :: (y in AllPaths(adj) || y in AllCycles(adj)) && y != x ==> !SubPath(x, y)
  {
    var u := AllPaths(adj) + AllCycles(adj);
    PrimeIsMaximal(u, x);
    AllPathsExact(adj, x);
    AllCyclesExact(adj, x);
    forall y | (y in AllPaths(adj) || y in AllCycles(adj)) && y != x ensures !SubPath(x, y) {
      assert y in u;
      var j :| 0 <= j < |u| && u[j] == y;
    }
  }
}
