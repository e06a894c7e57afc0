/** How the generator looks for circular dependencies, and what its check misses. */
module CycleCheck {
  import opened Graphs

  // Roots: nodes that no other node depends on.

  predicate IsRoot(g: Graph, u: nat) {
    u < |g| && forall v :: 0 <= v < |g| && v != u ==> u !in g[v]
  }

  predicate Increasing(s: seq<nat>) {
    forall i, j :: 0 <= i < j < |s| ==> s[i] < s[j]
  }

  method FindRoots(g: Graph) returns (roots: seq<nat>)
    ensures forall u: nat :: u in roots <==> IsRoot(g, u)
    ensures Increasing(roots)
  {
    roots := [];
    for action := 0 to |g|
      invariant forall u: nat :: u in roots <==> IsRoot(g, u) && u < action
      invariant Increasing(roots)
    {
      var isRoot := true;
      var other := 0;
      while other < |g| && isRoot
        invariant 0 <= other <= |g|
        invariant isRoot ==> forall v :: 0 <= v < other && v != action ==> action !in g[v]
        invariant !isRoot ==> !IsRoot(g, action)
      {
        if other != action {
          var child := 0;
          while child < |g[other]| && isRoot
            invariant 0 <= child <= |g[other]|
            invariant isRoot ==> action !in g[other][..child]
            invariant !isRoot ==> !IsRoot(g, action)
          {
            if g[other][child] == action {
              isRoot := false;
            }
            child := child + 1;
          }
        }
        other := other + 1;
      }
      if isRoot {
        assert forall i :: 0 <= i < |roots| ==> roots[i] in roots;
        roots := roots + [action];
      }
    }
  }

  lemma RootsInside(g: Graph)
    ensures forall u: nat :: IsRoot(g, u) ==> u < |g|
  {
  }

  // The cycle check.

  ghost predicate OnCycleFrom(g: Graph, u: nat, w: nat) {
    Reaches(g, u, w) && Follows(g, w, w)
  }

  ghost predicate FindsCycle(g: Graph, u: nat) {
    exists w: nat :: OnCycleFrom(g, u, w)
  }

  lemma CycleByEdge(g: Graph, u: nat, c: nat)
    requires Edge(g, u, c) && FindsCycle(g, c)
    ensures FindsCycle(g, u)
  {
    hide Reaches, Follows;
    var w: nat :| OnCycleFrom(g, c, w);
    ReachesByEdge(g, u, c, w);
    assert OnCycleFrom(g, u, w);
  }

  /** An edge back to an earlier node of the path closes a cycle. */
  lemma BackEdge(g: Graph, p: seq<nat>, i: nat)
    requires IsPath(g, p) && i < |p| && Edge(g, p[|p| - 1], p[i])
    ensures FindsCycle(g, p[|p| - 1])
  {
    var u := p[|p| - 1];
    assert PathBetween(g, p[i], u, p[i..]);
    assert Reaches(g, p[i], u);
    ReachesSelf(g, u);
    assert OnCycleFrom(g, u, u);
  }

  /** A cycle reachable from a node is reachable from one of its children. */
  lemma NoCycleBelow(g: Graph, u: nat)
    requires u < |g| && forall k :: 0 <= k < |g[u]| ==> !FindsCycle(g, g[u][k])
    ensures !FindsCycle(g, u)
  {
    hide Reaches, Follows;
    forall w: nat ensures !OnCycleFrom(g, u, w) {
      ChildOnCycle(g, u, w);
    }
  }

  lemma ChildOnCycle(g: Graph, u: nat, w: nat)
    requires u < |g|
    ensures OnCycleFrom(g, u, w) ==> exists k :: 0 <= k < |g[u]| && OnCycleFrom(g, g[u][k], w)
  {
    hide Reaches;
    if OnCycleFrom(g, u, w) {
      ReachesFirst(g, u, w);
      var c: nat :| Edge(g, u, c) && Reaches(g, c, w);
      var k :| 0 <= k < |g[u]| && g[u][k] == c;
      assert OnCycleFrom(g, g[u][k], w);
    }
  }

  /** Searches below `action`, which ends the path visited[..depth]. */
  method FindCycle(g: Graph, action: nat, visited: array<nat>, depth: nat) returns (found: bool)
    requires IsGraph(g) && action < |g| && visited.Length == |g|
    requires 0 < depth <= |g| && IsPath(g, visited[..depth]) && visited[depth - 1] == action
    requires Distinct(visited[..depth]) && forall x <- visited[..depth] :: x < |g|
    modifies visited
    ensures visited[..depth] == old(visited[..depth])
    ensures found <==> FindsCycle(g, action)
    decreases |g| - depth
  {
    hide Reaches, Follows, FindsCycle, IsGraph;
    ghost var path := visited[..depth];
    for child := 0 to |g[action]|
      invariant visited[..depth] == path
      invariant forall k :: 0 <= k < child ==> !FindsCycle(g, g[action][k])
    {
      var c := g[action][child];
      assert Edge(g, action, c);
      for i := 0 to depth
        invariant forall k :: 0 <= k < i ==> visited[k] != c
      {
        if visited[i] == c {
          BackEdge(g, path, i);
          return true;
        }
      }
      ChildInside(g, action, c);
      LongerPath(g, path, c);
      Pigeonhole(path + [c], |g|);
      visited[depth] := c;
      assert visited[..depth + 1] == path + [c];
      var deeper := FindCycle(g, c, visited, depth + 1);
      assert visited[..depth] == visited[..depth + 1][..depth];
      if deeper {
        CycleByEdge(g, action, c);
        return true;
      }
    }
    NoCycleBelow(g, action);
    found := false;
  }

  lemma ChildInside(g: Graph, u: nat, v: nat)
    requires IsGraph(g) && Edge(g, u, v)
    ensures v < |g|
  {
  }

  lemma LongerPath(g: Graph, p: seq<nat>, c: nat)
    requires IsPath(g, p) && Distinct(p) && Edge(g, p[|p| - 1], c) && c !in p
    requires c < |g| && forall x <- p :: x < |g|
    ensures IsPath(g, p + [c]) && Distinct(p + [c]) && forall x <- p + [c] :: x < |g|
  {
  }

  ghost predicate CycleBelow(g: Graph, roots: seq<nat>) {
    exists r :: r in roots && FindsCycle(g, r)
  }

  /** One of the two lists of the check. */
  method FindCycleFromRoots(g: Graph, roots: seq<nat>, visited: array<nat>) returns (found: bool)
    requires IsGraph(g) && (forall r <- roots :: r < |g|) && visited.Length == |g|
    modifies visited
    ensures found <==> CycleBelow(g, roots)
  {
    hide FindsCycle, IsGraph;
    for i := 0 to |roots|
      invariant forall k :: 0 <= k < i ==> !FindsCycle(g, roots[k])
    {
      assert roots[i] in roots;
      visited[0] := roots[i];
      assert visited[..1] == [roots[i]];
      var deeper := FindCycle(g, roots[i], visited, 1);
      if deeper {
        return true;
      }
    }
    found := false;
  }

  method VerifyDependenciesAreAcyclic(runafter: Graph, requirements: Graph, runafterRoots: seq<nat>, requiresRoots: seq<nat>)
    returns (ok: bool)
    requires IsGraph(runafter) && IsGraph(requirements) && |runafter| == |requirements|
    requires (forall r <- runafterRoots :: r < |runafter|) && (forall r <- requiresRoots :: r < |requirements|)
    ensures ok <==> !CycleBelow(runafter, runafterRoots) && !CycleBelow(requirements, requiresRoots)
  {
    var visited := new nat[|runafter|](i => 0);
    var found := FindCycleFromRoots(runafter, runafterRoots, visited);
    if found {
      return false;
    }
    found := FindCycleFromRoots(requirements, requiresRoots, visited);
    ok := !found;
  }

  // What the check from the roots means for the whole graph.

  ghost predicate Passes(g: Graph) {
    forall r: nat :: IsRoot(g, r) ==> !FindsCycle(g, r)
  }

  ghost predicate Covered(g: Graph, u: nat) {
    exists r: nat :: IsRoot(g, r) && Reaches(g, r, u)
  }

  /** The check passes when every cycle is out of reach of the roots; so it finds all
      cycles exactly when the roots cover the graph. */
  lemma PassesExactly(g: Graph)
    requires IsGraph(g)
    ensures Passes(g) <==> forall w: nat :: Covered(g, w) ==> !Follows(g, w, w)
    ensures Acyclic(g) <==> Passes(g) && forall u: nat :: u < |g| ==> Covered(g, u)
  {
    hide Reaches, Follows, IsRoot, IsGraph, Acyclic;
    if Passes(g) {
      forall w: nat | Covered(g, w) ensures !Follows(g, w, w) {
        var r: nat :| IsRoot(g, r) && Reaches(g, r, w);
        assert !OnCycleFrom(g, r, w);
      }
    }
    if forall w: nat :: Covered(g, w) ==> !Follows(g, w, w) {
      forall r: nat | IsRoot(g, r) ensures !FindsCycle(g, r) {
        forall w: nat ensures !OnCycleFrom(g, r, w) {
          assert Reaches(g, r, w) ==> Covered(g, w);
        }
      }
    }
    AcyclicExactly(g);
  }

  lemma AcyclicExactly(g: Graph)
    requires IsGraph(g) && (Passes(g) <==> forall w: nat :: Covered(g, w) ==> !Follows(g, w, w))
    ensures Acyclic(g) <==> Passes(g) && forall u: nat :: u < |g| ==> Covered(g, u)
  {
    hide Reaches, IsRoot, Covered, Passes;
    if Acyclic(g) {
      forall u: nat | u < |g| ensures Covered(g, u) {
        hide Follows;
        CoveredByRoot(g, u);
      }
    }
    if Passes(g) && forall u: nat :: u < |g| ==> Covered(g, u) {
      forall u: nat ensures !Follows(g, u, u) {
        if u < |g| {
          assert Covered(g, u);
        }
      }
    }
  }

  /** In an acyclic graph, going from dependent to dependent ends at a root. */
  lemma {:induction false} CoveredByRoot(g: Graph, u: nat)
    requires IsGraph(g) && Acyclic(g) && u < |g|
    ensures Covered(g, u)
    decreases |g| - Rank(g, u)
  {
    hide Reaches, Acyclic, Rank;
    if IsRoot(g, u) {
      ReachesSelf(g, u);
    } else {
      var v :| 0 <= v < |g| && v != u && u in g[v];
      assert Edge(g, v, u);
      RankDecreases(g, v, u);
      RankBelow(g, v);
      CoveredByRoot(g, v);
      var r: nat :| IsRoot(g, r) && Reaches(g, r, v);
      ReachesEdge(g, v, u);
      ReachesTransitive(g, r, v, u);
    }
  }

  lemma RankBelow(g: Graph, u: nat)
    ensures Rank(g, u) <= |g|
  {
    hide Reaches;
    SubsetSize(ReachableFrom(g, u), Below(|g|));
  }

  ghost function Below(n: nat): (s: set<nat>)
    ensures |s| == n && forall v: nat :: v in s <==> v < n
  {
    if n == 0 then {} else Below(n - 1) + {n - 1}
  }

  /** Two actions that depend on each other pass the check: neither is a root. */
  lemma CycleWithoutRoots()
    ensures Passes([[1], [0]]) && !Acyclic([[1], [0]])
  {
    var g: Graph := [[1], [0]];
    assert g[0] == [1] && g[1] == [0];
    assert !IsRoot(g, 0) by { assert 0 in g[1]; }
    assert !IsRoot(g, 1) by { assert 1 in g[0]; }
    assert Edge(g, 0, 1) && Edge(g, 1, 0);
    ReachesEdge(g, 1, 0);
    assert Follows(g, 0, 0);
  }
}
