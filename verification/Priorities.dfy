/** The priority of an action: how many others must run before it, one after the other. */
module Priorities {
  import opened Graphs
  import opened CycleCheck

  /** Before the pass only the priorities of actions without dependencies matter. */
  predicate LeavesAreZero(g: Graph, priority: seq<int>) {
    |priority| == |g| && forall u :: 0 <= u < |g| && g[u] == [] ==> priority[u] == 0
  }

  /** Everything `u` reaches has its height as priority; nothing else has changed. */
  ghost predicate AssignedBelow(g: Graph, u: nat, was: seq<int>, priority: seq<int>)
    requires IsGraph(g) && Acyclic(g)
  {
    && |priority| == |was| == |g|
    && forall v: nat :: v < |g| ==> priority[v] == if Reaches(g, u, v) then Height(g, v) else was[v]
  }

  /** The same for the first `n` children of `u`; the priority of `u` may be overwritten. */
  ghost predicate AssignedChildren(g: Graph, u: nat, n: nat, was: seq<int>, priority: seq<int>)
    requires IsGraph(g) && Acyclic(g) && u < |g| && n <= |g[u]|
  {
    && |priority| == |was| == |g|
    && forall v: nat :: v < |g| && v != u ==> priority[v] == if ReachedByFirst(g, u, n, v) then Height(g, v) else was[v]
  }

  ghost predicate ReachedByFirst(g: Graph, u: nat, n: nat, v: nat)
    requires u < |g| && n <= |g[u]|
  {
    exists i :: 0 <= i < n && Reaches(g, g[u][i], v)
  }

  method AssignPriorities(g: Graph, action: nat, priority: array<int>) returns (result: int)
    requires IsGraph(g) && Acyclic(g) && action < |g|
    requires priority.Length == |g| && LeavesAreZero(g, priority[..])
    modifies priority
    ensures result == Height(g, action) == priority[action]
    ensures LeavesAreZero(g, priority[..]) && AssignedBelow(g, action, old(priority[..]), priority[..])
    decreases Rank(g, action)
  {
    hide Reaches, Acyclic, Height, Rank, Follows;
    ghost var was := priority[..];
    for child := 0 to |g[action]|
      invariant LeavesAreZero(g, priority[..])
      invariant AssignedChildren(g, action, child, was, priority[..])
      invariant child > 0 ==> priority[action] == Height(g, g[action][child - 1]) + 1
      invariant child == 0 ==> priority[action] == was[action]
    {
      var c := g[action][child];
      RankDecreases(g, action, c);
      ghost var before := priority[..];
      var childPriority := AssignPriorities(g, c, priority);
      ghost var after := priority[..];
      priority[action] := childPriority + 1;
      OneMoreChild(g, action, child, was, before, after, priority[..]);
    }
    var n := |g[action]|;
    ChildrenAssigned(g, action, was, priority[..]);
    var smallestPriority := -1;
    for child := 0 to n
      invariant smallestPriority == Above(g, action, child) - 1
    {
      if smallestPriority < priority[g[action][child]] {
        smallestPriority := priority[g[action][child]];
      }
    }
    HeightIsAbove(g, action);
    if n > 0 {
      AboveBounds(g, action, n);
      assert priority[action] <= Height(g, action);
    }
    if priority[action] < smallestPriority + 1 {
      priority[action] := smallestPriority + 1;
    }
    AllAssigned(g, action, was, priority[..]);
    result := priority[action];
  }

  lemma HeightIsAbove(g: Graph, u: nat)
    requires IsGraph(g) && Acyclic(g) && u < |g|
    ensures Height(g, u) == Above(g, u, |g[u]|)
  {
  }

  lemma OneMoreChild(g: Graph, u: nat, n: nat, was: seq<int>, before: seq<int>, after: seq<int>, priority: seq<int>)
    requires IsGraph(g) && Acyclic(g) && u < |g| && n < |g[u]|
    requires AssignedChildren(g, u, n, was, before) && AssignedBelow(g, g[u][n], before, after)
    requires |priority| == |g| && priority == after[u := priority[u]]
    ensures AssignedChildren(g, u, n + 1, was, priority)
  {
    hide Reaches, Acyclic, Height, Rank;
    forall v: nat | v < |g| && v != u
      ensures priority[v] == if ReachedByFirst(g, u, n + 1, v) then Height(g, v) else was[v]
    {
      assert priority[v] == after[v];
      if Reaches(g, g[u][n], v) {
        assert ReachedByFirst(g, u, n + 1, v);
      } else if ReachedByFirst(g, u, n, v) {
        assert ReachedByFirst(g, u, n + 1, v);
      } else {
        assert !ReachedByFirst(g, u, n + 1, v);
      }
    }
  }

  lemma ChildrenAssigned(g: Graph, u: nat, was: seq<int>, priority: seq<int>)
    requires IsGraph(g) && Acyclic(g) && u < |g| && AssignedChildren(g, u, |g[u]|, was, priority)
    ensures forall i :: 0 <= i < |g[u]| ==> priority[g[u][i]] == Height(g, g[u][i])
  {
    hide Reaches, Acyclic, Height, Rank;
    forall i | 0 <= i < |g[u]| ensures priority[g[u][i]] == Height(g, g[u][i]) {
      var c := g[u][i];
      ReachesSelf(g, c);
      assert ReachedByFirst(g, u, |g[u]|, c);
      HeightOfChild(g, u, c);
    }
  }

  lemma AllAssigned(g: Graph, u: nat, was: seq<int>, priority: seq<int>)
    requires IsGraph(g) && Acyclic(g) && u < |g| && AssignedChildren(g, u, |g[u]|, was, priority)
    requires priority[u] == Height(g, u)
    ensures AssignedBelow(g, u, was, priority)
  {
    hide Reaches, Acyclic, Height, Rank;
    ReachesSelf(g, u);
    forall v: nat | v < |g| && v != u ensures Reaches(g, u, v) <==> ReachedByFirst(g, u, |g[u]|, v) {
      if Reaches(g, u, v) {
        ReachesFirst(g, u, v);
        var w: nat :| Edge(g, u, w) && Reaches(g, w, v);
        var i :| 0 <= i < |g[u]| && g[u][i] == w;
        assert Reaches(g, g[u][i], v);
      }
      if ReachedByFirst(g, u, |g[u]|, v) {
        var i :| 0 <= i < |g[u]| && Reaches(g, g[u][i], v);
        ReachesByEdge(g, u, g[u][i], v);
      }
    }
  }

  /** From zeros, the roots of an acyclic graph give every action its height. */
  method CalculatePriorities(g: Graph, roots: seq<nat>, priority: array<int>)
    requires IsGraph(g) && Acyclic(g) && priority.Length == |g|
    requires forall u: nat :: u in roots <==> IsRoot(g, u)
    requires forall u :: 0 <= u < |g| ==> priority[u] == 0
    modifies priority
    ensures forall u: nat :: u < |g| ==> priority[u] == Height(g, u)
  {
    hide Reaches, Acyclic, Height, Rank, IsRoot;
    assert forall r <- roots :: r < |g| by { RootsInside(g); }
    for i := 0 to |roots|
      invariant LeavesAreZero(g, priority[..])
      invariant forall k: nat, v: nat :: k < i && v < |g| && Reaches(g, roots[k], v) ==> priority[v] == Height(g, v)
    {
      assert roots[i] in roots;
      var ignored := AssignPriorities(g, roots[i], priority);
    }
    forall u: nat | u < |g| ensures priority[u] == Height(g, u) {
      CoveredByRoot(g, u);
      var r: nat :| IsRoot(g, r) && Reaches(g, r, u);
      var k :| 0 <= k < |roots| && roots[k] == r;
    }
  }
}
