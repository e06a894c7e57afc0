/** The removal of dependencies that follow from others, in place. */
module Reduction {
  import opened Graphs

  method IsIndirectlyConnected(deps: array<seq<nat>>, current: nat, target: nat) returns (connected: bool)
    requires IsGraph(deps[..]) && Acyclic(deps[..]) && current < deps.Length
    ensures connected <==> Reaches(deps[..], current, target)
    decreases Rank(deps[..], current)
  {
    ghost var g := deps[..];
    ReachesSelf(g, current);
    hide Reaches, Acyclic, Rank;
    if current == target {
      return true;
    }
    for child := 0 to |deps[current]|
      invariant forall k :: 0 <= k < child ==> !Reaches(g, g[current][k], target)
    {
      var c := deps[current][child];
      RankDecreases(g, current, c);
      var deeper := IsIndirectlyConnected(deps, c, target);
      if deeper {
        ReachesByEdge(g, current, c, target);
        return true;
      }
    }
    NotReached(g, current, target);
    connected := false;
  }

  lemma NotReached(g: Graph, u: nat, v: nat)
    requires u < |g| && u != v && forall k :: 0 <= k < |g[u]| ==> !Reaches(g, g[u][k], v)
    ensures !Reaches(g, u, v)
  {
    hide Reaches;
    if Reaches(g, u, v) {
      ReachesFirst(g, u, v);
    }
  }

  /** Another dependency of `from` leads to `to`. */
  ghost predicate Detour(g: Graph, from: nat, to: nat)
    requires from < |g|
  {
    exists k :: 0 <= k < |g[from]| && g[from][k] != to && Reaches(g, g[from][k], to)
  }

  method IsMostDirectPath(deps: array<seq<nat>>, from: nat, to: nat) returns (direct: bool)
    requires IsGraph(deps[..]) && Acyclic(deps[..]) && from < deps.Length
    ensures direct <==> !Detour(deps[..], from, to)
  {
    hide Reaches, Acyclic;
    for child := 0 to |deps[from]|
      invariant forall k :: 0 <= k < child ==> deps[from][k] == to || !Reaches(deps[..], deps[from][k], to)
    {
      if deps[from][child] != to {
        var connected := IsIndirectlyConnected(deps, deps[from][child], to);
        if connected {
          assert Reaches(deps[..], deps[..][from][child], to);
          return false;
        }
      }
    }
    direct := true;
  }

  // In the graph as written: a path of at least two edges.

  ghost predicate Indirect(g: Graph, u: nat, v: nat) {
    exists w: nat :: Edge(g, u, w) && Follows(g, w, v)
  }

  ghost function Direct(g: Graph, u: nat, children: seq<nat>): seq<nat> {
    if children == [] then []
    else
      var n := |children| - 1;
      Direct(g, u, children[..n]) + if Indirect(g, u, children[n]) then [] else [children[n]]
  }

  ghost predicate SameReach(g: Graph, h: Graph) {
    forall u: nat, v: nat :: Reaches(g, u, v) <==> Reaches(h, u, v)
  }

  ghost predicate Subgraph(h: Graph, g: Graph) {
    |h| == |g| && forall u: nat, v: nat :: Edge(h, u, v) ==> Edge(g, u, v)
  }

  /** The pass has finished the lists below `action` and the first `n` entries of its list. */
  ghost predicate Reducing(g: Graph, h: Graph, action: nat, n: nat) {
    && |h| == |g| && (forall u :: 0 <= u < action && u < |g| ==> h[u] == Direct(g, u, g[u]))
    && (action < |g| ==> n <= |g[action]| && h[action] == Direct(g, action, g[action][..n]) + g[action][n..])
    && (forall u :: action < u < |g| ==> h[u] == g[u])
    && SameReach(g, h) && Subgraph(h, g)
  }

  /** The test on the partly reduced graph has the same outcome as on the original. */
  lemma DetourIsIndirect(g: Graph, h: Graph, u: nat, v: nat)
    requires Acyclic(g) && SameReach(g, h) && Subgraph(h, g) && Edge(h, u, v)
    ensures Detour(h, u, v) <==> Indirect(g, u, v)
  {
    hide Reaches, Follows, Acyclic;
    if Detour(h, u, v) {
      var k :| 0 <= k < |h[u]| && h[u][k] != v && Reaches(h, h[u][k], v);
      assert Edge(h, u, h[u][k]);
      assert Reaches(g, h[u][k], v);
      ReachesFirst(g, h[u][k], v);
    }
    if Indirect(g, u, v) {
      var w: nat :| Edge(g, u, w) && Follows(g, w, v);
      IndirectIsDetour(g, h, u, w, v);
    }
  }

  lemma IndirectIsDetour(g: Graph, h: Graph, u: nat, w: nat, v: nat)
    requires Acyclic(g) && SameReach(g, h) && Subgraph(h, g) && u < |h|
    requires Edge(g, u, w) && Follows(g, w, v)
    ensures Detour(h, u, v)
  {
    hide Reaches;
    ReachesEdge(g, u, w);
    assert !Follows(g, w, w);
    assert u != w;
    ReachesFirst(h, u, w);
    var c: nat :| Edge(h, u, c) && Reaches(h, c, w);
    assert Reaches(g, c, w);
    ThenFollows(g, c, w, v);
    assert c != v;
    FollowsReaches(g, c, v);
    var k :| 0 <= k < |h[u]| && h[u][k] == c;
    assert Reaches(h, h[u][k], v);
  }

  /** Removing an edge with a detour keeps reachability. */
  lemma {:induction false} RemovalKeepsReach(h: Graph, k: Graph, u: nat, v: nat, x: nat, y: nat)
    requires IsGraph(h) && Acyclic(h) && u < |h| && Detour(h, u, v)
    requires forall a: nat, b: nat :: Edge(h, a, b) && !(a == u && b == v) ==> Edge(k, a, b)
    requires Reaches(h, x, y)
    ensures Reaches(k, x, y)
    decreases Rank(h, x)
  {
    hide Reaches, Acyclic, Rank;
    ReachesSelf(k, x);
    if x != y {
      ReachesFirst(h, x, y);
      var z: nat :| Edge(h, x, z) && Reaches(h, z, y);
      RankDecreases(h, x, z);
      RemovalKeepsReach(h, k, u, v, z, y);
      if x == u && z == v {
        var i :| 0 <= i < |h[u]| && h[u][i] != v && Reaches(h, h[u][i], v);
        var c := h[u][i];
        RankDecreases(h, u, c);
        RemovalKeepsReach(h, k, u, v, c, v);
        ReachesTransitive(k, c, v, y);
        ReachesByEdge(k, u, c, y);
      } else {
        ReachesByEdge(k, x, z, y);
      }
    }
  }

  lemma {:induction false} SubgraphReach(h: Graph, g: Graph, p: seq<nat>)
    requires Subgraph(h, g) && IsPath(h, p)
    ensures IsPath(g, p)
  {
  }

  lemma SubgraphAcyclic(h: Graph, g: Graph)
    requires Subgraph(h, g) && Acyclic(g)
    ensures Acyclic(h)
  {
    forall u: nat ensures !Follows(h, u, u) {
      assert !Follows(g, u, u);
      forall w: nat | Edge(h, u, w) ensures !Reaches(h, w, u) {
        assert !Reaches(g, w, u);
        forall p | PathBetween(h, w, u, p) ensures PathBetween(g, w, u, p) {
          SubgraphReach(h, g, p);
        }
      }
    }
  }

  ghost predicate NoDuplicates(g: Graph) {
    forall u :: 0 <= u < |g| ==> Distinct(g[u])
  }

  /** Moves everything behind position `i` one place forward. */
  method RemoveAt(list: seq<nat>, i: nat) returns (r: seq<nat>)
    requires i < |list|
    ensures r == list[..i] + list[i + 1..]
  {
    r := list;
    var dst := i;
    while dst < |list| - 1
      invariant i <= dst <= |list| - 1 && |r| == |list|
      invariant r[..dst] == list[..i] + list[i + 1..dst + 1]
      invariant r[dst + 1..] == list[dst + 1..]
    {
      assert r[dst + 1] == r[dst + 1..][0] == list[dst + 1];
      r := r[dst := r[dst + 1]];
      dst := dst + 1;
    }
    r := r[..dst];
  }

  /** The pass over all lists, in place; later tests see the lists already shortened. */
  method RemoveIndirectDependencies(deps: array<seq<nat>>)
    requires IsGraph(deps[..]) && Acyclic(deps[..]) && NoDuplicates(deps[..])
    modifies deps
    ensures forall u :: 0 <= u < deps.Length ==> deps[u] == Direct(old(deps[..]), u, old(deps[u]))
    ensures SameReach(old(deps[..]), deps[..]) && Subgraph(deps[..], old(deps[..]))
  {
    hide Reaches, Acyclic, IsGraph, NoDuplicates, Reducing, SameReach, Subgraph, Direct;
    ghost var g := deps[..];
    StartReducing(g);
    for action := 0 to deps.Length
      invariant Reducing(g, deps[..], action, 0)
    {
      RemoveIndirectFrom(deps, action, g);
    }
    Reduced(g, deps[..]);
  }

  method RemoveIndirectFrom(deps: array<seq<nat>>, action: nat, ghost g: Graph)
    requires IsGraph(g) && Acyclic(g) && NoDuplicates(g)
    requires action < deps.Length == |g| && Reducing(g, deps[..], action, 0)
    modifies deps
    ensures Reducing(g, deps[..], action + 1, 0)
  {
    hide Reaches, Acyclic, IsGraph, NoDuplicates, Reducing, SameReach, Subgraph, Direct, Detour, Indirect;
    var child := 0;
    ghost var n := 0;
    ReducingList(g, deps[..], action, 0);
    NothingDirect(g, action);
    while child < |deps[action]|
      invariant n <= |g[action]| && child == |Direct(g, action, g[action][..n])|
      invariant deps[action] == Direct(g, action, g[action][..n]) + g[action][n..]
      invariant Reducing(g, deps[..], action, n)
      decreases |g[action]| - n
    {
      ReducedIsGraph(g, deps[..], action, n);
      var direct := IsMostDirectPath(deps, action, deps[action][child]);
      assert deps[action][child] == g[action][n];
      DirectlyNext(g, action, n);
      if direct {
        KeepOne(g, deps[..], action, n);
        child := child + 1;
      } else {
        RemoveOne(g, deps[..], action, n);
        var shorter := RemoveAt(deps[action], child);
        deps[action] := shorter;
      }
      n := n + 1;
      ReducingList(g, deps[..], action, n);
    }
    NextList(g, deps[..], action);
  }

  lemma NothingDirect(g: Graph, u: nat)
    requires u < |g|
    ensures Direct(g, u, g[u][..0]) == []
  {
  }

  lemma StartReducing(g: Graph)
    ensures Reducing(g, g, 0, 0)
  {
    hide Reaches;
    assert |g| > 0 ==> g[0] == [] + g[0][0..];
  }

  lemma ReducingList(g: Graph, h: Graph, action: nat, n: nat)
    requires Reducing(g, h, action, n) && action < |g|
    ensures |h| == |g| && n <= |g[action]| && h[action] == Direct(g, action, g[action][..n]) + g[action][n..]
  {
  }

  lemma ReducedIsGraph(g: Graph, h: Graph, action: nat, n: nat)
    requires IsGraph(g) && Acyclic(g) && Reducing(g, h, action, n)
    ensures IsGraph(h) && Acyclic(h)
  {
    hide Reaches, Acyclic, SameReach;
    SubgraphAcyclic(h, g);
    forall u, i | 0 <= u < |h| && 0 <= i < |h[u]| ensures h[u][i] < |h| {
      assert Edge(h, u, h[u][i]);
      assert Edge(g, u, h[u][i]);
    }
  }

  lemma DirectlyNext(g: Graph, u: nat, n: nat)
    requires u < |g| && n < |g[u]|
    ensures Direct(g, u, g[u][..n + 1])
      == Direct(g, u, g[u][..n]) + if Indirect(g, u, g[u][n]) then [] else [g[u][n]]
    ensures g[u][n..] == [g[u][n]] + g[u][n + 1..]
  {
    assert g[u][..n + 1][..n] == g[u][..n];
  }

  lemma KeepOne(g: Graph, h: Graph, u: nat, n: nat)
    requires Acyclic(g) && Reducing(g, h, u, n) && u < |g| && n < |g[u]| && !Detour(h, u, g[u][n])
    ensures Reducing(g, h, u, n + 1) && !Indirect(g, u, g[u][n])
  {
    hide Reaches, Acyclic, SameReach, Subgraph, Indirect;
    DirectlyNext(g, u, n);
    assert g[u][n] == h[u][|Direct(g, u, g[u][..n])|];
    DetourIsIndirect(g, h, u, g[u][n]);
  }

  lemma RemoveOne(g: Graph, h: Graph, u: nat, n: nat)
    requires IsGraph(g) && Acyclic(g) && NoDuplicates(g) && Reducing(g, h, u, n) && u < |g| && n < |g[u]|
    requires Detour(h, u, g[u][n])
    ensures Indirect(g, u, g[u][n])
    ensures var i := |Direct(g, u, g[u][..n])|;
      Reducing(g, h[u := h[u][..i] + h[u][i + 1..]], u, n + 1)
  {
    hide Reaches, Acyclic, IsGraph, Reducing, SameReach, Subgraph, Direct, Detour, Indirect, NoDuplicates;
    var v := g[u][n];
    var i := |Direct(g, u, g[u][..n])|;
    ReducedIsGraph(g, h, u, n);
    ReducingReach(g, h, u, n);
    ReducingList(g, h, u, n);
    assert v == h[u][i];
    DetourIsIndirect(g, h, u, v);
    OthersStay(h, u, i);
    var k := h[u := h[u][..i] + h[u][i + 1..]];
    RemovalKeepsAll(g, h, k, u, v);
    SubgraphTransitive(k, h, g);
    Shortened(g, h, u, n, k);
  }

  lemma ReducingReach(g: Graph, h: Graph, u: nat, n: nat)
    requires Reducing(g, h, u, n)
    ensures SameReach(g, h) && Subgraph(h, g)
  {
  }

  lemma SubgraphTransitive(k: Graph, h: Graph, g: Graph)
    requires Subgraph(k, h) && Subgraph(h, g)
    ensures Subgraph(k, g)
  {
  }

  lemma Shortened(g: Graph, h: Graph, u: nat, n: nat, k: Graph)
    requires Reducing(g, h, u, n) && u < |g| && n < |g[u]| && Indirect(g, u, g[u][n])
    requires SameReach(g, k) && Subgraph(k, g)
    requires var i := |Direct(g, u, g[u][..n])|; k == h[u := h[u][..i] + h[u][i + 1..]]
    ensures Reducing(g, k, u, n + 1)
  {
    hide SameReach, Subgraph, Indirect;
    DirectlyNext(g, u, n);
    hide Direct;
    var i := |Direct(g, u, g[u][..n])|;
    assert h[u][i + 1..] == g[u][n + 1..];
    assert h[u][..i] == Direct(g, u, g[u][..n]);
  }

  lemma RemovalKeepsAll(g: Graph, h: Graph, k: Graph, u: nat, v: nat)
    requires SameReach(g, h) && Subgraph(k, h) && IsGraph(h) && Acyclic(h) && u < |h| && Detour(h, u, v)
    requires forall a: nat, b: nat :: Edge(h, a, b) && !(a == u && b == v) ==> Edge(k, a, b)
    ensures SameReach(g, k)
  {
    hide Reaches, Acyclic, Detour, IsGraph, Edge;
    forall x: nat, y: nat ensures Reaches(g, x, y) <==> Reaches(k, x, y) {
      if Reaches(h, x, y) {
        RemovalKeepsReach(h, k, u, v, x, y);
      }
      if Reaches(k, x, y) {
        SubgraphReaches(k, h, x, y);
      }
    }
  }

  lemma SubgraphReaches(h: Graph, g: Graph, u: nat, v: nat)
    requires Subgraph(h, g) && Reaches(h, u, v)
    ensures Reaches(g, u, v)
  {
    var p :| PathBetween(h, u, v, p);
    SubgraphReach(h, g, p);
    assert PathBetween(g, u, v, p);
  }

  lemma OthersStay(h: Graph, u: nat, i: nat)
    requires u < |h| && i < |h[u]|
    ensures var k := h[u := h[u][..i] + h[u][i + 1..]];
      && Subgraph(k, h)
      && forall a: nat, b: nat :: Edge(h, a, b) && !(a == u && b == h[u][i]) ==> Edge(k, a, b)
  {
    var k := h[u := h[u][..i] + h[u][i + 1..]];
    forall a: nat, b: nat | Edge(h, a, b) && !(a == u && b == h[u][i]) ensures Edge(k, a, b) {
      if a == u {
        var j :| 0 <= j < |h[u]| && h[u][j] == b;
        assert k[u][if j < i then j else j - 1] == b;
      }
    }
  }

  lemma NextList(g: Graph, h: Graph, u: nat)
    requires u < |g| && Reducing(g, h, u, |g[u]|)
    ensures Reducing(g, h, u + 1, 0)
  {
    hide Reaches, SameReach, Subgraph, Indirect;
    assert g[u][..|g[u]|] == g[u];
    assert u + 1 < |g| ==> g[u + 1] == Direct(g, u + 1, g[u + 1][..0]) + g[u + 1][0..];
  }

  lemma Reduced(g: Graph, h: Graph)
    requires Reducing(g, h, |g|, 0)
    ensures |h| == |g| && SameReach(g, h) && Subgraph(h, g) && forall u :: 0 <= u < |g| ==> h[u] == Direct(g, u, g[u])
  {
    hide SameReach, Subgraph, Indirect;
  }

  // What the reduced graph is, and what it keeps.

  ghost predicate IsReduction(g: Graph, h: Graph) {
    |h| == |g| && forall u :: 0 <= u < |g| ==> h[u] == Direct(g, u, g[u])
  }

  lemma {:induction false} DirectExactly(g: Graph, u: nat, children: seq<nat>, v: nat)
    ensures v in Direct(g, u, children) <==> v in children && !Indirect(g, u, v)
  {
    hide Indirect;
    if children != [] {
      var n := |children| - 1;
      DirectExactly(g, u, children[..n], v);
      assert children == children[..n] + [children[n]];
    }
  }

  /** An edge is kept exactly when the original graph has no longer path beside it. */
  lemma ReductionExactly(g: Graph, h: Graph, u: nat, v: nat)
    requires IsReduction(g, h)
    ensures Edge(h, u, v) <==> Edge(g, u, v) && !Indirect(g, u, v)
  {
    hide Indirect;
    if u < |g| {
      DirectExactly(g, u, g[u], v);
    }
  }

  /** Priorities computed before the reduction are also those of the reduced graph. */
  lemma {:induction false} ReductionKeepsHeight(g: Graph, h: Graph, u: nat)
    requires IsGraph(g) && Acyclic(g) && IsGraph(h) && Acyclic(h) && IsReduction(g, h) && u < |g|
    ensures Height(h, u) == Height(g, u)
    decreases Rank(g, u)
  {
    hide Acyclic, Height, Rank, Indirect, Direct;
    forall v: nat | Edge(h, u, v) ensures v < |g| && Height(h, v) == Height(g, v) < Height(g, u) {
      ReductionExactly(g, h, u, v);
      RankDecreases(g, u, v);
      HeightOfChild(g, u, v);
      ReductionKeepsHeight(g, h, v);
    }
    if g[u] == [] {
      NoChildrenLeft(g, h, u);
      NoChildren(g, u);
      NoChildren(h, u);
    } else {
      var top := HeightAttained(g, u);
      TopStays(g, h, u, top);
      HeightOfChild(h, u, top);
      var other := HeightAttained(h, u);
    }
  }

  lemma NoChildren(g: Graph, u: nat)
    requires IsGraph(g) && Acyclic(g) && u < |g| && g[u] == []
    ensures Height(g, u) == 0
  {
  }

  lemma NoChildrenLeft(g: Graph, h: Graph, u: nat)
    requires IsReduction(g, h) && u < |g| && g[u] == []
    ensures h[u] == []
  {
  }

  lemma TopStays(g: Graph, h: Graph, u: nat, v: nat)
    requires IsGraph(g) && Acyclic(g) && IsReduction(g, h) && Edge(g, u, v) && v < |g|
    requires Height(g, u) == Height(g, v) + 1
    ensures Edge(h, u, v)
  {
    hide Acyclic, Height, Direct, Reaches, Follows;
    ReductionExactly(g, h, u, v);
    forall w: nat | Edge(g, u, w) ensures !Follows(g, w, v) {
      HeightOfChild(g, u, w);
      if Follows(g, w, v) {
        HeightFollows(g, w, v);
      }
    }
  }
}
