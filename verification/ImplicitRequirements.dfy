/** Required actions are given on the command line, so none may be implicit. */
module ImplicitRequirements {
  import opened Graphs
  import opened CycleCheck

  ghost predicate RequiresImplicit(g: Graph, implicit: seq<bool>, u: nat) {
    exists v: nat :: v < |implicit| && implicit[v] && Follows(g, u, v)
  }

  method RequiresDependsOnImplicitAction(g: Graph, implicit: seq<bool>, action: nat) returns (found: bool)
    requires IsGraph(g) && Acyclic(g) && |implicit| == |g| && action < |g|
    ensures found <==> RequiresImplicit(g, implicit, action)
    decreases Rank(g, action)
  {
    hide Reaches, Follows, Acyclic, Rank, RequiresImplicit;
    for child := 0 to |g[action]|
      invariant forall k :: 0 <= k < child ==> !implicit[g[action][k]] && !RequiresImplicit(g, implicit, g[action][k])
    {
      var c := g[action][child];
      assert Edge(g, action, c);
      ImplicitByEdge(g, implicit, action, c);
      if implicit[c] {
        return true;
      }
      RankDecreases(g, action, c);
      var deeper := RequiresDependsOnImplicitAction(g, implicit, c);
      if deeper {
        return true;
      }
    }
    NoImplicitBelow(g, implicit, action);
    found := false;
  }

  lemma ImplicitByEdge(g: Graph, implicit: seq<bool>, u: nat, c: nat)
    requires IsGraph(g) && |implicit| == |g| && Edge(g, u, c)
    ensures c < |g| && (implicit[c] || RequiresImplicit(g, implicit, c) ==> RequiresImplicit(g, implicit, u))
  {
    hide Reaches, Follows;
    ReachesEdge(g, u, c);
    if RequiresImplicit(g, implicit, c) {
      var v: nat :| v < |implicit| && implicit[v] && Follows(g, c, v);
      ThenFollows(g, u, c, v);
    }
  }

  lemma NoImplicitBelow(g: Graph, implicit: seq<bool>, u: nat)
    requires IsGraph(g) && |implicit| == |g| && u < |g|
    requires forall k :: 0 <= k < |g[u]| ==> !implicit[g[u][k]] && !RequiresImplicit(g, implicit, g[u][k])
    ensures !RequiresImplicit(g, implicit, u)
  {
    hide Reaches;
    forall v: nat | v < |implicit| && implicit[v] ensures !Follows(g, u, v) {
      forall w: nat | Edge(g, u, w) ensures !Reaches(g, w, v) {
        var k :| 0 <= k < |g[u]| && g[u][k] == w;
        assert !Follows(g, g[u][k], v);
        if w != v && Reaches(g, w, v) {
          ReachesFirst(g, w, v);
        }
      }
    }
  }

  method VerifyRequiresDontDependOnImplicitActions(g: Graph, implicit: seq<bool>, roots: seq<nat>) returns (ok: bool)
    requires IsGraph(g) && Acyclic(g) && |implicit| == |g|
    requires forall u: nat :: u in roots <==> IsRoot(g, u)
    ensures ok <==> forall u: nat, v: nat :: Edge(g, u, v) ==> !implicit[v]
  {
    hide Reaches, Follows, Acyclic, Rank, RequiresImplicit, IsRoot;
    assert forall r <- roots :: r < |g| by { RootsInside(g); }
    for i := 0 to |roots|
      invariant forall k :: 0 <= k < i ==> !RequiresImplicit(g, implicit, roots[k])
    {
      assert roots[i] in roots;
      var found := RequiresDependsOnImplicitAction(g, implicit, roots[i]);
      if found {
        SomeImplicitRequired(g, implicit, roots[i]);
        return false;
      }
    }
    NoneImplicitRequired(g, implicit, roots);
    ok := true;
  }

  lemma SomeImplicitRequired(g: Graph, implicit: seq<bool>, u: nat)
    requires IsGraph(g) && |implicit| == |g| && u < |g| && RequiresImplicit(g, implicit, u)
    ensures exists x: nat, v: nat :: Edge(g, x, v) && implicit[v]
  {
    var v: nat :| v < |implicit| && implicit[v] && Follows(g, u, v);
    var w: nat :| Edge(g, u, w) && Reaches(g, w, v);
    var p :| PathBetween(g, w, v, p);
    if |p| == 1 {
      assert Edge(g, u, v);
    } else {
      assert Edge(g, p[|p| - 2], p[|p| - 1]);
    }
  }

  lemma NoneImplicitRequired(g: Graph, implicit: seq<bool>, roots: seq<nat>)
    requires IsGraph(g) && Acyclic(g) && |implicit| == |g|
    requires forall u: nat :: u in roots <==> IsRoot(g, u)
    requires forall k :: 0 <= k < |roots| ==> !RequiresImplicit(g, implicit, roots[k])
    ensures forall u: nat, v: nat :: Edge(g, u, v) ==> !implicit[v]
  {
    hide Reaches, Follows, Acyclic, IsRoot;
    forall u: nat, v: nat | Edge(g, u, v) ensures !implicit[v] {
      CoveredByRoot(g, u);
      var r: nat :| IsRoot(g, r) && Reaches(g, r, u);
      var k :| 0 <= k < |roots| && roots[k] == r;
      assert !RequiresImplicit(g, implicit, roots[k]);
      ReachesEdge(g, u, v);
      ThenFollows(g, r, u, v);
    }
  }
}
