/** Dependency lists as graphs: paths, reachability, cycles and the height of a node. */
module Graphs {
  // Node u depends on every node of g[u].
  type Graph = seq<seq<nat>>

  predicate IsGraph(g: Graph) {
    forall u, i :: 0 <= u < |g| && 0 <= i < |g[u]| ==> g[u][i] < |g|
  }

  predicate Edge(g: Graph, u: nat, v: nat) {
    u < |g| && v in g[u]
  }

  ghost predicate IsPath(g: Graph, p: seq<nat>) {
    && |p| > 0
    && forall i :: 0 <= i < |p| - 1 ==> Edge(g, p[i], p[i + 1])
  }

  ghost predicate PathBetween(g: Graph, u: nat, v: nat, p: seq<nat>) {
    IsPath(g, p) && p[0] == u && p[|p| - 1] == v
  }

  /** There is a path, possibly without edges. */
  ghost predicate Reaches(g: Graph, u: nat, v: nat) {
    exists p :: PathBetween(g, u, v, p)
  }

  /** There is a path with at least one edge. */
  ghost predicate Follows(g: Graph, u: nat, v: nat) {
    exists w: nat :: Edge(g, u, w) && Reaches(g, w, v)
  }

  ghost predicate Acyclic(g: Graph) {
    forall u: nat :: !Follows(g, u, u)
  }

  lemma ReachesSelf(g: Graph, u: nat)
    ensures Reaches(g, u, u)
  {
    assert PathBetween(g, u, u, [u]);
  }

  lemma ReachesByEdge(g: Graph, u: nat, w: nat, v: nat)
    requires Edge(g, u, w) && Reaches(g, w, v)
    ensures Reaches(g, u, v)
  {
    var p :| PathBetween(g, w, v, p);
    assert PathBetween(g, u, v, [u] + p);
  }

  lemma ReachesFirst(g: Graph, u: nat, v: nat)
    requires Reaches(g, u, v)
    ensures u == v || Follows(g, u, v)
  {
    var p :| PathBetween(g, u, v, p);
    if |p| > 1 {
      assert Edge(g, p[0], p[1]);
      assert PathBetween(g, p[1], v, p[1..]);
    }
  }

  lemma ReachesTransitive(g: Graph, u: nat, v: nat, w: nat)
    requires Reaches(g, u, v) && Reaches(g, v, w)
    ensures Reaches(g, u, w)
  {
    var p :| PathBetween(g, u, v, p);
    var q :| PathBetween(g, v, w, q);
    var r := p + q[1..];
    forall i | 0 <= i < |r| - 1 ensures Edge(g, r[i], r[i + 1]) {
      if i < |p| - 1 {
        assert Edge(g, p[i], p[i + 1]);
      } else {
        assert Edge(g, q[i - |p| + 1], q[i - |p| + 2]);
      }
    }
    assert PathBetween(g, u, w, r);
  }

  lemma ReachesEdge(g: Graph, u: nat, w: nat)
    requires Edge(g, u, w)
    ensures Reaches(g, u, w) && Follows(g, u, w)
  {
    ReachesSelf(g, w);
    ReachesByEdge(g, u, w, w);
  }

  lemma FollowsReaches(g: Graph, u: nat, v: nat)
    requires Follows(g, u, v)
    ensures Reaches(g, u, v)
  {
    hide Reaches;
    var w: nat :| Edge(g, u, w) && Reaches(g, w, v);
    ReachesByEdge(g, u, w, v);
  }

  lemma FollowsThen(g: Graph, u: nat, v: nat, w: nat)
    requires Follows(g, u, v) && Reaches(g, v, w)
    ensures Follows(g, u, w)
  {
    hide Reaches;
    var x: nat :| Edge(g, u, x) && Reaches(g, x, v);
    ReachesTransitive(g, x, v, w);
  }

  lemma ThenFollows(g: Graph, u: nat, v: nat, w: nat)
    requires Reaches(g, u, v) && Follows(g, v, w)
    ensures Follows(g, u, w)
  {
    hide Reaches, Follows;
    ReachesFirst(g, u, v);
    if u != v {
      FollowsReaches(g, v, w);
      FollowsThen(g, u, v, w);
    }
  }

  lemma ReachesInside(g: Graph, u: nat, v: nat)
    requires IsGraph(g) && u < |g| && Reaches(g, u, v)
    ensures v < |g|
  {
    var p :| PathBetween(g, u, v, p);
    if |p| > 1 {
      assert Edge(g, p[|p| - 2], p[|p| - 1]);
    }
  }

  // The nodes reachable from a node; in an acyclic graph they become fewer along an edge.

  ghost function ReachableFrom(g: Graph, u: nat): set<nat> {
    set v: nat | v < |g| && Reaches(g, u, v)
  }

  ghost function Rank(g: Graph, u: nat): nat {
    |ReachableFrom(g, u)|
  }

  lemma ProperSubsetSize<T>(a: set<T>, b: set<T>)
    requires a < b
    ensures |a| < |b|
  {
    var x :| x in b && x !in a;
    assert a <= b - {x};
    SubsetSize(a, b - {x});
  }

  lemma {:induction false} SubsetSize<T>(a: set<T>, b: set<T>)
    requires a <= b
    ensures |a| <= |b|
    decreases a
  {
    if a != {} {
      var x :| x in a;
      SubsetSize(a - {x}, b - {x});
    }
  }

  lemma RankDecreases(g: Graph, u: nat, v: nat)
    requires IsGraph(g) && Acyclic(g) && Edge(g, u, v)
    ensures Rank(g, v) < Rank(g, u)
  {
    hide Reaches;
    var a, b := ReachableFrom(g, v), ReachableFrom(g, u);
    forall x | x in a ensures x in b {
      ReachesByEdge(g, u, v, x);
    }
    ReachesSelf(g, u);
    assert !Follows(g, u, u);
    assert !Reaches(g, v, u);
    assert u in b && u !in a;
    ProperSubsetSize(a, b);
  }

  lemma RankReaches(g: Graph, u: nat, v: nat)
    requires Reaches(g, u, v)
    ensures Rank(g, v) <= Rank(g, u)
  {
    hide Reaches;
    forall x | x in ReachableFrom(g, v) ensures x in ReachableFrom(g, u) {
      ReachesTransitive(g, u, v, x);
    }
    SubsetSize(ReachableFrom(g, v), ReachableFrom(g, u));
  }

  // A list without duplicates of numbers below n has at most n entries.

  predicate Distinct(s: seq<nat>) {
    forall i, j :: 0 <= i < j < |s| ==> s[i] != s[j]
  }

  lemma {:induction false} Pigeonhole(s: seq<nat>, n: nat)
    requires Distinct(s) && forall x <- s :: x < n
    ensures |s| <= n
    decreases n
  {
    if |s| > 0 {
      assert s[0] in s;
      if n - 1 in s {
        var i :| 0 <= i < |s| && s[i] == n - 1;
        var t := s[..i] + s[i + 1..];
        forall x | x in t ensures x < n - 1 {
          var k :| 0 <= k < |t| && t[k] == x;
          var m := if k < i then k else k + 1;
          assert x == s[m] && s[m] in s && m != i;
          assert if m < i then s[m] != s[i] else s[i] != s[m];
        }
        Pigeonhole(t, n - 1);
      } else {
        Pigeonhole(s, n - 1);
      }
    }
  }

  // The height of a node in an acyclic graph.

  ghost function Height(g: Graph, u: nat): (h: nat)
    requires IsGraph(g) && Acyclic(g) && u < |g|
    decreases Rank(g, u), |g[u]| + 1
  {
    Above(g, u, |g[u]|)
  }

  /** One more than the largest height among the first `n` children, or 0 without children. */
  ghost function Above(g: Graph, u: nat, n: nat): (h: nat)
    requires IsGraph(g) && Acyclic(g) && u < |g| && n <= |g[u]|
    decreases Rank(g, u), n
  {
    if n == 0 then 0
    else
      RankDecreases(g, u, g[u][n - 1]);
      Max(Above(g, u, n - 1), Height(g, g[u][n - 1]) + 1)
  }

  function Max(a: int, b: int): int {
    if a < b then b else a
  }

  lemma {:induction false} AboveBounds(g: Graph, u: nat, n: nat)
    requires IsGraph(g) && Acyclic(g) && u < |g| && n <= |g[u]|
    ensures forall i :: 0 <= i < n ==> Height(g, g[u][i]) < Above(g, u, n)
    ensures n > 0 ==> exists i :: 0 <= i < n && Above(g, u, n) == Height(g, g[u][i]) + 1
    decreases n
  {
    hide Acyclic, Height, Rank;
    if n > 0 {
      AboveBounds(g, u, n - 1);
      var last := Height(g, g[u][n - 1]) + 1;
      assert Above(g, u, n) == Max(Above(g, u, n - 1), last);
      if Above(g, u, n) == last {
        assert Above(g, u, n) == Height(g, g[u][n - 1]) + 1;
      }
    }
  }

  lemma HeightOfChild(g: Graph, u: nat, v: nat)
    requires IsGraph(g) && Acyclic(g) && Edge(g, u, v)
    ensures v < |g| && Height(g, v) < Height(g, u)
  {
    AboveBounds(g, u, |g[u]|);
  }

  lemma HeightAttained(g: Graph, u: nat) returns (v: nat)
    requires IsGraph(g) && Acyclic(g) && u < |g| && g[u] != []
    ensures Edge(g, u, v) && v < |g| && Height(g, u) == Height(g, v) + 1
  {
    AboveBounds(g, u, |g[u]|);
    var i :| 0 <= i < |g[u]| && Above(g, u, |g[u]|) == Height(g, g[u][i]) + 1;
    v := g[u][i];
  }

  /** A node that follows another one is lower. */
  lemma {:induction false} HeightFollows(g: Graph, u: nat, v: nat)
    requires IsGraph(g) && Acyclic(g) && u < |g| && Follows(g, u, v)
    ensures v < |g| && Height(g, v) < Height(g, u)
    decreases Rank(g, u)
  {
    hide Reaches, Acyclic, Height, Rank;
    var w: nat :| Edge(g, u, w) && Reaches(g, w, v);
    HeightOfChild(g, u, w);
    ReachesFirst(g, w, v);
    if w != v {
      RankDecreases(g, u, w);
      HeightFollows(g, w, v);
    }
  }

  /** The height is the length of the longest chain of dependencies. */
  lemma {:induction false} HeightIsLongestPath(g: Graph, u: nat)
    requires IsGraph(g) && Acyclic(g) && u < |g|
    ensures forall p :: IsPath(g, p) && p[0] == u ==> |p| - 1 <= Height(g, u)
    ensures exists p :: IsPath(g, p) && p[0] == u && |p| - 1 == Height(g, u)
  {
    forall p | IsPath(g, p) && p[0] == u ensures |p| - 1 <= Height(g, u) {
      PathBelowHeight(g, p);
    }
    var p := LongestPath(g, u);
  }

  lemma {:induction false} PathBelowHeight(g: Graph, p: seq<nat>)
    requires IsGraph(g) && Acyclic(g) && IsPath(g, p) && p[0] < |g|
    ensures |p| - 1 <= Height(g, p[0])
    decreases |p|
  {
    if |p| > 1 {
      assert Edge(g, p[0], p[1]);
      HeightOfChild(g, p[0], p[1]);
      hide Acyclic, Height;
      PathBelowHeight(g, p[1..]);
    }
  }

  lemma {:induction false} LongestPath(g: Graph, u: nat) returns (p: seq<nat>)
    requires IsGraph(g) && Acyclic(g) && u < |g|
    ensures IsPath(g, p) && p[0] == u && |p| - 1 == Height(g, u)
    decreases Rank(g, u)
  {
    if g[u] == [] {
      p := [u];
    } else {
      hide Acyclic, Height, Rank;
      var v := HeightAttained(g, u);
      RankDecreases(g, u, v);
      var q := LongestPath(g, v);
      p := [u] + q;
    }
  }
}
