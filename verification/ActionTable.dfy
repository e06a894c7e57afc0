/** The action table of the generator: all passes, from the author's dependencies to the
    tables that the generated program contains. */
module ActionTable {
  import opened Graphs
  import opened CycleCheck
  import Priorities
  import ImplicitRequirements
  import opened Reduction

  method HasDuplicates(list: seq<nat>) returns (found: bool)
    ensures found <==> !Distinct(list)
  {
    for first := 0 to |list|
      invariant forall i, j :: 0 <= i < first && i < j < |list| ==> list[i] != list[j]
    {
      for second := first + 1 to |list|
        invariant forall j :: first < j < second ==> list[first] != list[j]
      {
        if list[first] == list[second] {
          return true;
        }
      }
    }
    found := false;
  }

  class ActionTable {
    const size: nat
    const runafter: array<seq<nat>>
    const requirements: array<seq<nat>>
    const metadeps: array<seq<nat>>
    const implicit: seq<bool>
    const priority: array<int>

    ghost predicate Valid()
      reads runafter, requirements, metadeps, priority
    {
      && runafter.Length == requirements.Length == metadeps.Length == |implicit| == priority.Length == size
      && runafter != requirements && runafter != metadeps && requirements != metadeps
      && IsGraph(runafter[..]) && IsGraph(requirements[..]) && IsGraph(metadeps[..])
    }

    constructor (after: Graph, required: Graph, meta: Graph, isImplicit: seq<bool>)
      requires IsGraph(after) && IsGraph(required) && IsGraph(meta)
      requires |after| == |required| == |meta| == |isImplicit|
      ensures Valid() && fresh(runafter) && fresh(requirements) && fresh(metadeps) && fresh(priority)
      ensures runafter[..] == after && requirements[..] == required && metadeps[..] == meta && implicit == isImplicit
      ensures forall u :: 0 <= u < size ==> priority[u] == 0
    {
      size := |after|;
      implicit := isImplicit;
      var a := new seq<nat>[|after|](i requires 0 <= i < |after| => after[i]);
      var r := new seq<nat>[|after|](i requires 0 <= i < |required| => required[i]);
      var m := new seq<nat>[|after|](i requires 0 <= i < |meta| => meta[i]);
      var p := new int[|after|](i => 0);
      runafter, requirements, metadeps, priority := a, r, m, p;
      new;
      assert runafter[..] == after && requirements[..] == required && metadeps[..] == meta;
    }

    method VerifyDependenciesAreUnique() returns (ok: bool)
      requires Valid()
      ensures ok <==> NoDuplicates(runafter[..]) && NoDuplicates(requirements[..]) && NoDuplicates(metadeps[..])
    {
      for action := 0 to size
        invariant forall u :: 0 <= u < action ==> Distinct(runafter[u]) && Distinct(requirements[u]) && Distinct(metadeps[u])
      {
        var found := HasDuplicates(runafter[action]);
        if found {
          assert !Distinct(runafter[..][action]);
          return false;
        }
        found := HasDuplicates(requirements[action]);
        if found {
          assert !Distinct(requirements[..][action]);
          return false;
        }
        found := HasDuplicates(metadeps[action]);
        if found {
          assert !Distinct(metadeps[..][action]);
          return false;
        }
      }
      ok := true;
    }

    /** Every pass in order. A cycle that the check does not see could keep the later passes
        running forever, so a table with a cycle must be one that the check refuses. */
    method Compile() returns (ok: bool)
      requires Valid() && forall u :: 0 <= u < size ==> priority[u] == 0
      requires Passes(runafter[..]) && Passes(requirements[..]) ==> Acyclic(runafter[..]) && Acyclic(requirements[..])
      modifies runafter, requirements, priority
      ensures Valid() && metadeps[..] == old(metadeps[..])
      ensures ok <==>
        && NoDuplicates(old(runafter[..])) && NoDuplicates(old(requirements[..])) && NoDuplicates(metadeps[..])
        && Acyclic(old(runafter[..])) && Acyclic(old(requirements[..]))
        && forall u: nat, v: nat :: Edge(old(requirements[..]), u, v) ==> !implicit[v]
      ensures !ok ==> runafter[..] == old(runafter[..]) && requirements[..] == old(requirements[..])
      ensures ok ==> forall u: nat :: u < size ==> priority[u] == Height(old(runafter[..]), u)
      ensures ok ==> IsReduction(old(runafter[..]), runafter[..]) && SameReach(old(runafter[..]), runafter[..])
      ensures ok ==> IsReduction(old(requirements[..]), requirements[..]) && SameReach(old(requirements[..]), requirements[..])
    {
      hide Acyclic, Passes, CycleBelow, Direct, SameReach, Distinct, Height, IsRoot;
      ghost var after, required := runafter[..], requirements[..];
      var unique := VerifyDependenciesAreUnique();
      if !unique {
        return false;
      }
      var afterRoots := FindRoots(runafter[..]);
      var requiredRoots := FindRoots(requirements[..]);
      RootsInside(after);
      RootsInside(required);
      var acyclic := VerifyDependenciesAreAcyclic(runafter[..], requirements[..], afterRoots, requiredRoots);
      CheckedFromRoots(after, afterRoots);
      CheckedFromRoots(required, requiredRoots);
      if !acyclic {
        return false;
      }
      Priorities.CalculatePriorities(runafter[..], afterRoots, priority);
      var given := ImplicitRequirements.VerifyRequiresDontDependOnImplicitActions(requirements[..], implicit, requiredRoots);
      if !given {
        return false;
      }
      RemoveIndirectDependencies(runafter);
      RemoveIndirectDependencies(requirements);
      ReducedInside(after, runafter[..]);
      ReducedInside(required, requirements[..]);
      ok := true;
    }
  }

  /** The check from all roots; it never refuses a graph without cycles. */
  lemma CheckedFromRoots(g: Graph, roots: seq<nat>)
    requires IsGraph(g) && forall u: nat :: u in roots <==> IsRoot(g, u)
    ensures CycleBelow(g, roots) <==> !Passes(g)
    ensures Acyclic(g) ==> Passes(g)
  {
    hide Acyclic, Covered, FindsCycle, IsRoot;
    PassesExactly(g);
  }

  lemma ReducedInside(g: Graph, h: Graph)
    requires IsGraph(g) && Subgraph(h, g)
    ensures IsGraph(h)
  {
    forall u, i | 0 <= u < |h| && 0 <= i < |h[u]| ensures h[u][i] < |h| {
      assert Edge(h, u, h[u][i]);
      assert Edge(g, u, h[u][i]);
    }
  }
}
