/** The generated program: the list of actions asked for, what is added to it, and the
    queue that runs everything by priority. */
module CommandLine {
  import opened Graphs
  import opened Priorities
  import opened Reduction

  datatype Option<T> = None | Some(value: T)

  datatype Handler = Handler(id: nat, args: seq<string>)

  datatype Table = Table(
    runafter: Graph, requirements: Graph, metadeps: Graph,
    priority: seq<int>, implicit: seq<bool>, meta: seq<bool>,
    low: seq<nat>, high: seq<nat>)
  {
    function Size(): nat { |runafter| }

    predicate Valid() {
      && |requirements| == |metadeps| == |priority| == |implicit| == |meta| == |low| == |high| == Size()
      && IsGraph(runafter) && IsGraph(requirements) && IsGraph(metadeps)
      && (forall u :: 0 <= u < Size() ==> low[u] <= high[u])
    }

    predicate Knows(list: seq<Handler>) {
      forall h <- list :: h.id < Size()
    }
  }

  /** The dependencies that pull implicit actions in: first runafter, then metadeps. */
  function Both(t: Table): Graph
    requires t.Valid()
  {
    seq(t.Size(), u requires 0 <= u < t.Size() => t.runafter[u] + t.metadeps[u])
  }

  predicate Listed(list: seq<Handler>, id: nat) {
    exists i :: 0 <= i < |list| && list[i].id == id
  }

  // Lists that grow by implicit actions.

  /** `now` continues `was` by the implicit actions of `reached` that it lacked, once each and
      without arguments. */
  ghost predicate Grown(t: Table, reached: set<nat>, was: seq<Handler>, now: seq<Handler>)
    requires t.Valid()
  {
    && was <= now
    && (forall i :: |was| <= i < |now| ==> now[i].id < t.Size() && t.implicit[now[i].id] && now[i].id in reached && now[i].args == [])
    && (forall i, j :: 0 <= i < j < |now| && |was| <= j ==> now[i].id != now[j].id)
    && (forall x :: x in reached && x < t.Size() && t.implicit[x] ==> Listed(now, x))
  }

  lemma GrownThen(t: Table, a: set<nat>, b: set<nat>, was: seq<Handler>, mid: seq<Handler>, now: seq<Handler>)
    requires t.Valid() && Grown(t, a, was, mid) && Grown(t, b, mid, now)
    ensures Grown(t, a + b, was, now)
  {
    forall x | x in a + b && x < t.Size() && t.implicit[x] ensures Listed(now, x) {
      if x in a {
        var i :| 0 <= i < |mid| && mid[i].id == x;
        assert now[i].id == x;
      }
    }
    forall i | |was| <= i < |mid| ensures now[i] == mid[i] {
    }
  }

  lemma GrownNothing(t: Table, list: seq<Handler>)
    requires t.Valid()
    ensures Grown(t, {}, list, list)
  {
  }

  lemma GrownSame(t: Table, a: set<nat>, b: set<nat>, was: seq<Handler>, now: seq<Handler>)
    requires t.Valid() && Grown(t, a, was, now) && a == b
    ensures Grown(t, b, was, now)
  {
  }

  /** Added entries are different actions, so there are at most as many as actions. */
  lemma GrownBounded(t: Table, reached: set<nat>, was: seq<Handler>, now: seq<Handler>)
    requires t.Valid() && Grown(t, reached, was, now)
    ensures |now| <= |was| + t.Size()
  {
    var added := seq(|now| - |was|, i requires 0 <= i < |now| - |was| => now[|was| + i].id);
    assert Distinct(added) by {
      forall i, j | 0 <= i < j < |added| ensures added[i] != added[j] {
        assert now[|was| + i].id != now[|was| + j].id;
      }
    }
    Pigeonhole(added, t.Size());
  }

  lemma GrownKnown(t: Table, reached: set<nat>, was: seq<Handler>, now: seq<Handler>)
    requires t.Valid() && t.Knows(was) && Grown(t, reached, was, now)
    ensures t.Knows(now)
  {
    forall h | h in now ensures h.id < t.Size() {
      var i :| 0 <= i < |now| && now[i] == h;
      if i < |was| {
        assert was[i] in was;
      }
    }
  }

  /** What the first `n` children of `u` reach. */
  ghost function ChildReach(g: Graph, u: nat, n: nat): set<nat>
    requires u < |g| && n <= |g[u]|
  {
    set v: nat | v < |g| && ReachedByFirst(g, u, n, v)
  }

  lemma OneMoreReached(g: Graph, u: nat, n: nat)
    requires u < |g| && n < |g[u]|
    ensures ChildReach(g, u, n) + ReachableFrom(g, g[u][n]) == ChildReach(g, u, n + 1)
  {
    hide Reaches;
    forall v: nat | v < |g| ensures ReachedByFirst(g, u, n + 1, v) <==> ReachedByFirst(g, u, n, v) || Reaches(g, g[u][n], v) {
      if Reaches(g, g[u][n], v) {
        assert 0 <= n < n + 1 && Reaches(g, g[u][n], v);
      }
      if ReachedByFirst(g, u, n, v) {
        var i :| 0 <= i < n && Reaches(g, g[u][i], v);
        assert 0 <= i < n + 1 && Reaches(g, g[u][i], v);
      }
    }
  }

  lemma NothingReached(g: Graph, u: nat)
    requires u < |g|
    ensures ChildReach(g, u, 0) == {}
  {
  }

  /** Children lead to everything that follows a node. */
  lemma ChildrenReachFollowers(g: Graph, u: nat)
    requires IsGraph(g) && u < |g|
    ensures ChildReach(g, u, |g[u]|) == Followers(g, u)
    ensures {u} + Followers(g, u) == ReachableFrom(g, u)
  {
    hide Reaches;
    forall v: nat | v < |g| ensures ReachedByFirst(g, u, |g[u]|, v) <==> Follows(g, u, v) {
      if ReachedByFirst(g, u, |g[u]|, v) {
        var i :| 0 <= i < |g[u]| && Reaches(g, g[u][i], v);
        assert Edge(g, u, g[u][i]);
      }
      if Follows(g, u, v) {
        var w: nat :| Edge(g, u, w) && Reaches(g, w, v);
        var i :| 0 <= i < |g[u]| && g[u][i] == w;
        assert Reaches(g, g[u][i], v);
      }
    }
    ReachesSelf(g, u);
    forall v: nat | v < |g| ensures Reaches(g, u, v) <==> v == u || Follows(g, u, v) {
      if Reaches(g, u, v) {
        ReachesFirst(g, u, v);
      }
      if Follows(g, u, v) {
        FollowsReaches(g, u, v);
      }
    }
  }

  ghost function Followers(g: Graph, u: nat): set<nat> {
    set v: nat | v < |g| && Follows(g, u, v)
  }

  ghost function FollowersOfAll(g: Graph, list: seq<Handler>): set<nat> {
    set v: nat | v < |g| && FollowsSome(g, list, v)
  }

  ghost predicate FollowsSome(g: Graph, list: seq<Handler>, v: nat) {
    exists i :: 0 <= i < |list| && Follows(g, list[i].id, v)
  }

  lemma FollowersOfOneMore(g: Graph, list: seq<Handler>, i: nat)
    requires i < |list|
    ensures FollowersOfAll(g, list[..i]) + Followers(g, list[i].id) == FollowersOfAll(g, list[..i + 1])
  {
    hide Follows;
    var u := list[i].id;
    var few, more := list[..i], list[..i + 1];
    forall v: nat | v < |g| ensures v in FollowersOfAll(g, more) <==> v in FollowersOfAll(g, few) || Follows(g, u, v) {
      if v in FollowersOfAll(g, more) {
        var k :| 0 <= k < i + 1 && Follows(g, more[k].id, v);
        if k < i {
          assert Follows(g, few[k].id, v);
        }
      }
      if v in FollowersOfAll(g, few) {
        var k :| 0 <= k < i && Follows(g, few[k].id, v);
        assert Follows(g, more[k].id, v);
      }
      if Follows(g, list[i].id, v) {
        assert Follows(g, more[i].id, v);
      }
    }
  }

  lemma BothIsGraph(t: Table)
    requires t.Valid()
    ensures IsGraph(Both(t)) && |Both(t)| == t.Size()
  {
  }

  /** Every implicit action that some entry depends on is in the list. */
  ghost predicate Closed(t: Table, list: seq<Handler>)
    requires t.Valid()
  {
    forall x: nat :: x in FollowersOfAll(Both(t), list) && t.implicit[x] ==> Listed(list, x)
  }

  /** Entries behind the first `n` follow from those. */
  ghost predicate FollowFromFirst(g: Graph, list: seq<Handler>, n: nat)
    requires n <= |list|
  {
    forall k :: n <= k < |list| ==> FollowsOneOf(g, list, n, list[k].id)
  }

  ghost predicate FollowsOneOf(g: Graph, list: seq<Handler>, n: nat, v: nat)
    requires n <= |list|
  {
    exists i :: 0 <= i < n && Follows(g, list[i].id, v)
  }

  // The order of the entries that are added. Dependencies are visited depth first, those of an
  // entry after the entry itself, and each implicit action is appended when it is first met.

  ghost function Visited(g: Graph, u: nat): seq<nat>
    requires IsGraph(g) && Acyclic(g) && u < |g|
    decreases Rank(g, u), |g[u]| + 1
  {
    [u] + VisitedBelow(g, u, 0)
  }

  /** What is visited below `u`, from its `i`-th dependency on. */
  ghost function VisitedBelow(g: Graph, u: nat, i: nat): seq<nat>
    requires IsGraph(g) && Acyclic(g) && u < |g| && i <= |g[u]|
    decreases Rank(g, u), |g[u]| - i
  {
    if i == |g[u]| then []
    else
      RankDecreases(g, u, g[u][i]);
      Visited(g, g[u][i]) + VisitedBelow(g, u, i + 1)
  }

  function AddNew(t: Table, list: seq<Handler>, ids: seq<nat>): seq<Handler>
    requires t.Valid()
    decreases |ids|
  {
    if ids == [] then list
    else
      var id := ids[0];
      AddNew(t, if id < t.Size() && t.implicit[id] && !Listed(list, id) then list + [Handler(id, [])] else list, ids[1..])
  }

  lemma {:induction false} AddNewTwice(t: Table, list: seq<Handler>, a: seq<nat>, b: seq<nat>)
    requires t.Valid()
    ensures AddNew(t, AddNew(t, list, a), b) == AddNew(t, list, a + b)
    decreases |a|
  {
    if a == [] {
      assert a + b == b;
    } else {
      var id := a[0];
      assert (a + b)[1..] == a[1..] + b;
      AddNewTwice(t, if id < t.Size() && t.implicit[id] && !Listed(list, id) then list + [Handler(id, [])] else list, a[1..], b);
    }
  }

  /** Each round visits what is below the next entry of the list, until all have been looked at. */
  ghost predicate Rounds(t: Table, rounds: seq<seq<Handler>>)
    requires t.Valid() && Acyclic(Both(t))
  {
    forall i :: 0 <= i < |rounds| - 1 ==> IsRound(t, i, rounds[i], rounds[i + 1])
  }

  ghost predicate IsRound(t: Table, i: nat, was: seq<Handler>, now: seq<Handler>)
    requires t.Valid() && Acyclic(Both(t))
  {
    && i < |was| && was[i].id < t.Size()
    && (assert |Both(t)| == t.Size() && IsGraph(Both(t)) by { BothIsGraph(t); } now == AddNew(t, was, VisitedBelow(Both(t), was[i].id, 0)))
  }

  ghost predicate InOrderOfVisit(t: Table, was: seq<Handler>, now: seq<Handler>)
    requires t.Valid() && Acyclic(Both(t))
  {
    exists rounds :: |rounds| == |now| + 1 && rounds[0] == was && rounds[|now|] == now && Rounds(t, rounds)
  }

  /** `now` is `was` and all implicit actions that an entry of it depends on by a chain, in the order
      in which they are visited. */
  ghost predicate Completed(t: Table, was: seq<Handler>, now: seq<Handler>)
    requires t.Valid()
  {
    && was <= now && Grown(t, FollowersOfAll(Both(t), now), was, now) && FollowFromFirst(Both(t), now, |was|)
    && Acyclic(Both(t)) && InOrderOfVisit(t, was, now)
  }

  class ActionList {
    var handlers: seq<Handler>

    constructor (given: seq<Handler>)
      ensures handlers == given
    {
      handlers := given;
    }

    method ActionIsInList(id: nat) returns (found: bool)
      ensures found <==> Listed(handlers, id)
    {
      for i := 0 to |handlers|
        invariant forall k :: 0 <= k < i ==> handlers[k].id != id
      {
        if handlers[i].id == id {
          return true;
        }
      }
      found := false;
    }

    method AddImplicitRunafterDependencies(t: Table, id: nat)
      requires t.Valid() && id < t.Size() && Acyclic(Both(t))
      modifies this
      ensures Grown(t, ReachableFrom(Both(t), id), old(handlers), handlers)
      ensures |Both(t)| == t.Size() && IsGraph(Both(t)) && handlers == AddNew(t, old(handlers), Visited(Both(t), id))
      decreases Rank(Both(t), id)
    {
      hide Acyclic, Rank, Grown, ReachableFrom, Visited, VisitedBelow, AddNew;
      BothIsGraph(t);
      ghost var g, was := Both(t), handlers;
      AddSelf(t, id);
      VisitStarts(t, id, was);
      var n := |t.runafter[id]|;
      NothingReached(g, id);
      GrownSame(t, {id}, {id} + ChildReach(g, id, 0), was, handlers);
      for child := 0 to n
        invariant Grown(t, {id} + ChildReach(g, id, child), was, handlers)
        invariant AddNew(t, handlers, VisitedBelow(g, id, child)) == AddNew(t, was, Visited(g, id))
      {
        ghost var mid := handlers;
        assert g[id][child] == t.runafter[id][child];
        RankDecreases(g, id, g[id][child]);
        AddImplicitRunafterDependencies(t, t.runafter[id][child]);
        VisitGoesOn(t, id, child, mid);
        OneMoreChildGrown(t, id, child, was, mid, handlers);
      }
      for child := 0 to |t.metadeps[id]|
        invariant Grown(t, {id} + ChildReach(g, id, n + child), was, handlers)
        invariant AddNew(t, handlers, VisitedBelow(g, id, n + child)) == AddNew(t, was, Visited(g, id))
      {
        ghost var mid := handlers;
        assert g[id][n + child] == t.metadeps[id][child];
        RankDecreases(g, id, g[id][n + child]);
        AddImplicitRunafterDependencies(t, t.metadeps[id][child]);
        VisitGoesOn(t, id, n + child, mid);
        OneMoreChildGrown(t, id, n + child, was, mid, handlers);
      }
      VisitEnds(t, id, handlers);
      ChildrenReachFollowers(g, id);
    }

    method AddSelf(t: Table, id: nat)
      requires t.Valid() && id < t.Size()
      modifies this
      ensures Grown(t, {id}, old(handlers), handlers)
      ensures handlers == AddNew(t, old(handlers), [id])
    {
      var isIn := ActionIsInList(id);
      if t.implicit[id] && !isIn {
        handlers := handlers + [Handler(id, [])];
        assert handlers[|handlers| - 1].id == id;
      }
      assert [id][1..] == [];
    }

    /** The loop runs to the end of the list, which may grow while it runs. */
    method AddImplicitDependencies(t: Table)
      requires t.Valid() && t.Knows(handlers) && Acyclic(Both(t))
      modifies this
      ensures t.Knows(handlers)
      ensures Completed(t, old(handlers), handlers) && Closed(t, handlers)
    {
      hide Acyclic, Grown, FollowersOfAll, FollowFromFirst, ReachableFrom, Followers, Closed, Rounds, AddNew, VisitedBelow;
      BothIsGraph(t);
      ghost var g, was := Both(t), handlers;
      ghost var rounds := [was];
      StartOfClosure(t, was);
      NoRounds(t, was);
      var i := 0;
      while i < |handlers|
        invariant was <= handlers && i <= |handlers| && t.Knows(handlers)
        invariant Grown(t, FollowersOfAll(g, handlers[..i]), was, handlers)
        invariant FollowFromFirst(g, handlers, |was|)
        invariant |rounds| == i + 1 && rounds[0] == was && rounds[i] == handlers && Rounds(t, rounds)
        decreases |was| + t.Size() - i
      {
        GrownBounded(t, FollowersOfAll(g, handlers[..i]), was, handlers);
        ghost var mid := handlers;
        assert handlers[i] in handlers;
        AddDependenciesOf(t, handlers[i].id);
        ClosureStep(t, was, mid, handlers, i);
        OneMoreRound(t, rounds, handlers);
        rounds := rounds + [handlers];
        i := i + 1;
      }
      assert handlers[..i] == handlers;
      EndOfClosure(t, was, handlers);
    }

    method AddDependenciesOf(t: Table, id: nat)
      requires t.Valid() && id < t.Size() && Acyclic(Both(t))
      modifies this
      ensures Grown(t, Followers(Both(t), id), old(handlers), handlers)
      ensures |Both(t)| == t.Size() && IsGraph(Both(t)) && handlers == AddNew(t, old(handlers), VisitedBelow(Both(t), id, 0))
    {
      hide Acyclic, Grown, ReachableFrom, Visited, VisitedBelow, AddNew;
      BothIsGraph(t);
      ghost var g, was := Both(t), handlers;
      var n := |t.runafter[id]|;
      NothingReached(g, id);
      GrownNothing(t, was);
      GrownSame(t, {}, ChildReach(g, id, 0), was, handlers);
      for child := 0 to n
        invariant Grown(t, ChildReach(g, id, child), was, handlers)
        invariant AddNew(t, handlers, VisitedBelow(g, id, child)) == AddNew(t, was, VisitedBelow(g, id, 0))
      {
        ghost var mid := handlers;
        assert g[id][child] == t.runafter[id][child];
        AddImplicitRunafterDependencies(t, t.runafter[id][child]);
        VisitGoesOn(t, id, child, mid);
        OneMoreReached(g, id, child);
        GrownThen(t, ChildReach(g, id, child), ReachableFrom(g, g[id][child]), was, mid, handlers);
      }
      for child := 0 to |t.metadeps[id]|
        invariant Grown(t, ChildReach(g, id, n + child), was, handlers)
        invariant AddNew(t, handlers, VisitedBelow(g, id, n + child)) == AddNew(t, was, VisitedBelow(g, id, 0))
      {
        ghost var mid := handlers;
        assert g[id][n + child] == t.metadeps[id][child];
        AddImplicitRunafterDependencies(t, t.metadeps[id][child]);
        VisitGoesOn(t, id, n + child, mid);
        OneMoreReached(g, id, n + child);
        GrownThen(t, ChildReach(g, id, n + child), ReachableFrom(g, g[id][n + child]), was, mid, handlers);
      }
      VisitEnds(t, id, handlers);
      ChildrenReachFollowers(g, id);
    }

    /** Shows help if nothing in the list would run after it. */
    method TryToHelp(t: Table, help: Option<nat>)
      requires t.Valid() && t.Knows(handlers) && Acyclic(Both(t)) && Closed(t, handlers)
      requires help.Some? ==> help.value < t.Size()
      modifies this
      ensures t.Knows(handlers) && Closed(t, handlers) && old(handlers) <= handlers
      ensures if NeedsHelp(t, old(handlers), help) then Completed(t, old(handlers) + [Handler(help.value, [])], handlers)
              else handlers == old(handlers)
    {
      hide Acyclic, Closed, Grown, FollowFromFirst, FollowersOfAll;
      var helpPriority := if help.Some? then t.priority[help.value] else 0;
      var lastPriority := 0;
      for i := 0 to |handlers|
        invariant lastPriority >= 0 && forall k :: 0 <= k < i ==> t.priority[handlers[k].id] <= lastPriority
        invariant lastPriority == 0 || exists k :: 0 <= k < i && t.priority[handlers[k].id] == lastPriority
      {
        assert handlers[i] in handlers;
        if lastPriority < t.priority[handlers[i].id] {
          lastPriority := t.priority[handlers[i].id];
        }
      }
      for i := 0 to |handlers|
        invariant forall k :: 0 <= k < i ==> !t.meta[handlers[k].id]
      {
        assert handlers[i] in handlers;
        if t.meta[handlers[i].id] {
          return;
        }
      }
      if |handlers| == 0 || lastPriority < helpPriority {
        if help.Some? {
          ghost var was := handlers;
          handlers := handlers + [Handler(help.value, [])];
          AddImplicitDependencies(t);
          assert was + [Handler(help.value, [])] <= handlers by { GrownPrefix(t, was + [Handler(help.value, [])], handlers); }
        }
      }
    }

    /** Every direct requirement that is left after the reduction must be in the list. */
    method RequirementsAreListed(t: Table) returns (ok: bool)
      requires t.Valid() && t.Knows(handlers)
      ensures ok <==> ClosedUnder(t.requirements, handlers)
    {
      for i := 0 to |handlers|
        invariant forall k: nat, v: nat :: k < i && Edge(t.requirements, handlers[k].id, v) ==> Listed(handlers, v)
      {
        assert handlers[i] in handlers;
        var required := t.requirements[handlers[i].id];
        for child := 0 to |required|
          invariant forall c :: 0 <= c < child ==> Listed(handlers, required[c])
        {
          var isIn := ActionIsInList(required[child]);
          if !isIn {
            assert Edge(t.requirements, handlers[i].id, required[child]);
            return false;
          }
        }
      }
      ok := true;
    }
  }

  /** There is a help action, no action in the list may turn into another one, and all of them
      would run before the help action. */
  predicate NeedsHelp(t: Table, list: seq<Handler>, help: Option<nat>)
    requires t.Valid() && t.Knows(list) && (help.Some? ==> help.value < t.Size())
  {
    && help.Some?
    && (forall k :: 0 <= k < |list| ==> !t.meta[list[k].id])
    && (list == [] || t.priority[help.value] > 0)
    && (forall k :: 0 <= k < |list| ==> t.priority[list[k].id] < t.priority[help.value])
  }

  // How the visit goes on.

  lemma VisitStarts(t: Table, id: nat, was: seq<Handler>)
    requires t.Valid() && id < t.Size() && Acyclic(Both(t)) && |Both(t)| == t.Size() && IsGraph(Both(t))
    ensures AddNew(t, AddNew(t, was, [id]), VisitedBelow(Both(t), id, 0)) == AddNew(t, was, Visited(Both(t), id))
  {
    hide Acyclic, AddNew, VisitedBelow;
    AddNewTwice(t, was, [id], VisitedBelow(Both(t), id, 0));
  }

  lemma VisitGoesOn(t: Table, id: nat, i: nat, mid: seq<Handler>)
    requires t.Valid() && id < t.Size() && Acyclic(Both(t)) && |Both(t)| == t.Size() && IsGraph(Both(t)) && i < |Both(t)[id]|
    ensures AddNew(t, AddNew(t, mid, Visited(Both(t), Both(t)[id][i])), VisitedBelow(Both(t), id, i + 1))
      == AddNew(t, mid, VisitedBelow(Both(t), id, i))
  {
    hide Acyclic, AddNew, Visited;
    AddNewTwice(t, mid, Visited(Both(t), Both(t)[id][i]), VisitedBelow(Both(t), id, i + 1));
  }

  lemma VisitEnds(t: Table, id: nat, list: seq<Handler>)
    requires t.Valid() && id < t.Size() && Acyclic(Both(t)) && |Both(t)| == t.Size() && IsGraph(Both(t))
    ensures AddNew(t, list, VisitedBelow(Both(t), id, |Both(t)[id]|)) == list
  {
  }

  /** Of an action that is to run after action 1 and may turn into action 2, the former comes first,
      with action 3, which it is to run after itself, directly behind it. */
  lemma RunafterComesFirst(t: Table, given: seq<Handler>)
    requires t.Valid() && t.runafter == [[1], [3], [], []] && t.metadeps == [[2], [], [], []]
    requires t.implicit == [false, true, true, true] && Acyclic(Both(t)) && given == [Handler(0, ["x"])]
    ensures |Both(t)| == 4 && IsGraph(Both(t))
    ensures AddNew(t, given, VisitedBelow(Both(t), 0, 0)) == given + [Handler(1, []), Handler(3, []), Handler(2, [])]
  {
    hide Acyclic;
    BothIsGraph(t);
    var g := Both(t);
    assert g[0] == [1, 2] && g[1] == [3] && g[2] == [] && g[3] == [];
    assert Visited(g, 3) == [3] by { assert VisitedBelow(g, 3, 0) == []; }
    assert Visited(g, 2) == [2] by { assert VisitedBelow(g, 2, 0) == []; }
    assert Visited(g, 1) == [1, 3] by { assert VisitedBelow(g, 1, 1) == []; }
    assert VisitedBelow(g, 0, 0) == [1, 3, 2] by { assert VisitedBelow(g, 0, 2) == []; }
    hide VisitedBelow, Visited;
    var one := given + [Handler(1, [])];
    var two := one + [Handler(3, [])];
    assert [1, 3, 2][1..] == [3, 2] && [3, 2][1..] == [2] && [2][1..] == [];
    assert !Listed(given, 1) && !Listed(one, 3) && !Listed(two, 2);
    assert AddNew(t, two, [2]) == two + [Handler(2, [])];
    assert AddNew(t, one, [3, 2]) == AddNew(t, two, [2]);
  }

  lemma NoRounds(t: Table, was: seq<Handler>)
    requires t.Valid() && Acyclic(Both(t))
    ensures Rounds(t, [was])
  {
  }

  lemma OneMoreRound(t: Table, rounds: seq<seq<Handler>>, now: seq<Handler>)
    requires t.Valid() && Acyclic(Both(t)) && rounds != [] && Rounds(t, rounds)
    requires IsRound(t, |rounds| - 1, rounds[|rounds| - 1], now)
    ensures Rounds(t, rounds + [now])
  {
    hide IsRound;
  }

  lemma GrownPrefix(t: Table, was: seq<Handler>, now: seq<Handler>)
    requires t.Valid() && Grown(t, FollowersOfAll(Both(t), now), was, now)
    ensures was <= now
  {
  }

  lemma OneMoreChildGrown(t: Table, id: nat, n: nat, was: seq<Handler>, mid: seq<Handler>, now: seq<Handler>)
    requires t.Valid() && id < t.Size() && n < |Both(t)[id]|
    requires Grown(t, {id} + ChildReach(Both(t), id, n), was, mid)
    requires Grown(t, ReachableFrom(Both(t), Both(t)[id][n]), mid, now)
    ensures Grown(t, {id} + ChildReach(Both(t), id, n + 1), was, now)
  {
    hide Grown, ReachableFrom, ChildReach;
    var g := Both(t);
    OneMoreReached(g, id, n);
    var a, b := {id} + ChildReach(g, id, n), ReachableFrom(g, g[id][n]);
    GrownThen(t, a, b, was, mid, now);
    GrownSame(t, a + b, {id} + ChildReach(g, id, n + 1), was, now);
  }

  lemma StartOfClosure(t: Table, was: seq<Handler>)
    requires t.Valid()
    ensures Grown(t, FollowersOfAll(Both(t), was[..0]), was, was) && FollowFromFirst(Both(t), was, |was|)
  {
  }

  lemma ClosureStep(t: Table, was: seq<Handler>, mid: seq<Handler>, now: seq<Handler>, i: nat)
    requires t.Valid() && t.Knows(mid) && i < |mid| && was <= mid
    requires Grown(t, FollowersOfAll(Both(t), mid[..i]), was, mid) && FollowFromFirst(Both(t), mid, |was|)
    requires Grown(t, Followers(Both(t), mid[i].id), mid, now)
    ensures was <= now && i + 1 <= |now| && t.Knows(now)
    ensures Grown(t, FollowersOfAll(Both(t), now[..i + 1]), was, now) && FollowFromFirst(Both(t), now, |was|)
  {
    var g := Both(t);
    FollowersOfOneMore(g, mid, i);
    GrownThen(t, FollowersOfAll(g, mid[..i]), Followers(g, mid[i].id), was, mid, now);
    GrownKnown(t, Followers(g, mid[i].id), mid, now);
    assert now[..i + 1] == mid[..i + 1];
    NewOnesFollow(t, |was|, mid, now, i);
  }

  lemma NewOnesFollow(t: Table, n: nat, mid: seq<Handler>, now: seq<Handler>, i: nat)
    requires t.Valid() && i < |mid| && n <= |mid| && FollowFromFirst(Both(t), mid, n)
    requires Grown(t, Followers(Both(t), mid[i].id), mid, now)
    ensures FollowFromFirst(Both(t), now, n)
  {
    hide Follows;
    var g := Both(t);
    forall k | n <= k < |now| ensures exists j :: 0 <= j < n && Follows(g, now[j].id, now[k].id) {
      if k < |mid| {
        var j :| 0 <= j < n && Follows(g, mid[j].id, mid[k].id);
        assert now[j] == mid[j] && now[k] == mid[k];
      } else {
        assert Follows(g, mid[i].id, now[k].id);
        if i < n {
          assert now[i] == mid[i];
        } else {
          var j :| 0 <= j < n && Follows(g, mid[j].id, mid[i].id);
          FollowsReaches(g, mid[i].id, now[k].id);
          FollowsThen(g, mid[j].id, mid[i].id, now[k].id);
          assert now[j] == mid[j];
        }
      }
    }
  }

  lemma EndOfClosure(t: Table, was: seq<Handler>, now: seq<Handler>)
    requires t.Valid() && Grown(t, FollowersOfAll(Both(t), now), was, now)
    ensures Closed(t, now)
  {
    hide Follows;
  }

  /** A second run of the closure adds nothing. */
  lemma ClosedStays(t: Table, list: seq<Handler>, again: seq<Handler>)
    requires t.Valid() && Closed(t, list)
    requires Grown(t, FollowersOfAll(Both(t), again), list, again) && FollowFromFirst(Both(t), again, |list|)
    ensures again == list
  {
    if |again| > |list| {
      AddedFollows(t, list, again, |list|);
      AddedIsNew(t, FollowersOfAll(Both(t), again), list, again, |list|);
    }
  }

  lemma AddedFollows(t: Table, list: seq<Handler>, again: seq<Handler>, k: nat)
    requires t.Valid() && Closed(t, list) && |list| <= k < |again|
    requires Grown(t, FollowersOfAll(Both(t), again), list, again) && FollowFromFirst(Both(t), again, |list|)
    ensures Listed(list, again[k].id)
  {
    hide Follows;
    var i :| 0 <= i < |list| && Follows(Both(t), again[i].id, again[k].id);
    assert Follows(Both(t), list[i].id, again[k].id);
    assert again[k].id in FollowersOfAll(Both(t), list);
  }

  lemma AddedIsNew(t: Table, reached: set<nat>, was: seq<Handler>, now: seq<Handler>, k: nat)
    requires t.Valid() && Grown(t, reached, was, now) && |was| <= k < |now|
    ensures !Listed(was, now[k].id)
  {
    forall i | 0 <= i < |was| ensures was[i].id != now[k].id {
      assert was[i] == now[i];
    }
  }

  // Requirements.

  ghost predicate ClosedUnder(g: Graph, list: seq<Handler>) {
    forall i: nat, v: nat :: i < |list| && Edge(g, list[i].id, v) ==> Listed(list, v)
  }

  ghost predicate ClosedUnderChains(g: Graph, list: seq<Handler>) {
    forall i: nat, v: nat :: i < |list| && Reaches(g, list[i].id, v) ==> Listed(list, v)
  }

  /** Checking the reduced requirements means checking those the author wrote, and all
      that follows from them. */
  lemma ReducedRequirementsSuffice(g: Graph, h: Graph, list: seq<Handler>)
    requires IsReduction(g, h) && SameReach(g, h)
    ensures ClosedUnder(h, list) <==> ClosedUnder(g, list)
    ensures ClosedUnder(h, list) <==> ClosedUnderChains(g, list)
  {
    hide Reaches;
    if ClosedUnder(h, list) {
      forall i: nat, v: nat | i < |list| && Reaches(g, list[i].id, v) ensures Listed(list, v) {
        assert Reaches(h, list[i].id, v);
        ChainListed(h, list, i, v);
      }
      EdgesListed(g, list);
    }
    if ClosedUnderChains(g, list) {
      EdgesListed(g, list);
    }
    if ClosedUnder(g, list) {
      forall i: nat, v: nat | i < |list| && Edge(h, list[i].id, v) ensures Listed(list, v) {
        ReductionExactly(g, h, list[i].id, v);
      }
    }
  }

  lemma EdgesListed(g: Graph, list: seq<Handler>)
    requires ClosedUnderChains(g, list)
    ensures ClosedUnder(g, list)
  {
    hide Reaches;
    forall i: nat, v: nat | i < |list| && Edge(g, list[i].id, v) ensures Listed(list, v) {
      ReachesEdge(g, list[i].id, v);
    }
  }

  lemma ChainListed(g: Graph, list: seq<Handler>, i: nat, v: nat)
    requires ClosedUnder(g, list) && i < |list| && Reaches(g, list[i].id, v)
    ensures Listed(list, v)
  {
    var p :| PathBetween(g, list[i].id, v, p);
    PathListed(g, list, i, p);
  }

  lemma {:induction false} PathListed(g: Graph, list: seq<Handler>, i: nat, p: seq<nat>)
    requires ClosedUnder(g, list) && i < |list| && IsPath(g, p) && p[0] == list[i].id
    ensures Listed(list, p[|p| - 1])
    decreases |p|
  {
    if |p| > 1 {
      assert Edge(g, p[0], p[1]);
      assert Edge(g, list[i].id, p[1]) && Listed(list, p[1]);
      var j :| 0 <= j < |list| && list[j].id == p[1];
      assert p[1..][|p| - 2] == p[|p| - 1];
      PathListed(g, list, j, p[1..]);
    }
  }
}
