/** The priority queue of the generated program. */
module Scheduler {
  import opened Graphs
  import opened Reduction
  import opened CommandLine

  // What a meta action answers: nothing, or the action it turns into. What a standard action
  // answers is whether to go on. Both may depend on how far the program has come.
  datatype World = World(meta: (nat, Handler) -> Option<(int, seq<string>)>, standard: (nat, Handler) -> bool)

  /** One action taken from the queue, and the action it was replaced by, if any. */
  datatype Step = Step(handler: Handler, spawned: Option<Handler>)

  predicate IsFirst(t: Table, queue: seq<Handler>, i: nat)
    requires t.Valid() && t.Knows(queue)
  {
    i < |queue| && forall k :: 0 <= k < |queue| ==> t.priority[queue[i].id] <= t.priority[queue[k].id]
  }

  function Without(queue: seq<Handler>, i: nat): seq<Handler>
    requires i < |queue|
  {
    queue[..i] + queue[i + 1..]
  }

  function Spawned(s: Step): seq<Handler> {
    if s.spawned.Some? then [s.spawned.value] else []
  }

  /** The checks on what a meta action turned into. */
  predicate MaySpawn(t: Table, h: Handler, r: Handler)
    requires t.Valid() && h.id < t.Size()
  {
    && t.meta[h.id] && r.id in t.metadeps[h.id] && r.id < t.Size()
    && t.low[r.id] <= |r.args| <= t.high[r.id]
  }

  /** The entry at `i` is taken and, if it is a meta action that is not refused, replaced. */
  predicate TakesStep(t: Table, queue: seq<Handler>, i: nat, s: Step)
    requires t.Valid() && t.Knows(queue) && i < |queue|
  {
    && IsFirst(t, queue, i) && s.handler == queue[i]
    && (s.spawned.Some? ==> MaySpawn(t, s.handler, s.spawned.value))
  }

  function After(queue: seq<Handler>, i: nat, s: Step): seq<Handler>
    requires i < |queue|
  {
    Without(queue, i) + Spawned(s)
  }

  /** `run` is what the loop may do from `queue` until `rest` is left; entries of equal
      priority come in any order. */
  ghost predicate Runs(t: Table, queue: seq<Handler>, run: seq<Step>, rest: seq<Handler>)
    requires t.Valid()
    decreases |run|
  {
    && t.Knows(queue)
    && if run == [] then queue == rest
       else exists i: nat :: i < |queue| && TakesStep(t, queue, i, run[0]) && Runs(t, After(queue, i, run[0]), run[1..], rest)
  }

  lemma FirstStep(t: Table, queue: seq<Handler>, i: nat, s: Step, run: seq<Step>, rest: seq<Handler>)
    requires t.Valid() && t.Knows(queue) && i < |queue| && TakesStep(t, queue, i, s)
    requires Runs(t, After(queue, i, s), run, rest)
    ensures Runs(t, queue, [s] + run, rest)
  {
    hide TakesStep;
    var all := [s] + run;
    assert all[0] == s && all[1..] == run;
    assert i < |queue| && TakesStep(t, queue, i, all[0]) && Runs(t, After(queue, i, all[0]), all[1..], rest);
  }

  lemma {:induction false} RunsLonger(t: Table, queue: seq<Handler>, run: seq<Step>, mid: seq<Handler>, i: nat, s: Step)
    requires t.Valid() && Runs(t, queue, run, mid) && t.Knows(mid) && i < |mid| && TakesStep(t, mid, i, s) && t.Knows(After(mid, i, s))
    ensures Runs(t, queue, run + [s], After(mid, i, s))
    decreases |run|
  {
    hide TakesStep;
    if run == [] {
      FirstStep(t, queue, i, s, [], After(mid, i, s));
      assert run + [s] == [s] + [];
    } else {
      var k: nat :| k < |queue| && TakesStep(t, queue, k, run[0]) && Runs(t, After(queue, k, run[0]), run[1..], mid);
      RunsLonger(t, After(queue, k, run[0]), run[1..], mid, i, s);
      assert (run + [s])[1..] == run[1..] + [s] && (run + [s])[0] == run[0];
    }
  }

  lemma RunsKnown(t: Table, queue: seq<Handler>, i: nat, s: Step)
    requires t.Valid() && t.Knows(queue) && i < |queue| && TakesStep(t, queue, i, s)
    ensures s.handler.id < t.Size() && t.Knows(After(queue, i, s))
  {
    assert queue[i] in queue;
  }

  // Termination: every step makes the queue lighter.

  ghost function Weight(t: Table, queue: seq<Handler>): nat
    requires t.Valid() && t.Knows(queue) && Acyclic(t.metadeps)
  {
    if queue == [] then 0
    else
      assert queue[0] in queue;
      Weight(t, queue[1..]) + 1 + Height(t.metadeps, queue[0].id)
  }

  lemma {:induction false} WeightOfConcat(t: Table, a: seq<Handler>, b: seq<Handler>)
    requires t.Valid() && t.Knows(a) && t.Knows(b) && t.Knows(a + b) && Acyclic(t.metadeps)
    ensures Weight(t, a + b) == Weight(t, a) + Weight(t, b)
  {
    hide Acyclic, Height;
    if a == [] {
      assert a + b == b;
    } else {
      assert (a + b)[1..] == a[1..] + b;
      WeightOfConcat(t, a[1..], b);
    }
  }

  lemma StepIsLighter(t: Table, queue: seq<Handler>, i: nat, s: Step)
    requires t.Valid() && t.Knows(queue) && Acyclic(t.metadeps) && i < |queue| && TakesStep(t, queue, i, s) && t.Knows(After(queue, i, s))
    ensures Weight(t, After(queue, i, s)) < Weight(t, queue)
  {
    hide Acyclic, Height, IsFirst;
    var front, back := queue[..i], queue[i + 1..];
    assert queue == front + ([queue[i]] + back);
    assert queue[i] in queue;
    WeightOfConcat(t, front, [queue[i]] + back);
    WeightOfConcat(t, [queue[i]], back);
    WeightOfConcat(t, front, back);
    WeightOfConcat(t, Without(queue, i), Spawned(s));
    if s.spawned.Some? {
      var r := s.spawned.value;
      assert Edge(t.metadeps, queue[i].id, r.id);
      HeightOfChild(t.metadeps, queue[i].id, r.id);
      assert Spawned(s)[1..] == [];
    }
    assert [queue[i]][1..] == [];
  }

  /** No run takes more steps than the weight of the queue it starts from. */
  lemma {:induction false} RunsAreBounded(t: Table, queue: seq<Handler>, run: seq<Step>, rest: seq<Handler>)
    requires t.Valid() && t.Knows(queue) && Acyclic(t.metadeps) && Runs(t, queue, run, rest)
    ensures |run| <= Weight(t, queue)
    decreases |run|
  {
    hide Acyclic, TakesStep, Weight;
    if run != [] {
      var i: nat :| i < |queue| && TakesStep(t, queue, i, run[0]) && Runs(t, After(queue, i, run[0]), run[1..], rest);
      RunsKnown(t, queue, i, run[0]);
      StepIsLighter(t, queue, i, run[0]);
      RunsAreBounded(t, After(queue, i, run[0]), run[1..], rest);
    }
  }

  // Order.

  /** No meta action turns into one of higher priority than its own. */
  predicate MetaDown(t: Table)
    requires t.Valid()
  {
    forall m, k :: 0 <= m < t.Size() && 0 <= k < |t.metadeps[m]| && t.meta[m] ==> t.priority[m] <= t.priority[t.metadeps[m][k]]
  }

  predicate AllFrom(t: Table, queue: seq<Handler>, p: int)
    requires t.Valid() && t.Knows(queue)
  {
    forall k :: 0 <= k < |queue| ==> p <= t.priority[queue[k].id]
  }

  ghost predicate StepsFrom(t: Table, run: seq<Step>, p: int)
    requires t.Valid()
  {
    forall k :: 0 <= k < |run| ==> run[k].handler.id < t.Size() && p <= t.priority[run[k].handler.id]
  }

  ghost predicate InOrder(t: Table, run: seq<Step>)
    requires t.Valid()
  {
    forall j, k :: 0 <= j < k < |run| ==>
      && run[j].handler.id < t.Size() && run[k].handler.id < t.Size()
      && t.priority[run[j].handler.id] <= t.priority[run[k].handler.id]
  }

  lemma StepKeepsBound(t: Table, queue: seq<Handler>, i: nat, s: Step)
    requires t.Valid() && MetaDown(t) && t.Knows(queue) && i < |queue| && TakesStep(t, queue, i, s) && t.Knows(After(queue, i, s))
    ensures s.handler.id < t.Size() && AllFrom(t, After(queue, i, s), t.priority[s.handler.id])
  {
    assert queue[i] in queue;
    var rest := After(queue, i, s);
    forall k | 0 <= k < |rest| ensures t.priority[queue[i].id] <= t.priority[rest[k].id] {
      if k < i {
        assert rest[k] == queue[k];
      } else if k < |queue| - 1 {
        assert rest[k] == queue[k + 1];
      } else {
        assert rest[k] == s.spawned.value;
      }
    }
  }

  lemma {:induction false} RunsInOrder(t: Table, queue: seq<Handler>, run: seq<Step>, rest: seq<Handler>, p: int)
    requires t.Valid() && MetaDown(t) && t.Knows(queue) && AllFrom(t, queue, p) && Runs(t, queue, run, rest)
    ensures StepsFrom(t, run, p) && InOrder(t, run)
    decreases |run|
  {
    hide TakesStep, MetaDown;
    if run != [] {
      var i: nat :| i < |queue| && TakesStep(t, queue, i, run[0]) && Runs(t, After(queue, i, run[0]), run[1..], rest);
      RunsKnown(t, queue, i, run[0]);
      StepKeepsBound(t, queue, i, run[0]);
      TakenFrom(t, queue, i, run[0], p);
      var q := t.priority[run[0].handler.id];
      RunsInOrder(t, After(queue, i, run[0]), run[1..], rest, q);
      OrderWithFirst(t, run, p);
    }
  }

  lemma TakenFrom(t: Table, queue: seq<Handler>, i: nat, s: Step, p: int)
    requires t.Valid() && t.Knows(queue) && AllFrom(t, queue, p) && i < |queue| && TakesStep(t, queue, i, s)
    ensures s.handler.id < t.Size() && p <= t.priority[s.handler.id]
  {
    assert queue[i] in queue;
  }

  lemma OrderWithFirst(t: Table, run: seq<Step>, p: int)
    requires t.Valid() && run != [] && run[0].handler.id < t.Size() && p <= t.priority[run[0].handler.id]
    requires StepsFrom(t, run[1..], t.priority[run[0].handler.id]) && InOrder(t, run[1..])
    ensures StepsFrom(t, run, p) && InOrder(t, run)
  {
    var q := t.priority[run[0].handler.id];
    forall k | 1 <= k < |run| ensures run[k].handler.id < t.Size() && q <= t.priority[run[k].handler.id] {
      assert run[k] == run[1..][k - 1];
    }
    forall j, k | 1 <= j < k < |run| ensures t.priority[run[j].handler.id] <= t.priority[run[k].handler.id] {
      assert run[j] == run[1..][j - 1] && run[k] == run[1..][k - 1];
    }
  }

  ghost predicate AlwaysInOrder(t: Table)
    requires t.Valid()
  {
    forall queue, run, rest :: Runs(t, queue, run, rest) ==> InOrder(t, run)
  }

  /** Priorities are respected by every run exactly when no meta action turns into one of
      higher priority. */
  lemma OrderExactly(t: Table)
    requires t.Valid()
    ensures AlwaysInOrder(t) <==> MetaDown(t)
  {
    if MetaDown(t) {
      forall queue, run, rest | Runs(t, queue, run, rest) ensures InOrder(t, run) {
        hide MetaDown, Runs, InOrder;
        var p := Least(t, queue);
        assert t.Knows(queue) by { RunKnowsQueue(t, queue, run, rest); }
        RunsInOrder(t, queue, run, rest, p);
      }
    }
    if AlwaysInOrder(t) {
      forall m, k | 0 <= m < t.Size() && 0 <= k < |t.metadeps[m]| && t.meta[m]
        ensures t.priority[m] <= t.priority[t.metadeps[m][k]]
      {
        SpawnAtOnce(t, m, t.metadeps[m][k]);
      }
    }
  }

  lemma RunKnowsQueue(t: Table, queue: seq<Handler>, run: seq<Step>, rest: seq<Handler>)
    requires t.Valid() && Runs(t, queue, run, rest)
    ensures t.Knows(queue)
  {
  }

  lemma {:induction false} Least(t: Table, queue: seq<Handler>) returns (p: int)
    requires t.Valid()
    ensures t.Knows(queue) ==> AllFrom(t, queue, p)
  {
    if queue == [] || !t.Knows(queue) {
      p := 0;
    } else {
      var q := Least(t, queue[1..]);
      assert queue[0] in queue;
      p := if q < t.priority[queue[0].id] then q else t.priority[queue[0].id];
      forall k | 0 <= k < |queue| ensures p <= t.priority[queue[k].id] {
        if k > 0 {
          assert queue[k] == queue[1..][k - 1];
        }
      }
    }
  }

  lemma RunsAlone(t: Table, r: Handler)
    requires t.Valid() && r.id < t.Size()
    ensures Runs(t, [r], [Step(r, None)], [])
  {
    assert t.Knows([r]) && IsFirst(t, [r], 0);
    assert After([r], 0, Step(r, None)) == [];
    hide IsFirst;
    FirstStep(t, [r], 0, Step(r, None), [], []);
    assert [Step(r, None)] + [] == [Step(r, None)];
  }

  lemma TakesOnly(t: Table, h: Handler, r: Handler)
    requires t.Valid() && h.id < t.Size() && MaySpawn(t, h, r)
    ensures t.Knows([h]) && TakesStep(t, [h], 0, Step(h, Some(r)))
    ensures After([h], 0, Step(h, Some(r))) == [r]
  {
  }

  /** A run of two steps: the meta action, and what it turns into. */
  lemma SpawnRun(t: Table, m: nat, d: nat) returns (queue: seq<Handler>, run: seq<Step>)
    requires t.Valid() && m < t.Size() && t.meta[m] && d in t.metadeps[m]
    ensures Runs(t, queue, run, []) && |run| == 2 && run[0].handler.id == m && run[1].handler.id == d
  {
    var h, r := Handler(m, []), Handler(d, Blanks(t.low[KnownMetadep(t, m, d)]));
    assert MaySpawn(t, h, r);
    hide MaySpawn, TakesStep, Runs, After;
    TakesOnly(t, h, r);
    RunsAlone(t, r);
    var first, second := Step(h, Some(r)), Step(r, None);
    FirstStep(t, [h], 0, first, [second], []);
    queue, run := [h], [first] + [second];
  }

  ghost function KnownMetadep(t: Table, m: nat, d: nat): (r: nat)
    requires t.Valid() && m < t.Size() && d in t.metadeps[m]
    ensures r == d < t.Size()
  {
    var k :| 0 <= k < |t.metadeps[m]| && t.metadeps[m][k] == d;
    t.metadeps[m][k]
  }

  function Blanks(n: nat): (r: seq<string>)
    ensures |r| == n
  {
    seq(n, i => "")
  }

  lemma SpawnAtOnce(t: Table, m: nat, d: nat)
    requires t.Valid() && m < t.Size() && t.meta[m] && d in t.metadeps[m] && AlwaysInOrder(t)
    ensures d < t.Size() && t.priority[m] <= t.priority[d]
  {
    var queue, run := SpawnRun(t, m, d);
    hide Runs;
    assert InOrder(t, run);
  }

  /** Priorities are the heights in the graph that the author wrote. */
  ghost predicate Prioritized(t: Table, g: Graph)
    requires t.Valid()
  {
    && IsGraph(g) && Acyclic(g) && |g| == t.Size()
    && forall u: nat :: u < |g| ==> t.priority[u] == Height(g, u)
  }

  /** An action never runs after one that must run after it. */
  lemma NeverAfter(t: Table, g: Graph, queue: seq<Handler>, run: seq<Step>, rest: seq<Handler>, j: nat, k: nat)
    requires t.Valid() && MetaDown(t) && Prioritized(t, g) && Runs(t, queue, run, rest) && j < k < |run|
    ensures !Follows(g, run[j].handler.id, run[k].handler.id)
  {
    hide MetaDown, Follows, Acyclic, Height, TakesStep;
    RunKnowsQueue(t, queue, run, rest);
    var p := Least(t, queue);
    RunsInOrder(t, queue, run, rest, p);
    hide Runs;
    var a, b := run[j].handler.id, run[k].handler.id;
    assert t.priority[a] <= t.priority[b];
    if Follows(g, a, b) {
      HeightFollows(g, a, b);
    }
  }

  // What happens to the entries of the queue.

  function Handlers(run: seq<Step>): multiset<Handler> {
    if run == [] then multiset{} else multiset{run[0].handler} + Handlers(run[1..])
  }

  function AllSpawned(run: seq<Step>): multiset<Handler> {
    if run == [] then multiset{} else multiset(Spawned(run[0])) + AllSpawned(run[1..])
  }

  /** Nothing is lost and nothing is run twice: what was run and what is left are what was in
      the queue and what meta actions turned into. */
  lemma {:induction false} RunsConserve(t: Table, queue: seq<Handler>, run: seq<Step>, rest: seq<Handler>)
    requires t.Valid() && Runs(t, queue, run, rest)
    ensures Handlers(run) + multiset(rest) == multiset(queue) + AllSpawned(run)
    decreases |run|
  {
    if run != [] {
      var i: nat :| i < |queue| && TakesStep(t, queue, i, run[0]) && Runs(t, After(queue, i, run[0]), run[1..], rest);
      hide Runs, After, TakesStep;
      TakesHandler(t, queue, i, run[0]);
      var next := After(queue, i, run[0]);
      RunsConserve(t, next, run[1..], rest);
      StepConserves(queue, i, run[0]);
      AddUp(multiset{run[0].handler}, Handlers(run[1..]), multiset(rest), multiset(next),
            AllSpawned(run[1..]), multiset(queue), multiset(Spawned(run[0])));
    } else {
      assert queue == rest;
    }
  }

  lemma TakesHandler(t: Table, queue: seq<Handler>, i: nat, s: Step)
    requires t.Valid() && t.Knows(queue) && i < |queue| && TakesStep(t, queue, i, s)
    ensures s.handler == queue[i]
  {
  }

  lemma AddUp(one: multiset<Handler>, ran: multiset<Handler>, rest: multiset<Handler>, next: multiset<Handler>,
              later: multiset<Handler>, queue: multiset<Handler>, now: multiset<Handler>)
    requires ran + rest == next + later && one + next == queue + now
    ensures one + ran + rest == queue + (now + later)
  {
    assert one + ran + rest == one + (ran + rest);
    assert one + (next + later) == (one + next) + later;
    assert queue + now + later == queue + (now + later);
  }

  lemma StepConserves(queue: seq<Handler>, i: nat, s: Step)
    requires i < |queue| && s.handler == queue[i]
    ensures multiset{s.handler} + multiset(After(queue, i, s)) == multiset(queue) + multiset(Spawned(s))
  {
    assert queue == queue[..i] + ([queue[i]] + queue[i + 1..]);
  }

  predicate HasRun(run: seq<Step>, id: nat, n: nat) {
    exists i :: 0 <= i < n && i < |run| && run[i].handler.id == id
  }

  lemma {:induction false} AllHaveRun(run: seq<Step>, h: Handler)
    requires h in Handlers(run)
    ensures HasRun(run, h.id, |run|)
  {
    if run[0].handler == h {
      assert run[0].handler.id == h.id;
    } else {
      AllHaveRun(run[1..], h);
      var i :| 0 <= i < |run| - 1 && run[1..][i].handler.id == h.id;
      assert run[i + 1].handler.id == h.id;
    }
  }

  /** Every action that is run was asked for or is one that a meta action may turn into. */
  ghost predicate FromList(g: Graph, list: seq<Handler>, id: nat) {
    exists k :: 0 <= k < |list| && Reaches(g, list[k].id, id)
  }

  lemma {:induction false} RunComesFromList(t: Table, list: seq<Handler>, queue: seq<Handler>, run: seq<Step>, rest: seq<Handler>, j: nat)
    requires t.Valid() && Runs(t, queue, run, rest) && j < |run|
    requires forall h <- queue :: FromList(Both(t), list, h.id)
    ensures FromList(Both(t), list, run[j].handler.id)
    decreases |run|
  {
    hide FromList;
    var i: nat :| i < |queue| && TakesStep(t, queue, i, run[0]) && Runs(t, After(queue, i, run[0]), run[1..], rest);
    assert queue[i] in queue;
    if j > 0 {
      var next := After(queue, i, run[0]);
      forall h | h in next ensures FromList(Both(t), list, h.id) {
        if run[0].spawned.Some? && h == run[0].spawned.value {
          SpawnFromList(t, list, run[0].handler, h);
        } else {
          assert h in queue;
        }
      }
      RunComesFromList(t, list, next, run[1..], rest, j - 1);
    }
  }

  lemma SpawnFromList(t: Table, list: seq<Handler>, h: Handler, r: Handler)
    requires t.Valid() && h.id < t.Size() && MaySpawn(t, h, r) && FromList(Both(t), list, h.id)
    ensures FromList(Both(t), list, r.id)
  {
    hide Reaches;
    var k :| 0 <= k < |list| && Reaches(Both(t), list[k].id, h.id);
    assert Edge(Both(t), h.id, r.id);
    ReachesEdge(Both(t), h.id, r.id);
    ReachesTransitive(Both(t), list[k].id, h.id, r.id);
  }

  /** If an action that is run must run after an implicit action, by whatever chain of
      dependencies in the graph the author wrote, then that action has been run before it. */
  lemma DependenciesRunFirst(t: Table, g: Graph, list: seq<Handler>, queue: seq<Handler>, run: seq<Step>, j: nat, b: nat)
    requires t.Valid() && MetaDown(t) && Prioritized(t, g) && SameReach(g, t.runafter)
    requires t.Knows(list) && Closed(t, list) && multiset(queue) == multiset(list) && Runs(t, queue, run, [])
    requires j < |run| && b < t.Size() && t.implicit[b] && Follows(g, run[j].handler.id, b)
    ensures HasRun(run, b, j)
  {
    hide Follows, Acyclic, Closed, Runs, Prioritized, MetaDown, SameReach;
    var a := run[j].handler.id;
    hide Listed, FromList, HasRun, Handlers;
    QueueFromList(t, list, queue);
    RunComesFromList(t, list, queue, run, [], j);
    DependencyListed(t, g, list, a, b);
    var k := ListedAt(list, b);
    ListHasRun(t, list, queue, run, k);
    NotItself(t, g, a, b);
    forall i: nat | j < i < |run| ensures run[i].handler.id != b {
      NeverAfter(t, g, queue, run, [], j, i);
    }
    RunEarlier(run, b, j);
  }

  lemma ListedAt(list: seq<Handler>, id: nat) returns (k: nat)
    requires Listed(list, id)
    ensures k < |list| && list[k].id == id
  {
    k :| 0 <= k < |list| && list[k].id == id;
  }

  lemma RunEarlier(run: seq<Step>, id: nat, j: nat)
    requires HasRun(run, id, |run|) && j < |run| && run[j].handler.id != id
    requires forall i: nat :: j < i < |run| ==> run[i].handler.id != id
    ensures HasRun(run, id, j)
  {
  }

  lemma ListHasRun(t: Table, list: seq<Handler>, queue: seq<Handler>, run: seq<Step>, k: nat)
    requires t.Valid() && multiset(queue) == multiset(list) && Runs(t, queue, run, []) && k < |list|
    ensures HasRun(run, list[k].id, |run|)
  {
    RunsConserve(t, queue, run, []);
    hide Runs, Handlers, AllSpawned;
    assert list[k] in multiset(list);
    assert Handlers(run) + multiset([]) == Handlers(run);
    assert list[k] in Handlers(run);
    AllHaveRun(run, list[k]);
  }

  lemma NotItself(t: Table, g: Graph, a: nat, b: nat)
    requires t.Valid() && Prioritized(t, g) && Follows(g, a, b)
    ensures a != b
  {
  }

  lemma QueueFromList(t: Table, list: seq<Handler>, queue: seq<Handler>)
    requires t.Valid() && multiset(queue) == multiset(list)
    ensures forall h <- queue :: FromList(Both(t), list, h.id)
  {
    hide Reaches;
    forall h | h in queue ensures FromList(Both(t), list, h.id) {
      assert h in multiset(queue);
      assert h in list;
      var k :| 0 <= k < |list| && list[k] == h;
      ReachesSelf(Both(t), h.id);
    }
  }

  lemma DependencyListed(t: Table, g: Graph, list: seq<Handler>, a: nat, b: nat)
    requires t.Valid() && Prioritized(t, g) && SameReach(g, t.runafter) && Closed(t, list)
    requires FromList(Both(t), list, a) && Follows(g, a, b) && b < t.Size() && t.implicit[b]
    ensures Listed(list, b)
  {
    hide Follows, Reaches, Listed;
    var k :| 0 <= k < |list| && Reaches(Both(t), list[k].id, a);
    FollowsReaches(g, a, b);
    assert Reaches(t.runafter, a, b);
    NotItself(t, g, a, b);
    ReachesFirst(t.runafter, a, b);
    RunafterInBoth(t, a, b);
    ThenFollows(Both(t), list[k].id, a, b);
    assert FollowsSome(Both(t), list, b);
  }

  lemma RunafterInBoth(t: Table, a: nat, b: nat)
    requires t.Valid() && Follows(t.runafter, a, b)
    ensures Follows(Both(t), a, b)
  {
    hide Reaches;
    forall u: nat, v: nat | Edge(t.runafter, u, v) ensures Edge(Both(t), u, v) {
    }
    var w: nat :| Edge(t.runafter, a, w) && Reaches(t.runafter, w, b);
    SubgraphReaches(t.runafter, Both(t), w, b);
  }

  // The loop itself.

  /** Looks for an action among the dependencies of a meta action; there is at least one. */
  method IsMetadep(metadeps: seq<nat>, id: int) returns (found: bool)
    requires metadeps != []
    ensures found <==> exists k :: 0 <= k < |metadeps| && metadeps[k] == id
  {
    var next := 0;
    while true
      invariant 0 <= next < |metadeps|
      invariant forall k :: 0 <= k < next ==> metadeps[k] != id
      decreases |metadeps| - next
    {
      if metadeps[next] == id {
        return true;
      }
      next := next + 1;
      if next == |metadeps| {
        return false;
      }
    }
  }

  lemma {:induction false} FirstExists(t: Table, queue: seq<Handler>)
    requires t.Valid() && t.Knows(queue) && queue != []
    ensures exists i: nat :: IsFirst(t, queue, i)
  {
    var rest := queue[1..];
    assert queue[0] in queue;
    if rest == [] {
      assert IsFirst(t, queue, 0);
    } else {
      FirstExists(t, rest);
      var i: nat :| IsFirst(t, rest, i);
      assert rest[i] == queue[i + 1] && queue[i + 1] in queue;
      var j := if t.priority[queue[0].id] <= t.priority[rest[i].id] then 0 else i + 1;
      forall k | 0 <= k < |queue| ensures t.priority[queue[j].id] <= t.priority[queue[k].id] {
        if k > 0 {
          assert queue[k] == rest[k - 1];
        }
      }
      assert IsFirst(t, queue, j);
    }
  }

  /** Moves the list into the queue, its last entry first. */
  method Enqueue(t: Table, list: seq<Handler>) returns (queue: seq<Handler>)
    requires t.Valid() && t.Knows(list)
    ensures multiset(queue) == multiset(list) && t.Knows(queue)
  {
    queue := [];
    var n := |list|;
    while n > 0
      invariant 0 <= n <= |list| && multiset(queue) == multiset(list[n..]) && t.Knows(queue)
    {
      n := n - 1;
      assert list[n..] == [list[n]] + list[n + 1..];
      assert list[n] in list;
      queue := queue + [list[n]];
    }
    assert list[0..] == list;
  }

  /** Moves the list into a queue and runs it. `run` records what was taken from the queue,
      `rest` what was left when the program stopped. */
  method ProcessActions(t: Table, list: seq<Handler>, world: World)
    returns (ok: bool, run: seq<Step>, rest: seq<Handler>, ghost start: seq<Handler>)
    requires t.Valid() && t.Knows(list) && Acyclic(t.metadeps)
    requires forall u :: 0 <= u < t.Size() && t.meta[u] ==> t.metadeps[u] != []
    ensures multiset(start) == multiset(list) && Runs(t, start, run, rest)
    ensures ok ==> rest == [] && Answered(t, world, run, |run|)
    ensures !ok ==> StoppedBy(t, world, run) && Answered(t, world, run, |run| - 1)
    ensures Handlers(run) + multiset(rest) == multiset(list) + AllSpawned(run)
  {
    var queue := Enqueue(t, list);
    start := queue;
    run := [];
    hide Acyclic, IsFirst, TakesStep, Weight, Runs, Refuses, StoppedBy, After, MaySpawn, Answered, Handlers, AllSpawned;
    StartOfRun(t, start);
    AnsweredNothing(t, world);
    while queue != []
      invariant t.Knows(queue) && Runs(t, start, run, queue) && Answered(t, world, run, |run|)
      decreases Weight(t, queue)
    {
      FirstExists(t, queue);
      var i: nat :| i < |queue| && IsFirst(t, queue, i);
      var handler := queue[i];
      assert handler in queue;
      var step := Step(handler, None);
      var goesOn := true;
      if t.meta[handler.id] {
        var spawned := RunMeta(t, handler, |run|, world);
        step := Step(handler, spawned);
        goesOn := spawned.Some?;
      } else {
        goesOn := world.standard(|run|, handler);
        StandardRefuses(t, world, handler, |run|);
      }
      TakeFirst(t, queue, i, step);
      StepIsLighter(t, queue, i, step);
      RunsLonger(t, start, run, queue, i, step);
      queue := After(queue, i, step);
      AnsweredMore(t, world, run, step);
      run := run + [step];
      StoppedNow(t, world, run, handler);
      if !goesOn {
        RunsConserve(t, start, run, queue);
        return false, run, queue, start;
      }
    }
    RunsConserve(t, start, run, []);
    ok, rest := true, [];
  }

  /** None of the first `n` actions refused: standard actions said to go on, and meta actions were
      replaced by what they answered. */
  ghost predicate Answered(t: Table, world: World, run: seq<Step>, n: int)
    requires t.Valid()
  {
    n <= |run| && forall k :: 0 <= k < n ==>
      && run[k].handler.id < t.Size() && !Refuses(t, world, run[k].handler, k)
      && match run[k].spawned
         case None => !t.meta[run[k].handler.id] && world.standard(k, run[k].handler)
         case Some(r) => t.meta[run[k].handler.id] && world.meta(k, run[k].handler) == Some((r.id as int, r.args))
  }

  lemma AnsweredNothing(t: Table, world: World)
    requires t.Valid()
    ensures Answered(t, world, [], 0)
  {
  }

  lemma AnsweredMore(t: Table, world: World, run: seq<Step>, s: Step)
    requires t.Valid() && Answered(t, world, run, |run|)
    ensures Answered(t, world, run + [s], |run|)
    ensures s.handler.id < t.Size() && !Refuses(t, world, s.handler, |run|)
      && (if s.spawned.Some? then t.meta[s.handler.id] && world.meta(|run|, s.handler) == Some((s.spawned.value.id as int, s.spawned.value.args))
          else !t.meta[s.handler.id])
      ==> Answered(t, world, run + [s], |run| + 1)
  {
    var more := run + [s];
    assert forall k :: 0 <= k < |run| ==> more[k] == run[k];
  }

  /** The action stops the program: it says so, or what it turned into is not allowed. */
  ghost predicate Refuses(t: Table, world: World, h: Handler, time: nat)
    requires t.Valid() && h.id < t.Size()
  {
    if t.meta[h.id] then
      var answer := world.meta(time, h);
      answer.None? || forall r: Handler :: MaySpawn(t, h, r) ==> answer.value != (r.id as int, r.args)
    else !world.standard(time, h)
  }

  ghost predicate StoppedBy(t: Table, world: World, run: seq<Step>)
    requires t.Valid()
  {
    run != [] && var last := run[|run| - 1].handler; last.id < t.Size() && Refuses(t, world, last, |run| - 1)
  }

  lemma StoppedNow(t: Table, world: World, run: seq<Step>, h: Handler)
    requires t.Valid() && h.id < t.Size() && run != [] && run[|run| - 1].handler == h
    ensures StoppedBy(t, world, run) <==> Refuses(t, world, h, |run| - 1)
  {
  }

  lemma StandardRefuses(t: Table, world: World, h: Handler, time: nat)
    requires t.Valid() && h.id < t.Size() && !t.meta[h.id]
    ensures Refuses(t, world, h, time) <==> !world.standard(time, h)
  {
  }

  lemma StartOfRun(t: Table, queue: seq<Handler>)
    requires t.Valid() && t.Knows(queue)
    ensures Runs(t, queue, [], queue)
  {
  }

  lemma TakeFirst(t: Table, queue: seq<Handler>, i: nat, s: Step)
    requires t.Valid() && t.Knows(queue) && i < |queue| && IsFirst(t, queue, i) && s.handler == queue[i]
    requires s.handler.id < t.Size() && (s.spawned.Some? ==> MaySpawn(t, s.handler, s.spawned.value))
    ensures TakesStep(t, queue, i, s) && t.Knows(After(queue, i, s))
  {
  }

  /** Runs a meta action and checks what it turned into. */
  method RunMeta(t: Table, handler: Handler, time: nat, world: World) returns (spawned: Option<Handler>)
    requires t.Valid() && handler.id < t.Size() && t.meta[handler.id] && t.metadeps[handler.id] != []
    ensures spawned.Some? ==> MaySpawn(t, handler, spawned.value)
    ensures spawned.Some? ==> world.meta(time, handler) == Some((spawned.value.id, spawned.value.args))
    ensures spawned.None? <==> Refuses(t, world, handler, time)
  {
    var answer := world.meta(time, handler);
    if answer.None? {
      return None;
    }
    var (id, args) := answer.value;
    var found := IsMetadep(t.metadeps[handler.id], id);
    if !found {
      return None;
    }
    if |args| < t.low[id] || |args| > t.high[id] {
      return None;
    }
    spawned := Some(Handler(id, args));
  }

  /** What is run when `given` is asked for: what it depends on, and the help action if nothing
      in the list would come after it. */
  ghost predicate ListFor(t: Table, given: seq<Handler>, help: Option<nat>, list: seq<Handler>)
    requires t.Valid() && (help.Some? ==> help.value < t.Size())
  {
    exists all: seq<Handler> ::
      && t.Knows(all) && Completed(t, given, all)
      && if NeedsHelp(t, all, help) then Completed(t, all + [Handler(help.value, [])], list) else list == all
  }

  /** Something that was added follows from something that was there. */
  lemma AddedFollowsSome(g: Graph, list: seq<Handler>, n: nat, k: nat)
    requires n <= k < |list| && FollowFromFirst(g, list, n)
    ensures n > 0
  {
    hide Follows;
    assert FollowsOneOf(g, list, n, list[k].id);
  }

  /** With nothing asked for, the program shows help, if it can, and what help depends on comes with it. */
  lemma NothingAskedFor(t: Table, help: Option<nat>, list: seq<Handler>)
    requires t.Valid() && (help.Some? ==> help.value < t.Size()) && ListFor(t, [], help, list)
    ensures if help.None? then list == [] else Completed(t, [Handler(help.value, [])], list) && list[0] == Handler(help.value, [])
  {
    var all: seq<Handler> :|
      && t.Knows(all) && Completed(t, [], all)
      && if NeedsHelp(t, all, help) then Completed(t, all + [Handler(help.value, [])], list) else list == all;
    if all != [] {
      AddedFollowsSome(Both(t), all, 0, 0);
    }
    if help.Some? {
      assert [] + [Handler(help.value, [])] == [Handler(help.value, [])];
    }
  }

  /** The whole program, for tables compiled from the runafter graph `g` and the requires
      graph `q`: the requirements are those the author wrote, everything asked for is run, and
      so are, earlier, the implicit actions that it must run after; no action, however it
      came into the queue, runs after one that must run after it; and the program goes on
      exactly as long as no action refuses. */
  method ParseCommandLine(t: Table, given: seq<Handler>, help: Option<nat>, world: World, ghost g: Graph, ghost q: Graph)
    returns (ok: bool, run: seq<Step>, ghost list: seq<Handler>)
    requires t.Valid() && t.Knows(given) && Acyclic(Both(t)) && (help.Some? ==> help.value < t.Size())
    requires forall u :: 0 <= u < t.Size() && t.meta[u] ==> t.metadeps[u] != []
    requires Prioritized(t, g) && SameReach(g, t.runafter)
    requires IsReduction(q, t.requirements) && SameReach(q, t.requirements)
    ensures ok ==> ClosedUnderChains(q, given) && Answered(t, world, run, |run|)
    ensures !ok ==>
      if ClosedUnderChains(q, given) then StoppedBy(t, world, run) && Answered(t, world, run, |run| - 1) else run == []
    ensures ClosedUnderChains(q, given) ==> ListFor(t, given, help, list) && Handlers(run) <= multiset(list) + AllSpawned(run)
    ensures ok ==> Handlers(run) == multiset(list) + AllSpawned(run)
    ensures ok ==> forall h <- given :: HasRun(run, h.id, |run|)
    ensures ok && MetaDown(t) ==> forall j: nat, b: nat ::
        j < |run| && b < t.Size() && t.implicit[b] && Follows(g, run[j].handler.id, b) ==> HasRun(run, b, j)
    ensures MetaDown(t) ==> InOrder(t, run) && forall j: nat, k: nat ::
        j < k < |run| ==> !Follows(g, run[j].handler.id, run[k].handler.id)
  {
    hide Acyclic, Prioritized, SameReach, IsReduction, ClosedUnder, ClosedUnderChains, Closed, Grown, Runs, MetaDown, Follows, HasRun;
    hide FollowersOfAll, FollowFromFirst, NeedsHelp, Answered, StoppedBy, Handlers, AllSpawned, InOrder;
    var actions := new ActionList(given);
    var satisfied := actions.RequirementsAreListed(t);
    ReducedRequirementsSuffice(q, t.requirements, given);
    list := [];
    if !satisfied {
      NothingRun(t);
      return false, [], [];
    }
    actions.AddImplicitDependencies(t);
    ghost var all := actions.handlers;
    actions.TryToHelp(t, help);
    list := actions.handlers;
    assert ListFor(t, given, help, list);
    assert given <= list;
    MetadepsAcyclic(t);
    var rest: seq<Handler>;
    ghost var start: seq<Handler>;
    ok, run, rest, start := ProcessActions(t, actions.handlers, world);
    if MetaDown(t) {
      RunKnowsQueue(t, start, run, rest);
      var p := Least(t, start);
      RunsInOrder(t, start, run, rest, p);
      forall j: nat, k: nat | j < k < |run| ensures !Follows(g, run[j].handler.id, run[k].handler.id) {
        NeverAfter(t, g, start, run, rest, j, k);
      }
    }
    if ok {
      assert multiset(rest) == multiset{};
      forall h | h in given ensures HasRun(run, h.id, |run|) {
        var k :| 0 <= k < |given| && given[k] == h;
        assert list[k] == h;
        ListHasRun(t, list, start, run, k);
      }
      if MetaDown(t) {
        forall j: nat, b: nat | j < |run| && b < t.Size() && t.implicit[b] && Follows(g, run[j].handler.id, b)
          ensures HasRun(run, b, j)
        {
          DependenciesRunFirst(t, g, list, start, run, j, b);
        }
      }
    }
  }

  lemma NothingRun(t: Table)
    requires t.Valid()
    ensures InOrder(t, []) && Handlers([]) == multiset{}
  {
  }

  lemma MetadepsAcyclic(t: Table)
    requires t.Valid() && Acyclic(Both(t))
    ensures Acyclic(t.metadeps)
  {
    hide Acyclic;
    forall u: nat, v: nat | Edge(t.metadeps, u, v) ensures Edge(Both(t), u, v) {
    }
    SubgraphAcyclic(t.metadeps, Both(t));
  }
}
