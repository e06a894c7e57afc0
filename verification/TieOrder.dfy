/** In which order the generated program runs actions of equal priority. A comment in it says
    in the order of the list; the queue does not promise that. */
module TieOrder {
  import opened Graphs
  import opened CommandLine
  import opened Scheduler

  ghost predicate AllStandard(t: Table, list: seq<Handler>)
    requires t.Valid()
  {
    t.Knows(list) && forall h <- list :: !t.meta[h.id]
  }

  /** No meta action turned into another action. */
  predicate Unspawned(run: seq<Step>) {
    forall j | 0 <= j < |run| :: run[j].spawned.None?
  }

  function Taken(run: seq<Step>): (r: seq<Handler>)
    ensures |r| == |run|
  {
    if run == [] then [] else [run[0].handler] + Taken(run[1..])
  }

  function Steps(hs: seq<Handler>): (r: seq<Step>)
    ensures Taken(r) == hs && Unspawned(r)
  {
    if hs == [] then []
    else
      var r := [Step(hs[0], None)] + Steps(hs[1..]);
      assert r[1..] == Steps(hs[1..]);
      r
  }

  /** The entries of one priority, in order. */
  function OfPriority(t: Table, list: seq<Handler>, p: int): seq<Handler>
    requires t.Valid() && t.Knows(list)
  {
    if list == [] then []
    else
      assert list[0] in list;
      (if t.priority[list[0].id] == p then [list[0]] else []) + OfPriority(t, list[1..], p)
  }

  /** Entries of equal priority were taken in the order in which they are in the list. */
  ghost predicate ListOrder(t: Table, list: seq<Handler>, run: seq<Step>)
    requires t.Valid() && t.Knows(list)
  {
    t.Knows(Taken(run)) && forall p: int :: OfPriority(t, Taken(run), p) == OfPriority(t, list, p)
  }

  /** Whatever the queue does with ties, as long as it only takes entries of the list. */
  ghost predicate AlwaysListOrder(t: Table, list: seq<Handler>)
    requires t.Valid() && t.Knows(list)
  {
    forall queue, run :: multiset(queue) == multiset(list) && Runs(t, queue, run, []) && Unspawned(run) ==> ListOrder(t, list, run)
  }

  ghost predicate TiesAreEqual(t: Table, list: seq<Handler>)
    requires t.Valid() && t.Knows(list)
  {
    forall i, k :: 0 <= i < k < |list| && t.priority[list[i].id] == t.priority[list[k].id] ==> list[i] == list[k]
  }

  // Without ties between different entries there is only one order.

  lemma {:induction false} OnlyTaken(t: Table, queue: seq<Handler>, run: seq<Step>)
    requires t.Valid() && Runs(t, queue, run, []) && Unspawned(run)
    ensures multiset(Taken(run)) == multiset(queue)
    decreases |run|
  {
    if run != [] {
      var i: nat :| i < |queue| && TakesStep(t, queue, i, run[0]) && Runs(t, After(queue, i, run[0]), run[1..], []);
      assert run[0].spawned.None?;
      StepConserves(queue, i, run[0]);
      OnlyTaken(t, After(queue, i, run[0]), run[1..]);
    }
  }

  /** This goes for every run of a list of standard actions. */
  lemma {:induction false} StandardOnly(t: Table, queue: seq<Handler>, run: seq<Step>, rest: seq<Handler>)
    requires t.Valid() && AllStandard(t, queue) && Runs(t, queue, run, rest)
    ensures Unspawned(run)
    decreases |run|
  {
    if run != [] {
      var i: nat :| i < |queue| && TakesStep(t, queue, i, run[0]) && Runs(t, After(queue, i, run[0]), run[1..], rest);
      assert queue[i] in queue && run[0].spawned.None?;
      var next := After(queue, i, run[0]);
      forall h | h in next ensures h in queue {
      }
      StandardOnly(t, next, run[1..], rest);
      assert forall j | 1 <= j < |run| :: run[j] == run[1..][j - 1];
    }
  }

  lemma {:induction false} PriorityCount(t: Table, list: seq<Handler>, p: int, h: Handler)
    requires t.Valid() && t.Knows(list) && h.id < t.Size()
    ensures multiset(OfPriority(t, list, p))[h] == if t.priority[h.id] == p then multiset(list)[h] else 0
  {
    if list != [] {
      assert list == [list[0]] + list[1..];
      assert list[0] in list;
      PriorityCount(t, list[1..], p, h);
    }
  }

  lemma {:induction false} FromTheList(t: Table, list: seq<Handler>, p: int, k: nat)
    requires t.Valid() && t.Knows(list) && k < |OfPriority(t, list, p)|
    ensures OfPriority(t, list, p)[k] in list && t.priority[OfPriority(t, list, p)[k].id] == p
  {
    assert list[0] in list;
    if t.priority[list[0].id] != p {
      FromTheList(t, list[1..], p, k);
    } else if k > 0 {
      FromTheList(t, list[1..], p, k - 1);
    }
  }

  lemma SameOfPriority(t: Table, list: seq<Handler>, taken: seq<Handler>, p: int)
    requires t.Valid() && t.Knows(list) && t.Knows(taken) && multiset(taken) == multiset(list) && TiesAreEqual(t, list)
    ensures OfPriority(t, taken, p) == OfPriority(t, list, p)
  {
    var a, b := OfPriority(t, taken, p), OfPriority(t, list, p);
    forall h: Handler ensures multiset(a)[h] == multiset(b)[h] {
      if h.id < t.Size() {
        PriorityCount(t, taken, p, h);
        PriorityCount(t, list, p, h);
      } else {
        NotInside(t, taken, p, h);
        NotInside(t, list, p, h);
      }
    }
    assert multiset(a) == multiset(b);
    assert |a| == |multiset(a)| == |multiset(b)| == |b|;
    forall k | 0 <= k < |a| ensures a[k] == b[k] {
      FromTheList(t, taken, p, k);
      FromTheList(t, list, p, k);
      assert a[k] in multiset(taken);
      OneOf(t, list, a[k], b[k]);
    }
  }

  lemma NotInside(t: Table, list: seq<Handler>, p: int, h: Handler)
    requires t.Valid() && t.Knows(list) && h.id >= t.Size()
    ensures multiset(OfPriority(t, list, p))[h] == 0
  {
    var a := OfPriority(t, list, p);
    forall k | 0 <= k < |a| ensures a[k] != h {
      FromTheList(t, list, p, k);
    }
  }

  lemma OneOf(t: Table, list: seq<Handler>, a: Handler, b: Handler)
    requires t.Valid() && t.Knows(list) && TiesAreEqual(t, list) && a in list && b in list
    requires t.priority[a.id] == t.priority[b.id]
    ensures a == b
  {
    var i :| 0 <= i < |list| && list[i] == a;
    var k :| 0 <= k < |list| && list[k] == b;
  }

  // With ties, every arrangement of them is a run.

  ghost predicate Ascending(t: Table, hs: seq<Handler>)
    requires t.Valid() && t.Knows(hs)
  {
    forall i, k :: 0 <= i < k < |hs| ==> t.priority[hs[i].id] <= t.priority[hs[k].id]
  }

  /** Every arrangement of the queue by priority is a way to run it. */
  lemma {:induction false} ArrangementRuns(t: Table, queue: seq<Handler>, hs: seq<Handler>)
    requires t.Valid() && t.Knows(queue) && t.Knows(hs) && Ascending(t, hs) && multiset(queue) == multiset(hs)
    ensures Runs(t, queue, Steps(hs), [])
    decreases |hs|
  {
    if hs == [] {
      assert |queue| == |multiset(queue)| == 0;
    } else {
      var i := FirstArranged(t, queue, hs);
      var s := Step(hs[0], None);
      RestArranged(t, queue, hs, i, s);
      hide Runs, After, IsFirst;
      ArrangementRuns(t, After(queue, i, s), hs[1..]);
      FirstStep(t, queue, i, s, Steps(hs[1..]), []);
    }
  }

  lemma FirstArranged(t: Table, queue: seq<Handler>, hs: seq<Handler>) returns (i: nat)
    requires t.Valid() && t.Knows(queue) && t.Knows(hs) && Ascending(t, hs) && multiset(queue) == multiset(hs) && hs != []
    ensures i < |queue| && queue[i] == hs[0] && IsFirst(t, queue, i)
  {
    assert hs[0] in multiset(queue);
    i :| 0 <= i < |queue| && queue[i] == hs[0];
    forall k | 0 <= k < |queue| ensures t.priority[queue[i].id] <= t.priority[queue[k].id] {
      assert queue[k] in multiset(hs);
      var j :| 0 <= j < |hs| && hs[j] == queue[k];
    }
  }

  lemma RestArranged(t: Table, queue: seq<Handler>, hs: seq<Handler>, i: nat, s: Step)
    requires t.Valid() && t.Knows(queue) && t.Knows(hs) && Ascending(t, hs) && multiset(queue) == multiset(hs) && hs != []
    requires i < |queue| && queue[i] == hs[0] && s == Step(hs[0], None)
    ensures t.Knows(hs[1..]) && Ascending(t, hs[1..])
    ensures t.Knows(After(queue, i, s)) && multiset(After(queue, i, s)) == multiset(hs[1..])
  {
    hide IsFirst, After;
    StepConserves(queue, i, s);
    var next := After(queue, i, s);
    LessOne(hs[0], multiset(next), multiset(queue), hs);
    assert forall h <- hs[1..] :: h in hs;
    forall h | h in next ensures h.id < t.Size() {
      assert h in multiset(hs[1..]);
    }
  }

  lemma LessOne(h: Handler, next: multiset<Handler>, queue: multiset<Handler>, hs: seq<Handler>)
    requires hs != [] && hs[0] == h && queue == multiset(hs) && multiset{h} + next == queue + multiset([])
    ensures next == multiset(hs[1..])
  {
    assert hs == [h] + hs[1..];
    assert multiset(hs) == multiset{h} + multiset(hs[1..]);
    assert next == (multiset{h} + next) - multiset{h};
  }

  lemma {:induction false} Arrangement(t: Table, list: seq<Handler>) returns (hs: seq<Handler>)
    requires t.Valid() && t.Knows(list)
    ensures t.Knows(hs) && Ascending(t, hs) && multiset(hs) == multiset(list)
    decreases |list|
  {
    if list == [] {
      hs := [];
    } else {
      FirstExists(t, list);
      var i: nat :| IsFirst(t, list, i);
      var rest := Without(list, i);
      assert list == list[..i] + ([list[i]] + list[i + 1..]);
      assert list[i] in list;
      forall h | h in rest ensures h in list {
      }
      var tail := Arrangement(t, rest);
      hs := [list[i]] + tail;
      forall k | 0 <= k < |tail| ensures t.priority[list[i].id] <= t.priority[tail[k].id] {
        assert tail[k] in multiset(rest);
        assert tail[k] in list;
      }
    }
  }

  ghost predicate SamePriorities(t: Table, a: seq<Handler>, b: seq<Handler>)
    requires t.Valid() && t.Knows(a) && t.Knows(b)
  {
    |a| == |b| && forall k :: 0 <= k < |a| ==> t.priority[a[k].id] == t.priority[b[k].id]
  }

  lemma TailsAgree(t: Table, a: seq<Handler>, b: seq<Handler>, p: int)
    requires t.Valid() && t.Knows(a) && t.Knows(b) && SamePriorities(t, a, b) && a != []
    requires OfPriority(t, a, p) == OfPriority(t, b, p)
    ensures t.Knows(a[1..]) && t.Knows(b[1..]) && SamePriorities(t, a[1..], b[1..])
    ensures OfPriority(t, a[1..], p) == OfPriority(t, b[1..], p)
    ensures a[0].id < t.Size() && (t.priority[a[0].id] == p ==> a[0] == b[0])
  {
    HeadOfPriority(t, a, p);
    HeadOfPriority(t, b, p);
    hide OfPriority;
    assert a[0].id < t.Size() && t.priority[a[0].id] == t.priority[b[0].id];
    forall k | 0 <= k < |a| - 1 ensures t.priority[a[1..][k].id] == t.priority[b[1..][k].id] {
      assert a[1..][k] == a[k + 1] && b[1..][k] == b[k + 1];
    }
    var x, y := OfPriority(t, a[1..], p), OfPriority(t, b[1..], p);
    if t.priority[a[0].id] == p {
      SameHeads(a[0], x, b[0], y);
    } else {
      assert [] + x == x && [] + y == y;
    }
  }

  lemma HeadOfPriority(t: Table, list: seq<Handler>, p: int)
    requires t.Valid() && t.Knows(list) && list != []
    ensures t.Knows(list[1..]) && list[0].id < t.Size()
    ensures OfPriority(t, list, p)
      == (if t.priority[list[0].id] == p then [list[0]] else []) + OfPriority(t, list[1..], p)
  {
    assert list[0] in list;
    assert forall h <- list[1..] :: h in list;
  }

  lemma SameHeads(a: Handler, x: seq<Handler>, b: Handler, y: seq<Handler>)
    requires [a] + x == [b] + y
    ensures a == b && x == y
  {
    assert ([a] + x)[0] == ([b] + y)[0];
    assert ([a] + x)[1..] == x && ([b] + y)[1..] == y;
  }

  /** Where priorities agree position by position, equal entries of a priority mean equal positions. */
  lemma {:induction false} SamePosition(t: Table, a: seq<Handler>, b: seq<Handler>, x: nat, p: int)
    requires t.Valid() && t.Knows(a) && t.Knows(b) && SamePriorities(t, a, b) && x < |a| && t.priority[a[x].id] == p
    requires OfPriority(t, a, p) == OfPriority(t, b, p)
    ensures a[x] == b[x]
    decreases x
  {
    hide OfPriority;
    TailsAgree(t, a, b, p);
    if x > 0 {
      SamePosition(t, a[1..], b[1..], x - 1, p);
    }
  }

  lemma Exchanged(t: Table, a: seq<Handler>, x: nat, y: nat) returns (b: seq<Handler>)
    requires t.Valid() && t.Knows(a) && Ascending(t, a) && x < |a| && y < |a| && t.priority[a[x].id] == t.priority[a[y].id]
    ensures t.Knows(b) && Ascending(t, b) && multiset(b) == multiset(a) && SamePriorities(t, a, b) && b[x] == a[y]
  {
    b := a[x := a[y]][y := a[x]];
    forall h | h in b ensures h in a {
    }
  }

  /** Two different entries of equal priority: some run takes them against the order of the list. */
  lemma AgainstListOrder(t: Table, list: seq<Handler>, i: nat, k: nat)
    requires t.Valid() && t.Knows(list) && i < k < |list| && list[i] != list[k]
    requires t.priority[list[i].id] == t.priority[list[k].id]
    ensures !AlwaysListOrder(t, list)
  {
    hide Runs, OfPriority, Ascending;
    var p := t.priority[list[i].id];
    var a := Arrangement(t, list);
    assert list[i] in multiset(a) && list[k] in multiset(a);
    var x: nat :| x < |a| && a[x] == list[i];
    var y: nat :| y < |a| && a[y] == list[k];
    var b := Exchanged(t, a, x, y);
    ArrangementRuns(t, list, a);
    ArrangementRuns(t, list, b);
    if AlwaysListOrder(t, list) {
      assert ListOrder(t, list, Steps(a)) && ListOrder(t, list, Steps(b));
      SamePosition(t, a, b, x, p);
    }
  }

  /** Actions of equal priority always run in the order of the list exactly if no two different
      entries of the list have the same priority. */
  lemma ListOrderExactly(t: Table, list: seq<Handler>)
    requires t.Valid() && t.Knows(list)
    ensures AlwaysListOrder(t, list) <==> TiesAreEqual(t, list)
  {
    hide Runs;
    if TiesAreEqual(t, list) {
      forall queue, run | multiset(queue) == multiset(list) && Runs(t, queue, run, []) && Unspawned(run) ensures ListOrder(t, list, run) {
        OnlyTaken(t, queue, run);
        forall h | h in Taken(run) ensures h in list {
          assert h in multiset(Taken(run));
        }
        forall p: int ensures OfPriority(t, Taken(run), p) == OfPriority(t, list, p) {
          SameOfPriority(t, list, Taken(run), p);
        }
      }
    } else {
      var i, k :| 0 <= i < k < |list| && t.priority[list[i].id] == t.priority[list[k].id] && list[i] != list[k];
      AgainstListOrder(t, list, i, k);
    }
  }

  // With meta actions in the queue. What they turn into is fixed by `answers`, at each time.

  type Answers = (nat, Handler) -> Option<Handler>

  ghost predicate Allowed(t: Table, answers: Answers)
    requires t.Valid()
  {
    forall n: nat, h: Handler :: h.id < t.Size() && answers(n, h).Some? ==> MaySpawn(t, h, answers(n, h).value)
  }

  ghost predicate Obeys(answers: Answers, n: nat, run: seq<Step>) {
    forall j :: 0 <= j < |run| ==> run[j].spawned == answers(n + j, run[j].handler)
  }

  /** A run to the end that gets these answers. */
  ghost predicate Completes(t: Table, answers: Answers, n: nat, queue: seq<Handler>, run: seq<Step>)
    requires t.Valid()
  {
    Runs(t, queue, run, []) && Obeys(answers, n, run)
  }

  ghost predicate OneOrder(t: Table, answers: Answers, n: nat, queue: seq<Handler>)
    requires t.Valid()
  {
    forall a, b :: Completes(t, answers, n, queue, a) && Completes(t, answers, n, queue, b) ==> a == b
  }

  /** The queue contains no two different entries of the least priority. */
  ghost predicate NoTie(t: Table, queue: seq<Handler>)
    requires t.Valid() && t.Knows(queue)
  {
    forall i: nat, k: nat :: IsFirst(t, queue, i) && IsFirst(t, queue, k) ==> queue[i] == queue[k]
  }

  ghost predicate NeverTie(t: Table, answers: Answers, n: nat, queue: seq<Handler>)
    requires t.Valid()
  {
    forall run, rest :: Runs(t, queue, run, rest) && Obeys(answers, n, run) ==> t.Knows(rest) && NoTie(t, rest)
  }

  lemma ObeysFirst(answers: Answers, n: nat, s: Step, run: seq<Step>)
    requires s.spawned == answers(n, s.handler) && Obeys(answers, n + 1, run)
    ensures Obeys(answers, n, [s] + run)
  {
    forall j | 0 <= j < |run| + 1 ensures ([s] + run)[j].spawned == answers(n + j, ([s] + run)[j].handler) {
      if j > 0 {
        assert run[j - 1].spawned == answers(n + 1 + (j - 1), run[j - 1].handler);
      }
    }
  }

  lemma ObeysRest(answers: Answers, n: nat, run: seq<Step>)
    requires Obeys(answers, n, run) && run != []
    ensures run[0].spawned == answers(n, run[0].handler) && Obeys(answers, n + 1, run[1..])
  {
    assert run[0].spawned == answers(n + 0, run[0].handler);
    forall j | 0 <= j < |run| - 1 ensures run[1..][j].spawned == answers(n + 1 + j, run[1..][j].handler) {
      assert run[j + 1].spawned == answers(n + (j + 1), run[j + 1].handler);
    }
  }

  lemma FirstOfRun(t: Table, queue: seq<Handler>, run: seq<Step>) returns (i: nat)
    requires t.Valid() && Runs(t, queue, run, []) && run != []
    ensures t.Knows(queue) && i < |queue| && TakesStep(t, queue, i, run[0]) && Runs(t, After(queue, i, run[0]), run[1..], [])
    ensures IsFirst(t, queue, i) && queue[i] == run[0].handler
  {
    i :| i < |queue| && TakesStep(t, queue, i, run[0]) && Runs(t, After(queue, i, run[0]), run[1..], []);
  }

  lemma AlikeAfter(a: seq<Handler>, i: nat, b: seq<Handler>, k: nat, s: Step)
    requires multiset(a) == multiset(b) && i < |a| && k < |b| && a[i] == s.handler == b[k]
    ensures multiset(After(a, i, s)) == multiset(After(b, k, s))
  {
    StepConserves(a, i, s);
    StepConserves(b, k, s);
    hide After;
    Removed(s.handler, multiset(After(a, i, s)), multiset(After(b, k, s)), multiset(a) + multiset(Spawned(s)));
  }

  /** Only the entries matter, not where in the queue they are. */
  lemma {:induction false} RunsShuffled(t: Table, a: seq<Handler>, b: seq<Handler>, run: seq<Step>)
    requires t.Valid() && multiset(a) == multiset(b) && Runs(t, a, run, [])
    ensures Runs(t, b, run, [])
    decreases |run|
  {
    hide Runs, After, TakesStep, IsFirst;
    if run == [] {
      ShuffledNothing(t, a, b);
    } else {
      var i := FirstOfRun(t, a, run);
      ShuffledKnown(t, a, b);
      var k := SameEntry(t, a, b, i, run[0]);
      AlikeAfter(a, i, b, k, run[0]);
      RunsShuffled(t, After(a, i, run[0]), After(b, k, run[0]), run[1..]);
      FirstStep(t, b, k, run[0], run[1..], []);
      assert [run[0]] + run[1..] == run;
    }
  }

  lemma ShuffledNothing(t: Table, a: seq<Handler>, b: seq<Handler>)
    requires t.Valid() && multiset(a) == multiset(b) && Runs(t, a, [], [])
    ensures Runs(t, b, [], [])
  {
    assert |b| == |multiset(b)| == |multiset(a)| == 0;
  }

  lemma ShuffledKnown(t: Table, a: seq<Handler>, b: seq<Handler>)
    requires multiset(a) == multiset(b) && t.Knows(a)
    ensures t.Knows(b)
  {
    forall h | h in b ensures h in a {
      assert h in multiset(b);
    }
  }

  lemma SameEntry(t: Table, a: seq<Handler>, b: seq<Handler>, i: nat, s: Step) returns (k: nat)
    requires t.Valid() && t.Knows(a) && t.Knows(b) && multiset(a) == multiset(b) && i < |a| && TakesStep(t, a, i, s)
    ensures k < |b| && b[k] == a[i] && TakesStep(t, b, k, s)
  {
    assert a[i] in multiset(b);
    k :| 0 <= k < |b| && b[k] == a[i];
    forall j | 0 <= j < |b| ensures t.priority[b[k].id] <= t.priority[b[j].id] {
      assert b[j] in multiset(a);
      var m :| 0 <= m < |a| && a[m] == b[j];
    }
  }

  lemma Removed(h: Handler, x: multiset<Handler>, y: multiset<Handler>, all: multiset<Handler>)
    requires multiset{h} + x == all && multiset{h} + y == all
    ensures x == y
  {
    assert x == all - multiset{h} == y;
  }

  /** One run after another. */
  lemma {:induction false} RunsThen(t: Table, queue: seq<Handler>, a: seq<Step>, mid: seq<Handler>, b: seq<Step>, rest: seq<Handler>)
    requires t.Valid() && Runs(t, queue, a, mid) && Runs(t, mid, b, rest)
    ensures Runs(t, queue, a + b, rest)
    decreases |a|
  {
    hide TakesStep, After;
    if a == [] {
      assert a + b == b;
    } else {
      var i: nat :| i < |queue| && TakesStep(t, queue, i, a[0]) && Runs(t, After(queue, i, a[0]), a[1..], mid);
      RunsThen(t, After(queue, i, a[0]), a[1..], mid, b, rest);
      FirstStep(t, queue, i, a[0], a[1..] + b, rest);
      assert [a[0]] + (a[1..] + b) == a + b;
    }
  }

  lemma ObeysThen(answers: Answers, n: nat, a: seq<Step>, b: seq<Step>)
    requires Obeys(answers, n, a) && Obeys(answers, n + |a|, b)
    ensures Obeys(answers, n, a + b)
  {
    forall j | 0 <= j < |a + b| ensures (a + b)[j].spawned == answers(n + j, (a + b)[j].handler) {
      if j >= |a| {
        assert b[j - |a|].spawned == answers(n + |a| + (j - |a|), b[j - |a|].handler);
      }
    }
  }

  /** The step that takes the entry at `i`. */
  function StepAt(answers: Answers, n: nat, queue: seq<Handler>, i: nat): Step
    requires i < |queue|
  {
    Step(queue[i], answers(n, queue[i]))
  }

  lemma StepTakes(t: Table, answers: Answers, n: nat, queue: seq<Handler>, i: nat)
    requires t.Valid() && t.Knows(queue) && Allowed(t, answers) && IsFirst(t, queue, i)
    ensures TakesStep(t, queue, i, StepAt(answers, n, queue, i)) && t.Knows(After(queue, i, StepAt(answers, n, queue, i)))
  {
    assert queue[i] in queue;
    RunsKnown(t, queue, i, StepAt(answers, n, queue, i));
  }

  /** From every queue there is a way to the end. */
  lemma {:induction false} SomeRun(t: Table, answers: Answers, n: nat, queue: seq<Handler>) returns (run: seq<Step>)
    requires t.Valid() && t.Knows(queue) && Acyclic(t.metadeps) && Allowed(t, answers)
    ensures Completes(t, answers, n, queue, run)
    decreases Weight(t, queue)
  {
    hide Acyclic, Allowed, TakesStep, After, Weight;
    if queue == [] {
      run := [];
    } else {
      FirstExists(t, queue);
      var i: nat :| IsFirst(t, queue, i);
      run := RunTaking(t, answers, n, queue, i);
    }
  }

  lemma {:induction false} RunTaking(t: Table, answers: Answers, n: nat, queue: seq<Handler>, i: nat) returns (run: seq<Step>)
    requires t.Valid() && t.Knows(queue) && Acyclic(t.metadeps) && Allowed(t, answers) && IsFirst(t, queue, i)
    ensures Completes(t, answers, n, queue, run) && run != [] && run[0] == StepAt(answers, n, queue, i)
    decreases Weight(t, queue), 0
  {
    hide Acyclic, Allowed, TakesStep, After, Weight, Runs, Obeys;
    var s := StepAt(answers, n, queue, i);
    StepTakes(t, answers, n, queue, i);
    StepIsLighter(t, queue, i, s);
    var tail := SomeRun(t, answers, n + 1, After(queue, i, s));
    FirstStep(t, queue, i, s, tail, []);
    ObeysFirst(answers, n, s, tail);
    run := [s] + tail;
  }

  lemma {:induction false} TheSame(t: Table, answers: Answers, n: nat, queue: seq<Handler>, a: seq<Step>, b: seq<Step>)
    requires t.Valid() && NeverTie(t, answers, n, queue) && Completes(t, answers, n, queue, a) && Completes(t, answers, n, queue, b)
    ensures a == b
    decreases |a|
  {
    hide Runs, After, TakesStep, IsFirst, NeverTie, Obeys;
    EmptyRuns(t, queue, a);
    EmptyRuns(t, queue, b);
    if a != [] && b != [] {
      var i := FirstOfRun(t, queue, a);
      var k := FirstOfRun(t, queue, b);
      ObeysRest(answers, n, a);
      ObeysRest(answers, n, b);
      NotTiedNow(t, answers, n, queue);
      var s := a[0];
      assert b[0] == s;
      AlikeAfter(queue, i, queue, k, s);
      RunsShuffled(t, After(queue, k, s), After(queue, i, s), b[1..]);
      NeverTieLater(t, answers, n, queue, i, s);
      TheSame(t, answers, n + 1, After(queue, i, s), a[1..], b[1..]);
      assert a == [s] + a[1..] && b == [s] + b[1..];
    }
  }

  lemma EmptyRuns(t: Table, queue: seq<Handler>, run: seq<Step>)
    requires t.Valid() && Runs(t, queue, run, [])
    ensures run == [] <==> queue == []
  {
  }

  lemma NotTiedNow(t: Table, answers: Answers, n: nat, queue: seq<Handler>)
    requires t.Valid() && t.Knows(queue) && NeverTie(t, answers, n, queue)
    ensures NoTie(t, queue)
  {
    hide NoTie;
    assert Runs(t, queue, [], queue) && Obeys(answers, n, []);
  }

  lemma NeverTieLater(t: Table, answers: Answers, n: nat, queue: seq<Handler>, i: nat, s: Step)
    requires t.Valid() && t.Knows(queue) && i < |queue| && TakesStep(t, queue, i, s) && s.spawned == answers(n, s.handler)
    requires NeverTie(t, answers, n, queue)
    ensures NeverTie(t, answers, n + 1, After(queue, i, s))
  {
    hide NoTie, TakesStep, After, Runs, Obeys;
    forall run, rest | Runs(t, After(queue, i, s), run, rest) && Obeys(answers, n + 1, run) ensures t.Knows(rest) && NoTie(t, rest) {
      FirstStep(t, queue, i, s, run, rest);
      ObeysFirst(answers, n, s, run);
    }
  }

  /** With meta actions, whatever they turn into: there is only one way to run a queue exactly if
      in no queue that comes up two different entries share the least priority. Otherwise either
      of the two can be taken first. */
  lemma OneOrderExactly(t: Table, answers: Answers, n: nat, queue: seq<Handler>)
    requires t.Valid() && t.Knows(queue) && Acyclic(t.metadeps) && Allowed(t, answers)
    ensures OneOrder(t, answers, n, queue) <==> NeverTie(t, answers, n, queue)
  {
    hide Runs, Allowed, Acyclic, Obeys;
    if NeverTie(t, answers, n, queue) {
      forall a, b | Completes(t, answers, n, queue, a) && Completes(t, answers, n, queue, b) ensures a == b {
        TheSame(t, answers, n, queue, a, b);
      }
    }
    if OneOrder(t, answers, n, queue) {
      forall run, rest | Runs(t, queue, run, rest) && Obeys(answers, n, run) ensures t.Knows(rest) && NoTie(t, rest) {
        RunEndsKnown(t, queue, run, rest);
        forall i: nat, k: nat | IsFirst(t, rest, i) && IsFirst(t, rest, k) ensures rest[i] == rest[k] {
          var a := RunThrough(t, answers, n, queue, run, rest, i);
          var b := RunThrough(t, answers, n, queue, run, rest, k);
          assert a[|run|].handler == rest[i] && b[|run|].handler == rest[k];
        }
      }
    }
  }

  lemma {:induction false} RunEndsKnown(t: Table, queue: seq<Handler>, run: seq<Step>, rest: seq<Handler>)
    requires t.Valid() && Runs(t, queue, run, rest)
    ensures t.Knows(rest)
    decreases |run|
  {
    if run != [] {
      var i: nat :| i < |queue| && TakesStep(t, queue, i, run[0]) && Runs(t, After(queue, i, run[0]), run[1..], rest);
      RunEndsKnown(t, After(queue, i, run[0]), run[1..], rest);
    }
  }

  /** A run that comes by `rest` and takes the entry at `i` there. */
  lemma RunThrough(t: Table, answers: Answers, n: nat, queue: seq<Handler>, run: seq<Step>, rest: seq<Handler>, i: nat) returns (all: seq<Step>)
    requires t.Valid() && t.Knows(rest) && Acyclic(t.metadeps) && Allowed(t, answers)
    requires Runs(t, queue, run, rest) && Obeys(answers, n, run) && IsFirst(t, rest, i)
    ensures Completes(t, answers, n, queue, all) && |run| < |all| && all[|run|].handler == rest[i]
  {
    hide Runs, Obeys, Acyclic, Allowed;
    var tail := RunTaking(t, answers, n + |run|, rest, i);
    RunsThen(t, queue, run, rest, tail, []);
    ObeysThen(answers, n, run, tail);
    all := run + tail;
  }

  /** Two actions without dependencies have the same priority; both orders are runs. */
  lemma EitherOrder(t: Table, a: Handler, b: Handler)
    requires t.Valid() && a.id < t.Size() && b.id < t.Size() && t.priority[a.id] == t.priority[b.id]
    ensures Runs(t, [a, b], [Step(a, None), Step(b, None)], []) && Runs(t, [a, b], [Step(b, None), Step(a, None)], [])
  {
    hide Runs;
    ArrangementRuns(t, [a, b], [a, b]);
    ArrangementRuns(t, [a, b], [b, a]);
    StepsOfTwo(a, b);
    StepsOfTwo(b, a);
  }

  lemma StepsOfTwo(a: Handler, b: Handler)
    ensures Steps([a, b]) == [Step(a, None), Step(b, None)]
  {
    assert [a, b][1..] == [b];
  }
}
