/** How often a for loop over 32-bit integers runs its body. */
module ForLoops {
  import opened Words
  import opened Ir
  import L = Llvm
  import S = Semantics
  import opened Lowering
  import opened Matching
  import opened Simulation
  import opened CompilerCorrectness

  /** The number of values a, a+s, a+2s, ... up to the end `b`, in the direction of the step. */
  function Iterations(a: int, b: int, s: int): nat {
    if s > 0 && a <= b then (b - a) / s + 1
    else if s < 0 && a >= b then (a - b) / (-s) + 1
    else 0
  }

  /** The iterations are those whose counter has not passed the end. */
  lemma {:induction false} IterationsExactly(a: int, b: int, s: int, i: nat)
    requires s != 0
    ensures i < Iterations(a, b, s) <==> (if s > 0 then a + i * s <= b else a + i * s >= b)
  {
    if s > 0 {
      if a <= b { DivExactly(b - a, s, i); } else { assert i * s >= 0; }
    } else {
      assert i * s == -(i * -s);
      if a >= b { DivExactly(a - b, -s, i); } else { assert i * -s >= 0; }
    }
  }

  lemma DivExactly(d: int, s: int, i: nat)
    requires d >= 0 && s > 0
    ensures i <= d / s <==> i * s <= d
  {
    var q, r := d / s, d % s;
    assert d == s * q + r && 0 <= r < s;
    if i <= q {
      TimesKeepsOrder(i, q, s);
    } else {
      TimesKeepsOrder(q + 1, i, s);
    }
  }

  lemma TimesKeepsOrder(a: int, b: int, s: int)
    requires a <= b && s > 0
    ensures a * s <= b * s && (a + 1) * s == a * s + s
  {
    assert b * s == a * s + (b - a) * s;
    assert (b - a) * s >= 0;
  }

  // What one run of the body does to memory and calls, as a function of both.
  type Effect = (L.Memory, L.Trace) -> (L.Memory, L.Trace)

  // A for loop that is running: its frame, and the values that its end and step have.
  datatype Loop = Loop(frame: S.Continuation, end: int, step: int)

  ghost predicate IsLoop(l: Loop) {
    && InRange(W32, l.end) && InRange(W32, l.step)
    && l.frame.Count? && l.frame.counter.typ == Builtin(Integer) && GetType(l.frame.step) == Some(Builtin(Integer))
  }

  function Counter(l: Loop, memory: L.Memory): Option<int>
    requires l.frame.Count?
  {
    if l.frame.counter in memory then Some(memory[l.frame.counter]) else None
  }

  function AtBody(l: Loop, gosubs: seq<S.Resumption>, memory: L.Memory, trace: L.Trace): S.State
    requires l.frame.Count?
  {
    S.State(S.Statements(l.frame.body), l.frame, gosubs, memory, trace)
  }

  function AtTest(l: Loop, gosubs: seq<S.Resumption>, memory: L.Memory, trace: L.Trace): S.State {
    S.State(S.Test, l.frame, gosubs, memory, trace)
  }

  function AtEnd(l: Loop, gosubs: seq<S.Resumption>, memory: L.Memory, trace: L.Trace): S.State {
    S.State(S.Statements(End), l.frame, gosubs, memory, trace)
  }

  function Afterwards(l: Loop, gosubs: seq<S.Resumption>, memory: L.Memory, trace: L.Trace): S.State
    requires l.frame.Count?
  {
    S.State(S.Statements(l.frame.rest), l.frame.next, gosubs, memory, trace)
  }

  // End and step are evaluated anew for every test, and the step once more for every
  // increment; they may call functions.

  function TraceAfter(world: L.World, e: Expression, memory: L.Memory, trace: L.Trace): L.Trace {
    match S.Evaluate(world, e, memory, trace)
    case Evaluated(_, t) => t
    case Failed => trace
  }

  ghost predicate HasValue(world: L.World, e: Expression, memory: L.Memory, trace: L.Trace, n: int) {
    S.Evaluate(world, e, memory, trace) == S.Evaluated(Value(W32, n), TraceAfter(world, e, memory, trace))
  }

  function TestTrace(world: L.World, l: Loop, memory: L.Memory, trace: L.Trace): L.Trace
    requires l.frame.Count?
  {
    TraceAfter(world, l.frame.step, memory, TraceAfter(world, l.frame.end, memory, trace))
  }

  /** At a test with this memory, end and step have their values. */
  ghost predicate TestIsFixed(world: L.World, l: Loop, memory: L.Memory, trace: L.Trace)
    requires l.frame.Count?
  {
    && HasValue(world, l.frame.end, memory, trace, l.end)
    && HasValue(world, l.frame.step, memory, TraceAfter(world, l.frame.end, memory, trace), l.step)
  }

  /** Memory and calls after a round that starts at a test: the body, then the increment. */
  function Round(world: L.World, l: Loop, effect: Effect, memory: L.Memory, trace: L.Trace): (L.Memory, L.Trace)
    requires l.frame.Count?
  {
    var (m1, t1) := effect(memory, TestTrace(world, l, memory, trace));
    var c := Counter(l, m1);
    (if c.Some? then m1[l.frame.counter := Wrap(W32, c.value + l.step)] else m1, TraceAfter(world, l.frame.step, m1, t1))
  }

  function Rounds(world: L.World, l: Loop, effect: Effect, n: nat, memory: L.Memory, trace: L.Trace): (L.Memory, L.Trace)
    requires l.frame.Count?
    decreases n
  {
    if n == 0 then (memory, trace)
    else
      var (m1, t1) := Round(world, l, effect, memory, trace);
      Rounds(world, l, effect, n - 1, m1, t1)
  }

  /** From a test with this memory the body runs to its end with its effect, does not write the
      counter, and the step still has its value then. */
  ghost predicate Completes(p: S.Program, world: L.World, l: Loop, effect: Effect, gosubs: seq<S.Resumption>,
                            memory: L.Memory, trace: L.Trace)
    requires l.frame.Count?
  {
    var t := TestTrace(world, l, memory, trace);
    var (m1, t1) := effect(memory, t);
    && Reaches(p, world, AtBody(l, gosubs, memory, t), AtEnd(l, gosubs, m1, t1))
    && Counter(l, m1) == Counter(l, memory)
    && HasValue(world, l.frame.step, m1, t1, l.step)
  }

  /** The same in the rounds of this run, and in no other memory: the first `n` rounds complete,
      and end and step have their values at each of the tests. */
  ghost predicate Regular(p: S.Program, world: L.World, l: Loop, effect: Effect, gosubs: seq<S.Resumption>,
                          memory: L.Memory, trace: L.Trace, n: nat)
    requires l.frame.Count?
  {
    forall i: nat :: i <= n ==>
      var (m, t) := Rounds(world, l, effect, i, memory, trace);
      && TestIsFixed(world, l, m, t)
      && (i < n ==> Completes(p, world, l, effect, gosubs, m, t))
  }

  ghost predicate Reaches(p: S.Program, world: L.World, s: S.State, s1: S.State) {
    exists n: nat :: LimitedRun(p, world, s, n) == L.Running(s1)
  }

  lemma ReachesTransitive(p: S.Program, world: L.World, s: S.State, s1: S.State, s2: S.State)
    requires Reaches(p, world, s, s1) && Reaches(p, world, s1, s2)
    ensures Reaches(p, world, s, s2)
  {
    hide LimitedRun;
    var a: nat :| LimitedRun(p, world, s, a) == L.Running(s1);
    var b: nat :| LimitedRun(p, world, s1, b) == L.Running(s2);
    LimitedAdds(p, world, s, a, s1, b);
  }

  lemma OneLimitedStep(p: S.Program, world: L.World, s: S.State, s1: S.State)
    requires LimitedStep(p, world, s) == L.Running(s1)
    ensures Reaches(p, world, s, s1)
  {
    hide LimitedStep;
    assert LimitedRun(p, world, s1, 0) == L.Running(s1);
    assert LimitedRun(p, world, s, 1) == L.Running(s1);
  }

  /** The test enters the body or leaves the loop, as the counter says. */
  lemma TestDecides(p: S.Program, world: L.World, l: Loop, gosubs: seq<S.Resumption>, memory: L.Memory, trace: L.Trace, c: int)
    requires IsLoop(l) && Counter(l, memory) == Some(c) && |gosubs| <= L.StackSlots
    requires TestIsFixed(world, l, memory, trace)
    ensures var goesOn := l.step != 0 && if l.step > 0 then c <= l.end else c >= l.end;
      var t := TestTrace(world, l, memory, trace);
      Reaches(p, world, AtTest(l, gosubs, memory, trace),
              if goesOn then AtBody(l, gosubs, memory, t) else Afterwards(l, gosubs, memory, t))
  {
    var s := AtTest(l, gosubs, memory, trace);
    var goesOn := l.step != 0 && if l.step > 0 then c <= l.end else c >= l.end;
    var t := TestTrace(world, l, memory, trace);
    CounterValue(world, l.frame.counter, memory, trace);
    hide S.Evaluate, LimitedRun;
    assert S.Step(p, world, s) == S.StepTest(world, s);
    OneLimitedStep(p, world, s, if goesOn then AtBody(l, gosubs, memory, t) else Afterwards(l, gosubs, memory, t));
  }

  lemma CounterValue(world: L.World, x: Variable, memory: L.Memory, trace: L.Trace)
    requires x.typ == Builtin(Integer) && x in memory
    ensures S.Evaluate(world, VarRef(x), memory, trace) == S.Evaluated(Value(W32, memory[x]), trace)
  {
  }

  lemma IncrementAdds(p: S.Program, world: L.World, l: Loop, gosubs: seq<S.Resumption>, memory: L.Memory, trace: L.Trace, c: int)
    requires IsLoop(l) && Counter(l, memory) == Some(c) && |gosubs| <= L.StackSlots
    requires HasValue(world, l.frame.step, memory, trace, l.step)
    ensures Reaches(p, world, AtEnd(l, gosubs, memory, trace),
      AtTest(l, gosubs, memory[l.frame.counter := Wrap(W32, c + l.step)], TraceAfter(world, l.frame.step, memory, trace)))
  {
    var s := AtEnd(l, gosubs, memory, trace);
    var t := TraceAfter(world, l.frame.step, memory, trace);
    var sum := Binary(Add, VarRef(l.frame.counter), l.frame.step);
    CounterValue(world, l.frame.counter, memory, trace);
    assert S.Apply(Add, Value(W32, c), Value(W32, l.step)) == Some(Value(W32, Wrap(W32, c + l.step)));
    hide S.Apply, LimitedRun;
    assert S.Evaluate(world, sum, memory, trace) == S.Evaluated(Value(W32, Wrap(W32, c + l.step)), t);
    hide S.Evaluate;
    assert S.Step(p, world, s) == S.StepEnd(world, s);
    OneLimitedStep(p, world, s, AtTest(l, gosubs, memory[l.frame.counter := Wrap(W32, c + l.step)], t));
  }

  /** One round leads from a test that goes on to the next test. */
  lemma OneRound(p: S.Program, world: L.World, l: Loop, effect: Effect, gosubs: seq<S.Resumption>,
                 memory: L.Memory, trace: L.Trace, c: int)
    requires IsLoop(l) && Counter(l, memory) == Some(c) && |gosubs| <= L.StackSlots
    requires TestIsFixed(world, l, memory, trace) && Completes(p, world, l, effect, gosubs, memory, trace)
    requires l.step != 0 && if l.step > 0 then c <= l.end else c >= l.end
    ensures var (m1, t1) := Round(world, l, effect, memory, trace);
      && Counter(l, m1) == Some(Wrap(W32, c + l.step))
      && Reaches(p, world, AtTest(l, gosubs, memory, trace), AtTest(l, gosubs, m1, t1))
  {
    hide Reaches, S.Evaluate, Wrap;
    var t := TestTrace(world, l, memory, trace);
    var (m1, t1) := effect(memory, t);
    TestDecides(p, world, l, gosubs, memory, trace, c);
    IncrementAdds(p, world, l, gosubs, m1, t1, c);
    var (m2, t2) := Round(world, l, effect, memory, trace);
    ReachesTransitive(p, world, AtTest(l, gosubs, memory, trace), AtBody(l, gosubs, memory, t), AtEnd(l, gosubs, m1, t1));
    ReachesTransitive(p, world, AtTest(l, gosubs, memory, trace), AtEnd(l, gosubs, m1, t1), AtTest(l, gosubs, m2, t2));
  }

  /** `n` rounds lead from the test back to the test, with counter a + n*s reduced to 32 bits. */
  ghost predicate RoundsReach(p: S.Program, world: L.World, l: Loop, effect: Effect, gosubs: seq<S.Resumption>,
                              memory: L.Memory, trace: L.Trace, a: int, n: nat)
    requires l.frame.Count?
  {
    var (m1, t1) := Rounds(world, l, effect, n, memory, trace);
    && Counter(l, m1) == Some(Wrap(W32, a + n * l.step))
    && Reaches(p, world, AtTest(l, gosubs, memory, trace), AtTest(l, gosubs, m1, t1))
  }

  /** From a test with counter `a`, as many rounds follow as there are iterations left. */
  lemma {:induction false} RoundsRun(p: S.Program, world: L.World, l: Loop, effect: Effect, gosubs: seq<S.Resumption>,
                  memory: L.Memory, trace: L.Trace, a: int, n: nat)
    requires IsLoop(l) && Counter(l, memory) == Some(a) && InRange(W32, a) && |gosubs| <= L.StackSlots
    requires Regular(p, world, l, effect, gosubs, memory, trace, n) && n <= Iterations(a, l.end, l.step)
    ensures RoundsReach(p, world, l, effect, gosubs, memory, trace, a, n)
    decreases n
  {
    assert InRange(W32, l.end) && InRange(W32, l.step);
    hide LimitedRun, Completes, Iterations, Reaches, Wrap, TestIsFixed, Round, Rounds, Regular, IsLoop, RoundsReach;
    if n == 0 {
      NoRounds(p, world, l, effect, gosubs, memory, trace, a);
    } else {
      FirstRound(p, world, l, effect, gosubs, memory, trace, n);
      NextCounter(a, l.end, l.step, n);
      OneRound(p, world, l, effect, gosubs, memory, trace, a);
      var (m1, t1) := Round(world, l, effect, memory, trace);
      var b := Wrap(W32, a + l.step);
      WrapInRange(a + l.step);
      if n == 1 {
        NoRounds(p, world, l, effect, gosubs, m1, t1, b);
      } else {
        RoundsRun(p, world, l, effect, gosubs, m1, t1, b, n - 1);
      }
      RoundBefore(p, world, l, effect, gosubs, memory, trace, a, n);
    }
  }

  lemma NoRounds(p: S.Program, world: L.World, l: Loop, effect: Effect, gosubs: seq<S.Resumption>,
                 memory: L.Memory, trace: L.Trace, b: int)
    requires l.frame.Count? && Counter(l, memory) == Some(b) && InRange(W32, b)
    ensures RoundsReach(p, world, l, effect, gosubs, memory, trace, b, 0)
  {
    hide Reaches, Wrap;
    NoLimitedSteps(p, world, AtTest(l, gosubs, memory, trace));
    WrapKeeps(b);
  }

  lemma RoundBefore(p: S.Program, world: L.World, l: Loop, effect: Effect, gosubs: seq<S.Resumption>,
                    memory: L.Memory, trace: L.Trace, a: int, n: nat)
    requires l.frame.Count? && n > 0 && (n == 1 || Wrap(W32, a + l.step) == a + l.step)
    requires var (m1, t1) := Round(world, l, effect, memory, trace);
      && Reaches(p, world, AtTest(l, gosubs, memory, trace), AtTest(l, gosubs, m1, t1))
      && RoundsReach(p, world, l, effect, gosubs, m1, t1, Wrap(W32, a + l.step), n - 1)
    ensures RoundsReach(p, world, l, effect, gosubs, memory, trace, a, n)
  {
    var (m1, t1) := Round(world, l, effect, memory, trace);
    var (m2, t2) := Rounds(world, l, effect, n - 1, m1, t1);
    assert Rounds(world, l, effect, n, memory, trace) == (m2, t2);
    hide Reaches, Wrap, Round, Rounds;
    Distribute(a, l.step, n);
    WrapInRange(a + l.step);
    WrapKeeps(Wrap(W32, a + l.step));
    ReachesTransitive(p, world, AtTest(l, gosubs, memory, trace), AtTest(l, gosubs, m1, t1), AtTest(l, gosubs, m2, t2));
  }

  lemma WrapInRange(n: int)
    ensures InRange(W32, Wrap(W32, n))
  {
  }

  /** A regular run is one that begins with a regular round. */
  lemma FirstRound(p: S.Program, world: L.World, l: Loop, effect: Effect, gosubs: seq<S.Resumption>,
                   memory: L.Memory, trace: L.Trace, n: nat)
    requires l.frame.Count? && n > 0 && Regular(p, world, l, effect, gosubs, memory, trace, n)
    ensures TestIsFixed(world, l, memory, trace) && Completes(p, world, l, effect, gosubs, memory, trace)
    ensures var (m1, t1) := Round(world, l, effect, memory, trace); Regular(p, world, l, effect, gosubs, m1, t1, n - 1)
  {
    hide TestIsFixed, Completes, Round;
    var (m1, t1) := Round(world, l, effect, memory, trace);
    assert Rounds(world, l, effect, 0, memory, trace) == (memory, trace);
    forall i: nat | i <= n - 1
      ensures var (m, t) := Rounds(world, l, effect, i, m1, t1);
        TestIsFixed(world, l, m, t) && (i < n - 1 ==> Completes(p, world, l, effect, gosubs, m, t))
    {
      assert Rounds(world, l, effect, i + 1, memory, trace) == Rounds(world, l, effect, i, m1, t1);
    }
  }

  lemma LastTestIsFixed(p: S.Program, world: L.World, l: Loop, effect: Effect, gosubs: seq<S.Resumption>,
                        memory: L.Memory, trace: L.Trace, n: nat)
    requires l.frame.Count? && Regular(p, world, l, effect, gosubs, memory, trace, n)
    ensures var (m, t) := Rounds(world, l, effect, n, memory, trace); TestIsFixed(world, l, m, t)
  {
  }

  lemma WrapKeeps(a: int)
    requires InRange(W32, a)
    ensures Wrap(W32, a) == a
  {
  }

  lemma Distribute(a: int, s: int, n: nat)
    ensures a + s + (n - 1) * s == a + n * s
  {
  }

  lemma NoLimitedSteps(p: S.Program, world: L.World, s: S.State)
    ensures Reaches(p, world, s, s)
  {
    assert LimitedRun(p, world, s, 0) == L.Running(s);
  }

  /** While an iteration is left after this one, the next counter does not overflow. */
  lemma NextCounter(a: int, b: int, s: int, n: nat)
    requires 1 <= n <= Iterations(a, b, s) && InRange(W32, a) && InRange(W32, b) && InRange(W32, s)
    ensures s != 0 && if s > 0 then a <= b else a >= b
    ensures n > 1 ==> Wrap(W32, a + s) == a + s && InRange(W32, a + s) && n - 1 <= Iterations(a + s, b, s)
  {
    IterationsExactly(a, b, s, 0);
    if n > 1 {
      IterationsExactly(a, b, s, n - 1);
      IterationsExactly(a, b, s, 1);
      IterationsExactly(a + s, b, s, n - 2);
      assert a + s + (n - 2) * s == a + (n - 1) * s;
    }
  }

  /** After all iterations the counter has passed the end exactly when it still fits in 32
      bits; otherwise it has wrapped around. */
  lemma LastTest(a: int, b: int, s: int)
    requires InRange(W32, a) && InRange(W32, b) && InRange(W32, s)
    ensures var n := Iterations(a, b, s);
      var c := Wrap(W32, a + n * s);
      (s == 0 || if s > 0 then c > b else c < b) <==> InRange(W32, a + n * s)
  {
    var n := Iterations(a, b, s);
    if s == 0 {
      assert n * s == 0;
    } else {
      IterationsExactly(a, b, s, n);
      if n == 0 {
        assert n * s == 0;
      } else {
        IterationsExactly(a, b, s, n - 1);
        Distribute(a, s, n);
        hide Iterations;
        WrapsBack(a + (n - 1) * s, b, s, a + n * s);
      }
    }
  }

  lemma WrapsBack(last: int, b: int, s: int, next: int)
    requires InRange(W32, b) && InRange(W32, s) && next == last + s && s != 0
    requires if s > 0 then -Half(W32) <= last <= b < next else next < b <= last < Half(W32)
    ensures (if s > 0 then Wrap(W32, next) > b else Wrap(W32, next) < b) <==> InRange(W32, next)
  {
  }

  /** A for loop runs its body exactly once for each iteration, which leaves the counter at
      a + n*s. If that fits in 32 bits the loop is left; if not, and only then, the counter has
      wrapped around and the body is entered again. */
  lemma ForLoopRuns(p: S.Program, world: L.World, l: Loop, effect: Effect, gosubs: seq<S.Resumption>,
                    memory: L.Memory, trace: L.Trace, a: int)
    requires IsLoop(l) && Counter(l, memory) == Some(a) && InRange(W32, a) && |gosubs| <= L.StackSlots
    requires Regular(p, world, l, effect, gosubs, memory, trace, Iterations(a, l.end, l.step))
    ensures var n := Iterations(a, l.end, l.step);
      var (m1, t1) := Rounds(world, l, effect, n, memory, trace);
      var t := TestTrace(world, l, m1, t1);
      && (InRange(W32, a + n * l.step) ==> Counter(l, m1) == Some(a + n * l.step))
      && Reaches(p, world, AtTest(l, gosubs, memory, trace),
                 if InRange(W32, a + n * l.step) then Afterwards(l, gosubs, m1, t) else AtBody(l, gosubs, m1, t))
  {
    hide LimitedStep, LimitedRun, Completes, Iterations, Rounds, Reaches, Regular, TestIsFixed;
    var n := Iterations(a, l.end, l.step);
    RoundsRun(p, world, l, effect, gosubs, memory, trace, a, n);
    var (m1, t1) := Rounds(world, l, effect, n, memory, trace);
    var t := TestTrace(world, l, m1, t1);
    LastTest(a, l.end, l.step);
    LastTestIsFixed(p, world, l, effect, gosubs, memory, trace, n);
    TestDecides(p, world, l, gosubs, m1, t1, Wrap(W32, a + n * l.step));
    var after := if InRange(W32, a + n * l.step) then Afterwards(l, gosubs, m1, t) else AtBody(l, gosubs, m1, t);
    ReachesTransitive(p, world, AtTest(l, gosubs, memory, trace), AtTest(l, gosubs, m1, t1), after);
  }

  /** The statement itself: it sets the counter to the initial value and comes to the first test. */
  lemma ForStatementStarts(p: S.Program, world: L.World, l: Loop, init: Expression, gosubs: seq<S.Resumption>,
                           memory: L.Memory, trace: L.Trace, a: int)
    requires IsLoop(l) && |gosubs| <= L.StackSlots && HasValue(world, init, memory, trace, a)
    ensures var k := l.frame;
      var statement := ForLoop(k.loop, k.counter, init, k.end, k.step, k.body);
      Reaches(p, world, S.State(S.Statements(Then(statement, k.rest)), k.next, gosubs, memory, trace),
              AtTest(l, gosubs, memory[k.counter := a], TraceAfter(world, init, memory, trace)))
  {
    hide S.Evaluate, LimitedRun;
    var k := l.frame;
    var statement := ForLoop(k.loop, k.counter, init, k.end, k.step, k.body);
    var s := S.State(S.Statements(Then(statement, k.rest)), k.next, gosubs, memory, trace);
    assert S.Step(p, world, s) == S.StepStatement(p, world, s, statement, k.rest);
    OneLimitedStep(p, world, s, AtTest(l, gosubs, memory[k.counter := a], TraceAfter(world, init, memory, trace)));
  }

  /** The generated code of the whole statement does the same: the body runs exactly n times,
      and the counter is left at a + n*s. */
  lemma ForLoopRunsInCode(main: bool, f: Gen, p: S.Program, world: L.World, l: Loop, init: Expression, effect: Effect,
                          gosubs: seq<S.Resumption>, memory: L.Memory, trace: L.Trace, a: int, m: L.Machine) returns (k: nat)
    requires IsLoop(l) && |gosubs| <= L.StackSlots && HasValue(world, init, memory, trace, a) && InRange(W32, a)
    requires var statement := ForLoop(l.frame.loop, l.frame.counter, init, l.frame.end, l.frame.step, l.frame.body);
      var s := S.State(S.Statements(Then(statement, l.frame.rest)), l.frame.next, gosubs, memory, trace);
      Finished(main, f, p) && MatchState(main, f, s, m)
    requires Regular(p, world, l, effect, gosubs, memory[l.frame.counter := a], TraceAfter(world, init, memory, trace),
                     Iterations(a, l.end, l.step))
    requires InRange(W32, a + Iterations(a, l.end, l.step) * l.step)
    ensures var n := Iterations(a, l.end, l.step);
      var (m1, t1) := Rounds(world, l, effect, n, memory[l.frame.counter := a], TraceAfter(world, init, memory, trace));
      var out := L.Run(f.Code(), world, m, k);
      && out.Running? && out.state.memory == m1 && out.state.trace == TestTrace(world, l, m1, t1)
      && MatchState(main, f, Afterwards(l, gosubs, m1, TestTrace(world, l, m1, t1)), out.state)
      && Counter(l, m1) == Some(a + n * l.step)
  {
    hide LimitedStep, LimitedRun, Completes, Iterations, Rounds, L.Run, Finished, MatchControl, MatchStack, Regular, HasValue;
    var statement := ForLoop(l.frame.loop, l.frame.counter, init, l.frame.end, l.frame.step, l.frame.body);
    var s := S.State(S.Statements(Then(statement, l.frame.rest)), l.frame.next, gosubs, memory, trace);
    var m0, t0 := memory[l.frame.counter := a], TraceAfter(world, init, memory, trace);
    ForStatementStarts(p, world, l, init, gosubs, memory, trace, a);
    ForLoopRuns(p, world, l, effect, gosubs, m0, t0, a);
    var (m1, t1) := Rounds(world, l, effect, Iterations(a, l.end, l.step), m0, t0);
    var after := Afterwards(l, gosubs, m1, TestTrace(world, l, m1, t1));
    ReachesTransitive(p, world, s, AtTest(l, gosubs, m0, t0), after);
    var j: nat :| LimitedRun(p, world, s, j) == L.Running(after);
    k := Follows(main, f, p, world, s, m, j);
  }

  // The theorem is not empty: a loop that adds up its counter is regular for any number of rounds.

  function SummingBody(total: Variable, counter: Variable): Block {
    Then(Assignment(total, Binary(Add, VarRef(total), VarRef(counter))), End)
  }

  function SummingEffect(total: Variable, counter: Variable): Effect {
    (m: L.Memory, t: L.Trace) =>
      (if total in m && counter in m then m[total := Wrap(W32, m[total] + m[counter])] else m, t)
  }

  /** for counter = ... to end step step: total = total + counter. */
  lemma SummingIsRegular(p: S.Program, world: L.World, l: Loop, total: Variable, gosubs: seq<S.Resumption>,
                         memory: L.Memory, trace: L.Trace, n: nat)
    requires IsLoop(l) && l.frame.end == Literal(Integer, l.end) && l.frame.step == Literal(Integer, l.step)
    requires total != l.frame.counter && total.typ == Builtin(Integer) && l.frame.body == SummingBody(total, l.frame.counter)
    requires total in memory && l.frame.counter in memory && |gosubs| <= L.StackSlots
    ensures Regular(p, world, l, SummingEffect(total, l.frame.counter), gosubs, memory, trace, n)
  {
    var effect := SummingEffect(total, l.frame.counter);
    hide Completes, TestIsFixed, Rounds;
    forall i: nat | i <= n
      ensures var (m, t) := Rounds(world, l, effect, i, memory, trace);
        TestIsFixed(world, l, m, t) && (i < n ==> Completes(p, world, l, effect, gosubs, m, t))
    {
      SummingKeepsVariables(world, l, total, memory, trace, i);
      var (m, t) := Rounds(world, l, effect, i, memory, trace);
      SummingCompletes(p, world, l, total, gosubs, m, t);
    }
  }

  lemma {:induction false} SummingKeepsVariables(world: L.World, l: Loop, total: Variable, memory: L.Memory, trace: L.Trace, i: nat)
    requires l.frame.Count? && total in memory && l.frame.counter in memory
    ensures var (m, t) := Rounds(world, l, SummingEffect(total, l.frame.counter), i, memory, trace);
      total in m && l.frame.counter in m
    decreases i
  {
    if i > 0 {
      var (m1, t1) := Round(world, l, SummingEffect(total, l.frame.counter), memory, trace);
      SummingKeepsVariables(world, l, total, m1, t1, i - 1);
    }
  }

  lemma SummingCompletes(p: S.Program, world: L.World, l: Loop, total: Variable, gosubs: seq<S.Resumption>,
                         memory: L.Memory, trace: L.Trace)
    requires IsLoop(l) && l.frame.end == Literal(Integer, l.end) && l.frame.step == Literal(Integer, l.step)
    requires total != l.frame.counter && total.typ == Builtin(Integer) && l.frame.body == SummingBody(total, l.frame.counter)
    requires total in memory && l.frame.counter in memory && |gosubs| <= L.StackSlots
    ensures TestIsFixed(world, l, memory, trace)
    ensures Completes(p, world, l, SummingEffect(total, l.frame.counter), gosubs, memory, trace)
  {
    hide LimitedRun;
    var s := AtBody(l, gosubs, memory, trace);
    var (m1, t1) := SummingEffect(total, l.frame.counter)(memory, trace);
    CounterValue(world, total, memory, trace);
    CounterValue(world, l.frame.counter, memory, trace);
    assert S.Step(p, world, s) == S.StepStatement(p, world, s, l.frame.body.head, End);
    OneLimitedStep(p, world, s, AtEnd(l, gosubs, m1, t1));
  }
}
