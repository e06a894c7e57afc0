/** Functions without labels and jumps, and a direct recursive interpreter for them: what it computes
    is what the small-step semantics, and so the generated code, computes. */
module StructuredPrograms {
  import opened Words
  import opened Ir
  import opened Lowering
  import opened LoweringFrames
  import opened Matching
  import opened CompilerCorrectness
  import L = Llvm
  import S = Semantics

  predicate StructuredIn(s: Statement)
    decreases s, 0
  {
    match s
    case Label(_) => false
    case Goto(_) => false
    case Gosub(_) => false
    case SubReturn => false
    case Conditional(_, t, f) => Structured(t) && Structured(f)
    case InfiniteLoop(_, body) => Structured(body)
    case ForLoop(_, _, _, _, _, body) => Structured(body)
    case _ => true
  }

  predicate Structured(b: Block)
    decreases b, 0
  {
    match b
    case End => true
    case Then(s, rest) => StructuredIn(s) && Structured(rest)
  }

  // The interpreter. Loops run for at most `f` more rounds.

  datatype Result =
    | Goes(memory: L.Memory, trace: L.Trace)
    | Leaves(loop: nat, memory: L.Memory, trace: L.Trace)
    | Stops(value: Option<Value>, memory: L.Memory, trace: L.Trace)
    | Wrong
    | Unfinished

  function Interpret(main: bool, world: L.World, b: Block, memory: L.Memory, trace: L.Trace, f: nat): Result
    decreases f, b, 0
  {
    match b
    case End => Goes(memory, trace)
    case Then(s, rest) =>
      match InterpretStatement(main, world, s, memory, trace, f)
      case Goes(m, t) => Interpret(main, world, rest, m, t, f)
      case r => r
  }

  function InterpretStatement(main: bool, world: L.World, s: Statement, memory: L.Memory, trace: L.Trace, f: nat): Result
    decreases f, s, 0
  {
    match s
    case Conditional(c, yes, no) =>
      (match S.Evaluate(world, c, memory, trace)
       case Evaluated(Value(W1, b), t) => if b == 0 then Interpret(main, world, no, memory, t, f) else Interpret(main, world, yes, memory, t, f)
       case _ => Wrong)
    case InfiniteLoop(loop, body) => InterpretLoop(main, world, loop, body, memory, trace, f)
    case ForLoop(_, counter, init, _, _, _) =>
      (match S.Evaluate(world, init, memory, trace)
       case Evaluated(v, t) => InterpretFor(main, world, s, memory[counter := v.bits], t, f)
       case Failed => Wrong)
    case Exit(loop) => Leaves(loop, memory, trace)
    case Assignment(x, e) =>
      (match S.Evaluate(world, e, memory, trace)
       case Evaluated(v, t) => Goes(memory[x := v.bits], t)
       case Failed => Wrong)
    case FunctionCall(callee, arguments, ret) =>
      if main && callee.Command? && callee.dbSymbol == "end" then Stops(None, memory, trace)
      else
        (match S.EvaluateCall(world, callee, arguments, ret, memory, trace)
         case Evaluated(_, t) => Goes(memory, t)
         case Failed => Wrong)
    case ExitFunction(e) =>
      (match S.Evaluate(world, e, memory, trace)
       case Evaluated(v, t) => Stops(Some(v), memory, t)
       case Failed => Wrong)
    case _ => Wrong
  }

  /** An exit ends the loop it names. */
  function InterpretLoop(main: bool, world: L.World, loop: nat, body: Block, memory: L.Memory, trace: L.Trace, f: nat): Result
    decreases f, body, 1
  {
    match Interpret(main, world, body, memory, trace, f)
    case Goes(m, t) => if f == 0 then Unfinished else InterpretLoop(main, world, loop, body, m, t, f - 1)
    case Leaves(l, m, t) => if l == loop then Goes(m, t) else Leaves(l, m, t)
    case r => r
  }

  /** The values of counter, end and step, each evaluated after the other. */
  datatype Test = TestFailed | Tested(counter: Value, end: Value, step: Value, trace: L.Trace)

  function EvaluateTest(world: L.World, s: Statement, memory: L.Memory, trace: L.Trace): Test
    requires s.ForLoop?
  {
    match S.Evaluate(world, VarRef(s.counter), memory, trace)
    case Failed => TestFailed
    case Evaluated(c, t0) =>
      match S.Evaluate(world, s.end, memory, t0)
      case Failed => TestFailed
      case Evaluated(e, t1) =>
        match S.Evaluate(world, s.step, memory, t1)
        case Failed => TestFailed
        case Evaluated(d, t2) => if c.width != e.width && d.bits != 0 then TestFailed else Tested(c, e, d, t2)
  }

  /** The counter has not passed the end in the direction of the step. */
  predicate NotPassed(test: Test)
    requires test.Tested?
  {
    (test.step.bits > 0 && test.counter.bits <= test.end.bits) || (test.step.bits < 0 && test.counter.bits >= test.end.bits)
  }

  function InterpretFor(main: bool, world: L.World, s: Statement, memory: L.Memory, trace: L.Trace, f: nat): Result
    requires s.ForLoop?
    decreases f, s.body, 2
  {
    var test := EvaluateTest(world, s, memory, trace);
    if test.TestFailed? then Wrong
    else if !NotPassed(test) then Goes(memory, test.trace)
    else
      match Interpret(main, world, s.body, memory, test.trace, f)
      case Goes(m, t) =>
        (match S.Evaluate(world, Binary(Add, VarRef(s.counter), s.step), m, t)
         case Evaluated(v, t1) => if f == 0 then Unfinished else InterpretFor(main, world, s, m[s.counter := v.bits], t1, f - 1)
         case Failed => Wrong)
      case Leaves(l, m, t) => if l == s.loop then Goes(m, t) else Leaves(l, m, t)
      case r => r
  }

  // Its results and the runs of the semantics.

  function At(b: Block, k: S.Continuation, gosubs: seq<S.Resumption>, memory: L.Memory, trace: L.Trace): S.State {
    S.State(S.Statements(b), k, gosubs, memory, trace)
  }

  ghost predicate Comes(p: S.Program, world: L.World, s: S.State, out: L.Outcome<S.State>) {
    exists n: nat :: LimitedRun(p, world, s, n) == out
  }

  ghost predicate RunsFor(p: S.Program, world: L.World, s: S.State, f: nat) {
    exists n: nat :: n >= f && LimitedRun(p, world, s, n).Running?
  }

  /** From `s` the run comes to where the result says: in front of `rest`, behind a loop around it, to
      the end of the function, to a fault, or it goes on for at least `f` steps. */
  ghost predicate Agrees(p: S.Program, world: L.World, s: S.State, rest: Block, k: S.Continuation, gosubs: seq<S.Resumption>,
                         r: Result, f: nat)
  {
    match r
    case Goes(m, t) => Comes(p, world, s, L.Running(At(rest, k, gosubs, m, t)))
    case Leaves(l, m, t) => Comes(p, world, s, S.Resume(At(rest, k, gosubs, m, t), S.FindLoop(l, k)))
    case Stops(v, m, t) => Comes(p, world, s, L.Halted(v, m, t))
    case Wrong => Comes(p, world, s, L.Fault)
    case Unfinished => RunsFor(p, world, s, f)
  }

  lemma ComesThen(p: S.Program, world: L.World, s: S.State, s1: S.State, out: L.Outcome<S.State>)
    requires Comes(p, world, s, L.Running(s1)) && Comes(p, world, s1, out)
    ensures Comes(p, world, s, out)
  {
    hide LimitedRun;
    var a: nat :| LimitedRun(p, world, s, a) == L.Running(s1);
    var b: nat :| LimitedRun(p, world, s1, b) == out;
    LimitedAdds(p, world, s, a, s1, b);
  }

  lemma RunsThen(p: S.Program, world: L.World, s: S.State, s1: S.State, f: nat)
    requires Comes(p, world, s, L.Running(s1)) && RunsFor(p, world, s1, f)
    ensures RunsFor(p, world, s, f)
  {
    hide LimitedRun;
    var a: nat :| LimitedRun(p, world, s, a) == L.Running(s1);
    var b: nat :| b >= f && LimitedRun(p, world, s1, b).Running?;
    LimitedAdds(p, world, s, a, s1, b);
    assert a + b >= f;
  }

  lemma OneStep(p: S.Program, world: L.World, s: S.State, out: L.Outcome<S.State>)
    requires LimitedStep(p, world, s) == out
    ensures Comes(p, world, s, out)
  {
    hide LimitedStep;
    if out.Running? {
      assert LimitedRun(p, world, out.state, 0) == out;
    }
    assert LimitedRun(p, world, s, 1) == out;
  }

  /** One more step in front. */
  lemma StepThen(p: S.Program, world: L.World, s: S.State, s1: S.State, rest: Block, k: S.Continuation, gosubs: seq<S.Resumption>,
                 r: Result, f: nat)
    requires LimitedStep(p, world, s) == L.Running(s1) && Agrees(p, world, s1, rest, k, gosubs, r, f)
    ensures Agrees(p, world, s, rest, k, gosubs, r, f)
    ensures r.Unfinished? ==> RunsFor(p, world, s, f + 1)
  {
    hide LimitedStep, Comes, RunsFor, LimitedRun;
    OneStep(p, world, s, L.Running(s1));
    AgreesThen(p, world, s, s1, rest, k, gosubs, r, f);
    if r.Unfinished? {
      OneMoreStep(p, world, s, s1, f);
    }
  }

  lemma OneMoreStep(p: S.Program, world: L.World, s: S.State, s1: S.State, f: nat)
    requires LimitedStep(p, world, s) == L.Running(s1) && RunsFor(p, world, s1, f)
    ensures RunsFor(p, world, s, f + 1)
  {
    hide LimitedStep;
    var n: nat :| n >= f && LimitedRun(p, world, s1, n).Running?;
    assert LimitedRun(p, world, s, n + 1) == LimitedRun(p, world, s1, n);
  }

  lemma AgreesThen(p: S.Program, world: L.World, s: S.State, s1: S.State, rest: Block, k: S.Continuation, gosubs: seq<S.Resumption>,
                   r: Result, f: nat)
    requires Comes(p, world, s, L.Running(s1)) && Agrees(p, world, s1, rest, k, gosubs, r, f)
    ensures Agrees(p, world, s, rest, k, gosubs, r, f)
  {
    hide Comes, RunsFor;
    match r
    case Goes(m, t) => ComesThen(p, world, s, s1, L.Running(At(rest, k, gosubs, m, t)));
    case Leaves(l, m, t) => ComesThen(p, world, s, s1, S.Resume(At(rest, k, gosubs, m, t), S.FindLoop(l, k)));
    case Stops(v, m, t) => ComesThen(p, world, s, s1, L.Halted(v, m, t));
    case Wrong => ComesThen(p, world, s, s1, L.Fault);
    case Unfinished => RunsThen(p, world, s, s1, f);
  }

  lemma {:induction false} BlockAgrees(p: S.Program, world: L.World, b: Block, k: S.Continuation, gosubs: seq<S.Resumption>,
                                       memory: L.Memory, trace: L.Trace, f: nat)
    requires Structured(b) && |gosubs| <= L.StackSlots
    ensures Agrees(p, world, At(b, k, gosubs, memory, trace), End, k, gosubs, Interpret(p.isMain, world, b, memory, trace, f), f)
    decreases f, b, 1
  {
    hide Agrees, InterpretStatement, LimitedRun;
    var s := At(b, k, gosubs, memory, trace);
    match b
    case End => StaysHere(p, world, s, k, gosubs, memory, trace, f);
    case Then(head, rest) =>
      StatementAgrees(p, world, head, rest, k, gosubs, memory, trace, f);
      var r := InterpretStatement(p.isMain, world, head, memory, trace, f);
      match r {
        case Goes(m, t) =>
          BlockAgrees(p, world, rest, k, gosubs, m, t, f);
          GoesOn(p, world, s, rest, k, gosubs, m, t, Interpret(p.isMain, world, rest, m, t, f), f);
        case _ => SameFor(p, world, s, rest, k, gosubs, r, f);
      }
  }

  lemma StaysHere(p: S.Program, world: L.World, s: S.State, k: S.Continuation, gosubs: seq<S.Resumption>, memory: L.Memory,
                  trace: L.Trace, f: nat)
    requires s == At(End, k, gosubs, memory, trace)
    ensures Agrees(p, world, s, End, k, gosubs, Goes(memory, trace), f)
  {
    assert LimitedRun(p, world, s, 0) == L.Running(s);
  }

  lemma GoesOn(p: S.Program, world: L.World, s: S.State, rest: Block, k: S.Continuation, gosubs: seq<S.Resumption>,
               m: L.Memory, t: L.Trace, r: Result, f: nat)
    requires Agrees(p, world, s, rest, k, gosubs, Goes(m, t), f) && Agrees(p, world, At(rest, k, gosubs, m, t), End, k, gosubs, r, f)
    ensures Agrees(p, world, s, End, k, gosubs, r, f)
  {
    AgreesThen(p, world, s, At(rest, k, gosubs, m, t), End, k, gosubs, r, f);
  }

  /** Where a result other than `Goes` leads does not depend on what comes next. */
  lemma SameFor(p: S.Program, world: L.World, s: S.State, rest: Block, k: S.Continuation, gosubs: seq<S.Resumption>, r: Result, f: nat)
    requires Agrees(p, world, s, rest, k, gosubs, r, f) && !r.Goes?
    ensures forall other :: Agrees(p, world, s, other, k, gosubs, r, f)
  {
    hide Comes, RunsFor;
  }

  lemma {:induction false} StatementAgrees(p: S.Program, world: L.World, head: Statement, rest: Block, k: S.Continuation,
                                           gosubs: seq<S.Resumption>, memory: L.Memory, trace: L.Trace, f: nat)
    requires StructuredIn(head) && |gosubs| <= L.StackSlots
    ensures Agrees(p, world, At(Then(head, rest), k, gosubs, memory, trace), rest, k, gosubs,
                   InterpretStatement(p.isMain, world, head, memory, trace, f), f)
    decreases f, head, 0
  {
    hide Agrees, S.Evaluate, LimitedRun, Interpret, InterpretLoop, InterpretFor;
    var s := At(Then(head, rest), k, gosubs, memory, trace);
    match head
    case Conditional(c, yes, no) =>
      match S.Evaluate(world, c, memory, trace) {
        case Evaluated(Value(W1, b), t) =>
          var branch := if b == 0 then no else yes;
          BlockAgrees(p, world, branch, S.Sequel(rest, k), gosubs, memory, t, f);
          BranchAgrees(p, world, branch, rest, k, gosubs, memory, t, f);
          StepThen(p, world, s, At(branch, S.Sequel(rest, k), gosubs, memory, t), rest, k, gosubs,
                   Interpret(p.isMain, world, branch, memory, t, f), f);
        case _ => OneStepAgrees(p, world, s, rest, k, gosubs, Wrong, f);
      }
    case InfiniteLoop(loop, body) =>
      LoopAgrees(p, world, loop, body, rest, k, gosubs, memory, trace, f);
      StepThen(p, world, s, At(body, S.Iterate(loop, body, rest, k), gosubs, memory, trace), rest, k, gosubs,
               InterpretLoop(p.isMain, world, loop, body, memory, trace, f), f);
    case ForLoop(_, counter, init, _, _, _) =>
      match S.Evaluate(world, init, memory, trace) {
        case Evaluated(v, t) =>
          ForAgrees(p, world, head, rest, k, gosubs, memory[counter := v.bits], t, f);
          StepThen(p, world, s, AtTest(head, rest, k, gosubs, memory[counter := v.bits], t), rest, k, gosubs,
                   InterpretFor(p.isMain, world, head, memory[counter := v.bits], t, f), f);
        case Failed => OneStepAgrees(p, world, s, rest, k, gosubs, Wrong, f);
      }
    case _ => OneStepAgrees(p, world, s, rest, k, gosubs, InterpretStatement(p.isMain, world, head, memory, trace, f), f);
  }

  /** One step leads to where the result says. */
  predicate StepIs(p: S.Program, world: L.World, s: S.State, rest: Block, k: S.Continuation, gosubs: seq<S.Resumption>, r: Result) {
    match r
    case Goes(m, t) => LimitedStep(p, world, s) == L.Running(At(rest, k, gosubs, m, t))
    case Leaves(l, m, t) => LimitedStep(p, world, s) == S.Resume(At(rest, k, gosubs, m, t), S.FindLoop(l, k))
    case Stops(v, m, t) => LimitedStep(p, world, s) == L.Halted(v, m, t)
    case Wrong => LimitedStep(p, world, s) == L.Fault
    case Unfinished => false
  }

  lemma OneStepAgrees(p: S.Program, world: L.World, s: S.State, rest: Block, k: S.Continuation, gosubs: seq<S.Resumption>, r: Result, f: nat)
    requires StepIs(p, world, s, rest, k, gosubs, r)
    ensures Agrees(p, world, s, rest, k, gosubs, r, f)
  {
    hide LimitedStep, S.FindLoop;
    OneStep(p, world, s, LimitedStep(p, world, s));
  }

  /** Behind a branch comes what is behind the conditional. */
  lemma BranchAgrees(p: S.Program, world: L.World, branch: Block, rest: Block, k: S.Continuation, gosubs: seq<S.Resumption>,
                     memory: L.Memory, trace: L.Trace, f: nat)
    requires |gosubs| <= L.StackSlots
    requires var inner := S.Sequel(rest, k);
      Agrees(p, world, At(branch, inner, gosubs, memory, trace), End, inner, gosubs, Interpret(p.isMain, world, branch, memory, trace, f), f)
    ensures Agrees(p, world, At(branch, S.Sequel(rest, k), gosubs, memory, trace), rest, k, gosubs,
                   Interpret(p.isMain, world, branch, memory, trace, f), f)
  {
    hide Interpret, Comes, RunsFor;
    var s := At(branch, S.Sequel(rest, k), gosubs, memory, trace);
    match Interpret(p.isMain, world, branch, memory, trace, f)
    case Goes(m, t) =>
      var e := At(End, S.Sequel(rest, k), gosubs, m, t);
      OneStep(p, world, e, L.Running(At(rest, k, gosubs, m, t)));
      ComesThen(p, world, s, e, L.Running(At(rest, k, gosubs, m, t)));
    case _ =>
  }

  lemma {:induction false} LoopAgrees(p: S.Program, world: L.World, loop: nat, body: Block, rest: Block, k: S.Continuation,
                                      gosubs: seq<S.Resumption>, memory: L.Memory, trace: L.Trace, f: nat)
    requires Structured(body) && |gosubs| <= L.StackSlots
    ensures Agrees(p, world, At(body, S.Iterate(loop, body, rest, k), gosubs, memory, trace), rest, k, gosubs,
                   InterpretLoop(p.isMain, world, loop, body, memory, trace, f), f)
    decreases f, body, 3
  {
    hide Agrees, Interpret, LimitedRun;
    var inner := S.Iterate(loop, body, rest, k);
    var s := At(body, inner, gosubs, memory, trace);
    BlockAgrees(p, world, body, inner, gosubs, memory, trace, f);
    var r := Interpret(p.isMain, world, body, memory, trace, f);
    match r
    case Goes(m, t) =>
      var e, again := At(End, inner, gosubs, m, t), At(body, inner, gosubs, m, t);
      if f == 0 {
        StillRuns(p, world, s, inner, gosubs, m, t, k, rest);
      } else {
        LoopAgrees(p, world, loop, body, rest, k, gosubs, m, t, f - 1);
        NextRound(p, world, s, e, again, inner, rest, k, gosubs, m, t, InterpretLoop(p.isMain, world, loop, body, m, t, f - 1), f);
      }
    case _ => LeavesLoop(p, world, s, inner, loop, rest, k, gosubs, r, f);
  }

  /** After a round that has come to its end, at least one more step. */
  lemma NextRound(p: S.Program, world: L.World, s: S.State, e: S.State, again: S.State, inner: S.Continuation, rest: Block,
                  k: S.Continuation, gosubs: seq<S.Resumption>, m: L.Memory, t: L.Trace, r: Result, f: nat)
    requires f > 0 && e == At(End, inner, gosubs, m, t) && LimitedStep(p, world, e) == L.Running(again)
    requires Agrees(p, world, s, End, inner, gosubs, Goes(m, t), f) && Agrees(p, world, again, rest, k, gosubs, r, f - 1)
    ensures Agrees(p, world, s, rest, k, gosubs, r, f)
  {
    hide LimitedStep, Comes, RunsFor;
    StepThen(p, world, e, again, rest, k, gosubs, r, f - 1);
    assert Agrees(p, world, e, rest, k, gosubs, r, f);
    AgreesThen(p, world, s, e, rest, k, gosubs, r, f);
  }

  lemma StillRuns(p: S.Program, world: L.World, s: S.State, inner: S.Continuation, gosubs: seq<S.Resumption>, m: L.Memory, t: L.Trace,
                  k: S.Continuation, rest: Block)
    requires Agrees(p, world, s, End, inner, gosubs, Goes(m, t), 0)
    ensures Agrees(p, world, s, rest, k, gosubs, Unfinished, 0)
  {
    hide LimitedRun;
  }

  /** What leaves the body: an exit of this loop goes on behind it. */
  lemma LeavesLoop(p: S.Program, world: L.World, s: S.State, inner: S.Continuation, loop: nat, rest: Block, k: S.Continuation,
                   gosubs: seq<S.Resumption>, r: Result, f: nat)
    requires Agrees(p, world, s, End, inner, gosubs, r, f) && !r.Goes?
    requires (inner.Iterate? || inner.Count?) && inner.loop == loop && inner.rest == rest && inner.next == k
    ensures Agrees(p, world, s, rest, k, gosubs, if r.Leaves? && r.loop == loop then Goes(r.memory, r.trace) else r, f)
  {
    hide Comes, RunsFor;
  }

  function Frame(s: Statement, rest: Block, k: S.Continuation): S.Continuation
    requires s.ForLoop?
  {
    S.Count(s.loop, s.counter, s.end, s.step, s.body, rest, k)
  }

  function AtTest(s: Statement, rest: Block, k: S.Continuation, gosubs: seq<S.Resumption>, memory: L.Memory, trace: L.Trace): S.State
    requires s.ForLoop?
  {
    S.State(S.Test, Frame(s, rest, k), gosubs, memory, trace)
  }

  lemma TestSteps(p: S.Program, world: L.World, s: Statement, rest: Block, k: S.Continuation, gosubs: seq<S.Resumption>,
                  memory: L.Memory, trace: L.Trace)
    requires s.ForLoop? && |gosubs| <= L.StackSlots
    ensures var test := EvaluateTest(world, s, memory, trace);
      LimitedStep(p, world, AtTest(s, rest, k, gosubs, memory, trace)) ==
        if test.TestFailed? then L.Fault
        else L.Running(if NotPassed(test) then At(s.body, Frame(s, rest, k), gosubs, memory, test.trace) else At(rest, k, gosubs, memory, test.trace))
  {
    hide S.Evaluate;
  }

  lemma IncrementSteps(p: S.Program, world: L.World, s: Statement, rest: Block, k: S.Continuation, gosubs: seq<S.Resumption>,
                       memory: L.Memory, trace: L.Trace)
    requires s.ForLoop? && |gosubs| <= L.StackSlots
    ensures LimitedStep(p, world, At(End, Frame(s, rest, k), gosubs, memory, trace)) ==
      match S.Evaluate(world, Binary(Add, VarRef(s.counter), s.step), memory, trace)
      case Evaluated(v, t) => L.Running(AtTest(s, rest, k, gosubs, memory[s.counter := v.bits], t))
      case Failed => L.Fault
  {
    hide S.Evaluate;
  }

  lemma {:induction false} ForAgrees(p: S.Program, world: L.World, s: Statement, rest: Block, k: S.Continuation,
                                     gosubs: seq<S.Resumption>, memory: L.Memory, trace: L.Trace, f: nat)
    requires s.ForLoop? && Structured(s.body) && |gosubs| <= L.StackSlots
    ensures Agrees(p, world, AtTest(s, rest, k, gosubs, memory, trace), rest, k, gosubs, InterpretFor(p.isMain, world, s, memory, trace, f), f)
    decreases f, s.body, 3
  {
    hide Agrees, Interpret, LimitedRun, LimitedStep, EvaluateTest, NotPassed, AtTest;
    var test := EvaluateTest(world, s, memory, trace);
    var here := AtTest(s, rest, k, gosubs, memory, trace);
    TestSteps(p, world, s, rest, k, gosubs, memory, trace);
    if test.TestFailed? {
      OneStepAgrees(p, world, here, rest, k, gosubs, Wrong, f);
    } else if !NotPassed(test) {
      OneStepAgrees(p, world, here, rest, k, gosubs, Goes(memory, test.trace), f);
    } else {
      RoundAgrees(p, world, s, rest, k, gosubs, memory, test.trace, f);
      StepThen(p, world, here, At(s.body, Frame(s, rest, k), gosubs, memory, test.trace), rest, k, gosubs,
               InterpretFor(p.isMain, world, s, memory, trace, f), f);
    }
  }

  /** The body and what comes behind it. */
  function InterpretRound(main: bool, world: L.World, s: Statement, memory: L.Memory, trace: L.Trace, f: nat): Result
    requires s.ForLoop?
  {
    match Interpret(main, world, s.body, memory, trace, f)
    case Goes(m, t) =>
      (match S.Evaluate(world, Binary(Add, VarRef(s.counter), s.step), m, t)
       case Evaluated(v, t1) => if f == 0 then Unfinished else InterpretFor(main, world, s, m[s.counter := v.bits], t1, f - 1)
       case Failed => Wrong)
    case Leaves(l, m, t) => if l == s.loop then Goes(m, t) else Leaves(l, m, t)
    case r => r
  }

  lemma {:induction false} RoundAgrees(p: S.Program, world: L.World, s: Statement, rest: Block, k: S.Continuation,
                                       gosubs: seq<S.Resumption>, memory: L.Memory, trace: L.Trace, f: nat)
    requires s.ForLoop? && Structured(s.body) && |gosubs| <= L.StackSlots
    ensures Agrees(p, world, At(s.body, Frame(s, rest, k), gosubs, memory, trace), rest, k, gosubs,
                   InterpretRound(p.isMain, world, s, memory, trace, f), f)
    decreases f, s.body, 2
  {
    hide Agrees, Interpret, InterpretFor, LimitedRun, LimitedStep, S.Evaluate, AtTest;
    var inner := Frame(s, rest, k);
    var here := At(s.body, inner, gosubs, memory, trace);
    BlockAgrees(p, world, s.body, inner, gosubs, memory, trace, f);
    var r := Interpret(p.isMain, world, s.body, memory, trace, f);
    match r
    case Goes(m, t) =>
      var e := At(End, inner, gosubs, m, t);
      IncrementSteps(p, world, s, rest, k, gosubs, m, t);
      match S.Evaluate(world, Binary(Add, VarRef(s.counter), s.step), m, t) {
        case Evaluated(v, t1) =>
          if f == 0 {
            StillRuns(p, world, here, inner, gosubs, m, t, k, rest);
          } else {
            var again := AtTest(s, rest, k, gosubs, m[s.counter := v.bits], t1);
            ForAgrees(p, world, s, rest, k, gosubs, m[s.counter := v.bits], t1, f - 1);
            NextRound(p, world, here, e, again, inner, rest, k, gosubs, m, t,
                      InterpretFor(p.isMain, world, s, m[s.counter := v.bits], t1, f - 1), f);
          }
        case Failed =>
          OneStepAgrees(p, world, e, rest, k, gosubs, Wrong, f);
          GoesWrongThere(p, world, here, e, inner, rest, k, gosubs, m, t, f);
      }
    case _ => LeavesLoop(p, world, here, inner, s.loop, rest, k, gosubs, r, f);
  }

  lemma GoesWrongThere(p: S.Program, world: L.World, s: S.State, e: S.State, inner: S.Continuation, rest: Block, k: S.Continuation,
                       gosubs: seq<S.Resumption>, m: L.Memory, t: L.Trace, f: nat)
    requires e == At(End, inner, gosubs, m, t) && Agrees(p, world, s, End, inner, gosubs, Goes(m, t), f)
    requires Agrees(p, world, e, rest, k, gosubs, Wrong, f)
    ensures Agrees(p, world, s, rest, k, gosubs, Wrong, f)
  {
    AgreesThen(p, world, s, e, rest, k, gosubs, Wrong, f);
  }

  // Whole functions.

  /** How the run of a function ends that is interpreted with this result. */
  function OutcomeOf(r: Result): L.Outcome<S.State>
    requires !r.Unfinished?
  {
    match r
    case Goes(m, t) => L.Halted(None, m, t)
    case Stops(v, m, t) => L.Halted(v, m, t)
    case _ => L.Fault
  }

  function Interpretation(main: bool, variables: seq<Variable>, body: Block, world: L.World, f: nat): Result {
    Interpret(main, world, body, ZeroMemory(variables), [], f)
  }

  lemma EndComes(p: S.Program, world: L.World, variables: seq<Variable>, f: nat)
    requires Structured(p.body)
    ensures var r := Interpretation(p.isMain, variables, p.body, world, f);
      if r.Unfinished? then RunsFor(p, world, Start(variables, p.body), f) else Comes(p, world, Start(variables, p.body), OutcomeOf(r))
  {
    hide Comes, RunsFor, Interpret, LimitedStep;
    var s := Start(variables, p.body);
    BlockAgrees(p, world, p.body, S.Return, [], ZeroMemory(variables), [], f);
    match Interpretation(p.isMain, variables, p.body, world, f)
    case Goes(m, t) =>
      var e := At(End, S.Return, [], m, t);
      LastStep(p, world, m, t);
      OneStep(p, world, e, L.Halted(None, m, t));
      ComesThen(p, world, s, e, L.Halted(None, m, t));
    case _ =>
  }

  lemma LastStep(p: S.Program, world: L.World, m: L.Memory, t: L.Trace)
    ensures LimitedStep(p, world, At(End, S.Return, [], m, t)) == L.Halted(None, m, t)
  {
  }

  lemma {:induction false} EndStays(p: S.Program, world: L.World, s: S.State, a: nat, b: nat)
    requires !LimitedRun(p, world, s, a).Running? && a <= b
    ensures LimitedRun(p, world, s, b) == LimitedRun(p, world, s, a)
    decreases a
  {
    if a > 0 {
      hide LimitedStep;
      match LimitedStep(p, world, s)
      case Running(s1) => EndStays(p, world, s1, a - 1, b - 1);
      case _ =>
    }
  }

  lemma OneEnd(p: S.Program, world: L.World, s: S.State, a: L.Outcome<S.State>, b: L.Outcome<S.State>)
    requires Comes(p, world, s, a) && Comes(p, world, s, b) && !a.Running? && !b.Running?
    ensures a == b
  {
    hide LimitedRun;
    var n: nat :| LimitedRun(p, world, s, n) == a;
    var k: nat :| LimitedRun(p, world, s, k) == b;
    EndStays(p, world, s, n, n + k);
    EndStays(p, world, s, k, n + k);
  }

  /** A run that ends after `n` steps is interpreted to its end with `n` rounds for each loop. */
  lemma EnoughRounds(p: S.Program, world: L.World, variables: seq<Variable>, n: nat)
    requires Structured(p.body) && !LimitedRun(p, world, Start(variables, p.body), n).Running?
    ensures var r := Interpretation(p.isMain, variables, p.body, world, n);
      !r.Unfinished? && OutcomeOf(r) == LimitedRun(p, world, Start(variables, p.body), n)
  {
    hide LimitedRun, Interpretation, OutcomeOf;
    var s := Start(variables, p.body);
    EndComes(p, world, variables, n);
    var r := Interpretation(p.isMain, variables, p.body, world, n);
    if r.Unfinished? {
      var k: nat :| k >= n && LimitedRun(p, world, s, k).Running?;
      EndStays(p, world, s, n, k);
    } else {
      OutcomeEnds(r);
      assert Comes(p, world, s, LimitedRun(p, world, s, n));
      OneEnd(p, world, s, OutcomeOf(r), LimitedRun(p, world, s, n));
    }
  }

  lemma OutcomeEnds(r: Result)
    requires !r.Unfinished?
    ensures !OutcomeOf(r).Running?
  {
  }

  /** With some number of rounds the interpreter finishes with this result, memory and calls. */
  ghost predicate InterpretedTo(main: bool, variables: seq<Variable>, body: Block, world: L.World, v: Option<Value>,
                                memory: L.Memory, trace: L.Trace)
  {
    exists f: nat :: var r := Interpretation(main, variables, body, world, f);
      (v == None && r == Goes(memory, trace)) || r == Stops(v, memory, trace)
  }

  ghost predicate InterpretedWrong(main: bool, variables: seq<Variable>, body: Block, world: L.World) {
    exists f: nat :: var r := Interpretation(main, variables, body, world, f); r.Wrong? || r.Leaves?
  }

  ghost predicate NeverInterpreted(main: bool, variables: seq<Variable>, body: Block, world: L.World) {
    forall f: nat :: Interpretation(main, variables, body, world, f).Unfinished?
  }

  lemma HaltsExactly(p: S.Program, world: L.World, variables: seq<Variable>, v: Option<Value>, memory: L.Memory, trace: L.Trace)
    requires Structured(p.body)
    ensures Halts(p, world, Start(variables, p.body), v, memory, trace) <==> InterpretedTo(p.isMain, variables, p.body, world, v, memory, trace)
  {
    hide LimitedRun, Interpretation;
    var s := Start(variables, p.body);
    if Halts(p, world, s, v, memory, trace) {
      var n: nat :| LimitedRun(p, world, s, n) == L.Halted(v, memory, trace);
      EnoughRounds(p, world, variables, n);
    }
    if InterpretedTo(p.isMain, variables, p.body, world, v, memory, trace) {
      var f: nat :| var r := Interpretation(p.isMain, variables, p.body, world, f);
        (v == None && r == Goes(memory, trace)) || r == Stops(v, memory, trace);
      EndComes(p, world, variables, f);
    }
  }

  lemma GoesWrongExactly(p: S.Program, world: L.World, variables: seq<Variable>)
    requires Structured(p.body)
    ensures GoesWrong(p, world, Start(variables, p.body)) <==> InterpretedWrong(p.isMain, variables, p.body, world)
  {
    hide LimitedRun, Interpretation;
    var s := Start(variables, p.body);
    if GoesWrong(p, world, s) {
      var n: nat :| LimitedRun(p, world, s, n) == L.Fault;
      EnoughRounds(p, world, variables, n);
    }
    if InterpretedWrong(p.isMain, variables, p.body, world) {
      var f: nat :| var r := Interpretation(p.isMain, variables, p.body, world, f); r.Wrong? || r.Leaves?;
      EndComes(p, world, variables, f);
    }
  }

  lemma DivergesExactly(p: S.Program, world: L.World, variables: seq<Variable>)
    requires Structured(p.body)
    ensures Diverges(p, world, Start(variables, p.body)) <==> NeverInterpreted(p.isMain, variables, p.body, world)
  {
    hide LimitedRun, Interpretation;
    var s := Start(variables, p.body);
    forall n: nat | !LimitedRun(p, world, s, n).Running? ensures !NeverInterpreted(p.isMain, variables, p.body, world) {
      EnoughRounds(p, world, variables, n);
    }
    forall f: nat | !Interpretation(p.isMain, variables, p.body, world, f).Unfinished? ensures !Diverges(p, world, s) {
      EndComes(p, world, variables, f);
      OutcomeEnds(Interpretation(p.isMain, variables, p.body, world, f));
    }
  }

  /** The code of a function without labels and jumps halts with exactly the results, memory and
      calls of the interpreter, goes wrong exactly when it does, and runs forever exactly when no
      number of rounds is enough for it. */
  lemma StructuredCorrect(main: bool, variables: seq<Variable>, body: Block, world: L.World, m: L.Machine,
                          v: Option<Value>, memory: L.Memory, trace: L.Trace)
    requires LowerableBlock(main, body, {}) && Integral(variables) && AtEntry(m) && Structured(body)
    ensures var f := LowerFunction(main, variables, body).Code();
      && (MachineHalts(f, world, m, v, memory, trace) <==> InterpretedTo(main, variables, body, world, v, memory, trace))
      && (MachineGoesWrong(f, world, m) <==> InterpretedWrong(main, variables, body, world))
      && (MachineDiverges(f, world, m) <==> NeverInterpreted(main, variables, body, world))
  {
    hide LowerableBlock, LowerFunction, Halts, GoesWrong, Diverges, MachineHalts, MachineGoesWrong, MachineDiverges, InterpretedTo, InterpretedWrong, NeverInterpreted;
    NoLabels(body);
    var p := S.Program(body, main);
    CompilerCorrect(main, variables, body, world, m, v, memory, trace);
    HaltsExactly(p, world, variables, v, memory, trace);
    GoesWrongExactly(p, world, variables);
    DivergesExactly(p, world, variables);
  }

  lemma {:induction false} NoLabelsIn(s: Statement)
    requires StructuredIn(s)
    ensures LabelsIn(s) == {} && UniqueLabelsIn(s)
    decreases s, 0
  {
    match s
    case Conditional(_, t, f) => NoLabels(t); NoLabels(f);
    case InfiniteLoop(_, body) => NoLabels(body);
    case ForLoop(_, _, _, _, _, body) => NoLabels(body);
    case _ =>
  }

  lemma {:induction false} NoLabels(b: Block)
    requires Structured(b)
    ensures LabelsOf(b) == {} && UniqueLabels(b)
    decreases b, 0
  {
    match b
    case End =>
    case Then(s, rest) => NoLabelsIn(s); NoLabels(rest);
  }
}
