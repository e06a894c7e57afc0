/** In every run of a function each variable keeps a value in the range of its type. */
module MemoryRanges {
  import opened Words
  import opened Ir
  import opened Lowering
  import opened LoweringFrames
  import opened ExpressionLowering
  import opened Matching
  import opened MatchingLemmas
  import opened Simulation
  import opened CompilerCorrectness
  import opened Arithmetic
  import L = Llvm
  import S = Semantics

  ghost predicate StaysInRange(out: L.Outcome<S.State>) {
    match out
    case Running(s) => MemoryInRange(s.memory)
    case Halted(_, memory, _) => MemoryInRange(memory)
    case Fault => true
  }

  /** A variable gets a value of its width. */
  lemma StoredInRange(world: L.World, e: Expression, memory: L.Memory, trace: L.Trace, x: Variable)
    requires Lowerable(e) && HasValues(x.typ) && ExpressionWidth(e) == WidthOf(x.typ)
    requires MemoryInRange(memory) && S.Evaluate(world, e, memory, trace).Evaluated?
    ensures MemoryInRange(memory[x := S.Evaluate(world, e, memory, trace).value.bits])
  {
    EvaluatesInRange(world, e, memory, trace);
    LowerableHasWidth(world, e, memory, trace);
    if x.typ.Builtin? {
      WidthMeaning(x.typ.builtin);
    }
  }

  /** Only assignments and the starts of for loops write to memory. */
  lemma OthersKeepMemory(p: S.Program, world: L.World, s: S.State, head: Statement, rest: Block)
    requires !head.Assignment? && !head.ForLoop? && MemoryInRange(s.memory)
    ensures StaysInRange(S.StepStatement(p, world, s, head, rest))
  {
    hide MemoryInRange, S.Evaluate, S.EvaluateCall, S.FindLabel, S.FindLoop;
  }

  lemma WritersKeepRange(p: S.Program, world: L.World, s: S.State, head: Statement, rest: Block, x: Variable, e: Expression)
    requires (head.Assignment? && x == head.variable && e == head.expression) || (head.ForLoop? && x == head.counter && e == head.init)
    requires Lowerable(e) && HasValues(x.typ) && ExpressionWidth(e) == WidthOf(x.typ) && MemoryInRange(s.memory)
    ensures StaysInRange(S.StepStatement(p, world, s, head, rest))
  {
    hide MemoryInRange, S.Evaluate, Lowerable, ExpressionWidth;
    if S.Evaluate(world, e, s.memory, s.trace).Evaluated? {
      StoredInRange(world, e, s.memory, s.trace, x);
    }
  }

  lemma StatementKeepsRange(main: bool, f: Gen, p: S.Program, world: L.World, s: S.State, m: L.Machine, g: Gen, cur: nat,
                            head: Statement, rest: Block)
    requires AtStatement(main, f, s, m, g, cur, head, rest) && MemoryInRange(s.memory)
    ensures StaysInRange(S.StepStatement(p, world, s, head, rest))
  {
    hide *;
    Context(main, f, s, m, g, cur, head, rest);
    LowerableParts(main, head, ActiveLoops(s.next));
    match head
    case Assignment(x, e) => WritersKeepRange(p, world, s, head, rest, x, e);
    case ForLoop(_, counter, init, _, _, _) => WritersKeepRange(p, world, s, head, rest, counter, init);
    case _ => OthersKeepMemory(p, world, s, head, rest);
  }

  lemma CounterKeepsRange(world: L.World, s: S.State)
    requires s.next.Count? && MemoryInRange(s.memory) && HasValues(s.next.counter.typ)
    requires var sum := Binary(Add, VarRef(s.next.counter), s.next.step);
      Lowerable(sum) && ExpressionWidth(sum) == WidthOf(s.next.counter.typ)
    ensures StaysInRange(S.StepEnd(world, s))
  {
    hide MemoryInRange, S.Evaluate, Lowerable, ExpressionWidth;
    var sum := Binary(Add, VarRef(s.next.counter), s.next.step);
    if S.Evaluate(world, sum, s.memory, s.trace).Evaluated? {
      StoredInRange(world, sum, s.memory, s.trace, s.next.counter);
    }
  }

  lemma EndKeepsRange(main: bool, f: Gen, world: L.World, s: S.State, b: nat, i: nat)
    requires s.control == S.Statements(End) && MatchNext(main, f, s.next, b, i) && MemoryInRange(s.memory)
    ensures StaysInRange(S.StepEnd(world, s))
  {
    hide MemoryInRange, Lowerable, S.Evaluate, ExpressionWidth, MatchBlock, EndsAt, InstrAt, Placed, LowerBlock, OpenFor, ForEntry, ForIncrement;
    match s.next
    case Count(loop, counter, end, step, body, rest, next) =>
      hide S.StepEnd, StaysInRange;
      var g: Gen, cur: nat, init: Expression :|
        && MatchBlock(main, f, g, cur, Then(ForLoop(loop, counter, init, end, step, body), rest), next)
        && EndsAt(main, OpenFor(g, cur, loop, counter, init, end, step), |g.blocks| + 4, body, b, i);
      ForEmitted(main, f, g, cur, ForLoop(loop, counter, init, end, step, body), rest, next);
      LowerableComparison(counter, step);
      CounterKeepsRange(world, s);
    case _ =>
  }

  lemma StepKeepsRange(main: bool, f: Gen, p: S.Program, world: L.World, s: S.State, m: L.Machine)
    requires Finished(main, f, p) && MatchState(main, f, s, m) && MemoryInRange(s.memory)
    ensures StaysInRange(S.Step(p, world, s))
  {
    hide MatchBlock, Finished, MatchStack, S.StepEnd, S.StepStatement, MemoryInRange, S.Evaluate;
    StackBound(main, f, s, m);
    match s.control
    case Test =>
    case Statements(block) =>
      var g: Gen :| MatchBlock(main, f, g, m.block, block, s.next) && m.block < |g.blocks| && m.index == |g.blocks[m.block]|;
      match block {
        case End =>
          EndHere(main, f, g, m.block, m.index, s.next);
          EndKeepsRange(main, f, world, s, m.block, m.index);
        case Then(head, rest) => StatementKeepsRange(main, f, p, world, s, m, g, m.block, head, rest);
      }
  }

  lemma {:induction false} RunKeepsRange(main: bool, f: Gen, p: S.Program, world: L.World, s: S.State, m: L.Machine, n: nat)
    requires Finished(main, f, p) && MatchState(main, f, s, m) && MemoryInRange(s.memory)
    ensures StaysInRange(LimitedRun(p, world, s, n))
    decreases n
  {
    hide Finished, MatchState, L.Run, S.Step, MemoryInRange;
    if n > 0 {
      StepKeepsRange(main, f, p, world, s, m);
      var k := SimStep(main, f, p, world, s, m);
      match LimitedStep(p, world, s)
      case Running(s1) => RunKeepsRange(main, f, p, world, s1, L.Run(f.Code(), world, m, k).state, n - 1);
      case _ =>
    }
  }

  /** However long a function runs, and when it has halted, each of its variables has a value in the
      signed range of its type. */
  lemma MemoryStaysInRange(main: bool, variables: seq<Variable>, body: Block, world: L.World, n: nat)
    requires LowerableBlock(main, body, {}) && UniqueLabels(body) && Integral(variables)
    ensures StaysInRange(LimitedRun(S.Program(body, main), world, Start(variables, body), n))
  {
    hide L.Run, Closed, LimitedRun, MatchState, LowerableBlock, UniqueLabels, Placed, Extends;
    var entry := L.Machine(0, 0, map[], map[], map[], 0, []);
    ClosedIsFinished(main, variables, body);
    var _, m := StartMatches(main, variables, body, world, entry);
    RunKeepsRange(main, Closed(main, variables, body), S.Program(body, main), world, Start(variables, body), m, n);
  }
}
