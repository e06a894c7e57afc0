/** Every step of the source program is simulated by one or more steps of its code. */
module Simulation {
  import opened Words
  import opened Ir
  import opened Lowering
  import opened LoweringFrames
  import opened ExpressionLowering
  import opened Matching
  import opened MatchingLemmas
  import L = Llvm
  import S = Semantics

  // Straight-line pieces of statements.

  /** Memory, trace and place change; the return stack does not. */
  ghost predicate Moved(m: L.Machine, m1: L.Machine, block: nat, index: nat, memory: L.Memory, trace: L.Trace) {
    m1 == m.(block := block, index := index, regs := m1.regs, memory := memory, trace := trace)
  }

  lemma StoreRuns(f: L.Cfg, world: L.World, m: L.Machine, n: nat, x: Variable, e: Expression)
    requires Lowerable(e) && HasValues(x.typ) && ExpressionWidth(e) == WidthOf(x.typ)
    requires var c := CompileExpression(n, e); CodeAt(f, m, c.code + [L.Store(x, c.result)])
    ensures var c := CompileExpression(n, e);
      var out := L.Run(f, world, m, |c.code| + 1);
      var r := S.Evaluate(world, e, m.memory, m.trace);
      if r.Failed? then out == L.Fault
      else out.Running? && Moved(m, out.state, m.block, m.index + |c.code| + 1, m.memory[x := r.value.bits], r.trace)
  {
    hide CodeAt, L.Run, CompileExpression, S.Evaluate, Agree, Lowerable, ExpressionWidth;
    var c := CompileExpression(n, e);
    CodeAtSplit(f, m, c.code, [L.Store(x, c.result)]);
    LowerableRuns(f, world, m, n, e);
    Append(f, world, m, c.code, L.Store(x, c.result));
    if S.Evaluate(world, e, m.memory, m.trace).Evaluated? {
      LowerableHasWidth(world, e, m.memory, m.trace);
    }
  }

  lemma BranchRuns(f: L.Cfg, world: L.World, m: L.Machine, n: nat, e: Expression, tb: nat, fb: nat)
    requires Lowerable(e) && ExpressionWidth(e) == Some(W1)
    requires var c := CompileExpression(n, e); CodeAt(f, m, c.code + [L.CondBr(c.result, tb, fb)])
    ensures var c := CompileExpression(n, e);
      var out := L.Run(f, world, m, |c.code| + 1);
      var r := S.Evaluate(world, e, m.memory, m.trace);
      if r.Failed? then out == L.Fault
      else
        r.value.width == W1 && out.Running?
        && Moved(m, out.state, if r.value.bits != 0 then tb else fb, 0, m.memory, r.trace)
  {
    hide CodeAt, L.Run, CompileExpression, S.Evaluate, Agree, Lowerable, ExpressionWidth;
    var c := CompileExpression(n, e);
    CodeAtSplit(f, m, c.code, [L.CondBr(c.result, tb, fb)]);
    LowerableRuns(f, world, m, n, e);
    Append(f, world, m, c.code, L.CondBr(c.result, tb, fb));
    if S.Evaluate(world, e, m.memory, m.trace).Evaluated? {
      LowerableHasWidth(world, e, m.memory, m.trace);
    }
  }

  lemma ReturnRuns(f: L.Cfg, world: L.World, m: L.Machine, n: nat, e: Expression)
    requires Lowerable(e)
    requires var c := CompileExpression(n, e); CodeAt(f, m, c.code + [L.Ret(c.result)])
    ensures var c := CompileExpression(n, e);
      var out := L.Run(f, world, m, |c.code| + 1);
      var r := S.Evaluate(world, e, m.memory, m.trace);
      if r.Failed? then out == L.Fault else out == L.Halted(Some(r.value), m.memory, r.trace)
  {
    hide CodeAt, L.Run, CompileExpression, S.Evaluate, Agree, Lowerable;
    var c := CompileExpression(n, e);
    CodeAtSplit(f, m, c.code, [L.Ret(c.result)]);
    LowerableRuns(f, world, m, n, e);
    Append(f, world, m, c.code, L.Ret(c.result));
  }

  lemma InIsAt(f: Gen, m: L.Machine, b: nat, i: nat, code: seq<L.Instr>)
    requires CodeIn(f, b, i, code) && m.block == b && m.index == i
    ensures CodeAt(f.Code(), m, code)
  {
  }

  /** One instruction at the current place. */
  lemma InstrRuns(f: Gen, world: L.World, m: L.Machine, i: L.Instr)
    requires InstrAt(f, m.block, m.index, i)
    ensures L.Run(f.Code(), world, m, 1) == L.Execute(f.Code(), world, m, i)
  {
    hide L.Execute;
    assert CodeAt(f.Code(), m, [i]);
    OneStep(f.Code(), world, m, i);
  }

  // The simulation.

  /** After `n` steps the machine has done what the source step with outcome `o` did. A
      gosub nested deeper than the return stack is out of bounds. */
  ghost predicate SimulatesIn(main: bool, f: Gen, world: L.World, m: L.Machine, o: L.Outcome<S.State>, n: nat) {
    var out := L.Run(f.Code(), world, m, n);
    match o
    case Running(s1) =>
      if |s1.gosubs| <= L.StackSlots then n >= 1 && out.Running? && MatchState(main, f, s1, out.state)
      else out == L.Fault
    case Halted(r, memory, trace) => out == L.Halted(r, memory, trace)
    case Fault => out == L.Fault
  }

  /** The machine is where the code of `Then(head, rest)` was emitted. */
  ghost predicate AtStatement(main: bool, f: Gen, s: S.State, m: L.Machine, g: Gen, cur: nat, head: Statement, rest: Block) {
    && s.control == S.Statements(Then(head, rest))
    && MatchBlock(main, f, g, cur, Then(head, rest), s.next)
    && cur < |g.blocks| && m.block == cur && m.index == |g.blocks[cur]|
    && m.memory == s.memory && m.trace == s.trace && MatchStack(main, f, s.gosubs, m.slots, m.sp)
    && |s.gosubs| <= L.StackSlots
  }

  /** Code emitted at the insertion point is what the machine executes next. */
  lemma EmittedHere(f: Gen, g: Gen, cur: nat, code: seq<L.Instr>, next: nat, m: L.Machine)
    requires cur < |g.blocks| && m.block == cur && m.index == |g.blocks[cur]|
    requires Extends(EmitCode(g, cur, code, next), f)
    ensures CodeAt(f.Code(), m, code)
  {
    hide Extends, CodeIn;
    ExtendsRegister(Emit(g, cur, code), next, f);
    EmittedIn(g, cur, code, f);
    InIsAt(f, m, cur, |g.blocks[cur]|, code);
  }

  lemma PlacedHere(main: bool, f: Gen, g: Gen, cur: nat, block: Block, k: S.Continuation)
    requires MatchBlock(main, f, g, cur, block, k) && cur < |g.blocks|
    ensures Placed(main, f, cur, |g.blocks[cur]|, block, k)
  {
    hide MatchBlock;
  }

  /** What every case starts from. */
  lemma Context(main: bool, f: Gen, s: S.State, m: L.Machine, g: Gen, cur: nat, head: Statement, rest: Block)
    requires AtStatement(main, f, s, m, g, cur, head, rest)
    ensures var (h, c) := LowerStatement(main, g, cur, head);
      && Extends(h, f) && c < |h.blocks| && Placed(main, f, c, |h.blocks[c]|, rest, s.next)
    ensures Valid(g) && Fresh(g, cur, LabelsIn(head)) && LowerableStatement(main, head, ActiveLoops(s.next)) && UniqueLabelsIn(head)
    ensures MatchExits(main, f, g.exits, s.next)
    ensures StartsBlock(main, head) ==> Placed(main, f, LowerStatement(main, g, cur, head).1, 0, rest, s.next)
    ensures head.Exit? ==> head.loopToBreak in g.exits
  {
    hide MatchBlock, Ready, Extends, Placed, Fresh, Valid, Frame, LowerStatement, MatchStack, MatchExits;
    MatchFacts(main, f, g, cur, Then(head, rest), s.next);
    ReadyCurrent(main, f, g, cur, Then(head, rest), ActiveLoops(s.next));
    FreshHead(main, f, g, cur, head, rest, ActiveLoops(s.next));
    AfterStatement(main, f, g, cur, head, rest, s.next);
    var (h, c) := LowerStatement(main, g, cur, head);
    PlacedHere(main, f, h, c, rest, s.next);
    if StartsBlock(main, head) {
      RestPlaced(main, f, g, cur, head, rest, s.next);
    }
  }

  lemma SimAssignment(main: bool, f: Gen, p: S.Program, world: L.World, s: S.State, m: L.Machine, g: Gen, cur: nat,
                      x: Variable, e: Expression, rest: Block) returns (n: nat)
    requires AtStatement(main, f, s, m, g, cur, Assignment(x, e), rest)
    ensures SimulatesIn(main, f, world, m, S.StepStatement(p, world, s, Assignment(x, e), rest), n)
  {
    hide MatchBlock, Ready, Extends, CodeAt, L.Run, S.Evaluate, MatchStack, Placed, Fresh, Valid, CompileExpression, L.Step;
    hide L.Execute, MatchTest, MatchExits, S.FindLabel, S.FindLoop, S.EvaluateCall, LowerBlock, UniqueLabelsIn, Lowerable, LowerableStatement;
    var c := CompileExpression(g.nextReg, e);
    Context(main, f, s, m, g, cur, Assignment(x, e), rest);
    LowerableParts(main, Assignment(x, e), ActiveLoops(s.next));
    EmittedHere(f, g, cur, c.code + [L.Store(x, c.result)], c.next, m);
    StoreRuns(f.Code(), world, m, g.nextReg, x, e);
    n := |c.code| + 1;
  }

  lemma SimCall(main: bool, f: Gen, p: S.Program, world: L.World, s: S.State, m: L.Machine, g: Gen, cur: nat,
                callee: Callee, arguments: Arguments, ret: Type, rest: Block) returns (n: nat)
    requires AtStatement(main, f, s, m, g, cur, FunctionCall(callee, arguments, ret), rest) && p.isMain == main
    ensures SimulatesIn(main, f, world, m, S.StepStatement(p, world, s, FunctionCall(callee, arguments, ret), rest), n)
  {
    hide MatchBlock, Ready, Extends, CodeAt, L.Run, S.Evaluate, MatchStack, Placed, Fresh, Valid, CompileCall, L.Step;
    hide L.Execute, MatchTest, MatchExits, S.FindLabel, S.FindLoop, S.EvaluateCall, LowerBlock, UniqueLabelsIn, LowerableStatement, FormedAll, AllValuesExist, Returns;
    Context(main, f, s, m, g, cur, FunctionCall(callee, arguments, ret), rest);
    LowerableParts(main, FunctionCall(callee, arguments, ret), ActiveLoops(s.next));
    if S.EndsProgram(main, callee) {
      n := 1;
      EndEmitted(f, g, cur);
      InstrRuns(f, world, m, L.RetVoid);
      RetVoidStep(f, world, m);
    } else {
      var c := CompileCall(g.nextReg, callee, arguments);
      EmittedHere(f, g, cur, c.code, c.next, m);
      CallRuns(f.Code(), world, m, g.nextReg, callee, arguments, ret);
      CallEmits(g.nextReg, callee, arguments);
      n := |c.code|;
    }
  }

  lemma EndEmitted(f: Gen, g: Gen, cur: nat)
    requires cur < |g.blocks| && Extends(NewBlock(Emit(g, cur, [L.RetVoid])), f)
    ensures InstrAt(f, cur, |g.blocks[cur]|, L.RetVoid)
  {
    hide Extends, CodeIn;
    ExtendsNewBlock(Emit(g, cur, [L.RetVoid]));
    ExtendsTransitive(Emit(g, cur, [L.RetVoid]), NewBlock(Emit(g, cur, [L.RetVoid])), f);
    EmittedIn(g, cur, [L.RetVoid], f);
    CodeInInstr(f, cur, |g.blocks[cur]|, L.RetVoid);
  }

  lemma RetVoidStep(f: Gen, world: L.World, m: L.Machine)
    ensures L.Execute(f.Code(), world, m, L.RetVoid) == L.Halted(None, m.memory, m.trace)
  {
  }

  lemma BrStep(f: Gen, world: L.World, m: L.Machine, b: nat)
    ensures L.Execute(f.Code(), world, m, L.Br(b)) == L.Jump(m, b)
  {
  }

  lemma CallEmits(n: nat, callee: Callee, arguments: Arguments)
    ensures |CompileCall(n, callee, arguments).code| >= 1
  {
  }

  lemma SimExitFunction(main: bool, f: Gen, p: S.Program, world: L.World, s: S.State, m: L.Machine, g: Gen, cur: nat,
                        e: Expression, rest: Block) returns (n: nat)
    requires AtStatement(main, f, s, m, g, cur, ExitFunction(e), rest)
    ensures SimulatesIn(main, f, world, m, S.StepStatement(p, world, s, ExitFunction(e), rest), n)
  {
    hide MatchBlock, Ready, Extends, CodeAt, L.Run, S.Evaluate, MatchStack, Placed, Fresh, Valid, CompileExpression, L.Step;
    hide L.Execute, MatchTest, MatchExits, S.FindLabel, S.FindLoop, S.EvaluateCall, LowerBlock, UniqueLabelsIn, Lowerable, LowerableStatement;
    var c := CompileExpression(g.nextReg, e);
    Context(main, f, s, m, g, cur, ExitFunction(e), rest);
    LowerableParts(main, ExitFunction(e), ActiveLoops(s.next));
    EmittedHere(f, g, cur, c.code + [L.Ret(c.result)], c.next, m);
    ReturnRuns(f.Code(), world, m, g.nextReg, e);
    n := |c.code| + 1;
  }

  /** A branch at the current place to where some statements are placed. */
  lemma SimJump(main: bool, f: Gen, world: L.World, s: S.State, m: L.Machine, b: nat, block: Block, k: S.Continuation)
    requires InstrAt(f, m.block, m.index, L.Br(b)) && Placed(main, f, b, 0, block, k)
    requires m.memory == s.memory && m.trace == s.trace && MatchStack(main, f, s.gosubs, m.slots, m.sp)
    requires |s.gosubs| <= L.StackSlots
    ensures SimulatesIn(main, f, world, m, L.Running(s.(control := S.Statements(block), next := k)), 1)
  {
    hide Placed, MatchStack, L.Execute, L.Run, InstrAt;
    InstrRuns(f, world, m, L.Br(b));
    BrStep(f, world, m, b);
  }

  lemma SimLabel(main: bool, f: Gen, p: S.Program, world: L.World, s: S.State, m: L.Machine, g: Gen, cur: nat,
                 l: nat, rest: Block) returns (n: nat)
    requires AtStatement(main, f, s, m, g, cur, Label(l), rest)
    ensures SimulatesIn(main, f, world, m, S.StepStatement(p, world, s, Label(l), rest), n)
  {
    hide MatchBlock, Ready, Extends, L.Run, MatchStack, Placed, Fresh, Valid, InstrAt, MatchExits, SimulatesIn;
    Context(main, f, s, m, g, cur, Label(l), rest);
    n := 1;
    LabelEmitted(f, g, cur, l);
    SimJump(main, f, world, s, m, LabelBlock(g, l), rest, s.next);
  }

  lemma LabelEmitted(f: Gen, g: Gen, cur: nat, l: nat)
    requires cur < |g.blocks| && Extends(PlaceLabel(g, cur, l), f)
    ensures InstrAt(f, cur, |g.blocks[cur]|, L.Br(LabelBlock(g, l)))
  {
    hide Extends, CodeIn;
    var b := LabelBlock(g, l);
    var g1 := AddLabel(g, l);
    EmittedIn(g1.(placed := g1.placed + [b]), cur, [L.Br(b)], f);
    CodeInInstr(f, cur, |g.blocks[cur]|, L.Br(b));
  }

  // Jumps to labels.

  lemma {:induction false} FindLabelComplete(name: nat, block: Block, k: S.Continuation)
    ensures S.FindLabel(name, block, k).Some? <==> name in LabelsOf(block)
    decreases block, 0
  {
    match block
    case End =>
    case Then(s, rest) =>
      FindLabelComplete(name, rest, k);
      match s {
        case Conditional(_, t, e) =>
          FindLabelComplete(name, t, S.Sequel(rest, k));
          FindLabelComplete(name, e, S.Sequel(rest, k));
        case InfiniteLoop(loop, body) => FindLabelComplete(name, body, S.Iterate(loop, body, rest, k));
        case ForLoop(loop, counter, _, end, step, body) =>
          FindLabelComplete(name, body, S.Count(loop, counter, end, step, body, rest, k));
        case _ =>
      }
  }

  /** What is known of the finished function as a whole. */
  ghost predicate Finished(main: bool, f: Gen, p: S.Program) {
    && p.isMain == main && Valid(f)
    && (exists g: Gen, cur: nat :: MatchBlock(main, f, g, cur, p.body, S.Return))
    && (forall l <- f.labels :: l !in LabelsOf(p.body) ==> f.blocks[f.labels[l]] == [])
  }

  lemma LabelPlaced(main: bool, f: Gen, p: S.Program, l: nat)
    requires Finished(main, f, p)
    ensures var r := S.FindLabel(l, p.body, S.Return);
      if r.Some? then l in f.labels && Placed(main, f, f.labels[l], 0, r.value.rest, r.value.next)
      else l in f.labels ==> f.labels[l] < |f.blocks| && f.blocks[f.labels[l]] == []
  {
    hide MatchBlock, Placed;
    var g: Gen, cur: nat :| MatchBlock(main, f, g, cur, p.body, S.Return);
    FindLabelPlaced(main, f, g, cur, l, p.body, S.Return);
    FindLabelComplete(l, p.body, S.Return);
  }

  /** A branch to a label, wherever it is; a branch to a label that is not placed goes wrong. */
  lemma SimToLabel(main: bool, f: Gen, p: S.Program, world: L.World, s: S.State, m: L.Machine, l: nat, b: nat) returns (n: nat)
    requires Finished(main, f, p) && l in f.labels && f.labels[l] == b
    requires InstrAt(f, m.block, m.index, L.Br(b))
    requires m.memory == s.memory && m.trace == s.trace && MatchStack(main, f, s.gosubs, m.slots, m.sp)
    requires |s.gosubs| <= L.StackSlots
    ensures SimulatesIn(main, f, world, m, S.Resume(s, S.FindLabel(l, p.body, S.Return)), n)
  {
    hide MatchBlock, Placed, L.Execute, L.Run, InstrAt, SimulatesIn, Finished;
    LabelPlaced(main, f, p, l);
    var r := S.FindLabel(l, p.body, S.Return);
    if r.Some? {
      n := 1;
      SimJump(main, f, world, s, m, b, r.value.rest, r.value.next);
    } else {
      n := 2;
      InstrRuns(f, world, m, L.Br(b));
      BrStep(f, world, m, b);
      FaultSoon(main, f, world, m, b);
    }
  }

  lemma FaultSoon(main: bool, f: Gen, world: L.World, m: L.Machine, b: nat)
    requires L.Run(f.Code(), world, m, 1) == L.Jump(m, b) && b < |f.blocks| && f.blocks[b] == []
    ensures SimulatesIn(main, f, world, m, L.Fault, 2)
  {
    Continue(f.Code(), world, m, 1, 1);
  }

  lemma SimGoto(main: bool, f: Gen, p: S.Program, world: L.World, s: S.State, m: L.Machine, g: Gen, cur: nat,
                l: nat, rest: Block) returns (n: nat)
    requires Finished(main, f, p) && AtStatement(main, f, s, m, g, cur, Goto(l), rest)
    ensures SimulatesIn(main, f, world, m, S.StepStatement(p, world, s, Goto(l), rest), n)
  {
    hide MatchBlock, Ready, Extends, L.Run, MatchStack, Placed, Fresh, Valid, InstrAt, MatchExits, SimulatesIn, Finished;
    Context(main, f, s, m, g, cur, Goto(l), rest);
    GotoEmitted(f, g, cur, l);
    n := SimToLabel(main, f, p, world, s, m, l, LabelBlock(g, l));
  }

  lemma GotoEmitted(f: Gen, g: Gen, cur: nat, l: nat)
    requires cur < |g.blocks| && Extends(LowerJump(AddLabel(g, l), cur, LabelBlock(g, l)).0, f)
    ensures InstrAt(f, cur, |g.blocks[cur]|, L.Br(LabelBlock(g, l)))
    ensures l in f.labels && f.labels[l] == LabelBlock(g, l)
  {
    hide CodeIn;
    var b := LabelBlock(g, l);
    var g1 := AddLabel(g, l);
    ExtendsNewBlock(Emit(g1, cur, [L.Br(b)]));
    ExtendsTransitive(Emit(g1, cur, [L.Br(b)]), LowerJump(g1, cur, b).0, f);
    EmittedIn(g1, cur, [L.Br(b)], f);
    CodeInInstr(f, cur, |g.blocks[cur]|, L.Br(b));
  }

  // Gosub and return.

  lemma GosubEmitted(f: Gen, g: Gen, cur: nat, l: nat)
    requires cur < |g.blocks| && Extends(LowerGosub(g, cur, l), f)
    ensures var c := |AddLabel(g, l).blocks|;
      && InstrAt(f, cur, |g.blocks[cur]|, L.PushReturn(c)) && InstrAt(f, cur, |g.blocks[cur]| + 1, L.Br(LabelBlock(g, l)))
      && l in f.labels && f.labels[l] == LabelBlock(g, l) && c in f.returnPoints
  {
    var g1 := AddLabel(g, l);
    var c := |g1.blocks|;
    var code := [L.PushReturn(c), L.Br(LabelBlock(g, l))];
    var g2 := AddReturnPoint(NewBlock(g1), c);
    assert g2.returnPoints[|g1.returnPoints|] == c;
    EmittedIn(g2, cur, code, f);
    var b := f.blocks[cur];
    var i := |g.blocks[cur]|;
    assert b[i..i + 2][0] == code[0] && b[i..i + 2][1] == code[1];
  }

  lemma PushStep(f: Gen, world: L.World, m: L.Machine, c: nat)
    ensures L.Execute(f.Code(), world, m, L.PushReturn(c)) ==
      if 0 <= m.sp < L.StackSlots then L.Running(m.(index := m.index + 1, slots := m.slots[m.sp := c], sp := m.sp + 1)) else L.Fault
  {
  }

  lemma PushStack(main: bool, f: Gen, gosubs: seq<S.Resumption>, slots: map<int, nat>, sp: int, c: nat, r: S.Resumption)
    requires MatchStack(main, f, gosubs, slots, sp) && sp < L.StackSlots
    requires c in f.returnPoints && Placed(main, f, c, 0, r.rest, r.next)
    ensures MatchStack(main, f, gosubs + [r], slots[sp := c], sp + 1)
  {
    hide Placed;
  }

  lemma SimGosub(main: bool, f: Gen, p: S.Program, world: L.World, s: S.State, m: L.Machine, g: Gen, cur: nat,
                 l: nat, rest: Block) returns (n: nat)
    requires Finished(main, f, p) && AtStatement(main, f, s, m, g, cur, Gosub(l), rest)
    ensures SimulatesIn(main, f, world, m, S.StepStatement(p, world, s, Gosub(l), rest), n)
  {
    hide MatchBlock, Ready, Extends, Placed, Fresh, Valid, InstrAt, MatchExits, Finished;
    hide L.Run, L.Execute, SimulatesIn, LowerGosub;
    Context(main, f, s, m, g, cur, Gosub(l), rest);
    GosubEmitted(f, g, cur, l);
    var c := |AddLabel(g, l).blocks|;
    InstrRuns(f, world, m, L.PushReturn(c));
    PushStep(f, world, m, c);
    if m.sp < L.StackSlots {
      var s1 := s.(gosubs := s.gosubs + [S.Resumption(rest, s.next)]);
      var m1 := m.(index := m.index + 1, slots := m.slots[m.sp := c], sp := m.sp + 1);
      PushStack(main, f, s.gosubs, m.slots, m.sp, c, S.Resumption(rest, s.next));
      var n1 := SimToLabel(main, f, p, world, s1, m1, l, LabelBlock(g, l));
      n := 1 + n1;
      Later(main, f, world, m, m1, S.StepStatement(p, world, s, Gosub(l), rest), n1);
    } else {
      n := 1;
      Overflows(main, f, p, world, s, m, l, rest);
    }
  }

  lemma Later(main: bool, f: Gen, world: L.World, m: L.Machine, m1: L.Machine, o: L.Outcome<S.State>, n: nat)
    requires L.Run(f.Code(), world, m, 1) == L.Running(m1) && SimulatesIn(main, f, world, m1, o, n)
    ensures SimulatesIn(main, f, world, m, o, 1 + n)
  {
    hide MatchState;
    Continue(f.Code(), world, m, 1, n);
  }

  /** The 33rd nested gosub. */
  lemma Overflows(main: bool, f: Gen, p: S.Program, world: L.World, s: S.State, m: L.Machine, l: nat, rest: Block)
    requires |s.gosubs| == L.StackSlots && L.Run(f.Code(), world, m, 1) == L.Fault
    ensures SimulatesIn(main, f, world, m, S.StepStatement(p, world, s, Gosub(l), rest), 1)
  {
    hide L.Run, MatchState;
  }

  lemma ReturnEmitted(f: Gen, g: Gen, cur: nat)
    requires cur < |g.blocks| && Extends(LowerReturn(g, cur).0, f) && Valid(f)
    ensures InstrAt(f, cur, |g.blocks[cur]|, L.PopReturn(g.nextReg))
    ensures InstrAt(f, cur, |g.blocks[cur]| + 1, L.IndirectBr(Defined(g.nextReg, L.PopReturn(g.nextReg)), |g.destinations|))
    ensures |g.destinations| < |f.destinations| && f.destinations[|g.destinations|] == f.returnPoints
  {
    var code := [L.PopReturn(g.nextReg), L.IndirectBr(Defined(g.nextReg, L.PopReturn(g.nextReg)), |g.destinations|)];
    EmittedIn(g, cur, code, f);
    var b := f.blocks[cur];
    var i := |g.blocks[cur]|;
    assert b[i..i + 2][0] == code[0] && b[i..i + 2][1] == code[1];
  }

  lemma PopStep(f: Gen, world: L.World, m: L.Machine, dst: nat)
    ensures L.Execute(f.Code(), world, m, L.PopReturn(dst)) ==
      if 0 <= m.sp - 1 < L.StackSlots && m.sp - 1 in m.slots
      then L.Running(m.(sp := m.sp - 1, index := m.index + 1, regs := m.regs[dst := Value(WPtr, m.slots[m.sp - 1])]))
      else L.Fault
  {
  }

  lemma IndirectStep(f: Gen, world: L.World, m: L.Machine, r: nat, index: nat, b: nat)
    requires r in m.regs && m.regs[r] == Value(WPtr, b)
    requires index < |f.destinations| && b in f.destinations[index]
    ensures L.Execute(f.Code(), world, m, L.IndirectBr(Defined(r, L.PopReturn(r)), index)) == L.Jump(m, b)
  {
  }

  lemma SimReturn(main: bool, f: Gen, p: S.Program, world: L.World, s: S.State, m: L.Machine, g: Gen, cur: nat, rest: Block) returns (n: nat)
    requires Finished(main, f, p) && AtStatement(main, f, s, m, g, cur, SubReturn, rest)
    ensures SimulatesIn(main, f, world, m, S.StepStatement(p, world, s, SubReturn, rest), n)
  {
    hide MatchBlock, Ready, Extends, Placed, Fresh, Valid, InstrAt, MatchExits, L.Run, L.Execute, LowerReturn;
    Context(main, f, s, m, g, cur, SubReturn, rest);
    ReturnEmitted(f, g, cur);
    var r := g.nextReg;
    InstrRuns(f, world, m, L.PopReturn(r));
    PopStep(f, world, m, r);
    if s.gosubs == [] {
      n := 1;
    } else {
      n := 2;
      var top := |s.gosubs| - 1;
      var b := m.slots[top];
      var m1 := m.(sp := top, index := m.index + 1, regs := m.regs[r := Value(WPtr, b)]);
      InstrRuns(f, world, m1, L.IndirectBr(Defined(r, L.PopReturn(r)), |g.destinations|));
      IndirectStep(f, world, m1, r, |g.destinations|, b);
      Continue(f.Code(), world, m, 1, 1);
      var s1 := s.(gosubs := s.gosubs[..top], control := S.Statements(s.gosubs[top].rest), next := s.gosubs[top].next);
      assert MatchStack(main, f, s1.gosubs, m1.slots, m1.sp);
      assert MatchState(main, f, s1, m1.(block := b, index := 0));
    }
  }

  // Structured statements.

  lemma SimConditional(main: bool, f: Gen, p: S.Program, world: L.World, s: S.State, m: L.Machine, g: Gen, cur: nat,
                       head: Statement, rest: Block) returns (n: nat)
    requires head.Conditional? && AtStatement(main, f, s, m, g, cur, head, rest)
    ensures SimulatesIn(main, f, world, m, S.StepStatement(p, world, s, head, rest), n)
  {
    hide MatchBlock, Ready, Extends, CodeAt, CodeIn, L.Run, S.Evaluate, MatchStack, Placed, Fresh, Valid, CompileExpression, L.Step;
    hide L.Execute, MatchTest, MatchExits, S.FindLabel, S.FindLoop, S.EvaluateCall, LowerBlock, UniqueLabelsIn, Lowerable, LowerableStatement, LowerBranches;
    Context(main, f, s, m, g, cur, head, rest);
    LowerableParts(main, head, ActiveLoops(s.next));
    EnterBranches(main, f, g, cur, head, rest, s.next);
    var x := LowerBranches(main, g, head);
    var c := CompileExpression(x.g2.nextReg, head.condition);
    InIsAt(f, m, cur, |g.blocks[cur]|, c.code + [L.CondBr(c.result, |g.blocks|, |x.g1.blocks|)]);
    BranchRuns(f.Code(), world, m, x.g2.nextReg, head.condition, |g.blocks|, |x.g1.blocks|);
    n := |c.code| + 1;
  }

  /** The two branches around the body of an infinite loop. */
  lemma LoopEmitted(main: bool, f: Gen, g: Gen, cur: nat, s: Statement, rest: Block, k: S.Continuation, b: nat, i: nat)
    requires s.InfiniteLoop? && MatchBlock(main, f, g, cur, Then(s, rest), k) && cur < |g.blocks|
    requires EndsAt(main, OpenLoop(g, s.loop), |g.blocks|, s.body, b, i)
    ensures InstrAt(f, cur, |g.blocks[cur]|, L.Br(|g.blocks|))
    ensures InstrAt(f, b, i, L.Br(|g.blocks|))
  {
    hide LowerBlock, Extends, MatchBlock, Ready, Fresh, Valid, Frame, Owns, CodeIn, InstrAt, Away, MoveAfter, LowerableStatement;
    var g0 := OpenLoop(g, s.loop);
    var lb := |g.blocks|;
    var (g1, le) := LowerBlock(main, g0, lb, s.body);
    MatchFacts(main, f, g, cur, Then(s, rest), k);
    ReadyCurrent(main, f, g, cur, Then(s, rest), ActiveLoops(k));
    FreshHead(main, f, g, cur, s, rest, ActiveLoops(k));
    AfterStatement(main, f, g, cur, s, rest, k);
    FrameOpenLoop(g, cur, s.loop);
    FrameBlock(main, g0, lb, s.body);
    FreshIsAway(g, cur, LabelsOf(s.body));
    OpenLoopAway(g, s.loop, LabelsOf(s.body), cur);
    StaysAway(g0, g1, lb, LabelsOf(s.body), LoopsOf(s.body), le, cur, {});
    MoveKeepsBlocks(g1, lb + 1, le);
    var h0 := MoveAfter(g1, lb + 1, le);
    var h1 := Emit(h0, cur, [L.Br(lb)]);
    ExtendsEmit(h1, le, [L.Br(lb)]);
    ExtendsTransitive(h1, Emit(h1, le, [L.Br(lb)]), f);
    EmittedIn(h0, cur, [L.Br(lb)], f);
    EmittedIn(h1, le, [L.Br(lb)], f);
    CodeInInstr(f, cur, |h0.blocks[cur]|, L.Br(lb));
    CodeInInstr(f, le, |h1.blocks[le]|, L.Br(lb));
  }

  lemma SimLoop(main: bool, f: Gen, p: S.Program, world: L.World, s: S.State, m: L.Machine, g: Gen, cur: nat,
                head: Statement, rest: Block) returns (n: nat)
    requires head.InfiniteLoop? && AtStatement(main, f, s, m, g, cur, head, rest)
    ensures SimulatesIn(main, f, world, m, S.StepStatement(p, world, s, head, rest), n)
  {
    hide MatchBlock, Ready, Extends, L.Run, MatchStack, Placed, Fresh, Valid, InstrAt, MatchExits, SimulatesIn, EndsAt;
    n := 1;
    MatchFacts(main, f, g, cur, Then(head, rest), s.next);
    EnterLoop(main, f, g, cur, head, rest, s.next);
    ReadyLoop(main, f, g, cur, head, rest, ActiveLoops(s.next));
    var b, i := EndPoint(main, f, OpenLoop(g, head.loop), |g.blocks|, head.body, ActiveLoops(s.next) + {head.loop});
    LoopEmitted(main, f, g, cur, head, rest, s.next, b, i);
    SimJump(main, f, world, s, m, |g.blocks|, head.body, S.Iterate(head.loop, head.body, rest, s.next));
  }

  lemma {:induction false} FindLoopPlaced(main: bool, f: Gen, exits: map<nat, nat>, loop: nat, k: S.Continuation)
    requires MatchExits(main, f, exits, k) && loop in ActiveLoops(k)
    ensures var r := S.FindLoop(loop, k);
      r.Some? && loop in exits && Placed(main, f, exits[loop], 0, r.value.rest, r.value.next)
  {
    match k
    case Return =>
    case Sequel(_, next) => FindLoopPlaced(main, f, exits, loop, next);
    case Iterate(l, _, _, next) => if l != loop { FindLoopPlaced(main, f, exits, loop, next); }
    case Count(l, _, _, _, _, _, next) => if l != loop { FindLoopPlaced(main, f, exits, loop, next); }
  }

  lemma ExitEmitted(f: Gen, g: Gen, cur: nat, b: nat)
    requires cur < |g.blocks| && Extends(LowerJump(g, cur, b).0, f)
    ensures InstrAt(f, cur, |g.blocks[cur]|, L.Br(b))
  {
    hide CodeIn, Extends;
    ExtendsNewBlock(Emit(g, cur, [L.Br(b)]));
    ExtendsTransitive(Emit(g, cur, [L.Br(b)]), LowerJump(g, cur, b).0, f);
    EmittedIn(g, cur, [L.Br(b)], f);
    CodeInInstr(f, cur, |g.blocks[cur]|, L.Br(b));
  }

  lemma SimExit(main: bool, f: Gen, p: S.Program, world: L.World, s: S.State, m: L.Machine, g: Gen, cur: nat,
                loop: nat, rest: Block) returns (n: nat)
    requires AtStatement(main, f, s, m, g, cur, Exit(loop), rest)
    ensures SimulatesIn(main, f, world, m, S.StepStatement(p, world, s, Exit(loop), rest), n)
  {
    hide MatchBlock, Ready, Extends, L.Run, MatchStack, Placed, Fresh, Valid, InstrAt, MatchExits, SimulatesIn, LowerJump;
    Context(main, f, s, m, g, cur, Exit(loop), rest);
    FindLoopPlaced(main, f, g.exits, loop, s.next);
    ExitEmitted(f, g, cur, g.exits[loop]);
    var r := S.FindLoop(loop, s.next).value;
    n := 1;
    SimJump(main, f, world, s, m, g.exits[loop], r.rest, r.next);
  }

  // For loops.

  ghost predicate ForEntry(f: Gen, g: Gen, cur: nat, s: Statement)
    requires s.ForLoop?
  {
    var n := |g.blocks|;
    var init := CompileExpression(g.nextReg, s.init);
    var c := ForBlocks(g, s);
    && cur < n
    && CodeIn(f, cur, |g.blocks[cur]|, init.code + [L.Store(s.counter, init.result), L.Br(n)])
    && CodeIn(f, n, 0, c.condition) && CodeIn(f, n + 1, 0, c.positive)
    && CodeIn(f, n + 2, 0, c.check) && CodeIn(f, n + 3, 0, c.negative)
  }

  lemma BlockIn(h: Gen, f: Gen, b: nat, code: seq<L.Instr>, before: seq<L.Instr>)
    requires Extends(h, f) && b < |h.blocks| && h.blocks[b] == before + code
    ensures CodeIn(f, b, |before|, code)
  {
    assert h.blocks[b] <= f.blocks[b];
    assert f.blocks[b][..|h.blocks[b]|] == before + code;
    assert f.blocks[b][|before|..|before| + |code|] == (before + code)[|before|..];
  }

  lemma ForEntryEmitted(f: Gen, g: Gen, cur: nat, s: Statement)
    requires s.ForLoop? && cur < |g.blocks| && Extends(OpenForLoop(g, cur, s), f)
    ensures ForEntry(f, g, cur, s)
  {
    hide CompileExpression, CompileFor, OpenForLoop, Extends, CodeIn;
    var h := OpenForLoop(g, cur, s);
    var n := |g.blocks|;
    var init := CompileExpression(g.nextReg, s.init);
    OpenForBlocks(g, cur, s);
    BlockIn(h, f, cur, init.code + [L.Store(s.counter, init.result), L.Br(n)], g.blocks[cur]);
    BlockIn(h, f, n, h.blocks[n], []);
    BlockIn(h, f, n + 1, h.blocks[n + 1], []);
    BlockIn(h, f, n + 2, h.blocks[n + 2], []);
    BlockIn(h, f, n + 3, h.blocks[n + 3], []);
  }

  /** The end of the body branches to the increment, which branches back to the condition. */
  ghost predicate ForIncrement(f: Gen, n: nat, s: Statement, b: nat, i: nat, inc: nat, r: nat)
    requires s.ForLoop?
  {
    InstrAt(f, b, i, L.Br(inc)) && CodeIn(f, inc, 0, CompileIncrement(r, s.counter, s.step).code + [L.Br(n)])
  }

  lemma CloseForEmitted(f: Gen, g1: Gen, s: Statement, n: nat, le: nat)
    requires s.ForLoop? && le < |g1.blocks| && Extends(CloseFor(g1, s.counter, s.step, n, le), f)
    ensures ForIncrement(f, n, s, le, |g1.blocks[le]|, |g1.blocks|, g1.nextReg)
  {
    hide CodeIn, Extends, InstrAt, CompileIncrement;
    var inc := |g1.blocks|;
    var h0 := NewBlock(g1);
    var h1 := Emit(h0, le, [L.Br(inc)]);
    var c := CompileIncrement(h1.nextReg, s.counter, s.step);
    var h2 := Emit(h1, inc, c.code + [L.Br(n)]);
    ExtendsRegister(h2, c.next, f);
    ExtendsEmit(h1, inc, c.code + [L.Br(n)]);
    ExtendsTransitive(h1, h2, f);
    EmittedIn(h0, le, [L.Br(inc)], f);
    EmittedIn(h1, inc, c.code + [L.Br(n)], f);
    CodeInInstr(f, le, |h0.blocks[le]|, L.Br(inc));
  }

  predicate LowerableHeader(s: Statement)
    requires s.ForLoop?
  {
    && HasValues(s.counter.typ)
    && Lowerable(s.end) && ExpressionWidth(s.end) == WidthOf(s.counter.typ)
    && Lowerable(s.step) && ExpressionWidth(s.step) == WidthOf(s.counter.typ)
  }

  lemma ForEmitted(main: bool, f: Gen, g: Gen, cur: nat, s: Statement, rest: Block, k: S.Continuation)
    requires s.ForLoop? && MatchBlock(main, f, g, cur, Then(s, rest), k)
    ensures ForEntry(f, g, cur, s)
    ensures var (g1, le) := LowerBlock(main, OpenForLoop(g, cur, s), |g.blocks| + 4, s.body);
      le < |g1.blocks| && ForIncrement(f, |g.blocks|, s, le, |g1.blocks[le]|, |g1.blocks|, g1.nextReg)
    ensures LowerableHeader(s) && Lowerable(s.init) && ExpressionWidth(s.init) == WidthOf(s.counter.typ)
  {
    hide LowerBlock, Extends, MatchBlock, Ready, Fresh, Valid, Frame, Owns, OpenForLoop, CloseFor, ForEntry, ForIncrement;
    var g0 := OpenForLoop(g, cur, s);
    var n := |g.blocks|;
    var (g1, le) := LowerBlock(main, g0, n + 4, s.body);
    MatchFacts(main, f, g, cur, Then(s, rest), k);
    ReadyCurrent(main, f, g, cur, Then(s, rest), ActiveLoops(k));
    FreshHead(main, f, g, cur, s, rest, ActiveLoops(k));
    LowerableParts(main, s, ActiveLoops(k));
    ReadyFor(main, f, g, cur, s, rest, ActiveLoops(k));
    ReadyCurrent(main, f, g0, n + 4, s.body, ActiveLoops(k) + {s.loop});
    FrameBlock(main, g0, n + 4, s.body);
    FrameFacts(g0, g1, n + 4, LabelsOf(s.body), LoopsOf(s.body), le);
    ExtendsCloseFor(g1, s.counter, s.step, n, le);
    ExtendsTransitive(g1, CloseFor(g1, s.counter, s.step, n, le), f);
    ExtendsTransitive(g0, g1, f);
    ForEntryEmitted(f, g, cur, s);
    CloseForEmitted(f, g1, s, n, le);
  }

  lemma MatchTestHere(main: bool, f: Gen, g: Gen, cur: nat, s: Statement, rest: Block, k: S.Continuation)
    requires s.ForLoop? && MatchBlock(main, f, g, cur, Then(s, rest), k)
    ensures MatchTest(main, f, CountFrame(s, rest, k), |g.blocks|)
  {
    hide MatchBlock;
  }

  /** A store followed by a branch. */
  lemma StoreThenBranch(f: L.Cfg, world: L.World, m: L.Machine, n: nat, x: Variable, e: Expression, b: nat)
    requires Lowerable(e) && HasValues(x.typ) && ExpressionWidth(e) == WidthOf(x.typ)
    requires var c := CompileExpression(n, e); CodeAt(f, m, c.code + [L.Store(x, c.result), L.Br(b)])
    ensures var c := CompileExpression(n, e);
      var out := L.Run(f, world, m, |c.code| + 2);
      var r := S.Evaluate(world, e, m.memory, m.trace);
      if r.Failed? then out == L.Fault
      else out.Running? && Moved(m, out.state, b, 0, m.memory[x := r.value.bits], r.trace)
  {
    hide CodeAt, L.Run, CompileExpression, S.Evaluate, Lowerable, ExpressionWidth, WidthOf;
    var c := CompileExpression(n, e);
    var code := c.code + [L.Store(x, c.result)];
    assert code + [L.Br(b)] == c.code + [L.Store(x, c.result), L.Br(b)];
    CodeAtSplit(f, m, code, [L.Br(b)]);
    StoreRuns(f, world, m, n, x, e);
    Append(f, world, m, code, L.Br(b));
  }

  lemma SimFor(main: bool, f: Gen, p: S.Program, world: L.World, s: S.State, m: L.Machine, g: Gen, cur: nat,
               head: Statement, rest: Block) returns (n: nat)
    requires head.ForLoop? && AtStatement(main, f, s, m, g, cur, head, rest)
    ensures SimulatesIn(main, f, world, m, S.StepStatement(p, world, s, head, rest), n)
  {
    hide MatchBlock, Ready, Extends, CodeAt, CodeIn, L.Run, S.Evaluate, MatchStack, Placed, CompileExpression, L.Step;
    hide L.Execute, MatchTest, MatchExits, S.FindLabel, S.FindLoop, S.EvaluateCall, LowerBlock, Lowerable;
    hide OpenForLoop, ForIncrement, ForBlocks, ExpressionWidth, WidthOf;
    var init := CompileExpression(g.nextReg, head.init);
    ForEmitted(main, f, g, cur, head, rest, s.next);
    MatchTestHere(main, f, g, cur, head, rest, s.next);
    InIsAt(f, m, cur, |g.blocks[cur]|, init.code + [L.Store(head.counter, init.result), L.Br(|g.blocks|)]);
    StoreThenBranch(f.Code(), world, m, g.nextReg, head.counter, head.init, |g.blocks|);
    n := |init.code| + 2;
  }

  function Decides(op: L.Opcode, a: int, b: int): Option<bool> {
    match op
    case Slt => Some(a < b)
    case Sle => Some(a <= b)
    case Sgt => Some(a > b)
    case Sge => Some(a >= b)
    case _ => None
  }

  /** A comparison and the conditional branch on it. */
  lemma TestRuns(f: L.Cfg, world: L.World, m: L.Machine, dst: nat, op: L.Opcode, a: L.Operand, b: L.Operand, tb: nat, fb: nat, x: Value, y: Value)
    requires CodeAt(f, m, TestCode(dst, op, a, b, tb, fb))
    requires L.Read(m.regs, a) == Some(x) && L.Read(m.regs, b) == Some(y) && x.width == y.width
    requires Decides(op, x.bits, y.bits).Some?
    ensures var out := L.Run(f, world, m, 2);
      out.Running? && Agree(dst, m.regs, out.state.regs)
      && Moved(m, out.state, if Decides(op, x.bits, y.bits).value then tb else fb, 0, m.memory, m.trace)
  {
    hide CodeAt, L.Run;
    var i1 := L.Compute(dst, op, a, b);
    var i2 := L.CondBr(Defined(dst, i1), tb, fb);
    assert [i1] + [i2] == [i1, i2];
    CodeAtSplit(f, m, [i1], [i2]);
    OneStep(f, world, m, i1);
    ComputeStep(f, world, m, dst, op, a, b);
    Append(f, world, m, [i1], i2);
  }

  function Counter(r: nat, s: Statement): L.Operand
    requires s.ForLoop?
  {
    Defined(r, L.Load(r, s.counter))
  }

  /** The three values a for loop looks at are in their registers. */
  ghost predicate LoopValues(f: L.Cfg, world: L.World, m: L.Machine, r: nat, s: Statement, e: Compiled, d: Compiled)
    requires s.ForLoop?
  {
    var out := L.Run(f, world, m, 1 + |e.code| + |d.code|);
    match S.Evaluate(world, VarRef(s.counter), m.memory, m.trace)
    case Failed => out == L.Fault
    case Evaluated(cv, t0) =>
      match S.Evaluate(world, s.end, m.memory, t0)
      case Failed => out == L.Fault
      case Evaluated(ev, t1) =>
        match S.Evaluate(world, s.step, m.memory, t1)
        case Failed => out == L.Fault
        case Evaluated(dv, t2) =>
          && out.Running? && Advanced(m, out.state, r, 1 + |e.code| + |d.code|, t2)
          && L.Read(out.state.regs, Counter(r, s)) == Some(cv)
          && L.Read(out.state.regs, e.result) == Some(ev)
          && L.Read(out.state.regs, d.result) == Some(dv)
  }

  lemma LoopValuesRun(f: L.Cfg, world: L.World, m: L.Machine, r: nat, s: Statement)
    requires s.ForLoop? && LowerableHeader(s)
    requires var e := CompileExpression(r + 1, s.end);
      CodeAt(f, m, [L.Load(r, s.counter)] + e.code + CompileExpression(e.next, s.step).code)
    ensures var e := CompileExpression(r + 1, s.end);
      LoopValues(f, world, m, r, s, e, CompileExpression(e.next, s.step))
  {
    hide CodeAt, L.Run, Lowerable, S.Evaluate, Agree, ComputesBoth, LoopValues, CompileExpression, ValuesExist, YieldsNothing, Formed;
    var e := CompileExpression(r + 1, s.end);
    var d := CompileExpression(e.next, s.step);
    var both := Binary(LessEqual, VarRef(s.counter), s.end);
    var code := [L.Load(r, s.counter)] + e.code;
    VarRefCode(r, s.counter);
    CompiledShape(r + 1, s.end);
    LowerableComparison(s.counter, s.end);
    CodeAtSplit(f, m, code, d.code);
    LowerableIs(both);
    LowerableIs(s.end);
    OperandsRun(f, world, m, r, both);
    assert code[..1] == [L.Load(r, s.counter)] && code[1..] == e.code;
    ThenStep(f, world, m, r, s, e, d, code);
  }

  lemma ThenStep(f: L.Cfg, world: L.World, m: L.Machine, r: nat, s: Statement, e: Compiled, d: Compiled, code: seq<L.Instr>)
    requires s.ForLoop? && Lowerable(s.step) && !YieldsNothing(s.end)
    requires e == CompileExpression(r + 1, s.end) && d == CompileExpression(e.next, s.step)
    requires r + 1 <= e.next && Below(e.next, e.result) && |code| == 1 + |e.code|
    requires CodeAt(f, m.(index := m.index + |code|), d.code)
    requires ComputesBoth(f, world, m, r, Compiled(code[..1], r + 1, Counter(r, s)), Compiled(code[1..], e.next, e.result), VarRef(s.counter), s.end)
    ensures LoopValues(f, world, m, r, s, e, d)
  {
    hide CodeAt, L.Run, Lowerable, S.Evaluate, Agree, CompileExpression;
    assert code[..1] + code[1..] == code;
    Continue(f, world, m, |code|, |d.code|);
    assert L.Run(f, world, m, 1 + |e.code| + |d.code|) == L.Run(f, world, m, |code| + |d.code|);
    match S.Evaluate(world, VarRef(s.counter), m.memory, m.trace)
    case Failed =>
    case Evaluated(cv, t0) =>
      match S.Evaluate(world, s.end, m.memory, t0)
      case Failed =>
      case Evaluated(ev, t1) =>
        var m1 := L.Run(f, world, m, |code|).state;
        CodeAtElsewhere(f, m.(index := m.index + |code|), m1, d.code);
        LowerableRuns(f, world, m1, e.next, s.step);
        match S.Evaluate(world, s.step, m.memory, t1)
        case Failed =>
        case Evaluated(dv, t2) =>
          var m2 := L.Run(f, world, m1, |d.code|).state;
          ReadAgrees(e.next, m1.regs, m2.regs, Counter(r, s));
          ReadAgrees(e.next, m1.regs, m2.regs, e.result);
          Sequence(f, world, m, r, |code|, t1, m1, e.next, |d.code|, t2, m2);
  }

  lemma VarRefCode(r: nat, x: Variable)
    ensures CompileExpression(r, VarRef(x)) == Compiled([L.Load(r, x)], r + 1, Defined(r, L.Load(r, x)))
  {
  }

  lemma LowerableComparison(x: Variable, e: Expression)
    requires Lowerable(e) && HasValues(x.typ) && ExpressionWidth(e) == WidthOf(x.typ)
    ensures Lowerable(Binary(LessEqual, VarRef(x), e)) && Lowerable(Binary(Add, VarRef(x), e))
    ensures ExpressionWidth(Binary(Add, VarRef(x), e)) == WidthOf(x.typ)
  {
    var v := VarRef(x);
    assert Lowerable(v) && ExpressionWidth(v) == WidthOf(x.typ);
    assert !ComparesOrConnects(Add);
    assert GetType(Binary(Add, v, e)) == GetType(v);
  }

  /** The registers behind `r` hold what a for loop looks at. */
  ghost predicate Holds(m: L.Machine, r: nat, s: Statement, cv: Value, ev: Value, dv: Value)
    requires s.ForLoop?
  {
    var e := CompileExpression(r + 1, s.end);
    && L.Read(m.regs, Counter(r, s)) == Some(cv) && L.Read(m.regs, e.result) == Some(ev)
    && L.Read(m.regs, CompileExpression(e.next, s.step).result) == Some(dv)
  }

  /** One of the tests, which leaves those registers alone. */
  lemma DecisionTest(f: L.Cfg, world: L.World, m: L.Machine, r: nat, s: Statement, cv: Value, ev: Value, dv: Value,
                     dst: nat, op: L.Opcode, a: L.Operand, b: L.Operand, tb: nat, fb: nat, x: Value, y: Value) returns (m1: L.Machine)
    requires s.ForLoop? && Holds(m, r, s, cv, ev, dv)
    requires var e := CompileExpression(r + 1, s.end); dst >= CompileExpression(e.next, s.step).next
    requires CodeAt(f, m, TestCode(dst, op, a, b, tb, fb))
    requires L.Read(m.regs, a) == Some(x) && L.Read(m.regs, b) == Some(y) && x.width == y.width
    requires Decides(op, x.bits, y.bits).Some?
    ensures L.Run(f, world, m, 2) == L.Running(m1) && Holds(m1, r, s, cv, ev, dv)
    ensures Moved(m, m1, if Decides(op, x.bits, y.bits).value then tb else fb, 0, m.memory, m.trace)
  {
    hide CodeAt, L.Run, CompileExpression, Agree, TestCode;
    var e := CompileExpression(r + 1, s.end);
    var d := CompileExpression(e.next, s.step);
    CompiledShape(r + 1, s.end);
    CompiledShape(e.next, s.step);
    TestRuns(f, world, m, dst, op, a, b, tb, fb, x, y);
    m1 := L.Run(f, world, m, 2).state;
    ReadAgrees(dst, m.regs, m1.regs, Counter(r, s));
    ReadAgrees(dst, m.regs, m1.regs, e.result);
    ReadAgrees(dst, m.regs, m1.regs, d.result);
  }

  /** The four blocks that decide whether a for loop goes on. */
  lemma DecisionRuns(f: Gen, world: L.World, m: L.Machine, n: nat, r: nat, s: Statement, cv: Value, ev: Value, dv: Value) returns (k: nat)
    requires s.ForLoop? && Holds(m, r, s, cv, ev, dv)
    requires var e := CompileExpression(r + 1, s.end);
      var d := CompileExpression(e.next, s.step);
      var c := CompileFor(n, r, s.counter, s.end, s.step);
      && CodeAt(f.Code(), m, TestCode(d.next, L.Sgt, d.result, Zero(s), n + 1, n + 2))
      && CodeIn(f, n + 1, 0, c.positive) && CodeIn(f, n + 2, 0, c.check) && CodeIn(f, n + 3, 0, c.negative)
    requires cv.width == ev.width && ExpressionWidth(s.step) == Some(dv.width)
    ensures k >= 1
    ensures var out := L.Run(f.Code(), world, m, k);
      out.Running? && S.GoesOn(cv, ev, dv).Some?
      && Moved(m, out.state, if S.GoesOn(cv, ev, dv).value then n + 4 else n + 5, 0, m.memory, m.trace)
  {
    hide CodeAt, CodeIn, L.Run, CompileExpression, TestCode;
    var e := CompileExpression(r + 1, s.end);
    var d := CompileExpression(e.next, s.step);
    var t := d.next;
    var zero := Value(dv.width, 0);
    var m1 := DecisionTest(f.Code(), world, m, r, s, cv, ev, dv, t, L.Sgt, d.result, Zero(s), n + 1, n + 2, dv, zero);
    k := 4;
    if dv.bits > 0 {
      InIsAt(f, m1, n + 1, 0, TestCode(t + 2, L.Sle, Counter(r, s), e.result, n + 4, n + 5));
      var _ := DecisionTest(f.Code(), world, m1, r, s, cv, ev, dv, t + 2, L.Sle, Counter(r, s), e.result, n + 4, n + 5, cv, ev);
      Continue(f.Code(), world, m, 2, 2);
    } else {
      InIsAt(f, m1, n + 2, 0, TestCode(t + 1, L.Slt, d.result, Zero(s), n + 3, n + 5));
      var m2 := DecisionTest(f.Code(), world, m1, r, s, cv, ev, dv, t + 1, L.Slt, d.result, Zero(s), n + 3, n + 5, dv, zero);
      Continue(f.Code(), world, m, 2, 2);
      if dv.bits < 0 {
        k := 6;
        InIsAt(f, m2, n + 3, 0, TestCode(t + 3, L.Sge, Counter(r, s), e.result, n + 4, n + 5));
        var _ := DecisionTest(f.Code(), world, m2, r, s, cv, ev, dv, t + 3, L.Sge, Counter(r, s), e.result, n + 4, n + 5, cv, ev);
        Continue(f.Code(), world, m, 4, 2);
      }
    }
  }

  function Zero(s: Statement): L.Operand
    requires s.ForLoop?
  {
    L.Constant(Value(WidthOrVoid(ExpressionWidth(s.step)), 0))
  }

  lemma ConditionSplits(f: Gen, m: L.Machine, n: nat, r: nat, s: Statement)
    requires s.ForLoop? && m.block == n && m.index == 0
    requires CodeIn(f, n, 0, CompileFor(n, r, s.counter, s.end, s.step).condition)
    ensures var e := CompileExpression(r + 1, s.end);
      var d := CompileExpression(e.next, s.step);
      && CodeAt(f.Code(), m, [L.Load(r, s.counter)] + e.code + d.code)
      && CodeAt(f.Code(), m.(index := 1 + |e.code| + |d.code|),
                TestCode(d.next, L.Sgt, d.result, Zero(s), n + 1, n + 2))
  {
    hide CompileExpression, CodeIn, CodeAt;
    var e := CompileExpression(r + 1, s.end);
    var d := CompileExpression(e.next, s.step);
    var c := CompileFor(n, r, s.counter, s.end, s.step).condition;
    InIsAt(f, m, n, 0, c);
    CodeAtSplit(f.Code(), m, [L.Load(r, s.counter)] + e.code + d.code,
                TestCode(d.next, L.Sgt, d.result, Zero(s), n + 1, n + 2));
  }

  ghost predicate AtTest(main: bool, f: Gen, s: S.State, m: L.Machine, g: Gen, cur: nat, loop: Statement) {
    && s.control == S.Test && s.next.Count? && loop.ForLoop?
    && s.next == CountFrame(loop, s.next.rest, s.next.next)
    && MatchBlock(main, f, g, cur, Then(loop, s.next.rest), s.next.next)
    && m.block == |g.blocks| && m.index == 0
    && m.memory == s.memory && m.trace == s.trace && MatchStack(main, f, s.gosubs, m.slots, m.sp)
    && |s.gosubs| <= L.StackSlots
  }

  lemma SimTest(main: bool, f: Gen, world: L.World, s: S.State, m: L.Machine, g: Gen, cur: nat, loop: Statement) returns (k: nat)
    requires AtTest(main, f, s, m, g, cur, loop)
    ensures SimulatesIn(main, f, world, m, S.StepTest(world, s), k)
  {
    hide MatchBlock, CodeAt, CodeIn, L.Run, S.Evaluate, MatchStack, Placed, CompileExpression, L.Execute, L.Step;
    hide MatchTest, LowerBlock, Lowerable, OpenForLoop, ForIncrement, CompileFor, LowerStatement, Agree, S.GoesOn;
    var n := |g.blocks|;
    var r := CompileExpression(g.nextReg, loop.init).next;
    var e := CompileExpression(r + 1, loop.end);
    var d := CompileExpression(e.next, loop.step);
    ForEmitted(main, f, g, cur, loop, s.next.rest, s.next.next);
    EnterFor(main, f, g, cur, loop, s.next.rest, s.next.next);
    RestPlaced(main, f, g, cur, loop, s.next.rest, s.next.next);
    ForEndsAt(main, g, cur, loop);
    ConditionSplits(f, m, n, r, loop);
    LoopValuesRun(f.Code(), world, m, r, loop);
    k := 1 + |e.code| + |d.code|;
    match S.Evaluate(world, VarRef(loop.counter), s.memory, s.trace)
    case Failed =>
    case Evaluated(cv, t0) =>
      match S.Evaluate(world, loop.end, s.memory, t0)
      case Failed =>
      case Evaluated(ev, t1) =>
        match S.Evaluate(world, loop.step, s.memory, t1)
        case Failed =>
        case Evaluated(dv, t2) =>
          var m1 := L.Run(f.Code(), world, m, k).state;
          LoopWidths(world, loop, s.memory, s.trace);
          CodeAtElsewhere(f.Code(), m.(index := k), m1, TestCode(d.next, L.Sgt, d.result, Zero(loop), n + 1, n + 2));
          var k2 := DecisionRuns(f, world, m1, n, r, loop, cv, ev, dv);
          Continue(f.Code(), world, m, k, k2);
          k := k + k2;
  }

  lemma ForEndsAt(main: bool, g: Gen, cur: nat, s: Statement)
    requires s.ForLoop?
    ensures LowerStatement(main, g, cur, s).1 == |g.blocks| + 5
  {
  }

  lemma LoopWidths(world: L.World, s: Statement, memory: L.Memory, t: L.Trace)
    requires s.ForLoop? && LowerableHeader(s)
    ensures var c := S.Evaluate(world, VarRef(s.counter), memory, t);
      c.Evaluated? ==>
        var e := S.Evaluate(world, s.end, memory, c.trace);
        e.Evaluated? ==>
          && c.value.width == e.value.width
          && var d := S.Evaluate(world, s.step, memory, e.trace);
            d.Evaluated? ==> ExpressionWidth(s.step) == Some(d.value.width)
  {
    hide S.Evaluate, Lowerable;
    var c := S.Evaluate(world, VarRef(s.counter), memory, t);
    if c.Evaluated? {
      CounterWidth(world, s.counter, memory, t);
      var e := S.Evaluate(world, s.end, memory, c.trace);
      if e.Evaluated? {
        LowerableHasWidth(world, s.end, memory, c.trace);
        if S.Evaluate(world, s.step, memory, e.trace).Evaluated? {
          LowerableHasWidth(world, s.step, memory, e.trace);
        }
      }
    }
  }

  lemma CounterWidth(world: L.World, x: Variable, memory: L.Memory, t: L.Trace)
    requires S.Evaluate(world, VarRef(x), memory, t).Evaluated?
    ensures WidthOf(x.typ) == Some(S.Evaluate(world, VarRef(x), memory, t).value.width)
  {
  }

  lemma IncrementCode(r: nat, x: Variable, step: Expression, n: nat)
    ensures var e := CompileExpression(r, Binary(Add, VarRef(x), step));
      CompileIncrement(r, x, step).code + [L.Br(n)] == e.code + [L.Store(x, e.result), L.Br(n)]
  {
    VarRefCode(r, x);
    var d := CompileExpression(r + 1, step);
    var e := CompileExpression(r, Binary(Add, VarRef(x), step));
    assert e.code == [L.Load(r, x)] + d.code + [L.Compute(d.next, L.IAdd, Defined(r, L.Load(r, x)), d.result)];
  }

  lemma SimIncrement(main: bool, f: Gen, world: L.World, s: S.State, m: L.Machine, g: Gen, cur: nat, loop: Statement) returns (n: nat)
    requires s.control == S.Statements(End) && s.next.Count? && loop.ForLoop?
    requires s.next == CountFrame(loop, s.next.rest, s.next.next)
    requires MatchBlock(main, f, g, cur, Then(loop, s.next.rest), s.next.next)
    requires EndsAt(main, OpenForLoop(g, cur, loop), |g.blocks| + 4, loop.body, m.block, m.index)
    requires m.memory == s.memory && m.trace == s.trace && MatchStack(main, f, s.gosubs, m.slots, m.sp)
    requires |s.gosubs| <= L.StackSlots
    ensures SimulatesIn(main, f, world, m, S.StepEnd(world, s), n)
  {
    hide MatchBlock, CodeAt, CodeIn, L.Run, S.Evaluate, MatchStack, Placed, CompileExpression, L.Execute, L.Step;
    hide MatchTest, LowerBlock, Lowerable, OpenForLoop, ForEntry, CompileFor, LowerStatement, InstrAt, CompileIncrement, LowerableBlock;
    hide ExpressionWidth, WidthOf;
    var c := |g.blocks|;
    var (g1, le) := LowerBlock(main, OpenForLoop(g, cur, loop), c + 4, loop.body);
    var inc := |g1.blocks|;
    ForEmitted(main, f, g, cur, loop, s.next.rest, s.next.next);
    MatchTestHere(main, f, g, cur, loop, s.next.rest, s.next.next);
    InstrRuns(f, world, m, L.Br(inc));
    BrStep(f, world, m, inc);
    var m1 := m.(block := inc, index := 0);
    var sum := Binary(Add, VarRef(loop.counter), loop.step);
    var e := CompileExpression(g1.nextReg, sum);
    IncrementCode(g1.nextReg, loop.counter, loop.step, c);
    LowerableComparison(loop.counter, loop.step);
    InIsAt(f, m1, inc, 0, e.code + [L.Store(loop.counter, e.result), L.Br(c)]);
    StoreThenBranch(f.Code(), world, m1, g1.nextReg, loop.counter, sum, c);
    Continue(f.Code(), world, m, 1, |e.code| + 2);
    n := 1 + (|e.code| + 2);
  }

  /** The end of a block: what happens next is up to the continuation. */
  lemma SimEnd(main: bool, f: Gen, world: L.World, s: S.State, m: L.Machine) returns (n: nat)
    requires s.control == S.Statements(End) && MatchNext(main, f, s.next, m.block, m.index)
    requires m.memory == s.memory && m.trace == s.trace && MatchStack(main, f, s.gosubs, m.slots, m.sp)
    requires |s.gosubs| <= L.StackSlots
    ensures SimulatesIn(main, f, world, m, S.StepEnd(world, s), n)
  {
    hide MatchBlock, L.Run, S.Evaluate, MatchStack, Placed, L.Execute, L.Step, SimulatesIn, EndsAt, InstrAt;
    match s.next
    case Return =>
      n := 1;
      SimHalt(main, f, world, s, m);
    case Sequel(rest, next) =>
      n := 1;
      var c: nat :| InstrAt(f, m.block, m.index, L.Br(c)) && Placed(main, f, c, 0, rest, next);
      SimJump(main, f, world, s, m, c, rest, next);
    case Iterate(loop, body, rest, next) =>
      n := 1;
      var g: Gen, cur: nat :|
        && MatchBlock(main, f, g, cur, Then(InfiniteLoop(loop, body), rest), next)
        && EndsAt(main, OpenLoop(g, loop), |g.blocks|, body, m.block, m.index);
      EnterLoop(main, f, g, cur, InfiniteLoop(loop, body), rest, next);
      InsertionPoint(main, f, g, cur, Then(InfiniteLoop(loop, body), rest), next);
      LoopEmitted(main, f, g, cur, InfiniteLoop(loop, body), rest, next, m.block, m.index);
      SimJump(main, f, world, s, m, |g.blocks|, body, s.next);
      assert s.(control := S.Statements(body), next := s.next) == s.(control := S.Statements(body));
    case Count(loop, counter, end, step, body, rest, next) =>
      var g: Gen, cur: nat, init: Expression :|
        && MatchBlock(main, f, g, cur, Then(ForLoop(loop, counter, init, end, step, body), rest), next)
        && EndsAt(main, OpenFor(g, cur, loop, counter, init, end, step), |g.blocks| + 4, body, m.block, m.index);
      n := SimIncrement(main, f, world, s, m, g, cur, ForLoop(loop, counter, init, end, step, body));
  }

  lemma InsertionPoint(main: bool, f: Gen, g: Gen, cur: nat, block: Block, k: S.Continuation)
    requires MatchBlock(main, f, g, cur, block, k)
    ensures cur < |g.blocks|
  {
  }

  lemma SimHalt(main: bool, f: Gen, world: L.World, s: S.State, m: L.Machine)
    requires InstrAt(f, m.block, m.index, L.RetVoid) && m.memory == s.memory && m.trace == s.trace
    ensures SimulatesIn(main, f, world, m, L.Halted(None, s.memory, s.trace), 1)
  {
    hide L.Run, L.Execute, InstrAt;
    InstrRuns(f, world, m, L.RetVoid);
    RetVoidStep(f, world, m);
  }

  /** Every step of the program is simulated by its code. */
  lemma SimStep(main: bool, f: Gen, p: S.Program, world: L.World, s: S.State, m: L.Machine) returns (n: nat)
    requires Finished(main, f, p) && MatchState(main, f, s, m)
    ensures SimulatesIn(main, f, world, m, S.Step(p, world, s), n)
  {
    hide MatchBlock, SimulatesIn, Finished, MatchStack, S.StepEnd, S.StepTest, S.StepStatement;
    StackBound(main, f, s, m);
    match s.control
    case Test =>
      var k := s.next;
      var g: Gen, cur: nat, init: Expression :|
        && MatchBlock(main, f, g, cur, Then(ForLoop(k.loop, k.counter, init, k.end, k.step, k.body), k.rest), k.next)
        && m.block == |g.blocks|;
      n := SimTest(main, f, world, s, m, g, cur, ForLoop(k.loop, k.counter, init, k.end, k.step, k.body));
    case Statements(block) =>
      var g: Gen :| MatchBlock(main, f, g, m.block, block, s.next) && m.block < |g.blocks| && m.index == |g.blocks[m.block]|;
      match block {
        case End =>
          EndHere(main, f, g, m.block, m.index, s.next);
          n := SimEnd(main, f, world, s, m);
        case Then(head, rest) => n := SimStatement(main, f, p, world, s, m, g, m.block, head, rest);
      }
  }

  lemma StackBound(main: bool, f: Gen, s: S.State, m: L.Machine)
    requires MatchState(main, f, s, m)
    ensures |s.gosubs| <= L.StackSlots
  {
  }

  lemma EndHere(main: bool, f: Gen, g: Gen, b: nat, i: nat, k: S.Continuation)
    requires MatchBlock(main, f, g, b, End, k) && b < |g.blocks| && i == |g.blocks[b]|
    ensures MatchNext(main, f, k, b, i)
  {
    hide Ready, MatchExits, MatchNext;
  }

  lemma SimStatement(main: bool, f: Gen, p: S.Program, world: L.World, s: S.State, m: L.Machine, g: Gen, cur: nat,
                     head: Statement, rest: Block) returns (n: nat)
    requires Finished(main, f, p) && AtStatement(main, f, s, m, g, cur, head, rest)
    ensures SimulatesIn(main, f, world, m, S.StepStatement(p, world, s, head, rest), n)
  {
    hide SimulatesIn, AtStatement, S.StepStatement;
    match head
    case Label(l) => n := SimLabel(main, f, p, world, s, m, g, cur, l, rest);
    case Goto(l) => n := SimGoto(main, f, p, world, s, m, g, cur, l, rest);
    case Gosub(l) => n := SimGosub(main, f, p, world, s, m, g, cur, l, rest);
    case SubReturn => n := SimReturn(main, f, p, world, s, m, g, cur, rest);
    case Conditional(_, _, _) => n := SimConditional(main, f, p, world, s, m, g, cur, head, rest);
    case InfiniteLoop(_, _) => n := SimLoop(main, f, p, world, s, m, g, cur, head, rest);
    case ForLoop(_, _, _, _, _, _) => n := SimFor(main, f, p, world, s, m, g, cur, head, rest);
    case Exit(loop) => n := SimExit(main, f, p, world, s, m, g, cur, loop, rest);
    case Assignment(x, e) => n := SimAssignment(main, f, p, world, s, m, g, cur, x, e, rest);
    case FunctionCall(callee, arguments, ret) => n := SimCall(main, f, p, world, s, m, g, cur, callee, arguments, ret, rest);
    case ExitFunction(e) => n := SimExitFunction(main, f, p, world, s, m, g, cur, e, rest);
    case GuardedLoop(_, _, _, _) =>
      n := 0;
      Context(main, f, s, m, g, cur, head, rest);
      assert false;
    case Missing =>
      n := 0;
      Context(main, f, s, m, g, cur, head, rest);
      assert false;
  }
}
