/** When the instructions emitted are well-typed: exactly when no value of a user function is
    used and all calls are complete. Nothing before LLVM checks either. */
module Typing {
  import opened Words
  import opened Ir
  import opened L = Llvm
  import opened Lowering
  import opened LoweringFrames
  import opened ExpressionLowering
  import opened Matching
  import opened MatchingLemmas
  import opened BlockStructure
  import S = Semantics

  predicate CodeTyped(code: seq<Instr>) {
    forall k | 0 <= k < |code| :: WellTyped(code[k])
  }

  predicate AllTyped(g: Gen) {
    forall b | 0 <= b < |g.blocks| :: CodeTyped(g.blocks[b])
  }

  lemma TypedConcat(a: seq<Instr>, b: seq<Instr>)
    ensures CodeTyped(a + b) <==> CodeTyped(a) && CodeTyped(b)
  {
    hide WellTyped;
    if CodeTyped(a + b) {
      assert forall k | 0 <= k < |a| :: a[k] == (a + b)[k];
      assert forall k | 0 <= k < |b| :: b[k] == (a + b)[|a| + k];
    }
  }

  lemma TypedOne(i: Instr)
    ensures CodeTyped([i]) <==> WellTyped(i)
  {
    assert [i][0] == i;
  }

  lemma TypedAppend(code: seq<Instr>, i: Instr)
    ensures CodeTyped(code + [i]) <==> CodeTyped(code) && WellTyped(i)
  {
    hide CodeTyped, WellTyped;
    TypedConcat(code, [i]);
    TypedOne(i);
  }

  lemma TypedNothing()
    ensures CodeTyped([])
  {
  }

  // Expressions.

  /** The width of what the code of an expression leaves. */
  function WidthLeft(e: Expression): Width {
    if YieldsNothing(e) then W0 else WidthOrVoid(ExpressionWidth(e))
  }

  predicate FitsAll(os: seq<Operand>, params: seq<Option<Type>>) {
    |os| == |params| && forall k :: 0 <= k < |os| ==> Fits(os[k], params[k])
  }

  lemma {:induction false} ExpressionTyped(n: nat, e: Expression)
    requires Formed(e)
    ensures CodeTyped(CompileExpression(n, e).code) <==> ValuesExist(e) && CallsComplete(e)
    ensures ValuesExist(e) ==> OperandWidth(CompileExpression(n, e).result) == WidthLeft(e)
    decreases e, 0
  {
    hide CodeTyped;
    match e
    case Cast(inner, target) =>
      var c := CompileExpression(n, inner);
      ExpressionTyped(n, inner);
      TypedAppend(c.code, IntCast(c.next, c.result, WidthOrVoid(WidthOf(target))));
    case Unary(_, operand) =>
      var c := CompileExpression(n, operand);
      ExpressionTyped(n, operand);
      TypedAppend(c.code, L.Neg(c.next, c.result));
    case Binary(_, _, _) => BinaryTyped(n, e);
    case VarRef(v) => TypedOne(Load(n, v));
    case Literal(_, _) => TypedNothing();
    case Call(callee, arguments, ret) => CallTyped(n, callee, arguments);
  }

  lemma {:induction false} BinaryTyped(n: nat, e: Expression)
    requires e.Binary? && Formed(e)
    ensures CodeTyped(CompileExpression(n, e).code) <==> ValuesExist(e) && CallsComplete(e)
    ensures ValuesExist(e) ==> OperandWidth(CompileExpression(n, e).result) == WidthLeft(e)
    decreases e, -1
  {
    hide CodeTyped, OpcodeOf;
    var l := CompileExpression(n, e.left);
    var r := CompileExpression(l.next, e.right);
    var i := BinaryInstr(e.bop, r.next, l.result, r.result);
    ExpressionTyped(n, e.left);
    ExpressionTyped(l.next, e.right);
    TypedConcat(l.code, r.code);
    TypedAppend(l.code + r.code, i);
    OpcodeCompares(e.bop);
  }

  lemma OpcodeCompares(op: BinaryOp)
    requires op != Pow && op != LogicalXor
    ensures L.Compares(OpcodeOf(op)) ==> ComparesOrConnects(op)
    ensures ComparesOrConnects(op) ==> L.Compares(OpcodeOf(op)) || op == LogicalOr || op == LogicalAnd
  {
  }

  lemma {:induction false} CallTyped(n: nat, callee: Callee, arguments: Arguments)
    requires FormedAll(arguments)
    ensures CodeTyped(CompileCall(n, callee, arguments).code) <==> AllValuesExist(arguments) && CallComplete(callee, arguments)
    decreases arguments, 1
  {
    hide CodeTyped;
    var c := CompileArguments(n, arguments);
    ArgumentsTyped(n, arguments, callee.params);
    TypedAppend(c.code, L.Call(c.next, callee, c.results));
  }

  lemma {:induction false} ArgumentsTyped(n: nat, arguments: Arguments, params: seq<Option<Type>>)
    requires FormedAll(arguments)
    ensures var c := CompileArguments(n, arguments);
      (CodeTyped(c.code) && FitsAll(c.results, params))
      <==> (AllValuesExist(arguments) && AllCallsComplete(arguments) && Accepts(params, arguments))
    decreases arguments, 0
  {
    hide CodeTyped, FitsAll;
    match arguments
    case NoArguments =>
      TypedNothing();
      FitsNone(params);
    case Argument(first, rest) =>
      var c := CompileExpression(n, first);
      var cs := CompileArguments(c.next, rest);
      ExpressionTyped(n, first);
      TypedConcat(c.code, cs.code);
      FitsCons(c.result, cs.results, params);
      if params != [] {
        ArgumentsTyped(c.next, rest, params[1..]);
      }
  }

  lemma FitsNone(params: seq<Option<Type>>)
    ensures FitsAll([], params) <==> params == []
  {
  }

  lemma FitsCons(o: Operand, os: seq<Operand>, params: seq<Option<Type>>)
    ensures FitsAll([o] + os, params) <==> params != [] && Fits(o, params[0]) && FitsAll(os, params[1..])
  {
    hide Fits;
    if FitsAll([o] + os, params) {
      assert ([o] + os)[0] == o;
      assert forall k | 0 <= k < |os| :: ([o] + os)[k + 1] == os[k] && params[1..][k] == params[k + 1];
    }
  }

  // The state of the generator.

  lemma TypedEmit(g: Gen, b: nat, code: seq<Instr>)
    requires b < |g.blocks|
    ensures AllTyped(Emit(g, b, code)) <==> AllTyped(g) && CodeTyped(code)
  {
    hide CodeTyped;
    var h := Emit(g, b, code);
    TypedConcat(g.blocks[b], code);
    if AllTyped(h) {
      assert CodeTyped(h.blocks[b]);
      assert forall k | 0 <= k < |g.blocks| && k != b :: h.blocks[k] == g.blocks[k];
    }
  }

  /** Registers and tables do not matter, nor do new empty blocks. */
  lemma TypedAlike(g: Gen, h: Gen)
    requires h.blocks == g.blocks || h.blocks == g.blocks + [[]]
    ensures AllTyped(h) <==> AllTyped(g)
  {
    hide CodeTyped;
    TypedNothing();
    if AllTyped(h) {
      assert forall k | 0 <= k < |g.blocks| :: h.blocks[k] == g.blocks[k];
    }
  }

  lemma TypedCode(g: Gen, b: nat, code: seq<Instr>, next: nat)
    requires b < |g.blocks|
    ensures AllTyped(EmitCode(g, b, code, next)) <==> AllTyped(g) && CodeTyped(code)
  {
    hide AllTyped, CodeTyped;
    TypedEmit(g, b, code);
    TypedAlike(Emit(g, b, code), EmitCode(g, b, code, next));
  }

  lemma TypedBr(g: Gen, b: nat, target: nat)
    requires b < |g.blocks|
    ensures AllTyped(Emit(g, b, [Br(target)])) <==> AllTyped(g)
  {
    hide AllTyped;
    TypedEmit(g, b, [Br(target)]);
  }

  /** A stored value, also the first one of a counter. */
  lemma TypedStore(g: Gen, cur: nat, x: Variable, e: Expression)
    requires cur < |g.blocks| && Formed(e) && HasValues(x.typ) && ExpressionWidth(e) == WidthOf(x.typ)
    ensures AllTyped(LowerStore(g, cur, x, e)) <==> AllTyped(g) && ValueExists(e) && CallsComplete(e)
  {
    hide AllTyped, CodeTyped, CompileExpression;
    var c := CompileExpression(g.nextReg, e);
    ExpressionTyped(g.nextReg, e);
    TypedAppend(c.code, Store(x, c.result));
    TypedCode(g, cur, c.code + [Store(x, c.result)], c.next);
  }

  lemma TypedJump(g: Gen, cur: nat, l: nat, target: nat)
    requires cur < |g.blocks|
    ensures AllTyped(LowerJump(g, cur, target).0) <==> AllTyped(g)
    ensures AllTyped(AddLabel(g, l)) <==> AllTyped(g)
  {
    hide AllTyped;
    TypedBr(g, cur, target);
    TypedAlike(Emit(g, cur, [Br(target)]), NewBlock(Emit(g, cur, [Br(target)])));
    TypedAlike(g, AddLabel(g, l));
  }

  lemma TypedGosub(g: Gen, cur: nat, l: nat)
    requires cur < |g.blocks|
    ensures AllTyped(LowerGosub(g, cur, l)) <==> AllTyped(g)
  {
    hide AllTyped, AddToEach;
    var g1 := AddLabel(g, l);
    var c := |g1.blocks|;
    var g2 := AddReturnPoint(NewBlock(g1), c);
    TypedAlike(g, g1);
    TypedAlike(g1, g2);
    TypedEmit(g2, cur, [PushReturn(c), Br(LabelBlock(g, l))]);
  }

  lemma TypedReturn(g: Gen, cur: nat)
    requires cur < |g.blocks|
    ensures AllTyped(LowerReturn(g, cur).0) <==> AllTyped(g)
  {
    hide AllTyped;
    var r := g.nextReg;
    var code := [PopReturn(r), IndirectBr(Defined(r, PopReturn(r)), |g.destinations|)];
    TypedCode(g, cur, code, r + 1);
    var g1 := EmitCode(g, cur, code, r + 1);
    TypedAlike(g1, NewBlock(AddIndirectBr(g1)));
  }

  lemma TypedEnd(g: Gen, cur: nat)
    requires cur < |g.blocks|
    ensures AllTyped(NewBlock(Emit(g, cur, [RetVoid]))) <==> AllTyped(g)
  {
    hide AllTyped;
    TypedEmit(g, cur, [RetVoid]);
    TypedAlike(Emit(g, cur, [RetVoid]), NewBlock(Emit(g, cur, [RetVoid])));
  }

  lemma TypedRet(g: Gen, cur: nat, e: Expression)
    requires cur < |g.blocks| && Formed(e) && IsValue(e)
    ensures var c := CompileExpression(g.nextReg, e);
      AllTyped(EmitCode(g, cur, c.code + [Ret(c.result)], c.next)) <==> AllTyped(g) && ValueExists(e) && CallsComplete(e)
  {
    hide AllTyped, CodeTyped, CompileExpression;
    var c := CompileExpression(g.nextReg, e);
    ExpressionTyped(g.nextReg, e);
    TypedAppend(c.code, Ret(c.result));
    TypedCode(g, cur, c.code + [Ret(c.result)], c.next);
  }

  /** The statements without others inside. */
  lemma SimpleTyped(main: bool, g: Gen, cur: nat, s: Statement, loops: set<nat>)
    requires !s.Conditional? && !s.InfiniteLoop? && !s.ForLoop?
    requires cur < |g.blocks| && FormedStatement(s, loops)
    ensures AllTyped(LowerStatement(main, g, cur, s).0) <==> AllTyped(g) && ValuesExistIn(main, s) && CallsCompleteIn(main, s)
  {
    hide AllTyped, CompileExpression, CompileCall, LowerStore, LowerGosub, LowerReturn;
    match s
    case Label(l) =>
      var g1 := AddLabel(g, l).(placed := AddLabel(g, l).placed + [LabelBlock(g, l)]);
      TypedAlike(g, g1);
      TypedBr(g1, cur, LabelBlock(g, l));
    case Goto(l) =>
      TypedJump(g, cur, l, 0);
      TypedJump(AddLabel(g, l), cur, l, LabelBlock(g, l));
    case Gosub(l) => TypedGosub(g, cur, l);
    case SubReturn => TypedReturn(g, cur);
    case Exit(loop) =>
      if loop in g.exits {
        TypedJump(g, cur, 0, g.exits[loop]);
      }
    case Assignment(x, e) => TypedStore(g, cur, x, e);
    case FunctionCall(callee, arguments, _) =>
      if S.EndsProgram(main, callee) {
        TypedEnd(g, cur);
      } else {
        var c := CompileCall(g.nextReg, callee, arguments);
        CallTyped(g.nextReg, callee, arguments);
        TypedCode(g, cur, c.code, c.next);
      }
    case ExitFunction(e) => TypedRet(g, cur, e);
  }

  lemma {:induction false} StatementTyped(main: bool, g: Gen, cur: nat, s: Statement, loops: set<nat>)
    requires Valid(g) && cur < |g.blocks| && FormedStatement(s, loops)
    ensures AllTyped(LowerStatement(main, g, cur, s).0) <==> AllTyped(g) && ValuesExistIn(main, s) && CallsCompleteIn(main, s)
    decreases s, 1
  {
    hide AllTyped, LowerStatement;
    match s
    case Conditional(_, _, _) => ConditionalTyped(main, g, cur, s, loops);
    case InfiniteLoop(_, _) => LoopTyped(main, g, cur, s, loops);
    case ForLoop(_, _, _, _, _, _) => ForTyped(main, g, cur, s, loops);
    case _ => SimpleTyped(main, g, cur, s, loops);
  }

  lemma {:induction false} BlockTyped(main: bool, g: Gen, cur: nat, block: Block, loops: set<nat>)
    requires Valid(g) && cur < |g.blocks| && FormedBlock(block, loops)
    ensures AllTyped(LowerBlock(main, g, cur, block).0)
      <==> AllTyped(g) && ValuesExistInBlock(main, block) && CallsCompleteInBlock(main, block)
    decreases block, 3
  {
    hide AllTyped, Valid, Frame, Owns, Extends, LowerStatement, FormedStatement, ValuesExistIn, CallsCompleteIn;
    match block
    case End =>
    case Then(s, rest) =>
      var (h, c) := LowerStatement(main, g, cur, s);
      StatementTyped(main, g, cur, s, loops);
      FrameStatement(main, g, cur, s);
      FrameFacts(g, h, cur, LabelsIn(s), LoopsIn(s), c);
      BlockTyped(main, h, c, rest, loops);
  }

  lemma {:induction false} ConditionalTyped(main: bool, g: Gen, cur: nat, s: Statement, loops: set<nat>)
    requires s.Conditional? && Valid(g) && cur < |g.blocks| && FormedStatement(s, loops)
    ensures AllTyped(LowerStatement(main, g, cur, s).0) <==> AllTyped(g) && ValuesExistIn(main, s) && CallsCompleteIn(main, s)
    decreases s, 0
  {
    hide AllTyped, Valid, LowerBlock, CompileExpression, CloseConditional, Formed, ValueExists, CallsComplete;
    var x := LowerBranches(main, g, s);
    ConditionalEnd(main, g, cur, s);
    BranchEnds(main, g, cur, s);
    TypedAlike(g, NewBlock(g));
    BlockTyped(main, NewBlock(g), |g.blocks|, s.trueBranch, loops);
    TypedAlike(x.g1, NewBlock(x.g1));
    BlockTyped(main, NewBlock(x.g1), |x.g1.blocks|, s.falseBranch, loops);
    CloseTyped(x.g2, cur, s.condition, |g.blocks|, x.te, |x.g1.blocks|, x.fe);
  }

  lemma CloseTyped(g: Gen, cur: nat, c: Expression, tb: nat, te: nat, fb: nat, fe: nat)
    requires cur < |g.blocks| && te < |g.blocks| && fe < |g.blocks| && Formed(c) && ExpressionWidth(c) == Some(W1)
    ensures AllTyped(CloseConditional(g, cur, c, tb, te, fb, fe)) <==> AllTyped(g) && ValueExists(c) && CallsComplete(c)
  {
    hide AllTyped, CodeTyped, CompileExpression;
    var k := CompileExpression(g.nextReg, c);
    var i := CondBr(k.result, tb, fb);
    ExpressionTyped(g.nextReg, c);
    TypedAppend(k.code, i);
    TypedAlike(g, NewBlock(g));
    TypedCode(NewBlock(g), cur, k.code + [i], k.next);
    var g1 := EmitCode(NewBlock(g), cur, k.code + [i], k.next);
    TypedBr(g1, te, |g.blocks|);
    TypedBr(Emit(g1, te, [Br(|g.blocks|)]), fe, |g.blocks|);
  }

  lemma {:induction false} LoopTyped(main: bool, g: Gen, cur: nat, s: Statement, loops: set<nat>)
    requires s.InfiniteLoop? && Valid(g) && cur < |g.blocks| && FormedStatement(s, loops)
    ensures AllTyped(LowerStatement(main, g, cur, s).0) <==> AllTyped(g) && ValuesExistIn(main, s) && CallsCompleteIn(main, s)
    decreases s, 0
  {
    hide AllTyped, Valid, Extends, LowerBlock, MoveAfter;
    var lb := |g.blocks|;
    var g0 := OpenLoop(g, s.loop);
    var (g1, le) := LowerBlock(main, g0, lb, s.body);
    LoopGrows(main, g, cur, s);
    TypedAlike(g, NewBlock(g));
    TypedAlike(NewBlock(g), g0);
    BlockTyped(main, g0, lb, s.body, loops + {s.loop});
    MoveKeepsBlocks(g1, lb + 1, le);
    var h0 := MoveAfter(g1, lb + 1, le);
    TypedAlike(g1, h0);
    TypedBr(h0, cur, lb);
    TypedBr(Emit(h0, cur, [Br(lb)]), le, lb);
  }

  // For loops.

  /** The expressions of a for loop. */
  predicate FormedHeader(s: Statement)
    requires s.ForLoop?
  {
    && HasValues(s.counter.typ)
    && Formed(s.init) && ExpressionWidth(s.init) == WidthOf(s.counter.typ)
    && Formed(s.end) && ExpressionWidth(s.end) == WidthOf(s.counter.typ)
    && Formed(s.step) && ExpressionWidth(s.step) == WidthOf(s.counter.typ)
  }

  predicate UsableHeader(s: Statement)
    requires s.ForLoop?
  {
    && ValueExists(s.init) && ValueExists(s.end) && ValueExists(s.step)
    && CallsComplete(s.init) && CallsComplete(s.end) && CallsComplete(s.step)
  }

  lemma TestTyped(r: nat, op: Opcode, a: Operand, b: Operand, ifTrue: nat, ifFalse: nat)
    requires L.Compares(op)
    ensures CodeTyped(TestCode(r, op, a, b, ifTrue, ifFalse)) <==> HoldsValue(a) && OperandWidth(a) == OperandWidth(b)
  {
    var code := TestCode(r, op, a, b, ifTrue, ifFalse);
    assert WellTyped(code[1]);
    if CodeTyped(code) {
      assert WellTyped(code[0]);
    }
  }

  lemma ForCodeTyped(n: nat, r: nat, s: Statement)
    requires s.ForLoop? && FormedHeader(s)
    ensures var c := CompileFor(n, r, s.counter, s.end, s.step);
      (CodeTyped(c.condition) && CodeTyped(c.positive) && CodeTyped(c.check) && CodeTyped(c.negative))
      <==> (ValueExists(s.end) && ValueExists(s.step) && CallsComplete(s.end) && CallsComplete(s.step))
  {
    hide CodeTyped, CompileExpression, TestCode;
    var e := CompileExpression(r + 1, s.end);
    var d := CompileExpression(e.next, s.step);
    var zero := Constant(Value(WidthOrVoid(ExpressionWidth(s.step)), 0));
    var load := Load(r, s.counter);
    var c, t := Defined(r, load), d.next;
    ExpressionTyped(r + 1, s.end);
    ExpressionTyped(e.next, s.step);
    TypedOne(load);
    TypedConcat([load], e.code);
    TypedConcat([load] + e.code, d.code);
    TypedConcat([load] + e.code + d.code, TestCode(t, Sgt, d.result, zero, n + 1, n + 2));
    TestTyped(t, Sgt, d.result, zero, n + 1, n + 2);
    TestTyped(t + 2, Sle, c, e.result, n + 4, n + 5);
    TestTyped(t + 1, Slt, d.result, zero, n + 3, n + 5);
    TestTyped(t + 3, Sge, c, e.result, n + 4, n + 5);
  }

  lemma OpenForTyped(g: Gen, cur: nat, s: Statement)
    requires s.ForLoop? && cur < |g.blocks| && FormedHeader(s)
    ensures AllTyped(OpenForLoop(g, cur, s)) <==> AllTyped(g) && UsableHeader(s)
  {
    hide AllTyped, CodeTyped, CompileExpression, CompileFor, LowerStore, Formed, ValueExists, CallsComplete;
    var n := |g.blocks|;
    var g1 := LowerStore(g, cur, s.counter, s.init);
    StoreKeepsCount(g, cur, s.counter, s.init);
    TypedStore(g, cur, s.counter, s.init);
    var g2 := NewSixBlocks(g1).(exits := g1.exits[s.loop := n + 5]);
    TypedSix(g1, g2);
    TypedBr(g2, cur, n);
    var g3 := Emit(g2, cur, [Br(n)]);
    var c := CompileFor(n, g3.nextReg, s.counter, s.end, s.step);
    ForCodeTyped(n, g3.nextReg, s);
    TypedEmit(g3, n, c.condition);
    var g4 := Emit(g3, n, c.condition);
    TypedEmit(g4, n + 2, c.check);
    var g5 := Emit(g4, n + 2, c.check);
    TypedEmit(g5, n + 1, c.positive);
    var g6 := Emit(g5, n + 1, c.positive);
    TypedCode(g6, n + 3, c.negative, c.next);
  }

  lemma StoreKeepsCount(g: Gen, cur: nat, x: Variable, e: Expression)
    ensures |LowerStore(g, cur, x, e).blocks| == |g.blocks|
  {
  }

  lemma TypedSix(g: Gen, h: Gen)
    requires h.blocks == g.blocks + [[], [], [], [], [], []]
    ensures AllTyped(h) <==> AllTyped(g)
  {
    hide CodeTyped;
    TypedNothing();
    if AllTyped(h) {
      assert forall k | 0 <= k < |g.blocks| :: h.blocks[k] == g.blocks[k];
    }
  }

  lemma IncrementTyped(r: nat, s: Statement)
    requires s.ForLoop? && FormedHeader(s)
    ensures CodeTyped(CompileIncrement(r, s.counter, s.step).code) <==> ValueExists(s.step) && CallsComplete(s.step)
  {
    hide CodeTyped, CompileExpression;
    var d := CompileExpression(r + 1, s.step);
    var load := Load(r, s.counter);
    var sum := Compute(d.next, IAdd, Defined(r, load), d.result);
    var store := Store(s.counter, Defined(d.next, sum));
    ExpressionTyped(r + 1, s.step);
    TypedOne(load);
    TypedConcat([load], d.code);
    TypedAppend([load] + d.code, sum);
    TypedAppend([load] + d.code + [sum], store);
    assert [load] + d.code + [sum, store] == [load] + d.code + [sum] + [store];
  }

  lemma CloseForTyped(g: Gen, s: Statement, n: nat, le: nat)
    requires s.ForLoop? && le < |g.blocks| && FormedHeader(s)
    ensures AllTyped(CloseFor(g, s.counter, s.step, n, le)) <==> AllTyped(g) && ValueExists(s.step) && CallsComplete(s.step)
  {
    hide AllTyped, CodeTyped, CompileIncrement, Formed, ValueExists, CallsComplete;
    var inc := |g.blocks|;
    TypedAlike(g, NewBlock(g));
    TypedBr(NewBlock(g), le, inc);
    var g1 := Emit(NewBlock(g), le, [Br(inc)]);
    var c := CompileIncrement(g1.nextReg, s.counter, s.step);
    IncrementTyped(g1.nextReg, s);
    TypedAppend(c.code, Br(n));
    TypedCode(g1, inc, c.code + [Br(n)], c.next);
  }

  lemma {:induction false} ForTyped(main: bool, g: Gen, cur: nat, s: Statement, loops: set<nat>)
    requires s.ForLoop? && Valid(g) && cur < |g.blocks| && FormedStatement(s, loops)
    ensures AllTyped(LowerStatement(main, g, cur, s).0) <==> AllTyped(g) && ValuesExistIn(main, s) && CallsCompleteIn(main, s)
    decreases s, 0
  {
    hide AllTyped, Valid, Extends, LowerBlock, OpenFor, CloseFor, Formed, ValueExists, CallsComplete;
    var n := |g.blocks|;
    var g0 := OpenForLoop(g, cur, s);
    var (g1, le) := LowerBlock(main, g0, n + 4, s.body);
    ForGrows(main, g, cur, s);
    OpenForTyped(g, cur, s);
    BlockTyped(main, g0, n + 4, s.body, loops + {s.loop});
    CloseForTyped(g1, s, n, le);
  }

  // The whole function.

  lemma {:induction false} PrologueTyped(variables: seq<Variable>)
    requires Integral(variables)
    ensures CodeTyped(Prologue(variables))
  {
    if variables != [] {
      PrologueTyped(variables[1..]);
    }
  }

  lemma EntryTyped(variables: seq<Variable>)
    requires Integral(variables)
    ensures AllTyped(Entry(variables))
  {
    hide AllTyped, CodeTyped, Prologue;
    PrologueTyped(variables);
    TypedOne(ResetStack);
    TypedConcat([ResetStack], Prologue(variables));
    EmptyTyped();
    TypedAlike(Empty, NewBlock(Empty));
    TypedEmit(NewBlock(Empty), 0, [ResetStack] + Prologue(variables));
  }

  lemma EmptyTyped()
    ensures AllTyped(Empty)
  {
  }

  /** Every instruction of a function is well-typed exactly when its body uses no value of a user
      function and its calls are complete. */
  lemma FunctionTypedExactly(main: bool, variables: seq<Variable>, body: Block)
    requires FormedBlock(body, {}) && Integral(variables)
    ensures AllTyped(LowerFunction(main, variables, body)) <==> ValuesExistInBlock(main, body) && CallsCompleteInBlock(main, body)
  {
    hide AllTyped, Valid, Frame, Owns, Extends, LowerBlock, FormedBlock, ValuesExistInBlock, CallsCompleteInBlock, Entry, Integral;
    var g := Entry(variables);
    var (h, last) := LowerBlock(main, g, 0, body);
    EntryFacts(variables);
    EntryTyped(variables);
    BlockTyped(main, g, 0, body, {});
    FrameBlock(main, g, 0, body);
    FrameFacts(g, h, 0, LabelsOf(body), LoopsOf(body), last);
    TypedEmit(h, last, [RetVoid]);
    TypedOne(RetVoid);
  }
}
