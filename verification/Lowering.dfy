/** What the code generator builds, as functions on its state: the blocks of the function
    under construction and the tables that connect labels, loops and gosubs to them. */
module Lowering {
  import opened Words
  import opened Ir
  import opened L = Llvm

  datatype Gen = Gen(
    blocks: seq<seq<Instr>>,     // every block created so far
    placed: seq<nat>,            // the blocks inserted into the function, in order
    exits: map<nat, nat>,        // loop -> block after it
    labels: map<nat, nat>,       // label -> its block
    returnPoints: seq<nat>,      // the blocks that gosubs return to
    destinations: seq<seq<nat>>, // for each indirect branch, its destinations
    nextReg: nat)
  {
    function Code(): Cfg { Cfg(blocks, destinations) }
  }

  const Empty := Gen([], [], map[], map[], [], [], 0)

  // Building blocks of the state.

  function Emit(g: Gen, b: nat, code: seq<Instr>): Gen {
    if b < |g.blocks| then g.(blocks := g.blocks[b := g.blocks[b] + code]) else g
  }

  /** A block created with the function as its parent; its number is |g.blocks|. */
  function NewBlock(g: Gen): Gen {
    g.(blocks := g.blocks + [[]], placed := g.placed + [|g.blocks|])
  }

  function LabelBlock(g: Gen, l: nat): nat {
    if l in g.labels then g.labels[l] else |g.blocks|
  }

  /** The block of a label is created at its first mention, outside the function. */
  function AddLabel(g: Gen, l: nat): Gen {
    if l in g.labels then g else g.(blocks := g.blocks + [[]], labels := g.labels[l := |g.blocks|])
  }

  function AddToEach(ds: seq<seq<nat>>, b: nat): seq<seq<nat>> {
    if ds == [] then [] else [ds[0] + [b]] + AddToEach(ds[1..], b)
  }

  function AddReturnPoint(g: Gen, b: nat): Gen {
    g.(returnPoints := g.returnPoints + [b], destinations := AddToEach(g.destinations, b))
  }

  function AddIndirectBr(g: Gen): Gen {
    g.(destinations := g.destinations + [g.returnPoints])
  }

  function Remove(s: seq<nat>, b: nat): seq<nat> {
    if s == [] then [] else if s[0] == b then s[1..] else [s[0]] + Remove(s[1..], b)
  }

  function InsertAfter(s: seq<nat>, b: nat, after: nat): seq<nat> {
    if s == [] then [b] else if s[0] == after then [after, b] + s[1..] else [s[0]] + InsertAfter(s[1..], b, after)
  }

  function MoveAfter(g: Gen, b: nat, after: nat): Gen {
    g.(placed := InsertAfter(Remove(g.placed, b), b, after))
  }

  // Expressions: straight-line code, the first free register afterwards and the result.

  datatype Compiled = Compiled(code: seq<Instr>, next: nat, result: Operand)
  datatype CompiledAll = CompiledAll(code: seq<Instr>, next: nat, results: seq<Operand>)

  function OpcodeOf(op: BinaryOp): Opcode {
    match op
    case Add => IAdd
    case Sub => ISub
    case Mul => IMul
    case Div => SDiv
    case Mod => SRem
    case ShiftLeft => Shl
    case ShiftRight => AShr
    case BitwiseOr => IOr
    case BitwiseAnd => IAnd
    case BitwiseXor => IXor
    case LessThan => Slt
    case LessEqual => Sle
    case GreaterThan => Sgt
    case GreaterEqual => Sge
    case Equal => Eq
    case NotEqual => Ne
    case LogicalOr => IOr
    case LogicalAnd => IAnd
    case LogicalXor => IXor
    case Pow => IMul         // never emitted: there is no code for this operator
    case BitwiseNot => IXor  // never emitted: it becomes a Not instruction
  }

  /** The value that an instruction defines. */
  function Defined(n: nat, i: Instr): Operand {
    Register(n, ResultWidth(i))
  }

  /** Code followed by one more instruction, whose value is the result. */
  function WithResult(code: seq<Instr>, n: nat, i: Instr): Compiled {
    Compiled(code + [i], n + 1, Defined(n, i))
  }

  function CompileExpression(n: nat, e: Expression): Compiled
    decreases e, 0
  {
    match e
    case Cast(inner, target) =>
      var c := CompileExpression(n, inner);
      if ExpressionWidth(inner) == WidthOf(target) then c
      else WithResult(c.code, c.next, IntCast(c.next, c.result, WidthOrVoid(WidthOf(target))))
    case Unary(op, operand) =>
      var c := CompileExpression(n, operand);
      WithResult(c.code, c.next, L.Neg(c.next, c.result))
    case Binary(op, left, right) =>
      var l := CompileExpression(n, left);
      var r := CompileExpression(l.next, right);
      var i := if op == BitwiseNot then L.Not(r.next, l.result) else Compute(r.next, OpcodeOf(op), l.result, r.result);
      WithResult(l.code + r.code, r.next, i)
    case VarRef(v) => Compiled([Load(n, v)], n + 1, Defined(n, Load(n, v)))
    case Literal(b, k) =>
      var w := WidthOrVoid(WidthOf(Builtin(b)));
      Compiled([], n, Constant(Value(w, Wrap(w, k))))
    case Call(callee, arguments, _) => CompileCall(n, callee, arguments)
  }

  function CompileCall(n: nat, callee: Callee, arguments: Arguments): Compiled
    decreases arguments, 1
  {
    var c := CompileArguments(n, arguments);
    WithResult(c.code, c.next, L.Call(c.next, callee, c.results))
  }

  function CompileArguments(n: nat, arguments: Arguments): CompiledAll
    decreases arguments, 0
  {
    match arguments
    case NoArguments => CompiledAll([], n, [])
    case Argument(first, rest) =>
      var c := CompileExpression(n, first);
      var cs := CompileArguments(c.next, rest);
      CompiledAll(c.code + cs.code, cs.next, [c.result] + cs.results)
  }

  function EmitCode(g: Gen, b: nat, code: seq<Instr>, next: nat): Gen {
    Emit(g, b, code).(nextReg := next)
  }

  // Statements. `cur` is the insertion block; the result pairs the state with the new one.

  function LowerStatement(isMain: bool, g: Gen, cur: nat, s: Statement): (Gen, nat)
    decreases s, 0
  {
    match s
    case Label(l) => (PlaceLabel(g, cur, l), LabelBlock(g, l))
    case Goto(l) => LowerJump(AddLabel(g, l), cur, LabelBlock(g, l))
    case Gosub(l) => (LowerGosub(g, cur, l), |AddLabel(g, l).blocks|)
    case SubReturn => LowerReturn(g, cur)
    case Conditional(c, t, f) =>
      var tb := |g.blocks|;
      var (g1, te) := LowerBlock(isMain, NewBlock(g), tb, t);
      var fb := |g1.blocks|;
      var (g2, fe) := LowerBlock(isMain, NewBlock(g1), fb, f);
      (CloseConditional(g2, cur, c, tb, te, fb, fe), |g2.blocks|)
    case InfiniteLoop(loop, body) =>
      var lb := |g.blocks|;
      var (g1, le) := LowerBlock(isMain, OpenLoop(g, loop), lb, body);
      (CloseLoop(g1, cur, lb, le), lb + 1)
    case ForLoop(loop, counter, init, end, step, body) =>
      var n := |g.blocks|;
      var (g1, le) := LowerBlock(isMain, OpenFor(g, cur, loop, counter, init, end, step), n + 4, body);
      (CloseFor(g1, counter, step, n, le), n + 5)
    case Exit(loop) =>
      if loop in g.exits then LowerJump(g, cur, g.exits[loop]) else (g, cur)
    case Assignment(x, e) => (LowerStore(g, cur, x, e), cur)
    case FunctionCall(callee, arguments, _) =>
      if isMain && callee.Command? && callee.dbSymbol == "end"
      then (NewBlock(Emit(g, cur, [RetVoid])), |g.blocks|)
      else (LowerCall(g, cur, callee, arguments), cur)
    case ExitFunction(e) =>
      var c := CompileExpression(g.nextReg, e);
      (EmitCode(g, cur, c.code + [Ret(c.result)], c.next), cur)
    case GuardedLoop(_, _, _, _) => (g, cur)
    case Missing => (g, cur)
  }

  function LowerBlock(isMain: bool, g: Gen, cur: nat, block: Block): (Gen, nat)
    decreases block, 0
  {
    match block
    case End => (g, cur)
    case Then(head, tail) =>
      var (g1, c1) := LowerStatement(isMain, g, cur, head);
      LowerBlock(isMain, g1, c1, tail)
  }

  function PlaceLabel(g: Gen, cur: nat, l: nat): Gen {
    var b := LabelBlock(g, l);
    var g1 := AddLabel(g, l);
    Emit(g1.(placed := g1.placed + [b]), cur, [Br(b)])
  }

  /** A branch, then a fresh block for the unreachable statements after it. */
  function LowerJump(g: Gen, cur: nat, target: nat): (Gen, nat) {
    (NewBlock(Emit(g, cur, [Br(target)])), |g.blocks|)
  }

  function LowerGosub(g: Gen, cur: nat, l: nat): Gen {
    var g1 := AddLabel(g, l);
    var c := |g1.blocks|;
    Emit(AddReturnPoint(NewBlock(g1), c), cur, [PushReturn(c), Br(LabelBlock(g, l))])
  }

  function LowerReturn(g: Gen, cur: nat): (Gen, nat) {
    var r := g.nextReg;
    var g1 := EmitCode(g, cur, [PopReturn(r), IndirectBr(Defined(r, PopReturn(r)), |g.destinations|)], r + 1);
    (NewBlock(AddIndirectBr(g1)), |g.blocks|)
  }

  function CloseConditional(g: Gen, cur: nat, c: Expression, tb: nat, te: nat, fb: nat, fe: nat): Gen {
    var k := CompileExpression(g.nextReg, c);
    var g1 := EmitCode(NewBlock(g), cur, k.code + [CondBr(k.result, tb, fb)], k.next);
    Emit(Emit(g1, te, [Br(|g.blocks|)]), fe, [Br(|g.blocks|)])
  }

  function OpenLoop(g: Gen, loop: nat): Gen {
    NewBlock(NewBlock(g)).(exits := g.exits[loop := |g.blocks| + 1])
  }

  function CloseLoop(g: Gen, cur: nat, lb: nat, le: nat): Gen {
    Emit(Emit(MoveAfter(g, lb + 1, le), cur, [Br(lb)]), le, [Br(lb)])
  }

  function LowerStore(g: Gen, cur: nat, x: Variable, e: Expression): Gen {
    var c := CompileExpression(g.nextReg, e);
    EmitCode(g, cur, c.code + [Store(x, c.result)], c.next)
  }

  function LowerCall(g: Gen, cur: nat, callee: Callee, arguments: Arguments): Gen {
    var c := CompileCall(g.nextReg, callee, arguments);
    EmitCode(g, cur, c.code, c.next)
  }

  // A for loop takes six blocks before its body is generated: n is the condition, n+1 the
  // test for a positive step, n+2 decides between n+3, the test for a negative step, and
  // the end, n+4 is the body and n+5 the end.

  function NewSixBlocks(g: Gen): Gen {
    var n := |g.blocks|;
    g.(blocks := g.blocks + [[], [], [], [], [], []], placed := g.placed + [n, n + 1, n + 2, n + 3, n + 4, n + 5])
  }

  datatype ForCode = ForCode(
    condition: seq<Instr>, positive: seq<Instr>, check: seq<Instr>, negative: seq<Instr>, next: nat)

  function CompileFor(n: nat, r: nat, counter: Variable, end: Expression, step: Expression): ForCode {
    var e := CompileExpression(r + 1, end);
    var s := CompileExpression(e.next, step);
    var zero := Constant(Value(WidthOrVoid(ExpressionWidth(step)), 0));
    var c, t := Defined(r, Load(r, counter)), s.next;
    ForCode(
      [Load(r, counter)] + e.code + s.code + TestCode(t, Sgt, s.result, zero, n + 1, n + 2),
      TestCode(t + 2, Sle, c, e.result, n + 4, n + 5),
      TestCode(t + 1, Slt, s.result, zero, n + 3, n + 5),
      TestCode(t + 3, Sge, c, e.result, n + 4, n + 5),
      t + 4)
  }

  /** A comparison and the branch on its outcome. */
  function TestCode(r: nat, op: Opcode, a: Operand, b: Operand, ifTrue: nat, ifFalse: nat): seq<Instr> {
    [Compute(r, op, a, b), CondBr(Defined(r, Compute(r, op, a, b)), ifTrue, ifFalse)]
  }

  function OpenFor(g: Gen, cur: nat, loop: nat, counter: Variable, init: Expression, end: Expression, step: Expression): Gen {
    var n := |g.blocks|;
    var g1 := LowerStore(g, cur, counter, init);
    var g2 := Emit(NewSixBlocks(g1).(exits := g1.exits[loop := n + 5]), cur, [Br(n)]);
    var c := CompileFor(n, g2.nextReg, counter, end, step);
    Emit(Emit(Emit(Emit(g2, n, c.condition), n + 2, c.check), n + 1, c.positive), n + 3, c.negative).(nextReg := c.next)
  }

  function CompileIncrement(r: nat, counter: Variable, step: Expression): Compiled {
    var s := CompileExpression(r + 1, step);
    var sum := Compute(s.next, IAdd, Defined(r, Load(r, counter)), s.result);
    Compiled([Load(r, counter)] + s.code + [sum, Store(counter, Defined(s.next, sum))], s.next + 1, Defined(s.next, sum))
  }

  function CloseFor(g: Gen, counter: Variable, step: Expression, n: nat, le: nat): Gen {
    var inc := |g.blocks|;
    var g1 := Emit(NewBlock(g), le, [Br(inc)]);
    var c := CompileIncrement(g1.nextReg, counter, step);
    EmitCode(g1, inc, c.code + [Br(n)], c.next)
  }

  // The whole function.

  function Prologue(variables: seq<Variable>): seq<Instr> {
    if variables == [] then []
    else
      var v := variables[0];
      var w := WidthOrVoid(WidthOf(v.typ));
      [Alloca(v), Store(v, Constant(Value(w, 0)))] + Prologue(variables[1..])
  }

  predicate Integral(variables: seq<Variable>) {
    forall i | 0 <= i < |variables| :: HasValues(variables[i].typ)
  }

  function Entry(variables: seq<Variable>): Gen {
    Emit(NewBlock(Empty), 0, [ResetStack] + Prologue(variables))
  }

  function LowerFunction(isMain: bool, variables: seq<Variable>, body: Block): Gen {
    var (g, last) := LowerBlock(isMain, Entry(variables), 0, body);
    if EndsWithTerminator(g, last) then g else Emit(g, last, [RetVoid])
  }

  predicate EndsWithTerminator(g: Gen, b: nat) {
    b < |g.blocks| && g.blocks[b] != [] && g.blocks[b][|g.blocks[b]| - 1].IsTerminator()
  }
}
