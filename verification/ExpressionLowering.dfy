/** The code of an expression computes the value of the expression, and nothing else. */
module ExpressionLowering {
  import opened Words
  import opened Ir
  import L = Llvm
  import S = Semantics
  import opened Lowering

  /** The expressions there is code for: integral types only, operands of one type, and
      Boolean operands for the logical connectives. */
  predicate Formed(e: Expression)
    decreases e, 0
  {
    match e
    case Cast(inner, target) => Formed(inner) && IsValue(inner) && HasValues(target)
    case Unary(op, operand) => op == Negate && Formed(operand) && IsValue(operand)
    case Binary(op, left, right) =>
      && Formed(left) && Formed(right)
      && IsValue(left) && ExpressionWidth(left) == ExpressionWidth(right)
      && op != Pow && op != LogicalXor
      && (op == LogicalOr || op == LogicalAnd ==> ExpressionWidth(left) == Some(W1))
    case VarRef(v) => HasValues(v.typ)
    case Literal(b, _) => WidthOf(Builtin(b)).Some?
    case Call(callee, arguments, ret) => FormedAll(arguments) && Returns(callee, ret)
  }

  predicate FormedAll(arguments: Arguments)
    decreases arguments, 0
  {
    match arguments
    case NoArguments => true
    case Argument(first, rest) => Formed(first) && IsValue(first) && FormedAll(rest)
  }

  /** A call of a command is of the type that the command returns. */
  predicate Returns(callee: Callee, ret: Type) {
    WidthOf(ret).Some? && (callee.Command? ==> ret == callee.result)
  }

  // The generator makes all user functions void, so a call of one has a value in the source but
  // none in the code.

  /** The code of the expression has no value. A cast between types of equal width has no code. */
  predicate YieldsNothing(e: Expression) {
    match e
    case Cast(inner, target) => ExpressionWidth(inner) == WidthOf(target) && YieldsNothing(inner)
    case Call(callee, _, _) => callee.UserFunction?
    case _ => false
  }

  /** Every value that is used exists. The right operand of a bitwise-not is not used. */
  predicate ValuesExist(e: Expression)
    decreases e, 0
  {
    match e
    case Cast(inner, target) => ValuesExist(inner) && (ExpressionWidth(inner) == WidthOf(target) || !YieldsNothing(inner))
    case Unary(_, operand) => ValuesExist(operand) && !YieldsNothing(operand)
    case Binary(op, left, right) =>
      && ValuesExist(left) && !YieldsNothing(left)
      && ValuesExist(right) && (op == BitwiseNot || !YieldsNothing(right))
    case Call(_, arguments, _) => AllValuesExist(arguments)
    case _ => true
  }

  predicate AllValuesExist(arguments: Arguments)
    decreases arguments, 0
  {
    match arguments
    case NoArguments => true
    case Argument(first, rest) => ValuesExist(first) && !YieldsNothing(first) && AllValuesExist(rest)
  }

  /** An expression whose value is used. */
  predicate ValueExists(e: Expression) {
    ValuesExist(e) && !YieldsNothing(e)
  }

  /** Every call has an argument of its width for each parameter. */
  predicate CallsComplete(e: Expression)
    decreases e, 0
  {
    match e
    case Cast(inner, _) => CallsComplete(inner)
    case Unary(_, operand) => CallsComplete(operand)
    case Binary(_, left, right) => CallsComplete(left) && CallsComplete(right)
    case Call(callee, arguments, _) => CallComplete(callee, arguments)
    case _ => true
  }

  predicate CallComplete(callee: Callee, arguments: Arguments)
    decreases arguments, 1
  {
    Accepts(callee.params, arguments) && AllCallsComplete(arguments)
  }

  predicate AllCallsComplete(arguments: Arguments)
    decreases arguments, 0
  {
    match arguments
    case NoArguments => true
    case Argument(first, rest) => CallsComplete(first) && AllCallsComplete(rest)
  }

  predicate Accepts(params: seq<Option<Type>>, arguments: Arguments) {
    match arguments
    case NoArguments => params == []
    case Argument(first, rest) =>
      && params != [] && params[0].Some? && HasValues(params[0].value)
      && ExpressionWidth(first) == WidthOf(params[0].value) && Accepts(params[1..], rest)
  }

  /** The expressions whose code is valid and computes their value. */
  predicate Lowerable(e: Expression) {
    Formed(e) && ValueExists(e) && CallsComplete(e)
  }

  predicate LowerableAll(arguments: Arguments) {
    FormedAll(arguments) && AllValuesExist(arguments) && AllCallsComplete(arguments)
  }

  /** Values have the width of the static type of their expression. */
  lemma {:induction false} ValueHasStaticWidth(world: L.World, e: Expression, memory: L.Memory, trace: L.Trace)
    requires Formed(e)
    requires S.Evaluate(world, e, memory, trace).Evaluated?
    ensures ExpressionWidth(e) == Some(S.Evaluate(world, e, memory, trace).value.width)
    decreases e, 1
  {
    match e
    case Cast(inner, target) => ValueHasStaticWidth(world, inner, memory, trace);
    case Unary(op, operand) => ValueHasStaticWidth(world, operand, memory, trace);
    case Binary(op, left, right) => hide S.Apply; ValueOfBinary(world, e, memory, trace);
    case _ =>
  }

  lemma {:induction false} ValueOfBinary(world: L.World, e: Expression, memory: L.Memory, trace: L.Trace)
    requires e.Binary? && Formed(e)
    requires S.Evaluate(world, e, memory, trace).Evaluated?
    ensures ExpressionWidth(e) == Some(S.Evaluate(world, e, memory, trace).value.width)
    decreases e, 0
  {
    hide S.Apply;
    ValueHasStaticWidth(world, e.left, memory, trace);
    var l := S.Evaluate(world, e.left, memory, trace);
    ApplyWidth(e.bop, l.value, S.Evaluate(world, e.right, memory, l.trace).value);
  }

  lemma ApplyWidth(op: BinaryOp, x: Value, y: Value)
    requires S.Apply(op, x, y).Some?
    requires op == LogicalOr || op == LogicalAnd ==> x.width == W1
    ensures S.Apply(op, x, y).value.width == if ComparesOrConnects(op) then W1 else x.width
  {
  }

  // Registers below `n` keep their values.
  ghost predicate Agree(n: nat, a: map<nat, Value>, b: map<nat, Value>) {
    forall r: nat | r < n :: (r in a <==> r in b) && (r in a ==> a[r] == b[r])
  }

  predicate Below(n: nat, o: L.Operand) {
    o.Register? ==> o.id < n
  }

  predicate AllBelow(n: nat, os: seq<L.Operand>) {
    forall i | 0 <= i < |os| :: Below(n, os[i])
  }

  lemma {:induction false} CompiledShape(n: nat, e: Expression)
    ensures var c := CompileExpression(n, e); n <= c.next && Below(c.next, c.result)
    decreases e, 0
  {
    match e
    case Cast(inner, target) => CompiledShape(n, inner);
    case Unary(op, operand) => CompiledShape(n, operand);
    case Binary(op, left, right) =>
      CompiledShape(n, left);
      CompiledShape(CompileExpression(n, left).next, right);
    case Call(callee, arguments, ret) => CompiledAllShape(n, arguments);
    case _ =>
  }

  lemma {:induction false} CompiledAllShape(n: nat, arguments: Arguments)
    ensures var c := CompileArguments(n, arguments); n <= c.next && AllBelow(c.next, c.results)
    decreases arguments, 0
  {
    match arguments
    case NoArguments =>
    case Argument(first, rest) =>
      CompiledShape(n, first);
      CompiledAllShape(CompileExpression(n, first).next, rest);
  }

  lemma ReadAgrees(n: nat, a: map<nat, Value>, b: map<nat, Value>, o: L.Operand)
    requires Agree(n, a, b) && Below(n, o)
    ensures L.Read(a, o) == L.Read(b, o)
  {
  }

  lemma {:induction false} ReadAllAgrees(n: nat, a: map<nat, Value>, b: map<nat, Value>, os: seq<L.Operand>)
    requires Agree(n, a, b) && AllBelow(n, os)
    ensures L.ReadAll(a, os) == L.ReadAll(b, os)
  {
    if os != [] {
      assert Below(n, os[0]);
      ReadAgrees(n, a, b, os[0]);
      assert AllBelow(n, os[1..]) by {
        forall i | 0 <= i < |os[1..]| ensures Below(n, os[1..][i]) { assert os[1..][i] == os[i + 1]; }
      }
      ReadAllAgrees(n, a, b, os[1..]);
    }
  }

  /** `code` is what comes next in the block `m` is in. */
  ghost predicate CodeAt(f: L.Cfg, m: L.Machine, code: seq<L.Instr>) {
    && m.block < |f.blocks|
    && m.index + |code| <= |f.blocks[m.block]|
    && f.blocks[m.block][m.index..m.index + |code|] == code
  }

  lemma CodeAtSplit(f: L.Cfg, m: L.Machine, c1: seq<L.Instr>, c2: seq<L.Instr>)
    requires CodeAt(f, m, c1 + c2)
    ensures CodeAt(f, m, c1)
    ensures CodeAt(f, m.(index := m.index + |c1|), c2)
  {
    var b := f.blocks[m.block];
    assert b[m.index..m.index + |c1|] == (c1 + c2)[..|c1|] == c1 by {
      assert b[m.index..m.index + |c1|] == b[m.index..m.index + |c1 + c2|][..|c1|];
    }
    assert b[m.index + |c1|..m.index + |c1| + |c2|] == (c1 + c2)[|c1|..] == c2 by {
      assert b[m.index + |c1|..m.index + |c1| + |c2|] == b[m.index..m.index + |c1 + c2|][|c1|..];
    }
  }

  lemma CodeAtElsewhere(f: L.Cfg, m: L.Machine, m1: L.Machine, code: seq<L.Instr>)
    requires CodeAt(f, m, code) && m1.block == m.block && m1.index == m.index
    ensures CodeAt(f, m1, code)
  {
  }

  lemma OneStep(f: L.Cfg, world: L.World, m: L.Machine, i: L.Instr)
    requires CodeAt(f, m, [i])
    ensures L.Run(f, world, m, 1) == L.Execute(f, world, m, i)
  {
    assert f.blocks[m.block][m.index] == f.blocks[m.block][m.index..m.index + 1][0] == i;
    assert L.Step(f, world, m) == L.Execute(f, world, m, i);
    match L.Step(f, world, m)
    case Running(m1) => assert L.Run(f, world, m1, 0) == L.Running(m1);
    case _ =>
  }

  /** `m1` is `m` after `count` straight-line instructions that changed only registers from
      `n` on and made calls up to `trace`. */
  ghost predicate Advanced(m: L.Machine, m1: L.Machine, n: nat, count: nat, trace: L.Trace) {
    && m1 == m.(index := m.index + count, regs := m1.regs, trace := trace)
    && Agree(n, m.regs, m1.regs)
  }

  ghost predicate Computes(f: L.Cfg, world: L.World, m: L.Machine, n: nat, c: Compiled, r: S.Evaluation) {
    var out := L.Run(f, world, m, |c.code|);
    match r
    case Failed => out == L.Fault
    case Evaluated(v, t) =>
      out.Running? && Advanced(m, out.state, n, |c.code|, t) && L.Read(out.state.regs, c.result) == Some(v)
  }

  ghost predicate ComputesAll(f: L.Cfg, world: L.World, m: L.Machine, n: nat, c: CompiledAll, r: S.Evaluations) {
    var out := L.Run(f, world, m, |c.code|);
    match r
    case AllFailed => out == L.Fault
    case AllEvaluated(vs, t) =>
      out.Running? && Advanced(m, out.state, n, |c.code|, t) && L.ReadAll(out.state.regs, c.results) == Some(vs)
  }

  lemma Continue(f: L.Cfg, world: L.World, m: L.Machine, a: nat, b: nat)
    ensures var out := L.Run(f, world, m, a);
      L.Run(f, world, m, a + b) == if out.Running? then L.Run(f, world, out.state, b) else out
  {
    match L.Run(f, world, m, a)
    case Running(m1) => L.RunAdds(f, world, m, a, m1, b);
    case _ => L.RunStays(f, world, m, a, a + b);
  }

  /** Adding one computing instruction to the code of the operands. */
  lemma Append(f: L.Cfg, world: L.World, m: L.Machine, code: seq<L.Instr>, i: L.Instr)
    requires CodeAt(f, m, code + [i])
    requires var out := L.Run(f, world, m, |code|);
      out.Running? ==> out.state.block == m.block && out.state.index == m.index + |code|
    ensures var out := L.Run(f, world, m, |code|);
      L.Run(f, world, m, |code| + 1) == if out.Running? then L.Execute(f, world, out.state, i) else out
  {
    hide CodeAt, L.Run, L.Execute;
    Continue(f, world, m, |code|, 1);
    CodeAtSplit(f, m, code, [i]);
    var out := L.Run(f, world, m, |code|);
    if out.Running? {
      CodeAtElsewhere(f, m.(index := m.index + |code|), out.state, [i]);
      OneStep(f, world, out.state, i);
    }
  }

  lemma NegStep(f: L.Cfg, world: L.World, m: L.Machine, dst: nat, a: L.Operand, v: Value)
    requires L.Read(m.regs, a) == Some(v)
    ensures L.Execute(f, world, m, L.Neg(dst, a)) == L.Write(m, dst, Some(L.NegValue(v)))
  {
  }

  lemma NotStep(f: L.Cfg, world: L.World, m: L.Machine, dst: nat, a: L.Operand, v: Value)
    requires L.Read(m.regs, a) == Some(v)
    ensures L.Execute(f, world, m, L.Not(dst, a)) == L.Write(m, dst, Some(L.NotValue(v)))
  {
  }

  lemma CastStep(f: L.Cfg, world: L.World, m: L.Machine, dst: nat, a: L.Operand, w: Width, v: Value)
    requires L.Read(m.regs, a) == Some(v)
    ensures L.Execute(f, world, m, L.IntCast(dst, a, w)) == L.Write(m, dst, Some(L.CastValue(w, v)))
  {
  }

  lemma ComputeStep(f: L.Cfg, world: L.World, m: L.Machine, dst: nat, op: L.Opcode, a: L.Operand, b: L.Operand)
    ensures L.Execute(f, world, m, L.Compute(dst, op, a, b))
         == L.Write(m, dst, L.ComputeValue(op, L.Read(m.regs, a), L.Read(m.regs, b)))
  {
  }

  lemma CallStep(f: L.Cfg, world: L.World, m: L.Machine, dst: nat, callee: Callee, os: seq<L.Operand>, vs: seq<Value>)
    requires L.ReadAll(m.regs, os) == Some(vs)
    ensures L.Execute(f, world, m, L.Call(dst, callee, os))
         == L.Write(m.(trace := m.trace + [L.Event(callee, vs)]), dst, Some(L.CallValue(world, m.trace, callee, vs)))
  {
  }

  /** The last instruction writes its result to a fresh register. */
  lemma Finish(f: L.Cfg, world: L.World, m: L.Machine, n: nat, code: seq<L.Instr>, i: L.Instr, dst: nat, v: Value, t0: L.Trace, t: L.Trace)
    requires var out := L.Run(f, world, m, |code|);
      out.Running? && Advanced(m, out.state, n, |code|, t0)
      && L.Run(f, world, m, |code| + 1) == L.Write(out.state.(trace := t), dst, Some(v))
    requires n <= dst
    ensures var out := L.Run(f, world, m, |code + [i]|);
      out.Running? && Advanced(m, out.state, n, |code + [i]|, t)
      && L.Read(out.state.regs, Defined(dst, i)) == Some(v)
  {
    hide L.Run;
    assert |code + [i]| == |code| + 1;
  }

  predicate Divides(op: BinaryOp) {
    op in {Div, Mod}
  }

  predicate Shifts(op: BinaryOp) {
    op in {ShiftLeft, ShiftRight}
  }

  predicate WorksOnBits(op: BinaryOp) {
    op in {BitwiseOr, BitwiseAnd, BitwiseXor, LogicalOr, LogicalAnd, LogicalXor}
  }

  lemma ApplyIsCompute(op: BinaryOp, x: Value, y: Value)
    requires op != Pow && op != BitwiseNot
    ensures S.Apply(op, x, y) == L.ComputeValue(OpcodeOf(op), Some(x), Some(y))
  {
    hide Wrap, InRange, TruncDiv, Pow2, Bitwise, Truth;
    if Divides(op) {
      DivisionIsCompute(op, x, y);
    } else if Shifts(op) {
      ShiftIsCompute(op, x, y);
    } else if WorksOnBits(op) {
      BitsAreComputed(op, x, y);
    } else {
      SumOrOrderIsCompute(op, x, y);
    }
  }

  lemma DivisionIsCompute(op: BinaryOp, x: Value, y: Value)
    requires Divides(op)
    ensures S.Apply(op, x, y) == L.ComputeValue(OpcodeOf(op), Some(x), Some(y))
  {
    hide Wrap, InRange, TruncDiv;
  }

  lemma ShiftIsCompute(op: BinaryOp, x: Value, y: Value)
    requires Shifts(op)
    ensures S.Apply(op, x, y) == L.ComputeValue(OpcodeOf(op), Some(x), Some(y))
  {
    hide Wrap, Pow2;
  }

  lemma BitsAreComputed(op: BinaryOp, x: Value, y: Value)
    requires WorksOnBits(op)
    ensures S.Apply(op, x, y) == L.ComputeValue(OpcodeOf(op), Some(x), Some(y))
  {
    hide Wrap, Bitwise;
  }

  lemma SumOrOrderIsCompute(op: BinaryOp, x: Value, y: Value)
    requires op != Pow && op != BitwiseNot && !Divides(op) && !Shifts(op) && !WorksOnBits(op)
    ensures S.Apply(op, x, y) == L.ComputeValue(OpcodeOf(op), Some(x), Some(y))
  {
    hide Wrap, Truth;
  }

  /** Two pieces of straight-line code, one after the other. */
  lemma Sequence(f: L.Cfg, world: L.World, m: L.Machine, n: nat, count1: nat, t1: L.Trace, m1: L.Machine,
                 n2: nat, count2: nat, t2: L.Trace, m2: L.Machine)
    requires L.Run(f, world, m, count1) == L.Running(m1) && Advanced(m, m1, n, count1, t1)
    requires L.Run(f, world, m1, count2) == L.Running(m2) && Advanced(m1, m2, n2, count2, t2)
    requires n <= n2
    ensures L.Run(f, world, m, count1 + count2) == L.Running(m2) && Advanced(m, m2, n, count1 + count2, t2)
  {
    Continue(f, world, m, count1, count2);
  }

  /** The same without the value. */
  ghost predicate Proceeds(f: L.Cfg, world: L.World, m: L.Machine, n: nat, c: Compiled, r: S.Evaluation) {
    var out := L.Run(f, world, m, |c.code|);
    match r
    case Failed => out == L.Fault
    case Evaluated(_, t) => out.Running? && Advanced(m, out.state, n, |c.code|, t)
  }

  /** The code of an expression makes its calls and, if its value exists, computes it. */
  lemma {:induction false} ExpressionRuns(f: L.Cfg, world: L.World, m: L.Machine, n: nat, e: Expression)
    requires Formed(e) && ValuesExist(e) && CodeAt(f, m, CompileExpression(n, e).code)
    ensures Proceeds(f, world, m, n, CompileExpression(n, e), S.Evaluate(world, e, m.memory, m.trace))
    ensures !YieldsNothing(e) ==> Computes(f, world, m, n, CompileExpression(n, e), S.Evaluate(world, e, m.memory, m.trace))
    decreases e, 1
  {
    match e
    case Cast(inner, target) => CastRuns(f, world, m, n, e);
    case Unary(op, operand) => UnaryRuns(f, world, m, n, e);
    case Binary(op, left, right) => BinaryRuns(f, world, m, n, e);
    case VarRef(v) => hide CodeAt; OneStep(f, world, m, L.Load(n, v));
    case Literal(b, k) =>
    case Call(callee, arguments, ret) => CallRuns(f, world, m, n, callee, arguments, ret);
  }

  lemma LowerableIs(e: Expression)
    requires Lowerable(e)
    ensures Formed(e) && ValuesExist(e) && !YieldsNothing(e)
  {
  }

  lemma LowerableRuns(f: L.Cfg, world: L.World, m: L.Machine, n: nat, e: Expression)
    requires Lowerable(e) && CodeAt(f, m, CompileExpression(n, e).code)
    ensures Computes(f, world, m, n, CompileExpression(n, e), S.Evaluate(world, e, m.memory, m.trace))
  {
    ExpressionRuns(f, world, m, n, e);
  }

  lemma LowerableHasWidth(world: L.World, e: Expression, memory: L.Memory, trace: L.Trace)
    requires Lowerable(e) && S.Evaluate(world, e, memory, trace).Evaluated?
    ensures ExpressionWidth(e) == Some(S.Evaluate(world, e, memory, trace).value.width)
  {
    ValueHasStaticWidth(world, e, memory, trace);
  }

  lemma {:induction false} UnaryRuns(f: L.Cfg, world: L.World, m: L.Machine, n: nat, e: Expression)
    requires e.Unary? && Formed(e) && ValuesExist(e) && CodeAt(f, m, CompileExpression(n, e).code)
    ensures Computes(f, world, m, n, CompileExpression(n, e), S.Evaluate(world, e, m.memory, m.trace))
    decreases e, 0
  {
    hide CodeAt, L.Run, L.Execute, Agree;
    var c := CompileExpression(n, e.operand);
    CompiledShape(n, e.operand);
    var i := L.Neg(c.next, c.result);
    CodeAtSplit(f, m, c.code, [i]);
    ExpressionRuns(f, world, m, n, e.operand);
    Append(f, world, m, c.code, i);
    match S.Evaluate(world, e.operand, m.memory, m.trace)
    case Failed =>
    case Evaluated(v, t) =>
      NegStep(f, world, L.Run(f, world, m, |c.code|).state, c.next, c.result, v);
      Finish(f, world, m, n, c.code, i, c.next, L.NegValue(v), t, t);
  }

  lemma {:induction false} CastRuns(f: L.Cfg, world: L.World, m: L.Machine, n: nat, e: Expression)
    requires e.Cast? && Formed(e) && ValuesExist(e) && CodeAt(f, m, CompileExpression(n, e).code)
    ensures Proceeds(f, world, m, n, CompileExpression(n, e), S.Evaluate(world, e, m.memory, m.trace))
    ensures !YieldsNothing(e) ==> Computes(f, world, m, n, CompileExpression(n, e), S.Evaluate(world, e, m.memory, m.trace))
    decreases e, 0
  {
    hide CodeAt, L.Run, L.Execute, Agree;
    var c := CompileExpression(n, e.inner);
    var w := WidthOf(e.target).value;
    CompiledShape(n, e.inner);
    if S.Evaluate(world, e.inner, m.memory, m.trace).Evaluated? {
      ValueHasStaticWidth(world, e.inner, m.memory, m.trace);
    }
    if ExpressionWidth(e.inner) == Some(w) {
      ExpressionRuns(f, world, m, n, e.inner);
    } else {
      var i := L.IntCast(c.next, c.result, w);
      CodeAtSplit(f, m, c.code, [i]);
      ExpressionRuns(f, world, m, n, e.inner);
      Append(f, world, m, c.code, i);
      match S.Evaluate(world, e.inner, m.memory, m.trace)
      case Failed =>
      case Evaluated(v, t) =>
        CastStep(f, world, L.Run(f, world, m, |c.code|).state, c.next, c.result, w, v);
        Finish(f, world, m, n, c.code, i, c.next, L.CastValue(w, v), t, t);
    }
  }

  /** The operands leave their values in their registers, the left one first. */
  ghost predicate ComputesBoth(f: L.Cfg, world: L.World, m: L.Machine, n: nat, l: Compiled, r: Compiled, left: Expression, right: Expression) {
    var out := L.Run(f, world, m, |l.code + r.code|);
    match S.Evaluate(world, left, m.memory, m.trace)
    case Failed => out == L.Fault
    case Evaluated(x, t1) =>
      match S.Evaluate(world, right, m.memory, t1)
      case Failed => out == L.Fault
      case Evaluated(y, t2) =>
        && out.Running? && Advanced(m, out.state, n, |l.code + r.code|, t2)
        && L.Read(out.state.regs, l.result) == Some(x)
        && (!YieldsNothing(right) ==> L.Read(out.state.regs, r.result) == Some(y))
  }

  lemma {:induction false} OperandsRun(f: L.Cfg, world: L.World, m: L.Machine, n: nat, e: Expression)
    requires e.Binary? && Formed(e) && ValuesExist(e)
    requires var l := CompileExpression(n, e.left); CodeAt(f, m, l.code + CompileExpression(l.next, e.right).code)
    ensures var l := CompileExpression(n, e.left);
      ComputesBoth(f, world, m, n, l, CompileExpression(l.next, e.right), e.left, e.right)
    decreases e, -1
  {
    hide CodeAt, L.Run, CompileExpression, S.Evaluate;
    var l := CompileExpression(n, e.left);
    var r := CompileExpression(l.next, e.right);
    CompiledShape(n, e.left);
    CodeAtSplit(f, m, l.code, r.code);
    ExpressionRuns(f, world, m, n, e.left);
    Continue(f, world, m, |l.code|, |r.code|);
    match S.Evaluate(world, e.left, m.memory, m.trace)
    case Failed =>
    case Evaluated(x, t1) =>
      var m1 := L.Run(f, world, m, |l.code|).state;
      CodeAtElsewhere(f, m.(index := m.index + |l.code|), m1, r.code);
      ExpressionRuns(f, world, m1, l.next, e.right);
      match S.Evaluate(world, e.right, m.memory, t1)
      case Failed =>
      case Evaluated(y, t2) =>
        var m2 := L.Run(f, world, m1, |r.code|).state;
        ReadAgrees(l.next, m1.regs, m2.regs, l.result);
        Sequence(f, world, m, n, |l.code|, t1, m1, l.next, |r.code|, t2, m2);
  }

  lemma {:induction false} BinaryRuns(f: L.Cfg, world: L.World, m: L.Machine, n: nat, e: Expression)
    requires e.Binary? && Formed(e) && ValuesExist(e) && CodeAt(f, m, CompileExpression(n, e).code)
    ensures Computes(f, world, m, n, CompileExpression(n, e), S.Evaluate(world, e, m.memory, m.trace))
    decreases e, 0
  {
    hide CodeAt, L.Run, S.Apply, L.ComputeValue, L.Execute, Agree, OpcodeOf;
    var l := CompileExpression(n, e.left);
    var r := CompileExpression(l.next, e.right);
    var i := if e.bop == BitwiseNot then L.Not(r.next, l.result) else L.Compute(r.next, OpcodeOf(e.bop), l.result, r.result);
    CompiledShape(n, e.left);
    CompiledShape(l.next, e.right);
    CodeAtSplit(f, m, l.code + r.code, [i]);
    OperandsRun(f, world, m, n, e);
    Append(f, world, m, l.code + r.code, i);
    match S.Evaluate(world, e.left, m.memory, m.trace)
    case Failed =>
    case Evaluated(x, t1) =>
      match S.Evaluate(world, e.right, m.memory, t1)
      case Failed =>
      case Evaluated(y, t2) =>
        ValueHasStaticWidth(world, e.left, m.memory, m.trace);
        ValueHasStaticWidth(world, e.right, m.memory, t1);
        BinaryFinishes(f, world, m, n, e.bop, l, r, i, L.Run(f, world, m, |l.code + r.code|).state, x, y, t2);
  }

  function BinaryInstr(op: BinaryOp, dst: nat, l: L.Operand, r: L.Operand): L.Instr {
    if op == BitwiseNot then L.Not(dst, l) else L.Compute(dst, OpcodeOf(op), l, r)
  }

  lemma BinaryFinishes(f: L.Cfg, world: L.World, m: L.Machine, n: nat, op: BinaryOp, l: Compiled, r: Compiled, i: L.Instr,
                       m2: L.Machine, x: Value, y: Value, t: L.Trace)
    requires op != Pow && x.width == y.width && n <= r.next && i == BinaryInstr(op, r.next, l.result, r.result)
    requires var code := l.code + r.code;
      && L.Run(f, world, m, |code|) == L.Running(m2) && Advanced(m, m2, n, |code|, t)
      && L.Run(f, world, m, |code| + 1) == L.Execute(f, world, m2, i)
    requires L.Read(m2.regs, l.result) == Some(x) && (op != BitwiseNot ==> L.Read(m2.regs, r.result) == Some(y))
    ensures Computes(f, world, m, n, WithResult(l.code + r.code, r.next, i),
                     match S.Apply(op, x, y) case None => S.Failed case Some(v) => S.Evaluated(v, t))
  {
    hide L.Run, S.Apply, L.ComputeValue, L.Execute, Agree, OpcodeOf, L.Read;
    if op == BitwiseNot {
      NotIsNot(x, y);
      NotStep(f, world, m2, r.next, l.result, x);
    } else {
      ApplyIsCompute(op, x, y);
      ComputeStep(f, world, m2, r.next, OpcodeOf(op), l.result, r.result);
    }
    match S.Apply(op, x, y)
    case None => assert |l.code + r.code + [i]| == |l.code + r.code| + 1;
    case Some(v) => Finish(f, world, m, n, l.code + r.code, i, r.next, v, t, t);
  }

  lemma NotIsNot(x: Value, y: Value)
    requires x.width == y.width
    ensures S.Apply(BitwiseNot, x, y) == Some(L.NotValue(x))
  {
  }

  lemma {:induction false} CallRuns(f: L.Cfg, world: L.World, m: L.Machine, n: nat, callee: Callee, arguments: Arguments, ret: Type)
    requires FormedAll(arguments) && AllValuesExist(arguments) && Returns(callee, ret)
    requires CodeAt(f, m, CompileCall(n, callee, arguments).code)
    ensures var c, r := CompileCall(n, callee, arguments), S.EvaluateCall(world, callee, arguments, ret, m.memory, m.trace);
      Proceeds(f, world, m, n, c, r) && (callee.Command? ==> Computes(f, world, m, n, c, r))
    decreases arguments, 1
  {
    hide CodeAt, L.Run, L.Execute, Agree;
    var c := CompileArguments(n, arguments);
    CompiledAllShape(n, arguments);
    var i := L.Call(c.next, callee, c.results);
    CodeAtSplit(f, m, c.code, [i]);
    ArgumentsRun(f, world, m, n, arguments);
    Append(f, world, m, c.code, i);
    match S.EvaluateAll(world, arguments, m.memory, m.trace)
    case AllFailed =>
    case AllEvaluated(vs, t) =>
      CallStep(f, world, L.Run(f, world, m, |c.code|).state, c.next, callee, c.results, vs);
      Finish(f, world, m, n, c.code, i, c.next, L.CallValue(world, t, callee, vs), t, t + [L.Event(callee, vs)]);
  }

  lemma ReadAllCons(regs: map<nat, Value>, o: L.Operand, os: seq<L.Operand>, v: Value, vs: seq<Value>)
    requires L.Read(regs, o) == Some(v) && L.ReadAll(regs, os) == Some(vs)
    ensures L.ReadAll(regs, [o] + os) == Some([v] + vs)
  {
    assert ([o] + os)[1..] == os;
  }

  lemma NoArgumentsRun(f: L.Cfg, world: L.World, m: L.Machine, n: nat)
    ensures ComputesAll(f, world, m, n, CompiledAll([], n, []), S.AllEvaluated([], m.trace))
  {
  }

  lemma {:induction false} ArgumentsRun(f: L.Cfg, world: L.World, m: L.Machine, n: nat, arguments: Arguments)
    requires FormedAll(arguments) && AllValuesExist(arguments) && CodeAt(f, m, CompileArguments(n, arguments).code)
    ensures ComputesAll(f, world, m, n, CompileArguments(n, arguments), S.EvaluateAll(world, arguments, m.memory, m.trace))
    decreases arguments, 0
  {
    hide CodeAt, L.Run, CompileExpression, S.Evaluate, L.Execute, L.Read, L.ReadAll, Agree, Below, Formed, ValuesExist, YieldsNothing, IsValue;
    match arguments
    case NoArguments => NoArgumentsRun(f, world, m, n);
    case Argument(first, rest) =>
      var c := CompileExpression(n, first);
      var cs := CompileArguments(c.next, rest);
      CompiledShape(n, first);
      CompiledAllShape(c.next, rest);
      CodeAtSplit(f, m, c.code, cs.code);
      ExpressionRuns(f, world, m, n, first);
      Continue(f, world, m, |c.code|, |cs.code|);
      assert |c.code + cs.code| == |c.code| + |cs.code|;
      match S.Evaluate(world, first, m.memory, m.trace)
      case Failed =>
      case Evaluated(v, t) =>
        var m1 := L.Run(f, world, m, |c.code|).state;
        CodeAtElsewhere(f, m.(index := m.index + |c.code|), m1, cs.code);
        RestRuns(f, world, m, n, c, m1, v, t, rest);
  }

  function OneMoreValue(v: Value, es: S.Evaluations): S.Evaluations {
    match es
    case AllFailed => S.AllFailed
    case AllEvaluated(vs, t) => S.AllEvaluated([v] + vs, t)
  }

  /** The other arguments, after the first one. */
  lemma {:induction false} RestRuns(f: L.Cfg, world: L.World, m: L.Machine, n: nat, c: Compiled, m1: L.Machine, v: Value, t: L.Trace,
                                    rest: Arguments)
    requires n <= c.next && Below(c.next, c.result) && L.Run(f, world, m, |c.code|) == L.Running(m1)
    requires Advanced(m, m1, n, |c.code|, t) && L.Read(m1.regs, c.result) == Some(v)
    requires FormedAll(rest) && AllValuesExist(rest) && CodeAt(f, m1, CompileArguments(c.next, rest).code)
    ensures var cs := CompileArguments(c.next, rest);
      ComputesAll(f, world, m, n, CompiledAll(c.code + cs.code, cs.next, [c.result] + cs.results),
                  OneMoreValue(v, S.EvaluateAll(world, rest, m.memory, t)))
    decreases rest, 2
  {
    hide CodeAt, L.Run, CompileArguments, S.EvaluateAll, L.Read, L.ReadAll, Agree, Below;
    var cs := CompileArguments(c.next, rest);
    CompiledAllShape(c.next, rest);
    ArgumentsRun(f, world, m1, c.next, rest);
    Continue(f, world, m, |c.code|, |cs.code|);
    assert |c.code + cs.code| == |c.code| + |cs.code|;
    match S.EvaluateAll(world, rest, m.memory, t)
    case AllFailed =>
    case AllEvaluated(vs, t2) =>
      ArgumentsJoin(f, world, m, n, c, m1, v, t, cs, L.Run(f, world, m1, |cs.code|).state, vs, t2);
  }

  lemma ArgumentsJoin(f: L.Cfg, world: L.World, m: L.Machine, n: nat, c: Compiled, m1: L.Machine, v: Value, t: L.Trace,
                      cs: CompiledAll, m2: L.Machine, vs: seq<Value>, t2: L.Trace)
    requires n <= c.next && Below(c.next, c.result)
    requires L.Run(f, world, m, |c.code|) == L.Running(m1) && Advanced(m, m1, n, |c.code|, t)
    requires L.Read(m1.regs, c.result) == Some(v)
    requires L.Run(f, world, m1, |cs.code|) == L.Running(m2) && Advanced(m1, m2, c.next, |cs.code|, t2)
    requires L.ReadAll(m2.regs, cs.results) == Some(vs)
    ensures ComputesAll(f, world, m, n, CompiledAll(c.code + cs.code, cs.next, [c.result] + cs.results),
                        S.AllEvaluated([v] + vs, t2))
  {
    hide L.Run, L.ReadAll;
    ReadAgrees(c.next, m1.regs, m2.regs, c.result);
    Sequence(f, world, m, n, |c.code|, t, m1, c.next, |cs.code|, t2, m2);
    ReadAllCons(m2.regs, c.result, cs.results, v, vs);
  }
}
