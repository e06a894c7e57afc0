/** The code generator itself, with the state it updates while it walks over the statements. */
module CodeGeneration {
  import opened Words
  import opened Ir
  import opened L = Llvm
  import opened Lowering
  import opened LoweringFrames

  // Expressions the generator has integer code for. Operands of equal type are asserted.

  predicate Emittable(e: Expression)
    decreases e, 0
  {
    match e
    case Cast(inner, target) => Emittable(inner) && IsValue(inner) && HasValues(target)
    case Unary(op, operand) => op == Negate && Emittable(operand) && IsValue(operand)
    case Binary(op, left, right) =>
      && op != Pow && Emittable(left) && Emittable(right)
      && IsValue(left) && GetType(left) == GetType(right)
    case VarRef(v) => HasValues(v.typ)
    case Literal(b, _) => WidthOf(Builtin(b)).Some?
    case Call(_, arguments, ret) => EmittableAll(arguments) && WidthOf(ret).Some?
  }

  predicate EmittableAll(arguments: Arguments)
    decreases arguments, 0
  {
    match arguments
    case NoArguments => true
    case Argument(first, rest) => Emittable(first) && IsValue(first) && EmittableAll(rest)
  }

  predicate EmittableIn(s: Statement)
    decreases s, 0
  {
    match s
    case Conditional(c, t, f) => Emittable(c) && IsValue(c) && EmittableBlock(t) && EmittableBlock(f)
    case InfiniteLoop(_, body) => EmittableBlock(body)
    case ForLoop(_, _, init, end, step, body) =>
      && Emittable(init) && Emittable(end) && Emittable(step) && IsValue(init) && IsValue(end) && IsValue(step)
      && EmittableBlock(body)
    case Assignment(_, e) => Emittable(e) && IsValue(e)
    case FunctionCall(_, arguments, ret) => EmittableAll(arguments) && WidthOf(ret).Some?
    case ExitFunction(e) => Emittable(e) && IsValue(e)
    case _ => true
  }

  predicate EmittableBlock(b: Block)
    decreases b, 0
  {
    match b
    case End => true
    case Then(s, rest) => EmittableIn(s) && EmittableBlock(rest)
  }

  // Statements the generator does not give up on: it knows the kind of each, and each exit
  // names a loop that was opened before it. Loops stay known after their end.

  predicate Handled(s: Statement, known: set<nat>)
    decreases s, 0
  {
    match s
    case Conditional(_, t, f) => HandledBlock(t, known) && HandledBlock(f, known + LoopsOf(t))
    case InfiniteLoop(loop, body) => HandledBlock(body, known + {loop})
    case ForLoop(loop, _, _, _, _, body) => HandledBlock(body, known + {loop})
    case Exit(loop) => loop in known
    case GuardedLoop(_, _, _, _) => false
    case Missing => false
    case _ => true
  }

  predicate HandledBlock(b: Block, known: set<nat>)
    decreases b, 0
  {
    match b
    case End => true
    case Then(s, rest) => Handled(s, known) && HandledBlock(rest, known + LoopsIn(s))
  }

  lemma EmitTwice(g: Gen, b: nat, x: seq<Instr>, n: nat, y: seq<Instr>, m: nat)
    requires b < |g.blocks|
    ensures EmitCode(EmitCode(g, b, x, n), b, y, m) == EmitCode(g, b, x + y, m)
  {
    assert (g.blocks[b] + x) + y == g.blocks[b] + (x + y);
  }

  lemma EmitNothing(g: Gen, b: nat)
    requires b < |g.blocks|
    ensures EmitCode(g, b, [], g.nextReg) == g
  {
    assert g.blocks[b] + [] == g.blocks[b];
  }

  class CodeGenerator {
    var blocks: seq<seq<Instr>>
    var placed: seq<nat>
    var loopExitBlocks: map<nat, nat>
    var labelBlocks: map<nat, nat>
    var gosubReturnPoints: seq<nat>
    var gosubReturnInstructions: seq<seq<nat>>
    var nextValue: nat

    ghost function State(): Gen
      reads this
    {
      Gen(blocks, placed, loopExitBlocks, labelBlocks, gosubReturnPoints, gosubReturnInstructions, nextValue)
    }

    constructor ()
      ensures State() == Empty
    {
      blocks, placed, loopExitBlocks, labelBlocks := [], [], map[], map[];
      gosubReturnPoints, gosubReturnInstructions, nextValue := [], [], 0;
    }

    method CreateBlock() returns (b: nat)
      modifies this
      ensures b == old(|blocks|) && State() == NewBlock(old(State()))
    {
      b := |blocks|;
      blocks, placed := blocks + [[]], placed + [b];
    }

    method Append(b: nat, i: Instr)
      requires b < |blocks|
      modifies this
      ensures State() == Emit(old(State()), b, [i])
    {
      blocks := blocks[b := blocks[b] + [i]];
    }

    /** Appends an instruction that defines the next value. */
    method Define(b: nat, i: Instr) returns (v: Operand)
      requires b < |blocks|
      modifies this
      ensures v == Defined(old(nextValue), i) && State() == EmitCode(old(State()), b, [i], old(nextValue) + 1)
    {
      v := Defined(nextValue, i);
      blocks, nextValue := blocks[b := blocks[b] + [i]], nextValue + 1;
    }

    method GetOrAddLabelBlock(l: nat) returns (b: nat)
      modifies this
      ensures b == LabelBlock(old(State()), l) && State() == AddLabel(old(State()), l)
    {
      if l in labelBlocks {
        return labelBlocks[l];
      }
      b := |blocks|;
      blocks, labelBlocks := blocks + [[]], labelBlocks[l := b];
    }

    /** Every indirect branch generated so far learns of the new return point. */
    method AddGosubReturnPoint(b: nat)
      modifies this
      ensures State() == AddReturnPoint(old(State()), b)
    {
      gosubReturnPoints := gosubReturnPoints + [b];
      var i := 0;
      while i < |gosubReturnInstructions|
        invariant i <= |gosubReturnInstructions| == |old(gosubReturnInstructions)|
        invariant forall k :: 0 <= k < i ==> gosubReturnInstructions[k] == old(gosubReturnInstructions[k]) + [b]
        invariant forall k :: i <= k < |gosubReturnInstructions| ==> gosubReturnInstructions[k] == old(gosubReturnInstructions[k])
        invariant State() == old(State()).(returnPoints := old(gosubReturnPoints) + [b], destinations := gosubReturnInstructions)
      {
        gosubReturnInstructions := gosubReturnInstructions[i := gosubReturnInstructions[i] + [b]];
        i := i + 1;
      }
      AddToEachAt(old(gosubReturnInstructions), b);
      assert gosubReturnInstructions == AddToEach(old(gosubReturnInstructions), b);
    }

    /** A new indirect branch learns of every return point so far. */
    method AddGosubIndirectBr()
      modifies this
      ensures State() == AddIndirectBr(old(State()))
    {
      var n := |gosubReturnInstructions|;
      gosubReturnInstructions := gosubReturnInstructions + [[]];
      var i := 0;
      while i < |gosubReturnPoints|
        invariant i <= |gosubReturnPoints| && |gosubReturnInstructions| == n + 1
        invariant gosubReturnInstructions == old(gosubReturnInstructions) + [gosubReturnPoints[..i]]
        invariant State() == old(State()).(destinations := gosubReturnInstructions)
      {
        assert gosubReturnPoints[..i + 1] == gosubReturnPoints[..i] + [gosubReturnPoints[i]];
        gosubReturnInstructions := gosubReturnInstructions[n := gosubReturnInstructions[n] + [gosubReturnPoints[i]]];
        i := i + 1;
      }
      assert gosubReturnPoints[..i] == gosubReturnPoints;
    }

    method GenerateExpression(b: nat, e: Expression) returns (v: Operand)
      requires b < |blocks| && Emittable(e)
      modifies this
      ensures var c := CompileExpression(old(nextValue), e);
        v == c.result && State() == EmitCode(old(State()), b, c.code, c.next)
      decreases e, 1
    {
      ghost var g := State();
      match e
      case Cast(inner, target) =>
        v := GenerateExpression(b, inner);
        if ExpressionWidth(inner) != WidthOf(target) {
          ghost var c := CompileExpression(g.nextReg, inner);
          ghost var i := IntCast(nextValue, v, WidthOf(target).value);
          v := Define(b, IntCast(nextValue, v, WidthOf(target).value));
          EmitTwice(g, b, c.code, c.next, [i], c.next + 1);
        }
      case Unary(op, operand) =>
        var inner := GenerateExpression(b, operand);
        v := Define(b, L.Neg(nextValue, inner));
        ghost var c := CompileExpression(g.nextReg, operand);
        EmitTwice(g, b, c.code, c.next, [L.Neg(c.next, inner)], c.next + 1);
      case Binary(op, left, right) =>
        v := GenerateBinary(b, e);
      case VarRef(variable) =>
        v := Define(b, Load(nextValue, variable));
      case Literal(builtin, value) =>
        EmitNothing(g, b);
        var w := WidthOf(Builtin(builtin)).value;
        v := Constant(Value(w, Wrap(w, value)));
      case Call(callee, arguments, ret) =>
        v := GenerateCall(b, callee, arguments);
    }

    method GenerateBinary(b: nat, e: Expression) returns (v: Operand)
      requires b < |blocks| && Emittable(e) && e.Binary?
      modifies this
      ensures var c := CompileExpression(old(nextValue), e);
        v == c.result && State() == EmitCode(old(State()), b, c.code, c.next)
      decreases e, 0
    {
      ghost var g := State();
      var left := GenerateExpression(b, e.left);
      var right := GenerateExpression(b, e.right);
      ghost var l := CompileExpression(g.nextReg, e.left);
      ghost var r := CompileExpression(l.next, e.right);
      EmitTwice(g, b, l.code, l.next, r.code, r.next);
      var i := if e.bop == BitwiseNot then L.Not(nextValue, left) else Compute(nextValue, OpcodeOf(e.bop), left, right);
      v := Define(b, i);
      EmitTwice(g, b, l.code + r.code, r.next, [i], r.next + 1);
    }

    /** The call has the type of what is called, whatever the type of the expression. */
    method GenerateCall(b: nat, callee: Callee, arguments: Arguments) returns (v: Operand)
      requires b < |blocks| && EmittableAll(arguments)
      modifies this
      ensures var c := CompileCall(old(nextValue), callee, arguments);
        v == c.result && State() == EmitCode(old(State()), b, c.code, c.next)
      decreases arguments, 0
    {
      ghost var g := State();
      var args: seq<Operand> := [];
      var rest := arguments;
      ghost var code: seq<Instr> := [];
      EmitNothing(g, b);
      while rest.Argument?
        invariant rest == arguments || rest < arguments
        invariant EmittableAll(rest)
        invariant State() == EmitCode(g, b, code, nextValue)
        invariant var all, more := CompileArguments(g.nextReg, arguments), CompileArguments(nextValue, rest);
          all == CompiledAll(code + more.code, more.next, args + more.results)
        decreases rest
      {
        ghost var n := nextValue;
        ghost var c := CompileExpression(n, rest.first);
        ghost var more := CompileArguments(c.next, rest.rest);
        var a := GenerateExpression(b, rest.first);
        EmitTwice(g, b, code, n, c.code, c.next);
        assert code + (c.code + more.code) == (code + c.code) + more.code;
        assert args + ([c.result] + more.results) == (args + [c.result]) + more.results;
        code := code + c.code;
        args, rest := args + [a], rest.rest;
      }
      assert code + [] == code && args + [] == args;
      var i := L.Call(nextValue, callee, args);
      EmitTwice(g, b, code, nextValue, [i], nextValue + 1);
      v := Define(b, i);
    }

    /** Generates the statements from the insertion point at the end of `initialBlock`, and
        returns the insertion point after them, or nothing if it had to give up. */
    method GenerateBlock(isMain: bool, initialBlock: nat, statements: Block) returns (end: Option<nat>)
      requires Valid(State()) && initialBlock < |blocks| && EmittableBlock(statements)
      modifies this
      ensures end.Some? <==> HandledBlock(statements, old(loopExitBlocks.Keys))
      ensures end.Some? ==> (State(), end.value) == LowerBlock(isMain, old(State()), initialBlock, statements)
      decreases statements, 2
    {
      var insertBlock: nat := initialBlock;
      var rest := statements;
      ghost var known := loopExitBlocks.Keys;
      while rest.Then?
        invariant rest == statements || rest < statements
        invariant Valid(State()) && insertBlock < |blocks| && EmittableBlock(rest)
        invariant HandledBlock(rest, loopExitBlocks.Keys) <==> HandledBlock(statements, known)
        invariant LowerBlock(isMain, State(), insertBlock, rest) == LowerBlock(isMain, old(State()), initialBlock, statements)
        decreases rest
      {
        ghost var g := State();
        StatementKeeps(isMain, g, insertBlock, rest.head);
        var next := GenerateStatement(isMain, insertBlock, rest.head);
        if next.None? {
          return None;
        }
        insertBlock, rest := next.value, rest.tail;
      }
      end := Some(insertBlock);
    }

    method GenerateStatement(isMain: bool, cur: nat, s: Statement) returns (end: Option<nat>)
      requires Valid(State()) && cur < |blocks| && EmittableIn(s)
      modifies this
      ensures end.Some? <==> Handled(s, old(loopExitBlocks.Keys))
      ensures end.Some? ==> (State(), end.value) == LowerStatement(isMain, old(State()), cur, s)
      decreases s, 1
    {
      match s
      case Label(l) =>
        var b := GetOrAddLabelBlock(l);
        placed := placed + [b];
        Append(cur, Br(b));
        end := Some(b);
      case Goto(l) =>
        var b := GetOrAddLabelBlock(l);
        Append(cur, Br(b));
        b := CreateBlock();
        end := Some(b);
      case Gosub(l) =>
        var b := GenerateGosub(cur, l);
        end := Some(b);
      case SubReturn =>
        var b := GenerateReturn(cur);
        end := Some(b);
      case Conditional(_, _, _) =>
        end := GenerateConditional(isMain, cur, s);
      case InfiniteLoop(_, _) =>
        end := GenerateInfiniteLoop(isMain, cur, s);
      case ForLoop(_, _, _, _, _, _) =>
        end := GenerateForLoop(isMain, cur, s);
      case Exit(loop) =>
        if loop !in loopExitBlocks {
          return None;
        }
        Append(cur, Br(loopExitBlocks[loop]));
        var b := CreateBlock();
        end := Some(b);
      case Assignment(x, e) =>
        GenerateStore(cur, x, e);
        end := Some(cur);
      case FunctionCall(callee, arguments, ret) =>
        if callee.Command? && callee.dbSymbol == "end" && isMain {
          Append(cur, RetVoid);
          var b := CreateBlock();
          end := Some(b);
        } else {
          var discarded := GenerateCall(cur, callee, arguments);
          end := Some(cur);
        }
      case ExitFunction(e) =>
        ghost var c := CompileExpression(nextValue, e);
        EmitTwice(State(), cur, c.code, c.next, [Ret(c.result)], c.next);
        var v := GenerateExpression(cur, e);
        Append(cur, Ret(v));
        end := Some(cur);
      case GuardedLoop(_, _, _, _) =>
        end := None;
      case Missing =>
        end := None;
    }

    method GenerateStore(cur: nat, x: Variable, e: Expression)
      requires cur < |blocks| && Emittable(e)
      modifies this
      ensures State() == LowerStore(old(State()), cur, x, e)
    {
      ghost var c := CompileExpression(nextValue, e);
      EmitTwice(State(), cur, c.code, c.next, [Store(x, c.result)], c.next);
      var v := GenerateExpression(cur, e);
      Append(cur, Store(x, v));
    }

    method GenerateGosub(cur: nat, l: nat) returns (continuation: nat)
      requires Valid(State()) && cur < |blocks|
      modifies this
      ensures State() == LowerGosub(old(State()), cur, l) && continuation == |AddLabel(old(State()), l).blocks|
    {
      var labelBlock := GetOrAddLabelBlock(l);
      continuation := CreateBlock();
      AddGosubReturnPoint(continuation);
      ghost var g := State();
      EmitTwice(g, cur, [PushReturn(continuation)], g.nextReg, [Br(labelBlock)], g.nextReg);
      assert [PushReturn(continuation)] + [Br(labelBlock)] == [PushReturn(continuation), Br(labelBlock)];
      Append(cur, PushReturn(continuation));
      Append(cur, Br(labelBlock));
    }

    method GenerateReturn(cur: nat) returns (dead: nat)
      requires Valid(State()) && cur < |blocks|
      modifies this
      ensures (State(), dead) == LowerReturn(old(State()), cur)
    {
      ghost var g, r := State(), nextValue;
      var v := Define(cur, PopReturn(nextValue));
      ghost var i := IndirectBr(Defined(r, PopReturn(r)), |gosubReturnInstructions|);
      EmitTwice(g, cur, [PopReturn(r)], r + 1, [i], r + 1);
      assert [PopReturn(r)] + [i] == [PopReturn(r), i];
      Append(cur, IndirectBr(v, |gosubReturnInstructions|));
      AddGosubIndirectBr();
      dead := CreateBlock();
    }

    method GenerateConditional(isMain: bool, cur: nat, s: Statement) returns (end: Option<nat>)
      requires Valid(State()) && cur < |blocks| && EmittableIn(s) && s.Conditional?
      modifies this
      ensures end.Some? <==> Handled(s, old(loopExitBlocks.Keys))
      ensures end.Some? ==> (State(), end.value) == LowerStatement(isMain, old(State()), cur, s)
      decreases s, 0
    {
      hide LowerBlock, HandledBlock, Valid, EmittableBlock, CompileExpression, Emittable, LoopsOf;
      ghost var g, known := State(), loopExitBlocks.Keys;
      FrameNewBlock(g, cur);
      var trueBlock := CreateBlock();
      BlockKeeps(isMain, State(), trueBlock, s.trueBranch);
      var trueEnd := GenerateBlock(isMain, trueBlock, s.trueBranch);
      if trueEnd.None? {
        return None;
      }
      ghost var g1 := State();
      FrameNewBlock(g1, cur);
      var falseBlock := CreateBlock();
      BlockKeeps(isMain, State(), falseBlock, s.falseBranch);
      var falseEnd := GenerateBlock(isMain, falseBlock, s.falseBranch);
      if falseEnd.None? {
        return None;
      }
      ghost var g2 := State();
      var continueBlock := CreateBlock();
      ghost var c := CompileExpression(nextValue, s.condition);
      ghost var i := CondBr(c.result, trueBlock, falseBlock);
      EmitTwice(State(), cur, c.code, c.next, [i], c.next);
      var v := GenerateExpression(cur, s.condition);
      Append(cur, CondBr(v, trueBlock, falseBlock));
      Append(trueEnd.value, Br(continueBlock));
      Append(falseEnd.value, Br(continueBlock));
      end := Some(continueBlock);
      assert State() == CloseConditional(g2, cur, s.condition, trueBlock, trueEnd.value, falseBlock, falseEnd.value);
    }

    method GenerateInfiniteLoop(isMain: bool, cur: nat, s: Statement) returns (end: Option<nat>)
      requires Valid(State()) && cur < |blocks| && EmittableIn(s) && s.InfiniteLoop?
      modifies this
      ensures end.Some? <==> Handled(s, old(loopExitBlocks.Keys))
      ensures end.Some? ==> (State(), end.value) == LowerStatement(isMain, old(State()), cur, s)
      decreases s, 0
    {
      hide LowerBlock, HandledBlock, Valid, EmittableBlock, LoopsOf, Remove, InsertAfter;
      ghost var g := State();
      FrameOpenLoop(g, cur, s.loop);
      var loopBlock := CreateBlock();
      var endBlock := CreateBlock();
      loopExitBlocks := loopExitBlocks[s.loop := endBlock];
      assert State() == OpenLoop(g, s.loop);
      assert loopExitBlocks.Keys == g.exits.Keys + {s.loop};
      BlockKeeps(isMain, State(), loopBlock, s.body);
      var statementsEnd := GenerateBlock(isMain, loopBlock, s.body);
      if statementsEnd.None? {
        return None;
      }
      ghost var g1 := State();
      placed := InsertAfter(Remove(placed, endBlock), endBlock, statementsEnd.value);
      Append(cur, Br(loopBlock));
      Append(statementsEnd.value, Br(loopBlock));
      end := Some(endBlock);
      assert State() == CloseLoop(g1, cur, loopBlock, statementsEnd.value);
    }

    method GenerateForLoop(isMain: bool, cur: nat, s: Statement) returns (end: Option<nat>)
      requires Valid(State()) && cur < |blocks| && EmittableIn(s) && s.ForLoop?
      modifies this
      ensures end.Some? <==> Handled(s, old(loopExitBlocks.Keys))
      ensures end.Some? ==> (State(), end.value) == LowerStatement(isMain, old(State()), cur, s)
      decreases s, 0
    {
      hide LowerBlock, HandledBlock, Valid, EmittableBlock, LoopsOf, OpenFor, CloseFor, Emittable;
      ghost var g := State();
      FrameOpenFor(g, cur, s.loop, s.counter, s.init, s.end, s.step);
      GenerateForHead(cur, s);
      assert loopExitBlocks.Keys == g.exits.Keys + {s.loop};
      var n := |blocks| - 6;
      BlockKeeps(isMain, State(), n + 4, s.body);
      var loopEnd := GenerateBlock(isMain, n + 4, s.body);
      if loopEnd.None? {
        return None;
      }
      GenerateForIncrement(s.counter, s.step, n, loopEnd.value);
      end := Some(n + 5);
    }

    /** Initialisation and the blocks that test the counter. */
    method GenerateForHead(cur: nat, s: Statement)
      requires cur < |blocks| && EmittableIn(s) && s.ForLoop?
      modifies this
      ensures State() == OpenFor(old(State()), cur, s.loop, s.counter, s.init, s.end, s.step)
    {
      hide CompileExpression, Emittable, EmittableBlock, CompileFor;
      GenerateStore(cur, s.counter, s.init);
      ghost var g1 := State();
      var n := CreateSixBlocks();
      loopExitBlocks := loopExitBlocks[s.loop := n + 5];
      Append(cur, Br(n));
      GenerateForTests(n, s);
    }

    /** Condition, positive test, check for a negative step, negative test, body and end. */
    method CreateSixBlocks() returns (conditionBlock: nat)
      modifies this
      ensures conditionBlock == old(|blocks|) && State() == NewSixBlocks(old(State()))
    {
      conditionBlock := CreateBlock();
      var positiveBlock := CreateBlock();
      var checkBlock := CreateBlock();
      var negativeBlock := CreateBlock();
      var loopBlock := CreateBlock();
      var endBlock := CreateBlock();
    }

    method GenerateForTests(n: nat, s: Statement)
      requires n + 5 < |blocks| && EmittableIn(s) && s.ForLoop?
      modifies this
      ensures var g := old(State());
        var c := CompileFor(n, g.nextReg, s.counter, s.end, s.step);
        State() == Emit(Emit(Emit(Emit(g, n, c.condition), n + 2, c.check), n + 1, c.positive), n + 3, c.negative).(nextReg := c.next)
    {
      hide CompileExpression, Emittable, EmittableBlock;
      ghost var g := State();
      var counter, last, step := GenerateForValues(n, s);
      ghost var e := CompileExpression(g.nextReg + 1, s.end);
      ghost var k := CompileExpression(e.next, s.step);
      ghost var code := [Load(g.nextReg, s.counter)] + e.code + k.code;
      var zero := Constant(Value(WidthOrVoid(ExpressionWidth(s.step)), 0));
      ghost var t := nextValue;
      ghost var test := TestCode(t, Sgt, step, zero, n + 1, n + 2);
      EmitTwice(g, n, code, t, test, t + 1);
      assert code + test == CompileFor(n, g.nextReg, s.counter, s.end, s.step).condition;
      GenerateTest(n, Sgt, step, zero, n + 1, n + 2);
      GenerateTest(n + 2, Slt, step, zero, n + 3, n + 5);
      GenerateTest(n + 1, Sle, counter, last, n + 4, n + 5);
      GenerateTest(n + 3, Sge, counter, last, n + 4, n + 5);
    }

    method GenerateForValues(n: nat, s: Statement) returns (counter: Operand, last: Operand, step: Operand)
      requires n < |blocks| && EmittableIn(s) && s.ForLoop?
      modifies this
      ensures var g := old(State());
        var e := CompileExpression(g.nextReg + 1, s.end);
        var k := CompileExpression(e.next, s.step);
        && counter == Defined(g.nextReg, Load(g.nextReg, s.counter)) && last == e.result && step == k.result
        && State() == EmitCode(g, n, [Load(g.nextReg, s.counter)] + e.code + k.code, k.next)
    {
      hide CompileExpression, Emittable, EmittableBlock;
      ghost var g := State();
      ghost var e := CompileExpression(g.nextReg + 1, s.end);
      ghost var k := CompileExpression(e.next, s.step);
      ghost var load := [Load(g.nextReg, s.counter)];
      counter := Define(n, Load(nextValue, s.counter));
      EmitTwice(g, n, load, g.nextReg + 1, e.code, e.next);
      last := GenerateExpression(n, s.end);
      EmitTwice(g, n, load + e.code, e.next, k.code, k.next);
      step := GenerateExpression(n, s.step);
    }

    /** A comparison and a branch on it. */
    method GenerateTest(b: nat, opcode: Opcode, x: Operand, y: Operand, ifTrue: nat, ifFalse: nat)
      requires b < |blocks|
      modifies this
      ensures var r := old(nextValue);
        State() == EmitCode(old(State()), b, TestCode(r, opcode, x, y, ifTrue, ifFalse), r + 1)
    {
      ghost var g, r := State(), nextValue;
      ghost var i := Compute(r, opcode, x, y);
      ghost var branch := CondBr(Defined(r, i), ifTrue, ifFalse);
      EmitTwice(g, b, [i], r + 1, [branch], r + 1);
      assert [i] + [branch] == TestCode(r, opcode, x, y, ifTrue, ifFalse);
      var v := Define(b, Compute(nextValue, opcode, x, y));
      Append(b, CondBr(v, ifTrue, ifFalse));
    }

    method GenerateForIncrement(counter: Variable, step: Expression, conditionBlock: nat, loopEnd: nat)
      requires loopEnd < |blocks| && Emittable(step)
      modifies this
      ensures State() == CloseFor(old(State()), counter, step, conditionBlock, loopEnd)
    {
      var incrementBlock := CreateBlock();
      Append(loopEnd, Br(incrementBlock));
      ghost var g, r := State(), nextValue;
      ghost var k := CompileExpression(r + 1, step);
      ghost var code := [Load(r, counter)] + k.code;
      EmitTwice(g, incrementBlock, [Load(r, counter)], r + 1, k.code, k.next);
      var value := Define(incrementBlock, Load(nextValue, counter));
      var amount := GenerateExpression(incrementBlock, step);
      ghost var add := Compute(k.next, IAdd, value, amount);
      EmitTwice(g, incrementBlock, code, k.next, [add], k.next + 1);
      var sum := Define(incrementBlock, Compute(nextValue, IAdd, value, amount));
      EmitTwice(g, incrementBlock, code + [add], k.next + 1, [Store(counter, sum)], k.next + 1);
      Append(incrementBlock, Store(counter, sum));
      EmitTwice(g, incrementBlock, code + [add] + [Store(counter, sum)], k.next + 1, [Br(conditionBlock)], k.next + 1);
      Append(incrementBlock, Br(conditionBlock));
      assert code + [add] + [Store(counter, sum)] + [Br(conditionBlock)]
        == CompileIncrement(r, counter, step).code + [Br(conditionBlock)];
    }

    /** The entry block: the gosub stack, then each variable with its initial value. */
    method GeneratePrologue(variables: seq<Variable>)
      requires State() == Empty
      requires forall v <- variables :: HasValues(v.typ)
      modifies this
      ensures State() == Entry(variables)
    {
      var initialBlock := CreateBlock();
      Append(initialBlock, ResetStack);
      ghost var g, i := State(), 0;
      var rest := variables;
      ghost var code: seq<Instr> := [];
      EmitNothing(g, 0);
      while rest != []
        invariant initialBlock < |blocks| && forall v <- rest :: HasValues(v.typ)
        invariant State() == Emit(g, 0, code)
        invariant code + Prologue(rest) == Prologue(variables)
      {
        var v := rest[0];
        var zero := Constant(Value(WidthOf(v.typ).value, 0));
        assert (code + [Alloca(v), Store(v, zero)]) + Prologue(rest[1..]) == code + Prologue(rest);
        EmitTwice(g, 0, code, g.nextReg, [Alloca(v)], g.nextReg);
        EmitTwice(g, 0, code + [Alloca(v)], g.nextReg, [Store(v, zero)], g.nextReg);
        assert code + [Alloca(v)] + [Store(v, zero)] == code + [Alloca(v), Store(v, zero)];
        Append(initialBlock, Alloca(v));
        Append(initialBlock, Store(v, zero));
        code, rest := code + [Alloca(v), Store(v, zero)], rest[1..];
      }
      assert code == Prologue(variables);
      EmitTwice(NewBlock(Empty), 0, [ResetStack], 0, code, 0);
      assert State() == Entry(variables);
    }

    /** The body of a function; `ok` says whether every statement could be generated. */
    method GenerateFunctionBody(isMain: bool, variables: seq<Variable>, statements: Block) returns (ok: bool)
      requires State() == Empty && EmittableBlock(statements)
      requires forall v <- variables :: HasValues(v.typ)
      modifies this
      ensures ok <==> HandledBlock(statements, {})
      ensures ok ==> State() == LowerFunction(isMain, variables, statements)
    {
      hide HandledBlock, LowerBlock;
      GeneratePrologue(variables);
      BlockKeeps(isMain, State(), 0, statements);
      assert loopExitBlocks.Keys == {};
      var lastBlock := GenerateBlock(isMain, 0, statements);
      if lastBlock.None? {
        return false;
      }
      if blocks[lastBlock.value] == [] || !blocks[lastBlock.value][|blocks[lastBlock.value]| - 1].IsTerminator() {
        Append(lastBlock.value, RetVoid);
      }
      ok := true;
    }
  }

  /** What the generator relies on when it goes on after a statement or block. */
  ghost predicate Keeps(g: Gen, h: Gen, c: nat, loops: set<nat>) {
    && Valid(h) && c < |h.blocks| && |g.blocks| <= |h.blocks| && h.exits.Keys == g.exits.Keys + loops
  }

  lemma StatementKeeps(isMain: bool, g: Gen, cur: nat, s: Statement)
    requires Valid(g) && cur < |g.blocks|
    ensures var (h, c) := LowerStatement(isMain, g, cur, s); Keeps(g, h, c, LoopsIn(s))
  {
    FrameStatement(isMain, g, cur, s);
    StatementLoops(isMain, g, cur, s);
  }

  lemma BlockKeeps(isMain: bool, g: Gen, cur: nat, block: Block)
    requires Valid(g) && cur < |g.blocks|
    ensures var (h, c) := LowerBlock(isMain, g, cur, block); Keeps(g, h, c, LoopsOf(block))
  {
    FrameBlock(isMain, g, cur, block);
    BlockLoops(isMain, g, cur, block);
  }

  lemma {:induction false} StatementLoops(isMain: bool, g: Gen, cur: nat, s: Statement)
    ensures LowerStatement(isMain, g, cur, s).0.exits.Keys == g.exits.Keys + LoopsIn(s)
    decreases s, 0
  {
    hide LowerBlock, LoopsOf, CloseConditional, CloseLoop, OpenFor, CloseFor;
    match s
    case Conditional(c, t, f) =>
      var tb := |g.blocks|;
      BlockLoops(isMain, NewBlock(g), tb, t);
      var (g1, te) := LowerBlock(isMain, NewBlock(g), tb, t);
      var fb := |g1.blocks|;
      BlockLoops(isMain, NewBlock(g1), fb, f);
      var (g2, fe) := LowerBlock(isMain, NewBlock(g1), fb, f);
      CloseConditionalKeeps(g2, cur, c, tb, te, fb, fe);
    case InfiniteLoop(loop, body) =>
      var lb := |g.blocks|;
      BlockLoops(isMain, OpenLoop(g, loop), lb, body);
      var (g1, le) := LowerBlock(isMain, OpenLoop(g, loop), lb, body);
      CloseLoopKeeps(g1, cur, lb, le);
    case ForLoop(loop, counter, init, end, step, body) =>
      var n := |g.blocks|;
      var h := OpenFor(g, cur, loop, counter, init, end, step);
      BlockLoops(isMain, h, n + 4, body);
      var (g1, le) := LowerBlock(isMain, h, n + 4, body);
      ForKeeps(g, g1, cur, s, le);
    case _ => SimpleLoops(isMain, g, cur, s);
  }

  lemma CloseConditionalKeeps(g: Gen, cur: nat, c: Expression, tb: nat, te: nat, fb: nat, fe: nat)
    ensures CloseConditional(g, cur, c, tb, te, fb, fe).exits == g.exits
  {
    hide CompileExpression;
  }

  lemma CloseLoopKeeps(g: Gen, cur: nat, lb: nat, le: nat)
    ensures CloseLoop(g, cur, lb, le).exits == g.exits
  {
    hide Remove, InsertAfter;
  }

  lemma ForKeeps(g: Gen, g1: Gen, cur: nat, s: Statement, le: nat)
    requires s.ForLoop?
    ensures OpenFor(g, cur, s.loop, s.counter, s.init, s.end, s.step).exits == g.exits[s.loop := |g.blocks| + 5]
    ensures CloseFor(g1, s.counter, s.step, |g.blocks|, le).exits == g1.exits
  {
    hide CompileExpression, CompileFor, CompileIncrement;
    var n := |g.blocks|;
    var g1 := LowerStore(g, cur, s.counter, s.init);
    assert g1.exits == g.exits;
    var g2 := NewSixBlocks(g1).(exits := g1.exits[s.loop := n + 5]);
    assert Emit(g2, cur, [Br(n)]).exits == g2.exits;
  }

  lemma SimpleLoops(isMain: bool, g: Gen, cur: nat, s: Statement)
    requires !s.Conditional? && !s.InfiniteLoop? && !s.ForLoop?
    ensures LowerStatement(isMain, g, cur, s).0.exits == g.exits && LoopsIn(s) == {}
  {
    hide CompileExpression, CompileCall, AddToEach, LowerBlock;
  }

  lemma {:induction false} BlockLoops(isMain: bool, g: Gen, cur: nat, block: Block)
    ensures LowerBlock(isMain, g, cur, block).0.exits.Keys == g.exits.Keys + LoopsOf(block)
    decreases block, 1
  {
    match block
    case End =>
    case Then(s, rest) =>
      StatementLoops(isMain, g, cur, s);
      var (g1, c1) := LowerStatement(isMain, g, cur, s);
      BlockLoops(isMain, g1, c1, rest);
  }
}
