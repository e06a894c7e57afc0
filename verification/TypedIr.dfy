/** Which IR programs are well typed, and that these are what the code generator needs. */
module TypedIr {
  import opened Words
  import opened Ir
  import opened ExpressionLowering
  import opened LoweringFrames
  import opened Matching
  import CodeGeneration

  function Types(arguments: Arguments): seq<Option<Type>> {
    match arguments
    case NoArguments => []
    case Argument(first, rest) => [GetType(first)] + Types(rest)
  }

  /** Operands have equal types, and arguments have the types of the parameters they are for. */
  predicate Typed(e: Expression)
    decreases e, 0
  {
    match e
    case Cast(inner, target) => Typed(inner) && GetType(inner).Some?
    case Unary(_, operand) => Typed(operand)
    case Binary(_, left, right) =>
      Typed(left) && Typed(right) && GetType(left).Some? && GetType(left) == GetType(right)
    case VarRef(_) => true
    case Literal(_, _) => true
    case Call(callee, arguments, ret) => TypedCall(callee, arguments, ret)
  }

  predicate TypedCall(callee: Callee, arguments: Arguments, ret: Type)
    decreases arguments, 1
  {
    && TypedAll(arguments) && (callee.Command? ==> ret == callee.result)
    && (Fits(Types(arguments), callee.params) || (callee.Command? && arguments == NoArguments))
  }

  /** An argument of its type for each parameter. Only a command may be called with none at all,
      whatever its parameters. */
  predicate Fits(arguments: seq<Option<Type>>, parameters: seq<Option<Type>>) {
    |arguments| == |parameters| && forall i :: 0 <= i < |arguments| ==> arguments[i] == parameters[i] && arguments[i].Some?
  }

  predicate TypedAll(arguments: Arguments)
    decreases arguments, 0
  {
    match arguments
    case NoArguments => true
    case Argument(first, rest) => Typed(first) && TypedAll(rest)
  }

  /** Values fit the variables they are assigned to, conditions are Boolean, and each exit names
      a loop around it. Loops have a number of their own. */
  predicate TypedStatement(s: Statement, enclosing: set<nat>)
    decreases s, 0
  {
    match s
    case Conditional(c, t, f) =>
      Typed(c) && GetType(c) == Some(Builtin(Boolean)) && TypedBlock(t, enclosing) && TypedBlock(f, enclosing)
    case InfiniteLoop(loop, body) => loop !in enclosing && TypedBlock(body, enclosing + {loop})
    case ForLoop(loop, counter, init, end, step, body) =>
      && loop !in enclosing && TypedBlock(body, enclosing + {loop})
      && Typed(init) && GetType(init) == Some(counter.typ)
      && Typed(end) && GetType(end) == Some(counter.typ)
      && Typed(step) && GetType(step) == Some(counter.typ)
    case GuardedLoop(loop, _, c, body) => loop !in enclosing && Typed(c) && TypedBlock(body, enclosing + {loop})
    case Exit(loop) => loop in enclosing
    case Assignment(x, e) => Typed(e) && GetType(e) == Some(x.typ)
    case FunctionCall(callee, arguments, ret) => TypedCall(callee, arguments, ret)
    case ExitFunction(e) => Typed(e)
    case Missing => false
    case _ => true
  }

  predicate TypedBlock(b: Block, enclosing: set<nat>)
    decreases b, 0
  {
    match b
    case End => true
    case Then(s, rest) => TypedStatement(s, enclosing) && TypedBlock(rest, enclosing)
  }

  // Gotos and gosubs are converted before it is known where they lead. Afterwards each is
  // pointed to its label; one without a label stays as it is.

  type JumpTargets = map<nat, Option<nat>>

  function TargetOf(targets: JumpTargets, id: nat): nat {
    if id in targets && targets[id].Some? then targets[id].value else id
  }

  function PointIn(s: Statement, gotos: JumpTargets, gosubs: JumpTargets): Statement
    decreases s, 0
  {
    match s
    case Goto(id) => Goto(TargetOf(gotos, id))
    case Gosub(id) => Gosub(TargetOf(gosubs, id))
    case Conditional(c, t, f) => Conditional(c, PointJumps(t, gotos, gosubs), PointJumps(f, gotos, gosubs))
    case InfiniteLoop(loop, body) => InfiniteLoop(loop, PointJumps(body, gotos, gosubs))
    case ForLoop(loop, counter, init, end, step, body) => ForLoop(loop, counter, init, end, step, PointJumps(body, gotos, gosubs))
    case GuardedLoop(loop, isUntil, c, body) => GuardedLoop(loop, isUntil, c, PointJumps(body, gotos, gosubs))
    case _ => s
  }

  function PointJumps(b: Block, gotos: JumpTargets, gosubs: JumpTargets): Block
    decreases b, 0
  {
    match b
    case End => End
    case Then(s, rest) => Then(PointIn(s, gotos, gosubs), PointJumps(rest, gotos, gosubs))
  }

  lemma {:induction false} PointInKeepsTypes(s: Statement, enclosing: set<nat>, gotos: JumpTargets, gosubs: JumpTargets)
    requires TypedStatement(s, enclosing)
    ensures TypedStatement(PointIn(s, gotos, gosubs), enclosing)
    decreases s, 0
  {
    match s
    case Conditional(_, t, f) =>
      PointingKeepsTypes(t, enclosing, gotos, gosubs);
      PointingKeepsTypes(f, enclosing, gotos, gosubs);
    case InfiniteLoop(loop, body) => PointingKeepsTypes(body, enclosing + {loop}, gotos, gosubs);
    case ForLoop(loop, _, _, _, _, body) => PointingKeepsTypes(body, enclosing + {loop}, gotos, gosubs);
    case GuardedLoop(loop, _, _, body) => PointingKeepsTypes(body, enclosing + {loop}, gotos, gosubs);
    case _ =>
  }

  lemma {:induction false} PointingKeepsTypes(b: Block, enclosing: set<nat>, gotos: JumpTargets, gosubs: JumpTargets)
    requires TypedBlock(b, enclosing)
    ensures TypedBlock(PointJumps(b, gotos, gosubs), enclosing)
    decreases b, 0
  {
    match b
    case End =>
    case Then(s, rest) =>
      PointInKeepsTypes(s, enclosing, gotos, gosubs);
      PointingKeepsTypes(rest, enclosing, gotos, gosubs);
  }

  /** Labels stay what they were. */
  lemma {:induction false} PointInKeepsLabels(s: Statement, gotos: JumpTargets, gosubs: JumpTargets)
    ensures LabelsIn(PointIn(s, gotos, gosubs)) == LabelsIn(s)
    ensures UniqueLabelsIn(PointIn(s, gotos, gosubs)) <==> UniqueLabelsIn(s)
    decreases s, 0
  {
    match s
    case Conditional(_, t, f) => PointingKeepsLabels(t, gotos, gosubs); PointingKeepsLabels(f, gotos, gosubs);
    case InfiniteLoop(_, body) => PointingKeepsLabels(body, gotos, gosubs);
    case ForLoop(_, _, _, _, _, body) => PointingKeepsLabels(body, gotos, gosubs);
    case _ =>
  }

  lemma {:induction false} PointingKeepsLabels(b: Block, gotos: JumpTargets, gosubs: JumpTargets)
    ensures LabelsOf(PointJumps(b, gotos, gosubs)) == LabelsOf(b)
    ensures UniqueLabels(PointJumps(b, gotos, gosubs)) <==> UniqueLabels(b)
    decreases b, 0
  {
    match b
    case End =>
    case Then(s, rest) =>
      PointInKeepsLabels(s, gotos, gosubs);
      PointingKeepsLabels(rest, gotos, gosubs);
  }

  // The variables of a program.

  function VarsIn(e: Expression): set<Variable>
    decreases e, 0
  {
    match e
    case Cast(inner, _) => VarsIn(inner)
    case Unary(_, operand) => VarsIn(operand)
    case Binary(_, left, right) => VarsIn(left) + VarsIn(right)
    case VarRef(v) => {v}
    case Literal(_, _) => {}
    case Call(_, arguments, _) => VarsInAll(arguments)
  }

  function VarsInAll(arguments: Arguments): set<Variable>
    decreases arguments, 0
  {
    match arguments
    case NoArguments => {}
    case Argument(first, rest) => VarsIn(first) + VarsInAll(rest)
  }

  function VarsOfStatement(s: Statement): set<Variable>
    decreases s, 0
  {
    match s
    case Conditional(c, t, f) => VarsIn(c) + VarsOf(t) + VarsOf(f)
    case InfiniteLoop(_, body) => VarsOf(body)
    case ForLoop(_, counter, init, end, step, body) => {counter} + VarsIn(init) + VarsIn(end) + VarsIn(step) + VarsOf(body)
    case GuardedLoop(_, _, c, body) => VarsIn(c) + VarsOf(body)
    case Assignment(x, e) => {x} + VarsIn(e)
    case FunctionCall(_, arguments, _) => VarsInAll(arguments)
    case ExitFunction(e) => VarsIn(e)
    case _ => {}
  }

  function VarsOf(b: Block): set<Variable>
    decreases b, 0
  {
    match b
    case End => {}
    case Then(s, rest) => VarsOfStatement(s) + VarsOf(rest)
  }

  lemma {:induction false} PointInKeepsVars(s: Statement, gotos: JumpTargets, gosubs: JumpTargets)
    ensures VarsOfStatement(PointIn(s, gotos, gosubs)) == VarsOfStatement(s)
    decreases s, 0
  {
    match s
    case Conditional(_, t, f) => PointingKeepsVars(t, gotos, gosubs); PointingKeepsVars(f, gotos, gosubs);
    case InfiniteLoop(_, body) => PointingKeepsVars(body, gotos, gosubs);
    case ForLoop(_, _, _, _, _, body) => PointingKeepsVars(body, gotos, gosubs);
    case GuardedLoop(_, _, _, body) => PointingKeepsVars(body, gotos, gosubs);
    case _ =>
  }

  lemma {:induction false} PointingKeepsVars(b: Block, gotos: JumpTargets, gosubs: JumpTargets)
    ensures VarsOf(PointJumps(b, gotos, gosubs)) == VarsOf(b)
    decreases b, 0
  {
    match b
    case End =>
    case Then(s, rest) =>
      PointInKeepsVars(s, gotos, gosubs);
      PointingKeepsVars(rest, gotos, gosubs);
  }

  // What the generator has code for: integer types, and no operator it gives up on. The
  // connectives are on Booleans, where the bitwise instructions they become agree with them.

  predicate Plain(e: Expression)
    decreases e, 0
  {
    match e
    case Cast(inner, target) => Plain(inner) && IsValue(inner) && HasValues(target)
    case Unary(op, operand) => op == Negate && Plain(operand) && IsValue(operand)
    case Binary(op, left, right) =>
      && Plain(left) && Plain(right) && op != Pow && op != LogicalXor && IsValue(left)
      && (op == LogicalOr || op == LogicalAnd ==> GetType(left) == Some(Builtin(Boolean)))
    case VarRef(v) => HasValues(v.typ)
    case Literal(b, _) => WidthOf(Builtin(b)).Some?
    case Call(_, arguments, ret) => PlainAll(arguments) && WidthOf(ret).Some?
  }

  predicate PlainAll(arguments: Arguments)
    decreases arguments, 0
  {
    match arguments
    case NoArguments => true
    case Argument(first, rest) => Plain(first) && IsValue(first) && PlainAll(rest)
  }

  predicate PlainStatement(s: Statement)
    decreases s, 0
  {
    match s
    case Conditional(c, t, f) => Plain(c) && PlainBlock(t) && PlainBlock(f)
    case InfiniteLoop(_, body) => PlainBlock(body)
    case ForLoop(_, counter, init, end, step, body) =>
      HasValues(counter.typ) && Plain(init) && Plain(end) && Plain(step) && PlainBlock(body)
    case Assignment(x, e) => HasValues(x.typ) && Plain(e)
    case FunctionCall(_, arguments, ret) => PlainAll(arguments) && WidthOf(ret).Some?
    case ExitFunction(e) => Plain(e) && IsValue(e)
    case GuardedLoop(_, _, _, _) => false
    case Missing => false
    case _ => true
  }

  predicate PlainBlock(b: Block)
    decreases b, 0
  {
    match b
    case End => true
    case Then(s, rest) => PlainStatement(s) && PlainBlock(rest)
  }

  lemma {:induction false} TypedIsFormed(e: Expression)
    requires Typed(e) && Plain(e)
    ensures Formed(e) && CodeGeneration.Emittable(e)
    decreases e, 0
  {
    match e
    case Cast(inner, _) => TypedIsFormed(inner);
    case Unary(_, operand) => TypedIsFormed(operand);
    case Binary(_, left, right) => TypedIsFormed(left); TypedIsFormed(right);
    case Call(_, arguments, _) => TypedAllFormed(arguments);
    case _ =>
  }

  lemma {:induction false} TypedAllFormed(arguments: Arguments)
    requires TypedAll(arguments) && PlainAll(arguments)
    ensures FormedAll(arguments) && CodeGeneration.EmittableAll(arguments)
    decreases arguments, 0
  {
    match arguments
    case NoArguments =>
    case Argument(first, rest) => TypedIsFormed(first); TypedAllFormed(rest);
  }

  lemma {:induction false} TypedStatementFormed(s: Statement, enclosing: set<nat>)
    requires TypedStatement(s, enclosing) && PlainStatement(s)
    ensures FormedStatement(s, enclosing) && CodeGeneration.EmittableIn(s)
    decreases s, 0
  {
    match s
    case Conditional(c, t, f) =>
      TypedIsFormed(c);
      TypedBlockFormed(t, enclosing);
      TypedBlockFormed(f, enclosing);
    case InfiniteLoop(loop, body) => TypedBlockFormed(body, enclosing + {loop});
    case ForLoop(loop, _, init, end, step, body) =>
      TypedIsFormed(init);
      TypedIsFormed(end);
      TypedIsFormed(step);
      TypedBlockFormed(body, enclosing + {loop});
    case Assignment(_, e) => TypedIsFormed(e);
    case FunctionCall(_, arguments, _) => TypedAllFormed(arguments);
    case ExitFunction(e) => TypedIsFormed(e);
    case _ =>
  }

  /** A typed block within the generator's means is one that it accepts, and one to which the
      correctness of the generated code applies. */
  lemma {:induction false} TypedBlockFormed(b: Block, enclosing: set<nat>)
    requires TypedBlock(b, enclosing) && PlainBlock(b)
    ensures FormedBlock(b, enclosing) && CodeGeneration.EmittableBlock(b)
    decreases b, 0
  {
    match b
    case End =>
    case Then(s, rest) =>
      TypedStatementFormed(s, enclosing);
      TypedBlockFormed(rest, enclosing);
  }

  /** Such a block is generated to its end: every exit names a loop that is already known. */
  lemma {:induction false} TypedIsHandled(s: Statement, enclosing: set<nat>, known: set<nat>)
    requires TypedStatement(s, enclosing) && PlainStatement(s) && enclosing <= known
    ensures CodeGeneration.Handled(s, known)
    decreases s, 0
  {
    match s
    case Conditional(_, t, f) =>
      TypedBlockHandled(t, enclosing, known);
      TypedBlockHandled(f, enclosing, known + LoopsOf(t));
    case InfiniteLoop(loop, body) => TypedBlockHandled(body, enclosing + {loop}, known + {loop});
    case ForLoop(loop, _, _, _, _, body) => TypedBlockHandled(body, enclosing + {loop}, known + {loop});
    case _ =>
  }

  lemma {:induction false} TypedBlockHandled(b: Block, enclosing: set<nat>, known: set<nat>)
    requires TypedBlock(b, enclosing) && PlainBlock(b) && enclosing <= known
    ensures CodeGeneration.HandledBlock(b, known)
    decreases b, 0
  {
    match b
    case End =>
    case Then(s, rest) =>
      TypedIsHandled(s, enclosing, known);
      TypedBlockHandled(rest, enclosing, known + LoopsIn(s));
  }

  /** The variables of what the generator has code for are of types it has variables of. */
  lemma {:induction false} PlainVars(e: Expression)
    requires Plain(e)
    ensures forall v <- VarsIn(e) :: HasValues(v.typ)
    decreases e, 0
  {
    match e
    case Cast(inner, _) => PlainVars(inner);
    case Unary(_, operand) => PlainVars(operand);
    case Binary(_, left, right) => PlainVars(left); PlainVars(right);
    case Call(_, arguments, _) => PlainVarsInAll(arguments);
    case _ =>
  }

  lemma {:induction false} PlainVarsInAll(arguments: Arguments)
    requires PlainAll(arguments)
    ensures forall v <- VarsInAll(arguments) :: HasValues(v.typ)
    decreases arguments, 0
  {
    match arguments
    case NoArguments =>
    case Argument(first, rest) => PlainVars(first); PlainVarsInAll(rest);
  }

  lemma {:induction false} PlainVarsOfStatement(s: Statement)
    requires PlainStatement(s)
    ensures forall v <- VarsOfStatement(s) :: HasValues(v.typ)
    decreases s, 0
  {
    match s
    case Conditional(c, t, f) => PlainVars(c); PlainVarsOf(t); PlainVarsOf(f);
    case InfiniteLoop(_, body) => PlainVarsOf(body);
    case ForLoop(_, _, init, end, step, body) => PlainVars(init); PlainVars(end); PlainVars(step); PlainVarsOf(body);
    case Assignment(_, e) => PlainVars(e);
    case FunctionCall(_, arguments, _) => PlainVarsInAll(arguments);
    case ExitFunction(e) => PlainVars(e);
    case _ =>
  }

  lemma {:induction false} PlainVarsOf(b: Block)
    requires PlainBlock(b)
    ensures forall v <- VarsOf(b) :: HasValues(v.typ)
    decreases b, 0
  {
    match b
    case End =>
    case Then(s, rest) => PlainVarsOfStatement(s); PlainVarsOf(rest);
  }
}
