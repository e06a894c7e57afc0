/** Which converted functions LLVM accepts, in terms of the syntax tree. */
module Acceptance {
  import opened Words
  import opened Ir
  import opened LoweringFrames
  import opened Lowering
  import opened ExpressionLowering
  import opened Matching
  import opened BlockStructure
  import opened WellFormed
  import opened TypedIr
  import opened AbstractSyntax
  import opened AstConversion
  import opened Compilation
  import E = LabelResolution
  import S = Semantics

  // Labels and explicit returns.

  function NamesIn(s: AstStatement): set<string>
    decreases s, 0
  {
    match s
    case AstGoto(name) => {name}
    case AstSubCall(name) => {name}
    case AstConditional(_, t, f) => NamesOf(t) + NamesOf(f)
    case AstForLoop(_, _, _, _, _, body) => NamesOf(body)
    case AstInfiniteLoop(body) => NamesOf(body)
    case _ => {}
  }

  /** The names that are jumped to. */
  function NamesOf(b: AstBlock): set<string>
    decreases b, 0
  {
    match b
    case AstEnd => {}
    case AstThen(s, rest) => NamesIn(s) + NamesOf(rest)
  }

  predicate NoFuncExitIn(s: AstStatement)
    decreases s, 0
  {
    match s
    case AstFuncExit(_) => false
    case AstConditional(_, t, f) => NoFuncExit(t) && NoFuncExit(f)
    case AstForLoop(_, _, _, _, _, body) => NoFuncExit(body)
    case AstInfiniteLoop(body) => NoFuncExit(body)
    case _ => true
  }

  predicate NoFuncExit(b: AstBlock)
    decreases b, 0
  {
    b.AstThen? ==> NoFuncExitIn(b.head) && NoFuncExit(b.tail)
  }

  /** The first label of the name is one of `labels`. */
  predicate FirstIsIn(all: seq<E.Event>, labels: set<nat>, name: string) {
    E.FirstLabel(all, name).Some? && E.FirstLabel(all, name).value in labels
  }

  ghost predicate AllMet(all: seq<E.Event>, labels: set<nat>) {
    forall l <- labels :: exists e :: e in all && e.LabelMet? && e.node == l
  }

  lemma {:induction false} LabelsAreMetIn(s: AstStatement, r: Statement, all: seq<E.Event>, index: Index, inner: Option<nat>)
    requires ResolvedIn(s, r, all) && MirrorsStatement(index, s, r, inner)
    ensures AllMet(all, LabelsIn(r))
    decreases s, 0
  {
    match s
    case AstLabel(name) => assert E.LabelMet(name, r.id) in all && LabelsIn(r) == {r.id};
    case AstConditional(_, t, f) =>
      LabelsAreMet(t, r.trueBranch, all, index, inner);
      LabelsAreMet(f, r.falseBranch, all, index, inner);
    case AstForLoop(_, _, _, _, _, body) => LabelsAreMet(body, r.body, all, index, Some(r.loop));
    case AstInfiniteLoop(body) => LabelsAreMet(body, r.body, all, index, Some(r.loop));
    case _ =>
  }

  lemma {:induction false} LabelsAreMet(b: AstBlock, r: Block, all: seq<E.Event>, index: Index, inner: Option<nat>)
    requires Resolved(b, r, all) && MirrorsBlock(index, b, r, inner)
    ensures AllMet(all, LabelsOf(r))
    decreases b, 0
  {
    if b.AstThen? {
      LabelsAreMetIn(b.head, r.head, all, index, inner);
      LabelsAreMet(b.tail, r.tail, all, index, inner);
    }
  }

  lemma JumpInside(all: seq<E.Event>, labels: set<nat>, name: string, target: nat)
    requires AllMet(all, labels) && PointsTo(target, name, all)
    ensures target in labels <==> FirstIsIn(all, labels, name)
  {
    if target in labels {
      var e :| e in all && e.LabelMet? && e.node == target;
    }
  }

  lemma {:induction false} JumpsInsideIn(s: AstStatement, r: Statement, all: seq<E.Event>, labels: set<nat>, index: Index,
                                         inner: Option<nat>)
    requires ResolvedIn(s, r, all) && MirrorsStatement(index, s, r, inner) && PlainStatement(r) && AllMet(all, labels)
    ensures JumpsIn(r) <= labels <==> forall n <- NamesIn(s) :: FirstIsIn(all, labels, n)
    ensures NoReturnIn(r) <==> NoFuncExitIn(s)
    decreases s, 0
  {
    hide AllMet, FirstIsIn, PointsTo;
    match s
    case AstGoto(name) => JumpInside(all, labels, name, r.target);
    case AstSubCall(name) => JumpInside(all, labels, name, r.target);
    case AstConditional(_, t, f) =>
      JumpsInside(t, r.trueBranch, all, labels, index, inner);
      JumpsInside(f, r.falseBranch, all, labels, index, inner);
    case AstForLoop(_, _, _, _, _, body) => JumpsInside(body, r.body, all, labels, index, Some(r.loop));
    case AstInfiniteLoop(body) => JumpsInside(body, r.body, all, labels, index, Some(r.loop));
    case _ =>
  }

  lemma {:induction false} JumpsInside(b: AstBlock, r: Block, all: seq<E.Event>, labels: set<nat>, index: Index, inner: Option<nat>)
    requires Resolved(b, r, all) && MirrorsBlock(index, b, r, inner) && PlainBlock(r) && AllMet(all, labels)
    ensures JumpsOf(r) <= labels <==> forall n <- NamesOf(b) :: FirstIsIn(all, labels, n)
    ensures NoReturn(r) <==> NoFuncExit(b)
    decreases b, 0
  {
    hide AllMet, FirstIsIn;
    if b.AstThen? {
      JumpsInsideIn(b.head, r.head, all, labels, index, inner);
      JumpsInside(b.tail, r.tail, all, labels, index, inner);
    }
  }

  // Calls of commands without arguments.

  /** All overloads found under a name have the symbol that was looked up. */
  ghost predicate OneSymbol(index: Index) {
    forall n: string, c, d :: c in index.commands(n) && d in index.commands(n) ==> c.dbSymbol == d.dbSymbol
  }

  predicate BareIsComplete(index: Index, name: string) {
    index.commands(name) != [] && index.commands(name)[0].params == []
  }

  /** The first overload of each command called without arguments has no parameters. */
  predicate CommandsComplete(index: Index, e: AstExpression)
    decreases e, 0
  {
    match e
    case AstUnary(_, operand) => CommandsComplete(index, operand)
    case AstBinary(_, lhs, rhs) => CommandsComplete(index, lhs) && CommandsComplete(index, rhs)
    case AstCommand(name, arguments) => CommandComplete(index, name, arguments)
    case AstFuncCall(_, arguments) => ArgumentsComplete(index, arguments)
    case _ => true
  }

  predicate CommandComplete(index: Index, name: string, arguments: AstArguments)
    decreases arguments, 1
  {
    (arguments.AstNoArguments? ==> BareIsComplete(index, name)) && ArgumentsComplete(index, arguments)
  }

  predicate ArgumentsComplete(index: Index, arguments: AstArguments)
    decreases arguments, 0
  {
    arguments.AstArgument? ==> CommandsComplete(index, arguments.first) && ArgumentsComplete(index, arguments.rest)
  }

  predicate EndsProgram(index: Index, isMain: bool, name: string) {
    isMain && index.commands(name) != [] && index.commands(name)[0].dbSymbol == "end"
  }

  predicate CommandsCompleteIn(index: Index, isMain: bool, s: AstStatement)
    decreases s, 0
  {
    match s
    case AstVarDecl(_, _, _, e) => CommandsComplete(index, e)
    case AstVarAssignment(_, _, e) => CommandsComplete(index, e)
    case AstConditional(c, t, f) =>
      CommandsComplete(index, c) && CommandsCompleteInBlock(index, isMain, t) && CommandsCompleteInBlock(index, isMain, f)
    case AstFuncExit(e) => CommandsComplete(index, e)
    case AstForLoop(_, _, init, end, step, body) =>
      && CommandsComplete(index, init) && CommandsComplete(index, end) && (step.Some? ==> CommandsComplete(index, step.value))
      && CommandsCompleteInBlock(index, isMain, body)
    case AstInfiniteLoop(body) => CommandsCompleteInBlock(index, isMain, body)
    case AstFuncCallStmnt(_, arguments) => ArgumentsComplete(index, arguments)
    case AstCommandStmnt(name, arguments) => EndsProgram(index, isMain, name) || CommandComplete(index, name, arguments)
    case _ => true
  }

  predicate CommandsCompleteInBlock(index: Index, isMain: bool, b: AstBlock)
    decreases b, 0
  {
    b.AstThen? ==> CommandsCompleteIn(index, isMain, b.head) && CommandsCompleteInBlock(index, isMain, b.tail)
  }

  // Values of functions.

  predicate NoResultUsed(e: AstExpression)
    decreases e, 0
  {
    match e
    case AstUnary(_, operand) => HasValue(operand)
    case AstBinary(_, lhs, rhs) => HasValue(lhs) && HasValue(rhs)
    case AstCommand(_, arguments) => AllHaveValues(arguments)
    case AstFuncCall(_, arguments) => AllHaveValues(arguments)
    case _ => true
  }

  /** The value of the expression does not come from a function, nor do those used for it. */
  predicate HasValue(e: AstExpression)
    decreases e, 1
  {
    !e.AstFuncCall? && NoResultUsed(e)
  }

  predicate AllHaveValues(arguments: AstArguments)
    decreases arguments, 0
  {
    arguments.AstArgument? ==> HasValue(arguments.first) && AllHaveValues(arguments.rest)
  }

  predicate NoResultUsedIn(index: Index, isMain: bool, s: AstStatement)
    decreases s, 0
  {
    match s
    case AstVarDecl(_, _, _, e) => HasValue(e)
    case AstVarAssignment(_, _, e) => HasValue(e)
    case AstConditional(c, t, f) => HasValue(c) && NoResultUsedInBlock(index, isMain, t) && NoResultUsedInBlock(index, isMain, f)
    case AstFuncExit(e) => HasValue(e)
    case AstForLoop(_, _, init, end, step, body) =>
      HasValue(init) && HasValue(end) && (step.Some? ==> HasValue(step.value)) && NoResultUsedInBlock(index, isMain, body)
    case AstInfiniteLoop(body) => NoResultUsedInBlock(index, isMain, body)
    case AstFuncCallStmnt(_, arguments) => AllHaveValues(arguments)
    case AstCommandStmnt(name, arguments) => EndsProgram(index, isMain, name) || AllHaveValues(arguments)
    case _ => true
  }

  /** Functions are only called as statements. */
  predicate NoResultUsedInBlock(index: Index, isMain: bool, b: AstBlock)
    decreases b, 0
  {
    b.AstThen? ==> NoResultUsedIn(index, isMain, b.head) && NoResultUsedInBlock(index, isMain, b.tail)
  }

  // The right operand of a binary bitwise-not is evaluated and forgotten.

  predicate NotsForgetNone(e: AstExpression)
    decreases e, 0
  {
    match e
    case AstUnary(_, operand) => NotsForgetNone(operand)
    case AstBinary(op, lhs, rhs) => (op == BitwiseNot ==> !rhs.AstFuncCall?) && NotsForgetNone(lhs) && NotsForgetNone(rhs)
    case AstCommand(_, arguments) => ArgumentsForgetNone(arguments)
    case AstFuncCall(_, arguments) => ArgumentsForgetNone(arguments)
    case _ => true
  }

  predicate ArgumentsForgetNone(arguments: AstArguments)
    decreases arguments, 0
  {
    arguments.AstArgument? ==> NotsForgetNone(arguments.first) && ArgumentsForgetNone(arguments.rest)
  }

  predicate NotsForgetNoneIn(s: AstStatement)
    decreases s, 0
  {
    match s
    case AstVarDecl(_, _, _, e) => NotsForgetNone(e)
    case AstVarAssignment(_, _, e) => NotsForgetNone(e)
    case AstConditional(c, t, f) => NotsForgetNone(c) && NotsForgetNoneInBlock(t) && NotsForgetNoneInBlock(f)
    case AstFuncExit(e) => NotsForgetNone(e)
    case AstForLoop(_, _, init, end, step, body) =>
      NotsForgetNone(init) && NotsForgetNone(end) && (step.Some? ==> NotsForgetNone(step.value)) && NotsForgetNoneInBlock(body)
    case AstInfiniteLoop(body) => NotsForgetNoneInBlock(body)
    case AstFuncCallStmnt(_, arguments) => ArgumentsForgetNone(arguments)
    case AstCommandStmnt(_, arguments) => ArgumentsForgetNone(arguments)
    case _ => true
  }

  /** No binary bitwise-not forgets what a function returns. */
  predicate NotsForgetNoneInBlock(b: AstBlock)
    decreases b, 0
  {
    b.AstThen? ==> NotsForgetNoneIn(b.head) && NotsForgetNoneInBlock(b.tail)
  }

  // Both, in the tree and in what it is converted to.

  lemma {:induction false} ExpressionAccepted(index: Index, e: AstExpression, r: Expression)
    requires Mirrors(index, e, r) && Typed(r) && Plain(r)
    ensures CallsComplete(r) <==> CommandsComplete(index, e)
    ensures NoResultUsed(e) ==> ValuesExist(r)
    ensures ValuesExist(r) && NotsForgetNone(e) ==> NoResultUsed(e)
    ensures YieldsNothing(r) <==> e.AstFuncCall?
    decreases e, 0
  {
    hide CallsCommand, CallsFunction, Accepts, TypedCall, BareIsComplete;
    match e
    case AstUnary(_, operand) =>
      ExpressionAccepted(index, operand, r.operand);
      assert NoResultUsed(e) <==> HasValue(operand);
    case AstBinary(_, lhs, rhs) =>
      OperandAccepted(index, lhs, r.left);
      OperandAccepted(index, rhs, r.right);
      assert NoResultUsed(e) <==> HasValue(lhs) && HasValue(rhs);
    case AstCommand(name, arguments) =>
      CommandAccepted(index, name, arguments, r.callee, r.arguments, r.returnType);
    case AstFuncCall(name, arguments) =>
      FunctionAccepted(index, name, arguments, r.callee, r.arguments, r.returnType);
    case _ =>
  }

  /** Up to a cast, which has a value if its operand has. */
  lemma {:induction false} OperandAccepted(index: Index, e: AstExpression, r: Expression)
    requires MirrorsUpToCast(index, e, r) && Typed(r) && Plain(r)
    ensures CallsComplete(r) <==> CommandsComplete(index, e)
    ensures HasValue(e) ==> ValueExists(r)
    ensures ValueExists(r) && NotsForgetNone(e) ==> HasValue(e)
    ensures ValuesExist(r) && !e.AstFuncCall? ==> ValueExists(r)
    decreases e, 1
  {
    if Mirrors(index, e, r) {
      ExpressionAccepted(index, e, r);
    } else {
      ExpressionAccepted(index, e, r.inner);
    }
  }

  lemma {:induction false} ArgumentsAccepted(index: Index, arguments: AstArguments, rs: Arguments)
    requires MirrorsAll(index, arguments, rs) && TypedAll(rs) && PlainAll(rs)
    ensures AllCallsComplete(rs) <==> ArgumentsComplete(index, arguments)
    ensures AllHaveValues(arguments) ==> AllValuesExist(rs)
    ensures AllValuesExist(rs) && ArgumentsForgetNone(arguments) ==> AllHaveValues(arguments)
    decreases arguments, 0
  {
    if arguments.AstArgument? {
      OperandAccepted(index, arguments.first, rs.first);
      ArgumentsAccepted(index, arguments.rest, rs.rest);
    }
  }

  /** Arguments of the types of the parameters have their widths. */
  lemma {:induction false} FittingIsAccepted(rs: Arguments, params: seq<Option<Type>>)
    requires PlainAll(rs) && Fits(Types(rs), params)
    ensures Accepts(params, rs)
  {
    if rs.Argument? {
      assert Types(rs)[0] == GetType(rs.first) == params[0];
      assert forall i :: 0 <= i < |Types(rs.rest)| ==> Types(rs.rest)[i] == Types(rs)[i + 1] == params[1..][i];
      FittingIsAccepted(rs.rest, params[1..]);
    }
  }

  lemma {:induction false} CommandAccepted(index: Index, name: string, arguments: AstArguments, callee: Callee, rs: Arguments, ret: Type)
    requires MirrorsAll(index, arguments, rs) && CallsCommand(index, name, callee, rs, ret)
    requires TypedCall(callee, rs, ret) && PlainAll(rs)
    ensures callee.Command? && (CallComplete(callee, rs) <==> CommandComplete(index, name, arguments))
    ensures AllHaveValues(arguments) ==> AllValuesExist(rs)
    ensures AllValuesExist(rs) && ArgumentsForgetNone(arguments) ==> AllHaveValues(arguments)
    decreases arguments, 1
  {
    hide Mirrors, MirrorsUpToCast;
    ArgumentsAccepted(index, arguments, rs);
    if rs.NoArguments? {
      BareAccepted(index, name, callee, ret);
    } else {
      FittingIsAccepted(rs, callee.params);
      var c, types :| ChosenFor(index.commands(name), c, types) && callee == CommandCallee(c, ret);
    }
  }

  lemma BareAccepted(index: Index, name: string, callee: Callee, ret: Type)
    requires CallsCommand(index, name, callee, NoArguments, ret)
    ensures callee.Command? && (Accepts(callee.params, NoArguments) <==> BareIsComplete(index, name))
  {
    var c: CommandDecl, types: seq<Type> :|
      && ChosenFor(index.commands(name), c, types) && SomeTypes(types) == TypesBefore(NoArguments)
      && callee == CommandCallee(c, ret);
    assert |types| == |SomeTypes(types)|;
    assert |ParamTypes(c)| == |c.params|;
  }

  lemma {:induction false} FunctionAccepted(index: Index, name: string, arguments: AstArguments, callee: Callee, rs: Arguments, ret: Type)
    requires MirrorsAll(index, arguments, rs) && CallsFunction(index, name, callee)
    requires TypedCall(callee, rs, ret) && PlainAll(rs)
    ensures callee.UserFunction? && (CallComplete(callee, rs) <==> ArgumentsComplete(index, arguments))
    ensures AllHaveValues(arguments) ==> AllValuesExist(rs)
    ensures AllValuesExist(rs) && ArgumentsForgetNone(arguments) ==> AllHaveValues(arguments)
    decreases arguments, 1
  {
    ArgumentsAccepted(index, arguments, rs);
    FittingIsAccepted(rs, callee.params);
  }

  lemma EndsAlike(index: Index, isMain: bool, name: string, callee: Callee, rs: Arguments, ret: Type)
    requires OneSymbol(index) && CallsCommand(index, name, callee, rs, ret)
    ensures S.EndsProgram(isMain, callee) <==> EndsProgram(index, isMain, name)
  {
    var c, types :| ChosenFor(index.commands(name), c, types) && callee == CommandCallee(c, ret);
    assert index.commands(name)[0] in index.commands(name);
  }

  lemma {:induction false} StatementAccepted(index: Index, isMain: bool, s: AstStatement, r: Statement, inner: Option<nat>,
                                             enclosing: set<nat>)
    requires OneSymbol(index) && MirrorsStatement(index, s, r, inner) && TypedStatement(r, enclosing) && PlainStatement(r)
    ensures CallsCompleteIn(isMain, r) <==> CommandsCompleteIn(index, isMain, s)
    ensures NoResultUsedIn(index, isMain, s) ==> ValuesExistIn(isMain, r)
    ensures ValuesExistIn(isMain, r) && NotsForgetNoneIn(s) ==> NoResultUsedIn(index, isMain, s)
    decreases s, 0
  {
    hide OneSymbol, MirrorsUpToCast, Mirrors, MirrorsAll, Typed, TypedAll, TypedCall, Plain, PlainAll, CallsCommand, CallsFunction;
    hide ValueExists, CallsComplete, CallComplete, HasValue, CommandsComplete, CommandComplete, NotsForgetNone, EndsProgram, S.EndsProgram;
    match s
    case AstVarDecl(_, _, _, e) => OperandAccepted(index, e, r.expression);
    case AstVarAssignment(_, _, e) => OperandAccepted(index, e, r.expression);
    case AstConditional(c, t, f) =>
      OperandAccepted(index, c, r.condition);
      BlockAccepted(index, isMain, t, r.trueBranch, inner, enclosing);
      BlockAccepted(index, isMain, f, r.falseBranch, inner, enclosing);
    case AstFuncExit(e) => UncastAccepted(index, e, r.expression);
    case AstForLoop(_, _, init, end, step, body) =>
      OperandAccepted(index, init, r.init);
      OperandAccepted(index, end, r.end);
      OperandAccepted(index, StepOf(step), r.step);
      OneIsAccepted(index);
      BlockAccepted(index, isMain, body, r.body, Some(r.loop), enclosing + {r.loop});
    case AstInfiniteLoop(body) => BlockAccepted(index, isMain, body, r.body, Some(r.loop), enclosing + {r.loop});
    case AstFuncCallStmnt(name, arguments) =>
      FunctionAccepted(index, name, arguments, r.callee, r.arguments, r.returnType);
      FunctionEndsNothing(isMain, r.callee);
    case AstCommandStmnt(name, arguments) =>
      EndsAlike(index, isMain, name, r.callee, r.arguments, r.returnType);
      CommandAccepted(index, name, arguments, r.callee, r.arguments, r.returnType);
    case _ =>
  }

  lemma FunctionEndsNothing(isMain: bool, callee: Callee)
    requires callee.UserFunction?
    ensures !S.EndsProgram(isMain, callee)
  {
  }

  lemma UncastAccepted(index: Index, e: AstExpression, r: Expression)
    requires Mirrors(index, e, r) && Typed(r) && Plain(r)
    ensures CallsComplete(r) <==> CommandsComplete(index, e)
    ensures HasValue(e) ==> ValueExists(r)
    ensures ValueExists(r) && NotsForgetNone(e) ==> HasValue(e)
  {
    ExpressionAccepted(index, e, r);
  }

  /** The step that is added where none is written. */
  lemma OneIsAccepted(index: Index)
    ensures var one := AstLiteral(Integer, 1); CommandsComplete(index, one) && HasValue(one) && NotsForgetNone(one)
  {
  }

  lemma {:induction false} BlockAccepted(index: Index, isMain: bool, b: AstBlock, r: Block, inner: Option<nat>, enclosing: set<nat>)
    requires OneSymbol(index) && MirrorsBlock(index, b, r, inner) && TypedBlock(r, enclosing) && PlainBlock(r)
    ensures CallsCompleteInBlock(isMain, r) <==> CommandsCompleteInBlock(index, isMain, b)
    ensures NoResultUsedInBlock(index, isMain, b) ==> ValuesExistInBlock(isMain, r)
    ensures ValuesExistInBlock(isMain, r) && NotsForgetNoneInBlock(b) ==> NoResultUsedInBlock(index, isMain, b)
    decreases b, 0
  {
    hide OneSymbol;
    if b.AstThen? {
      StatementAccepted(index, isMain, b.head, r.head, inner, enclosing);
      BlockAccepted(index, isMain, b.tail, r.tail, inner, enclosing);
    }
  }

  // The whole function.

  /** What can be read off the tree, but for the values used: the first label of each name jumped
      to is in the function, which has no `exitfunction`, and each command called without
      arguments needs none. */
  predicate AcceptableTree(index: Index, isMain: bool, b: AstBlock, labels: set<nat>, all: seq<E.Event>) {
    (forall n <- NamesOf(b) :: FirstIsIn(all, labels, n)) && NoFuncExit(b) && CommandsCompleteInBlock(index, isMain, b)
  }

  /** The code of a converted function is well-formed exactly if that is so and no value of a
      function is used. For the latter it is enough that functions are only called as statements,
      which is also necessary unless a binary bitwise-not forgets the result. */
  lemma ConvertedWellFormedExactly(index: Index, isMain: bool, b: AstBlock, result: Option<AstExpression>, f: Function,
                                   all: seq<E.Event>)
    requires OneSymbol(index) && Converted(index, b, result, f) && PlainFunction(f) && Resolved(b, f.body, all)
    ensures WellFormedFunction(LowerFunction(isMain, f.variables, f.body))
      <==> AcceptableTree(index, isMain, b, LabelsOf(f.body), all) && ValuesExistInBlock(isMain, f.body)
    ensures NoResultUsedInBlock(index, isMain, b) ==> ValuesExistInBlock(isMain, f.body)
    ensures ValuesExistInBlock(isMain, f.body) && NotsForgetNoneInBlock(b) ==> NoResultUsedInBlock(index, isMain, b)
  {
    hide WellFormedFunction, LowerFunction, MirrorsBlock, Resolved, PlainBlock, Plain, UniqueLabels, TypedBlock, AllMet, FirstIsIn;
    hide OneSymbol, FormedBlock, Integral, CallsCompleteInBlock, ValuesExistInBlock, ProperVariables, NoReturn, NoFuncExit;
    hide CommandsCompleteInBlock, NoResultUsedInBlock, NotsForgetNoneInBlock;
    ConvertedIsFormed(index, b, result, f);
    LabelsAreMet(b, f.body, all, index, None);
    JumpsInside(b, f.body, all, LabelsOf(f.body), index, None);
    BlockAccepted(index, isMain, b, f.body, None, {});
    WellFormedExactly(isMain, f.variables, f.body);
  }

  /** `x = foo()` is converted, with the type of the return expression of foo if that comes first in
      the program, but LLVM refuses the code. */
  lemma FunctionResultIsRefused(index: Index, isMain: bool, x: string, foo: string, f: Function, all: seq<E.Event>)
    requires var b := AstThen(AstVarAssignment(x, NoAnnotation, AstFuncCall(foo, AstNoArguments)), AstEnd);
      OneSymbol(index) && Converted(index, b, None, f) && PlainFunction(f) && Resolved(b, f.body, all)
    ensures !WellFormedFunction(LowerFunction(isMain, f.variables, f.body))
  {
    hide WellFormedFunction, LowerFunction, Converted, PlainFunction, OneSymbol, Resolved, AcceptableTree;
    var e := AstFuncCall(foo, AstNoArguments);
    var s := AstVarAssignment(x, NoAnnotation, e);
    var b := AstThen(s, AstEnd);
    assert !HasValue(e) && !NoResultUsedIn(index, isMain, s) && !NoResultUsedInBlock(index, isMain, b);
    assert ArgumentsForgetNone(AstNoArguments);
    assert NotsForgetNone(e);
    assert NotsForgetNoneIn(s);
    assert NotsForgetNoneInBlock(AstEnd) && NotsForgetNoneInBlock(b);
    ConvertedWellFormedExactly(index, isMain, b, None, f, all);
  }

  /** A command without its arguments, where the first overload needs some. */
  lemma BareCommandIsRefused(index: Index, isMain: bool, name: string, f: Function, all: seq<E.Event>)
    requires !BareIsComplete(index, name) && !EndsProgram(index, isMain, name)
    requires var b := AstThen(AstCommandStmnt(name, AstNoArguments), AstEnd);
      OneSymbol(index) && Converted(index, b, None, f) && PlainFunction(f) && Resolved(b, f.body, all)
    ensures !WellFormedFunction(LowerFunction(isMain, f.variables, f.body))
  {
    hide WellFormedFunction, LowerFunction, Converted, PlainFunction, OneSymbol, Resolved, FirstIsIn;
    var s := AstCommandStmnt(name, AstNoArguments);
    var b := AstThen(s, AstEnd);
    assert !CommandComplete(index, name, AstNoArguments);
    assert !CommandsCompleteIn(index, isMain, s);
    assert !CommandsCompleteInBlock(index, isMain, b);
    ConvertedWellFormedExactly(index, isMain, b, None, f, all);
  }
}
