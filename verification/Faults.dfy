/** Which programs have nothing in them for the converter to complain about, told from the syntax
    tree alone. */
module Faults {
  import opened Words
  import opened Ir
  import opened AbstractSyntax

  // What names stand for: the types of the variables known so far, where all others have the type of
  // their annotation, and of the return expressions of the functions converted so far.

  type Name = (string, Annotation)
  type Results = map<string, Option<Type>>

  datatype Context = Context(index: Index, results: Results, env: imap<Name, Type>)

  ghost function EnvOf(scope: Scope): imap<Name, Type> {
    imap k: Name :: if k in scope then scope[k] else GetTypeFromAnnotation(k.1)
  }

  function ReturnTypeOf(results: Results, name: string): Option<Type> {
    if name in results then results[name] else Some(Void)
  }

  /** Names mentioned for the first time become variables. */
  function ScopeWith(scope: Scope, names: set<Name>): Scope {
    map k | k in scope.Keys + names :: if k in scope then scope[k] else GetTypeFromAnnotation(k.1)
  }

  function Mentions(e: AstExpression): set<Name>
    decreases e, 0
  {
    match e
    case AstUnary(_, operand) => Mentions(operand)
    case AstBinary(_, lhs, rhs) => Mentions(lhs) + Mentions(rhs)
    case AstVarRef(name, annotation) => {(name, annotation)}
    case AstLiteral(_, _) => {}
    case AstCommand(_, arguments) => MentionsAll(arguments)
    case AstFuncCall(_, arguments) => MentionsAll(arguments)
  }

  function MentionsAll(arguments: AstArguments): set<Name>
    decreases arguments, 0
  {
    match arguments
    case AstNoArguments => {}
    case AstArgument(first, rest) => Mentions(first) + MentionsAll(rest)
  }

  lemma ScopeWithTwice(scope: Scope, a: set<Name>, b: set<Name>)
    ensures ScopeWith(ScopeWith(scope, a), b) == ScopeWith(scope, a + b)
  {
  }

  lemma ScopeWithNone(scope: Scope)
    ensures ScopeWith(scope, {}) == scope
  {
  }

  lemma EnvStays(scope: Scope, names: set<Name>)
    ensures EnvOf(ScopeWith(scope, names)) == EnvOf(scope)
  {
  }

  // Types. There may be several if overloads with equal scores return different ones.

  ghost predicate HasType(cx: Context, e: AstExpression, t: Option<Type>)
    decreases e, 0
  {
    match e
    case AstUnary(_, operand) => HasType(cx, operand, t)
    case AstBinary(op, lhs, _) =>
      if ComparesOrConnects(op) then t == Some(Builtin(Boolean))
      else if op == LogicalXor then t == None
      else HasType(cx, lhs, t)
    case AstVarRef(name, annotation) => (name, annotation) in cx.env && t == Some(cx.env[(name, annotation)])
    case AstLiteral(builtin, _) => t == Some(Builtin(builtin))
    case AstCommand(name, arguments) =>
      exists c: CommandDecl, types: seq<Type> ::
        && ChosenFor(cx.index.commands(name), c, types) && HasTypes(cx, arguments, SomeTypes(types))
        && t.Some? && t == GetTypeFromCommandType(c.returnType)
    case AstFuncCall(name, _) => t == ReturnTypeOf(cx.results, name)
  }

  ghost predicate HasTypes(cx: Context, arguments: AstArguments, ts: seq<Option<Type>>)
    decreases arguments, 0
  {
    match arguments
    case AstNoArguments => ts == []
    case AstArgument(first, rest) => ts != [] && HasType(cx, first, ts[0]) && HasTypes(cx, rest, ts[1..])
  }

  // Expressions without faults.

  ghost predicate Faultless(cx: Context, e: AstExpression)
    decreases e, 0
  {
    match e
    case AstUnary(_, operand) => Faultless(cx, operand)
    case AstBinary(_, lhs, rhs) =>
      && Faultless(cx, lhs) && Faultless(cx, rhs)
      && forall t, u :: HasType(cx, lhs, t) && HasType(cx, rhs, u) ==> Joins(t, u)
    case AstVarRef(_, _) => true
    case AstLiteral(_, _) => true
    case AstCommand(name, arguments) => FaultlessCommand(cx, name, arguments)
    case AstFuncCall(name, arguments) => FaultlessFunction(cx, name, arguments)
  }

  /** Both operands have a type, and the right one is converted to that of the left. */
  predicate Joins(left: Option<Type>, right: Option<Type>) {
    left.Some? && right.Some? && IsTypeConvertible(right.value, left.value)
  }

  /** The command exists, its arguments have types, some overload takes them, and whichever is
      chosen results something there is a type for. */
  ghost predicate FaultlessCommand(cx: Context, name: string, arguments: AstArguments)
    decreases arguments, 1
  {
    && FaultlessAll(cx, arguments) && cx.index.commands(name) != []
    && (forall ts: seq<Option<Type>> :: HasTypes(cx, arguments, ts) ==> forall i :: 0 <= i < |ts| ==> ts[i].Some?)
    && forall types :: HasTypes(cx, arguments, SomeTypes(types)) ==> Resolves(cx.index.commands(name), types)
  }

  ghost predicate Resolves(candidates: seq<CommandDecl>, types: seq<Type>) {
    && (types == [] || exists c <- candidates :: Applicable(c, types))
    && forall c :: ChosenFor(candidates, c, types) ==> GetTypeFromCommandType(c.returnType).Some?
  }

  ghost predicate FaultlessAll(cx: Context, arguments: AstArguments)
    decreases arguments, 0
  {
    match arguments
    case AstNoArguments => true
    case AstArgument(first, rest) => Faultless(cx, first) && FaultlessAll(cx, rest)
  }

  /** The function exists and takes the arguments, and its return expression has a type. */
  ghost predicate FaultlessFunction(cx: Context, name: string, arguments: AstArguments)
    decreases arguments, 1
  {
    && name in cx.index.functions && |cx.index.functions[name]| == Length(arguments)
    && FaultlessTo(cx, arguments, cx.index.functions[name]) && ReturnTypeOf(cx.results, name).Some?
  }

  ghost predicate FaultlessTo(cx: Context, arguments: AstArguments, parameters: seq<Type>)
    decreases arguments, 0
  {
    match arguments
    case AstNoArguments => true
    case AstArgument(first, rest) =>
      && parameters != [] && Faultless(cx, first) && (forall t :: HasType(cx, first, t) ==> Becomes(t, parameters[0]))
      && FaultlessTo(cx, rest, parameters[1..])
  }

  predicate Becomes(t: Option<Type>, target: Type) {
    t.Some? && IsTypeConvertible(t.value, target)
  }

  ghost predicate FaultlessAs(cx: Context, e: AstExpression, target: Type) {
    Faultless(cx, e) && forall t :: HasType(cx, e, t) ==> Becomes(t, target)
  }

  // Statements without faults, and the variables known behind them.

  ghost predicate FaultlessStatement(index: Index, results: Results, scope: Scope, inLoop: bool, s: AstStatement)
    decreases s, 0
  {
    var cx := Context(index, results, EnvOf(scope));
    match s
    case AstVarDecl(name, annotation, builtin, initializer) =>
      && (name, annotation) !in scope
      && FaultlessAs(cx.(env := EnvOf(scope[(name, annotation) := Builtin(builtin)])), initializer, Builtin(builtin))
    case AstVarAssignment(name, annotation, expression) => FaultlessAs(cx, expression, cx.env[(name, annotation)])
    case AstConditional(condition, t, f) =>
      var scope1 := ScopeWith(scope, Mentions(condition));
      && FaultlessAs(cx, condition, Builtin(Boolean))
      && FaultlessBlock(index, results, scope1, inLoop, t)
      && FaultlessBlock(index, results, ScopeBehind(scope1, t), inLoop, f)
    case AstFuncExit(returnValue) => Faultless(cx, returnValue)
    case AstForLoop(name, annotation, init, end, step, body) =>
      var target := cx.env[(name, annotation)];
      && FaultlessAs(cx, init, target) && FaultlessAs(cx, end, target) && FaultlessAs(cx, StepOf(step), target)
      && FaultlessBlock(index, results, ScopeWith(scope, MentionsInFor(s)), true, body)
    case AstWhileLoop(condition, body) =>
      Faultless(cx, condition) && FaultlessBlock(index, results, ScopeWith(scope, Mentions(condition)), true, body)
    case AstUntilLoop(condition, body) =>
      Faultless(cx, condition) && FaultlessBlock(index, results, ScopeWith(scope, Mentions(condition)), true, body)
    case AstInfiniteLoop(body) => FaultlessBlock(index, results, scope, true, body)
    case AstExit => inLoop
    case AstFuncCallStmnt(name, arguments) => FaultlessFunction(cx, name, arguments)
    case AstCommandStmnt(name, arguments) => FaultlessCommand(cx, name, arguments)
    case _ => true
  }

  ghost predicate FaultlessBlock(index: Index, results: Results, scope: Scope, inLoop: bool, b: AstBlock)
    decreases b, 0
  {
    match b
    case AstEnd => true
    case AstThen(head, tail) =>
      FaultlessStatement(index, results, scope, inLoop, head) && FaultlessBlock(index, results, ScopeAfter(scope, head), inLoop, tail)
  }

  function MentionsInFor(s: AstStatement): set<Name>
    requires s.AstForLoop?
  {
    {(s.name, s.annotation)} + Mentions(s.init) + Mentions(s.end) + Mentions(StepOf(s.step))
  }

  function ScopeAfter(scope: Scope, s: AstStatement): Scope
    decreases s, 0
  {
    match s
    case AstVarDecl(name, annotation, builtin, initializer) =>
      ScopeWith(scope[(name, annotation) := Builtin(builtin)], Mentions(initializer))
    case AstVarAssignment(name, annotation, expression) => ScopeWith(scope, {(name, annotation)} + Mentions(expression))
    case AstConditional(condition, t, f) => ScopeBehind(ScopeBehind(ScopeWith(scope, Mentions(condition)), t), f)
    case AstFuncExit(returnValue) => ScopeWith(scope, Mentions(returnValue))
    case AstForLoop(_, _, _, _, _, body) => ScopeBehind(ScopeWith(scope, MentionsInFor(s)), body)
    case AstWhileLoop(condition, body) => ScopeBehind(ScopeWith(scope, Mentions(condition)), body)
    case AstUntilLoop(condition, body) => ScopeBehind(ScopeWith(scope, Mentions(condition)), body)
    case AstInfiniteLoop(body) => ScopeBehind(scope, body)
    case AstFuncCallStmnt(_, arguments) => ScopeWith(scope, MentionsAll(arguments))
    case AstCommandStmnt(_, arguments) => ScopeWith(scope, MentionsAll(arguments))
    case _ => scope
  }

  function ScopeBehind(scope: Scope, b: AstBlock): Scope
    decreases b, 0
  {
    match b
    case AstEnd => scope
    case AstThen(head, tail) => ScopeBehind(ScopeAfter(scope, head), tail)
  }

  // Programs without faults: main and then each function, with a scope of its own.

  ghost predicate FaultlessBody(index: Index, results: Results, b: AstBlock, result: Option<AstExpression>) {
    && FaultlessBlock(index, results, map[], false, b)
    && (result.Some? ==> Faultless(Context(index, results, EnvOf(ScopeBehind(map[], b))), result.value))
  }

  /** A variable has to be declared before it is mentioned: 'x = y' with y of type Integer may follow
      a declaration of x, but not come before it. */
  lemma DeclaredBeforeUse(index: Index, results: Results, builtin: BuiltinType)
    requires IsTypeConvertible(Builtin(Integer), Builtin(builtin))
    ensures var decl := AstVarDecl("x", NoAnnotation, builtin, AstLiteral(builtin, 0));
      var use := AstVarAssignment("x", NoAnnotation, AstVarRef("y", NoAnnotation));
      && FaultlessBlock(index, results, map[], false, AstThen(decl, AstThen(use, AstEnd)))
      && !FaultlessBlock(index, results, map[], false, AstThen(use, AstThen(decl, AstEnd)))
  {
    var decl := AstVarDecl("x", NoAnnotation, builtin, AstLiteral(builtin, 0));
    var use := AstVarAssignment("x", NoAnnotation, AstVarRef("y", NoAnnotation));
    var empty: Scope := map[];
    assert ("x", NoAnnotation) in ScopeAfter(empty, use);
    assert ScopeAfter(empty, decl) == empty[("x", NoAnnotation) := Builtin(builtin)];
    assert FaultlessStatement(index, results, ScopeAfter(empty, decl), false, use);
    assert FaultlessBlock(index, results, ScopeAfter(empty, decl), false, AstThen(use, AstEnd));
    assert FaultlessStatement(index, results, empty, false, decl);
    assert !FaultlessStatement(index, results, ScopeAfter(empty, use), false, decl);
    assert !FaultlessBlock(index, results, ScopeAfter(empty, use), false, AstThen(decl, AstEnd));
  }

  // With one return type for all overloads that tie there is nothing to choose.

  ghost predicate TiesReturnTheSame(index: Index) {
    forall name, types, c, d :: ChosenFor(index.commands(name), c, types) && ChosenFor(index.commands(name), d, types)
      ==> c.returnType == d.returnType
  }

  lemma {:induction false} TypeIsUnique(cx: Context, e: AstExpression, t: Option<Type>, u: Option<Type>)
    requires TiesReturnTheSame(cx.index) && HasType(cx, e, t) && HasType(cx, e, u)
    ensures t == u
    decreases e, 0
  {
    match e
    case AstUnary(_, operand) => TypeIsUnique(cx, operand, t, u);
    case AstBinary(op, lhs, _) =>
      if !ComparesOrConnects(op) && op != LogicalXor {
        TypeIsUnique(cx, lhs, t, u);
      }
    case AstCommand(name, arguments) =>
      hide ChosenFor;
      var c: CommandDecl, types: seq<Type> :| ChosenFor(cx.index.commands(name), c, types) && HasTypes(cx, arguments, SomeTypes(types))
        && t.Some? && t == GetTypeFromCommandType(c.returnType);
      var d: CommandDecl, others: seq<Type> :| ChosenFor(cx.index.commands(name), d, others) && HasTypes(cx, arguments, SomeTypes(others))
        && u.Some? && u == GetTypeFromCommandType(d.returnType);
      TypesAreUnique(cx, arguments, SomeTypes(types), SomeTypes(others));
      SameTypes(types, others);
    case _ =>
  }

  lemma SameTypes(a: seq<Type>, b: seq<Type>)
    requires SomeTypes(a) == SomeTypes(b)
    ensures a == b
  {
    assert |a| == |SomeTypes(a)| == |b|;
    forall i | 0 <= i < |a| ensures a[i] == b[i] {
      assert SomeTypes(a)[i] == SomeTypes(b)[i];
    }
  }

  lemma {:induction false} TypesAreUnique(cx: Context, arguments: AstArguments, ts: seq<Option<Type>>, us: seq<Option<Type>>)
    requires TiesReturnTheSame(cx.index) && HasTypes(cx, arguments, ts) && HasTypes(cx, arguments, us)
    ensures ts == us
    decreases arguments, 0
  {
    if arguments.AstArgument? {
      TypeIsUnique(cx, arguments.first, ts[0], us[0]);
      TypesAreUnique(cx, arguments.rest, ts[1..], us[1..]);
      assert ts == [ts[0]] + ts[1..] && us == [us[0]] + us[1..];
    }
  }

  // Faults of expressions, from the types that the parts were given.

  lemma BinaryFaultless(cx: Context, e: AstExpression, t: Option<Type>, u: Option<Type>)
    requires e.AstBinary? && HasType(cx, e.lhs, t) && HasType(cx, e.rhs, u)
    ensures Faultless(cx, e) ==> Faultless(cx, e.lhs) && Faultless(cx, e.rhs) && Joins(t, u)
    ensures TiesReturnTheSame(cx.index) && Faultless(cx, e.lhs) && Faultless(cx, e.rhs) && Joins(t, u) ==> Faultless(cx, e)
  {
    hide HasType, Joins, TiesReturnTheSame;
    if TiesReturnTheSame(cx.index) {
      forall v, w | HasType(cx, e.lhs, v) && HasType(cx, e.rhs, w) ensures v == t && w == u {
        TypeIsUnique(cx, e.lhs, v, t);
        TypeIsUnique(cx, e.rhs, w, u);
      }
    }
  }

  lemma AsFaultless(cx: Context, e: AstExpression, t: Option<Type>, target: Type)
    requires HasType(cx, e, t)
    ensures FaultlessAs(cx, e, target) ==> Faultless(cx, e) && Becomes(t, target)
    ensures TiesReturnTheSame(cx.index) && Faultless(cx, e) && Becomes(t, target) ==> FaultlessAs(cx, e, target)
  {
    hide HasType, Becomes, TiesReturnTheSame, Faultless;
    if TiesReturnTheSame(cx.index) {
      forall u | HasType(cx, e, u) ensures u == t {
        TypeIsUnique(cx, e, u, t);
      }
    }
  }

  lemma CommandFaultless(cx: Context, name: string, arguments: AstArguments, ts: seq<Option<Type>>, types: seq<Type>)
    requires HasTypes(cx, arguments, ts)
    ensures FaultlessCommand(cx, name, arguments) ==> FaultlessAll(cx, arguments) && cx.index.commands(name) != [] && forall t <- ts :: t.Some?
    ensures FaultlessCommand(cx, name, arguments) && ts == SomeTypes(types) ==> Resolves(cx.index.commands(name), types)
    ensures TiesReturnTheSame(cx.index) && FaultlessAll(cx, arguments) && ts == SomeTypes(types) ==>
      (cx.index.commands(name) != [] && Resolves(cx.index.commands(name), types) ==> FaultlessCommand(cx, name, arguments))
  {
    hide HasTypes, Resolves, TiesReturnTheSame, FaultlessAll;
    if TiesReturnTheSame(cx.index) && ts == SomeTypes(types) {
      forall us | HasTypes(cx, arguments, us) ensures us == ts {
        TypesAreUnique(cx, arguments, us, ts);
      }
      forall others | HasTypes(cx, arguments, SomeTypes(others)) ensures others == types {
        SameTypes(others, types);
      }
    }
  }

  // How a converter decides about faults: none are reported if there are none, and conversely if
  // there is nothing to choose.

  ghost predicate Decides(index: Index, accepted: bool, faultless: bool) {
    (faultless ==> accepted) && (TiesReturnTheSame(index) && accepted ==> faultless)
  }

  function TypesOfResults(expressions: map<string, Expression>): Results {
    map name | name in expressions :: GetType(expressions[name])
  }

  lemma BinaryParts(cx: Context, e: AstExpression)
    requires e.AstBinary? && Faultless(cx, e)
    ensures Faultless(cx, e.lhs) && Faultless(cx, e.rhs)
  {
  }

  lemma NoArgumentsTyped(cx: Context)
    ensures HasTypes(cx, AstNoArguments, [])
  {
  }

  /** The types of the arguments done so far, in front of any types of the rest. */
  ghost predicate TypesSoFar(cx: Context, arguments: AstArguments, rest: AstArguments, ts: seq<Option<Type>>) {
    forall us :: HasTypes(cx, rest, us) ==> HasTypes(cx, arguments, ts + us)
  }

  lemma NoTypesYet(cx: Context, arguments: AstArguments)
    ensures TypesSoFar(cx, arguments, arguments, [])
  {
    hide HasTypes;
    forall us | HasTypes(cx, arguments, us) ensures HasTypes(cx, arguments, [] + us) {
      assert [] + us == us;
    }
  }

  lemma OneMoreType(cx: Context, arguments: AstArguments, rest: AstArguments, ts: seq<Option<Type>>, t: Option<Type>)
    requires TypesSoFar(cx, arguments, rest, ts) && rest.AstArgument? && HasType(cx, rest.first, t)
    ensures TypesSoFar(cx, arguments, rest.rest, ts + [t])
  {
    hide HasType;
    forall us | HasTypes(cx, rest.rest, us) ensures HasTypes(cx, arguments, ts + [t] + us) {
      assert ([t] + us)[1..] == us;
      assert HasTypes(cx, rest, [t] + us);
      assert ts + [t] + us == ts + ([t] + us);
    }
  }

  lemma AllTypes(cx: Context, arguments: AstArguments, ts: seq<Option<Type>>)
    requires TypesSoFar(cx, arguments, AstNoArguments, ts)
    ensures HasTypes(cx, arguments, ts)
  {
    NoArgumentsTyped(cx);
    assert ts + [] == ts;
  }

  lemma MentionsOneMore(before: Scope, scope: Scope, arguments: AstArguments, rest: AstArguments)
    requires rest.AstArgument? && ScopeWith(scope, MentionsAll(rest)) == ScopeWith(before, MentionsAll(arguments))
    ensures ScopeWith(ScopeWith(scope, Mentions(rest.first)), MentionsAll(rest.rest)) == ScopeWith(before, MentionsAll(arguments))
  {
    ScopeWithTwice(scope, Mentions(rest.first), MentionsAll(rest.rest));
  }

  function TypesOfEach(es: seq<Expression>): seq<Option<Type>> {
    seq(|es|, i requires 0 <= i < |es| => GetType(es[i]))
  }

  lemma TypesOfOneMore(es: seq<Expression>, e: Expression)
    ensures TypesOfEach(es + [e]) == TypesOfEach(es) + [GetType(e)]
  {
  }

  lemma NoTypes()
    ensures TypesOfEach([]) == []
  {
  }

  lemma NoArgumentsLeft(cx: Context)
    ensures FaultlessAll(cx, AstNoArguments) && MentionsAll(AstNoArguments) == {}
  {
  }

  lemma OperationHasType(cx: Context, e: AstExpression, r: Expression)
    requires e.AstBinary? && r.Binary? && r.bop == e.bop && HasType(cx, e.lhs, GetType(r.left))
    ensures HasType(cx, e, GetType(r))
  {
  }

  lemma CommandParts(cx: Context, name: string, arguments: AstArguments)
    ensures Faultless(cx, AstCommand(name, arguments)) <==> FaultlessCommand(cx, name, arguments)
    ensures FaultlessCommand(cx, name, arguments) ==> FaultlessAll(cx, arguments) && cx.index.commands(name) != []
    ensures Mentions(AstCommand(name, arguments)) == MentionsAll(arguments)
  {
    hide FaultlessAll, HasTypes, Resolves;
  }

  lemma CommandHasType(cx: Context, name: string, arguments: AstArguments, c: CommandDecl, types: seq<Type>)
    requires ChosenFor(cx.index.commands(name), c, types) && HasTypes(cx, arguments, SomeTypes(types))
    requires GetTypeFromCommandType(c.returnType).Some?
    ensures HasType(cx, AstCommand(name, arguments), GetTypeFromCommandType(c.returnType))
  {
    hide ChosenFor, HasTypes, GetTypeFromCommandType;
  }

  /** The overload that was chosen tells for all that may be chosen. */
  lemma ChosenTells(index: Index, name: string, c: CommandDecl, types: seq<Type>)
    requires ChosenFor(index.commands(name), c, types)
    ensures Decides(index, GetTypeFromCommandType(c.returnType).Some?, Resolves(index.commands(name), types))
  {
    hide GetTypeFromCommandType, Applicable;
    if TiesReturnTheSame(index) {
      forall d | ChosenFor(index.commands(name), d, types) ensures d.returnType == c.returnType {
      }
    }
  }

  lemma FunctionParts(cx: Context, name: string, arguments: AstArguments)
    ensures Faultless(cx, AstFuncCall(name, arguments)) <==> FaultlessFunction(cx, name, arguments)
    ensures HasType(cx, AstFuncCall(name, arguments), ReturnTypeOf(cx.results, name))
    ensures Mentions(AstFuncCall(name, arguments)) == MentionsAll(arguments)
  {
  }

  lemma ToParts(cx: Context, arguments: AstArguments, parameters: seq<Type>, i: nat)
    requires i < |parameters| && arguments.AstArgument?
    ensures FaultlessTo(cx, arguments, parameters[i..])
      <==> FaultlessAs(cx, arguments.first, parameters[i]) && FaultlessTo(cx, arguments.rest, parameters[i + 1..])
  {
    hide Faultless, HasType, Becomes;
    assert parameters[i..][1..] == parameters[i + 1..];
  }

  lemma NoneTo(cx: Context, parameters: seq<Type>)
    ensures FaultlessTo(cx, AstNoArguments, parameters)
  {
  }

  lemma BlockParts(index: Index, results: Results, scope: Scope, inLoop: bool, b: AstBlock)
    requires b.AstThen?
    ensures FaultlessBlock(index, results, scope, inLoop, b)
      <==> FaultlessStatement(index, results, scope, inLoop, b.head) && FaultlessBlock(index, results, ScopeAfter(scope, b.head), inLoop, b.tail)
    ensures ScopeBehind(scope, b) == ScopeBehind(ScopeAfter(scope, b.head), b.tail)
  {
    hide FaultlessStatement, ScopeAfter;
  }

  lemma NoBlock(index: Index, results: Results, scope: Scope, inLoop: bool)
    ensures FaultlessBlock(index, results, scope, inLoop, AstEnd) && ScopeBehind(scope, AstEnd) == scope
  {
  }

  // The parts of statements, in the order they are converted.

  lemma ConditionalParts(index: Index, results: Results, scope: Scope, inLoop: bool, s: AstStatement)
    returns (first: bool, second: bool, third: bool)
    requires s.AstConditional?
    ensures var scope1 := ScopeWith(scope, Mentions(s.condition));
      && (first <==> FaultlessAs(Context(index, results, EnvOf(scope)), s.condition, Builtin(Boolean)))
      && (second <==> FaultlessBlock(index, results, scope1, inLoop, s.trueBranch))
      && (third <==> FaultlessBlock(index, results, ScopeBehind(scope1, s.trueBranch), inLoop, s.falseBranch))
      && ScopeAfter(scope, s) == ScopeBehind(ScopeBehind(scope1, s.trueBranch), s.falseBranch)
    ensures FaultlessStatement(index, results, scope, inLoop, s) <==> first && (second && third)
  {
    hide FaultlessAs, FaultlessBlock, ScopeBehind, ScopeWith, EnvOf, Mentions;
    var scope1 := ScopeWith(scope, Mentions(s.condition));
    first := FaultlessAs(Context(index, results, EnvOf(scope)), s.condition, Builtin(Boolean));
    second := FaultlessBlock(index, results, scope1, inLoop, s.trueBranch);
    third := FaultlessBlock(index, results, ScopeBehind(scope1, s.trueBranch), inLoop, s.falseBranch);
  }

  lemma ForLoopParts(index: Index, results: Results, scope: Scope, inLoop: bool, s: AstStatement)
    returns (header: bool, inside: bool)
    requires s.AstForLoop?
    ensures var cx := Context(index, results, EnvOf(scope));
      var target := cx.env[(s.name, s.annotation)];
      header <==> FaultlessAs(cx, s.init, target) && FaultlessAs(cx, s.end, target) && FaultlessAs(cx, StepOf(s.step), target)
    ensures var names := {(s.name, s.annotation)} + (Mentions(s.init) + Mentions(s.end) + Mentions(StepOf(s.step)));
      && (inside <==> FaultlessBlock(index, results, ScopeWith(scope, names), true, s.body))
      && ScopeAfter(scope, s) == ScopeBehind(ScopeWith(scope, names), s.body)
    ensures FaultlessStatement(index, results, scope, inLoop, s) <==> header && inside
  {
    hide FaultlessAs, FaultlessBlock, ScopeBehind, ScopeWith, Mentions;
    var cx := Context(index, results, EnvOf(scope));
    var target := cx.env[(s.name, s.annotation)];
    header := FaultlessAs(cx, s.init, target) && FaultlessAs(cx, s.end, target) && FaultlessAs(cx, StepOf(s.step), target);
    assert MentionsInFor(s) == {(s.name, s.annotation)} + (Mentions(s.init) + Mentions(s.end) + Mentions(StepOf(s.step)));
    inside := FaultlessBlock(index, results, ScopeWith(scope, MentionsInFor(s)), true, s.body);
  }

  lemma GuardedParts(index: Index, results: Results, scope: Scope, inLoop: bool, s: AstStatement, condition: AstExpression, body: AstBlock)
    returns (header: bool, inside: bool)
    requires s == AstWhileLoop(condition, body) || s == AstUntilLoop(condition, body)
    ensures header <==> Faultless(Context(index, results, EnvOf(scope)), condition)
    ensures inside <==> FaultlessBlock(index, results, ScopeWith(scope, Mentions(condition)), true, body)
    ensures ScopeAfter(scope, s) == ScopeBehind(ScopeWith(scope, Mentions(condition)), body)
    ensures FaultlessStatement(index, results, scope, inLoop, s) <==> header && inside
  {
    hide Faultless, FaultlessBlock, ScopeBehind, ScopeWith, EnvOf, Mentions;
    header := Faultless(Context(index, results, EnvOf(scope)), condition);
    inside := FaultlessBlock(index, results, ScopeWith(scope, Mentions(condition)), true, body);
  }
}
