/** What the model of the code generator has code for, told from the parts of a function. */
module Fragment {
  import opened Words
  import opened Ir
  import opened TypedIr
  import opened AstConversion
  import opened Compilation
  import opened TypeMeaning

  function Parts(e: Expression): set<Expression>
    decreases e, 0
  {
    {e} + match e
          case Cast(inner, _) => Parts(inner)
          case Unary(_, operand) => Parts(operand)
          case Binary(_, left, right) => Parts(left) + Parts(right)
          case Call(_, arguments, _) => PartsOfAll(arguments)
          case _ => {}
  }

  function PartsOfAll(arguments: Arguments): set<Expression>
    decreases arguments, 0
  {
    match arguments
    case NoArguments => {}
    case Argument(first, rest) => Parts(first) + PartsOfAll(rest)
  }

  /** Its expressions; a variable that is assigned to counts as one. */
  function PartsIn(s: Statement): set<Expression>
    decreases s, 0
  {
    match s
    case Conditional(c, t, f) => Parts(c) + PartsOfBlock(t) + PartsOfBlock(f)
    case InfiniteLoop(_, body) => PartsOfBlock(body)
    case ForLoop(_, counter, init, end, step, body) => {VarRef(counter)} + Parts(init) + Parts(end) + Parts(step) + PartsOfBlock(body)
    case Assignment(x, e) => {VarRef(x)} + Parts(e)
    case FunctionCall(callee, arguments, ret) => {Call(callee, arguments, ret)} + PartsOfAll(arguments)
    case ExitFunction(e) => Parts(e)
    case _ => {}
  }

  function PartsOfBlock(b: Block): set<Expression>
    decreases b, 0
  {
    match b
    case End => {}
    case Then(s, rest) => PartsIn(s) + PartsOfBlock(rest)
  }

  predicate AreIntegers(arguments: Arguments) {
    match arguments
    case NoArguments => true
    case Argument(first, rest) => IsInteger(first) && AreIntegers(rest)
  }

  predicate IsInteger(e: Expression) {
    GetType(e).Some? && GetType(e).value in Integers
  }

  /** Integers of any size, all operators on them but the power and the exclusive or of truth
      values, connectives of truth values only, negation, casts, and calls that return one of
      them or nothing. */
  predicate HasCode(e: Expression) {
    match e
    case Cast(inner, target) => IsInteger(inner) && target in Integers
    case Unary(op, operand) => op == Negate && IsInteger(operand)
    case Binary(op, left, _) =>
      && op != Pow && op != LogicalXor && IsInteger(left)
      && (op == LogicalOr || op == LogicalAnd ==> GetType(left) == Some(Builtin(Boolean)))
    case VarRef(v) => v.typ in Integers
    case Literal(b, _) => Builtin(b) in Integers
    case Call(_, arguments, ret) => AreIntegers(arguments) && ret in Integers + {Void}
  }

  ghost predicate AllHaveCode(es: set<Expression>) {
    forall e <- es :: HasCode(e)
  }

  lemma AllOfTwo(a: set<Expression>, b: set<Expression>)
    ensures AllHaveCode(a + b) <==> AllHaveCode(a) && AllHaveCode(b)
  {
    hide HasCode;
    forall e | e in a ensures e in a + b {
    }
    forall e | e in b ensures e in a + b {
    }
  }

  lemma AllOfOne(e: Expression)
    ensures AllHaveCode({e}) <==> HasCode(e)
  {
    hide HasCode;
    assert e in {e};
  }

  lemma AllOfNone()
    ensures AllHaveCode({})
  {
  }

  /** No while or until loops, and results are integers. */
  predicate StatementsHaveCode(b: Block)
    decreases b, 0
  {
    match b
    case End => true
    case Then(s, rest) => StatementHasCode(s) && StatementsHaveCode(rest)
  }

  predicate StatementHasCode(s: Statement)
    decreases s, 0
  {
    match s
    case Conditional(_, t, f) => StatementsHaveCode(t) && StatementsHaveCode(f)
    case InfiniteLoop(_, body) => StatementsHaveCode(body)
    case ForLoop(_, _, _, _, _, body) => StatementsHaveCode(body)
    case ExitFunction(e) => IsInteger(e)
    case GuardedLoop(_, _, _, _) => false
    case Missing => false
    case _ => true
  }

  lemma IntegersExactly(t: Type)
    ensures HasValues(t) <==> t in Integers
    ensures WidthOf(t).Some? <==> t in Integers || t == Void
  {
  }

  lemma {:induction false} ExpressionPlainExactly(e: Expression)
    ensures Plain(e) <==> AllHaveCode(Parts(e))
    decreases e, 0
  {
    hide GetType, WidthOf, HasValues, AllHaveCode;
    AllOfOne(e);
    match e
    case Cast(inner, target) =>
      ExpressionPlainExactly(inner);
      ValueExactly(inner);
      IntegersExactly(target);
      AllOfTwo({e}, Parts(inner));
      assert Parts(e) == {e} + Parts(inner);
    case Unary(_, operand) =>
      ExpressionPlainExactly(operand);
      ValueExactly(operand);
      AllOfTwo({e}, Parts(operand));
      assert Parts(e) == {e} + Parts(operand);
    case Binary(_, left, right) =>
      ExpressionPlainExactly(left);
      ExpressionPlainExactly(right);
      ValueExactly(left);
      AllOfTwo(Parts(left), Parts(right));
      AllOfTwo({e}, Parts(left) + Parts(right));
      assert Parts(e) == {e} + (Parts(left) + Parts(right));
    case VarRef(v) =>
      IntegersExactly(v.typ);
      assert Parts(e) == {e};
    case Literal(b, _) =>
      IntegersExactly(Builtin(b));
      assert Parts(e) == {e};
    case Call(_, arguments, ret) =>
      ArgumentsPlainExactly(arguments);
      IntegersExactly(ret);
      AllOfTwo({e}, PartsOfAll(arguments));
      assert Parts(e) == {e} + PartsOfAll(arguments);
  }

  lemma ValueExactly(e: Expression)
    ensures IsValue(e) <==> IsInteger(e)
  {
    if GetType(e).Some? {
      IntegersExactly(GetType(e).value);
    }
  }

  lemma {:induction false} ArgumentsPlainExactly(arguments: Arguments)
    ensures PlainAll(arguments) <==> AreIntegers(arguments) && AllHaveCode(PartsOfAll(arguments))
    decreases arguments, 0
  {
    hide GetType, HasValues, AllHaveCode, Parts;
    match arguments
    case NoArguments => AllOfNone();
    case Argument(first, rest) =>
      ExpressionPlainExactly(first);
      ValueExactly(first);
      ArgumentsPlainExactly(rest);
      AllOfTwo(Parts(first), PartsOfAll(rest));
  }

  lemma {:induction false} StatementPlainExactly(s: Statement)
    ensures PlainStatement(s) <==> StatementHasCode(s) && AllHaveCode(PartsIn(s))
    decreases s, 0
  {
    hide GetType, WidthOf, HasValues, IsValue, IsInteger, Parts, Plain, AllHaveCode;
    match s
    case Conditional(c, t, f) =>
      ExpressionPlainExactly(c);
      BlockPlainExactly(t);
      BlockPlainExactly(f);
      AllOfTwo(Parts(c), PartsOfBlock(t));
      AllOfTwo(Parts(c) + PartsOfBlock(t), PartsOfBlock(f));
    case InfiniteLoop(_, body) => BlockPlainExactly(body);
    case ForLoop(_, counter, init, end, step, body) =>
      IntegersExactly(counter.typ);
      AllOfOne(VarRef(counter));
      ExpressionPlainExactly(init);
      ExpressionPlainExactly(end);
      ExpressionPlainExactly(step);
      BlockPlainExactly(body);
      AllOfTwo({VarRef(counter)}, Parts(init));
      AllOfTwo({VarRef(counter)} + Parts(init), Parts(end));
      AllOfTwo({VarRef(counter)} + Parts(init) + Parts(end), Parts(step));
      AllOfTwo({VarRef(counter)} + Parts(init) + Parts(end) + Parts(step), PartsOfBlock(body));
    case Assignment(x, e) =>
      IntegersExactly(x.typ);
      AllOfOne(VarRef(x));
      ExpressionPlainExactly(e);
      AllOfTwo({VarRef(x)}, Parts(e));
    case FunctionCall(callee, arguments, ret) =>
      ArgumentsPlainExactly(arguments);
      IntegersExactly(ret);
      AllOfOne(Call(callee, arguments, ret));
      AllOfTwo({Call(callee, arguments, ret)}, PartsOfAll(arguments));
    case ExitFunction(e) =>
      ExpressionPlainExactly(e);
      ValueExactly(e);
    case _ => AllOfNone();
  }

  lemma {:induction false} BlockPlainExactly(b: Block)
    ensures PlainBlock(b) <==> StatementsHaveCode(b) && AllHaveCode(PartsOfBlock(b))
    decreases b, 0
  {
    hide AllHaveCode, PartsIn;
    match b
    case End => AllOfNone();
    case Then(s, rest) =>
      StatementPlainExactly(s);
      BlockPlainExactly(rest);
      AllOfTwo(PartsIn(s), PartsOfBlock(rest));
  }

  /** The functions that `Compilation.CompileProgram` may generate code for. */
  lemma PlainExactly(f: Function)
    ensures PlainFunction(f) <==>
      && StatementsHaveCode(f.body) && (forall x <- PartsOfBlock(f.body) :: HasCode(x))
      && (f.result.Some? ==> forall x <- Parts(f.result.value) :: HasCode(x))
  {
    hide PlainBlock, Plain, HasCode, StatementsHaveCode, PartsOfBlock, Parts;
    BlockPlainExactly(f.body);
    if f.result.Some? {
      ExpressionPlainExactly(f.result.value);
    }
  }
}
