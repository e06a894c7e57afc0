/** The intermediate representation between semantic analysis and code generation. */
module Ir {
  import opened Words

  // `Composite` stands for the complex, matrix, quaternion and vector types.
  datatype BuiltinType =
    | DoubleInteger | Integer | Dword | Word | Byte | Boolean
    | DoubleFloat | Float | String | Composite(kind: nat)

  datatype Type = Void | Builtin(builtin: BuiltinType)

  predicate IsIntegralType(t: BuiltinType) {
    t in {DoubleInteger, Integer, Dword, Word, Byte, Boolean}
  }

  predicate IsFloatingPointType(t: BuiltinType) {
    t == DoubleFloat || t == Float
  }

  datatype Annotation = NoAnnotation | StringAnnotation | FloatAnnotation

  /** Within one function a variable is identified by its name and annotation. */
  datatype Variable = Variable(name: string, annotation: Annotation, typ: Type)

  datatype UnaryOp = LogicalNot | Negate | UnaryBitwiseNot

  datatype BinaryOp =
    | Add | Sub | Mul | Div | Mod | Pow
    | ShiftLeft | ShiftRight | BitwiseOr | BitwiseAnd | BitwiseXor | BitwiseNot
    | LessThan | LessEqual | GreaterThan | GreaterEqual | Equal | NotEqual
    | LogicalOr | LogicalAnd | LogicalXor

  // A call refers to the declaration of what it calls. A parameter of a command is None if there
  // is no type for it here.
  datatype Callee =
    | Command(dbSymbol: string, cppSymbol: string, params: seq<Option<Type>>, result: Type)
    | UserFunction(name: string, params: seq<Option<Type>>)

  datatype Expression =
    | Cast(inner: Expression, target: Type)
    | Unary(uop: UnaryOp, operand: Expression)
    | Binary(bop: BinaryOp, left: Expression, right: Expression)
    | VarRef(variable: Variable)
    | Literal(builtin: BuiltinType, value: int)
    | Call(callee: Callee, arguments: Arguments, returnType: Type)

  datatype Arguments = NoArguments | Argument(first: Expression, rest: Arguments)

  // Loops and labels carry a number that stands for the identity of the object.
  // `GuardedLoop` stands for the while and until loops, and `Missing` for the null pointer that
  // an error leaves in the place of a statement; the generator knows neither.
  datatype Statement =
    | Label(id: nat)
    | Goto(target: nat)
    | Gosub(target: nat)
    | SubReturn
    | Conditional(condition: Expression, trueBranch: Block, falseBranch: Block)
    | InfiniteLoop(loop: nat, body: Block)
    | ForLoop(loop: nat, counter: Variable, init: Expression, end: Expression, step: Expression, body: Block)
    | Exit(loopToBreak: nat)
    | Assignment(variable: Variable, expression: Expression)
    | FunctionCall(callee: Callee, arguments: Arguments, returnType: Type)
    | ExitFunction(expression: Expression)
    | GuardedLoop(loop: nat, isUntil: bool, condition: Expression, body: Block)
    | Missing

  datatype Block = End | Then(head: Statement, tail: Block)

  predicate ComparesOrConnects(op: BinaryOp) {
    op in {LessThan, LessEqual, GreaterThan, GreaterEqual, Equal, NotEqual, LogicalOr, LogicalAnd}
  }

  /** The static type of an expression; a logical xor has none and stops the compiler. */
  function GetType(e: Expression): Option<Type> {
    match e
    case Cast(_, target) => Some(target)
    case Unary(_, operand) => GetType(operand)
    case Binary(op, left, _) =>
      if ComparesOrConnects(op) then Some(Builtin(Boolean))
      else if op == LogicalXor then None
      else GetType(left)
    case VarRef(v) => Some(v.typ)
    case Literal(b, _) => Some(Builtin(b))
    case Call(_, _, ret) => Some(ret)
  }

  /** The LLVM integer width of a type; None for the types this model does not execute. */
  function WidthOf(t: Type): Option<Width> {
    match t
    case Void => Some(W0)
    case Builtin(Boolean) => Some(W1)
    case Builtin(Byte) => Some(W8)
    case Builtin(Word) => Some(W16)
    case Builtin(Integer) => Some(W32)
    case Builtin(Dword) => Some(W32)
    case Builtin(DoubleInteger) => Some(W64)
    case _ => None
  }

  function WidthOrVoid(w: Option<Width>): Width {
    match w case Some(x) => x case None => W0
  }

  /** What the function generated for a call returns: user functions are all of type void. */
  function CallWidth(c: Callee): Width {
    match c
    case Command(_, _, _, result) => WidthOrVoid(WidthOf(result))
    case UserFunction(_, _) => W0
  }

  function ExpressionWidth(e: Expression): Option<Width> {
    match GetType(e)
    case Some(t) => WidthOf(t)
    case None => None
  }

  /** Types of variables and operands; there are no values of type void. */
  predicate HasValues(t: Type) {
    t != Void && WidthOf(t).Some?
  }

  predicate IsValue(e: Expression) {
    GetType(e).Some? && HasValues(GetType(e).value)
  }
}
