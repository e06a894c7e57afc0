/** What a function of the intermediate representation means: a small-step semantics of
    its statements, with an explicit continuation for what runs afterwards. */
module Semantics {
  import opened Words
  import opened Ir
  import L = Llvm

  datatype Evaluation = Failed | Evaluated(value: Value, trace: L.Trace)
  datatype Evaluations = AllFailed | AllEvaluated(values: seq<Value>, trace: L.Trace)

  /** The value of a binary operator. Operands of different widths have none; neither have a
      division by zero or out of range, or a shift by the width or more. */
  function Apply(op: BinaryOp, x: Value, y: Value): Option<Value> {
    if x.width != y.width then None
    else
      var w, a, b := x.width, x.bits, y.bits;
      match op
      case Add => Some(Value(w, Wrap(w, a + b)))
      case Sub => Some(Value(w, Wrap(w, a - b)))
      case Mul => Some(Value(w, Wrap(w, a * b)))
      case Div => if b == 0 || !InRange(w, TruncDiv(a, b)) then None else Some(Value(w, TruncDiv(a, b)))
      case Mod =>
        if b == 0 || !InRange(w, TruncDiv(a, b)) then None
        else Some(Value(w, Wrap(w, a - b * TruncDiv(a, b))))
      case Pow => None
      case ShiftLeft => if 0 <= b < Size(w) then Some(Value(w, Wrap(w, a * Pow2(b)))) else None
      case ShiftRight => if 0 <= b < Size(w) then Some(Value(w, Wrap(w, a / Pow2(b)))) else None
      case BitwiseOr => Some(Value(w, Wrap(w, Bitwise(Or, Size(w), a, b))))
      case BitwiseAnd => Some(Value(w, Wrap(w, Bitwise(And, Size(w), a, b))))
      case BitwiseXor => Some(Value(w, Wrap(w, Bitwise(Xor, Size(w), a, b))))
      case BitwiseNot => Some(Value(w, Wrap(w, -1 - a)))
      case LessThan => Some(Truth(a < b))
      case LessEqual => Some(Truth(a <= b))
      case GreaterThan => Some(Truth(a > b))
      case GreaterEqual => Some(Truth(a >= b))
      case Equal => Some(Truth(a == b))
      case NotEqual => Some(Truth(a != b))
      case LogicalOr => Some(Value(w, Wrap(w, Bitwise(Or, Size(w), a, b))))
      case LogicalAnd => Some(Value(w, Wrap(w, Bitwise(And, Size(w), a, b))))
      case LogicalXor => Some(Value(w, Wrap(w, Bitwise(Xor, Size(w), a, b))))
  }

  function Evaluate(world: L.World, e: Expression, memory: L.Memory, trace: L.Trace): Evaluation
    decreases e, 0
  {
    match e
    case Cast(inner, target) =>
      (match (Evaluate(world, inner, memory, trace), WidthOf(target))
       case (Evaluated(v, t), Some(w)) =>
         Evaluated(if v.width == w then v else Value(w, Wrap(w, v.bits)), t)
       case _ => Failed)
    case Unary(op, operand) =>
      (match Evaluate(world, operand, memory, trace)
       case Evaluated(v, t) => if op == Negate then Evaluated(Value(v.width, Wrap(v.width, -v.bits)), t) else Failed
       case Failed => Failed)
    case Binary(op, left, right) =>
      (match Evaluate(world, left, memory, trace)
       case Failed => Failed
       case Evaluated(x, t1) =>
         match Evaluate(world, right, memory, t1)
         case Failed => Failed
         case Evaluated(y, t2) =>
           match Apply(op, x, y)
           case None => Failed
           case Some(v) => Evaluated(v, t2))
    case VarRef(v) =>
      (match WidthOf(v.typ)
       case Some(w) => if v in memory then Evaluated(Value(w, memory[v]), trace) else Failed
       case None => Failed)
    case Literal(b, n) =>
      (match WidthOf(Builtin(b))
       case Some(w) => Evaluated(Value(w, Wrap(w, n)), trace)
       case None => Failed)
    case Call(callee, arguments, ret) => EvaluateCall(world, callee, arguments, ret, memory, trace)
  }

  function EvaluateCall(world: L.World, callee: Callee, arguments: Arguments, ret: Type, memory: L.Memory, trace: L.Trace): Evaluation
    decreases arguments, 1
  {
    match (EvaluateAll(world, arguments, memory, trace), WidthOf(ret))
    case (AllEvaluated(vs, t), Some(w)) =>
      Evaluated(Value(w, Wrap(w, world(t, callee, vs))), t + [L.Event(callee, vs)])
    case _ => Failed
  }

  function EvaluateAll(world: L.World, arguments: Arguments, memory: L.Memory, trace: L.Trace): Evaluations
    decreases arguments, 0
  {
    match arguments
    case NoArguments => AllEvaluated([], trace)
    case Argument(first, rest) =>
      match Evaluate(world, first, memory, trace)
      case Failed => AllFailed
      case Evaluated(v, t) =>
        match EvaluateAll(world, rest, memory, t)
        case AllFailed => AllFailed
        case AllEvaluated(vs, t2) => AllEvaluated([v] + vs, t2)
  }

  // What remains to be done after the current statements. `Iterate` and `Count` are the
  // frames of the infinite and the for loop: their body is running inside them.
  datatype Continuation =
    | Return
    | Sequel(rest: Block, next: Continuation)
    | Iterate(loop: nat, body: Block, rest: Block, next: Continuation)
    | Count(loop: nat, counter: Variable, end: Expression, step: Expression, body: Block, rest: Block,
            next: Continuation)

  // `Test` is the moment a for loop decides whether to run its body again.
  datatype Control = Statements(block: Block) | Test

  datatype Resumption = Resumption(rest: Block, next: Continuation)

  datatype State = State(
    control: Control, next: Continuation, gosubs: seq<Resumption>,
    memory: L.Memory, trace: L.Trace)

  datatype Program = Program(body: Block, isMain: bool)

  /** Where execution continues after a jump to the label `name` inside `block`. */
  function FindLabel(name: nat, block: Block, k: Continuation): Option<Resumption>
    decreases block, 0
  {
    match block
    case End => None
    case Then(s, rest) =>
      if s == Label(name) then Some(Resumption(rest, k))
      else
        match FindInside(name, s, rest, k)
        case Some(r) => Some(r)
        case None => FindLabel(name, rest, k)
  }

  function FindInside(name: nat, s: Statement, rest: Block, k: Continuation): Option<Resumption>
    decreases s, 0
  {
    match s
    case Conditional(_, t, f) =>
      (match FindLabel(name, t, Sequel(rest, k))
       case Some(r) => Some(r)
       case None => FindLabel(name, f, Sequel(rest, k)))
    case InfiniteLoop(loop, body) => FindLabel(name, body, Iterate(loop, body, rest, k))
    case ForLoop(loop, counter, _, end, step, body) =>
      FindLabel(name, body, Count(loop, counter, end, step, body, rest, k))
    case _ => None
  }

  /** Where execution continues after leaving `loop`. */
  function FindLoop(loop: nat, k: Continuation): Option<Resumption> {
    match k
    case Return => None
    case Sequel(_, next) => FindLoop(loop, next)
    case Iterate(l, _, rest, next) => if l == loop then Some(Resumption(rest, next)) else FindLoop(loop, next)
    case Count(l, _, _, _, _, rest, next) => if l == loop then Some(Resumption(rest, next)) else FindLoop(loop, next)
  }

  /** A for loop goes on while its counter has not passed the end in the direction of the step. */
  function GoesOn(counter: Value, end: Value, step: Value): Option<bool> {
    if step.bits == 0 then Some(false)
    else if counter.width != end.width then None
    else if step.bits > 0 then Some(counter.bits <= end.bits)
    else Some(counter.bits >= end.bits)
  }

  function Resume(s: State, r: Option<Resumption>): L.Outcome<State> {
    match r
    case None => L.Fault
    case Some(p) => L.Running(s.(control := Statements(p.rest), next := p.next))
  }

  /** The statements of a block have all run. */
  function StepEnd(world: L.World, s: State): L.Outcome<State> {
    match s.next
    case Return => L.Halted(None, s.memory, s.trace)
    case Sequel(rest, next) => L.Running(s.(control := Statements(rest), next := next))
    case Iterate(_, body, _, _) => L.Running(s.(control := Statements(body)))
    case Count(_, counter, _, step, _, _, _) =>
      match Evaluate(world, Binary(Add, VarRef(counter), step), s.memory, s.trace)
      case Failed => L.Fault
      case Evaluated(v, t) => L.Running(s.(control := Test, memory := s.memory[counter := v.bits], trace := t))
  }

  function StepTest(world: L.World, s: State): L.Outcome<State> {
    match s.next
    case Count(_, counter, end, step, body, rest, next) =>
      (match Evaluate(world, VarRef(counter), s.memory, s.trace)
       case Failed => L.Fault
       case Evaluated(c, t0) =>
         match Evaluate(world, end, s.memory, t0)
         case Failed => L.Fault
         case Evaluated(e, t1) =>
           match Evaluate(world, step, s.memory, t1)
           case Failed => L.Fault
           case Evaluated(d, t2) =>
             match GoesOn(c, e, d)
             case None => L.Fault
             case Some(true) => L.Running(s.(control := Statements(body), trace := t2))
             case Some(false) => L.Running(s.(control := Statements(rest), next := next, trace := t2)))
    case _ => L.Fault
  }

  function StepStatement(p: Program, world: L.World, s: State, head: Statement, rest: Block): L.Outcome<State> {
    match head
    case Label(_) => L.Running(s.(control := Statements(rest)))
    case Goto(l) => Resume(s, FindLabel(l, p.body, Return))
    case Gosub(l) =>
      Resume(s.(gosubs := s.gosubs + [Resumption(rest, s.next)]), FindLabel(l, p.body, Return))
    case SubReturn =>
      if s.gosubs == [] then L.Fault
      else Resume(s.(gosubs := s.gosubs[..|s.gosubs| - 1]), Some(s.gosubs[|s.gosubs| - 1]))
    case Conditional(c, t, f) =>
      (match Evaluate(world, c, s.memory, s.trace)
       case Evaluated(Value(W1, b), tr) =>
         L.Running(s.(control := Statements(if b != 0 then t else f), next := Sequel(rest, s.next), trace := tr))
       case _ => L.Fault)
    case InfiniteLoop(loop, body) =>
      L.Running(s.(control := Statements(body), next := Iterate(loop, body, rest, s.next)))
    case ForLoop(loop, counter, init, end, step, body) =>
      (match Evaluate(world, init, s.memory, s.trace)
       case Failed => L.Fault
       case Evaluated(v, tr) =>
         L.Running(s.(control := Test, next := Count(loop, counter, end, step, body, rest, s.next),
                      memory := s.memory[counter := v.bits], trace := tr)))
    case Exit(loop) => Resume(s, FindLoop(loop, s.next))
    case Assignment(x, e) =>
      (match Evaluate(world, e, s.memory, s.trace)
       case Failed => L.Fault
       case Evaluated(v, tr) =>
         L.Running(s.(control := Statements(rest), memory := s.memory[x := v.bits], trace := tr)))
    case FunctionCall(callee, arguments, ret) =>
      if EndsProgram(p.isMain, callee) then L.Halted(None, s.memory, s.trace)
      else
        (match EvaluateCall(world, callee, arguments, ret, s.memory, s.trace)
         case Failed => L.Fault
         case Evaluated(_, tr) => L.Running(s.(control := Statements(rest), trace := tr)))
    case ExitFunction(e) =>
      (match Evaluate(world, e, s.memory, s.trace)
       case Failed => L.Fault
       case Evaluated(v, tr) => L.Halted(Some(v), s.memory, tr))
    case GuardedLoop(_, _, _, _) => L.Fault
    case Missing => L.Fault
  }

  /** In the main function the command `end` stops the program. */
  predicate EndsProgram(isMain: bool, callee: Callee) {
    isMain && callee.Command? && callee.dbSymbol == "end"
  }

  function Step(p: Program, world: L.World, s: State): L.Outcome<State> {
    match s.control
    case Statements(End) => StepEnd(world, s)
    case Statements(Then(head, rest)) => StepStatement(p, world, s, head, rest)
    case Test => StepTest(world, s)
  }

  function Run(p: Program, world: L.World, s: State, n: nat): L.Outcome<State>
    decreases n
  {
    if n == 0 then L.Running(s)
    else
      match Step(p, world, s)
      case Running(s1) => Run(p, world, s1, n - 1)
      case Halted(r, m, t) => L.Halted(r, m, t)
      case Fault => L.Fault
  }
}
