/** The fragment of LLVM that the code generator emits, with its execution. */
module Llvm {
  import opened Words
  import Ir

  // A register carries the type of the value that was defined for it.
  datatype Operand = Constant(value: Value) | Register(id: nat, width: Width)

  datatype Opcode =
    | IAdd | ISub | IMul | SDiv | SRem | Shl | AShr | IAnd | IOr | IXor
    | Slt | Sle | Sgt | Sge | Eq | Ne

  // `PushReturn` and `PopReturn` are the calls of the two gosub helper functions;
  // `index` of an indirect branch names its entry in the table of destination lists.
  datatype Instr =
    | Alloca(variable: Ir.Variable)
    | ResetStack
    | Load(dst: nat, variable: Ir.Variable)
    | Store(variable: Ir.Variable, value: Operand)
    | Compute(dst: nat, opcode: Opcode, a: Operand, b: Operand)
    | Neg(dst: nat, a: Operand)
    | Not(dst: nat, a: Operand)
    | IntCast(dst: nat, a: Operand, width: Width)
    | Call(dst: nat, callee: Ir.Callee, args: seq<Operand>)
    | PushReturn(block: nat)
    | PopReturn(dst: nat)
    | Br(block: nat)
    | CondBr(cond: Operand, ifTrue: nat, ifFalse: nat)
    | IndirectBr(address: Operand, index: nat)
    | RetVoid
    | Ret(value: Operand)
  {
    predicate IsTerminator() {
      Br? || CondBr? || IndirectBr? || RetVoid? || Ret?
    }
  }

  function OperandWidth(o: Operand): Width {
    match o
    case Constant(v) => v.width
    case Register(_, w) => w
  }

  predicate Compares(op: Opcode) {
    op in {Slt, Sle, Sgt, Sge, Eq, Ne}
  }

  /** The type of the value that an instruction defines. */
  function ResultWidth(i: Instr): Width {
    match i
    case Load(_, v) => Ir.WidthOrVoid(Ir.WidthOf(v.typ))
    case Compute(_, op, a, _) => if Compares(op) then W1 else OperandWidth(a)
    case Neg(_, a) => OperandWidth(a)
    case Not(_, a) => OperandWidth(a)
    case IntCast(_, _, w) => w
    case Call(_, callee, _) => Ir.CallWidth(callee)
    case PopReturn(_) => WPtr
    case _ => W0
  }

  predicate HoldsValue(o: Operand) {
    OperandWidth(o) != W0
  }

  predicate Fits(o: Operand, param: Option<Ir.Type>) {
    param.Some? && Ir.HasValues(param.value) && Ir.WidthOf(param.value) == Some(OperandWidth(o))
  }

  /** The typing rules of LLVM: operands are values of equal types where there are two, values
      stored are of the type of the variable, and calls get an argument of its type for each
      parameter. */
  predicate WellTyped(i: Instr) {
    match i
    case Alloca(v) => Ir.HasValues(v.typ)
    case Load(_, v) => Ir.HasValues(v.typ)
    case Store(v, o) => Fits(o, Some(v.typ))
    case Compute(_, _, a, b) => HoldsValue(a) && OperandWidth(a) == OperandWidth(b)
    case Neg(_, a) => HoldsValue(a)
    case Not(_, a) => HoldsValue(a)
    case IntCast(_, a, w) => HoldsValue(a) && w != W0
    case Call(_, callee, args) =>
      |args| == |callee.params| && forall k :: 0 <= k < |args| ==> Fits(args[k], callee.params[k])
    case CondBr(c, _, _) => OperandWidth(c) == W1
    case IndirectBr(a, _) => OperandWidth(a) == WPtr
    case Ret(o) => HoldsValue(o)
    case _ => true
  }

  /** A function body: its blocks by number, and the destinations of each indirect branch. */
  datatype Cfg = Cfg(blocks: seq<seq<Instr>>, destinations: seq<seq<nat>>)

  // What the outside world sees and decides: calls are recorded, and `World` gives the
  // result of each call from everything recorded before it.
  datatype Event = Event(callee: Ir.Callee, args: seq<Value>)
  type Trace = seq<Event>
  type World = (Trace, Ir.Callee, seq<Value>) -> int

  type Memory = map<Ir.Variable, int>

  datatype Outcome<+S> =
    | Running(state: S)
    | Halted(result: Option<Value>, memory: Memory, trace: Trace)
    | Fault

  const StackSlots: int := 32

  datatype Machine = Machine(
    block: nat, index: nat,
    regs: map<nat, Value>, memory: Memory,
    slots: map<int, nat>, sp: int,
    trace: Trace)

  function Result(op: Opcode, w: Width, a: int, b: int): Option<Value> {
    match op
    case IAdd => Some(Value(w, Wrap(w, a + b)))
    case ISub => Some(Value(w, Wrap(w, a - b)))
    case IMul => Some(Value(w, Wrap(w, a * b)))
    case SDiv => if b == 0 || !InRange(w, TruncDiv(a, b)) then None else Some(Value(w, TruncDiv(a, b)))
    case SRem =>
      if b == 0 || !InRange(w, TruncDiv(a, b)) then None
      else Some(Value(w, Wrap(w, a - b * TruncDiv(a, b))))
    case Shl => if 0 <= b < Size(w) then Some(Value(w, Wrap(w, a * Pow2(b)))) else None
    case AShr => if 0 <= b < Size(w) then Some(Value(w, Wrap(w, a / Pow2(b)))) else None
    case IAnd => Some(Value(w, Wrap(w, Bitwise(And, Size(w), a, b))))
    case IOr => Some(Value(w, Wrap(w, Bitwise(Or, Size(w), a, b))))
    case IXor => Some(Value(w, Wrap(w, Bitwise(Xor, Size(w), a, b))))
    case Slt => Some(Truth(a < b))
    case Sle => Some(Truth(a <= b))
    case Sgt => Some(Truth(a > b))
    case Sge => Some(Truth(a >= b))
    case Eq => Some(Truth(a == b))
    case Ne => Some(Truth(a != b))
  }

  function Read(regs: map<nat, Value>, o: Operand): Option<Value> {
    match o
    case Constant(v) => Some(v)
    case Register(r, _) => if r in regs then Some(regs[r]) else None
  }

  function ReadAll(regs: map<nat, Value>, os: seq<Operand>): Option<seq<Value>> {
    if os == [] then Some([])
    else
      match (Read(regs, os[0]), ReadAll(regs, os[1..]))
      case (Some(v), Some(vs)) => Some([v] + vs)
      case _ => None
  }

  function Write(m: Machine, dst: nat, v: Option<Value>): Outcome<Machine> {
    match v
    case None => Fault
    case Some(x) => Running(m.(index := m.index + 1, regs := m.regs[dst := x]))
  }

  function LoadValue(memory: Memory, v: Ir.Variable): Option<Value> {
    match Ir.WidthOf(v.typ)
    case None => None
    case Some(w) => if v in memory then Some(Value(w, memory[v])) else None
  }

  function StoreValue(memory: Memory, v: Ir.Variable, x: Value): Option<Memory> {
    if Ir.WidthOf(v.typ) == Some(x.width) then Some(memory[v := x.bits]) else None
  }

  function ComputeValue(op: Opcode, a: Option<Value>, b: Option<Value>): Option<Value> {
    match (a, b)
    case (Some(x), Some(y)) => if x.width == y.width then Result(op, x.width, x.bits, y.bits) else None
    case _ => None
  }

  function NegValue(a: Value): Value { Value(a.width, Wrap(a.width, -a.bits)) }

  function NotValue(a: Value): Value { Value(a.width, Wrap(a.width, -1 - a.bits)) }

  /** Truncation or sign extension. */
  function CastValue(w: Width, a: Value): Value { Value(w, Wrap(w, a.bits)) }

  function CallValue(world: World, trace: Trace, callee: Ir.Callee, args: seq<Value>): Value {
    var w := Ir.CallWidth(callee);
    Value(w, Wrap(w, world(trace, callee, args)))
  }

  function Jump(m: Machine, block: nat): Outcome<Machine> {
    Running(m.(block := block, index := 0))
  }

  /** Executes one instruction of `m.block`. */
  function Execute(f: Cfg, world: World, m: Machine, i: Instr): Outcome<Machine> {
    match i
    case Alloca(_) => Running(m.(index := m.index + 1))
    case ResetStack => Running(m.(index := m.index + 1, sp := 0))
    case Load(dst, v) => Write(m, dst, LoadValue(m.memory, v))
    case Store(v, o) =>
      (match Read(m.regs, o)
       case None => Fault
       case Some(x) =>
         match StoreValue(m.memory, v, x)
         case None => Fault
         case Some(memory) => Running(m.(index := m.index + 1, memory := memory)))
    case Compute(dst, op, a, b) => Write(m, dst, ComputeValue(op, Read(m.regs, a), Read(m.regs, b)))
    case Neg(dst, a) =>
      (match Read(m.regs, a) case None => Fault case Some(x) => Write(m, dst, Some(NegValue(x))))
    case Not(dst, a) =>
      (match Read(m.regs, a) case None => Fault case Some(x) => Write(m, dst, Some(NotValue(x))))
    case IntCast(dst, a, w) =>
      (match Read(m.regs, a) case None => Fault case Some(x) => Write(m, dst, Some(CastValue(w, x))))
    case Call(dst, callee, os) =>
      (match ReadAll(m.regs, os)
       case None => Fault
       case Some(vs) =>
         Write(m.(trace := m.trace + [Event(callee, vs)]), dst, Some(CallValue(world, m.trace, callee, vs))))
    case PushReturn(b) =>
      if 0 <= m.sp < StackSlots
      then Running(m.(index := m.index + 1, slots := m.slots[m.sp := b], sp := m.sp + 1))
      else Fault
    case PopReturn(dst) =>
      if 0 <= m.sp - 1 < StackSlots && m.sp - 1 in m.slots
      then Write(m.(sp := m.sp - 1), dst, Some(Value(WPtr, m.slots[m.sp - 1])))
      else Fault
    case Br(b) => Jump(m, b)
    case CondBr(c, t, e) =>
      (match Read(m.regs, c)
       case Some(Value(W1, bits)) => Jump(m, if bits != 0 then t else e)
       case _ => Fault)
    case IndirectBr(a, index) =>
      (match Read(m.regs, a)
       case Some(Value(WPtr, b)) =>
         if 0 <= b && index < |f.destinations| && b in f.destinations[index] then Jump(m, b) else Fault
       case _ => Fault)
    case RetVoid => Halted(None, m.memory, m.trace)
    case Ret(o) =>
      (match Read(m.regs, o) case None => Fault case Some(x) => Halted(Some(x), m.memory, m.trace))
  }

  /** One step. Running off the end of a block is a fault. */
  function Step(f: Cfg, world: World, m: Machine): Outcome<Machine> {
    if m.block < |f.blocks| && m.index < |f.blocks[m.block]|
    then Execute(f, world, m, f.blocks[m.block][m.index])
    else Fault
  }

  function Run(f: Cfg, world: World, m: Machine, n: nat): Outcome<Machine>
    decreases n
  {
    if n == 0 then Running(m)
    else
      match Step(f, world, m)
      case Running(m1) => Run(f, world, m1, n - 1)
      case Halted(r, s, t) => Halted(r, s, t)
      case Fault => Fault
  }

  lemma {:induction false} RunAdds(f: Cfg, world: World, m: Machine, a: nat, m1: Machine, b: nat)
    requires Run(f, world, m, a) == Running(m1)
    ensures Run(f, world, m, a + b) == Run(f, world, m1, b)
    decreases a
  {
    if a > 0 {
      RunAdds(f, world, Step(f, world, m).state, a - 1, m1, b);
    }
  }

  /** Once a run has stopped it stays stopped with the same outcome. */
  lemma {:induction false} RunStays(f: Cfg, world: World, m: Machine, a: nat, b: nat)
    requires !Run(f, world, m, a).Running?
    requires a <= b
    ensures Run(f, world, m, b) == Run(f, world, m, a)
    decreases a
  {
    if a > 0 {
      match Step(f, world, m)
      case Running(m1) => RunStays(f, world, m1, a - 1, b - 1);
      case _ =>
    }
  }
}
