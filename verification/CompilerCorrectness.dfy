/** The generated function behaves exactly as its source, up to the size of the return stack. */
module CompilerCorrectness {
  import opened Words
  import opened Ir
  import opened Lowering
  import opened LoweringFrames
  import opened ExpressionLowering
  import opened Matching
  import opened MatchingLemmas
  import opened Simulation
  import L = Llvm
  import S = Semantics

  // The start of a run.

  function ZeroMemory(variables: seq<Variable>): L.Memory {
    map v | v in variables :: 0
  }

  function Start(variables: seq<Variable>, body: Block): S.State {
    S.State(S.Statements(body), S.Return, [], ZeroMemory(variables), [])
  }

  /** The machine at the entry of a function; what its return stack holds does not matter. */
  ghost predicate AtEntry(m: L.Machine) {
    m.block == 0 && m.index == 0 && m.memory == map[] && m.trace == []
  }

  /** One step of the program, where a gosub nested too deep goes wrong. */
  function LimitedStep(p: S.Program, world: L.World, s: S.State): L.Outcome<S.State> {
    match S.Step(p, world, s)
    case Running(s1) => if |s1.gosubs| <= L.StackSlots then L.Running(s1) else L.Fault
    case Halted(r, m, t) => L.Halted(r, m, t)
    case Fault => L.Fault
  }

  function LimitedRun(p: S.Program, world: L.World, s: S.State, n: nat): L.Outcome<S.State>
    decreases n
  {
    if n == 0 then L.Running(s)
    else
      match LimitedStep(p, world, s)
      case Running(s1) => LimitedRun(p, world, s1, n - 1)
      case Halted(r, m, t) => L.Halted(r, m, t)
      case Fault => L.Fault
  }

  lemma {:induction false} LimitedAdds(p: S.Program, world: L.World, s: S.State, a: nat, s1: S.State, b: nat)
    requires LimitedRun(p, world, s, a) == L.Running(s1)
    ensures LimitedRun(p, world, s, a + b) == LimitedRun(p, world, s1, b)
    decreases a
  {
    if a > 0 {
      hide LimitedStep;
      LimitedAdds(p, world, LimitedStep(p, world, s).state, a - 1, s1, b);
    }
  }

  /** Gosubs never nest deeper than the return stack within `n` steps. */
  ghost predicate WithinStack(p: S.Program, world: L.World, s: S.State, n: nat)
    decreases n
  {
    n > 0 ==>
      match S.Step(p, world, s)
      case Running(s1) => |s1.gosubs| <= L.StackSlots && WithinStack(p, world, s1, n - 1)
      case _ => true
  }

  /** The limit is the only difference, and it shows exactly when it is exceeded. */
  lemma {:induction false} LimitMatters(p: S.Program, world: L.World, s: S.State, n: nat)
    ensures WithinStack(p, world, s, n) ==> LimitedRun(p, world, s, n) == S.Run(p, world, s, n)
    ensures !WithinStack(p, world, s, n) ==> LimitedRun(p, world, s, n) == L.Fault
    decreases n
  {
    if n > 0 {
      match S.Step(p, world, s)
      case Running(s1) => LimitMatters(p, world, s1, n - 1);
      case _ =>
    }
  }

  // The prologue.

  lemma {:induction false} PrologueRuns(f: L.Cfg, world: L.World, m: L.Machine, variables: seq<Variable>)
    requires Integral(variables) && CodeAt(f, m, Prologue(variables))
    ensures L.Run(f, world, m, |Prologue(variables)|)
         == L.Running(m.(index := m.index + |Prologue(variables)|, memory := m.memory + ZeroMemory(variables)))
    decreases |variables|
  {
    hide CodeAt, L.Run, L.Execute, Integral;
    if variables == [] {
      assert m.memory + ZeroMemory([]) == m.memory;
      NoSteps(f, world, m);
    } else {
      var v, rest := variables[0], variables[1..];
      var code := Prologue(rest);
      IntegralTail(variables);
      VariableRuns(f, world, m, v, code);
      var m2 := m.(index := m.index + 2, memory := m.memory[v := 0]);
      PrologueRuns(f, world, m2, rest);
      Continue(f, world, m, 2, |code|);
      ZeroTail(m.memory, variables);
    }
  }

  lemma IntegralTail(variables: seq<Variable>)
    requires variables != [] && Integral(variables)
    ensures Integral(variables[1..]) && HasValues(variables[0].typ)
  {
  }

  lemma ZeroTail(memory: L.Memory, variables: seq<Variable>)
    requires variables != []
    ensures memory[variables[0] := 0] + ZeroMemory(variables[1..]) == memory + ZeroMemory(variables)
  {
    assert forall x :: x in variables <==> x == variables[0] || x in variables[1..];
  }

  /** The two instructions of one variable, before the code of the others. */
  lemma VariableRuns(f: L.Cfg, world: L.World, m: L.Machine, v: Variable, code: seq<L.Instr>)
    requires WidthOf(v.typ).Some?
    requires CodeAt(f, m, [L.Alloca(v), L.Store(v, L.Constant(Value(WidthOrVoid(WidthOf(v.typ)), 0)))] + code)
    ensures var m2 := m.(index := m.index + 2, memory := m.memory[v := 0]);
      L.Run(f, world, m, 2) == L.Running(m2) && CodeAt(f, m2, code)
  {
    hide CodeAt, L.Run, L.Execute;
    var w := WidthOf(v.typ).value;
    var i1, i2 := L.Alloca(v), L.Store(v, L.Constant(Value(w, 0)));
    assert [i1] + ([i2] + code) == [i1, i2] + code;
    CodeAtSplit(f, m, [i1], [i2] + code);
    OneStep(f, world, m, i1);
    AllocaStep(f, world, m, v);
    var m1 := m.(index := m.index + 1);
    CodeAtSplit(f, m1, [i2], code);
    OneStep(f, world, m1, i2);
    ZeroStep(f, world, m1, v, w);
    CodeAtElsewhere(f, m1.(index := m1.index + 1), m.(index := m.index + 2, memory := m.memory[v := 0]), code);
    Continue(f, world, m, 1, 1);
  }

  lemma NoSteps(f: L.Cfg, world: L.World, m: L.Machine)
    ensures L.Run(f, world, m, 0) == L.Running(m)
  {
  }

  lemma AllocaStep(f: L.Cfg, world: L.World, m: L.Machine, v: Variable)
    ensures L.Execute(f, world, m, L.Alloca(v)) == L.Running(m.(index := m.index + 1))
  {
  }

  lemma ZeroStep(f: L.Cfg, world: L.World, m: L.Machine, v: Variable, w: Width)
    requires WidthOf(v.typ) == Some(w)
    ensures L.Execute(f, world, m, L.Store(v, L.Constant(Value(w, 0)))) == L.Running(m.(index := m.index + 1, memory := m.memory[v := 0]))
  {
  }

  // The finished function.

  /** The function with its closing return, whether or not the last block needs it. */
  function Closed(main: bool, variables: seq<Variable>, body: Block): Gen {
    var (h, last) := LowerBlock(main, Entry(variables), 0, body);
    Emit(h, last, [L.RetVoid])
  }

  ghost predicate Compilable(main: bool, variables: seq<Variable>, body: Block) {
    LowerableBlock(main, body, {}) && UniqueLabels(body) && Integral(variables)
  }

  lemma ClosedIsFinished(main: bool, variables: seq<Variable>, body: Block)
    requires Compilable(main, variables, body)
    ensures var f := Closed(main, variables, body);
      && Finished(main, f, S.Program(body, main))
      && Placed(main, f, 0, |Entry(variables).blocks[0]|, body, S.Return)
      && Extends(Entry(variables), f)
  {
    hide LowerBlock, Frame, Owns, MatchBlock, Extends, Entry, LowerableBlock, UniqueLabels;
    EntryFacts(variables);
    var g := Entry(variables);
    var (h, last) := LowerBlock(main, g, 0, body);
    FrameBlock(main, g, 0, body);
    FrameFacts(g, h, 0, LabelsOf(body), LoopsOf(body), last);
    var f := Emit(h, last, [L.RetVoid]);
    ExtendsEmit(h, last, [L.RetVoid]);
    ExtendsTransitive(g, h, f);
    FrameEmit(g, h, 0, LabelsOf(body), LoopsOf(body), last, [L.RetVoid]);
    UnplacedEmpty(g, f, LabelsOf(body), LoopsOf(body));
    assert Ready(main, f, g, 0, body, {});
    assert InstrAt(f, last, |h.blocks[last]|, L.RetVoid);
    assert MatchNext(main, f, S.Return, last, |h.blocks[last]|);
    assert MatchExits(main, f, g.exits, S.Return);
    assert ActiveLoops(S.Return) == {};
    MakeMatch(main, f, g, 0, body, S.Return, last, |h.blocks[last]|);
    PlacedHere(main, f, g, 0, body, S.Return);
  }

  /** After the prologue the machine is in the state of the program's start. */
  lemma StartMatches(main: bool, variables: seq<Variable>, body: Block, world: L.World, m: L.Machine) returns (n: nat, m1: L.Machine)
    requires Compilable(main, variables, body) && AtEntry(m)
    ensures var f := Closed(main, variables, body);
      L.Run(f.Code(), world, m, n) == L.Running(m1) && MatchState(main, f, Start(variables, body), m1)
  {
    hide MatchBlock, Placed, Extends, L.Run, L.Execute, CodeIn, Entry, Closed, Compilable;
    var f := Closed(main, variables, body);
    var g := Entry(variables);
    var code := Prologue(variables);
    EntryFacts(variables);
    ClosedIsFinished(main, variables, body);
    BlockIn(g, f, 0, [L.ResetStack] + code, []);
    InIsAt(f, m, 0, 0, [L.ResetStack] + code);
    CodeAtSplit(f.Code(), m, [L.ResetStack], code);
    OneStep(f.Code(), world, m, L.ResetStack);
    ResetStep(f.Code(), world, m);
    var m0 := m.(index := 1, sp := 0);
    CodeAtElsewhere(f.Code(), m.(index := 1), m0, code);
    CompilableIntegral(main, variables, body);
    PrologueRuns(f.Code(), world, m0, variables);
    Continue(f.Code(), world, m, 1, |code|);
    n := 1 + |code|;
    m1 := m0.(index := 1 + |code|, memory := m0.memory + ZeroMemory(variables));
    assert map[] + ZeroMemory(variables) == ZeroMemory(variables);
  }

  lemma CompilableIntegral(main: bool, variables: seq<Variable>, body: Block)
    requires Compilable(main, variables, body)
    ensures Integral(variables)
  {
  }

  lemma ResetStep(f: L.Cfg, world: L.World, m: L.Machine)
    ensures L.Execute(f, world, m, L.ResetStack) == L.Running(m.(index := m.index + 1, sp := 0))
  {
  }

  // From one step to whole runs.

  /** A run of the program that is still going is followed, step for step. */
  lemma {:induction false} Follows(main: bool, f: Gen, p: S.Program, world: L.World, s: S.State, m: L.Machine, n: nat) returns (k: nat)
    requires Finished(main, f, p) && MatchState(main, f, s, m)
    ensures var out := L.Run(f.Code(), world, m, k);
      match LimitedRun(p, world, s, n)
      case Running(s1) => k >= n && out.Running? && MatchState(main, f, s1, out.state)
      case Halted(r, memory, trace) => out == L.Halted(r, memory, trace)
      case Fault => out == L.Fault
    decreases n
  {
    hide Finished, MatchState, L.Run, S.Step;
    if n == 0 {
      k := 0;
      NoSteps(f.Code(), world, m);
    } else {
      var k1 := SimStep(main, f, p, world, s, m);
      match LimitedStep(p, world, s)
      case Running(s1) =>
        var m1 := L.Run(f.Code(), world, m, k1).state;
        var k2 := Follows(main, f, p, world, s1, m1, n - 1);
        Continue(f.Code(), world, m, k1, k2);
        k := k1 + k2;
      case _ => k := k1;
    }
  }

  /** The machine's outcome is the program's. */
  predicate SameEnd(o: L.Outcome<S.State>, out: L.Outcome<L.Machine>) {
    match o
    case Running(_) => false
    case Halted(r, memory, trace) => out == L.Halted(r, memory, trace)
    case Fault => out == L.Fault
  }

  /** When the machine stops, so does the program, in the same way. */
  lemma Reflects(main: bool, f: Gen, p: S.Program, world: L.World, s: S.State, m: L.Machine, k: nat) returns (n: nat)
    requires Finished(main, f, p) && MatchState(main, f, s, m)
    requires !L.Run(f.Code(), world, m, k).Running?
    ensures SameEnd(LimitedRun(p, world, s, n), L.Run(f.Code(), world, m, k))
  {
    hide Finished, MatchState, L.Run, S.Step, LimitedRun;
    n := k + 1;
    var j := Follows(main, f, p, world, s, m, n);
    if j <= k {
      if LimitedRun(p, world, s, n).Running? {
        assert false;
      } else {
        L.RunStays(f.Code(), world, m, j, k);
      }
    } else {
      L.RunStays(f.Code(), world, m, k, j);
    }
  }

  ghost predicate Halts(p: S.Program, world: L.World, s: S.State, r: Option<Value>, memory: L.Memory, trace: L.Trace) {
    exists n: nat :: LimitedRun(p, world, s, n) == L.Halted(r, memory, trace)
  }

  ghost predicate GoesWrong(p: S.Program, world: L.World, s: S.State) {
    exists n: nat :: LimitedRun(p, world, s, n) == L.Fault
  }

  ghost predicate Diverges(p: S.Program, world: L.World, s: S.State) {
    forall n: nat :: LimitedRun(p, world, s, n).Running?
  }

  ghost predicate MachineHalts(f: L.Cfg, world: L.World, m: L.Machine, r: Option<Value>, memory: L.Memory, trace: L.Trace) {
    exists k: nat :: L.Run(f, world, m, k) == L.Halted(r, memory, trace)
  }

  ghost predicate MachineGoesWrong(f: L.Cfg, world: L.World, m: L.Machine) {
    exists k: nat :: L.Run(f, world, m, k) == L.Fault
  }

  ghost predicate MachineDiverges(f: L.Cfg, world: L.World, m: L.Machine) {
    forall k: nat :: L.Run(f, world, m, k).Running?
  }

  lemma MatchedBehaviour(main: bool, f: Gen, p: S.Program, world: L.World, s: S.State, m: L.Machine,
                         r: Option<Value>, memory: L.Memory, trace: L.Trace)
    requires Finished(main, f, p) && MatchState(main, f, s, m)
    ensures Halts(p, world, s, r, memory, trace) <==> MachineHalts(f.Code(), world, m, r, memory, trace)
    ensures GoesWrong(p, world, s) <==> MachineGoesWrong(f.Code(), world, m)
    ensures Diverges(p, world, s) <==> MachineDiverges(f.Code(), world, m)
  {
    hide Finished, MatchState, L.Run, LimitedRun;
    if Halts(p, world, s, r, memory, trace) {
      var n: nat :| LimitedRun(p, world, s, n) == L.Halted(r, memory, trace);
      var k := Follows(main, f, p, world, s, m, n);
    }
    if MachineHalts(f.Code(), world, m, r, memory, trace) {
      var k: nat :| L.Run(f.Code(), world, m, k) == L.Halted(r, memory, trace);
      var n := Reflects(main, f, p, world, s, m, k);
    }
    if GoesWrong(p, world, s) {
      var n: nat :| LimitedRun(p, world, s, n) == L.Fault;
      var k := Follows(main, f, p, world, s, m, n);
    }
    if MachineGoesWrong(f.Code(), world, m) {
      var k: nat :| L.Run(f.Code(), world, m, k) == L.Fault;
      var n := Reflects(main, f, p, world, s, m, k);
    }
    if !MachineDiverges(f.Code(), world, m) {
      var k: nat :| !L.Run(f.Code(), world, m, k).Running?;
      var n := Reflects(main, f, p, world, s, m, k);
    }
    if !Diverges(p, world, s) {
      var n: nat :| !LimitedRun(p, world, s, n).Running?;
      var k := Follows(main, f, p, world, s, m, n);
    }
  }

  /** Some steps before a state do not change how it ends. */
  lemma Prefixed(f: L.Cfg, world: L.World, m: L.Machine, n: nat, m1: L.Machine, r: Option<Value>, memory: L.Memory, trace: L.Trace)
    requires L.Run(f, world, m, n) == L.Running(m1)
    ensures MachineHalts(f, world, m, r, memory, trace) <==> MachineHalts(f, world, m1, r, memory, trace)
    ensures MachineGoesWrong(f, world, m) <==> MachineGoesWrong(f, world, m1)
    ensures MachineDiverges(f, world, m) <==> MachineDiverges(f, world, m1)
  {
    hide L.Run;
    forall k: nat
      ensures L.Run(f, world, m, n + k) == L.Run(f, world, m1, k)
    {
      L.RunAdds(f, world, m, n, m1, k);
    }
    forall k: nat
      ensures k <= n ==> L.Run(f, world, m, k).Running?
      ensures k > n ==> L.Run(f, world, m, k) == L.Run(f, world, m1, k - n)
    {
      if k <= n {
        if !L.Run(f, world, m, k).Running? { L.RunStays(f, world, m, k, n); }
      } else {
        L.RunAdds(f, world, m, n, m1, k - n);
      }
    }
  }

  // A function that ends in an explicit return has no closing one; it makes no difference.

  ghost predicate NotBehindReturn(f: L.Cfg, m: L.Machine) {
    m.index == 0 || (m.block < |f.blocks| && m.index - 1 < |f.blocks[m.block]| && !f.blocks[m.block][m.index - 1].IsTerminator())
  }

  lemma StaysInFront(f: L.Cfg, world: L.World, m: L.Machine)
    requires NotBehindReturn(f, m) && L.Step(f, world, m).Running?
    ensures NotBehindReturn(f, L.Step(f, world, m).state)
  {
    hide L.LoadValue, L.StoreValue, L.ComputeValue, L.NegValue, L.NotValue, L.CastValue, L.CallValue, L.ReadAll;
  }

  lemma SameStep(h: Gen, last: nat, world: L.World, m: L.Machine)
    requires EndsWithTerminator(h, last) && NotBehindReturn(h.Code(), m)
    ensures var f := Emit(h, last, [L.RetVoid]);
      L.Step(f.Code(), world, m) == L.Step(h.Code(), world, m)
  {
    hide L.LoadValue, L.StoreValue, L.ComputeValue, L.NegValue, L.NotValue, L.CastValue, L.CallValue, L.ReadAll;
  }

  lemma {:induction false} SameRun(h: Gen, last: nat, world: L.World, m: L.Machine, n: nat)
    requires EndsWithTerminator(h, last) && NotBehindReturn(h.Code(), m)
    ensures L.Run(Emit(h, last, [L.RetVoid]).Code(), world, m, n) == L.Run(h.Code(), world, m, n)
    decreases n
  {
    if n > 0 {
      hide L.Step, EndsWithTerminator, NotBehindReturn;
      SameStep(h, last, world, m);
      match L.Step(h.Code(), world, m)
      case Running(m1) => StaysInFront(h.Code(), world, m); SameRun(h, last, world, m1, n - 1);
      case _ =>
    }
  }

  lemma FunctionRunsAsClosed(main: bool, variables: seq<Variable>, body: Block, world: L.World, m: L.Machine, n: nat)
    requires m.index == 0
    ensures L.Run(LowerFunction(main, variables, body).Code(), world, m, n) == L.Run(Closed(main, variables, body).Code(), world, m, n)
  {
    hide L.Run, LowerBlock;
    var (h, last) := LowerBlock(main, Entry(variables), 0, body);
    if EndsWithTerminator(h, last) {
      SameRun(h, last, world, m, n);
    }
  }

  /** Compiler correctness: the generated function halts with exactly the results, memory and
      calls with which its source halts, goes wrong exactly when its source does, and runs
      forever exactly when its source does. */
  lemma CompilerCorrect(main: bool, variables: seq<Variable>, body: Block, world: L.World, m: L.Machine,
                        r: Option<Value>, memory: L.Memory, trace: L.Trace)
    requires LowerableBlock(main, body, {}) && UniqueLabels(body) && Integral(variables) && AtEntry(m)
    ensures var f := LowerFunction(main, variables, body).Code();
      var p, s := S.Program(body, main), Start(variables, body);
      && (Halts(p, world, s, r, memory, trace) <==> MachineHalts(f, world, m, r, memory, trace))
      && (GoesWrong(p, world, s) <==> MachineGoesWrong(f, world, m))
      && (Diverges(p, world, s) <==> MachineDiverges(f, world, m))
  {
    hide L.Run, LowerFunction, Closed, LimitedRun, MatchState, LowerableBlock, UniqueLabels, Integral, Placed;
    var c := Closed(main, variables, body);
    ClosedIsFinished(main, variables, body);
    var n, m1 := StartMatches(main, variables, body, world, m);
    MatchedBehaviour(main, c, S.Program(body, main), world, Start(variables, body), m1, r, memory, trace);
    Prefixed(c.Code(), world, m, n, m1, r, memory, trace);
    forall k: nat
      ensures L.Run(LowerFunction(main, variables, body).Code(), world, m, k) == L.Run(c.Code(), world, m, k)
    {
      FunctionRunsAsClosed(main, variables, body, world, m, k);
    }
  }

  /** While the source is still running, the generated function has made the same calls and
      has the same memory after at least as many steps. */
  lemma RunsAlike(main: bool, variables: seq<Variable>, body: Block, world: L.World, m: L.Machine, n: nat) returns (k: nat)
    requires LowerableBlock(main, body, {}) && UniqueLabels(body) && Integral(variables) && AtEntry(m)
    requires LimitedRun(S.Program(body, main), world, Start(variables, body), n).Running?
    ensures k >= n
    ensures var s := LimitedRun(S.Program(body, main), world, Start(variables, body), n).state;
      var out := L.Run(LowerFunction(main, variables, body).Code(), world, m, k);
      out.Running? && out.state.memory == s.memory && out.state.trace == s.trace && out.state.sp == |s.gosubs|
  {
    hide L.Run, LowerFunction, Closed, LimitedRun, LowerableBlock, UniqueLabels, Integral, Placed, MatchControl, MatchBlock;
    var c := Closed(main, variables, body);
    ClosedIsFinished(main, variables, body);
    var n0, m1 := StartMatches(main, variables, body, world, m);
    var k1 := Follows(main, c, S.Program(body, main), world, Start(variables, body), m1, n);
    k := n0 + k1;
    L.RunAdds(c.Code(), world, m, n0, m1, k1);
    FunctionRunsAsClosed(main, variables, body, world, m, k);
  }
}
