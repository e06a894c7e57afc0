/** From the syntax tree to code: what the converter returns meets everything that the correctness
    of the generated code relies on. */
module Compilation {
  import opened Words
  import opened Ir
  import opened LoweringFrames
  import opened Lowering
  import opened Matching
  import opened BlockStructure
  import opened WellFormed
  import opened CompilerCorrectness
  import opened TypedIr
  import opened AbstractSyntax
  import opened AstConversion
  import opened Faults
  import CodeGeneration
  import L = Llvm
  import S = Semantics

  /** The function uses only what this model of the generator has code for. */
  predicate PlainFunction(f: Function) {
    PlainBlock(f.body) && (f.result.Some? ==> Plain(f.result.value))
  }

  /** A converted function within the generator's means is generated to its end, and has all that
      depends on types and operators alone. */
  lemma ConvertedIsFormed(index: Index, b: AstBlock, result: Option<AstExpression>, f: Function)
    requires Converted(index, b, result, f) && PlainFunction(f)
    ensures FormedBlock(f.body, {}) && UniqueLabels(f.body) && Integral(f.variables)
    ensures CodeGeneration.EmittableBlock(f.body) && CodeGeneration.HandledBlock(f.body, {})
    ensures forall v <- f.variables :: HasValues(v.typ)
  {
    hide TypedBlock, MirrorsBlock, UniqueLabels, PlainBlock, Plain, Typed, Mirrors, VarsOf, VarsIn, ProperVariables;
    TypedBlockFormed(f.body, {});
    TypedBlockHandled(f.body, {}, {});
    PlainVarsOf(f.body);
    if f.result.Some? {
      PlainVars(f.result.value);
    }
    forall v | v in f.variables ensures HasValues(v.typ) {
      assert v in VarsOf(f.body) + VarsOfResult(f.result);
    }
  }

  /** What LLVM says when it verifies the code. */
  predicate Accepted(isMain: bool, f: Function) {
    && JumpsOf(f.body) <= LabelsOf(f.body) && NoReturn(f.body)
    && ValuesExistInBlock(isMain, f.body) && CallsCompleteInBlock(isMain, f.body)
  }

  /** The function is within the generator's means, and its code is well-formed. */
  ghost predicate Usable(isMain: bool, f: Function) {
    PlainFunction(f) && WellFormedFunction(LowerFunction(isMain, f.variables, f.body))
  }

  lemma UsableExactly(index: Index, isMain: bool, b: AstBlock, result: Option<AstExpression>, f: Function)
    requires Converted(index, b, result, f)
    ensures Usable(isMain, f) <==> PlainFunction(f) && Accepted(isMain, f)
    ensures Usable(isMain, f) ==> LowerableBlock(isMain, f.body, {})
  {
    hide Converted, PlainFunction, WellFormedFunction, LowerFunction, FormedBlock, UniqueLabels, Integral;
    if PlainFunction(f) {
      ConvertedIsFormed(index, b, result, f);
      WellFormedExactly(isMain, f.variables, f.body);
    }
  }

  /** Whatever the world answers, the code halts as the function does, with the same result, memory
      and calls, goes wrong when it does, and runs forever when it does. */
  ghost predicate BehavesAs(code: L.Cfg, isMain: bool, f: Function) {
    forall world: L.World, m: L.Machine, r: Option<Value>, memory: L.Memory, trace: L.Trace :: AtEntry(m) ==>
      BehavesAsIn(code, isMain, f, world, m, r, memory, trace)
  }

  ghost predicate BehavesAsIn(code: L.Cfg, isMain: bool, f: Function, world: L.World, m: L.Machine, r: Option<Value>,
                              memory: L.Memory, trace: L.Trace)
  {
    var p, s := S.Program(f.body, isMain), Start(f.variables, f.body);
    && (Halts(p, world, s, r, memory, trace) <==> MachineHalts(code, world, m, r, memory, trace))
    && (GoesWrong(p, world, s) <==> MachineGoesWrong(code, world, m))
    && (Diverges(p, world, s) <==> MachineDiverges(code, world, m))
  }

  lemma LoweredBehavesAs(isMain: bool, f: Function)
    requires LowerableBlock(isMain, f.body, {}) && UniqueLabels(f.body) && Integral(f.variables)
    ensures BehavesAs(LowerFunction(isMain, f.variables, f.body).Code(), isMain, f)
  {
    hide LowerFunction, LowerableBlock, UniqueLabels, Integral, Halts, GoesWrong, Diverges, MachineHalts, MachineGoesWrong, MachineDiverges;
    forall world: L.World, m: L.Machine, r: Option<Value>, memory: L.Memory, trace: L.Trace | AtEntry(m)
      ensures BehavesAsIn(LowerFunction(isMain, f.variables, f.body).Code(), isMain, f, world, m, r, memory, trace)
    {
      CompilerCorrect(isMain, f.variables, f.body, world, m, r, memory, trace);
    }
  }

  method CompileFunction(isMain: bool, f: Function) returns (code: L.Cfg)
    requires LowerableBlock(isMain, f.body, {}) && UniqueLabels(f.body) && Integral(f.variables)
    requires CodeGeneration.EmittableBlock(f.body) && CodeGeneration.HandledBlock(f.body, {})
    requires forall v <- f.variables :: HasValues(v.typ)
    ensures code == LowerFunction(isMain, f.variables, f.body).Code() && BehavesAs(code, isMain, f)
  {
    hide LowerFunction, LowerableBlock, UniqueLabels, Integral, BehavesAs;
    var generator := new CodeGeneration.CodeGenerator();
    var ok := generator.GenerateFunctionBody(isMain, f.variables, f.body);
    code := L.Cfg(generator.blocks, generator.gosubReturnInstructions);
    assert code == generator.State().Code();
    LoweredBehavesAs(isMain, f);
  }

  /** The whole way, for main and every function. There is no program if the converter reports an
      error or stops, and no code if a function lies outside the fragment modelled here or LLVM
      refuses its code. */
  method CompileProgram(c: AstConverter, main: AstBlock, functions: seq<FuncDecl>)
    returns (p: Option<Program>, code: Option<seq<L.Cfg>>)
    requires c.Ongoing() && !c.errorOccurred && c.met == [] && c.returnExpressions == map[]
    modifies c
    ensures c.Valid() && (p.None? <==> c.errorOccurred || c.stopped.Some?)
    ensures Decides(c.index, p.Some?, FaultlessProgram(c.index, main, functions))
    ensures p.Some? ==> |p.value.functions| == |functions| && Converted(c.index, main, None, p.value.main)
    ensures p.Some? ==> forall i :: 0 <= i < |functions| ==>
      Converted(c.index, functions[i].body, functions[i].returnValue, p.value.functions[i])
    ensures p.Some? ==> var all := AllEvents(main, functions, p.value);
      && Resolved(main, p.value.main.body, all)
      && forall i :: 0 <= i < |functions| ==> Resolved(functions[i].body, p.value.functions[i].body, all)
    ensures code.Some? <==>
      p.Some? && Usable(true, p.value.main) && forall i :: 0 <= i < |functions| ==> Usable(false, p.value.functions[i])
    ensures code.Some? ==> |code.value| == 1 + |functions| && BehavesAs(code.value[0], true, p.value.main)
    ensures code.Some? ==> forall i :: 0 <= i < |functions| ==> BehavesAs(code.value[1 + i], false, p.value.functions[i])
  {
    hide Converted, BehavesAs, PlainFunction, LowerableBlock, UniqueLabels, Integral, Resolved, LowerFunction, Usable, Accepted, FaultlessProgram, TiesReturnTheSame;
    code := None;
    p := c.GenerateProgram(main, functions);
    if p.None? {
      return;
    }
    var first := CompileIfUsable(c.index, true, main, None, p.value.main);
    if first.None? {
      return;
    }
    var done := [first.value];
    for i := 0 to |functions|
      invariant c.Ongoing() && !c.errorOccurred
      invariant |done| == 1 + i && BehavesAs(done[0], true, p.value.main)
      invariant forall k :: 0 <= k < i ==> Usable(false, p.value.functions[k]) && BehavesAs(done[1 + k], false, p.value.functions[k])
    {
      var next := CompileIfUsable(c.index, false, functions[i].body, functions[i].returnValue, p.value.functions[i]);
      if next.None? {
        return;
      }
      done := done + [next.value];
    }
    code := Some(done);
  }

  method CompileIfUsable(index: Index, isMain: bool, ghost b: AstBlock, ghost result: Option<AstExpression>, f: Function)
    returns (code: Option<L.Cfg>)
    requires Converted(index, b, result, f)
    ensures code.Some? <==> Usable(isMain, f)
    ensures code.Some? ==> BehavesAs(code.value, isMain, f)
  {
    hide Converted, BehavesAs, LowerableBlock, UniqueLabels, Integral, LowerFunction, Usable;
    UsableExactly(index, isMain, b, result, f);
    if !PlainFunction(f) || !Accepted(isMain, f) {
      return None;
    }
    ConvertedIsFormed(index, b, result, f);
    var next := CompileFunction(isMain, f);
    code := Some(next);
  }
}
