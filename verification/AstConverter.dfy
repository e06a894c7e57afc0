/** The converter from the syntax tree to the typed IR. */
module AstConversion {
  import opened Words
  import opened Ir
  import opened LoweringFrames
  import opened Matching
  import opened TypedIr
  import opened AbstractSyntax
  import opened Faults
  import L = LabelResolution

  method ScoreCandidate(c: CommandDecl, arguments: seq<Type>) returns (score: nat)
    requires |c.params| == |arguments|
    ensures score == Score(c.params, arguments)
  {
    score := 0;
    for i := 0 to |c.params|
      invariant score == Score(c.params[..i], arguments[..i])
    {
      assert c.params[..i + 1][..i] == c.params[..i] && arguments[..i + 1][..i] == arguments[..i];
      score := score + ScoreOne(GetTypeFromCommandType(c.params[i]), arguments[i]);
    }
    assert c.params[..|c.params|] == c.params && arguments[..|arguments|] == arguments;
  }

  method CanConvertArguments(c: CommandDecl, arguments: seq<Type>) returns (can: bool)
    requires |c.params| == |arguments|
    ensures can <==> Applicable(c, arguments)
  {
    for i := 0 to |c.params|
      invariant forall k :: 0 <= k < i ==>
        GetTypeFromCommandType(c.params[k]).Some? && IsTypeConvertible(arguments[k], GetTypeFromCommandType(c.params[k]).value)
    {
      if c.params[i] == TX || c.params[i] == TA {
        return false;
      }
      if !IsTypeConvertible(arguments[i], GetTypeFromCommandType(c.params[i]).value) {
        return false;
      }
    }
    can := true;
  }

  /** Among the overloads the arguments can be converted to, one with the highest score; there
      may be several, and the sort leaves open which of them comes last. Without arguments the
      first candidate is taken as it is. */
  method ChooseOverload(candidates: seq<CommandDecl>, arguments: seq<Type>) returns (r: Option<CommandDecl>)
    requires candidates != []
    ensures r.None? <==> arguments != [] && forall c <- candidates :: !Applicable(c, arguments)
    ensures r.Some? ==> ChosenFor(candidates, r.value, arguments)
  {
    if arguments == [] {
      return Some(candidates[0]);
    }
    var applicable: seq<CommandDecl> := [];
    for i := 0 to |candidates|
      invariant forall c :: c in applicable <==> c in candidates[..i] && Applicable(c, arguments)
    {
      assert candidates[..i + 1] == candidates[..i] + [candidates[i]];
      if |candidates[i].params| == |arguments| {
        var can := CanConvertArguments(candidates[i], arguments);
        if can {
          applicable := applicable + [candidates[i]];
        }
      }
    }
    assert candidates[..|candidates|] == candidates;
    if applicable == [] {
      return None;
    }
    forall k | 0 <= k < |applicable| ensures |applicable[k].params| == |arguments| {
      assert applicable[k] in applicable;
    }
    BestExists(applicable, arguments);
    var best :| IsBest(applicable, best, arguments);
    r := Some(best);
  }

  predicate IsBest(cs: seq<CommandDecl>, b: CommandDecl, arguments: seq<Type>) {
    && b in cs && |b.params| == |arguments|
    && forall k :: 0 <= k < |cs| ==> |cs[k].params| == |arguments| ==> Score(cs[k].params, arguments) <= Score(b.params, arguments)
  }

  lemma {:induction false} BestExists(cs: seq<CommandDecl>, arguments: seq<Type>)
    requires cs != [] && forall k :: 0 <= k < |cs| ==> |cs[k].params| == |arguments|
    ensures exists b :: IsBest(cs, b, arguments)
  {
    hide Score;
    if |cs| == 1 {
      assert IsBest(cs, cs[0], arguments);
    } else {
      BestExists(cs[1..], arguments);
      var b :| IsBest(cs[1..], b, arguments);
      BetterOfTwo(cs, b, arguments);
    }
  }

  lemma BetterOfTwo(cs: seq<CommandDecl>, b: CommandDecl, arguments: seq<Type>)
    requires cs != [] && |cs[0].params| == |arguments| && IsBest(cs[1..], b, arguments)
    ensures exists c :: IsBest(cs, c, arguments)
  {
    hide Score;
    var w := if Score(cs[0].params, arguments) <= Score(b.params, arguments) then b else cs[0];
    forall k | 0 <= k < |cs| && |cs[k].params| == |arguments| ensures Score(cs[k].params, arguments) <= Score(w.params, arguments) {
      if k > 0 {
        assert cs[k] == cs[1..][k - 1];
      }
    }
    assert IsBest(cs, w, arguments);
  }

  // Arguments.

  function ToArguments(es: seq<Expression>): Arguments {
    if es == [] then NoArguments else Argument(es[0], ToArguments(es[1..]))
  }

  ghost predicate AllTyped(es: seq<Expression>) {
    forall i :: 0 <= i < |es| ==> Typed(es[i])
  }

  lemma {:induction false} ArgumentsTyped(es: seq<Expression>)
    requires AllTyped(es)
    ensures TypedAll(ToArguments(es))
    ensures |Types(ToArguments(es))| == |es| && forall i :: 0 <= i < |es| ==> Types(ToArguments(es))[i] == GetType(es[i])
  {
    if es != [] {
      ArgumentsTyped(es[1..]);
    }
  }

  function Drop(arguments: AstArguments, n: nat): (r: AstArguments)
    requires n <= Length(arguments)
    ensures Length(r) == Length(arguments) - n
  {
    if n == 0 then arguments else Drop(arguments.rest, n - 1)
  }

  lemma DropNone(arguments: AstArguments)
    ensures Drop(arguments, 0) == arguments
  {
  }

  lemma {:induction false} DropNext(arguments: AstArguments, n: nat)
    requires n < Length(arguments)
    ensures Drop(arguments, n).AstArgument? && Drop(arguments, n + 1) == Drop(arguments, n).rest
  {
    if n > 0 {
      DropNext(arguments.rest, n - 1);
    }
  }

  /** The first arguments, converted one by one. */
  ghost predicate MirrorsFirst(index: Index, arguments: AstArguments, es: seq<Expression>) {
    |es| <= Length(arguments)
    && forall i :: 0 <= i < |es| ==> Drop(arguments, i).AstArgument? && MirrorsUpToCast(index, Drop(arguments, i).first, es[i])
  }

  lemma {:induction false} MirrorsToArguments(index: Index, arguments: AstArguments, es: seq<Expression>)
    requires MirrorsFirst(index, arguments, es) && |es| == Length(arguments)
    ensures MirrorsAll(index, arguments, ToArguments(es))
  {
    if es != [] {
      assert Drop(arguments, 0).AstArgument? && MirrorsUpToCast(index, Drop(arguments, 0).first, es[0]);
      forall i | 0 <= i < |es| - 1
        ensures Drop(arguments.rest, i).AstArgument? && MirrorsUpToCast(index, Drop(arguments.rest, i).first, es[1..][i])
      {
        assert Drop(arguments, i + 1) == Drop(arguments.rest, i) && es[1..][i] == es[i + 1];
      }
      MirrorsToArguments(index, arguments.rest, es[1..]);
    }
  }

  function VarsInEach(es: seq<Expression>): set<Variable> {
    if es == [] then {} else VarsInEach(es[..|es| - 1]) + VarsIn(es[|es| - 1])
  }

  lemma {:induction false} VarsInFirst(e: Expression, es: seq<Expression>)
    ensures VarsInEach([e] + es) == VarsIn(e) + VarsInEach(es)
    decreases |es|
  {
    var all := [e] + es;
    if es == [] {
      assert all[..0] == [];
    } else {
      assert all[..|all| - 1] == [e] + es[..|es| - 1];
      VarsInFirst(e, es[..|es| - 1]);
    }
  }

  lemma VarsInOneMore(es: seq<Expression>, e: Expression)
    ensures VarsInEach(es + [e]) == VarsInEach(es) + VarsIn(e)
  {
    assert (es + [e])[..|es|] == es;
  }

  lemma NoArgumentYet(index: Index, arguments: AstArguments)
    ensures MirrorsFirst(index, arguments, []) && VarsInEach([]) == {}
  {
  }

  lemma MirrorsOneMore(index: Index, arguments: AstArguments, es: seq<Expression>, e: Expression)
    requires MirrorsFirst(index, arguments, es) && |es| < Length(arguments)
    requires Drop(arguments, |es|).AstArgument? && MirrorsUpToCast(index, Drop(arguments, |es|).first, e)
    ensures MirrorsFirst(index, arguments, es + [e])
  {
    hide MirrorsUpToCast, Drop;
  }

  lemma {:induction false} VarsOfArguments(es: seq<Expression>)
    ensures VarsInAll(ToArguments(es)) == VarsInEach(es)
    decreases |es|
  {
    if es != [] {
      assert [es[0]] + es[1..] == es;
      VarsInFirst(es[0], es[1..]);
      VarsOfArguments(es[1..]);
    }
  }

  predicate IsOrCasts(b: Expression, e: Expression) {
    b == e || (b.Cast? && b.inner == e && GetType(e) != Some(b.target))
  }

  /** An operation on two operands, the right one of which may have been cast. */
  predicate JoinOf(op: BinaryOp, left: Expression, right: Expression, r: Expression) {
    r.Binary? && r.bop == op && r.left == left && IsOrCasts(r.right, right) && (r.right != right ==> GetType(left) == Some(r.right.target))
  }

  lemma JoinMirrors(index: Index, e: AstExpression, left: Expression, right: Expression, r: Expression)
    requires e.AstBinary? && Mirrors(index, e.lhs, left) && Mirrors(index, e.rhs, right) && JoinOf(e.bop, left, right, r)
    ensures Mirrors(index, e, r) && VarsIn(r) == VarsIn(left) + VarsIn(right)
  {
    MirrorIsNoCast(index, e.rhs, right);
  }

  /** The arguments `bs` are the arguments `es`, some of them cast. */
  ghost predicate CastOf(es: seq<Expression>, bs: seq<Expression>) {
    |es| == |bs| && forall i :: 0 <= i < |es| ==> !es[i].Cast? && IsOrCasts(bs[i], es[i])
  }

  lemma {:induction false} CastsKeep(es: seq<Expression>, bs: seq<Expression>, types: seq<Type>)
    requires CastOf(es, bs) && |types| == |es| && forall i :: 0 <= i < |es| ==> GetType(es[i]) == Some(types[i])
    ensures TypesBefore(ToArguments(bs)) == SomeTypes(types) && VarsInEach(bs) == VarsInEach(es)
    decreases |es|
  {
    if es != [] {
      assert Uncast(bs[0]) == es[0];
      CastsKeep(es[1..], bs[1..], types[1..]);
      VarsInFirst(es[0], es[1..]);
      VarsInFirst(bs[0], bs[1..]);
      assert [es[0]] + es[1..] == es && [bs[0]] + bs[1..] == bs;
      assert SomeTypes(types) == [Some(types[0])] + SomeTypes(types[1..]);
    }
  }

  // Blocks grow statement by statement.

  function Append(b: Block, s: Statement): Block {
    match b
    case End => Then(s, End)
    case Then(head, tail) => Then(head, Append(tail, s))
  }

  /** `done` is what was converted of `b` when `rest` remains. */
  ghost predicate MirrorsUntil(index: Index, b: AstBlock, done: Block, rest: AstBlock, inner: Option<nat>)
    decreases b
  {
    match done
    case End => rest == b
    case Then(head, tail) =>
      b.AstThen? && MirrorsStatement(index, b.head, head, inner) && MirrorsUntil(index, b.tail, tail, rest, inner)
  }

  lemma {:induction false} OneMoreStatement(index: Index, b: AstBlock, done: Block, rest: AstBlock,
                                            s: Statement, inner: Option<nat>, enclosing: set<nat>)
    requires MirrorsUntil(index, b, done, rest, inner) && rest.AstThen? && MirrorsStatement(index, rest.head, s, inner)
    requires TypedBlock(done, enclosing) && TypedStatement(s, enclosing)
    ensures MirrorsUntil(index, b, Append(done, s), rest.tail, inner) && TypedBlock(Append(done, s), enclosing)
    ensures EventsOf(b, Append(done, s)) == EventsOf(b, done) + EventsIn(rest.head, s)
    ensures VarsOf(Append(done, s)) == VarsOf(done) + VarsOfStatement(s)
    decreases b
  {
    hide MirrorsStatement, TypedStatement, EventsIn, VarsOfStatement;
    match done
    case End =>
      assert EventsOf(rest.tail, End) == [] && Append(done, s) == Then(s, End);
    case Then(head, tail) =>
      OneMoreStatement(index, b.tail, tail, rest, s, inner, enclosing);
  }

  lemma NothingDone(index: Index, b: AstBlock, inner: Option<nat>, enclosing: set<nat>)
    ensures MirrorsUntil(index, b, End, b, inner) && TypedBlock(End, enclosing)
    ensures EventsOf(b, End) == [] && VarsOf(End) == {}
  {
  }

  lemma NoDecls()
    ensures DeclsOf(AstEnd) == {}
  {
  }

  lemma DeclsOfHead(b: AstBlock)
    requires b.AstThen?
    ensures DeclsOf(b) == DeclsIn(b.head) + DeclsOf(b.tail)
  {
    hide DeclsIn;
  }

  lemma {:induction false} MirrorsToBlock(index: Index, b: AstBlock, done: Block, inner: Option<nat>)
    requires MirrorsUntil(index, b, done, AstEnd, inner)
    ensures MirrorsBlock(index, b, done, inner)
    decreases b
  {
    hide MirrorsStatement;
    if done.Then? {
      MirrorsToBlock(index, b.tail, done.tail, inner);
    }
  }

  // Programs.

  datatype FuncDecl = FuncDecl(name: string, body: AstBlock, returnValue: Option<AstExpression>)

  datatype Function = Function(variables: seq<Variable>, body: Block, result: Option<Expression>)

  datatype Program = Program(main: Function, functions: seq<Function>)

  function VarsOfResult(e: Option<Expression>): set<Variable> {
    if e.Some? then VarsIn(e.value) else {}
  }

  /** A function converted: well typed, what was written, without a label placed twice, and with
      exactly the variables that occur in it, one for each name with an annotation, of its type. */
  ghost predicate Converted(index: Index, b: AstBlock, result: Option<AstExpression>, f: Function) {
    && TypedBlock(f.body, {}) && MirrorsBlock(index, b, f.body, None) && UniqueLabels(f.body)
    && (forall v :: v in f.variables <==> v in VarsOf(f.body) + VarsOfResult(f.result))
    && ProperVariables(f.variables, DeclsOf(b))
    && (match result
        case Some(e) => f.result.Some? && Typed(f.result.value) && Mirrors(index, e, f.result.value)
        case None => f.result.None?)
  }

  // Programs without faults: main and then each function, with a scope of its own. Calls before a
  // function is converted are of type void.

  ghost function BehindBody(index: Index, results: Results, b: AstBlock): Context {
    Context(index, results, EnvOf(ScopeBehind(map[], b)))
  }

  ghost predicate FaultlessFrom(index: Index, results: Results, functions: seq<FuncDecl>)
    decreases |functions|
  {
    functions != [] ==>
      var f := functions[0];
      && FaultlessBody(index, results, f.body, f.returnValue)
      && match f.returnValue
         case None => FaultlessFrom(index, results, functions[1..])
         case Some(e) =>
           forall t | HasType(BehindBody(index, results, f.body), e, t) :: FaultlessFrom(index, results[f.name := t], functions[1..])
  }

  ghost predicate FaultlessProgram(index: Index, main: AstBlock, functions: seq<FuncDecl>) {
    FaultlessBody(index, map[], main, None) && FaultlessFrom(index, map[], functions)
  }

  lemma FirstIsFaultless(index: Index, results: Results, functions: seq<FuncDecl>)
    requires functions != []
    ensures FaultlessFrom(index, results, functions) ==> FaultlessBody(index, results, functions[0].body, functions[0].returnValue)
  {
    hide FaultlessBody, HasType;
  }

  lemma FromParts(index: Index, results: Results, functions: seq<FuncDecl>, t: Option<Type>)
    requires functions != []
    requires functions[0].returnValue.Some? ==> HasType(BehindBody(index, results, functions[0].body), functions[0].returnValue.value, t)
    ensures var after := if functions[0].returnValue.Some? then results[functions[0].name := t] else results;
      && (FaultlessFrom(index, results, functions) ==> FaultlessFrom(index, after, functions[1..]))
      && (TiesReturnTheSame(index) && FaultlessBody(index, results, functions[0].body, functions[0].returnValue) ==>
            (FaultlessFrom(index, after, functions[1..]) ==> FaultlessFrom(index, results, functions)))
  {
    hide FaultlessBody, HasType, TiesReturnTheSame;
    var f := functions[0];
    if TiesReturnTheSame(index) && f.returnValue.Some? {
      var cx := BehindBody(index, results, f.body);
      forall u | HasType(cx, f.returnValue.value, u) ensures u == t {
        TypeIsUnique(cx, f.returnValue.value, u, t);
      }
    }
  }

  lemma NoneFrom(index: Index, results: Results)
    ensures FaultlessFrom(index, results, [])
  {
  }

  lemma NoResultsYet()
    ensures TypesOfResults(map[]) == map[]
  {
  }

  lemma ResultsOfOneMore(expressions: map<string, Expression>, name: string, result: Option<Expression>)
    ensures result.Some? ==> TypesOfResults(expressions[name := result.value]) == TypesOfResults(expressions)[name := GetType(result.value)]
  {
    hide GetType;
  }

  lemma ConvertedResult(index: Index, b: AstBlock, result: Option<AstExpression>, f: Function)
    requires Converted(index, b, result, f)
    ensures result.Some? <==> f.result.Some?
  {
  }

  /** Labels and jumps of the functions converted so far, in their order. */
  function EventsOfFunctions(functions: seq<FuncDecl>, done: seq<Function>): seq<L.Event>
    requires |done| <= |functions|
    decreases |done|
  {
    if done == [] then []
    else
      var n := |done| - 1;
      EventsOfFunctions(functions, done[..n]) + EventsOf(functions[n].body, done[n].body)
  }

  /** Those of the whole program: main comes first. */
  function AllEvents(main: AstBlock, functions: seq<FuncDecl>, p: Program): seq<L.Event>
    requires |p.functions| <= |functions|
  {
    EventsOf(main, p.main.body) + EventsOfFunctions(functions, p.functions)
  }

  function PointFunction(f: Function, gotos: JumpTargets, gosubs: JumpTargets): Function {
    f.(body := PointJumps(f.body, gotos, gosubs))
  }

  function PointEach(fs: seq<Function>, gotos: JumpTargets, gosubs: JumpTargets): (r: seq<Function>)
    ensures |r| == |fs| && forall i :: 0 <= i < |fs| ==> r[i] == PointFunction(fs[i], gotos, gosubs)
  {
    seq(|fs|, i requires 0 <= i < |fs| => PointFunction(fs[i], gotos, gosubs))
  }

  lemma PointedFunction(index: Index, b: AstBlock, result: Option<AstExpression>, f: Function,
                        all: seq<L.Event>, gotos: JumpTargets, gosubs: JumpTargets)
    requires Converted(index, b, result, f) && (forall e <- EventsOf(b, f.body) :: e in all)
    requires Numbered(all, 0) && Pointed(all, gotos, gosubs)
    ensures Converted(index, b, result, PointFunction(f, gotos, gosubs))
    ensures Resolved(b, PointFunction(f, gotos, gosubs).body, all)
  {
    hide Numbered, Pointed, TypedBlock, MirrorsBlock, UniqueLabels, VarsOf, Mirrors, Typed, Resolved, PointJumps;
    PointedIsResolved(index, b, f.body, None, all, gotos, gosubs);
    PointingKeepsTypes(f.body, {}, gotos, gosubs);
    PointingKeepsLabels(f.body, gotos, gosubs);
    PointingKeepsVars(f.body, gotos, gosubs);
  }

  lemma {:induction false} PointingFunctionsKeepsEvents(functions: seq<FuncDecl>, fs: seq<Function>, gotos: JumpTargets, gosubs: JumpTargets)
    requires |fs| <= |functions|
    ensures SameLabels(EventsOfFunctions(functions, fs), EventsOfFunctions(functions, PointEach(fs, gotos, gosubs)))
    decreases |fs|
  {
    if fs != [] {
      hide SameLabels, PointJumps;
      var n := |fs| - 1;
      var ps := PointEach(fs, gotos, gosubs);
      assert ps[..n] == PointEach(fs[..n], gotos, gosubs);
      PointingFunctionsKeepsEvents(functions, fs[..n], gotos, gosubs);
      PointingKeepsEvents(functions[n].body, fs[n].body, gotos, gosubs);
      SameLabelsConcat(EventsOfFunctions(functions, fs[..n]), EventsOf(functions[n].body, fs[n].body),
                       EventsOfFunctions(functions, ps[..n]), EventsOf(functions[n].body, ps[n].body));
    } else {
      assert PointEach(fs, gotos, gosubs) == [];
    }
  }

  lemma {:induction false} EventsOfOne(functions: seq<FuncDecl>, done: seq<Function>, i: nat)
    requires i < |done| <= |functions|
    ensures forall e <- EventsOf(functions[i].body, done[i].body) :: e in EventsOfFunctions(functions, done)
    decreases |done|
  {
    var n := |done| - 1;
    if i < n {
      EventsOfOne(functions, done[..n], i);
    }
  }

  // What the converter reports.

  datatype Problem =
    | NotConvertible(source: Type, target: Type)
    | Redeclared(name: string, annotation: Annotation)
    | ExitOutsideLoop
    | UnknownFunction(name: string)
    | WrongArgumentCount(name: string, count: nat)
    | UnknownCommand(name: string)
    | NoOverload(name: string, types: seq<Type>)
    | NoReturnType(name: string, command: CommandDecl)
    | NoType(expression: Expression)

  ghost predicate Justified(index: Index, p: Problem) {
    match p
    case NotConvertible(source, target) => !IsTypeConvertible(source, target)
    case UnknownFunction(name) => name !in index.functions
    case WrongArgumentCount(name, count) => name in index.functions && |index.functions[name]| != count
    case UnknownCommand(name) => index.commands(name) == []
    case NoOverload(name, types) => types != [] && forall c <- index.commands(name) :: !Applicable(c, types)
    case NoReturnType(name, c) => c in index.commands(name) && GetTypeFromCommandType(c.returnType).None?
    case NoType(e) => GetType(e).None?
    case _ => true
  }

  class AstConverter {
    const index: Index
    var returnExpressions: map<string, Expression>  // of the functions converted so far
    var variables: Scope
    var variableList: seq<Variable>
    var nextLoop: nat
    var nextNode: nat
    var met: seq<L.Event>
    var errorOccurred: bool
    var errors: seq<Problem>      // the messages printed
    var stopped: Option<Problem>  // why the compiler was ended on the spot

    constructor (known: Index)
      ensures Ongoing() && index == known && !errorOccurred && met == [] && returnExpressions == map[]
    {
      index := known;
      returnExpressions, variables, variableList, nextLoop, nextNode, met := map[], map[], [], 0, 0, [];
      errorOccurred, errors, stopped := false, [], None;
    }

    ghost predicate Valid()
      reads this
    {
      && nextNode == |met| && Numbered(met, 0)
      && (errorOccurred <==> errors != []) && (forall p <- errors :: Justified(index, p))
      && (stopped.Some? ==> Justified(index, stopped.value))
      && (forall v :: v in variableList <==> (v.name, v.annotation) in variables && variables[(v.name, v.annotation)] == v.typ)
    }

    ghost predicate Ongoing()
      reads this
    {
      Valid() && stopped.None?
    }

    ghost function Declared(): set<Variable>
      reads this
    {
      set v | v in variableList
    }

    /** What expressions leave alone, and the variables they declare. */
    twostate predicate OnlyExpressions()
      reads this
    {
      && (old(errorOccurred) ==> errorOccurred)
      && nextLoop == old(nextLoop) && nextNode == old(nextNode) && met == old(met)
      && returnExpressions == old(returnExpressions)
    }

    /** Variables without a declaration of their own. */
    twostate predicate Declares(vars: set<Variable>)
      reads this
    {
      Declared() == old(Declared()) + vars && Widens(old(variables), {}, variables)
    }

    /** What is known of names. */
    ghost function Known(): Context
      reads this
    {
      Context(index, TypesOfResults(returnExpressions), EnvOf(variables))
    }

    /** The expression converted has a type that `e` may have, the names mentioned have become
        variables, and an error occurs exactly for a fault. */
    twostate predicate Expresses(e: AstExpression, r: Option<Expression>)
      reads this
    {
      && (r.Some? ==> HasType(old(Known()), e, GetType(r.value)) && variables == ScopeWith(old(variables), Mentions(e)))
      && (!old(errorOccurred) ==> Decides(index, r.Some? && !errorOccurred, Faultless(old(Known()), e)))
    }

    /** The same for an expression that is to be of a given type. */
    twostate predicate ExpressesAs(e: AstExpression, target: Type, goesOn: bool)
      reads this
    {
      && (goesOn ==> variables == ScopeWith(old(variables), Mentions(e)))
      && (!old(errorOccurred) ==> Decides(index, goesOn && !errorOccurred, FaultlessAs(old(Known()), e, target)))
    }

    method SemanticError(p: Problem)
      requires Valid() && Justified(index, p)
      modifies `errorOccurred, `errors
      ensures Valid() && errorOccurred && errors == old(errors) + [p]
    {
      errorOccurred, errors := true, errors + [p];
    }

    method Stop(p: Problem)
      requires Valid() && Justified(index, p)
      modifies `stopped
      ensures Valid() && stopped == Some(p)
    {
      stopped := Some(p);
    }

    method Declare(v: Variable)
      requires Ongoing() && (v.name, v.annotation) !in variables
      modifies `variables, `variableList
      ensures Ongoing() && Declared() == old(Declared()) + {v} && variables == old(variables)[(v.name, v.annotation) := v.typ]
    {
      variables, variableList := variables[(v.name, v.annotation) := v.typ], variableList + [v];
    }

    /** A variable that is not known yet is declared with the type of its annotation. */
    method ResolveVariableRef(name: string, annotation: Annotation) returns (v: Variable)
      requires Ongoing()
      modifies `variables, `variableList
      ensures Ongoing() && (name, annotation) in variables && v == Variable(name, annotation, variables[(name, annotation)])
      ensures variables == if (name, annotation) in old(variables) then old(variables)
        else old(variables)[(name, annotation) := GetTypeFromAnnotation(annotation)]
      ensures Declared() == old(Declared()) + {v} && Widens(old(variables), {}, variables)
    {
      if (name, annotation) !in variables {
        Declare(Variable(name, annotation, GetTypeFromAnnotation(annotation)));
      }
      v := Variable(name, annotation, variables[(name, annotation)]);
      assert v in variableList;
    }

    /** None where the program is stopped: the expression has no type. */
    method EnsureType(e: Expression, target: Type) returns (r: Option<Expression>)
      requires Ongoing()
      modifies `errorOccurred, `errors, `stopped
      ensures Valid() && (old(errorOccurred) ==> errorOccurred)
      ensures (r.None? <==> stopped.Some?) && (r.None? <==> GetType(e).None?)
      ensures r.Some? && !errorOccurred ==> GetType(r.value) == Some(target)
      ensures r.Some? ==> (r.value == e || (r.value == Cast(e, target) && GetType(e) != Some(target))) && VarsIn(r.value) == VarsIn(e)
      ensures r.Some? && Typed(e) ==> Typed(r.value)
      ensures r.Some? && IsTypeConvertible(GetType(e).value, target) ==> errorOccurred == old(errorOccurred) && GetType(r.value) == Some(target)
      ensures r.Some? && !errorOccurred ==> IsTypeConvertible(GetType(e).value, target)
    {
      var t := GetType(e);
      if t.None? {
        Stop(NoType(e));
        return None;
      }
      if t.value == target {
        return Some(e);
      }
      if IsTypeConvertible(t.value, target) {
        return Some(Cast(e, target));
      }
      SemanticError(NotConvertible(t.value, target));
      r := Some(e);
    }

    method ConvertExpression(e: AstExpression) returns (r: Option<Expression>)
      requires Ongoing()
      modifies this
      ensures Valid() && OnlyExpressions() && (r.None? <==> stopped.Some?)
      ensures r.Some? ==> Mirrors(index, e, r.value) && Declares(VarsIn(r.value))
      ensures r.Some? && !errorOccurred ==> Typed(r.value)
      ensures Expresses(e, r)
      decreases e, 2
    {
      hide CallsCommand, Widens, Numbered, FaultlessCommand, FaultlessFunction, ReturnTypeOf, EnvOf, TypesOfResults;
      match e
      case AstUnary(op, operand) =>
        var inner := ConvertExpression(operand);
        if inner.None? {
          return None;
        }
        r := Some(Unary(op, inner.value));
      case AstBinary(_, _, _) =>
        r := ConvertBinary(e);
      case AstVarRef(name, annotation) =>
        r := ConvertVarRef(name, annotation);
      case AstLiteral(builtin, value) =>
        r := Some(Literal(builtin, value));
        NothingNew(variables);
        ScopeWithNone(variables);
        assert Declared() == old(Declared()) + {};
      case AstCommand(command, arguments) =>
        r := ConvertCommandCall(command, arguments);
      case AstFuncCall(function_, arguments) =>
        r := ConvertFunctionCall(function_, arguments);
    }

    method ConvertVarRef(name: string, annotation: Annotation) returns (r: Option<Expression>)
      requires Ongoing()
      modifies this
      ensures Ongoing() && OnlyExpressions() && errorOccurred == old(errorOccurred)
      ensures r.Some? && r.value.VarRef? && r.value.variable.name == name && r.value.variable.annotation == annotation
      ensures Declares(VarsIn(r.value)) && Expresses(AstVarRef(name, annotation), r)
    {
      hide Widens, Numbered, Justified, TypesOfResults;
      var v := ResolveVariableRef(name, annotation);
      assert variables == ScopeWith(old(variables), {(name, annotation)});
      r := Some(VarRef(v));
    }

    /** The operands get the type of the left one. */
    method ConvertBinary(e: AstExpression) returns (r: Option<Expression>)
      requires Ongoing() && e.AstBinary?
      modifies this
      ensures Valid() && OnlyExpressions() && (r.None? <==> stopped.Some?)
      ensures r.Some? ==> Mirrors(index, e, r.value) && Declares(VarsIn(r.value))
      ensures r.Some? && !errorOccurred ==> Typed(r.value)
      ensures Expresses(e, r)
      decreases e, 1
    {
      hide CallsCommand, Widens, Numbered, Valid, EnvOf, ScopeWith, HasType, Faultless, TiesReturnTheSame, TypesOfResults, Joins, Typed, GetType;
      var left, right := ConvertOperands(e);
      if right.None? {
        return None;
      }
      r := Join(e.bop, left.value, right.value);
      if r.Some? {
        OperationHasType(old(Known()), e, r.value);
        JoinMirrors(index, e, left.value, right.value, r.value);
      }
    }

    /** A binary operation on two operands, the right one cast to the type of the left one. */
    method Join(op: BinaryOp, left: Expression, right: Expression) returns (r: Option<Expression>)
      requires Ongoing()
      modifies `errorOccurred, `errors, `stopped
      ensures Valid() && (old(errorOccurred) ==> errorOccurred) && (r.None? <==> stopped.Some?)
      ensures r.Some? ==> JoinOf(op, left, right, r.value)
      ensures r.Some? && !errorOccurred && Typed(left) && Typed(right) ==> Typed(r.value)
      ensures !old(errorOccurred) ==> (r.Some? && !errorOccurred <==> Joins(GetType(left), GetType(right)))
    {
      hide GetType, VarsIn;
      if GetType(left).None? {
        Stop(NoType(left));
        return None;
      }
      var commonType := GetType(left).value;
      var first := EnsureType(left, commonType);
      var second := EnsureType(right, commonType);
      if second.None? {
        return None;
      }
      r := Some(Binary(op, first.value, second.value));
    }

    method ConvertOperands(e: AstExpression) returns (left: Option<Expression>, right: Option<Expression>)
      requires Ongoing() && e.AstBinary?
      modifies this
      ensures Valid() && OnlyExpressions() && (right.None? <==> stopped.Some?) && (right.Some? ==> left.Some?)
      ensures right.Some? ==> Mirrors(index, e.lhs, left.value) && Mirrors(index, e.rhs, right.value)
      ensures right.Some? ==> Declares(VarsIn(left.value) + VarsIn(right.value))
      ensures right.Some? && !errorOccurred ==> Typed(left.value) && Typed(right.value)
      ensures right.Some? ==> variables == ScopeWith(old(variables), Mentions(e))
      ensures right.Some? ==> HasType(old(Known()), e.lhs, GetType(left.value)) && HasType(old(Known()), e.rhs, GetType(right.value))
      ensures !old(errorOccurred) ==>
        Decides(index, right.Some? && !errorOccurred && Joins(GetType(left.value), GetType(right.value)), Faultless(old(Known()), e))
      decreases e, 0
    {
      hide CallsCommand, Widens, Numbered, Valid, EnvOf, ScopeWith, HasType, Mirrors, Typed, TiesReturnTheSame, TypesOfResults, Joins, Faultless;
      ghost var cx := Known();
      right := None;
      left := ConvertExpression(e.lhs);
      if left.None? {
        if Faultless(cx, e) { BinaryParts(cx, e); }
        return;
      }
      ghost var scope := variables;
      EnvStays(old(variables), Mentions(e.lhs));
      right := ConvertExpression(e.rhs);
      if right.None? {
        if Faultless(cx, e) { BinaryParts(cx, e); }
        return;
      }
      WidensFirst(old(variables), scope, {}, variables);
      ScopeWithTwice(old(variables), Mentions(e.lhs), Mentions(e.rhs));
      BinaryFaultless(cx, e, GetType(left.value), GetType(right.value));
    }

    /** The arguments in order, each converted. */
    method ConvertArguments(arguments: AstArguments) returns (r: Option<seq<Expression>>)
      requires Ongoing()
      modifies this
      ensures Valid() && OnlyExpressions() && (r.None? <==> stopped.Some?)
      ensures r.Some? ==> |r.value| == Length(arguments) && forall i :: 0 <= i < |r.value| ==>
        Drop(arguments, i).AstArgument? && Mirrors(index, Drop(arguments, i).first, r.value[i])
      ensures r.Some? ==> Declares(VarsInEach(r.value))
      ensures r.Some? && !errorOccurred ==> AllTyped(r.value)
      ensures r.Some? ==> variables == ScopeWith(old(variables), MentionsAll(arguments))
      ensures r.Some? ==> HasTypes(old(Known()), arguments, TypesOfEach(r.value))
      ensures !old(errorOccurred) ==> Decides(index, r.Some? && !errorOccurred, FaultlessAll(old(Known()), arguments))
      decreases arguments, 0
    {
      hide Typed, Mirrors, Drop, Numbered, Widens, Justified, EnvOf, ScopeWith, HasType, HasTypes, Faultless, TiesReturnTheSame, TypesSoFar, TypesOfEach, TypesOfResults, MentionsAll;
      ghost var cx, ok, whole := Known(), !errorOccurred, FaultlessAll(Known(), arguments);
      var args: seq<Expression> := [];
      var rest := arguments;
      DropNone(arguments);
      NothingNew(variables);
      NoTypesYet(cx, arguments);
      NoTypes();
      while rest.AstArgument?
        invariant rest == arguments || rest < arguments
        invariant Ongoing() && OnlyExpressions() && Declares(VarsInEach(args))
        invariant |args| <= Length(arguments) && rest == Drop(arguments, |args|)
        invariant forall i :: 0 <= i < |args| ==> Drop(arguments, i).AstArgument? && Mirrors(index, Drop(arguments, i).first, args[i])
        invariant !errorOccurred ==> AllTyped(args)
        invariant Known() == cx && ScopeWith(variables, MentionsAll(rest)) == ScopeWith(old(variables), MentionsAll(arguments))
        invariant TypesSoFar(cx, arguments, rest, TypesOfEach(args))
        invariant ok && whole ==> !errorOccurred && FaultlessAll(cx, rest)
        invariant TiesReturnTheSame(index) && !errorOccurred && FaultlessAll(cx, rest) ==> whole
        decreases rest
      {
        DropNext(arguments, |args|);
        ghost var scope := variables;
        var a := ConvertExpression(rest.first);
        if a.None? {
          return None;
        }
        assert (args + [a.value])[..|args|] == args;
        WidensFirst(old(variables), scope, {}, variables);
        MentionsOneMore(old(variables), scope, arguments, rest);
        EnvStays(scope, Mentions(rest.first));
        OneMoreType(cx, arguments, rest, TypesOfEach(args), GetType(a.value));
        TypesOfOneMore(args, a.value);
        args, rest := args + [a.value], rest.rest;
      }
      NoArgumentsLeft(cx);
      ScopeWithNone(variables);
      AllTypes(cx, arguments, TypesOfEach(args));
      r := Some(args);
    }

    /** Casts where the chosen overload wants another type. */
    method EnsureTypes(args: seq<Expression>, types: seq<Option<Type>>) returns (r: Option<seq<Expression>>)
      requires Ongoing() && |args| <= |types| && forall i :: 0 <= i < |args| ==> types[i].Some?
      modifies `errorOccurred, `errors, `stopped
      ensures Valid() && (old(errorOccurred) ==> errorOccurred) && (r.None? <==> stopped.Some?)
      ensures r.Some? ==> |r.value| == |args| && forall i :: 0 <= i < |args| ==>
        IsOrCasts(r.value[i], args[i])
      ensures r.Some? && !errorOccurred ==> forall i :: 0 <= i < |args| ==> GetType(r.value[i]) == types[i]
      ensures r.Some? && AllTyped(args) ==> AllTyped(r.value)
      ensures (forall i :: 0 <= i < |args| ==> Becomes(GetType(args[i]), types[i].value)) ==> r.Some? && errorOccurred == old(errorOccurred)
    {
      hide Typed;
      var done: seq<Expression> := [];
      for i := 0 to |args|
        invariant Ongoing() && |done| == i && (old(errorOccurred) ==> errorOccurred)
        invariant forall k :: 0 <= k < i ==> IsOrCasts(done[k], args[k])
        invariant !errorOccurred ==> forall k :: 0 <= k < i ==> GetType(done[k]) == types[k]
        invariant AllTyped(args) ==> AllTyped(done)
        invariant (forall k :: 0 <= k < i ==> Becomes(GetType(args[k]), types[k].value)) ==> errorOccurred == old(errorOccurred)
      {
        var a := EnsureType(args[i], types[i].value);
        if a.None? {
          return None;
        }
        done := done + [a.value];
      }
      r := Some(done);
    }

    /** None also where the command is unknown or no overload fits. The overload called is the one
        that the types of the arguments choose. */
    method ConvertCommandCall(name: string, arguments: AstArguments) returns (r: Option<Expression>)
      requires Ongoing()
      modifies this
      ensures Valid() && OnlyExpressions() && (r.None? <==> stopped.Some?)
      ensures r.Some? ==> r.value.Call? && MirrorsAll(index, arguments, r.value.arguments)
      ensures r.Some? ==> CallsCommand(index, name, r.value.callee, r.value.arguments, r.value.returnType)
      ensures r.Some? ==> Declares(VarsIn(r.value))
      ensures r.Some? && !errorOccurred ==> Typed(r.value)
      ensures Expresses(AstCommand(name, arguments), r)
      decreases arguments, 1
    {
      hide Typed, Mirrors, Drop, Numbered, ChosenFor, VarsInEach, VarsInAll, VarsIn, Widens, EnvOf, ScopeWith, HasType, HasTypes, Faultless, FaultlessAll, FaultlessCommand, Resolves, TiesReturnTheSame, TypesOfEach, TypesOfResults, Mentions, CallsCommand, MirrorsAll, ToArguments, ParamTypes, Justified;
      ghost var cx := Known();
      CommandParts(cx, name, arguments);
      var args := ConvertArguments(arguments);
      if args.None? {
        return None;
      }
      if index.commands(name) == [] {
        UnknownIsJustified(index, name);
        Stop(UnknownCommand(name));
        return None;
      }
      var types := TypesOf(args.value);
      TypesToResolve(cx, name, arguments, args.value, types);
      if types.None? {
        return None;
      }
      ghost var c: CommandDecl, cast: seq<Expression>;
      r, c, cast := CallOverload(name, args.value, types.value);
      if r.Some? {
        CommandMirrored(index, name, c, types.value, arguments, args.value, cast);
        CallAsStatement(r.value);
        CommandHasType(cx, name, arguments, c, types.value);
      }
    }

    /** A call of the overload that the types of the arguments choose. */
    method CallOverload(name: string, args: seq<Expression>, types: seq<Type>)
      returns (r: Option<Expression>, ghost c: CommandDecl, ghost cast: seq<Expression>)
      requires Ongoing() && index.commands(name) != [] && |types| == |args|
      requires forall i :: 0 <= i < |args| ==> GetType(args[i]) == Some(types[i])
      modifies `errorOccurred, `errors, `stopped
      ensures Valid() && (old(errorOccurred) ==> errorOccurred) && (r.None? <==> stopped.Some?)
      ensures r.Some? ==> ChosenFor(index.commands(name), c, types) && GetTypeFromCommandType(c.returnType).Some?
      ensures r.Some? ==> |cast| == |args| && forall i :: 0 <= i < |args| ==> IsOrCasts(cast[i], args[i])
      ensures r.Some? ==>
        var t := GetTypeFromCommandType(c.returnType).value; r.value == Call(CommandCallee(c, t), ToArguments(cast), t)
      ensures r.Some? && !errorOccurred && AllTyped(args) ==> Typed(r.value)
      ensures !old(errorOccurred) ==> Decides(index, r.Some? && !errorOccurred, Resolves(index.commands(name), types))
    {
      hide Typed, Numbered, ChosenFor, Resolves, TiesReturnTheSame, ToArguments, GetType, Applicable, AllTyped, IsOrCasts;
      var candidates := index.commands(name);
      c, cast := candidates[0], [];
      var command := ChooseOverload(candidates, types);
      if command.None? {
        Stop(NoOverload(name, types));
        r := None;
        NoneResolves(candidates, types);
        return;
      }
      var chosen := command.value;
      c := chosen;
      ChosenTells(index, name, c, types);
      if GetTypeFromCommandType(chosen.returnType).None? {
        ChosenIsKnown(candidates, c, types);
        Stop(NoReturnType(name, chosen));
        r := None;
        return;
      }
      ChosenFits(candidates, c, types);
      var converted := EnsureTypes(args, ParamTypes(chosen));
      if converted.None? {
        r := None;
        return;
      }
      cast := converted.value;
      var returnType := GetTypeFromCommandType(chosen.returnType).value;
      r := Some(Call(CommandCallee(chosen, returnType), ToArguments(converted.value), returnType));
      CallAsStatement(r.value);
      if !errorOccurred && AllTyped(args) {
        CommandTyped(c, cast, returnType);
      }
    }

    method TypesOf(args: seq<Expression>) returns (r: Option<seq<Type>>)
      requires Ongoing()
      modifies `stopped
      ensures Valid() && (r.None? <==> stopped.Some?)
      ensures r.Some? <==> forall i :: 0 <= i < |args| ==> GetType(args[i]).Some?
      ensures r.Some? ==> |r.value| == |args| && forall i :: 0 <= i < |args| ==> GetType(args[i]) == Some(r.value[i])
    {
      var types: seq<Type> := [];
      for i := 0 to |args|
        invariant Ongoing() && |types| == i && forall k :: 0 <= k < i ==> GetType(args[k]) == Some(types[k])
      {
        if GetType(args[i]).None? {
          Stop(NoType(args[i]));
          return None;
        }
        types := types + [GetType(args[i]).value];
      }
      r := Some(types);
    }

    /** The type of the call is that of the return expression, if it has been converted yet. */
    method ConvertFunctionCall(name: string, arguments: AstArguments) returns (r: Option<Expression>)
      requires Ongoing()
      modifies this
      ensures Valid() && OnlyExpressions() && (r.None? <==> stopped.Some?)
      ensures r.Some? ==> name in index.functions && |index.functions[name]| == Length(arguments)
      ensures r.Some? ==> r.value.Call? && CallsFunction(index, name, r.value.callee) && MirrorsAll(index, arguments, r.value.arguments)
      ensures r.Some? ==> Declares(VarsIn(r.value))
      ensures r.Some? && !errorOccurred ==> Typed(r.value)
      ensures Expresses(AstFuncCall(name, arguments), r)
      decreases arguments, 1
    {
      hide Typed, Mirrors, Drop, Numbered, VarsInEach, VarsInAll, Widens, EnvOf, ScopeWith, HasType, Faultless, FaultlessTo, TiesReturnTheSame, Mentions, MirrorsAll;
      ghost var cx := Known();
      FunctionParts(cx, name, arguments);
      if name !in index.functions {
        SemanticError(UnknownFunction(name));
        Stop(UnknownFunction(name));
        return None;
      }
      if |index.functions[name]| != Length(arguments) {
        SemanticError(WrongArgumentCount(name, Length(arguments)));
        Stop(WrongArgumentCount(name, Length(arguments)));
        return None;
      }
      var args := ConvertFunctionArguments(arguments, index.functions[name]);
      if args.None? {
        return None;
      }
      if !errorOccurred {
        ArgumentsTyped(args.value);
      }
      MirrorsToArguments(index, arguments, args.value);
      VarsOfArguments(args.value);
      var returnType := if name in returnExpressions then GetType(returnExpressions[name]) else Some(Void);
      if returnType.None? {
        Stop(NoType(returnExpressions[name]));
        return None;
      }
      r := Some(Call(FunctionCallee(index, name), ToArguments(args.value), returnType.value));
      if !errorOccurred {
        FunctionTyped(index, name, args.value, returnType.value);
      }
    }

    /** Each argument is converted, then cast to the type of its parameter. */
    method ConvertFunctionArguments(arguments: AstArguments, parameters: seq<Type>) returns (r: Option<seq<Expression>>)
      requires Ongoing() && |parameters| == Length(arguments)
      modifies this
      ensures Valid() && OnlyExpressions() && (r.None? <==> stopped.Some?)
      ensures r.Some? ==> |r.value| == Length(arguments) && MirrorsFirst(index, arguments, r.value)
      ensures r.Some? ==> Declares(VarsInEach(r.value))
      ensures r.Some? && !errorOccurred ==> AllTyped(r.value)
      ensures r.Some? && !errorOccurred ==> forall i :: 0 <= i < |parameters| ==> GetType(r.value[i]) == Some(parameters[i])
      ensures r.Some? ==> variables == ScopeWith(old(variables), MentionsAll(arguments))
      ensures !old(errorOccurred) ==> Decides(index, r.Some? && !errorOccurred, FaultlessTo(old(Known()), arguments, parameters))
      decreases arguments, 0
    {
      hide Typed, MirrorsUpToCast, MirrorsFirst, Drop, Numbered, VarsIn, VarsInEach, Widens, Justified, EnvOf, ScopeWith, FaultlessTo, FaultlessAs, TiesReturnTheSame, TypesOfResults, Mentions, MentionsAll;
      ghost var cx, ok, whole := Known(), !errorOccurred, FaultlessTo(Known(), arguments, parameters);
      var args: seq<Expression> := [];
      var rest := arguments;
      DropNone(arguments);
      NothingNew(variables);
      NoArgumentYet(index, arguments);
      assert parameters[0..] == parameters;
      while rest.AstArgument?
        invariant rest == arguments || rest < arguments
        invariant Ongoing() && OnlyExpressions() && Declares(VarsInEach(args))
        invariant |args| <= Length(arguments) && rest == Drop(arguments, |args|)
        invariant MirrorsFirst(index, arguments, args)
        invariant !errorOccurred ==> AllTyped(args) && forall i :: 0 <= i < |args| ==> GetType(args[i]) == Some(parameters[i])
        invariant Known() == cx && ScopeWith(variables, MentionsAll(rest)) == ScopeWith(old(variables), MentionsAll(arguments))
        invariant ok && whole ==> !errorOccurred && FaultlessTo(cx, rest, parameters[|args|..])
        invariant TiesReturnTheSame(index) && !errorOccurred && FaultlessTo(cx, rest, parameters[|args|..]) ==> whole
        decreases rest
      {
        DropNext(arguments, |args|);
        ToParts(cx, rest, parameters, |args|);
        ghost var scope := variables;
        var a := ConvertTo(rest.first, parameters[|args|]);
        if a.None? {
          return None;
        }
        VarsInOneMore(args, a.value);
        MirrorsOneMore(index, arguments, args, a.value);
        WidensFirst(old(variables), scope, {}, variables);
        MentionsOneMore(old(variables), scope, arguments, rest);
        EnvStays(scope, Mentions(rest.first));
        args, rest := args + [a.value], rest.rest;
      }
      NoArgumentsLeft(cx);
      NoneTo(cx, parameters[|args|..]);
      ScopeWithNone(variables);
      r := Some(args);
    }

    twostate predicate OnlyForward()
      reads this
    {
      (old(errorOccurred) ==> errorOccurred) && nextLoop >= old(nextLoop) && returnExpressions == old(returnExpressions)
    }

    /** The labels and jumps that were met, and the variables that were declared. */
    twostate predicate Did(events: seq<L.Event>, vars: set<Variable>, decls: set<Variable>)
      reads this
    {
      met == old(met) + events && Declared() == old(Declared()) + vars && Widens(old(variables), decls, variables)
    }

    /** The loops around a statement, the innermost of which is `currentLoop`. */
    ghost predicate Inside(currentLoop: Option<nat>, enclosing: set<nat>)
      reads this
    {
      (currentLoop.Some? ==> currentLoop.value in enclosing) && forall l <- enclosing :: l < nextLoop
    }

    /** `r` is `s` converted: well typed, what was written, and all that was met and declared. */
    twostate predicate Does(s: AstStatement, r: Statement, inner: Option<nat>, enclosing: set<nat>)
      reads this
    {
      TypedStatement(r, enclosing) && MirrorsStatement(index, s, r, inner) && Did(EventsIn(s, r), VarsOfStatement(r), DeclsIn(s))
    }

    /** The variables known behind the statement, and an error exactly for a fault. */
    twostate predicate Settles(s: AstStatement, inLoop: bool, goesOn: bool)
      reads this
    {
      && (goesOn && !errorOccurred ==> variables == ScopeAfter(old(variables), s))
      && (!old(errorOccurred) ==>
            Decides(index, goesOn && !errorOccurred,
                    FaultlessStatement(index, TypesOfResults(old(returnExpressions)), old(variables), inLoop, s)))
    }

    twostate predicate SettlesAll(b: AstBlock, inLoop: bool, goesOn: bool)
      reads this
    {
      && (goesOn && !errorOccurred ==> variables == ScopeBehind(old(variables), b))
      && (!old(errorOccurred) ==>
            Decides(index, goesOn && !errorOccurred,
                    FaultlessBlock(index, TypesOfResults(old(returnExpressions)), old(variables), inLoop, b)))
    }

    method ConvertStatement(s: AstStatement, currentLoop: Option<nat>, ghost enclosing: set<nat>) returns (r: Option<Statement>)
      requires Ongoing() && Inside(currentLoop, enclosing)
      modifies this
      ensures Valid() && OnlyForward() && (r.None? <==> stopped.Some?)
      ensures r.Some? && !errorOccurred ==> Does(s, r.value, currentLoop, enclosing)
      ensures Settles(s, currentLoop.Some?, r.Some?)
      decreases s, 2
    {
      hide TypedStatement, MirrorsStatement, EventsIn, VarsOfStatement, Numbered, Widens, Justified, ScopeAfter, FaultlessStatement, TypesOfResults;
      match s
      case AstVarDecl(_, _, _, _) => r := ConvertVarDecl(s, currentLoop, enclosing);
      case AstVarAssignment(_, _, _) => r := ConvertVarAssignment(s, currentLoop, enclosing);
      case AstConditional(_, _, _) => r := ConvertConditional(s, currentLoop, enclosing);
      case AstSubReturn => r := ConvertExit(s, currentLoop, enclosing);
      case AstFuncExit(_) => r := ConvertFuncExit(s, currentLoop, enclosing);
      case AstForLoop(_, _, _, _, _, _) => r := ConvertForLoop(s, currentLoop, enclosing);
      case AstWhileLoop(condition, body) => r := ConvertGuardedLoop(s, condition, body, currentLoop, enclosing);
      case AstUntilLoop(condition, body) => r := ConvertGuardedLoop(s, condition, body, currentLoop, enclosing);
      case AstInfiniteLoop(_) => r := ConvertInfiniteLoop(s, currentLoop, enclosing);
      case AstExit => r := ConvertExit(s, currentLoop, enclosing);
      case AstLabel(_) => r := ConvertJump(s, currentLoop, enclosing);
      case AstGoto(_) => r := ConvertJump(s, currentLoop, enclosing);
      case AstSubCall(_) => r := ConvertJump(s, currentLoop, enclosing);
      case AstFuncCallStmnt(_, _) => r := ConvertCall(s, currentLoop, enclosing);
      case AstCommandStmnt(_, _) => r := ConvertCall(s, currentLoop, enclosing);
    }

    method NewLoop() returns (loop: nat)
      requires Ongoing()
      modifies `nextLoop
      ensures Ongoing() && loop == old(nextLoop) && nextLoop == loop + 1
    {
      loop, nextLoop := nextLoop, nextLoop + 1;
    }

    /** A new label, goto or gosub node, in the order the converter meets them. */
    method Meet(e: L.Event) returns (node: nat)
      requires Ongoing() && NodeOf(e) == nextNode
      modifies `met, `nextNode
      ensures Ongoing() && node == old(nextNode) && nextNode == node + 1 && met == old(met) + [e]
    {
      node := nextNode;
      met, nextNode := met + [e], nextNode + 1;
    }

    /** Labels, gotos and gosubs. */
    method ConvertJump(s: AstStatement, ghost currentLoop: Option<nat>, ghost enclosing: set<nat>) returns (r: Option<Statement>)
      requires Ongoing() && (s.AstLabel? || s.AstGoto? || s.AstSubCall?)
      modifies this
      ensures Valid() && OnlyForward() && (r.None? <==> stopped.Some?)
      ensures r.Some? && !errorOccurred ==> Does(s, r.value, currentLoop, enclosing)
      ensures Settles(s, currentLoop.Some?, r.Some?)
    {
      hide Numbered, Justified;
      if s.AstLabel? {
        var node := Meet(L.LabelMet(s.name, nextNode));
        r := Some(Label(node));
      } else if s.AstGoto? {
        var node := Meet(L.JumpMet(L.Goto, s.name, nextNode));
        r := Some(Goto(node));
      } else {
        var node := Meet(L.JumpMet(L.Gosub, s.name, nextNode));
        r := Some(Gosub(node));
      }
    }

    /** An exit leaves the innermost loop; outside of all loops it is an error. */
    method ConvertExit(s: AstStatement, currentLoop: Option<nat>, ghost enclosing: set<nat>) returns (r: Option<Statement>)
      requires Ongoing() && Inside(currentLoop, enclosing) && (s.AstExit? || s.AstSubReturn?)
      modifies this
      ensures Valid() && OnlyForward() && (r.None? <==> stopped.Some?)
      ensures r.Some? && !errorOccurred ==> Does(s, r.value, currentLoop, enclosing)
      ensures Settles(s, currentLoop.Some?, r.Some?)
      {
      hide Numbered;
      assert met == old(met) + [];
      if s.AstSubReturn? {
        return Some(SubReturn);
      }
      if currentLoop.None? {
        SemanticError(ExitOutsideLoop);
        return Some(Missing);
      }
      r := Some(Exit(currentLoop.value));
    }

    method ConvertCall(s: AstStatement, ghost currentLoop: Option<nat>, ghost enclosing: set<nat>) returns (r: Option<Statement>)
      requires Ongoing() && (s.AstFuncCallStmnt? || s.AstCommandStmnt?)
      modifies this
      ensures Valid() && OnlyForward() && (r.None? <==> stopped.Some?)
      ensures r.Some? && !errorOccurred ==> Does(s, r.value, currentLoop, enclosing)
      ensures Settles(s, currentLoop.Some?, r.Some?)
      decreases s, 1
    {
      hide Typed, TypedCall, MirrorsAll, CallsCommand, CallsFunction, Numbered, VarsIn, VarsInAll, Length, Widens, Justified, Valid, HasType, Faultless, FaultlessCommand, FaultlessFunction, ScopeWith, EnvOf, TypesOfResults, TiesReturnTheSame, GetType, ReturnTypeOf, Mentions, MentionsAll;
      var call: Option<Expression>;
      ghost var cx := Known();
      if s.AstFuncCallStmnt? {
        FunctionParts(cx, s.name, s.arguments);
        call := ConvertFunctionCall(s.name, s.arguments);
      } else {
        CommandParts(cx, s.name, s.arguments);
        call := ConvertCommandCall(s.name, s.arguments);
      }
      if call.None? {
        return None;
      }
      r := Some(FunctionCall(call.value.callee, call.value.arguments, call.value.returnType));
      CallAsStatement(call.value);
      assert met == old(met) + [];
    }

    method ConvertFuncExit(s: AstStatement, ghost currentLoop: Option<nat>, ghost enclosing: set<nat>) returns (r: Option<Statement>)
      requires Ongoing() && s.AstFuncExit?
      modifies this
      ensures Valid() && OnlyForward() && (r.None? <==> stopped.Some?)
      ensures r.Some? && !errorOccurred ==> Does(s, r.value, currentLoop, enclosing)
      ensures Settles(s, currentLoop.Some?, r.Some?)
      decreases s, 1
    {
      hide Typed, Mirrors, Numbered, VarsIn, Widens, Justified;
      var e := ConvertExpression(s.returnValue);
      if e.None? {
        return None;
      }
      r := Some(ExitFunction(e.value));
      assert met == old(met) + [];
    }

    method ConvertInfiniteLoop(s: AstStatement, ghost currentLoop: Option<nat>, ghost enclosing: set<nat>) returns (r: Option<Statement>)
      requires Ongoing() && Inside(None, enclosing) && s.AstInfiniteLoop?
      modifies this
      ensures Valid() && OnlyForward() && (r.None? <==> stopped.Some?)
      ensures r.Some? && !errorOccurred ==> Does(s, r.value, currentLoop, enclosing)
      ensures Settles(s, currentLoop.Some?, r.Some?)
      decreases s, 1
    {
      hide TypedBlock, MirrorsBlock, VarsOf, EventsOf, Numbered, Widens, Justified, Valid, FaultlessBlock, ScopeBehind, TypesOfResults;
      var loop := NewLoop();
      var b := ConvertBlock(s.body, Some(loop), enclosing + {loop});
      if b.None? {
        return None;
      }
      r := Some(InfiniteLoop(loop, b.value));
    }

    method ConvertVarDecl(s: AstStatement, ghost currentLoop: Option<nat>, ghost enclosing: set<nat>) returns (r: Option<Statement>)
      requires Ongoing() && s.AstVarDecl?
      modifies this
      ensures Valid() && OnlyForward() && (r.None? <==> stopped.Some?)
      ensures r.Some? && !errorOccurred ==> Does(s, r.value, currentLoop, enclosing)
      ensures Settles(s, currentLoop.Some?, r.Some?)
      decreases s, 1
    {
      hide Typed, MirrorsUpToCast, Numbered, VarsIn, EnvOf, ScopeWith, FaultlessAs, TypesOfResults, Mentions, TiesReturnTheSame, Widens;
      if (s.name, s.annotation) in variables {
        SemanticError(Redeclared(s.name, s.annotation));
        return Some(Missing);
      }
      var v := Variable(s.name, s.annotation, Builtin(s.builtin));
      Declare(v);
      WidensBy(old(variables), v);
      ghost var scope := variables;
      r := ConvertAssignment(v, s.initializer);
      if r.Some? {
        WidensTwice(old(variables), {v}, scope, {}, variables);
        assert {v} + {} == {v};
      }
    }

    method ConvertVarAssignment(s: AstStatement, ghost currentLoop: Option<nat>, ghost enclosing: set<nat>) returns (r: Option<Statement>)
      requires Ongoing() && s.AstVarAssignment?
      modifies this
      ensures Valid() && OnlyForward() && (r.None? <==> stopped.Some?)
      ensures r.Some? && !errorOccurred ==> Does(s, r.value, currentLoop, enclosing)
      ensures Settles(s, currentLoop.Some?, r.Some?)
      decreases s, 1
    {
      hide Typed, MirrorsUpToCast, Numbered, VarsIn, Widens, Justified, FaultlessAs, TypesOfResults, Mentions, ScopeWith, EnvOf, TiesReturnTheSame;
      var v := ResolveVariableRef(s.name, s.annotation);
      ghost var scope := variables;
      ResolvedScope(old(variables), s.name, s.annotation, scope);
      r := ConvertAssignment(v, s.expression);
      if r.Some? {
        WidensFirst(old(variables), scope, {}, variables);
        ScopeWithTwice(old(variables), {(s.name, s.annotation)}, Mentions(s.expression));
      }
    }

    method ConvertAssignment(v: Variable, expression: AstExpression) returns (r: Option<Statement>)
      requires Ongoing()
      modifies this
      ensures Valid() && OnlyExpressions() && (r.None? <==> stopped.Some?)
      ensures r.Some? ==> r.value.Assignment? && r.value.variable == v && MirrorsUpToCast(index, expression, r.value.expression)
      ensures r.Some? ==> met == old(met) + [] && Declares(VarsIn(r.value.expression))
      ensures r.Some? && !errorOccurred ==> Typed(r.value.expression) && GetType(r.value.expression) == Some(v.typ)
      ensures ExpressesAs(expression, v.typ, r.Some?)
    {
      hide Typed, Mirrors, Numbered, Widens, Justified, EnvOf, ScopeWith, Mentions, FaultlessAs, TypesOfResults;
      var e := ConvertTo(expression, v.typ);
      if e.None? {
        return None;
      }
      r := Some(Assignment(v, e.value));
    }

    /** An expression of the given type. */
    method ConvertTo(expression: AstExpression, target: Type) returns (r: Option<Expression>)
      requires Ongoing()
      modifies this
      ensures Valid() && OnlyExpressions() && (r.None? <==> stopped.Some?)
      ensures r.Some? ==> MirrorsUpToCast(index, expression, r.value) && Declares(VarsIn(r.value))
      ensures r.Some? && !errorOccurred ==> Typed(r.value) && GetType(r.value) == Some(target)
      ensures ExpressesAs(expression, target, r.Some?)
      decreases expression, 3
    {
      hide Typed, Mirrors, Numbered, VarsIn, Widens, Justified, EnvOf, ScopeWith, HasType, Faultless, TiesReturnTheSame, TypesOfResults, Mentions, IsTypeConvertible;
      ghost var cx := Known();
      r := ConvertExpression(expression);
      if r.Some? {
        AsFaultless(cx, expression, GetType(r.value), target);
        r := EnsureType(r.value, target);
      }
    }

    method ConvertConditional(s: AstStatement, currentLoop: Option<nat>, ghost enclosing: set<nat>) returns (r: Option<Statement>)
      requires Ongoing() && Inside(currentLoop, enclosing) && s.AstConditional?
      modifies this
      ensures Valid() && OnlyForward() && (r.None? <==> stopped.Some?)
      ensures r.Some? && !errorOccurred ==> Does(s, r.value, currentLoop, enclosing)
      ensures Settles(s, currentLoop.Some?, r.Some?)
      decreases s, 1
    {
      hide Typed, TypedBlock, MirrorsUpToCast, MirrorsBlock, VarsIn, VarsOf, EventsOf, Numbered, Widens, Justified, TypedStatement, MirrorsStatement, EventsIn, VarsOfStatement, DeclsIn, Valid, FaultlessAs, FaultlessBlock, FaultlessStatement, ScopeBehind, ScopeAfter, ScopeWith, EnvOf, Mentions, TypesOfResults, TiesReturnTheSame, GetType;
      ghost var first, second, third := ConditionalParts(index, TypesOfResults(returnExpressions), variables, currentLoop.Some?, s);
      var c := ConvertTo(s.condition, Builtin(Boolean));
      if c.None? {
        return None;
      }
      ghost var scope := variables;
      var t := ConvertBlock(s.trueBranch, currentLoop, enclosing);
      if t.None? {
        return None;
      }
      ghost var middle := variables;
      var f := ConvertBlock(s.falseBranch, currentLoop, enclosing);
      if f.None? {
        return None;
      }
      r := Some(Conditional(c.value, t.value, f.value));
      if !errorOccurred {
        WidensTwice(scope, DeclsOf(s.trueBranch), middle, DeclsOf(s.falseBranch), variables);
        ConditionalConverted(index, s, r.value, currentLoop, enclosing);
        WidensFirst(old(variables), scope, DeclsIn(s), variables);
      }
    }

    /** Two expressions of the given type. */
    method ConvertBoth(one: AstExpression, two: AstExpression, target: Type) returns (r: Option<(Expression, Expression)>)
      requires Ongoing()
      modifies this
      ensures Valid() && OnlyExpressions() && (r.None? <==> stopped.Some?)
      ensures r.Some? ==> Declares(VarsIn(r.value.0) + VarsIn(r.value.1))
      ensures r.Some? ==> MirrorsUpToCast(index, one, r.value.0) && MirrorsUpToCast(index, two, r.value.1)
      ensures r.Some? && !errorOccurred ==> Typed(r.value.0) && Typed(r.value.1)
      ensures r.Some? && !errorOccurred ==> GetType(r.value.0) == GetType(r.value.1) == Some(target)
      ensures r.Some? ==> variables == ScopeWith(old(variables), Mentions(one) + Mentions(two))
      ensures !old(errorOccurred) ==> Decides(index, r.Some? && !errorOccurred,
        FaultlessAs(old(Known()), one, target) && FaultlessAs(old(Known()), two, target))
    {
      hide Typed, MirrorsUpToCast, VarsIn, Numbered, Widens, Justified, Valid, FaultlessAs, ScopeWith, EnvOf, Mentions, TypesOfResults, TiesReturnTheSame, GetType;
      ghost var cx := Known();
      var first := ConvertTo(one, target);
      if first.None? {
        return None;
      }
      ghost var scope := variables;
      EnvStays(old(variables), Mentions(one));
      assert Known() == cx;
      var second := ConvertTo(two, target);
      if second.None? {
        return None;
      }
      WidensFirst(old(variables), scope, {}, variables);
      ScopeWithTwice(old(variables), Mentions(one), Mentions(two));
      r := Some((first.value, second.value));
    }

    /** Start, end and step of a for loop, each with the type of the counter. */
    method ConvertRange(init: AstExpression, end: AstExpression, step: AstExpression, target: Type)
      returns (r: Option<(Expression, Expression, Expression)>)
      requires Ongoing()
      modifies this
      ensures Valid() && OnlyExpressions() && (r.None? <==> stopped.Some?)
      ensures r.Some? ==> Declares(VarsIn(r.value.0) + VarsIn(r.value.1) + VarsIn(r.value.2))
      ensures r.Some? ==> MirrorsUpToCast(index, init, r.value.0) && MirrorsUpToCast(index, end, r.value.1)
      ensures r.Some? ==> MirrorsUpToCast(index, step, r.value.2)
      ensures r.Some? && !errorOccurred ==> Typed(r.value.0) && Typed(r.value.1) && Typed(r.value.2)
      ensures r.Some? && !errorOccurred ==> GetType(r.value.0) == GetType(r.value.1) == GetType(r.value.2) == Some(target)
      ensures r.Some? ==> variables == ScopeWith(old(variables), Mentions(init) + Mentions(end) + Mentions(step))
      ensures !old(errorOccurred) ==> Decides(index, r.Some? && !errorOccurred,
        FaultlessAs(old(Known()), init, target) && FaultlessAs(old(Known()), end, target) && FaultlessAs(old(Known()), step, target))
    {
      hide Typed, MirrorsUpToCast, VarsIn, Numbered, Widens, Justified, Valid, FaultlessAs, ScopeWith, EnvOf, Mentions, TypesOfResults, TiesReturnTheSame, GetType;
      ghost var cx := Known();
      var both := ConvertBoth(init, end, target);
      if both.None? {
        return None;
      }
      ghost var scope := variables;
      EnvStays(old(variables), Mentions(init) + Mentions(end));
      assert Known() == cx;
      var stride := ConvertTo(step, target);
      if stride.None? {
        return None;
      }
      WidensFirst(old(variables), scope, {}, variables);
      ScopeWithTwice(old(variables), Mentions(init) + Mentions(end), Mentions(step));
      r := Some((both.value.0, both.value.1, stride.value));
    }

    method ConvertForLoop(s: AstStatement, ghost currentLoop: Option<nat>, ghost enclosing: set<nat>) returns (r: Option<Statement>)
      requires Ongoing() && Inside(None, enclosing) && s.AstForLoop?
      modifies this
      ensures Valid() && OnlyForward() && (r.None? <==> stopped.Some?)
      ensures r.Some? && !errorOccurred ==> Does(s, r.value, currentLoop, enclosing)
      ensures Settles(s, currentLoop.Some?, r.Some?)
      decreases s, 1
    {
      hide Typed, TypedBlock, MirrorsUpToCast, MirrorsBlock, VarsIn, VarsOf, EventsOf, Numbered, Widens, Justified, TypedStatement, MirrorsStatement, EventsIn, VarsOfStatement, DeclsIn, Valid, FaultlessAs, FaultlessBlock, FaultlessStatement, ScopeBehind, ScopeAfter, ScopeWith, EnvOf, Mentions, TypesOfResults, TiesReturnTheSame, GetType;
      ghost var header, inside := ForLoopParts(index, TypesOfResults(returnExpressions), variables, currentLoop.Some?, s);
      var v := ResolveVariableRef(s.name, s.annotation);
      ghost var scope := variables;
      ResolvedScope(old(variables), s.name, s.annotation, scope);
      var range := ConvertRange(s.init, s.end, StepOf(s.step), v.typ);
      if range.None? {
        return None;
      }
      var (init, end, step) := range.value;
      WidensFirst(old(variables), scope, {}, variables);
      ScopeWithTwice(old(variables), {(s.name, s.annotation)}, Mentions(s.init) + Mentions(s.end) + Mentions(StepOf(s.step)));
      scope := variables;
      assert Declared() == old(Declared()) + ({v} + (VarsIn(init) + VarsIn(end) + VarsIn(step)));
      var loop := NewLoop();
      var b := ConvertBlock(s.body, Some(loop), enclosing + {loop});
      if b.None? {
        return None;
      }
      r := Some(ForLoop(loop, v, init, end, step, b.value));
      if !errorOccurred {
        WidensFirst(old(variables), scope, DeclsOf(s.body), variables);
        ForLoopConverted(index, s, r.value, currentLoop, enclosing);
      }
    }

    /** While and until loops are converted, but the generator has no code for them. */
    method ConvertGuardedLoop(s: AstStatement, condition: AstExpression, body: AstBlock, ghost currentLoop: Option<nat>,
                              ghost enclosing: set<nat>)
      returns (r: Option<Statement>)
      requires Ongoing() && Inside(None, enclosing) && (s == AstWhileLoop(condition, body) || s == AstUntilLoop(condition, body))
      modifies this
      ensures Valid() && OnlyForward() && (r.None? <==> stopped.Some?)
      ensures r.Some? && !errorOccurred ==> Does(s, r.value, currentLoop, enclosing)
      ensures Settles(s, currentLoop.Some?, r.Some?)
      decreases s, 1
    {
      hide Typed, TypedBlock, Mirrors, MirrorsBlock, VarsIn, VarsOf, EventsOf, Numbered, Widens, Justified, Valid, Faultless, FaultlessBlock, FaultlessStatement, ScopeBehind, ScopeAfter, ScopeWith, EnvOf, Mentions, TypesOfResults, TiesReturnTheSame, GetType, HasType;
      ghost var header, inside := GuardedParts(index, TypesOfResults(returnExpressions), variables, currentLoop.Some?, s, condition, body);
      var c := ConvertExpression(condition);
      if c.None? {
        return None;
      }
      ghost var scope := variables;
      var loop := NewLoop();
      var b := ConvertBlock(body, Some(loop), enclosing + {loop});
      if b.None? {
        return None;
      }
      if !errorOccurred {
        WidensFirst(old(variables), scope, DeclsOf(body), variables);
      }
      r := Some(GuardedLoop(loop, s.AstUntilLoop?, c.value, b.value));
    }

    method ConvertBlock(b: AstBlock, currentLoop: Option<nat>, ghost enclosing: set<nat>) returns (r: Option<Block>)
      requires Ongoing() && Inside(currentLoop, enclosing)
      modifies this
      ensures Valid() && OnlyForward() && (r.None? <==> stopped.Some?)
      ensures r.Some? && !errorOccurred ==> TypedBlock(r.value, enclosing) && MirrorsBlock(index, b, r.value, currentLoop)
      ensures r.Some? && !errorOccurred ==> Did(EventsOf(b, r.value), VarsOf(r.value), DeclsOf(b))
      ensures SettlesAll(b, currentLoop.Some?, r.Some?)
      decreases b, 1
    {
      hide TypedStatement, MirrorsStatement, EventsIn, VarsOfStatement, Numbered, Append, Widens, Justified, FaultlessBlock, FaultlessStatement, ScopeBehind, ScopeAfter, TypesOfResults, TiesReturnTheSame, Valid, EventsOf, VarsOf, DeclsOf, DeclsIn, TypedBlock, MirrorsUntil;
      var done := End;
      var rest := b;
      ghost var declared: set<Variable> := {};
      ghost var ok, results, loops := !errorOccurred, TypesOfResults(returnExpressions), currentLoop.Some?;
      ghost var whole := FaultlessBlock(index, results, variables, loops, b);
      NothingNew(variables);
      NothingDone(index, b, currentLoop, enclosing);
      assert met == old(met) + [];
      while rest.AstThen?
        invariant rest == b || rest < b
        invariant Ongoing() && OnlyForward() && Inside(currentLoop, enclosing)
        invariant !errorOccurred ==> TypedBlock(done, enclosing) && MirrorsUntil(index, b, done, rest, currentLoop)
        invariant !errorOccurred ==> Did(EventsOf(b, done), VarsOf(done), declared) && declared + DeclsOf(rest) == DeclsOf(b)
        invariant !errorOccurred ==> ScopeBehind(variables, rest) == ScopeBehind(old(variables), b)
        invariant ok && whole ==> !errorOccurred && FaultlessBlock(index, results, variables, loops, rest)
        invariant TiesReturnTheSame(index) && !errorOccurred && FaultlessBlock(index, results, variables, loops, rest) ==> whole
        decreases rest
      {
        ghost var scope := variables;
        BlockParts(index, results, scope, loops, rest);
        DeclsOfHead(rest);
        var s := ConvertStatement(rest.head, currentLoop, enclosing);
        if s.None? {
          return None;
        }
        if !errorOccurred {
          WidensTwice(old(variables), declared, scope, DeclsIn(rest.head), variables);
          declared := declared + DeclsIn(rest.head);
          OneMoreStatement(index, b, done, rest, s.value, currentLoop, enclosing);
          assert met == old(met) + EventsOf(b, Append(done, s.value));
        }
        done, rest := Append(done, s.value), rest.tail;
      }
      if !errorOccurred {
        MirrorsToBlock(index, b, done, currentLoop);
      }
      NoBlock(index, results, variables, loops);
      NoDecls();
      r := Some(done);
    }

    /** A function, with a variable scope of its own. */
    method ConvertFunction(b: AstBlock, returnValue: Option<AstExpression>) returns (r: Option<Function>)
      requires Ongoing()
      modifies this
      ensures Valid() && OnlyForward() && (r.None? <==> stopped.Some?)
      ensures r.Some? && !errorOccurred ==> Converted(index, b, returnValue, r.value)
      ensures r.Some? && !errorOccurred ==> met == old(met) + EventsOf(b, r.value.body)
      ensures r.Some? && !errorOccurred && returnValue.Some? ==>
        HasType(BehindBody(index, TypesOfResults(returnExpressions), b), returnValue.value, GetType(r.value.result.value))
      ensures !old(errorOccurred) ==>
        Decides(index, r.Some? && !errorOccurred, FaultlessBody(index, TypesOfResults(returnExpressions), b, returnValue))
    {
      hide Typed, TypedBlock, Mirrors, MirrorsBlock, VarsIn, VarsOf, EventsOf, UniqueLabels, Numbered, Widens, Justified, HasType, Faultless, FaultlessBlock, ScopeBehind, ScopeWith, EnvOf, Mentions, TypesOfResults, TiesReturnTheSame, GetType;
      variables, variableList := map[], [];
      assert Declared() == {};
      NothingNew(variables);
      var body := ConvertBlock(b, None, {});
      if body.None? {
        return None;
      }
      ghost var scope := variables;
      var result: Option<Expression> := None;
      if returnValue.Some? {
        result := ConvertExpression(returnValue.value);
        if result.None? {
          return None;
        }
      }
      r := Some(Function(variableList, body.value, result));
      if !errorOccurred {
        NumberedConcat(old(met), EventsOf(b, body.value), 0);
        NumberedLabels(index, b, body.value, None, |old(met)|);
        WidensTwice(map[], DeclsOf(b), scope, {}, variables);
        ScopeIsProper(variableList, DeclsOf(b), variables);
        assert forall v :: v in variableList <==> v in Declared();
      }
    }

    method SetReturnExpression(name: string, e: Expression)
      requires Ongoing()
      modifies `returnExpressions
      ensures Ongoing() && returnExpressions == old(returnExpressions)[name := e]
    {
      returnExpressions := returnExpressions[name := e];
    }

    /** Main and then each function. None if the program was stopped or an error occurred. */
    method ConvertProgram(main: AstBlock, functions: seq<FuncDecl>) returns (r: Option<Program>)
      requires Ongoing() && !errorOccurred && met == [] && returnExpressions == map[]
      modifies this
      ensures Valid() && (r.None? <==> errorOccurred || stopped.Some?)
      ensures r.Some? ==> |r.value.functions| == |functions| && Converted(index, main, None, r.value.main)
      ensures r.Some? ==> forall i :: 0 <= i < |functions| ==>
        Converted(index, functions[i].body, functions[i].returnValue, r.value.functions[i])
      ensures r.Some? ==> met == AllEvents(main, functions, r.value)
      ensures Decides(index, r.Some?, FaultlessProgram(index, main, functions))
    {
      hide Converted, EventsOf, Numbered, FaultlessFrom, FaultlessBody, HasType, TiesReturnTheSame, BehindBody, Valid, GetType, TypesOfResults;
      ghost var whole := FaultlessProgram(index, main, functions);
      NoResultsYet();
      var m := ConvertFunction(main, None);
      if m.None? {
        return None;
      }
      if !errorOccurred {
        assert met == [] + EventsOf(main, m.value.body);
      }
      var done: seq<Function> := [];
      assert functions[0..] == functions;
      while |done| < |functions|
        invariant |done| <= |functions| && Ongoing()
        invariant whole ==> !errorOccurred && FaultlessFrom(index, TypesOfResults(returnExpressions), functions[|done|..])
        invariant TiesReturnTheSame(index) && !errorOccurred && FaultlessFrom(index, TypesOfResults(returnExpressions), functions[|done|..]) ==> whole
        invariant !errorOccurred ==> Converted(index, main, None, m.value)
        invariant !errorOccurred ==> forall k :: 0 <= k < |done| ==>
          Converted(index, functions[k].body, functions[k].returnValue, done[k])
        invariant !errorOccurred ==> met == AllEvents(main, functions, Program(m.value, done))
      {
        var declared := functions[|done|];
        ghost var results := TypesOfResults(returnExpressions);
        assert functions[|done|..][0] == declared && functions[|done|..][1..] == functions[|done| + 1..];
        FirstIsFaultless(index, results, functions[|done|..]);
        var f := ConvertFunction(declared.body, declared.returnValue);
        if f.None? {
          return None;
        }
        if !errorOccurred {
          ConvertedResult(index, declared.body, declared.returnValue, f.value);
          ResultsOfOneMore(returnExpressions, declared.name, f.value.result);
          FromParts(index, results, functions[|done|..], if f.value.result.Some? then GetType(f.value.result.value) else None);
        }
        if f.value.result.Some? {
          SetReturnExpression(declared.name, f.value.result.value);
        }
        assert (done + [f.value])[..|done|] == done;
        done := done + [f.value];
      }
      if errorOccurred {
        return None;
      }
      assert functions[|done|..] == [];
      NoneFrom(index, TypesOfResults(returnExpressions));
      r := Some(Program(m.value, done));
    }

    /** The program with all jumps pointed to their labels. Every function is well typed and what
        was written, and each jump leads to the first label of its name, in the order of main and
        then the functions, or to none if there is none. */
    method GenerateProgram(main: AstBlock, functions: seq<FuncDecl>) returns (r: Option<Program>)
      requires Ongoing() && !errorOccurred && met == [] && returnExpressions == map[]
      modifies this
      ensures Valid() && (r.None? <==> errorOccurred || stopped.Some?)
      ensures r.Some? ==> |r.value.functions| == |functions| && Converted(index, main, None, r.value.main)
      ensures r.Some? ==> forall i :: 0 <= i < |functions| ==>
        Converted(index, functions[i].body, functions[i].returnValue, r.value.functions[i])
      ensures r.Some? ==> var all := AllEvents(main, functions, r.value);
        && Resolved(main, r.value.main.body, all)
        && forall i :: 0 <= i < |functions| ==> Resolved(functions[i].body, r.value.functions[i].body, all)
      ensures Decides(index, r.Some?, FaultlessProgram(index, main, functions))
    {
      hide Converted, EventsOf, Numbered, Resolved, SameLabels, PointFunction, FaultlessProgram, TiesReturnTheSame;
      var converted := ConvertProgram(main, functions);
      if converted.None? {
        return None;
      }
      var p := converted.value;
      var table := new L.JumpTable();
      NumberedIsDistinct(met);
      table.ConvertAll(met);
      var gotos, gosubs := table.gotoTargets, table.gosubTargets;
      r := Some(Program(PointFunction(p.main, gotos, gosubs), PointEach(p.functions, gotos, gosubs)));
      ProgramPointed(index, main, functions, p, gotos, gosubs);
    }
  }

  /** A chosen overload that the arguments fit: as many parameters as arguments, unless there are none. */
  lemma ChosenFits(candidates: seq<CommandDecl>, c: CommandDecl, types: seq<Type>)
    requires ChosenFor(candidates, c, types)
    ensures |types| <= |c.params| && (types != [] ==> |types| == |c.params|)
    ensures forall i :: 0 <= i < |types| ==> ParamTypes(c)[i].Some? && Becomes(Some(types[i]), ParamTypes(c)[i].value)
  {
  }

  lemma UnknownIsJustified(index: Index, name: string)
    requires index.commands(name) == []
    ensures Justified(index, UnknownCommand(name))
  {
  }

  lemma ChosenIsKnown(candidates: seq<CommandDecl>, c: CommandDecl, types: seq<Type>)
    requires ChosenFor(candidates, c, types)
    ensures c in candidates
  {
  }

  lemma NoneResolves(candidates: seq<CommandDecl>, types: seq<Type>)
    requires types != [] && forall c <- candidates :: !Applicable(c, types)
    ensures !Resolves(candidates, types)
  {
  }

  /** What the types of the arguments leave to be resolved. */
  lemma TypesToResolve(cx: Context, name: string, arguments: AstArguments, args: seq<Expression>, types: Option<seq<Type>>)
    requires HasTypes(cx, arguments, TypesOfEach(args)) && cx.index.commands(name) != []
    requires types.None? ==> exists i :: 0 <= i < |args| && GetType(args[i]).None?
    requires types.Some? ==> |types.value| == |args| && forall i :: 0 <= i < |args| ==> GetType(args[i]) == Some(types.value[i])
    ensures types.None? ==> !FaultlessCommand(cx, name, arguments)
    ensures types.Some? ==> SomeTypes(types.value) == TypesOfEach(args)
    ensures types.Some? && FaultlessCommand(cx, name, arguments) ==> Resolves(cx.index.commands(name), types.value)
    ensures types.Some? && TiesReturnTheSame(cx.index) && FaultlessAll(cx, arguments) && Resolves(cx.index.commands(name), types.value)
      ==> FaultlessCommand(cx, name, arguments)
  {
    hide HasTypes, FaultlessAll, FaultlessCommand, Resolves, TiesReturnTheSame;
    var ts := TypesOfEach(args);
    match types
    case None =>
      CommandFaultless(cx, name, arguments, ts, []);
      var i :| 0 <= i < |args| && GetType(args[i]).None?;
      assert ts[i] in ts;
    case Some(known) =>
      assert SomeTypes(known) == ts;
      CommandFaultless(cx, name, arguments, ts, known);
  }

  lemma NothingNew(scope: Scope)
    ensures Widens(scope, {}, scope)
  {
  }

  lemma WidensBy(scope: Scope, v: Variable)
    requires (v.name, v.annotation) !in scope
    ensures Widens(scope, {v}, scope[(v.name, v.annotation) := v.typ])
  {
  }

  lemma ResolvedScope(before: Scope, name: string, annotation: Annotation, scope: Scope)
    requires scope == if (name, annotation) in before then before else before[(name, annotation) := GetTypeFromAnnotation(annotation)]
    ensures scope == ScopeWith(before, {(name, annotation)}) && EnvOf(scope) == EnvOf(before)
    ensures (name, annotation) in EnvOf(scope) && EnvOf(scope)[(name, annotation)] == scope[(name, annotation)]
  {
    assert scope == ScopeWith(before, {(name, annotation)});
    EnvStays(before, {(name, annotation)});
  }

  // Statements with others inside, from their parts.

  lemma ForLoopConverted(index: Index, s: AstStatement, r: Statement, inner: Option<nat>, enclosing: set<nat>)
    requires s.AstForLoop? && r.ForLoop? && r.counter.name == s.name && r.counter.annotation == s.annotation
    requires MirrorsUpToCast(index, s.init, r.init) && MirrorsUpToCast(index, s.end, r.end)
    requires MirrorsUpToCast(index, StepOf(s.step), r.step) && MirrorsBlock(index, s.body, r.body, Some(r.loop))
    requires Typed(r.init) && Typed(r.end) && Typed(r.step)
    requires GetType(r.init) == GetType(r.end) == GetType(r.step) == Some(r.counter.typ)
    requires r.loop !in enclosing && TypedBlock(r.body, enclosing + {r.loop})
    ensures TypedStatement(r, enclosing) && MirrorsStatement(index, s, r, inner)
    ensures EventsIn(s, r) == EventsOf(s.body, r.body) && DeclsIn(s) == DeclsOf(s.body)
    ensures VarsOfStatement(r) == {r.counter} + (VarsIn(r.init) + VarsIn(r.end) + VarsIn(r.step)) + VarsOf(r.body)
  {
  }

  lemma ConditionalConverted(index: Index, s: AstStatement, r: Statement, inner: Option<nat>, enclosing: set<nat>)
    requires s.AstConditional? && r.Conditional?
    requires MirrorsUpToCast(index, s.condition, r.condition) && Typed(r.condition) && GetType(r.condition) == Some(Builtin(Boolean))
    requires MirrorsBlock(index, s.trueBranch, r.trueBranch, inner) && MirrorsBlock(index, s.falseBranch, r.falseBranch, inner)
    requires TypedBlock(r.trueBranch, enclosing) && TypedBlock(r.falseBranch, enclosing)
    ensures TypedStatement(r, enclosing) && MirrorsStatement(index, s, r, inner)
    ensures EventsIn(s, r) == EventsOf(s.trueBranch, r.trueBranch) + EventsOf(s.falseBranch, r.falseBranch)
    ensures DeclsIn(s) == DeclsOf(s.trueBranch) + DeclsOf(s.falseBranch)
    ensures VarsOfStatement(r) == VarsIn(r.condition) + VarsOf(r.trueBranch) + VarsOf(r.falseBranch)
  {
  }

  lemma CommandMirrored(index: Index, name: string, c: CommandDecl, types: seq<Type>, arguments: AstArguments,
                        args: seq<Expression>, cast: seq<Expression>)
    requires ChosenFor(index.commands(name), c, types) && GetTypeFromCommandType(c.returnType).Some?
    requires |args| == |cast| == |types| == Length(arguments)
    requires forall i :: 0 <= i < |args| ==> Drop(arguments, i).AstArgument? && Mirrors(index, Drop(arguments, i).first, args[i])
    requires forall i :: 0 <= i < |args| ==> GetType(args[i]) == Some(types[i])
    requires forall i :: 0 <= i < |args| ==> IsOrCasts(cast[i], args[i])
    ensures MirrorsAll(index, arguments, ToArguments(cast))
    ensures var t := GetTypeFromCommandType(c.returnType).value; CallsCommand(index, name, CommandCallee(c, t), ToArguments(cast), t)
    ensures VarsInAll(ToArguments(cast)) == VarsInEach(args)
  {
    hide Mirrors, Drop, ChosenFor, VarsInEach, VarsInAll;
    forall i | 0 <= i < |args| ensures !args[i].Cast? {
      MirrorIsNoCast(index, Drop(arguments, i).first, args[i]);
    }
    CastsKeep(args, cast, types);
    VarsOfArguments(cast);
    MirrorsToArguments(index, arguments, cast);
  }

  lemma CommandTyped(c: CommandDecl, cast: seq<Expression>, returnType: Type)
    requires AllTyped(cast) && |cast| <= |c.params| && (cast != [] ==> |cast| == |c.params|)
    requires forall i :: 0 <= i < |cast| ==> ParamTypes(c)[i].Some? && GetType(cast[i]) == ParamTypes(c)[i]
    ensures TypedCall(CommandCallee(c, returnType), ToArguments(cast), returnType)
  {
    hide Typed;
    ArgumentsTyped(cast);
  }

  lemma FunctionTyped(index: Index, name: string, args: seq<Expression>, returnType: Type)
    requires name in index.functions && AllTyped(args) && |args| == |index.functions[name]|
    requires forall i :: 0 <= i < |args| ==> GetType(args[i]) == Some(index.functions[name][i])
    ensures Typed(Call(FunctionCallee(index, name), ToArguments(args), returnType))
  {
    ArgumentsTyped(args);
  }

  lemma CallAsStatement(call: Expression)
    requires call.Call?
    ensures VarsIn(call) == VarsInAll(call.arguments)
    ensures Typed(call) <==> TypedCall(call.callee, call.arguments, call.returnType)
  {
  }

  lemma ProgramPointed(index: Index, main: AstBlock, functions: seq<FuncDecl>, p: Program,
                       gotos: JumpTargets, gosubs: JumpTargets)
    requires |p.functions| == |functions| && Converted(index, main, None, p.main)
    requires forall i :: 0 <= i < |functions| ==> Converted(index, functions[i].body, functions[i].returnValue, p.functions[i])
    requires Numbered(AllEvents(main, functions, p), 0) && Pointed(AllEvents(main, functions, p), gotos, gosubs)
    ensures var q := Program(PointFunction(p.main, gotos, gosubs), PointEach(p.functions, gotos, gosubs));
      var all := AllEvents(main, functions, q);
      && Converted(index, main, None, q.main) && Resolved(main, q.main.body, all)
      && forall i :: 0 <= i < |functions| ==>
        && Converted(index, functions[i].body, functions[i].returnValue, q.functions[i])
        && Resolved(functions[i].body, q.functions[i].body, all)
  {
    hide Converted, EventsOf, Numbered, Pointed, Resolved, SameLabels, PointJumps;
    var q := Program(PointFunction(p.main, gotos, gosubs), PointEach(p.functions, gotos, gosubs));
    var before, after := AllEvents(main, functions, p), AllEvents(main, functions, q);
    PointingKeepsEvents(main, p.main.body, gotos, gosubs);
    PointingFunctionsKeepsEvents(functions, p.functions, gotos, gosubs);
    SameLabelsConcat(EventsOf(main, p.main.body), EventsOfFunctions(functions, p.functions),
                     EventsOf(main, q.main.body), EventsOfFunctions(functions, q.functions));
    PointedFunction(index, main, None, p.main, before, gotos, gosubs);
    SameResolved(main, q.main.body, before, after);
    forall i | 0 <= i < |functions|
      ensures Converted(index, functions[i].body, functions[i].returnValue, q.functions[i])
      ensures Resolved(functions[i].body, q.functions[i].body, after)
    {
      EventsOfOne(functions, p.functions, i);
      PointedFunction(index, functions[i].body, functions[i].returnValue, p.functions[i], before, gotos, gosubs);
      SameResolved(functions[i].body, q.functions[i].body, before, after);
    }
  }
}
