/** The syntax tree that the converter reads, and what its result has to do with it. */
module AbstractSyntax {
  import opened Words
  import opened Ir
  import opened LoweringFrames
  import opened Matching
  import opened TypedIr
  import L = LabelResolution

  // The syntax tree, as far as it is converted. A missing step of a for loop is None.

  datatype AstExpression =
    | AstUnary(uop: UnaryOp, operand: AstExpression)
    | AstBinary(bop: BinaryOp, lhs: AstExpression, rhs: AstExpression)
    | AstVarRef(name: string, annotation: Annotation)
    | AstLiteral(builtin: BuiltinType, value: int)
    | AstCommand(command: string, commandArguments: AstArguments)
    | AstFuncCall(function_: string, functionArguments: AstArguments)

  datatype AstArguments = AstNoArguments | AstArgument(first: AstExpression, rest: AstArguments)

  datatype AstStatement =
    | AstVarDecl(name: string, annotation: Annotation, builtin: BuiltinType, initializer: AstExpression)
    | AstVarAssignment(name: string, annotation: Annotation, expression: AstExpression)
    | AstConditional(condition: AstExpression, trueBranch: AstBlock, falseBranch: AstBlock)
    | AstSubReturn
    | AstFuncExit(returnValue: AstExpression)
    | AstForLoop(name: string, annotation: Annotation, init: AstExpression, end: AstExpression, step: Option<AstExpression>, body: AstBlock)
    | AstWhileLoop(condition: AstExpression, body: AstBlock)
    | AstUntilLoop(condition: AstExpression, body: AstBlock)
    | AstInfiniteLoop(body: AstBlock)
    | AstExit
    | AstLabel(name: string)
    | AstGoto(name: string)
    | AstSubCall(name: string)
    | AstFuncCallStmnt(name: string, arguments: AstArguments)
    | AstCommandStmnt(name: string, arguments: AstArguments)

  datatype AstBlock = AstEnd | AstThen(head: AstStatement, tail: AstBlock)

  // Commands. `X` and `A` stand for the parameter types the converter has no IR type for.

  datatype CommandType = TInteger | TFloat | TString | TDouble | TLong | TDword | TVoid | TX | TA

  datatype CommandDecl = CommandDecl(dbSymbol: string, cppSymbol: string, returnType: CommandType, params: seq<CommandType>)

  function GetTypeFromCommandType(t: CommandType): Option<Type> {
    match t
    case TInteger => Some(Builtin(Integer))
    case TFloat => Some(Builtin(Float))
    case TString => Some(Builtin(String))
    case TDouble => Some(Builtin(DoubleFloat))
    case TLong => Some(Builtin(DoubleInteger))
    case TDword => Some(Builtin(Dword))
    case TVoid => Some(Void)
    case _ => None
  }

  function GetTypeFromAnnotation(a: Annotation): Type {
    match a
    case NoAnnotation => Builtin(Integer)
    case StringAnnotation => Builtin(String)
    case FloatAnnotation => Builtin(Float)
  }

  predicate IsTypeConvertible(source: Type, target: Type) {
    || source == target
    || (source.Builtin? && target.Builtin?
        && (IsIntegralType(source.builtin) || IsFloatingPointType(source.builtin))
        && (IsIntegralType(target.builtin) || IsFloatingPointType(target.builtin)))
  }

  // Overloads.

  predicate Applicable(c: CommandDecl, arguments: seq<Type>) {
    && |c.params| == |arguments|
    && forall i :: 0 <= i < |arguments| ==>
         GetTypeFromCommandType(c.params[i]).Some? && IsTypeConvertible(arguments[i], GetTypeFromCommandType(c.params[i]).value)
  }

  function ScoreOne(overload: Option<Type>, argument: Type): nat {
    if overload == Some(argument) then 10
    else if overload.Some? && overload.value.Builtin? && argument.Builtin? then
      (if IsIntegralType(overload.value.builtin) && IsIntegralType(argument.builtin) then 1 else 0)
      + (if IsFloatingPointType(overload.value.builtin) && IsFloatingPointType(argument.builtin) then 1 else 0)
    else 0
  }

  function Score(params: seq<CommandType>, arguments: seq<Type>): nat
    requires |params| == |arguments|
  {
    if params == [] then 0
    else
      var n := |params| - 1;
      Score(params[..n], arguments[..n]) + ScoreOne(GetTypeFromCommandType(params[n]), arguments[n])
  }

  /** The overload that a call with arguments of these types is resolved to: the first one for a
      call without arguments, otherwise one with the highest score of those that can be called. */
  ghost predicate ChosenFor(candidates: seq<CommandDecl>, c: CommandDecl, types: seq<Type>) {
    && c in candidates
    && if types == [] then c == candidates[0]
       else Applicable(c, types) && forall d <- candidates :: Applicable(d, types) ==> Score(d.params, types) <= Score(c.params, types)
  }

  /** A call without arguments may lack arguments: here the second overload would fit. */
  lemma FirstIsTaken(c: CommandDecl)
    ensures var wait, other := CommandDecl("wait", "waitFor", TVoid, [TInteger]), CommandDecl("wait", "waitForKey", TVoid, []);
      ChosenFor([wait, other], c, []) <==> c == wait
  {
  }

  /** Every call gets an argument for each parameter exactly if the first overload of each command
      has no parameters; with arguments their number is always right. */
  lemma CallsAreCompleteExactly(candidates: seq<CommandDecl>)
    requires candidates != []
    ensures (forall c, types :: ChosenFor(candidates, c, types) ==> |types| == |c.params|) <==> candidates[0].params == []
  {
    assert ChosenFor(candidates, candidates[0], []);
  }

  // What the converter knows about the program.

  datatype Index = Index(commands: string -> seq<CommandDecl>, functions: map<string, seq<Type>>)

  function ParamTypes(c: CommandDecl): seq<Option<Type>> {
    seq(|c.params|, i requires 0 <= i < |c.params| => GetTypeFromCommandType(c.params[i]))
  }

  function SomeTypes(ts: seq<Type>): seq<Option<Type>> {
    seq(|ts|, i requires 0 <= i < |ts| => Some(ts[i]))
  }

  /** What a call of an overload or of a function refers to. */
  function CommandCallee(c: CommandDecl, returnType: Type): Callee {
    Command(c.dbSymbol, c.cppSymbol, ParamTypes(c), returnType)
  }

  function FunctionCallee(index: Index, name: string): Callee
    requires name in index.functions
  {
    UserFunction(name, SomeTypes(index.functions[name]))
  }

  function Length(arguments: AstArguments): nat {
    match arguments
    case AstNoArguments => 0
    case AstArgument(_, rest) => 1 + Length(rest)
  }

  // The converted expression is the one written, but for casts and for what names mean. A binary
  // operation is one on the type of its left operand, to which the right one is cast.

  function Uncast(e: Expression): Expression {
    if e.Cast? then e.inner else e
  }

  /** The types of the arguments before they are cast to those of the parameters. */
  function TypesBefore(arguments: Arguments): seq<Option<Type>> {
    match arguments
    case NoArguments => []
    case Argument(first, rest) => [GetType(Uncast(first))] + TypesBefore(rest)
  }

  /** A call of the overload of `name` that the types of the arguments choose. */
  ghost predicate CallsCommand(index: Index, name: string, callee: Callee, arguments: Arguments, returnType: Type) {
    exists c: CommandDecl, types: seq<Type> ::
      && ChosenFor(index.commands(name), c, types) && SomeTypes(types) == TypesBefore(arguments)
      && callee == CommandCallee(c, returnType) && GetTypeFromCommandType(c.returnType) == Some(returnType)
  }

  ghost predicate CallsFunction(index: Index, name: string, callee: Callee) {
    name in index.functions && callee == FunctionCallee(index, name)
  }

  ghost predicate Mirrors(index: Index, e: AstExpression, r: Expression)
    decreases e, 0
  {
    match e
    case AstUnary(op, operand) => r.Unary? && r.uop == op && Mirrors(index, operand, r.operand)
    case AstBinary(op, lhs, rhs) =>
      && r.Binary? && r.bop == op && Mirrors(index, lhs, r.left) && MirrorsUpToCast(index, rhs, r.right)
      && (r.right.Cast? ==> GetType(r.left) == Some(r.right.target))
    case AstVarRef(name, annotation) => r.VarRef? && r.variable.name == name && r.variable.annotation == annotation
    case AstLiteral(builtin, value) => r == Literal(builtin, value)
    case AstCommand(name, arguments) =>
      r.Call? && MirrorsAll(index, arguments, r.arguments) && CallsCommand(index, name, r.callee, r.arguments, r.returnType)
    case AstFuncCall(name, arguments) => r.Call? && CallsFunction(index, name, r.callee) && MirrorsAll(index, arguments, r.arguments)
  }

  /** There is a cast only to another type than that of the expression. */
  ghost predicate MirrorsUpToCast(index: Index, e: AstExpression, r: Expression)
    decreases e, 1
  {
    Mirrors(index, e, r) || (r.Cast? && Mirrors(index, e, r.inner) && GetType(r.inner) != Some(r.target))
  }

  ghost predicate MirrorsAll(index: Index, arguments: AstArguments, rs: Arguments)
    decreases arguments, 0
  {
    match arguments
    case AstNoArguments => rs == NoArguments
    case AstArgument(first, rest) => rs.Argument? && MirrorsUpToCast(index, first, rs.first) && MirrorsAll(index, rest, rs.rest)
  }

  /** The same for statements, in the loop `inner`, which is the one that an exit leaves; jumps are
      nodes of their own. */
  ghost predicate MirrorsStatement(index: Index, s: AstStatement, r: Statement, inner: Option<nat>)
    decreases s, 0
  {
    match s
    case AstVarDecl(name, annotation, builtin, initializer) =>
      && r.Assignment? && r.variable == Variable(name, annotation, Builtin(builtin))
      && MirrorsUpToCast(index, initializer, r.expression)
    case AstVarAssignment(name, annotation, expression) =>
      && r.Assignment? && r.variable.name == name && r.variable.annotation == annotation
      && MirrorsUpToCast(index, expression, r.expression)
    case AstConditional(condition, t, f) =>
      && r.Conditional? && MirrorsUpToCast(index, condition, r.condition)
      && MirrorsBlock(index, t, r.trueBranch, inner) && MirrorsBlock(index, f, r.falseBranch, inner)
    case AstSubReturn => r == SubReturn
    case AstFuncExit(returnValue) => r.ExitFunction? && Mirrors(index, returnValue, r.expression)
    case AstForLoop(name, annotation, init, end, step, body) =>
      && r.ForLoop? && r.counter.name == name && r.counter.annotation == annotation
      && MirrorsUpToCast(index, init, r.init) && MirrorsUpToCast(index, end, r.end)
      && MirrorsUpToCast(index, StepOf(step), r.step) && MirrorsBlock(index, body, r.body, Some(r.loop))
    case AstWhileLoop(condition, body) =>
      r.GuardedLoop? && !r.isUntil && Mirrors(index, condition, r.condition) && MirrorsBlock(index, body, r.body, Some(r.loop))
    case AstUntilLoop(condition, body) =>
      r.GuardedLoop? && r.isUntil && Mirrors(index, condition, r.condition) && MirrorsBlock(index, body, r.body, Some(r.loop))
    case AstInfiniteLoop(body) => r.InfiniteLoop? && MirrorsBlock(index, body, r.body, Some(r.loop))
    case AstExit => r.Exit? && inner == Some(r.loopToBreak)
    case AstLabel(_) => r.Label?
    case AstGoto(_) => r.Goto?
    case AstSubCall(_) => r.Gosub?
    case AstFuncCallStmnt(name, arguments) =>
      r.FunctionCall? && CallsFunction(index, name, r.callee) && MirrorsAll(index, arguments, r.arguments)
    case AstCommandStmnt(name, arguments) =>
      && r.FunctionCall? && MirrorsAll(index, arguments, r.arguments)
      && CallsCommand(index, name, r.callee, r.arguments, r.returnType)
  }

  /** Without a step the counter goes up by one. */
  function StepOf(step: Option<AstExpression>): AstExpression {
    if step.Some? then step.value else AstLiteral(Integer, 1)
  }

  ghost predicate MirrorsBlock(index: Index, b: AstBlock, r: Block, inner: Option<nat>)
    decreases b, 0
  {
    match b
    case AstEnd => r == End
    case AstThen(head, tail) => r.Then? && MirrorsStatement(index, head, r.head, inner) && MirrorsBlock(index, tail, r.tail, inner)
  }

  lemma MirrorIsNoCast(index: Index, e: AstExpression, r: Expression)
    requires Mirrors(index, e, r)
    ensures !r.Cast?
  {
  }

  // Variables: within one function a name with an annotation is one variable. It has the type of
  // its declaration, which comes before all its uses, or else that of the annotation.

  function DeclsIn(s: AstStatement): set<Variable>
    decreases s, 0
  {
    match s
    case AstVarDecl(name, annotation, builtin, _) => {Variable(name, annotation, Builtin(builtin))}
    case AstConditional(_, t, f) => DeclsOf(t) + DeclsOf(f)
    case AstForLoop(_, _, _, _, _, body) => DeclsOf(body)
    case AstWhileLoop(_, body) => DeclsOf(body)
    case AstUntilLoop(_, body) => DeclsOf(body)
    case AstInfiniteLoop(body) => DeclsOf(body)
    case _ => {}
  }

  /** The variables that are declared explicitly. */
  function DeclsOf(b: AstBlock): set<Variable>
    decreases b, 0
  {
    match b
    case AstEnd => {}
    case AstThen(s, rest) => DeclsIn(s) + DeclsOf(rest)
  }

  predicate SameName(v: Variable, w: Variable) {
    v.name == w.name && v.annotation == w.annotation
  }

  /** One variable for each name with an annotation, of the type written. */
  ghost predicate ProperVariables(vs: seq<Variable>, decls: set<Variable>) {
    && (forall v <- vs, w <- vs :: SameName(v, w) ==> v == w)
    && (forall v <- vs, d <- decls :: SameName(v, d) ==> v == d)
    && (forall v <- vs :: v in decls || v.typ == GetTypeFromAnnotation(v.annotation))
  }

  type Scope = map<(string, Annotation), Type>

  /** What was known stays, what is declared was not known before, and everything else that is
      new has the type of its annotation. */
  ghost predicate Widens(before: Scope, decls: set<Variable>, after: Scope) {
    && (forall k <- before :: k in after && after[k] == before[k])
    && (forall v <- decls :: (v.name, v.annotation) !in before && (v.name, v.annotation) in after && after[(v.name, v.annotation)] == v.typ)
    && (forall k <- after :: k in before || after[k] == GetTypeFromAnnotation(k.1) || Variable(k.0, k.1, after[k]) in decls)
  }

  lemma WidensTwice(a: Scope, d1: set<Variable>, b: Scope, d2: set<Variable>, c: Scope)
    requires Widens(a, d1, b) && Widens(b, d2, c)
    ensures Widens(a, d1 + d2, c)
  {
    forall k <- c ensures k in a || c[k] == GetTypeFromAnnotation(k.1) || Variable(k.0, k.1, c[k]) in d1 + d2 {
      if k in b && k !in a {
        assert c[k] == b[k];
      }
    }
  }

  lemma WidensFirst(a: Scope, b: Scope, decls: set<Variable>, c: Scope)
    requires Widens(a, {}, b) && Widens(b, decls, c)
    ensures Widens(a, decls, c)
  {
    WidensTwice(a, {}, b, decls, c);
    assert {} + decls == decls;
  }

  lemma ScopeIsProper(vs: seq<Variable>, decls: set<Variable>, scope: Scope)
    requires Widens(map[], decls, scope)
    requires forall v <- vs :: (v.name, v.annotation) in scope && scope[(v.name, v.annotation)] == v.typ
    ensures ProperVariables(vs, decls)
  {
  }

  // Labels and jumps, in the order of the text, with the numbers of their nodes.

  function EventsIn(s: AstStatement, r: Statement): seq<L.Event>
    decreases s, 0
  {
    match s
    case AstLabel(name) => if r.Label? then [L.LabelMet(name, r.id)] else []
    case AstGoto(name) => if r.Goto? then [L.JumpMet(L.Goto, name, r.target)] else []
    case AstSubCall(name) => if r.Gosub? then [L.JumpMet(L.Gosub, name, r.target)] else []
    case AstConditional(_, t, f) => if r.Conditional? then EventsOf(t, r.trueBranch) + EventsOf(f, r.falseBranch) else []
    case AstForLoop(_, _, _, _, _, body) => if r.ForLoop? then EventsOf(body, r.body) else []
    case AstWhileLoop(_, body) => if r.GuardedLoop? then EventsOf(body, r.body) else []
    case AstUntilLoop(_, body) => if r.GuardedLoop? then EventsOf(body, r.body) else []
    case AstInfiniteLoop(body) => if r.InfiniteLoop? then EventsOf(body, r.body) else []
    case _ => []
  }

  function EventsOf(b: AstBlock, r: Block): seq<L.Event>
    decreases b, 0
  {
    if b.AstThen? && r.Then? then EventsIn(b.head, r.head) + EventsOf(b.tail, r.tail) else []
  }

  function NodeOf(e: L.Event): nat {
    if e.LabelMet? then e.node else e.id
  }

  /** The nodes are numbered in order. */
  ghost predicate Numbered(events: seq<L.Event>, from: nat) {
    forall i :: 0 <= i < |events| ==> NodeOf(events[i]) == from + i
  }

  lemma NumberedConcat(a: seq<L.Event>, b: seq<L.Event>, from: nat)
    requires Numbered(a + b, from)
    ensures Numbered(a, from) && Numbered(b, from + |a|)
  {
    forall i | 0 <= i < |a| ensures NodeOf(a[i]) == from + i {
      assert (a + b)[i] == a[i];
    }
    forall i | 0 <= i < |b| ensures NodeOf(b[i]) == from + |a| + i {
      assert (a + b)[|a| + i] == b[i];
    }
  }

  lemma NumberedIsDistinct(events: seq<L.Event>)
    requires Numbered(events, 0)
    ensures L.DistinctJumps(events)
  {
    forall i, k | 0 <= i < k < |events| && events[i].JumpMet? && events[k].JumpMet? ensures events[i].id != events[k].id {
      assert NodeOf(events[i]) == i && NodeOf(events[k]) == k;
    }
  }

  ghost predicate Between(labels: set<nat>, from: nat, to: nat) {
    forall l <- labels :: from <= l < to
  }

  /** So no label is placed twice. */
  lemma {:induction false} NumberedLabelsIn(index: Index, s: AstStatement, r: Statement, inner: Option<nat>, from: nat)
    requires MirrorsStatement(index, s, r, inner) && Numbered(EventsIn(s, r), from)
    ensures UniqueLabelsIn(r) && Between(LabelsIn(r), from, from + |EventsIn(s, r)|)
    decreases s, 0
  {
    match s
    case AstConditional(_, t, f) =>
      var first := EventsOf(t, r.trueBranch);
      NumberedConcat(first, EventsOf(f, r.falseBranch), from);
      NumberedLabels(index, t, r.trueBranch, inner, from);
      NumberedLabels(index, f, r.falseBranch, inner, from + |first|);
    case AstForLoop(_, _, _, _, _, body) => NumberedLabels(index, body, r.body, Some(r.loop), from);
    case AstInfiniteLoop(body) => NumberedLabels(index, body, r.body, Some(r.loop), from);
    case AstLabel(name) => assert NodeOf(EventsIn(s, r)[0]) == from;
    case _ =>
  }

  lemma {:induction false} NumberedLabels(index: Index, b: AstBlock, r: Block, inner: Option<nat>, from: nat)
    requires MirrorsBlock(index, b, r, inner) && Numbered(EventsOf(b, r), from)
    ensures UniqueLabels(r) && Between(LabelsOf(r), from, from + |EventsOf(b, r)|)
    decreases b, 0
  {
    match b
    case AstEnd =>
    case AstThen(head, tail) =>
      var first := EventsIn(head, r.head);
      NumberedConcat(first, EventsOf(tail, r.tail), from);
      NumberedLabelsIn(index, head, r.head, inner, from);
      NumberedLabels(index, tail, r.tail, inner, from + |first|);
  }

  // Jumps that have been pointed to their labels.

  predicate PointsTo(target: nat, name: string, events: seq<L.Event>) {
    match L.FirstLabel(events, name)
    case Some(l) => target == l
    case None => forall e <- events :: e.LabelMet? ==> e.node != target
  }

  /** Each jump leads to the first of all labels of the name written, and to no label if there is
      none; each label is the one met under its name. */
  predicate ResolvedIn(s: AstStatement, r: Statement, events: seq<L.Event>)
    decreases s, 0
  {
    match s
    case AstLabel(name) => r.Label? && L.LabelMet(name, r.id) in events
    case AstGoto(name) => r.Goto? && PointsTo(r.target, name, events)
    case AstSubCall(name) => r.Gosub? && PointsTo(r.target, name, events)
    case AstConditional(_, t, f) => r.Conditional? && Resolved(t, r.trueBranch, events) && Resolved(f, r.falseBranch, events)
    case AstForLoop(_, _, _, _, _, body) => r.ForLoop? && Resolved(body, r.body, events)
    case AstWhileLoop(_, body) => r.GuardedLoop? && Resolved(body, r.body, events)
    case AstUntilLoop(_, body) => r.GuardedLoop? && Resolved(body, r.body, events)
    case AstInfiniteLoop(body) => r.InfiniteLoop? && Resolved(body, r.body, events)
    case _ => true
  }

  predicate Resolved(b: AstBlock, r: Block, events: seq<L.Event>)
    decreases b, 0
  {
    b.AstThen? ==> r.Then? && ResolvedIn(b.head, r.head, events) && Resolved(b.tail, r.tail, events)
  }

  /** What the table of jumps says after all events. */
  ghost predicate Pointed(all: seq<L.Event>, gotos: JumpTargets, gosubs: JumpTargets) {
    && (forall n, id :: L.JumpMet(L.Goto, n, id) in all ==> id in gotos && gotos[id] == L.FirstLabel(all, n))
    && (forall n, id :: L.JumpMet(L.Gosub, n, id) in all ==> id in gosubs && gosubs[id] == L.FirstLabel(all, n))
  }

  lemma JumpPointsTo(all: seq<L.Event>, j: L.Jump, name: string, id: nat, targets: JumpTargets)
    requires Numbered(all, 0) && L.JumpMet(j, name, id) in all && id in targets && targets[id] == L.FirstLabel(all, name)
    ensures PointsTo(TargetOf(targets, id), name, all)
  {
    var i :| 0 <= i < |all| && all[i] == L.JumpMet(j, name, id);
    assert NodeOf(all[i]) == i;
    forall e | e in all && e.LabelMet? ensures e.node != id {
      var k :| 0 <= k < |all| && all[k] == e;
      assert NodeOf(all[k]) == k;
    }
  }

  lemma {:induction false} PointedInIsResolved(index: Index, s: AstStatement, r: Statement, inner: Option<nat>, all: seq<L.Event>,
                                               gotos: JumpTargets, gosubs: JumpTargets)
    requires MirrorsStatement(index, s, r, inner) && (forall e <- EventsIn(s, r) :: e in all)
    requires Numbered(all, 0) && Pointed(all, gotos, gosubs)
    ensures MirrorsStatement(index, s, PointIn(r, gotos, gosubs), inner) && ResolvedIn(s, PointIn(r, gotos, gosubs), all)
    decreases s, 0
  {
    hide Numbered, Pointed, Mirrors, MirrorsUpToCast, MirrorsAll, CallsCommand, PointsTo;
    match s
    case AstLabel(name) => assert EventsIn(s, r)[0] == L.LabelMet(name, r.id);
    case AstGoto(name) =>
      assert EventsIn(s, r)[0] == L.JumpMet(L.Goto, name, r.target);
      PointedHas(all, gotos, gosubs, name, r.target);
      JumpPointsTo(all, L.Goto, name, r.target, gotos);
    case AstSubCall(name) =>
      assert EventsIn(s, r)[0] == L.JumpMet(L.Gosub, name, r.target);
      PointedHas(all, gotos, gosubs, name, r.target);
      JumpPointsTo(all, L.Gosub, name, r.target, gosubs);
    case AstConditional(_, t, f) =>
      PointedIsResolved(index, t, r.trueBranch, inner, all, gotos, gosubs);
      PointedIsResolved(index, f, r.falseBranch, inner, all, gotos, gosubs);
    case AstForLoop(_, _, _, _, _, body) => PointedIsResolved(index, body, r.body, Some(r.loop), all, gotos, gosubs);
    case AstWhileLoop(_, body) => PointedIsResolved(index, body, r.body, Some(r.loop), all, gotos, gosubs);
    case AstUntilLoop(_, body) => PointedIsResolved(index, body, r.body, Some(r.loop), all, gotos, gosubs);
    case AstInfiniteLoop(body) => PointedIsResolved(index, body, r.body, Some(r.loop), all, gotos, gosubs);
    case _ =>
  }

  lemma PointedHas(all: seq<L.Event>, gotos: JumpTargets, gosubs: JumpTargets, n: string, id: nat)
    requires Pointed(all, gotos, gosubs)
    ensures L.JumpMet(L.Goto, n, id) in all ==> id in gotos && gotos[id] == L.FirstLabel(all, n)
    ensures L.JumpMet(L.Gosub, n, id) in all ==> id in gosubs && gosubs[id] == L.FirstLabel(all, n)
  {
  }

  lemma {:induction false} PointedIsResolved(index: Index, b: AstBlock, r: Block, inner: Option<nat>, all: seq<L.Event>,
                                             gotos: JumpTargets, gosubs: JumpTargets)
    requires MirrorsBlock(index, b, r, inner) && (forall e <- EventsOf(b, r) :: e in all)
    requires Numbered(all, 0) && Pointed(all, gotos, gosubs)
    ensures MirrorsBlock(index, b, PointJumps(r, gotos, gosubs), inner) && Resolved(b, PointJumps(r, gotos, gosubs), all)
    decreases b, 0
  {
    hide Numbered, Pointed;
    match b
    case AstEnd =>
    case AstThen(head, tail) =>
      PointedInIsResolved(index, head, r.head, inner, all, gotos, gosubs);
      PointedIsResolved(index, tail, r.tail, inner, all, gotos, gosubs);
  }

  // Pointing jumps does not change the labels, nor which is the first of a name.

  ghost predicate SameLabels(a: seq<L.Event>, b: seq<L.Event>) {
    |a| == |b| && forall i :: 0 <= i < |a| ==> (a[i].LabelMet? || b[i].LabelMet? ==> a[i] == b[i])
  }

  lemma {:induction false} SameFirstLabel(a: seq<L.Event>, b: seq<L.Event>, name: string)
    requires SameLabels(a, b)
    ensures L.FirstLabel(a, name) == L.FirstLabel(b, name)
    decreases |a|
  {
    if a != [] {
      SameFirstLabel(a[..|a| - 1], b[..|b| - 1], name);
    }
  }

  lemma SameLabelsConcat(a: seq<L.Event>, b: seq<L.Event>, c: seq<L.Event>, d: seq<L.Event>)
    requires SameLabels(a, c) && SameLabels(b, d)
    ensures SameLabels(a + b, c + d)
  {
  }

  lemma {:induction false} PointInKeepsEvents(s: AstStatement, r: Statement, gotos: JumpTargets, gosubs: JumpTargets)
    ensures SameLabels(EventsIn(s, r), EventsIn(s, PointIn(r, gotos, gosubs)))
    decreases s, 0
  {
    var p := PointIn(r, gotos, gosubs);
    match s
    case AstConditional(_, t, f) =>
      if r.Conditional? {
        PointingKeepsEvents(t, r.trueBranch, gotos, gosubs);
        PointingKeepsEvents(f, r.falseBranch, gotos, gosubs);
        SameLabelsConcat(EventsOf(t, r.trueBranch), EventsOf(f, r.falseBranch), EventsOf(t, p.trueBranch), EventsOf(f, p.falseBranch));
      }
    case AstForLoop(_, _, _, _, _, body) => if r.ForLoop? { PointingKeepsEvents(body, r.body, gotos, gosubs); }
    case AstWhileLoop(_, body) => if r.GuardedLoop? { PointingKeepsEvents(body, r.body, gotos, gosubs); }
    case AstUntilLoop(_, body) => if r.GuardedLoop? { PointingKeepsEvents(body, r.body, gotos, gosubs); }
    case AstInfiniteLoop(body) => if r.InfiniteLoop? { PointingKeepsEvents(body, r.body, gotos, gosubs); }
    case _ =>
  }

  lemma {:induction false} PointingKeepsEvents(b: AstBlock, r: Block, gotos: JumpTargets, gosubs: JumpTargets)
    ensures SameLabels(EventsOf(b, r), EventsOf(b, PointJumps(r, gotos, gosubs)))
    decreases b, 0
  {
    if b.AstThen? && r.Then? {
      var p := PointJumps(r, gotos, gosubs);
      PointInKeepsEvents(b.head, r.head, gotos, gosubs);
      PointingKeepsEvents(b.tail, r.tail, gotos, gosubs);
      SameLabelsConcat(EventsIn(b.head, r.head), EventsOf(b.tail, r.tail), EventsIn(b.head, p.head), EventsOf(b.tail, p.tail));
    }
  }

  lemma SamePointsTo(target: nat, name: string, a: seq<L.Event>, b: seq<L.Event>)
    requires SameLabels(a, b) && PointsTo(target, name, a)
    ensures PointsTo(target, name, b)
  {
    SameFirstLabel(a, b, name);
    hide L.FirstLabel;
    forall e | e in b && e.LabelMet? ensures e in a {
      SameLabelIn(b, a, e);
    }
  }

  lemma SameLabelIn(a: seq<L.Event>, b: seq<L.Event>, e: L.Event)
    requires SameLabels(a, b) || SameLabels(b, a)
    requires e in a && e.LabelMet?
    ensures e in b
  {
    var i :| 0 <= i < |a| && a[i] == e;
    assert b[i] == e;
  }

  lemma {:induction false} SameResolvedIn(s: AstStatement, r: Statement, a: seq<L.Event>, b: seq<L.Event>)
    requires SameLabels(a, b) && ResolvedIn(s, r, a)
    ensures ResolvedIn(s, r, b)
    decreases s, 0
  {
    hide SameLabels, PointsTo;
    match s
    case AstLabel(name) => SameLabelIn(a, b, L.LabelMet(name, r.id));
    case AstGoto(name) => SamePointsTo(r.target, name, a, b);
    case AstSubCall(name) => SamePointsTo(r.target, name, a, b);
    case AstConditional(_, t, f) => SameResolved(t, r.trueBranch, a, b); SameResolved(f, r.falseBranch, a, b);
    case AstForLoop(_, _, _, _, _, body) => SameResolved(body, r.body, a, b);
    case AstWhileLoop(_, body) => SameResolved(body, r.body, a, b);
    case AstUntilLoop(_, body) => SameResolved(body, r.body, a, b);
    case AstInfiniteLoop(body) => SameResolved(body, r.body, a, b);
    case _ =>
  }

  lemma {:induction false} SameResolved(t: AstBlock, r: Block, a: seq<L.Event>, b: seq<L.Event>)
    requires SameLabels(a, b) && Resolved(t, r, a)
    ensures Resolved(t, r, b)
    decreases t, 0
  {
    hide SameLabels;
    if t.AstThen? {
      SameResolvedIn(t.head, r.head, a, b);
      SameResolved(t.tail, r.tail, a, b);
    }
  }
}
