/** What types, conversions between them and the choice of overloads amount to: nothing here but
    the lists of the types themselves. */
module TypeMeaning {
  import opened Words
  import opened Ir
  import opened TypedIr
  import opened AbstractSyntax

  const Integers: set<Type> := {Builtin(Boolean), Builtin(Byte), Builtin(Word), Builtin(Integer), Builtin(Dword), Builtin(DoubleInteger)}
  const Floats: set<Type> := {Builtin(Float), Builtin(DoubleFloat)}

  /** Two different types are converted into each other exactly if both are numbers. */
  lemma ConvertibleExactly(source: Type, target: Type)
    ensures IsTypeConvertible(source, target) <==> source == target || {source, target} <= Integers + Floats
  {
    assert source in {source, target} && target in {source, target};
  }

  lemma CommandTypesExactly(t: CommandType)
    ensures GetTypeFromCommandType(t) == Some(Void) <==> t == TVoid
    ensures GetTypeFromCommandType(t) == Some(Builtin(Integer)) <==> t == TInteger
    ensures GetTypeFromCommandType(t) == Some(Builtin(Dword)) <==> t == TDword
    ensures GetTypeFromCommandType(t) == Some(Builtin(DoubleInteger)) <==> t == TLong
    ensures GetTypeFromCommandType(t) == Some(Builtin(Float)) <==> t == TFloat
    ensures GetTypeFromCommandType(t) == Some(Builtin(DoubleFloat)) <==> t == TDouble
    ensures GetTypeFromCommandType(t) == Some(Builtin(String)) <==> t == TString
    ensures GetTypeFromCommandType(t) == None <==> t == TX || t == TA
  {
  }

  lemma AnnotationTypesExactly(a: Annotation)
    ensures GetTypeFromAnnotation(a) == Builtin(Integer) <==> a == NoAnnotation
    ensures GetTypeFromAnnotation(a) == Builtin(Float) <==> a == FloatAnnotation
    ensures GetTypeFromAnnotation(a) == Builtin(String) <==> a == StringAnnotation
  {
  }

  // Operators.

  /** The operands of a converted operation: the left one as it is, the right one cast to the type
      of the left exactly if its own is another. */
  lemma OperandsExactly(index: Index, e: AstExpression, r: Expression)
    requires e.AstBinary? && Mirrors(index, e, r) && Typed(r)
    ensures r.Binary? && GetType(r.left).Some? && Mirrors(index, e.lhs, r.left) && !r.left.Cast?
    ensures var t := GetType(r.left).value; var right := Uncast(r.right);
      && Mirrors(index, e.rhs, right) && !right.Cast?
      && r.right == if GetType(right) == Some(t) then right else Cast(right, t)
  {
    MirrorIsNoCast(index, e.lhs, r.left);
    if r.right.Cast? {
      if Mirrors(index, e.rhs, r.right) {
        MirrorIsNoCast(index, e.rhs, r.right);
      }
      MirrorIsNoCast(index, e.rhs, r.right.inner);
    }
  }

  /** Its type: Boolean for comparisons, conjunctions and disjunctions, none for an exclusive or,
      otherwise that of the left operand. */
  lemma OperationTypes(index: Index, e: AstExpression, r: Expression)
    requires e.AstBinary? && Mirrors(index, e, r) && Typed(r)
    ensures GetType(r) == match e.bop
      case LessThan => Some(Builtin(Boolean))
      case LessEqual => Some(Builtin(Boolean))
      case GreaterThan => Some(Builtin(Boolean))
      case GreaterEqual => Some(Builtin(Boolean))
      case Equal => Some(Builtin(Boolean))
      case NotEqual => Some(Builtin(Boolean))
      case LogicalOr => Some(Builtin(Boolean))
      case LogicalAnd => Some(Builtin(Boolean))
      case LogicalXor => None
      case _ => GetType(r.left)
  {
    OperandsExactly(index, e, r);
  }

  /** 2 + 3 is computed in integers, and 2 + 3.0 as well. */
  lemma TwoPlusThree(index: Index, b: BuiltinType, r: Expression)
    requires Mirrors(index, AstBinary(Add, AstLiteral(Integer, 2), AstLiteral(b, 3)), r) && Typed(r)
    ensures r == Binary(Add, Literal(Integer, 2), if b == Integer then Literal(b, 3) else Cast(Literal(b, 3), Builtin(Integer)))
  {
    OperandsExactly(index, AstBinary(Add, AstLiteral(Integer, 2), AstLiteral(b, 3)), r);
  }

  /** The counter of a for loop without a step goes up by one. */
  lemma MissingStepIsOne(index: Index, s: AstStatement, r: Statement, inner: Option<nat>, enclosing: set<nat>)
    requires s.AstForLoop? && s.step == None && MirrorsStatement(index, s, r, inner) && TypedStatement(r, enclosing)
    ensures r.ForLoop? && r.step == if r.counter.typ == Builtin(Integer) then Literal(Integer, 1) else Cast(Literal(Integer, 1), r.counter.typ)
  {
    hide MirrorsBlock, TypedBlock;
  }

  /** A call of a command refers to an overload in the index, with its symbols and its types. */
  lemma CalleeExactly(index: Index, name: string, callee: Callee, arguments: Arguments, returnType: Type)
    requires CallsCommand(index, name, callee, arguments, returnType)
    ensures callee.Command? && exists c <- index.commands(name) ::
      && callee.dbSymbol == c.dbSymbol && callee.cppSymbol == c.cppSymbol && |callee.params| == |c.params|
      && (forall i :: 0 <= i < |c.params| ==> callee.params[i] == GetTypeFromCommandType(c.params[i]))
      && callee.result == returnType && GetTypeFromCommandType(c.returnType) == Some(returnType)
  {
    hide ChosenFor, GetTypeFromCommandType;
    var c: CommandDecl, types: seq<Type> :|
      && ChosenFor(index.commands(name), c, types) && SomeTypes(types) == TypesBefore(arguments)
      && callee == CommandCallee(c, returnType) && GetTypeFromCommandType(c.returnType) == Some(returnType);
    ChosenIsListed(index.commands(name), c, types);
  }

  lemma ChosenIsListed(candidates: seq<CommandDecl>, c: CommandDecl, types: seq<Type>)
    requires ChosenFor(candidates, c, types)
    ensures c in candidates
  {
  }

  // Scores.

  /** The argument is of the very type of its parameter. */
  predicate IsExact(param: CommandType, argument: Type) {
    GetTypeFromCommandType(param) == Some(argument)
  }

  /** It is of another integer or another floating point type. */
  predicate IsAlike(param: CommandType, argument: Type) {
    && GetTypeFromCommandType(param).Some? && GetTypeFromCommandType(param).value != argument
    && var t := {GetTypeFromCommandType(param).value, argument}; t <= Integers || t <= Floats
  }

  function Exact(params: seq<CommandType>, arguments: seq<Type>): set<nat>
    requires |params| == |arguments|
  {
    set i: nat | i < |params| && IsExact(params[i], arguments[i])
  }

  function Alike(params: seq<CommandType>, arguments: seq<Type>): set<nat>
    requires |params| == |arguments|
  {
    set i: nat | i < |params| && IsAlike(params[i], arguments[i])
  }

  lemma ScoreOneExactly(param: CommandType, argument: Type)
    ensures ScoreOne(GetTypeFromCommandType(param), argument)
      == if IsExact(param, argument) then 10 else if IsAlike(param, argument) then 1 else 0
  {
    if GetTypeFromCommandType(param).Some? {
      var t := {GetTypeFromCommandType(param).value, argument};
      assert GetTypeFromCommandType(param).value in t && argument in t;
    }
  }

  lemma OneMore(params: seq<CommandType>, arguments: seq<Type>)
    requires |params| == |arguments| > 0
    ensures var n := |params| - 1;
      && |Exact(params, arguments)| == |Exact(params[..n], arguments[..n])| + (if IsExact(params[n], arguments[n]) then 1 else 0)
      && |Alike(params, arguments)| == |Alike(params[..n], arguments[..n])| + (if IsAlike(params[n], arguments[n]) then 1 else 0)
  {
    hide IsExact, IsAlike;
    var n := |params| - 1;
    var exact, alike := Exact(params[..n], arguments[..n]), Alike(params[..n], arguments[..n]);
    assert Exact(params, arguments) == if IsExact(params[n], arguments[n]) then exact + {n} else exact;
    assert Alike(params, arguments) == if IsAlike(params[n], arguments[n]) then alike + {n} else alike;
    assert n !in exact && n !in alike;
  }

  /** The score counts the arguments of either kind, ten for each exact match and one for each of
      the others. */
  lemma {:induction false} ScoreExactly(params: seq<CommandType>, arguments: seq<Type>)
    requires |params| == |arguments|
    ensures Score(params, arguments) == 10 * |Exact(params, arguments)| + |Alike(params, arguments)|
    decreases |params|
  {
    if params != [] {
      hide Exact, Alike, ScoreOne;
      var n := |params| - 1;
      ScoreExactly(params[..n], arguments[..n]);
      ScoreOneExactly(params[n], arguments[n]);
      OneMore(params, arguments);
      assert !(IsExact(params[n], arguments[n]) && IsAlike(params[n], arguments[n]));
    } else {
      assert Exact(params, arguments) == {} && Alike(params, arguments) == {};
    }
  }

  /** An overload with exactly the types of the arguments is chosen before all others. */
  lemma ExactMatchWins(candidates: seq<CommandDecl>, c: CommandDecl, exact: CommandDecl, types: seq<Type>)
    requires ChosenFor(candidates, c, types) && types != [] && exact in candidates && ParamTypes(exact) == SomeTypes(types)
    ensures ParamTypes(c) == SomeTypes(types)
  {
    assert |exact.params| == |types|;
    forall i | 0 <= i < |types| ensures GetTypeFromCommandType(exact.params[i]) == Some(types[i]) {
      assert ParamTypes(exact)[i] == SomeTypes(types)[i];
    }
    FullScore(exact.params, types);
    FullScore(c.params, types);
    assert Applicable(exact, types) by {
      hide Score;
    }
  }

  lemma {:induction false} FullScore(params: seq<CommandType>, types: seq<Type>)
    requires |params| == |types|
    ensures Score(params, types) <= 10 * |types|
    ensures Score(params, types) == 10 * |types| <==> forall i :: 0 <= i < |types| ==> GetTypeFromCommandType(params[i]) == Some(types[i])
    decreases |params|
  {
    if params != [] {
      var n := |params| - 1;
      FullScore(params[..n], types[..n]);
      ScoreOneExactly(params[n], types[n]);
    }
  }

  /** With an overload for integers and one for doubles, a 64-bit integer goes to the former and a
      single-precision float to the latter, in whichever order they are listed. */
  lemma ArchetypeIsPreferred(a: CommandDecl, b: CommandDecl, c: CommandDecl)
    requires a.params == [TInteger] && b.params == [TDouble]
    ensures ChosenFor([a, b], c, [Builtin(DoubleInteger)]) <==> c == a
    ensures ChosenFor([b, a], c, [Builtin(DoubleInteger)]) <==> c == a
    ensures ChosenFor([a, b], c, [Builtin(Float)]) <==> c == b
    ensures ChosenFor([b, a], c, [Builtin(Float)]) <==> c == b
  {
    forall t | t == Builtin(DoubleInteger) || t == Builtin(Float)
      ensures Score([TInteger], [t]) == (if t == Builtin(Float) then 0 else 1)
      ensures Score([TDouble], [t]) == (if t == Builtin(Float) then 1 else 0)
    {
      assert Score([TInteger][..0], [t][..0]) == 0 && Score([TDouble][..0], [t][..0]) == 0;
    }
    hide Score;
    assert a in [a, b] && b in [a, b] && a in [b, a] && b in [b, a];
  }
}
