/** Every block that lowering opens it also closes, except the one it returns. */
module BlockStructure {
  import opened Words
  import opened Ir
  import opened L = Llvm
  import opened Lowering
  import opened LoweringFrames
  import opened ExpressionLowering
  import opened Matching
  import opened MatchingLemmas

  /** No terminator anywhere. */
  predicate Open(code: seq<Instr>) {
    forall i | 0 <= i < |code| :: !code[i].IsTerminator()
  }

  /** A terminator that a function of type void may contain; all generated functions are of
      this type, so a return with a value is none. */
  predicate IsVoidTerminator(i: Instr) {
    i.IsTerminator() && !i.Ret?
  }

  /** One terminator, at the end. */
  predicate Terminated(code: seq<Instr>) {
    code != [] && IsVoidTerminator(code[|code| - 1]) && Open(code[..|code| - 1])
  }

  lemma OpenConcat(a: seq<Instr>, b: seq<Instr>)
    ensures Open(a) && Open(b) ==> Open(a + b)
    ensures Open(a) && Terminated(b) ==> Terminated(a + b)
  {
    if Open(a) && Terminated(b) {
      assert (a + b)[..|a + b| - 1] == a + b[..|b| - 1];
    }
  }

  lemma {:induction false} ExpressionIsOpen(n: nat, e: Expression)
    ensures Open(CompileExpression(n, e).code)
    decreases e, 0
  {
    match e
    case Cast(inner, _) => ExpressionIsOpen(n, inner);
    case Unary(_, operand) => ExpressionIsOpen(n, operand);
    case Binary(_, left, right) =>
      ExpressionIsOpen(n, left);
      ExpressionIsOpen(CompileExpression(n, left).next, right);
    case Call(callee, arguments, ret) => CallIsOpen(n, callee, arguments);
    case _ =>
  }

  lemma {:induction false} CallIsOpen(n: nat, callee: Callee, arguments: Arguments)
    ensures Open(CompileCall(n, callee, arguments).code)
    decreases arguments, 1
  {
    ArgumentsAreOpen(n, arguments);
  }

  lemma {:induction false} ArgumentsAreOpen(n: nat, arguments: Arguments)
    ensures Open(CompileArguments(n, arguments).code)
    decreases arguments, 0
  {
    match arguments
    case NoArguments =>
    case Argument(first, rest) =>
      ExpressionIsOpen(n, first);
      ArgumentsAreOpen(CompileExpression(n, first).next, rest);
  }

  /** Of the blocks the code from `g` to `h` owns exactly those in `open` are unfinished. */
  ghost predicate Sealed(g: Gen, h: Gen, cur: nat, ls: set<nat>, open: set<nat>) {
    && (forall b: nat :: Owns(g, h, cur, ls, b) && b !in open ==> Terminated(h.blocks[b]))
    && (forall b: nat :: b in open ==> Owns(g, h, cur, ls, b) && Open(h.blocks[b]))
  }

  lemma SealedStart(g: Gen, cur: nat)
    requires Valid(g) && cur < |g.blocks| && Open(g.blocks[cur])
    ensures Sealed(g, g, cur, {}, {cur})
  {
  }

  lemma SealedNewBlock(g: Gen, h: Gen, cur: nat, ls: set<nat>, xs: set<nat>, open: set<nat>)
    requires Frame(g, h, cur, ls, xs) && Sealed(g, h, cur, ls, open)
    ensures Sealed(g, NewBlock(h), cur, ls, open + {|h.blocks|})
  {
    hide Terminated;
  }

  lemma SealedEmit(g: Gen, h: Gen, cur: nat, ls: set<nat>, xs: set<nat>, open: set<nat>, b: nat, code: seq<Instr>)
    requires Frame(g, h, cur, ls, xs) && Sealed(g, h, cur, ls, open) && b in open
    ensures Open(code) ==> Sealed(g, Emit(h, b, code), cur, ls, open)
    ensures Terminated(code) ==> Sealed(g, Emit(h, b, code), cur, ls, open - {b})
  {
    OpenConcat(h.blocks[b], code);
  }

  /** A block owned by two pieces of code together is owned by the second, or left alone by it. */
  lemma Owner(g: Gen, h: Gen, k: Gen, cur: nat, mid: nat, ls1: set<nat>, xs1: set<nat>, ls2: set<nat>, xs2: set<nat>, b: nat)
    requires Frame(g, h, cur, ls1, xs1) && Owns(g, h, cur, ls1, mid) && Frame(h, k, mid, ls2, xs2)
    requires forall l <- ls1 :: l in h.labels
    requires Owns(g, k, cur, ls1 + ls2, b)
    ensures Owns(h, k, mid, ls2, b) || (Owns(g, h, cur, ls1, b) && b != mid && k.blocks[b] == h.blocks[b])
  {
    if b >= |h.blocks| {
      assert Owns(h, k, mid, ls2, b);
    } else if b == mid || exists l :: l in ls2 && l in h.labels && h.labels[l] == b {
      OldNotNew(h, k, mid, ls2, xs2, b);
    } else {
      assert k.blocks[b] == h.blocks[b];
      OwnedBefore(g, h, k, cur, mid, ls1, xs1, ls2, xs2, b);
    }
  }

  lemma OldNotNew(h: Gen, k: Gen, mid: nat, ls: set<nat>, xs: set<nat>, b: nat)
    requires Frame(h, k, mid, ls, xs) && b < |h.blocks|
    requires b == mid || exists l :: l in ls && l in h.labels && h.labels[l] == b
    ensures Owns(h, k, mid, ls, b)
  {
  }

  lemma OwnedBefore(g: Gen, h: Gen, k: Gen, cur: nat, mid: nat, ls1: set<nat>, xs1: set<nat>, ls2: set<nat>, xs2: set<nat>, b: nat)
    requires Frame(g, h, cur, ls1, xs1) && Frame(h, k, mid, ls2, xs2)
    requires Owns(g, k, cur, ls1 + ls2, b) && b < |h.blocks|
    requires forall l <- ls2 :: l in h.labels ==> h.labels[l] != b
    ensures Owns(g, h, cur, ls1, b)
  {
    if b != cur && b < |g.blocks| {
      var l :| l in ls1 + ls2 && l in g.labels && g.labels[l] == b;
      assert l in ls1;
    }
    forall l <- h.labels | l !in g.labels && l !in ls1
      ensures h.labels[l] != b
    {
      assert l in k.labels && k.labels[l] == h.labels[l];
    }
  }

  lemma LeftOpen(h: Gen, k: Gen, mid: nat, ls: set<nat>, xs: set<nat>, b: nat)
    requires Frame(h, k, mid, ls, xs) && b != mid && Away(h, ls, b)
    ensures b < |h.blocks| <= |k.blocks| && k.blocks[b] == h.blocks[b]
  {
  }

  lemma OwnedExist(g: Gen, h: Gen, cur: nat, ls: set<nat>)
    ensures forall b: nat :: Owns(g, h, cur, ls, b) ==> b < |h.blocks|
  {
  }

  /** Two pieces of code in a row: the second takes over the block `mid`. */
  lemma SealedThen(g: Gen, h: Gen, k: Gen, cur: nat, mid: nat, ls1: set<nat>, xs1: set<nat>, ls2: set<nat>, xs2: set<nat>,
                   open1: set<nat>, open2: set<nat>)
    requires Frame(g, h, cur, ls1, xs1) && Sealed(g, h, cur, ls1, open1) && mid in open1
    requires Frame(h, k, mid, ls2, xs2) && Sealed(h, k, mid, ls2, open2)
    requires forall b <- open1 :: b != mid ==> Away(h, ls2, b)
    requires forall l <- ls1 :: l in h.labels
    ensures Sealed(g, k, cur, ls1 + ls2, open1 - {mid} + open2)
  {
    OwnedExist(g, k, cur, ls1 + ls2);
    OwnedExist(g, h, cur, ls1);
    OwnedExist(h, k, mid, ls2);
    hide Frame, Owns, Open, Terminated, Away;
    forall b: nat | Owns(g, k, cur, ls1 + ls2, b) && b !in open1 - {mid} + open2
      ensures Terminated(k.blocks[b])
    {
      Owner(g, h, k, cur, mid, ls1, xs1, ls2, xs2, b);
    }
    forall b: nat | b in open1 - {mid} + open2
      ensures Owns(g, k, cur, ls1 + ls2, b) && b < |k.blocks| && Open(k.blocks[b])
    {
      if b in open2 {
        OwnsThrough(g, h, k, cur, mid, ls1, xs1, ls2, xs2, b);
      } else {
        OwnsLater(g, h, k, cur, mid, ls1, xs1, ls2, xs2, b);
        LeftOpen(h, k, mid, ls2, xs2, b);
      }
    }
  }

  // The labels a piece of code jumps to, and the labels known afterwards.

  function JumpsIn(s: Statement): set<nat>
    decreases s, 0
  {
    match s
    case Goto(l) => {l}
    case Gosub(l) => {l}
    case Conditional(_, t, f) => JumpsOf(t) + JumpsOf(f)
    case InfiniteLoop(_, body) => JumpsOf(body)
    case ForLoop(_, _, _, _, _, body) => JumpsOf(body)
    case _ => {}
  }

  function JumpsOf(b: Block): set<nat>
    decreases b, 0
  {
    match b
    case End => {}
    case Then(s, rest) => JumpsIn(s) + JumpsOf(rest)
  }

  lemma {:induction false} LabelsKnown(main: bool, g: Gen, cur: nat, s: Statement)
    ensures LowerStatement(main, g, cur, s).0.labels.Keys == g.labels.Keys + LabelsIn(s) + JumpsIn(s)
    decreases s, 0
  {
    hide CompileExpression, CompileCall, CloseConditional, CloseLoop, CloseFor, OpenFor, LowerBlock, LabelsOf, JumpsOf, AddToEach;
    match s
    case Conditional(c, t, f) =>
      var (g1, te) := LowerBlock(main, NewBlock(g), |g.blocks|, t);
      var (g2, fe) := LowerBlock(main, NewBlock(g1), |g1.blocks|, f);
      LabelsKnownOf(main, NewBlock(g), |g.blocks|, t);
      LabelsKnownOf(main, NewBlock(g1), |g1.blocks|, f);
      CloseConditionalLabels(g2, cur, c, |g.blocks|, te, |g1.blocks|, fe);
    case InfiniteLoop(loop, body) =>
      var (g1, le) := LowerBlock(main, OpenLoop(g, loop), |g.blocks|, body);
      LabelsKnownOf(main, OpenLoop(g, loop), |g.blocks|, body);
      CloseLoopLabels(g1, cur, |g.blocks|, le);
    case ForLoop(loop, counter, init, end, step, body) =>
      var g0 := OpenFor(g, cur, loop, counter, init, end, step);
      var (g1, le) := LowerBlock(main, g0, |g.blocks| + 4, body);
      OpenForLabels(g, cur, loop, counter, init, end, step);
      LabelsKnownOf(main, g0, |g.blocks| + 4, body);
      CloseForLabels(g1, counter, step, |g.blocks|, le);
    case _ =>
  }

  lemma CloseConditionalLabels(g: Gen, cur: nat, c: Expression, tb: nat, te: nat, fb: nat, fe: nat)
    ensures CloseConditional(g, cur, c, tb, te, fb, fe).labels == g.labels
  {
  }

  lemma CloseLoopLabels(g: Gen, cur: nat, lb: nat, le: nat)
    ensures CloseLoop(g, cur, lb, le).labels == g.labels
  {
  }

  lemma OpenForLabels(g: Gen, cur: nat, loop: nat, counter: Variable, init: Expression, end: Expression, step: Expression)
    ensures OpenFor(g, cur, loop, counter, init, end, step).labels == g.labels
  {
    hide CompileExpression, CompileFor;
  }

  lemma CloseForLabels(g: Gen, counter: Variable, step: Expression, n: nat, le: nat)
    ensures CloseFor(g, counter, step, n, le).labels == g.labels
  {
  }

  lemma {:induction false} LabelsKnownOf(main: bool, g: Gen, cur: nat, block: Block)
    ensures LowerBlock(main, g, cur, block).0.labels.Keys == g.labels.Keys + LabelsOf(block) + JumpsOf(block)
    decreases block, 0
  {
    match block
    case End =>
    case Then(s, rest) =>
      var (h, c) := LowerStatement(main, g, cur, s);
      LabelsKnown(main, g, cur, s);
      LabelsKnownOf(main, h, c, rest);
  }

  // Explicit returns.

  predicate NoReturnIn(s: Statement)
    decreases s, 0
  {
    match s
    case ExitFunction(_) => false
    case Conditional(_, t, f) => NoReturn(t) && NoReturn(f)
    case InfiniteLoop(_, body) => NoReturn(body)
    case ForLoop(_, _, _, _, _, body) => NoReturn(body)
    case _ => true
  }

  predicate NoReturn(b: Block)
    decreases b, 0
  {
    match b
    case End => true
    case Then(s, rest) => NoReturnIn(s) && NoReturn(rest)
  }

  /** The code of `s` finishes every block it opens and leaves open only where it ends. */
  ghost predicate Seals(main: bool, g: Gen, cur: nat, s: Statement) {
    var (h, c) := LowerStatement(main, g, cur, s);
    Sealed(g, h, cur, LabelsIn(s), {c})
  }

  ghost predicate Sealable(g: Gen, cur: nat, loops: set<nat>) {
    Valid(g) && cur < |g.blocks| && Open(g.blocks[cur]) && loops <= g.exits.Keys
  }

  lemma SealsLabel(main: bool, g: Gen, cur: nat, l: nat)
    requires Sealable(g, cur, {}) && Fresh(g, cur, {l})
    ensures Seals(main, g, cur, Label(l))
  {
    OpenConcat(g.blocks[cur], [Br(LabelBlock(g, l))]);
  }

  lemma SealsJump(g: Gen, h: Gen, cur: nat, target: nat)
    requires Frame(g, h, cur, {}, {}) && Sealed(g, h, cur, {}, {cur})
    ensures Sealed(g, LowerJump(h, cur, target).0, cur, {}, {LowerJump(h, cur, target).1})
  {
    SealedEmit(g, h, cur, {}, {}, {cur}, cur, [Br(target)]);
    assert {cur} - {cur} == {};
    FrameEmit(g, h, cur, {}, {}, cur, [Br(target)]);
    SealedNewBlock(g, Emit(h, cur, [Br(target)]), cur, {}, {}, {});
    assert {} + {|h.blocks|} == {|h.blocks|};
  }

  lemma SealedAddLabel(g: Gen, cur: nat, l: nat)
    requires Sealable(g, cur, {})
    ensures Sealed(g, AddLabel(g, l), cur, {}, {cur})
  {
  }

  lemma SealsGosub(main: bool, g: Gen, cur: nat, l: nat)
    requires Sealable(g, cur, {})
    ensures Seals(main, g, cur, Gosub(l))
  {
    hide Frame, Owns, Sealed;
    var g1 := AddLabel(g, l);
    var c := |g1.blocks|;
    FrameAddLabel(g, cur, l);
    SealedAddLabel(g, cur, l);
    SealedNewBlock(g, g1, cur, {}, {}, {cur});
    FrameFresh(g, g1, cur, {}, {}, cur);
    TerminatedBy([PushReturn(c)], Br(LabelBlock(g, l)));
    assert [PushReturn(c)] + [Br(LabelBlock(g, l))] == [PushReturn(c), Br(LabelBlock(g, l))];
    SealedEmit(g, NewBlock(g1), cur, {}, {}, {cur} + {c}, cur, [PushReturn(c), Br(LabelBlock(g, l))]);
    assert {cur} + {c} - {cur} == {c};
    SealedReturnPoint(g, Emit(NewBlock(g1), cur, [PushReturn(c), Br(LabelBlock(g, l))]), cur, {c}, c);
  }

  lemma SealedReturnPoint(g: Gen, h: Gen, cur: nat, open: set<nat>, c: nat)
    requires Sealed(g, h, cur, {}, open)
    ensures Sealed(g, AddReturnPoint(h, c), cur, {}, open)
  {
  }

  lemma SealsReturn(main: bool, g: Gen, cur: nat)
    requires Sealable(g, cur, {})
    ensures Seals(main, g, cur, SubReturn)
  {
    OpenConcat(g.blocks[cur], [PopReturn(g.nextReg), IndirectBr(Defined(g.nextReg, PopReturn(g.nextReg)), |g.destinations|)]);
  }

  lemma SealsStraight(g: Gen, cur: nat, code: seq<Instr>, next: nat)
    requires Sealable(g, cur, {}) && Open(code)
    ensures Sealed(g, EmitCode(g, cur, code, next), cur, {}, {cur})
  {
    OpenConcat(g.blocks[cur], code);
  }

  lemma SealsEnd(g: Gen, cur: nat)
    requires Sealable(g, cur, {})
    ensures Sealed(g, NewBlock(Emit(g, cur, [RetVoid])), cur, {}, {|g.blocks|})
  {
    OpenConcat(g.blocks[cur], [RetVoid]);
  }

  lemma {:induction false} SealsStatement(main: bool, g: Gen, cur: nat, s: Statement, loops: set<nat>)
    requires Sealable(g, cur, loops) && Fresh(g, cur, LabelsIn(s))
    requires FormedStatement(s, loops) && UniqueLabelsIn(s) && NoReturnIn(s)
    ensures Seals(main, g, cur, s)
    decreases s, 1
  {
    hide Frame, Owns, Sealed;
    FrameReflexive(g, cur);
    SealedStart(g, cur);
    match s
    case Label(l) => SealsLabel(main, g, cur, l);
    case Goto(l) =>
      FrameAddLabel(g, cur, l);
      SealedAddLabel(g, cur, l);
      SealsJump(g, AddLabel(g, l), cur, LabelBlock(g, l));
    case Gosub(l) => SealsGosub(main, g, cur, l);
    case SubReturn => SealsReturn(main, g, cur);
    case Conditional(_, _, _) => SealsConditional(main, g, cur, s, loops);
    case InfiniteLoop(_, _) => SealsLoop(main, g, cur, s, loops);
    case ForLoop(_, _, _, _, _, _) => SealsFor(main, g, cur, s, loops);
    case Exit(loop) => SealsJump(g, g, cur, g.exits[loop]);
    case Assignment(x, e) =>
      var c := CompileExpression(g.nextReg, e);
      ExpressionIsOpen(g.nextReg, e);
      SealsStraight(g, cur, c.code + [Store(x, c.result)], c.next);
    case FunctionCall(callee, arguments, ret) =>
      SealsEnd(g, cur);
      var c := CompileCall(g.nextReg, callee, arguments);
      CallIsOpen(g.nextReg, callee, arguments);
      SealsStraight(g, cur, c.code, c.next);
  }

  lemma {:induction false} SealsBlock(main: bool, g: Gen, cur: nat, block: Block, loops: set<nat>)
    requires Sealable(g, cur, loops) && Fresh(g, cur, LabelsOf(block))
    requires FormedBlock(block, loops) && UniqueLabels(block) && NoReturn(block)
    ensures var (h, c) := LowerBlock(main, g, cur, block); Sealed(g, h, cur, LabelsOf(block), {c})
    decreases block, 4
  {
    hide Frame, Owns, Sealed, Away;
    match block
    case End => SealedStart(g, cur);
    case Then(s, rest) =>
      var (h, c) := LowerStatement(main, g, cur, s);
      FreshLess(g, cur, LabelsOf(block), LabelsIn(s));
      FreshLess(g, cur, LabelsOf(block), LabelsOf(rest));
      SealsStatement(main, g, cur, s, loops);
      FrameStatement(main, g, cur, s);
      LabelsKnown(main, g, cur, s);
      FreshAfter(g, h, cur, c, LabelsIn(s), LoopsIn(s), LabelsOf(rest));
      SealableAfter(g, h, cur, c, LabelsIn(s), LoopsIn(s), loops);
      SealsBlock(main, h, c, rest, loops);
      var (k, c2) := LowerBlock(main, h, c, rest);
      FrameBlock(main, h, c, rest);
      SealedThen(g, h, k, cur, c, LabelsIn(s), LoopsIn(s), LabelsOf(rest), LoopsOf(rest), {c}, {c2});
      assert {c} - {c} + {c2} == {c2};
  }

  lemma SealableAfter(g: Gen, h: Gen, cur: nat, c: nat, ls: set<nat>, xs: set<nat>, loops: set<nat>)
    requires Frame(g, h, cur, ls, xs) && loops <= g.exits.Keys && Sealed(g, h, cur, ls, {c})
    ensures Sealable(h, c, loops)
  {
  }

  lemma FramesOfBranches(main: bool, g: Gen, cur: nat, s: Statement)
    requires s.Conditional? && Valid(g) && cur < |g.blocks|
    ensures var x := LowerBranches(main, g, s);
      var lt, xt := LabelsOf(s.trueBranch), LoopsOf(s.trueBranch);
      && Frame(g, NewBlock(g), cur, {}, {}) && Frame(NewBlock(g), x.g1, |g.blocks|, lt, xt)
      && Frame(g, x.g1, cur, lt, xt) && Frame(g, NewBlock(x.g1), cur, lt, xt)
      && Frame(NewBlock(x.g1), x.g2, |x.g1.blocks|, LabelsOf(s.falseBranch), LoopsOf(s.falseBranch))
      && Frame(g, x.g2, cur, LabelsIn(s), LoopsIn(s)) && Frame(g, NewBlock(x.g2), cur, LabelsIn(s), LoopsIn(s))
  {
    hide Frame, Owns, LowerBlock;
    var (g1, te) := LowerBlock(main, NewBlock(g), |g.blocks|, s.trueBranch);
    var (g2, fe) := LowerBlock(main, NewBlock(g1), |g1.blocks|, s.falseBranch);
    var lt, xt := LabelsOf(s.trueBranch), LoopsOf(s.trueBranch);
    FrameNewBlock(g, cur);
    FrameBlock(main, NewBlock(g), |g.blocks|, s.trueBranch);
    Chain(g, NewBlock(g), g1, cur, |g.blocks|, {}, {}, lt, xt, cur, te, lt, xt);
    FrameFresh(g, g1, cur, lt, xt, te);
    FrameBlock(main, NewBlock(g1), |g1.blocks|, s.falseBranch);
    Chain(g, NewBlock(g1), g2, cur, |g1.blocks|, lt, xt, LabelsOf(s.falseBranch), LoopsOf(s.falseBranch),
          te, fe, LabelsIn(s), LoopsIn(s));
    FrameFresh(g, g2, cur, LabelsIn(s), LoopsIn(s), te);
  }

  lemma LabelsOfBranch(main: bool, g: Gen, cur: nat, block: Block)
    ensures forall l <- LabelsOf(block) :: l in LowerBlock(main, g, cur, block).0.labels
  {
    hide LowerBlock;
    LabelsKnownOf(main, g, cur, block);
  }

  lemma SealableBranch(g: Gen, loops: set<nat>)
    requires Valid(NewBlock(g)) && loops <= g.exits.Keys
    ensures Sealable(NewBlock(g), |g.blocks|, loops)
  {
  }

  lemma ExitKeysKept(g: Gen, h: Gen, cur: nat, ls: set<nat>, xs: set<nat>, loops: set<nat>)
    requires Frame(g, h, cur, ls, xs) && loops <= g.exits.Keys
    ensures loops <= h.exits.Keys
  {
  }

  lemma {:induction false} SealsConditional(main: bool, g: Gen, cur: nat, s: Statement, loops: set<nat>)
    requires s.Conditional? && Sealable(g, cur, loops) && Fresh(g, cur, LabelsIn(s))
    requires FormedStatement(s, loops) && UniqueLabelsIn(s) && NoReturnIn(s)
    ensures Seals(main, g, cur, s)
    decreases s, 0
  {
    hide Frame, Owns, Sealed, Away, CompileExpression, Fresh, LowerBlock, Open;
    var x := LowerBranches(main, g, s);
    var tb, fb := |g.blocks|, |x.g1.blocks|;
    var lt, lf := LabelsOf(s.trueBranch), LabelsOf(s.falseBranch);
    var xt, xf := LoopsOf(s.trueBranch), LoopsOf(s.falseBranch);
    FrameBranches(main, g, cur, s);
    FramesOfBranches(main, g, cur, s);
    ConditionalEnd(main, g, cur, s);
    hide LowerBranches;
    FrameReflexive(g, cur);
    SealedStart(g, cur);
    SealedNewBlock(g, g, cur, {}, {}, {cur});
    SealableBranch(g, loops);
    SealsBlock(main, NewBlock(g), tb, s.trueBranch, loops);
    SealedThen(g, NewBlock(g), x.g1, cur, tb, {}, {}, lt, xt, {cur} + {tb}, {x.te});
    assert {} + lt == lt && {cur} + {tb} - {tb} + {x.te} == {cur, x.te};
    SealedNewBlock(g, x.g1, cur, lt, xt, {cur, x.te});
    ExitKeysKept(g, x.g1, cur, lt, xt, loops);
    SealableBranch(x.g1, loops);
    SealsBlock(main, NewBlock(x.g1), fb, s.falseBranch, loops);
    LabelsOfBranch(main, NewBlock(g), tb, s.trueBranch);
    SealedThen(g, NewBlock(x.g1), x.g2, cur, fb, lt, xt, lf, xf, {cur, x.te} + {fb}, {x.fe});
    assert lt + lf == LabelsIn(s) && {cur, x.te} + {fb} - {fb} + {x.fe} == {cur, x.te, x.fe};
    SealsClose(g, x.g2, cur, LabelsIn(s), LoopsIn(s), s.condition, tb, x.te, fb, x.fe);
  }

  lemma SealsClose(g: Gen, g2: Gen, cur: nat, ls: set<nat>, xs: set<nat>, c: Expression, tb: nat, te: nat, fb: nat, fe: nat)
    requires Frame(g, g2, cur, ls, xs) && Frame(g, NewBlock(g2), cur, ls, xs)
    requires Sealed(g, g2, cur, ls, {cur, te, fe}) && cur != te && cur != fe && te != fe
    requires cur < |g2.blocks| && te < |g2.blocks| && fe < |g2.blocks|
    ensures Sealed(g, CloseConditional(g2, cur, c, tb, te, fb, fe), cur, ls, {|g2.blocks|})
  {
    hide Frame, Owns, Sealed, CompileExpression;
    var k := CompileExpression(g2.nextReg, c);
    var cb := |g2.blocks|;
    var br := [Br(cb)];
    var code := k.code + [CondBr(k.result, tb, fb)];
    ExpressionIsOpen(g2.nextReg, c);
    TerminatedBy(k.code, CondBr(k.result, tb, fb));
    TerminatedBy([], Br(cb));
    SealedNewBlock(g, g2, cur, ls, xs, {cur, te, fe});
    OwnsOpen(g, NewBlock(g2), cur, ls, {cur, te, fe} + {cb});
    SealedEmit(g, NewBlock(g2), cur, ls, xs, {cur, te, fe} + {cb}, cur, code);
    FrameEmit(g, NewBlock(g2), cur, ls, xs, cur, code);
    var h1 := EmitCode(NewBlock(g2), cur, code, k.next);
    FrameRegister(g, Emit(NewBlock(g2), cur, code), cur, ls, xs, k.next);
    SealedRegister(g, Emit(NewBlock(g2), cur, code), cur, ls, {cur, te, fe} + {cb} - {cur}, k.next);
    assert {cur, te, fe} + {cb} - {cur} == {te, fe, cb};
    OwnsOpen(g, h1, cur, ls, {te, fe, cb});
    SealedEmit(g, h1, cur, ls, xs, {te, fe, cb}, te, br);
    FrameEmit(g, h1, cur, ls, xs, te, br);
    assert {te, fe, cb} - {te} == {fe, cb};
    SealedEmit(g, Emit(h1, te, br), cur, ls, xs, {fe, cb}, fe, br);
    assert {fe, cb} - {fe} == {cb};
  }

  lemma OwnsOpen(g: Gen, h: Gen, cur: nat, ls: set<nat>, open: set<nat>)
    requires Sealed(g, h, cur, ls, open)
    ensures forall b <- open :: Owns(g, h, cur, ls, b)
  {
  }

  lemma SealedRegister(g: Gen, h: Gen, cur: nat, ls: set<nat>, open: set<nat>, next: nat)
    requires Sealed(g, h, cur, ls, open)
    ensures Sealed(g, h.(nextReg := next), cur, ls, open)
  {
  }

  lemma TerminatedBy(code: seq<Instr>, i: Instr)
    requires Open(code) && IsVoidTerminator(i)
    ensures Terminated(code + [i]) && Terminated([i])
  {
    assert (code + [i])[..|code|] == code;
  }

  lemma SealedOpenLoop(g: Gen, cur: nat, loop: nat)
    requires Valid(g) && cur < |g.blocks| && Open(g.blocks[cur])
    ensures Sealed(g, OpenLoop(g, loop), cur, {}, {cur, |g.blocks|, |g.blocks| + 1})
  {
  }

  /** Before its body an infinite loop has opened the block of the body and the one after the loop. */
  lemma SealsOpenLoop(g: Gen, cur: nat, s: Statement, loops: set<nat>)
    requires s.InfiniteLoop? && Sealable(g, cur, loops) && Fresh(g, cur, LabelsOf(s.body))
    ensures var (g0, lb) := (OpenLoop(g, s.loop), |g.blocks|);
      && Frame(g, g0, cur, {}, {s.loop}) && Owns(g, g0, cur, {}, lb) && Owns(g, g0, cur, {}, lb + 1) && Owns(g, g0, cur, {}, cur)
      && Sealed(g, g0, cur, {}, {cur, lb, lb + 1})
      && Fresh(g0, lb, LabelsOf(s.body)) && Sealable(g0, lb, loops + {s.loop})
      && Away(g0, LabelsOf(s.body), cur) && Away(g0, LabelsOf(s.body), lb + 1)
  {
    hide Frame, Owns, Sealed, Away, Fresh, Open, MoveAfter;
    FrameOpenLoop(g, cur, s.loop);
    SealedOpenLoop(g, cur, s.loop);
    FreshAfter(g, OpenLoop(g, s.loop), cur, |g.blocks|, {}, {s.loop}, LabelsOf(s.body));
    FreshIsAway(g, cur, LabelsOf(s.body));
    OpenLoopAway(g, s.loop, LabelsOf(s.body), cur);
    SealableLoop(g, s.loop, loops);
  }

  /** Behind its body the block where the body ends takes the place of the one where it began. */
  lemma SealsThrough(g: Gen, g0: Gen, g1: Gen, cur: nat, mid: nat, end: nat, le: nat, loop: nat,
                     ls: set<nat>, xs: set<nat>, open: set<nat>)
    requires Frame(g, g0, cur, {}, {loop}) && Sealed(g, g0, cur, {}, open) && mid in open && end in open && end != mid
    requires Frame(g0, g1, mid, ls, xs) && Owns(g0, g1, mid, ls, le) && Sealed(g0, g1, mid, ls, {le})
    requires forall b <- open :: b != mid ==> Away(g0, ls, b)
    ensures Frame(g, g1, cur, ls, {loop} + xs) && Sealed(g, g1, cur, ls, open - {mid} + {le})
    ensures forall b <- open :: b != mid ==> b != le && b < |g1.blocks|
    ensures le < |g1.blocks|
  {
    hide Frame, Owns, Sealed, Away, Open;
    OwnsOpen(g, g0, cur, {}, open);
    SealedThen(g, g0, g1, cur, mid, {}, {loop}, ls, xs, open, {le});
    assert {} + ls == ls;
    Chain(g, g0, g1, cur, mid, {}, {loop}, ls, xs, end, le, ls, {loop} + xs);
    OwnedExist(g, g1, cur, ls);
    forall b | b in open && b != mid ensures b != le && b < |g1.blocks| {
      AwayExists(g0, ls, b);
      StaysAway(g0, g1, mid, ls, xs, le, b, {});
    }
  }

  lemma AwayExists(g: Gen, ls: set<nat>, b: nat)
    requires Away(g, ls, b)
    ensures b < |g.blocks| && Away(g, {}, b)
  {
  }

  lemma {:induction false} SealsLoop(main: bool, g: Gen, cur: nat, s: Statement, loops: set<nat>)
    requires s.InfiniteLoop? && Sealable(g, cur, loops) && Fresh(g, cur, LabelsIn(s))
    requires FormedStatement(s, loops) && UniqueLabelsIn(s) && NoReturnIn(s)
    ensures Seals(main, g, cur, s)
    decreases s, 0
  {
    hide Frame, Owns, Sealed, Away, Fresh, LowerBlock, Open, MoveAfter, CloseLoop, OpenLoop, Sealable;
    var g0, lb := OpenLoop(g, s.loop), |g.blocks|;
    var (g1, le) := LowerBlock(main, g0, lb, s.body);
    SealsOpenLoop(g, cur, s, loops);
    SealsBlock(main, g0, lb, s.body, loops + {s.loop});
    SealableIs(g, cur, loops);
    SealableIs(g0, lb, loops + {s.loop});
    FrameBlock(main, g0, lb, s.body);
    SealsThrough(g, g0, g1, cur, lb, lb + 1, le, s.loop, LabelsOf(s.body), LoopsOf(s.body), {cur, lb, lb + 1});
    assert {cur, lb, lb + 1} - {lb} + {le} == {cur, lb + 1, le};
    SealsCloseLoop(g, g1, cur, LabelsIn(s), LoopsIn(s), lb, le);
  }

  lemma SealableIs(g: Gen, cur: nat, loops: set<nat>)
    requires Sealable(g, cur, loops)
    ensures Valid(g) && cur < |g.blocks|
  {
  }

  lemma SealableLoop(g: Gen, loop: nat, loops: set<nat>)
    requires Valid(OpenLoop(g, loop)) && loops <= g.exits.Keys
    ensures Sealable(OpenLoop(g, loop), |g.blocks|, loops + {loop})
  {
  }

  lemma SealsCloseLoop(g: Gen, g1: Gen, cur: nat, ls: set<nat>, xs: set<nat>, lb: nat, le: nat)
    requires Frame(g, g1, cur, ls, xs) && Sealed(g, g1, cur, ls, {cur, lb + 1, le})
    requires cur != le && cur != lb + 1 && le != lb + 1
    ensures Sealed(g, CloseLoop(g1, cur, lb, le), cur, ls, {lb + 1})
  {
    hide Frame, Owns, Sealed, MoveAfter;
    var br := [Br(lb)];
    var h0 := MoveAfter(g1, lb + 1, le);
    TerminatedBy([], Br(lb));
    FrameMove(g, g1, cur, ls, xs, lb + 1, le);
    SealedMove(g, g1, cur, ls, {cur, lb + 1, le}, lb + 1, le);
    OwnsOpen(g, h0, cur, ls, {cur, lb + 1, le});
    SealedEmit(g, h0, cur, ls, xs, {cur, lb + 1, le}, cur, br);
    FrameEmit(g, h0, cur, ls, xs, cur, br);
    assert {cur, lb + 1, le} - {cur} == {lb + 1, le};
    SealedEmit(g, Emit(h0, cur, br), cur, ls, xs, {lb + 1, le}, le, br);
    assert {lb + 1, le} - {le} == {lb + 1};
  }

  lemma SealedMove(g: Gen, h: Gen, cur: nat, ls: set<nat>, open: set<nat>, b: nat, after: nat)
    requires Sealed(g, h, cur, ls, open)
    ensures Sealed(g, MoveAfter(h, b, after), cur, ls, open)
  {
  }

  lemma ForCodeTerminated(n: nat, r: nat, counter: Variable, end: Expression, step: Expression)
    ensures var c := CompileFor(n, r, counter, end, step);
      Terminated(c.condition) && Terminated(c.positive) && Terminated(c.check) && Terminated(c.negative)
  {
    hide CompileExpression;
    var e := CompileExpression(r + 1, end);
    var s := CompileExpression(e.next, step);
    ExpressionIsOpen(r + 1, end);
    ExpressionIsOpen(e.next, step);
    var zero := Constant(Value(WidthOrVoid(ExpressionWidth(step)), 0));
    var c, t := Defined(r, Load(r, counter)), s.next;
    TestTerminated(t, Sgt, s.result, zero, n + 1, n + 2);
    OpenConcat([Load(r, counter)] + e.code + s.code, TestCode(t, Sgt, s.result, zero, n + 1, n + 2));
    TestTerminated(t + 2, Sle, c, e.result, n + 4, n + 5);
    TestTerminated(t + 1, Slt, s.result, zero, n + 3, n + 5);
    TestTerminated(t + 3, Sge, c, e.result, n + 4, n + 5);
  }

  lemma TestTerminated(r: nat, op: Opcode, a: Operand, b: Operand, ifTrue: nat, ifFalse: nat)
    ensures Terminated(TestCode(r, op, a, b, ifTrue, ifFalse))
  {
  }

  lemma SealedOpenFor(g: Gen, cur: nat, s: Statement)
    requires s.ForLoop? && Valid(g) && cur < |g.blocks| && Open(g.blocks[cur])
    ensures Sealed(g, OpenForLoop(g, cur, s), cur, {}, {|g.blocks| + 4, |g.blocks| + 5})
  {
    hide CompileExpression, CompileFor, Frame, Owns, Sealed, OpenFor;
    var h := OpenForLoop(g, cur, s);
    FrameOpenFor(g, cur, s.loop, s.counter, s.init, s.end, s.step);
    OpenForBlocks(g, cur, s);
    var init := CompileExpression(g.nextReg, s.init);
    ForCodeTerminated(|g.blocks|, init.next, s.counter, s.end, s.step);
    ExpressionIsOpen(g.nextReg, s.init);
    var code := init.code + [Store(s.counter, init.result)];
    TerminatedBy(code, Br(|g.blocks|));
    assert code + [Br(|g.blocks|)] == init.code + [Store(s.counter, init.result), Br(|g.blocks|)];
    OpenConcat(g.blocks[cur], code + [Br(|g.blocks|)]);
    SealedSix(g, h, cur);
  }

  lemma SealedSix(g: Gen, h: Gen, cur: nat)
    requires Valid(g) && cur < |g.blocks| && h.labels == g.labels && |h.blocks| == |g.blocks| + 6
    requires Terminated(h.blocks[cur]) && h.blocks[|g.blocks| + 4] == [] && h.blocks[|g.blocks| + 5] == []
    requires forall b :: |g.blocks| <= b < |g.blocks| + 4 ==> Terminated(h.blocks[b])
    ensures Sealed(g, h, cur, {}, {|g.blocks| + 4, |g.blocks| + 5})
  {
    hide Terminated;
  }

  /** Before its body a for loop has finished everything but the body and its end. */
  lemma SealsOpenFor(g: Gen, cur: nat, s: Statement, loops: set<nat>)
    requires s.ForLoop? && Sealable(g, cur, loops) && Fresh(g, cur, LabelsOf(s.body))
    ensures var (g0, n) := (OpenForLoop(g, cur, s), |g.blocks|);
      && Frame(g, g0, cur, {}, {s.loop}) && Sealed(g, g0, cur, {}, {n + 4, n + 5})
      && Fresh(g0, n + 4, LabelsOf(s.body)) && Sealable(g0, n + 4, loops + {s.loop})
      && Away(g0, LabelsOf(s.body), n + 5)
  {
    hide Frame, Owns, Sealed, Away, Fresh, Open, OpenFor, CompileExpression;
    var n := |g.blocks|;
    var g0 := OpenForLoop(g, cur, s);
    FrameOpenFor(g, cur, s.loop, s.counter, s.init, s.end, s.step);
    SealedOpenFor(g, cur, s);
    FreshAfter(g, g0, cur, n + 4, {}, {s.loop}, LabelsOf(s.body));
    SealableFor(g0, n + 4, loops + {s.loop});
    NewIsAway(g, g0, cur, s.loop, LabelsOf(s.body), n + 5);
  }

  lemma {:induction false} SealsFor(main: bool, g: Gen, cur: nat, s: Statement, loops: set<nat>)
    requires s.ForLoop? && Sealable(g, cur, loops) && Fresh(g, cur, LabelsIn(s))
    requires FormedStatement(s, loops) && UniqueLabelsIn(s) && NoReturnIn(s)
    ensures Seals(main, g, cur, s)
    decreases s, 0
  {
    hide Frame, Owns, Sealed, Away, Fresh, LowerBlock, Open, OpenFor, CloseFor, Formed, CompileExpression, Sealable;
    var n := |g.blocks|;
    var g0 := OpenForLoop(g, cur, s);
    var (g1, le) := LowerBlock(main, g0, n + 4, s.body);
    SealsOpenFor(g, cur, s, loops);
    SealsBlock(main, g0, n + 4, s.body, loops + {s.loop});
    SealableIs(g0, n + 4, loops + {s.loop});
    FrameBlock(main, g0, n + 4, s.body);
    SealsThrough(g, g0, g1, cur, n + 4, n + 5, le, s.loop, LabelsOf(s.body), LoopsOf(s.body), {n + 4, n + 5});
    assert {n + 4, n + 5} - {n + 4} + {le} == {n + 5, le};
    SealsCloseFor(g, g1, cur, LabelsIn(s), LoopsIn(s), s.counter, s.step, n, le);
  }

  lemma SealableFor(g: Gen, b: nat, loops: set<nat>)
    requires Valid(g) && b < |g.blocks| && g.blocks[b] == [] && loops <= g.exits.Keys
    ensures Sealable(g, b, loops)
  {
  }

  lemma NewIsAway(g: Gen, h: Gen, cur: nat, loop: nat, ls: set<nat>, b: nat)
    requires Valid(g) && h.labels == g.labels && |g.blocks| <= b < |h.blocks|
    ensures Away(h, ls, b)
  {
  }

  lemma SealsCloseFor(g: Gen, g1: Gen, cur: nat, ls: set<nat>, xs: set<nat>, counter: Variable, step: Expression, n: nat, le: nat)
    requires Frame(g, g1, cur, ls, xs) && Sealed(g, g1, cur, ls, {n + 5, le}) && le != n + 5
    requires le < |g1.blocks| && n + 5 < |g1.blocks|
    ensures Sealed(g, CloseFor(g1, counter, step, n, le), cur, ls, {n + 5})
  {
    hide Frame, Owns, Sealed, CompileIncrement;
    var inc := |g1.blocks|;
    var h0 := NewBlock(g1);
    OwnsOpen(g, g1, cur, ls, {n + 5, le});
    FrameFresh(g, g1, cur, ls, xs, le);
    SealedNewBlock(g, g1, cur, ls, xs, {n + 5, le});
    TerminatedBy([], Br(inc));
    SealedEmit(g, h0, cur, ls, xs, {n + 5, le} + {inc}, le, [Br(inc)]);
    FrameEmit(g, h0, cur, ls, xs, le, [Br(inc)]);
    assert {n + 5, le} + {inc} - {le} == {n + 5, inc};
    var h1 := Emit(h0, le, [Br(inc)]);
    var c := CompileIncrement(h1.nextReg, counter, step);
    IncrementIsOpen(h1.nextReg, counter, step);
    TerminatedBy(c.code, Br(n));
    SealedEmit(g, h1, cur, ls, xs, {n + 5, inc}, inc, c.code + [Br(n)]);
    assert {n + 5, inc} - {inc} == {n + 5};
    SealedRegister(g, Emit(h1, inc, c.code + [Br(n)]), cur, ls, {n + 5}, c.next);
  }

  lemma IncrementIsOpen(r: nat, counter: Variable, step: Expression)
    ensures Open(CompileIncrement(r, counter, step).code)
  {
    ExpressionIsOpen(r + 1, step);
  }

  // What statements emit.

  /** Code emitted somewhere on the way from `g0` to `h` makes its block longer. */
  lemma Longer(g0: Gen, a: Gen, b: nat, code: seq<Instr>, h: Gen)
    requires Extends(g0, a) && Extends(Emit(a, b, code), h) && b < |g0.blocks| && code != []
    ensures b < |h.blocks| && |h.blocks[b]| > |g0.blocks[b]|
  {
    assert g0.blocks[b] <= a.blocks[b];
    assert Emit(a, b, code).blocks[b] <= h.blocks[b];
  }

  lemma ExtendsSelf(g: Gen)
    ensures Extends(g, g)
  {
  }

  /** What a conditional adds to its insertion block and to the ends of its branches. */
  lemma ConditionalGrows(main: bool, g: Gen, cur: nat, s: Statement)
    requires s.Conditional? && Valid(g) && cur < |g.blocks|
    ensures var h := LowerStatement(main, g, cur, s).0;
      var x := LowerBranches(main, g, s);
      && Extends(g, h) && Extends(x.g1, h) && Extends(x.g2, h)
      && cur < |h.blocks| && |h.blocks[cur]| > |g.blocks[cur]|
      && x.te < |x.g1.blocks| && x.te < |h.blocks| && |h.blocks[x.te]| > |x.g1.blocks[x.te]|
      && x.fe < |x.g2.blocks| && x.fe < |h.blocks| && |h.blocks[x.fe]| > |x.g2.blocks[x.fe]|
  {
    hide LowerBlock, Frame, Owns, Extends, CompileExpression, Valid;
    var x := LowerBranches(main, g, s);
    ConditionalEnd(main, g, cur, s);
    BranchEnds(main, g, cur, s);
    var cb := |x.g2.blocks|;
    var k := CompileExpression(x.g2.nextReg, s.condition);
    var code := k.code + [CondBr(k.result, |g.blocks|, |x.g1.blocks|)];
    var h0 := NewBlock(x.g2);
    var h1 := EmitCode(h0, cur, code, k.next);
    var h2 := Emit(h1, x.te, [Br(cb)]);
    var h := Emit(h2, x.fe, [Br(cb)]);
    assert LowerStatement(main, g, cur, s).0 == h;
    hide LowerBranches, LowerStatement;
    ExtendsNewBlock(x.g2);
    ExtendsTransitive(x.g1, x.g2, h0);
    ExtendsTransitive(g, x.g1, h0);
    ExtendsEmit(h0, cur, code);
    ExtendsRegister(Emit(h0, cur, code), k.next, h);
    ExtendsInto(Emit(h0, cur, code), k.next, h0);
    ExtendsEmit(h1, x.te, [Br(cb)]);
    ExtendsEmit(h2, x.fe, [Br(cb)]);
    ExtendsTransitive(h1, h2, h);
    ExtendsTransitive(x.g2, h0, h1);
    ExtendsTransitive(x.g2, h1, h2);
    ExtendsTransitive(x.g2, h2, h);
    ExtendsTransitive(x.g1, x.g2, h1);
    ExtendsTransitive(x.g1, x.g2, h);
    ExtendsTransitive(g, h0, h1);
    ExtendsTransitive(g, h1, h);
    ExtendsSelf(h);
    Longer(g, h0, cur, code, h);
    Longer(x.g1, h1, x.te, [Br(cb)], h);
    Longer(x.g2, h2, x.fe, [Br(cb)], h);
  }

  lemma ExtendsInto(g: Gen, next: nat, f: Gen)
    ensures Extends(f, g.(nextReg := next)) <==> Extends(f, g)
  {
  }

  lemma BranchEnds(main: bool, g: Gen, cur: nat, s: Statement)
    requires s.Conditional? && Valid(g) && cur < |g.blocks|
    ensures var x := LowerBranches(main, g, s);
      && Extends(g, x.g1) && Extends(x.g1, x.g2) && x.te < |x.g1.blocks| && x.fe < |x.g2.blocks|
      && Valid(NewBlock(g)) && Valid(NewBlock(x.g1))
  {
    hide LowerBlock, Frame, Owns, Extends, Valid;
    var (g1, te) := LowerBlock(main, NewBlock(g), |g.blocks|, s.trueBranch);
    var (g2, fe) := LowerBlock(main, NewBlock(g1), |g1.blocks|, s.falseBranch);
    FrameNewBlock(g, cur);
    FrameBlock(main, NewBlock(g), |g.blocks|, s.trueBranch);
    FrameFacts(NewBlock(g), g1, |g.blocks|, LabelsOf(s.trueBranch), LoopsOf(s.trueBranch), te);
    FrameNewBlock(g1, te);
    FrameBlock(main, NewBlock(g1), |g1.blocks|, s.falseBranch);
    FrameFacts(NewBlock(g1), g2, |g1.blocks|, LabelsOf(s.falseBranch), LoopsOf(s.falseBranch), fe);
    ExtendsNewBlock(g);
    ExtendsNewBlock(g1);
    ExtendsTransitive(g, NewBlock(g), g1);
    ExtendsTransitive(g1, NewBlock(g1), g2);
  }

  /** Likewise for a loop, whose body is generated from `g0` to `g1`. */
  lemma LoopGrows(main: bool, g: Gen, cur: nat, s: Statement)
    requires s.InfiniteLoop? && Valid(g) && cur < |g.blocks|
    ensures var h := LowerStatement(main, g, cur, s).0;
      var g0 := OpenLoop(g, s.loop);
      var (g1, le) := LowerBlock(main, g0, |g.blocks|, s.body);
      && Valid(g0) && Extends(g, h) && Extends(g1, h)
      && cur < |h.blocks| && |h.blocks[cur]| > |g.blocks[cur]|
      && le < |g1.blocks| && le < |h.blocks| && |h.blocks[le]| > |g1.blocks[le]|
  {
    hide LowerBlock, Frame, Owns, Extends, Valid, MoveAfter;
    var lb := |g.blocks|;
    var g0 := OpenLoop(g, s.loop);
    var (g1, le) := LowerBlock(main, g0, lb, s.body);
    FrameOpenLoop(g, cur, s.loop);
    FrameFacts(g, g0, cur, {}, {s.loop}, cur);
    FrameBlock(main, g0, lb, s.body);
    FrameFacts(g0, g1, lb, LabelsOf(s.body), LoopsOf(s.body), le);
    var h0 := MoveAfter(g1, lb + 1, le);
    var h1 := Emit(h0, cur, [Br(lb)]);
    var h := Emit(h1, le, [Br(lb)]);
    ExtendsMove(g1, lb + 1, le);
    ExtendsEmit(h0, cur, [Br(lb)]);
    ExtendsEmit(h1, le, [Br(lb)]);
    ExtendsTransitive(g, g0, g1);
    ExtendsTransitive(g, g1, h0);
    ExtendsTransitive(g1, h0, h1);
    ExtendsTransitive(g1, h1, h);
    ExtendsTransitive(g, g1, h);
    ExtendsSelf(h);
    Longer(g, h0, cur, [Br(lb)], h);
    Longer(g1, h1, le, [Br(lb)], h);
  }

  lemma ForGrows(main: bool, g: Gen, cur: nat, s: Statement)
    requires s.ForLoop? && Valid(g) && cur < |g.blocks|
    ensures var h := LowerStatement(main, g, cur, s).0;
      var g0 := OpenForLoop(g, cur, s);
      var (g1, le) := LowerBlock(main, g0, |g.blocks| + 4, s.body);
      && Valid(g0) && |g.blocks| + 4 < |g0.blocks| && Extends(g, h) && Extends(g1, h)
      && cur < |h.blocks| && |h.blocks[cur]| > |g.blocks[cur]|
      && le < |g1.blocks| && le < |h.blocks| && |h.blocks[le]| > |g1.blocks[le]|
  {
    hide LowerBlock, Frame, Owns, Extends, Valid, OpenFor, CloseFor, CompileExpression, ForBlocks;
    var n := |g.blocks|;
    var g0 := OpenForLoop(g, cur, s);
    var (g1, le) := LowerBlock(main, g0, n + 4, s.body);
    FrameOpenFor(g, cur, s.loop, s.counter, s.init, s.end, s.step);
    FrameFacts(g, g0, cur, {}, {s.loop}, n + 4);
    FrameBlock(main, g0, n + 4, s.body);
    FrameFacts(g0, g1, n + 4, LabelsOf(s.body), LoopsOf(s.body), le);
    OpenForBlocks(g, cur, s);
    var h := CloseFor(g1, s.counter, s.step, n, le);
    ExtendsCloseFor(g1, s.counter, s.step, n, le);
    ExtendsTransitive(g, g0, g1);
    ExtendsTransitive(g, g1, h);
    ExtendsTransitive(g0, g1, h);
    KeepsLength(g0, h, cur);
    CloseForGrows(g1, s.counter, s.step, n, le);
  }

  lemma KeepsLength(g: Gen, h: Gen, b: nat)
    requires Extends(g, h) && b < |g.blocks|
    ensures b < |h.blocks| && |h.blocks[b]| >= |g.blocks[b]|
  {
    assert g.blocks[b] <= h.blocks[b];
  }

  lemma CloseForGrows(g: Gen, counter: Variable, step: Expression, n: nat, le: nat)
    requires le < |g.blocks|
    ensures var h := CloseFor(g, counter, step, n, le); le < |h.blocks| && |h.blocks[le]| > |g.blocks[le]|
  {
    hide CompileIncrement;
  }
}
