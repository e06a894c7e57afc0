/** Moving through a block keeps the correspondence between program and generated code. */
module MatchingLemmas {
  import opened Words
  import opened Ir
  import opened Lowering
  import opened LoweringFrames
  import opened ExpressionLowering
  import opened Matching
  import L = Llvm
  import S = Semantics

  lemma {:induction false} FormedStatementLoops(s: Statement, enclosing: set<nat>)
    requires FormedStatement(s, enclosing)
    ensures LoopsIn(s) !! enclosing
    decreases s, 0
  {
    match s
    case Conditional(_, t, f) => FormedBlockLoops(t, enclosing); FormedBlockLoops(f, enclosing);
    case InfiniteLoop(loop, body) => FormedBlockLoops(body, enclosing + {loop});
    case ForLoop(loop, _, _, _, _, body) => FormedBlockLoops(body, enclosing + {loop});
    case _ =>
  }

  lemma {:induction false} FormedBlockLoops(b: Block, enclosing: set<nat>)
    requires FormedBlock(b, enclosing)
    ensures LoopsOf(b) !! enclosing
    decreases b, 0
  {
    match b
    case End =>
    case Then(s, rest) => FormedStatementLoops(s, enclosing); FormedBlockLoops(rest, enclosing);
  }

  /** The expressions of a statement. */
  lemma LowerableParts(main: bool, s: Statement, loops: set<nat>)
    requires LowerableStatement(main, s, loops)
    ensures s.Conditional? ==> Lowerable(s.condition) && ExpressionWidth(s.condition) == Some(W1)
    ensures s.Assignment? ==>
      Lowerable(s.expression) && HasValues(s.variable.typ) && ExpressionWidth(s.expression) == WidthOf(s.variable.typ)
    ensures s.FunctionCall? && !S.EndsProgram(main, s.callee) ==>
      FormedAll(s.arguments) && AllValuesExist(s.arguments) && Returns(s.callee, s.returnType)
    ensures s.ExitFunction? ==> Lowerable(s.expression)
    ensures s.ForLoop? ==>
      && HasValues(s.counter.typ)
      && Lowerable(s.init) && ExpressionWidth(s.init) == WidthOf(s.counter.typ)
      && Lowerable(s.end) && ExpressionWidth(s.end) == WidthOf(s.counter.typ)
      && Lowerable(s.step) && ExpressionWidth(s.step) == WidthOf(s.counter.typ)
  {
  }

  /** Only the entries of active loops matter. */
  lemma {:induction false} ExitsAgree(main: bool, f: Gen, e1: map<nat, nat>, e2: map<nat, nat>, k: S.Continuation)
    requires MatchExits(main, f, e1, k)
    requires forall x <- ActiveLoops(k) :: x in e1 ==> x in e2 && e2[x] == e1[x]
    ensures MatchExits(main, f, e2, k)
  {
    match k
    case Return =>
    case Sequel(_, next) => ExitsAgree(main, f, e1, e2, next);
    case Iterate(_, _, _, next) => ExitsAgree(main, f, e1, e2, next);
    case Count(_, _, _, _, _, _, next) => ExitsAgree(main, f, e1, e2, next);
  }

  lemma FreshAfter(g: Gen, h: Gen, cur: nat, c: nat, ls1: set<nat>, xs1: set<nat>, ls2: set<nat>)
    requires Frame(g, h, cur, ls1, xs1) && Owns(g, h, cur, ls1, c)
    requires ls1 !! ls2 && Fresh(g, cur, ls2)
    ensures Fresh(h, c, ls2)
  {
  }

  lemma ReadyAfter(main: bool, f: Gen, g: Gen, cur: nat, s: Statement, rest: Block, loops: set<nat>)
    requires Ready(main, f, g, cur, Then(s, rest), loops)
    ensures var (h, c) := LowerStatement(main, g, cur, s);
      Ready(main, f, h, c, rest, loops) && Extends(h, f)
      && Frame(g, h, cur, LabelsIn(s), LoopsIn(s)) && LoopsIn(s) !! loops
  {
    hide Frame, Owns, Extends, LowerStatement, Fresh, Valid;
    hide LowerableStatement, UniqueLabelsIn, LabelsIn, LoopsIn;
    var (h, c) := LowerStatement(main, g, cur, s);
    FrameStatement(main, g, cur, s);
    FrameFacts(g, h, cur, LabelsIn(s), LoopsIn(s), c);
    FrameBlock(main, h, c, rest);
    var (h2, c2) := LowerBlock(main, h, c, rest);
    FrameFacts(h, h2, c, LabelsOf(rest), LoopsOf(rest), c2);
    ExtendsTransitive(h, h2, f);
    FreshLess(g, cur, LabelsOf(Then(s, rest)), LabelsOf(rest));
    FreshAfter(g, h, cur, c, LabelsIn(s), LoopsIn(s), LabelsOf(rest));
    FormedStatementLoops(s, loops);
  }

  lemma EndsAfter(main: bool, g: Gen, cur: nat, s: Statement, rest: Block, b: nat, i: nat)
    requires EndsAt(main, g, cur, Then(s, rest), b, i)
    ensures var (h, c) := LowerStatement(main, g, cur, s); EndsAt(main, h, c, rest, b, i)
  {
    hide LowerStatement;
  }

  /** The state after generating the first statement of a block. */
  lemma AfterStatement(main: bool, f: Gen, g: Gen, cur: nat, s: Statement, rest: Block, k: S.Continuation)
    requires MatchBlock(main, f, g, cur, Then(s, rest), k)
    ensures var (h, c) := LowerStatement(main, g, cur, s);
      MatchBlock(main, f, h, c, rest, k) && Extends(h, f) && c < |h.blocks|
      && Frame(g, h, cur, LabelsIn(s), LoopsIn(s))
  {
    hide Frame, Extends, MatchExits, MatchNext, LowerStatement, EndsAt;
    var (h, c) := LowerStatement(main, g, cur, s);
    ReadyAfter(main, f, g, cur, s, rest, ActiveLoops(k));
    ReadyCurrent(main, f, h, c, rest, ActiveLoops(k));
    hide Ready;
    ExitsKept(main, f, g, h, cur, LabelsIn(s), LoopsIn(s), k);
    var b: nat, i: nat :| EndsAt(main, g, cur, Then(s, rest), b, i) && MatchNext(main, f, k, b, i);
    EndsAfter(main, g, cur, s, rest, b, i);
  }

  lemma ReadyCurrent(main: bool, f: Gen, g: Gen, cur: nat, block: Block, loops: set<nat>)
    requires Ready(main, f, g, cur, block, loops)
    ensures cur < |g.blocks| && Valid(g) && Fresh(g, cur, LabelsOf(block))
  {
  }

  lemma FreshLess(g: Gen, cur: nat, big: set<nat>, small: set<nat>)
    requires Valid(g) && Fresh(g, cur, big) && small <= big
    ensures Fresh(g, cur, small)
  {
  }

  lemma FrameFacts(g: Gen, h: Gen, cur: nat, ls: set<nat>, xs: set<nat>, c: nat)
    requires Frame(g, h, cur, ls, xs) && Owns(g, h, cur, ls, c)
    ensures Valid(g) && Valid(h) && Extends(g, h) && c < |h.blocks|
  {
  }

  lemma ExitsKept(main: bool, f: Gen, g: Gen, h: Gen, cur: nat, ls: set<nat>, xs: set<nat>, k: S.Continuation)
    requires Frame(g, h, cur, ls, xs) && xs !! ActiveLoops(k)
    requires MatchExits(main, f, g.exits, k)
    ensures MatchExits(main, f, h.exits, k)
  {
    hide MatchExits;
    ExitsAgree(main, f, g.exits, h.exits, k);
  }

  /** Statements that leave their block continue in an empty one. */
  predicate StartsBlock(main: bool, s: Statement) {
    match s
    case Assignment(_, _) => false
    case FunctionCall(callee, _, _) => S.EndsProgram(main, callee)
    case ExitFunction(_) => false
    case GuardedLoop(_, _, _, _) => false
    case Missing => false
    case _ => true
  }

  lemma InsertionBlockEmpty(main: bool, g: Gen, cur: nat, s: Statement)
    requires Valid(g) && cur < |g.blocks| && Fresh(g, cur, LabelsIn(s)) && StartsBlock(main, s)
    requires s.Exit? ==> s.loopToBreak in g.exits
    ensures var (h, c) := LowerStatement(main, g, cur, s); c < |h.blocks| && h.blocks[c] == []
  {
    hide Frame, Owns;
    match s
    case Conditional(_, t, f) => ConditionalEndEmpty(main, g, cur, s);
    case InfiniteLoop(_, _) => LoopEndEmpty(main, g, cur, s);
    case ForLoop(_, _, _, _, _, _) => ForEndEmpty(main, g, cur, s);
    case Gosub(l) => hide LowerBlock; FrameGosub(g, cur, l);
    case _ => hide LowerBlock;
  }

  /** A block that is neither the insertion block nor the block of a label is left alone. */
  lemma Untouched(g: Gen, h: Gen, cur: nat, ls: set<nat>, xs: set<nat>, c: nat, b: nat)
    requires Frame(g, h, cur, ls, xs) && Owns(g, h, cur, ls, c)
    requires b < |g.blocks| && b != cur && forall l <- g.labels :: g.labels[l] != b
    ensures Valid(h) && c < |h.blocks| && |g.blocks| <= |h.blocks| && h.blocks[b] == g.blocks[b] && c != b
  {
  }

  lemma ConditionalEndEmpty(main: bool, g: Gen, cur: nat, s: Statement)
    requires s.Conditional? && Valid(g) && cur < |g.blocks|
    ensures var (h, c) := LowerStatement(main, g, cur, s); c < |h.blocks| && h.blocks[c] == []
  {
    hide LowerBlock, Frame, Owns, CompileExpression, CloseConditional, Valid;
    FrameNewBlock(g, cur);
    var (g1, te) := LowerBlock(main, NewBlock(g), |g.blocks|, s.trueBranch);
    FrameBlock(main, NewBlock(g), |g.blocks|, s.trueBranch);
    FrameFacts(NewBlock(g), g1, |g.blocks|, LabelsOf(s.trueBranch), LoopsOf(s.trueBranch), te);
    FrameNewBlock(g1, te);
    var (g2, fe) := LowerBlock(main, NewBlock(g1), |g1.blocks|, s.falseBranch);
    FrameBlock(main, NewBlock(g1), |g1.blocks|, s.falseBranch);
    FrameFacts(NewBlock(g1), g2, |g1.blocks|, LabelsOf(s.falseBranch), LoopsOf(s.falseBranch), fe);
    ClosedEndEmpty(g2, cur, s.condition, |g.blocks|, te, |g1.blocks|, fe);
  }

  lemma ClosedEndEmpty(g: Gen, cur: nat, c: Expression, tb: nat, te: nat, fb: nat, fe: nat)
    requires cur < |g.blocks| && te < |g.blocks| && fe < |g.blocks|
    ensures var h := CloseConditional(g, cur, c, tb, te, fb, fe);
      |h.blocks| == |g.blocks| + 1 && h.blocks[|g.blocks|] == []
  {
    hide CompileExpression;
  }

  lemma LoopEndEmpty(main: bool, g: Gen, cur: nat, s: Statement)
    requires s.InfiniteLoop? && Valid(g) && cur < |g.blocks|
    ensures var (h, c) := LowerStatement(main, g, cur, s); c < |h.blocks| && h.blocks[c] == []
  {
    hide LowerBlock, Frame, Owns, MoveAfter;
    FrameOpenLoop(g, cur, s.loop);
    var lb := |g.blocks|;
    var (g1, le) := LowerBlock(main, OpenLoop(g, s.loop), lb, s.body);
    FrameBlock(main, OpenLoop(g, s.loop), lb, s.body);
    Untouched(OpenLoop(g, s.loop), g1, lb, LabelsOf(s.body), LoopsOf(s.body), le, lb + 1);
    MoveKeepsBlocks(g1, lb + 1, le);
  }

  lemma MoveKeepsBlocks(g: Gen, b: nat, after: nat)
    ensures MoveAfter(g, b, after).blocks == g.blocks
  {
  }

  lemma ForEndEmpty(main: bool, g: Gen, cur: nat, s: Statement)
    requires s.ForLoop? && Valid(g) && cur < |g.blocks|
    ensures var (h, c) := LowerStatement(main, g, cur, s); c < |h.blocks| && h.blocks[c] == []
  {
    hide LowerBlock, OpenFor, Frame, Owns, CompileIncrement;
    FrameOpenFor(g, cur, s.loop, s.counter, s.init, s.end, s.step);
    var n := |g.blocks|;
    var g0 := OpenFor(g, cur, s.loop, s.counter, s.init, s.end, s.step);
    var (g1, le) := LowerBlock(main, g0, n + 4, s.body);
    FrameBlock(main, g0, n + 4, s.body);
    Untouched(g0, g1, n + 4, LabelsOf(s.body), LoopsOf(s.body), le, n + 5);
  }

  lemma MatchFacts(main: bool, f: Gen, g: Gen, cur: nat, block: Block, k: S.Continuation)
    requires MatchBlock(main, f, g, cur, block, k)
    ensures Ready(main, f, g, cur, block, ActiveLoops(k)) && MatchExits(main, f, g.exits, k)
  {
    hide Ready, MatchExits, MatchNext;
  }

  /** What follows a statement that leaves its block. */
  lemma RestPlaced(main: bool, f: Gen, g: Gen, cur: nat, s: Statement, rest: Block, k: S.Continuation)
    requires MatchBlock(main, f, g, cur, Then(s, rest), k) && StartsBlock(main, s)
    ensures s.Exit? ==> s.loopToBreak in g.exits
    ensures Placed(main, f, LowerStatement(main, g, cur, s).1, 0, rest, k)
  {
    hide Frame, Extends, Valid, LowerStatement, MatchBlock, Fresh, UniqueLabels, LowerableBlock, MatchExits;
    MatchFacts(main, f, g, cur, Then(s, rest), k);
    FreshHead(main, f, g, cur, s, rest, ActiveLoops(k));
    if s.Exit? {
      ExitKnown(main, f, g, s.loopToBreak, rest, k);
    }
    AfterStatement(main, f, g, cur, s, rest, k);
    InsertionBlockEmpty(main, g, cur, s);
  }

  lemma FreshHead(main: bool, f: Gen, g: Gen, cur: nat, s: Statement, rest: Block, loops: set<nat>)
    requires Ready(main, f, g, cur, Then(s, rest), loops)
    ensures Fresh(g, cur, LabelsIn(s)) && LowerableStatement(main, s, loops) && UniqueLabelsIn(s)
  {
    hide Extends, LowerBlock;
    FreshLess(g, cur, LabelsOf(Then(s, rest)), LabelsIn(s));
  }

  lemma {:induction false} ExitKnown(main: bool, f: Gen, g: Gen, loop: nat, rest: Block, k: S.Continuation)
    requires MatchExits(main, f, g.exits, k) && loop in ActiveLoops(k)
    ensures loop in g.exits
  {
    match k
    case Return =>
    case Sequel(_, next) => ExitKnown(main, f, g, loop, rest, next);
    case Iterate(l, _, _, next) => if l != loop { ExitKnown(main, f, g, loop, rest, next); }
    case Count(l, _, _, _, _, _, next) => if l != loop { ExitKnown(main, f, g, loop, rest, next); }
  }

  lemma ExtendsEmit(g: Gen, b: nat, code: seq<L.Instr>)
    ensures Extends(g, Emit(g, b, code))
  {
  }

  lemma ReadyLoop(main: bool, f: Gen, g: Gen, cur: nat, s: Statement, rest: Block, loops: set<nat>)
    requires s.InfiniteLoop? && Ready(main, f, g, cur, Then(s, rest), loops)
    ensures Ready(main, f, OpenLoop(g, s.loop), |g.blocks|, s.body, loops + {s.loop})
    ensures s.loop !in loops
  {
    hide Frame, Owns, LowerBlock, Ready, Extends, MoveAfter, Valid, Fresh;
    var g0 := OpenLoop(g, s.loop);
    var lb := |g.blocks|;
    var (g1, le) := LowerBlock(main, g0, lb, s.body);
    ReadyAfter(main, f, g, cur, s, rest, loops);
    ReadyCurrent(main, f, g, cur, Then(s, rest), loops);
    FreshHead(main, f, g, cur, s, rest, loops);
    FrameOpenLoop(g, cur, s.loop);
    FreshAfter(g, g0, cur, lb, {}, {s.loop}, LabelsOf(s.body));
    ExtendsMove(g1, lb + 1, le);
    var h0 := MoveAfter(g1, lb + 1, le);
    ExtendsEmit(h0, cur, [L.Br(lb)]);
    ExtendsEmit(Emit(h0, cur, [L.Br(lb)]), le, [L.Br(lb)]);
    ExtendsTransitive(g1, h0, Emit(h0, cur, [L.Br(lb)]));
    ExtendsTransitive(g1, Emit(h0, cur, [L.Br(lb)]), CloseLoop(g1, cur, lb, le));
    ExtendsTransitive(g1, CloseLoop(g1, cur, lb, le), f);
    MakeReady(main, f, g0, lb, s.body, loops + {s.loop});
  }

  lemma ExtendsMove(g: Gen, b: nat, after: nat)
    ensures Extends(g, MoveAfter(g, b, after))
  {
  }

  lemma MakeReady(main: bool, f: Gen, g: Gen, cur: nat, block: Block, loops: set<nat>)
    requires Valid(g) && cur < |g.blocks| && Fresh(g, cur, LabelsOf(block))
    requires UniqueLabels(block) && LowerableBlock(main, block, loops)
    requires Extends(LowerBlock(main, g, cur, block).0, f)
    ensures Ready(main, f, g, cur, block, loops)
  {
  }

  lemma MakeMatch(main: bool, f: Gen, g: Gen, cur: nat, block: Block, k: S.Continuation, b: nat, i: nat)
    requires Ready(main, f, g, cur, block, ActiveLoops(k))
    requires MatchExits(main, f, g.exits, k)
    requires EndsAt(main, g, cur, block, b, i) && MatchNext(main, f, k, b, i)
    ensures MatchBlock(main, f, g, cur, block, k)
    ensures cur < |g.blocks| && g.blocks[cur] == [] ==> Placed(main, f, cur, 0, block, k)
  {
    hide Ready, MatchExits, EndsAt, MatchNext;
  }

  /** The body of an infinite loop, the first time and every time again. */
  lemma EnterLoop(main: bool, f: Gen, g: Gen, cur: nat, s: Statement, rest: Block, k: S.Continuation)
    requires s.InfiniteLoop? && MatchBlock(main, f, g, cur, Then(s, rest), k)
    ensures Placed(main, f, |g.blocks|, 0, s.body, S.Iterate(s.loop, s.body, rest, k))
  {
    hide Frame, Owns, LowerBlock, Ready, Extends, Valid, Fresh, MatchBlock, Placed, EndsAt;
    var g0 := OpenLoop(g, s.loop);
    var lb := |g.blocks|;
    var inner := S.Iterate(s.loop, s.body, rest, k);
    MatchFacts(main, f, g, cur, Then(s, rest), k);
    ReadyLoop(main, f, g, cur, s, rest, ActiveLoops(k));
    assert ActiveLoops(k) + {s.loop} == ActiveLoops(inner);
    RestPlaced(main, f, g, cur, s, rest, k);
    ExitsAgree(main, f, g.exits, g0.exits, k);
    assert MatchExits(main, f, g0.exits, inner);
    var b, i := EndPoint(main, f, g0, lb, s.body, ActiveLoops(inner));
    assert MatchNext(main, f, inner, b, i);
    MakeMatch(main, f, g0, lb, s.body, inner, b, i);
  }

  lemma EndPoint(main: bool, f: Gen, g: Gen, cur: nat, block: Block, loops: set<nat>) returns (b: nat, i: nat)
    requires Ready(main, f, g, cur, block, loops)
    ensures EndsAt(main, g, cur, block, b, i)
  {
    hide Frame, Owns, LowerBlock;
    var (h, c) := LowerBlock(main, g, cur, block);
    FrameBlock(main, g, cur, block);
    FrameFacts(g, h, cur, LabelsOf(block), LoopsOf(block), c);
    b, i := c, |h.blocks[c]|;
  }

  function OpenForLoop(g: Gen, cur: nat, s: Statement): Gen
    requires s.ForLoop?
  {
    OpenFor(g, cur, s.loop, s.counter, s.init, s.end, s.step)
  }

  function CountFrame(s: Statement, rest: Block, k: S.Continuation): S.Continuation
    requires s.ForLoop?
  {
    S.Count(s.loop, s.counter, s.end, s.step, s.body, rest, k)
  }

  function ForBlocks(g: Gen, s: Statement): ForCode
    requires s.ForLoop?
  {
    CompileFor(|g.blocks|, CompileExpression(g.nextReg, s.init).next, s.counter, s.end, s.step)
  }

  lemma OpenForBlocks(g: Gen, cur: nat, s: Statement)
    requires s.ForLoop? && cur < |g.blocks|
    ensures var h := OpenForLoop(g, cur, s);
      var n := |g.blocks|;
      var init := CompileExpression(g.nextReg, s.init);
      var c := ForBlocks(g, s);
      && |h.blocks| == n + 6
      && h.blocks[cur] == g.blocks[cur] + (init.code + [L.Store(s.counter, init.result), L.Br(n)])
      && h.blocks[n] == c.condition && h.blocks[n + 1] == c.positive
      && h.blocks[n + 2] == c.check && h.blocks[n + 3] == c.negative
  {
    hide CompileExpression, CompileFor;
    var init := CompileExpression(g.nextReg, s.init);
    assert init.code + [L.Store(s.counter, init.result)] + [L.Br(|g.blocks|)]
        == init.code + [L.Store(s.counter, init.result), L.Br(|g.blocks|)];
  }

  lemma ReadyFor(main: bool, f: Gen, g: Gen, cur: nat, s: Statement, rest: Block, loops: set<nat>)
    requires s.ForLoop? && Ready(main, f, g, cur, Then(s, rest), loops)
    ensures Ready(main, f, OpenForLoop(g, cur, s), |g.blocks| + 4, s.body, loops + {s.loop})
    ensures s.loop !in loops
    ensures var g1 := LowerBlock(main, OpenForLoop(g, cur, s), |g.blocks| + 4, s.body).0;
      Extends(CloseFor(g1, s.counter, s.step, |g.blocks|, LowerBlock(main, OpenForLoop(g, cur, s), |g.blocks| + 4, s.body).1), f)
  {
    hide Frame, Owns, LowerBlock, Ready, Extends, Valid, Fresh, OpenFor, CloseFor;
    var g0 := OpenForLoop(g, cur, s);
    var n := |g.blocks|;
    var (g1, le) := LowerBlock(main, g0, n + 4, s.body);
    ReadyAfter(main, f, g, cur, s, rest, loops);
    ReadyCurrent(main, f, g, cur, Then(s, rest), loops);
    FreshHead(main, f, g, cur, s, rest, loops);
    FrameOpenFor(g, cur, s.loop, s.counter, s.init, s.end, s.step);
    FreshAfter(g, g0, cur, n + 4, {}, {s.loop}, LabelsOf(s.body));
    ExtendsCloseFor(g1, s.counter, s.step, n, le);
    ExtendsTransitive(g1, CloseFor(g1, s.counter, s.step, n, le), f);
    MakeReady(main, f, g0, n + 4, s.body, loops + {s.loop});
  }

  lemma ExtendsCloseFor(g: Gen, counter: Variable, step: Expression, n: nat, le: nat)
    ensures Extends(g, CloseFor(g, counter, step, n, le))
  {
    hide CompileIncrement;
  }

  /** The body of a for loop. */
  lemma EnterFor(main: bool, f: Gen, g: Gen, cur: nat, s: Statement, rest: Block, k: S.Continuation)
    requires s.ForLoop? && MatchBlock(main, f, g, cur, Then(s, rest), k)
    ensures Placed(main, f, |g.blocks| + 4, 0, s.body, CountFrame(s, rest, k))
  {
    hide Frame, Owns, LowerBlock, Ready, Extends, Valid, Fresh, MatchBlock, Placed, EndsAt, OpenFor, CloseFor;
    var g0 := OpenForLoop(g, cur, s);
    var n := |g.blocks|;
    var inner := CountFrame(s, rest, k);
    MatchFacts(main, f, g, cur, Then(s, rest), k);
    ReadyFor(main, f, g, cur, s, rest, ActiveLoops(k));
    ReadyCurrent(main, f, g, cur, Then(s, rest), ActiveLoops(k));
    FrameOpenFor(g, cur, s.loop, s.counter, s.init, s.end, s.step);
    assert ActiveLoops(k) + {s.loop} == ActiveLoops(inner);
    RestPlaced(main, f, g, cur, s, rest, k);
    ExitsAgree(main, f, g.exits, g0.exits, k);
    assert MatchExits(main, f, g0.exits, inner);
    var b, i := EndPoint(main, f, g0, n + 4, s.body, ActiveLoops(inner));
    assert MatchNext(main, f, inner, b, i);
    MakeMatch(main, f, g0, n + 4, s.body, inner, b, i);
  }

  // The two branches of a conditional: `Branches` names the states around them.

  datatype Branches = Branches(g1: Gen, te: nat, g2: Gen, fe: nat)

  function LowerBranches(main: bool, g: Gen, s: Statement): Branches
    requires s.Conditional?
  {
    var (g1, te) := LowerBlock(main, NewBlock(g), |g.blocks|, s.trueBranch);
    var (g2, fe) := LowerBlock(main, NewBlock(g1), |g1.blocks|, s.falseBranch);
    Branches(g1, te, g2, fe)
  }

  ghost predicate BranchesApart(g: Gen, cur: nat, x: Branches) {
    && |g.blocks| < |x.g1.blocks| < |x.g2.blocks| && cur < |g.blocks|
    && x.te < |x.g1.blocks| && x.fe < |x.g2.blocks| && x.g2.blocks[x.te] == x.g1.blocks[x.te]
    && cur != x.te && cur != x.fe && x.te != x.fe && x.g2.blocks[cur] == g.blocks[cur]
  }

  lemma FrameBranches(main: bool, g: Gen, cur: nat, s: Statement)
    requires s.Conditional? && Valid(g) && cur < |g.blocks| && Fresh(g, cur, LabelsIn(s)) && UniqueLabelsIn(s)
    ensures var x := LowerBranches(main, g, s);
      && Valid(NewBlock(g)) && Fresh(NewBlock(g), |g.blocks|, LabelsOf(s.trueBranch))
      && Valid(NewBlock(x.g1)) && Fresh(NewBlock(x.g1), |x.g1.blocks|, LabelsOf(s.falseBranch))
      && Extends(x.g1, x.g2) && BranchesApart(g, cur, x)
      && Away(NewBlock(g), LabelsOf(s.trueBranch), cur)
      && Away(NewBlock(x.g1), LabelsOf(s.falseBranch), cur) && Away(NewBlock(x.g1), LabelsOf(s.falseBranch), x.te)
  {
    hide LowerBlock, Frame, Owns, Valid, Fresh, Extends, Away;
    AwayFromNothing(NewBlock(LowerBlock(main, NewBlock(g), |g.blocks|, s.trueBranch).0));
    var tb := |g.blocks|;
    var lt, lf := LabelsOf(s.trueBranch), LabelsOf(s.falseBranch);
    var (g1, te) := LowerBlock(main, NewBlock(g), tb, s.trueBranch);
    var fb := |g1.blocks|;
    var (g2, fe) := LowerBlock(main, NewBlock(g1), fb, s.falseBranch);
    FrameNewBlock(g, cur);
    FreshLess(g, cur, LabelsIn(s), lt);
    FreshLess(g, cur, LabelsIn(s), lf);
    FreshAfter(g, NewBlock(g), cur, tb, {}, {}, lt);
    FreshAfter(g, NewBlock(g), cur, tb, {}, {}, lf);
    FrameBlock(main, NewBlock(g), tb, s.trueBranch);
    FrameFacts(NewBlock(g), g1, tb, lt, LoopsOf(s.trueBranch), te);
    FreshAfter(NewBlock(g), g1, tb, te, lt, LoopsOf(s.trueBranch), lf);
    FrameNewBlock(g1, te);
    FreshAfter(g1, NewBlock(g1), te, fb, {}, {}, lf);
    FrameBlock(main, NewBlock(g1), fb, s.falseBranch);
    FrameFacts(NewBlock(g1), g2, fb, lf, LoopsOf(s.falseBranch), fe);
    ExtendsNewBlock(g1);
    ExtendsTransitive(g1, NewBlock(g1), g2);
    FreshIsAway(g, cur, lt);
    FreshIsAway(g, cur, lf);
    FreshIsAway(g1, te, lf);
    StaysAway(NewBlock(g), g1, tb, lt, LoopsOf(s.trueBranch), te, cur, lf);
    StaysAway(NewBlock(g1), g2, fb, lf, LoopsOf(s.falseBranch), fe, cur, {});
    StaysAway(NewBlock(g1), g2, fb, lf, LoopsOf(s.falseBranch), fe, te, {});
  }

  lemma ExtendsNewBlock(g: Gen)
    ensures Extends(g, NewBlock(g))
  {
  }

  /** `x` is an old block, and not the block of one of `labels`. */
  ghost predicate Away(g: Gen, labels: set<nat>, x: nat) {
    x < |g.blocks| && forall l <- labels :: l in g.labels ==> g.labels[l] != x
  }

  lemma StaysAway(g: Gen, h: Gen, cur: nat, ls: set<nat>, xs: set<nat>, c: nat, x: nat, others: set<nat>)
    requires Frame(g, h, cur, ls, xs) && Owns(g, h, cur, ls, c)
    requires x != cur && Away(g, ls, x) && Away(g, others, x)
    ensures x < |h.blocks| && h.blocks[x] == g.blocks[x] && c != x && Away(h, others, x) && Away(NewBlock(h), others, x)
  {
  }

  lemma OpenLoopAway(g: Gen, loop: nat, labels: set<nat>, x: nat)
    requires Away(g, labels, x) && Valid(g)
    ensures Away(OpenLoop(g, loop), labels, x) && Away(OpenLoop(g, loop), {}, x)
    ensures Away(OpenLoop(g, loop), labels, |g.blocks| + 1)
  {
  }

  lemma AwayFromNothing(g: Gen)
    ensures forall x: nat :: x < |g.blocks| ==> Away(g, {}, x)
  {
  }

  lemma FreshIsAway(g: Gen, cur: nat, labels: set<nat>)
    requires Valid(g) && Fresh(g, cur, labels) && cur < |g.blocks|
    ensures Away(g, labels, cur) && Away(NewBlock(g), labels, cur)
  {
  }

  /** What the finished function contains of a conditional. */
  ghost predicate ConditionalCode(f: Gen, g: Gen, cur: nat, s: Statement, x: Branches)
    requires s.Conditional?
  {
    var k := CompileExpression(x.g2.nextReg, s.condition);
    && cur < |g.blocks|
    && CodeIn(f, cur, |g.blocks[cur]|, k.code + [L.CondBr(k.result, |g.blocks|, |x.g1.blocks|)])
    && x.te < |x.g1.blocks| && InstrAt(f, x.te, |x.g1.blocks[x.te]|, L.Br(|x.g2.blocks|))
    && x.fe < |x.g2.blocks| && InstrAt(f, x.fe, |x.g2.blocks[x.fe]|, L.Br(|x.g2.blocks|))
  }

  ghost predicate CodeIn(f: Gen, b: nat, i: nat, code: seq<L.Instr>) {
    b < |f.blocks| && i + |code| <= |f.blocks[b]| && f.blocks[b][i..i + |code|] == code
  }

  lemma EmittedIn(g: Gen, b: nat, code: seq<L.Instr>, f: Gen)
    requires b < |g.blocks| && Extends(Emit(g, b, code), f)
    ensures CodeIn(f, b, |g.blocks[b]|, code)
  {
    var h := Emit(g, b, code);
    assert h.blocks[b] <= f.blocks[b];
    assert f.blocks[b][..|h.blocks[b]|] == h.blocks[b];
  }

  lemma CodeInInstr(f: Gen, b: nat, i: nat, instr: L.Instr)
    requires CodeIn(f, b, i, [instr])
    ensures InstrAt(f, b, i, instr)
  {
    assert f.blocks[b][i] == f.blocks[b][i..i + 1][0];
  }

  lemma ConditionalEmitted(main: bool, f: Gen, g: Gen, cur: nat, s: Statement)
    requires s.Conditional? && BranchesApart(g, cur, LowerBranches(main, g, s))
    requires Extends(LowerStatement(main, g, cur, s).0, f)
    ensures ConditionalCode(f, g, cur, s, LowerBranches(main, g, s))
    ensures Extends(LowerBranches(main, g, s).g2, f)
  {
    hide LowerBlock, Extends, CodeIn, CompileExpression;
    var x := LowerBranches(main, g, s);
    var k := CompileExpression(x.g2.nextReg, s.condition);
    var code := k.code + [L.CondBr(k.result, |g.blocks|, |x.g1.blocks|)];
    var h0 := NewBlock(x.g2);
    var h1 := EmitCode(h0, cur, code, k.next);
    var br := [L.Br(|x.g2.blocks|)];
    var h2 := Emit(h1, x.te, br);
    var h3 := Emit(h2, x.fe, br);
    assert h3 == LowerStatement(main, g, cur, s).0;
    ExtendsEmit(h2, x.fe, br);
    ExtendsTransitive(h2, h3, f);
    ExtendsEmit(h1, x.te, br);
    ExtendsTransitive(h1, h2, f);
    ExtendsRegister(Emit(h0, cur, code), k.next, f);
    ExtendsEmit(h0, cur, code);
    ExtendsTransitive(h0, Emit(h0, cur, code), f);
    ExtendsNewBlock(x.g2);
    ExtendsTransitive(x.g2, h0, f);
    EmittedIn(h0, cur, code, f);
    EmittedIn(h1, x.te, br, f);
    EmittedIn(h2, x.fe, br, f);
    CodeInInstr(f, x.te, |h1.blocks[x.te]|, br[0]);
    CodeInInstr(f, x.fe, |h2.blocks[x.fe]|, br[0]);
  }

  lemma ExtendsRegister(g: Gen, next: nat, f: Gen)
    ensures Extends(g.(nextReg := next), f) <==> Extends(g, f)
  {
  }

  /** Both branches of a conditional, each followed by the rest of the block. */
  lemma EnterBranches(main: bool, f: Gen, g: Gen, cur: nat, s: Statement, rest: Block, k: S.Continuation)
    requires s.Conditional? && MatchBlock(main, f, g, cur, Then(s, rest), k)
    ensures var x := LowerBranches(main, g, s);
      && ConditionalCode(f, g, cur, s, x)
      && Placed(main, f, |g.blocks|, 0, s.trueBranch, S.Sequel(rest, k))
      && Placed(main, f, |x.g1.blocks|, 0, s.falseBranch, S.Sequel(rest, k))
  {
    hide LowerBlock, Extends, MatchBlock, Placed, Ready, EndsAt, LowerBranches, Fresh, CodeIn, Valid;
    var x := LowerBranches(main, g, s);
    var inner := S.Sequel(rest, k);
    MatchFacts(main, f, g, cur, Then(s, rest), k);
    ReadyCurrent(main, f, g, cur, Then(s, rest), ActiveLoops(k));
    FreshHead(main, f, g, cur, s, rest, ActiveLoops(k));
    FrameBranches(main, g, cur, s);
    ReadyAfter(main, f, g, cur, s, rest, ActiveLoops(k));
    ConditionalEmitted(main, f, g, cur, s);
    RestPlaced(main, f, g, cur, s, rest, k);
    ConditionalEnd(main, g, cur, s);
    ExtendsTransitive(x.g1, x.g2, f);
    BranchPlaced(main, f, g, s.trueBranch, inner, x.g1, x.te, |x.g2.blocks|);
    ExitsAfterBlock(main, f, NewBlock(g), |g.blocks|, s.trueBranch, inner);
    BranchPlaced(main, f, x.g1, s.falseBranch, inner, x.g2, x.fe, |x.g2.blocks|);
  }

  lemma ConditionalEnd(main: bool, g: Gen, cur: nat, s: Statement)
    requires s.Conditional?
    ensures LowerStatement(main, g, cur, s).1 == |LowerBranches(main, g, s).g2.blocks|
    ensures var x := LowerBranches(main, g, s);
      && LowerBlock(main, NewBlock(g), |g.blocks|, s.trueBranch) == (x.g1, x.te)
      && LowerBlock(main, NewBlock(x.g1), |x.g1.blocks|, s.falseBranch) == (x.g2, x.fe)
  {
    hide LowerBlock;
  }

  lemma ExitsAfterBlock(main: bool, f: Gen, g: Gen, cur: nat, block: Block, k: S.Continuation)
    requires Valid(g) && cur < |g.blocks| && LowerableBlock(main, block, ActiveLoops(k))
    requires MatchExits(main, f, g.exits, k)
    ensures MatchExits(main, f, LowerBlock(main, g, cur, block).0.exits, k)
  {
    hide LowerBlock, MatchExits, Frame, Owns;
    FrameBlock(main, g, cur, block);
    FormedBlockLoops(block, ActiveLoops(k));
    ExitsKept(main, f, g, LowerBlock(main, g, cur, block).0, cur, LabelsOf(block), LoopsOf(block), k);
  }

  lemma BranchPlaced(main: bool, f: Gen, g: Gen, block: Block, k: S.Continuation, h: Gen, e: nat, c: nat)
    requires k.Sequel? && MatchExits(main, f, g.exits, k)
    requires Valid(NewBlock(g)) && Fresh(NewBlock(g), |g.blocks|, LabelsOf(block))
    requires UniqueLabels(block) && LowerableBlock(main, block, ActiveLoops(k))
    requires LowerBlock(main, NewBlock(g), |g.blocks|, block) == (h, e) && Extends(h, f)
    requires e < |h.blocks| && InstrAt(f, e, |h.blocks[e]|, L.Br(c)) && Placed(main, f, c, 0, k.rest, k.next)
    ensures Placed(main, f, |g.blocks|, 0, block, k)
  {
    hide LowerBlock, Extends, MatchExits, Ready, Fresh, Valid, Placed, MatchBlock;
    MakeReady(main, f, NewBlock(g), |g.blocks|, block, ActiveLoops(k));
    assert MatchNext(main, f, k, e, |h.blocks[e]|);
    MakeMatch(main, f, NewBlock(g), |g.blocks|, block, k, e, |h.blocks[e]|);
  }

  /** A jump to a label that occurs in the block finds the code that follows the label. */
  lemma {:induction false} FindLabelPlaced(main: bool, f: Gen, g: Gen, cur: nat, name: nat, block: Block, k: S.Continuation)
    requires MatchBlock(main, f, g, cur, block, k)
    ensures var r := S.FindLabel(name, block, k);
      r.Some? ==> name in f.labels && Placed(main, f, f.labels[name], 0, r.value.rest, r.value.next)
    decreases block, 0
  {
    hide MatchBlock, Placed, LowerStatement, Extends;
    match block
    case End =>
    case Then(s, rest) =>
      AfterStatement(main, f, g, cur, s, rest, k);
      var (h, c) := LowerStatement(main, g, cur, s);
      if s == Label(name) {
        RestPlaced(main, f, g, cur, s, rest, k);
        LabelKnown(main, f, g, cur, name);
      } else {
        FindInsidePlaced(main, f, g, cur, name, s, rest, k);
        FindLabelPlaced(main, f, h, c, name, rest, k);
      }
  }

  lemma LabelKnown(main: bool, f: Gen, g: Gen, cur: nat, name: nat)
    requires Extends(LowerStatement(main, g, cur, Label(name)).0, f)
    ensures name in f.labels && f.labels[name] == LowerStatement(main, g, cur, Label(name)).1
  {
  }

  lemma {:induction false} FindInsidePlaced(main: bool, f: Gen, g: Gen, cur: nat, name: nat, s: Statement, rest: Block, k: S.Continuation)
    requires MatchBlock(main, f, g, cur, Then(s, rest), k)
    ensures var r := S.FindInside(name, s, rest, k);
      r.Some? ==> name in f.labels && Placed(main, f, f.labels[name], 0, r.value.rest, r.value.next)
    decreases s, 1
  {
    hide MatchBlock, LowerStatement, LowerBranches;
    match s
    case Conditional(_, t, e) =>
      EnterBranches(main, f, g, cur, s, rest, k);
      FindPlaced(main, f, |g.blocks|, name, t, S.Sequel(rest, k));
      FindPlaced(main, f, |LowerBranches(main, g, s).g1.blocks|, name, e, S.Sequel(rest, k));
    case InfiniteLoop(_, body) =>
      EnterLoop(main, f, g, cur, s, rest, k);
      FindPlaced(main, f, |g.blocks|, name, body, S.Iterate(s.loop, body, rest, k));
    case ForLoop(_, _, _, _, _, body) =>
      EnterFor(main, f, g, cur, s, rest, k);
      FindPlaced(main, f, |g.blocks| + 4, name, body, CountFrame(s, rest, k));
    case _ =>
  }

  lemma {:induction false} FindPlaced(main: bool, f: Gen, b: nat, name: nat, block: Block, k: S.Continuation)
    requires Placed(main, f, b, 0, block, k)
    ensures var r := S.FindLabel(name, block, k);
      r.Some? ==> name in f.labels && Placed(main, f, f.labels[name], 0, r.value.rest, r.value.next)
    decreases block, 1
  {
    hide MatchBlock;
    var g :| MatchBlock(main, f, g, b, block, k) && b < |g.blocks| && 0 == |g.blocks[b]|;
    FindLabelPlaced(main, f, g, b, name, block, k);
  }

  lemma EntryFacts(variables: seq<Variable>)
    ensures var g := Entry(variables);
      Valid(g) && |g.blocks| == 1 && g.blocks[0] == [L.ResetStack] + Prologue(variables)
      && g.labels == map[] && g.exits == map[]
  {
  }

  lemma UnplacedEmpty(g: Gen, f: Gen, ls: set<nat>, xs: set<nat>)
    requires Frame(g, f, 0, ls, xs) && g.labels == map[]
    ensures Valid(f) && forall l <- f.labels :: l !in ls ==> f.blocks[f.labels[l]] == []
  {
  }
}
