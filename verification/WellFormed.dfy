/** When the finished function is well-formed LLVM: every block ends in its only terminator,
    every branch leads to a block that was inserted into the function, once, and every
    instruction is well-typed. */
module WellFormed {
  import opened Words
  import opened Ir
  import opened L = Llvm
  import opened Lowering
  import opened LoweringFrames
  import opened ExpressionLowering
  import opened Matching
  import opened MatchingLemmas
  import opened BlockStructure
  import opened Typing
  import S = Semantics

  predicate Distinct(s: seq<nat>) {
    forall i, j | 0 <= i < j < |s| :: s[i] != s[j]
  }

  lemma DistinctAppend(s: seq<nat>, x: nat)
    requires Distinct(s) && x !in s
    ensures Distinct(s + [x]) && Distinct([x] + s)
  {
    assert forall i | 0 <= i < |s| :: s[i] in s;
  }

  function Targets(i: Instr): set<nat> {
    match i
    case Br(b) => {b}
    case CondBr(_, t, e) => {t, e}
    case PushReturn(b) => {b}
    case _ => {}
  }

  ghost predicate BranchesInside(f: Gen, i: Instr) {
    && (forall t <- Targets(i) :: t in f.placed && t != 0)
    && (i.IndirectBr? ==>
          && i.index < |f.destinations| && Distinct(f.destinations[i.index])
          && forall t <- f.destinations[i.index] :: t in f.placed && t != 0)
  }

  /** The rules of LLVM for a function body; its first block is the entry, which nothing enters. */
  ghost predicate WellFormedFunction(f: Gen) {
    && f.placed != [] && f.placed[0] == 0 && Distinct(f.placed)
    && forall b <- f.placed ::
         && b < |f.blocks| && Terminated(f.blocks[b])
         && forall i <- f.blocks[b] :: BranchesInside(f, i) && WellTyped(i)
  }

  // The state of the tables while generating.

  ghost predicate InstrLinked(g: Gen, i: Instr) {
    && (forall t <- Targets(i) :: 0 < t < |g.blocks|)
    && (i.IndirectBr? ==> i.index < |g.destinations|)
  }

  ghost predicate CodeLinked(g: Gen, code: seq<Instr>) {
    forall i <- code :: InstrLinked(g, i)
  }

  /** Exactly the blocks of labels not yet placed are outside the function. */
  ghost predicate Placement(g: Gen, done: set<nat>) {
    && g.placed != [] && g.placed[0] == 0 && Distinct(g.placed)
    && (forall b: nat :: b in g.placed <==> b < |g.blocks| && forall l <- g.labels :: g.labels[l] == b ==> l in done)
  }

  ghost predicate Linked(g: Gen, done: set<nat>) {
    && Valid(g) && Placement(g, done) && done <= g.labels.Keys
    && (forall l <- g.labels :: g.labels[l] > 0)
    && (forall x <- g.exits :: 0 < g.exits[x] < |g.blocks|)
    && (forall r <- g.returnPoints :: 0 < r < |g.blocks| && forall l <- g.labels :: g.labels[l] != r)
    && Distinct(g.returnPoints)
    && (forall b :: 0 <= b < |g.blocks| ==> CodeLinked(g, g.blocks[b]))
  }

  lemma CodeLinkedLater(g: Gen, h: Gen, code: seq<Instr>)
    requires CodeLinked(g, code) && |g.blocks| <= |h.blocks| && |g.destinations| <= |h.destinations|
    ensures CodeLinked(h, code)
  {
  }

  lemma AllLinkedLater(g: Gen, h: Gen)
    requires forall b :: 0 <= b < |g.blocks| ==> CodeLinked(g, g.blocks[b])
    requires |g.blocks| <= |h.blocks| && |g.destinations| <= |h.destinations|
    ensures forall b :: 0 <= b < |g.blocks| ==> CodeLinked(h, g.blocks[b])
  {
    forall b | 0 <= b < |g.blocks| ensures CodeLinked(h, g.blocks[b]) {
      CodeLinkedLater(g, h, g.blocks[b]);
    }
  }

  lemma LinkedEmit(g: Gen, done: set<nat>, b: nat, code: seq<Instr>)
    requires Linked(g, done) && CodeLinked(g, code)
    ensures Linked(Emit(g, b, code), done)
  {
    var h := Emit(g, b, code);
    AllLinkedLater(g, h);
    CodeLinkedLater(g, h, code);
    hide InstrLinked;
  }

  lemma LinkedRegister(g: Gen, done: set<nat>, next: nat)
    requires Linked(g, done)
    ensures Linked(g.(nextReg := next), done)
  {
    AllLinkedLater(g, g.(nextReg := next));
    hide CodeLinked;
  }

  lemma LinkedNewBlock(g: Gen, done: set<nat>)
    requires Linked(g, done)
    ensures Linked(NewBlock(g), done) && |g.blocks| in NewBlock(g).placed
    ensures forall b <- g.placed :: b in NewBlock(g).placed
  {
    var h := NewBlock(g);
    AllLinkedLater(g, h);
    assert h.blocks[|g.blocks|] == [];
    assert CodeLinked(h, h.blocks[|g.blocks|]);
    DistinctAppend(g.placed, |g.blocks|);
  }

  lemma LinkedAddLabel(g: Gen, done: set<nat>, l: nat)
    requires Linked(g, done)
    ensures Linked(AddLabel(g, l), done)
    ensures AddLabel(g, l).placed == g.placed
  {
    var h := AddLabel(g, l);
    AllLinkedLater(g, h);
    if l !in g.labels {
      hide InstrLinked;
      assert g.placed[0] in g.placed;
      assert h.blocks[|g.blocks|] == [];
      assert CodeLinked(h, h.blocks[|g.blocks|]);
    }
  }

  lemma LinkedPlace(g: Gen, done: set<nat>, l: nat)
    requires Linked(g, done) && l in g.labels && l !in done
    ensures Linked(g.(placed := g.placed + [g.labels[l]]), done + {l})
  {
    var h := g.(placed := g.placed + [g.labels[l]]);
    AllLinkedLater(g, h);
    hide CodeLinked;
    DistinctAppend(g.placed, g.labels[l]);
  }

  lemma LinkedExit(g: Gen, done: set<nat>, loop: nat, b: nat)
    requires Linked(g, done) && 0 < b < |g.blocks|
    ensures Linked(g.(exits := g.exits[loop := b]), done)
  {
    AllLinkedLater(g, g.(exits := g.exits[loop := b]));
    hide CodeLinked;
  }

  lemma LinkedReturnPoint(g: Gen, done: set<nat>, b: nat)
    requires Linked(g, done) && 0 < b < |g.blocks| && b !in g.returnPoints
    requires forall l <- g.labels :: g.labels[l] != b
    ensures Linked(AddReturnPoint(g, b), done)
  {
    AddToEachAt(g.destinations, b);
    AllLinkedLater(g, AddReturnPoint(g, b));
    hide CodeLinked;
  }

  lemma LinkedIndirectBr(g: Gen, done: set<nat>)
    requires Linked(g, done)
    ensures Linked(AddIndirectBr(g), done)
  {
    AllLinkedLater(g, AddIndirectBr(g));
    hide CodeLinked;
  }

  // Moving a block within the function.

  lemma {:induction false} RemoveKeeps(s: seq<nat>, b: nat)
    requires Distinct(s)
    ensures Distinct(Remove(s, b)) && forall x :: x in Remove(s, b) <==> x in s && x != b
    ensures s != [] && s[0] != b ==> Remove(s, b) != [] && Remove(s, b)[0] == s[0]
  {
    if s != [] {
      assert s == [s[0]] + s[1..];
      if s[0] != b {
        RemoveKeeps(s[1..], b);
        DistinctAppend(Remove(s[1..], b), s[0]);
      }
    }
  }

  lemma {:induction false} InsertKeeps(s: seq<nat>, b: nat, after: nat)
    requires Distinct(s) && b !in s
    ensures Distinct(InsertAfter(s, b, after)) && forall x :: x in InsertAfter(s, b, after) <==> x in s || x == b
    ensures s != [] ==> InsertAfter(s, b, after)[0] == s[0]
  {
    if s != [] {
      assert s == [s[0]] + s[1..];
      InsertKeeps(s[1..], b, after);
      DistinctAppend(s[1..], b);
      DistinctAppend([b] + s[1..], s[0]);
      assert [s[0]] + ([b] + s[1..]) == [s[0], b] + s[1..];
      DistinctAppend(InsertAfter(s[1..], b, after), s[0]);
    }
  }

  lemma LinkedMove(g: Gen, done: set<nat>, b: nat, after: nat)
    requires Linked(g, done) && b in g.placed && b != 0
    ensures Linked(MoveAfter(g, b, after), done)
    ensures forall x :: x in MoveAfter(g, b, after).placed <==> x in g.placed
  {
    RemoveKeeps(g.placed, b);
    InsertKeeps(Remove(g.placed, b), b, after);
    AllLinkedLater(g, MoveAfter(g, b, after));
    hide CodeLinked;
  }

  // Every statement keeps the tables linked.

  lemma {:induction false} ExpressionLinked(g: Gen, n: nat, e: Expression)
    ensures CodeLinked(g, CompileExpression(n, e).code)
    decreases e, 0
  {
    match e
    case Cast(inner, _) => ExpressionLinked(g, n, inner);
    case Unary(_, operand) => ExpressionLinked(g, n, operand);
    case Binary(_, left, right) =>
      ExpressionLinked(g, n, left);
      ExpressionLinked(g, CompileExpression(n, left).next, right);
    case Call(callee, arguments, ret) => CallLinked(g, n, callee, arguments);
    case _ =>
  }

  lemma {:induction false} CallLinked(g: Gen, n: nat, callee: Callee, arguments: Arguments)
    ensures CodeLinked(g, CompileCall(n, callee, arguments).code)
    decreases arguments, 1
  {
    ArgumentsLinked(g, n, arguments);
  }

  lemma {:induction false} ArgumentsLinked(g: Gen, n: nat, arguments: Arguments)
    ensures CodeLinked(g, CompileArguments(n, arguments).code)
    decreases arguments, 0
  {
    match arguments
    case NoArguments =>
    case Argument(first, rest) =>
      ExpressionLinked(g, n, first);
      ArgumentsLinked(g, CompileExpression(n, first).next, rest);
  }

  lemma LinkedConcat(g: Gen, a: seq<Instr>, b: seq<Instr>)
    requires CodeLinked(g, a) && CodeLinked(g, b)
    ensures CodeLinked(g, a + b)
  {
    hide InstrLinked;
  }

  lemma OneLinked(g: Gen, i: Instr)
    requires InstrLinked(g, i)
    ensures CodeLinked(g, [i])
  {
  }

  /** `h` continues `g`, with the labels `done` placed; blocks stay in the function. */
  ghost predicate Continues(g: Gen, h: Gen, done: set<nat>) {
    Linked(h, done) && |g.blocks| <= |h.blocks| && forall b <- g.placed :: b in h.placed
  }

  lemma PlacedExists(g: Gen, done: set<nat>)
    requires Linked(g, done)
    ensures forall b <- g.placed :: b < |g.blocks|
    ensures |g.blocks| > 0 && Valid(g)
  {
    assert g.placed[0] in g.placed;
  }

  lemma LinkedJump(g: Gen, done: set<nat>, cur: nat, b: nat)
    requires Linked(g, done) && 0 < b < |g.blocks|
    ensures Continues(g, LowerJump(g, cur, b).0, done) && LowerJump(g, cur, b).1 in LowerJump(g, cur, b).0.placed
  {
    OneLinked(g, Br(b));
    LinkedEmit(g, done, cur, [Br(b)]);
    LinkedNewBlock(Emit(g, cur, [Br(b)]), done);
    hide Linked;
  }

  lemma LabelInside(g: Gen, done: set<nat>, l: nat)
    requires Linked(g, done)
    ensures var h := AddLabel(g, l);
      l in h.labels && h.labels[l] == LabelBlock(g, l) && 0 < LabelBlock(g, l) < |h.blocks| && |g.blocks| <= |h.blocks|
  {
    PlacedExists(g, done);
  }

  lemma LinkedLabel(g: Gen, done: set<nat>, cur: nat, l: nat)
    requires Linked(g, done) && l !in done
    ensures Continues(g, PlaceLabel(g, cur, l), done + {l}) && LabelBlock(g, l) in PlaceLabel(g, cur, l).placed
  {
    var b := LabelBlock(g, l);
    var g1 := AddLabel(g, l);
    LinkedAddLabel(g, done, l);
    LabelInside(g, done, l);
    LinkedPlace(g1, done, l);
    var g2 := g1.(placed := g1.placed + [b]);
    OneLinked(g2, Br(b));
    LinkedEmit(g2, done + {l}, cur, [Br(b)]);
    hide Linked;
  }

  lemma LinkedGosub(g: Gen, done: set<nat>, cur: nat, l: nat)
    requires Linked(g, done)
    ensures Continues(g, LowerGosub(g, cur, l), done) && |AddLabel(g, l).blocks| in LowerGosub(g, cur, l).placed
  {
    var g1 := AddLabel(g, l);
    var c := |g1.blocks|;
    LinkedAddLabel(g, done, l);
    LabelInside(g, done, l);
    LinkedNewBlock(g1, done);
    PointNew(g1, done);
    var g2 := NewBlock(g1);
    LinkedReturnPoint(g2, done, c);
    var g3 := AddReturnPoint(g2, c);
    hide Linked, CodeLinked;
    LinkedPush(g3, done, cur, c, LabelBlock(g, l));
  }

  lemma LinkedPush(g: Gen, done: set<nat>, cur: nat, c: nat, target: nat)
    requires Linked(g, done) && 0 < c < |g.blocks| && 0 < target < |g.blocks|
    ensures Linked(Emit(g, cur, [PushReturn(c), Br(target)]), done)
  {
    hide Linked, CodeLinked;
    OneLinked(g, PushReturn(c));
    OneLinked(g, Br(target));
    LinkedConcat(g, [PushReturn(c)], [Br(target)]);
    assert [PushReturn(c)] + [Br(target)] == [PushReturn(c), Br(target)];
    LinkedEmit(g, done, cur, [PushReturn(c), Br(target)]);
  }

  lemma PointNew(g: Gen, done: set<nat>)
    requires Linked(g, done)
    ensures |g.blocks| !in g.returnPoints && forall l <- g.labels :: g.labels[l] != |g.blocks|
  {
  }

  lemma LinkedReturn(g: Gen, done: set<nat>, cur: nat)
    requires Linked(g, done)
    ensures Continues(g, LowerReturn(g, cur).0, done) && LowerReturn(g, cur).1 in LowerReturn(g, cur).0.placed
  {
    hide Linked, CodeLinked;
    var r := g.nextReg;
    var i := IndirectBr(Defined(r, PopReturn(r)), |g.destinations|);
    var code := [PopReturn(r), i];
    LinkedIndirectBr(g, done);
    var g1 := AddIndirectBr(g);
    OneLinked(g1, PopReturn(r));
    OneLinked(g1, i);
    LinkedConcat(g1, [PopReturn(r)], [i]);
    assert [PopReturn(r)] + [i] == code;
    LinkedEmit(g1, done, cur, code);
    LinkedRegister(Emit(g1, cur, code), done, r + 1);
    LinkedNewBlock(Emit(g1, cur, code).(nextReg := r + 1), done);
  }

  lemma LinkedStraight(g: Gen, done: set<nat>, cur: nat, code: seq<Instr>, next: nat)
    requires Linked(g, done) && CodeLinked(g, code)
    ensures Continues(g, EmitCode(g, cur, code, next), done)
  {
    LinkedEmit(g, done, cur, code);
    LinkedRegister(Emit(g, cur, code), done, next);
    hide Linked;
  }

  lemma ExitInside(g: Gen, done: set<nat>, loop: nat)
    requires Linked(g, done) && loop in g.exits
    ensures 0 < g.exits[loop] < |g.blocks|
  {
  }

  lemma {:induction false} LinkedStatement(main: bool, g: Gen, cur: nat, s: Statement, loops: set<nat>, done: set<nat>)
    requires Linked(g, done) && cur in g.placed && loops <= g.exits.Keys
    requires FormedStatement(s, loops) && UniqueLabelsIn(s) && LabelsIn(s) !! done
    ensures var (h, c) := LowerStatement(main, g, cur, s); Continues(g, h, done + LabelsIn(s)) && c in h.placed
    decreases s, 1
  {
    hide Linked, CodeLinked, Formed;
    assert done + {} == done;
    match s
    case Label(l) => LinkedLabel(g, done, cur, l);
    case Goto(l) =>
      LinkedAddLabel(g, done, l);
      LabelInside(g, done, l);
      LinkedJump(AddLabel(g, l), done, cur, LabelBlock(g, l));
    case Gosub(l) => LinkedGosub(g, done, cur, l);
    case SubReturn => LinkedReturn(g, done, cur);
    case Conditional(_, _, _) => LinkedConditional(main, g, cur, s, loops, done);
    case InfiniteLoop(_, _) => LinkedLoop(main, g, cur, s, loops, done);
    case ForLoop(_, _, _, _, _, _) => LinkedFor(main, g, cur, s, loops, done);
    case Exit(loop) =>
      ExitInside(g, done, loop);
      LinkedJump(g, done, cur, g.exits[loop]);
    case Assignment(x, e) => LinkedStore(g, done, cur, x, e);
    case FunctionCall(callee, arguments, ret) =>
      if main && callee.Command? && callee.dbSymbol == "end" {
        LinkedEnd(g, done, cur);
      } else {
        var c := CompileCall(g.nextReg, callee, arguments);
        CallLinked(g, g.nextReg, callee, arguments);
        LinkedStraight(g, done, cur, c.code, c.next);
      }
    case ExitFunction(e) => LinkedRet(g, done, cur, e);
  }

  lemma LinkedStore(g: Gen, done: set<nat>, cur: nat, x: Variable, e: Expression)
    requires Linked(g, done)
    ensures Continues(g, LowerStore(g, cur, x, e), done)
  {
    var c := CompileExpression(g.nextReg, e);
    ExpressionLinked(g, g.nextReg, e);
    OneLinked(g, Store(x, c.result));
    LinkedConcat(g, c.code, [Store(x, c.result)]);
    LinkedStraight(g, done, cur, c.code + [Store(x, c.result)], c.next);
  }

  lemma LinkedRet(g: Gen, done: set<nat>, cur: nat, e: Expression)
    requires Linked(g, done)
    ensures var c := CompileExpression(g.nextReg, e);
      Continues(g, EmitCode(g, cur, c.code + [Ret(c.result)], c.next), done)
  {
    var c := CompileExpression(g.nextReg, e);
    ExpressionLinked(g, g.nextReg, e);
    OneLinked(g, Ret(c.result));
    LinkedConcat(g, c.code, [Ret(c.result)]);
    LinkedStraight(g, done, cur, c.code + [Ret(c.result)], c.next);
  }

  lemma LinkedEnd(g: Gen, done: set<nat>, cur: nat)
    requires Linked(g, done)
    ensures Continues(g, NewBlock(Emit(g, cur, [RetVoid])), done) && |g.blocks| in NewBlock(Emit(g, cur, [RetVoid])).placed
  {
    OneLinked(g, RetVoid);
    LinkedEmit(g, done, cur, [RetVoid]);
    LinkedNewBlock(Emit(g, cur, [RetVoid]), done);
    hide Linked;
  }

  lemma {:induction false} LinkedBlock(main: bool, g: Gen, cur: nat, block: Block, loops: set<nat>, done: set<nat>)
    requires Linked(g, done) && cur in g.placed && loops <= g.exits.Keys
    requires FormedBlock(block, loops) && UniqueLabels(block) && LabelsOf(block) !! done
    ensures var (h, c) := LowerBlock(main, g, cur, block); Continues(g, h, done + LabelsOf(block)) && c in h.placed
    decreases block, 3
  {
    hide Linked;
    match block
    case End => assert done + {} == done;
    case Then(s, rest) =>
      var (h, c) := LowerStatement(main, g, cur, s);
      LinkedStatement(main, g, cur, s, loops, done);
      PlacedExists(g, done);
      FrameStatement(main, g, cur, s);
      ExitKeysKept(g, h, cur, LabelsIn(s), LoopsIn(s), loops);
      hide Frame;
      LinkedBlock(main, h, c, rest, loops, done + LabelsIn(s));
      assert done + LabelsIn(s) + LabelsOf(rest) == done + LabelsOf(block);
  }

  lemma {:induction false} LinkedConditional(main: bool, g: Gen, cur: nat, s: Statement, loops: set<nat>, done: set<nat>)
    requires s.Conditional? && Linked(g, done) && cur in g.placed && loops <= g.exits.Keys
    requires FormedStatement(s, loops) && UniqueLabelsIn(s) && LabelsIn(s) !! done
    ensures var (h, c) := LowerStatement(main, g, cur, s); Continues(g, h, done + LabelsIn(s)) && c in h.placed
    decreases s, 0
  {
    hide Linked, Frame, Owns, CompileExpression;
    var lt, lf := LabelsOf(s.trueBranch), LabelsOf(s.falseBranch);
    var tb := |g.blocks|;
    PlacedExists(g, done);
    LinkedNewBlock(g, done);
    var (g1, te) := LowerBlock(main, NewBlock(g), tb, s.trueBranch);
    LinkedBlock(main, NewBlock(g), tb, s.trueBranch, loops, done);
    FrameNewBlock(g, cur);
    FrameBlock(main, NewBlock(g), tb, s.trueBranch);
    ExitKeysKept(NewBlock(g), g1, tb, lt, LoopsOf(s.trueBranch), loops);
    var fb := |g1.blocks|;
    LinkedNewBlock(g1, done + lt);
    var (g2, fe) := LowerBlock(main, NewBlock(g1), fb, s.falseBranch);
    LinkedBlock(main, NewBlock(g1), fb, s.falseBranch, loops, done + lt);
    assert done + lt + lf == done + LabelsIn(s);
    LinkedClose(g2, done + LabelsIn(s), cur, s.condition, tb, te, fb, fe);
  }

  lemma LinkedClose(g: Gen, done: set<nat>, cur: nat, c: Expression, tb: nat, te: nat, fb: nat, fe: nat)
    requires Linked(g, done) && 0 < tb < |g.blocks| && 0 < fb < |g.blocks|
    ensures Continues(g, CloseConditional(g, cur, c, tb, te, fb, fe), done)
    ensures |g.blocks| in CloseConditional(g, cur, c, tb, te, fb, fe).placed
  {
    hide Linked, CompileExpression;
    PlacedExists(g, done);
    LinkedNewBlock(g, done);
    var k := CompileExpression(g.nextReg, c);
    var h0 := NewBlock(g);
    ExpressionLinked(h0, g.nextReg, c);
    OneLinked(h0, CondBr(k.result, tb, fb));
    LinkedConcat(h0, k.code, [CondBr(k.result, tb, fb)]);
    LinkedStraight(h0, done, cur, k.code + [CondBr(k.result, tb, fb)], k.next);
    var h1 := EmitCode(h0, cur, k.code + [CondBr(k.result, tb, fb)], k.next);
    OneLinked(h1, Br(|g.blocks|));
    LinkedEmit(h1, done, te, [Br(|g.blocks|)]);
    var h2 := Emit(h1, te, [Br(|g.blocks|)]);
    OneLinked(h2, Br(|g.blocks|));
    LinkedEmit(h2, done, fe, [Br(|g.blocks|)]);
  }

  lemma LinkedOpenLoop(g: Gen, done: set<nat>, loop: nat)
    requires Linked(g, done)
    ensures var h := OpenLoop(g, loop);
      Continues(g, h, done) && |g.blocks| in h.placed && |g.blocks| + 1 in h.placed && |h.blocks| == |g.blocks| + 2
  {
    PlacedExists(g, done);
    LinkedNewBlock(g, done);
    LinkedNewBlock(NewBlock(g), done);
    LinkedExit(NewBlock(NewBlock(g)), done, loop, |g.blocks| + 1);
    hide Linked;
  }

  lemma {:induction false} LinkedLoop(main: bool, g: Gen, cur: nat, s: Statement, loops: set<nat>, done: set<nat>)
    requires s.InfiniteLoop? && Linked(g, done) && cur in g.placed && loops <= g.exits.Keys
    requires FormedStatement(s, loops) && UniqueLabelsIn(s) && LabelsIn(s) !! done
    ensures var (h, c) := LowerStatement(main, g, cur, s); Continues(g, h, done + LabelsIn(s)) && c in h.placed
    decreases s, 0
  {
    hide Linked, MoveAfter;
    var lb := |g.blocks|;
    PlacedExists(g, done);
    LinkedOpenLoop(g, done, s.loop);
    var g0 := OpenLoop(g, s.loop);
    var (g1, le) := LowerBlock(main, g0, lb, s.body);
    LinkedBlock(main, g0, lb, s.body, loops + {s.loop}, done);
    var d := done + LabelsIn(s);
    LinkedMove(g1, d, lb + 1, le);
    MoveKeepsBlocks(g1, lb + 1, le);
    var h0 := MoveAfter(g1, lb + 1, le);
    OneLinked(h0, Br(lb));
    LinkedEmit(h0, d, cur, [Br(lb)]);
    var h1 := Emit(h0, cur, [Br(lb)]);
    OneLinked(h1, Br(lb));
    LinkedEmit(h1, d, le, [Br(lb)]);
  }

  lemma LinkedSix(g: Gen, done: set<nat>)
    requires Linked(g, done)
    ensures var h := NewSixBlocks(g);
      Continues(g, h, done) && forall b :: |g.blocks| <= b < |g.blocks| + 6 ==> b in h.placed
  {
    hide Linked;
    var g3 := NewBlock(NewBlock(NewBlock(g)));
    LinkedThree(g, done);
    LinkedThree(g3, done);
    assert NewBlock(NewBlock(NewBlock(g3))) == NewSixBlocks(g);
  }

  lemma LinkedThree(g: Gen, done: set<nat>)
    requires Linked(g, done)
    ensures var h := NewBlock(NewBlock(NewBlock(g)));
      Continues(g, h, done) && forall b :: |g.blocks| <= b < |g.blocks| + 3 ==> b in h.placed
  {
    hide Linked;
    LinkedNewBlock(g, done);
    LinkedNewBlock(NewBlock(g), done);
    LinkedNewBlock(NewBlock(NewBlock(g)), done);
  }

  lemma LinkedOpenFor(g: Gen, done: set<nat>, cur: nat, s: Statement)
    requires s.ForLoop? && Linked(g, done) && cur < |g.blocks|
    ensures var h := OpenForLoop(g, cur, s);
      Continues(g, h, done) && |g.blocks| + 4 in h.placed && |g.blocks| + 5 in h.placed
  {
    hide Linked, CompileExpression, CodeLinked, CompileFor;
    var n := |g.blocks|;
    PlacedExists(g, done);
    LinkedStore(g, done, cur, s.counter, s.init);
    var g1 := LowerStore(g, cur, s.counter, s.init);
    LinkedSix(g1, done);
    LinkedExit(NewSixBlocks(g1), done, s.loop, n + 5);
    var g2 := NewSixBlocks(g1).(exits := g1.exits[s.loop := n + 5]);
    OneLinked(g2, Br(n));
    LinkedEmit(g2, done, cur, [Br(n)]);
    var g3 := Emit(g2, cur, [Br(n)]);
    var c := CompileFor(n, g3.nextReg, s.counter, s.end, s.step);
    ForLinked(g3, n, g3.nextReg, s.counter, s.end, s.step);
    LinkedEmit(g3, done, n, c.condition);
    var g4 := Emit(g3, n, c.condition);
    CodeLinkedLater(g3, g4, c.check);
    LinkedEmit(g4, done, n + 2, c.check);
    var g5 := Emit(g4, n + 2, c.check);
    CodeLinkedLater(g3, g5, c.positive);
    LinkedEmit(g5, done, n + 1, c.positive);
    var g6 := Emit(g5, n + 1, c.positive);
    CodeLinkedLater(g3, g6, c.negative);
    LinkedEmit(g6, done, n + 3, c.negative);
    LinkedRegister(Emit(g6, n + 3, c.negative), done, c.next);
  }

  lemma ForLinked(g: Gen, n: nat, r: nat, counter: Variable, end: Expression, step: Expression)
    requires 0 < n && n + 5 < |g.blocks|
    ensures var c := CompileFor(n, r, counter, end, step);
      CodeLinked(g, c.condition) && CodeLinked(g, c.positive) && CodeLinked(g, c.check) && CodeLinked(g, c.negative)
  {
    hide CompileExpression;
    ExpressionLinked(g, r + 1, end);
    ExpressionLinked(g, CompileExpression(r + 1, end).next, step);
  }

  lemma {:induction false} LinkedFor(main: bool, g: Gen, cur: nat, s: Statement, loops: set<nat>, done: set<nat>)
    requires s.ForLoop? && Linked(g, done) && cur in g.placed && loops <= g.exits.Keys
    requires FormedStatement(s, loops) && UniqueLabelsIn(s) && LabelsIn(s) !! done
    ensures var (h, c) := LowerStatement(main, g, cur, s); Continues(g, h, done + LabelsIn(s)) && c in h.placed
    decreases s, 0
  {
    hide Linked, OpenFor, CloseFor, Formed, Frame, Owns, CodeLinked;
    var n := |g.blocks|;
    PlacedExists(g, done);
    LinkedOpenFor(g, done, cur, s);
    FrameOpenFor(g, cur, s.loop, s.counter, s.init, s.end, s.step);
    var g0 := OpenForLoop(g, cur, s);
    var (g1, le) := LowerBlock(main, g0, n + 4, s.body);
    LinkedBlock(main, g0, n + 4, s.body, loops + {s.loop}, done);
    LinkedCloseFor(g1, done + LabelsIn(s), s.counter, s.step, n, le);
  }

  lemma LinkedCloseFor(g: Gen, done: set<nat>, counter: Variable, step: Expression, n: nat, le: nat)
    requires Linked(g, done) && 0 < n < |g.blocks|
    ensures Continues(g, CloseFor(g, counter, step, n, le), done)
  {
    hide Linked, CompileExpression, CodeLinked, CompileIncrement;
    var inc := |g.blocks|;
    LinkedNewBlock(g, done);
    var h0 := NewBlock(g);
    OneLinked(h0, Br(inc));
    LinkedEmit(h0, done, le, [Br(inc)]);
    var h1 := Emit(h0, le, [Br(inc)]);
    var c := CompileIncrement(h1.nextReg, counter, step);
    IncrementLinked(h1, h1.nextReg, counter, step);
    OneLinked(h1, Br(n));
    LinkedConcat(h1, c.code, [Br(n)]);
    LinkedStraight(h1, done, inc, c.code + [Br(n)], c.next);
  }

  lemma IncrementLinked(g: Gen, r: nat, counter: Variable, step: Expression)
    ensures CodeLinked(g, CompileIncrement(r, counter, step).code)
  {
    hide CompileExpression;
    ExpressionLinked(g, r + 1, step);
  }

  // Jumps out of the function.

  ghost predicate JumpsTo(g: Gen, l: nat) {
    l in g.labels && exists b: nat :: b < |g.blocks| && HasTarget(g.blocks[b], g.labels[l])
  }

  ghost predicate HasTarget(code: seq<Instr>, t: nat) {
    exists i <- code :: t in Targets(i)
  }

  lemma JumpStays(g: Gen, h: Gen, l: nat)
    requires JumpsTo(g, l) && Extends(g, h)
    ensures JumpsTo(h, l)
  {
    var b: nat :| b < |g.blocks| && HasTarget(g.blocks[b], g.labels[l]);
    assert g.blocks[b] <= h.blocks[b];
    assert HasTarget(h.blocks[b], g.labels[l]);
  }

  lemma {:induction false} JumpEmitted(main: bool, g: Gen, cur: nat, s: Statement, l: nat)
    requires Valid(g) && cur < |g.blocks| && l in JumpsIn(s)
    ensures JumpsTo(LowerStatement(main, g, cur, s).0, l)
    decreases s, 0
  {
    hide LowerBlock, Frame, Owns, Extends, OpenFor, CloseFor, LowerBranches, JumpsTo, Valid;
    var h := LowerStatement(main, g, cur, s).0;
    match s
    case Goto(_) => GotoTargets(g, cur, l);
    case Gosub(_) => GosubTargets(g, cur, l);
    case Conditional(_, t, f) =>
      var x := LowerBranches(main, g, s);
      ConditionalGrows(main, g, cur, s);
      BranchEnds(main, g, cur, s);
      ConditionalEnd(main, g, cur, s);
      hide LowerStatement;
      if l in JumpsOf(t) {
        JumpEmittedIn(main, NewBlock(g), |g.blocks|, t, l);
        JumpStays(x.g1, h, l);
      } else {
        JumpEmittedIn(main, NewBlock(x.g1), |x.g1.blocks|, f, l);
        JumpStays(x.g2, h, l);
      }
    case InfiniteLoop(loop, body) =>
      LoopGrows(main, g, cur, s);
      hide LowerStatement;
      JumpEmittedIn(main, OpenLoop(g, loop), |g.blocks|, body, l);
      JumpStays(LowerBlock(main, OpenLoop(g, loop), |g.blocks|, body).0, h, l);
    case ForLoop(_, _, _, _, _, body) =>
      ForGrows(main, g, cur, s);
      hide LowerStatement;
      JumpEmittedIn(main, OpenForLoop(g, cur, s), |g.blocks| + 4, body, l);
      JumpStays(LowerBlock(main, OpenForLoop(g, cur, s), |g.blocks| + 4, body).0, h, l);
    case _ =>
  }

  lemma GotoTargets(g: Gen, cur: nat, l: nat)
    requires Valid(g) && cur < |g.blocks|
    ensures JumpsTo(LowerJump(AddLabel(g, l), cur, LabelBlock(g, l)).0, l)
  {
    var i := Br(LabelBlock(g, l));
    var h := LowerJump(AddLabel(g, l), cur, LabelBlock(g, l)).0;
    assert h.blocks[cur] == g.blocks[cur] + [i];
    assert i in h.blocks[cur] && LabelBlock(g, l) in Targets(i);
    assert HasTarget(h.blocks[cur], h.labels[l]);
  }

  lemma GosubTargets(g: Gen, cur: nat, l: nat)
    requires Valid(g) && cur < |g.blocks|
    ensures JumpsTo(LowerGosub(g, cur, l), l)
  {
    var i := Br(LabelBlock(g, l));
    var h := LowerGosub(g, cur, l);
    assert h.blocks[cur] == g.blocks[cur] + [PushReturn(|AddLabel(g, l).blocks|), i];
    assert i in h.blocks[cur] && LabelBlock(g, l) in Targets(i);
    assert HasTarget(h.blocks[cur], h.labels[l]);
  }

  lemma {:induction false} JumpEmittedIn(main: bool, g: Gen, cur: nat, block: Block, l: nat)
    requires Valid(g) && cur < |g.blocks| && l in JumpsOf(block)
    ensures JumpsTo(LowerBlock(main, g, cur, block).0, l)
    decreases block, 1
  {
    hide LowerStatement, Frame, Owns, Extends, JumpsTo, Valid;
    var Then(s, rest) := block;
    var (h, c) := LowerStatement(main, g, cur, s);
    FrameStatement(main, g, cur, s);
    FrameFacts(g, h, cur, LabelsIn(s), LoopsIn(s), c);
    if l in JumpsIn(s) {
      JumpEmitted(main, g, cur, s, l);
      FrameBlock(main, h, c, rest);
      FrameFacts(h, LowerBlock(main, h, c, rest).0, c, LabelsOf(rest), LoopsOf(rest), LowerBlock(main, h, c, rest).1);
      JumpStays(h, LowerBlock(main, h, c, rest).0, l);
    } else {
      JumpEmittedIn(main, h, c, rest, l);
    }
  }

  // Explicit returns.

  ghost predicate HasRet(g: Gen) {
    exists b: nat, i :: b < |g.blocks| && i in g.blocks[b] && i.Ret?
  }

  lemma RetStays(g: Gen, h: Gen)
    requires HasRet(g) && Extends(g, h)
    ensures HasRet(h)
  {
    var b: nat, i :| b < |g.blocks| && i in g.blocks[b] && i.Ret?;
    assert g.blocks[b] <= h.blocks[b];
    assert i in h.blocks[b];
  }

  /** Explicit returns become returns with a value. */
  lemma {:induction false} RetEmitted(main: bool, g: Gen, cur: nat, s: Statement)
    requires Valid(g) && cur < |g.blocks| && !NoReturnIn(s)
    ensures HasRet(LowerStatement(main, g, cur, s).0)
    decreases s, 0
  {
    hide LowerBlock, Frame, Owns, Extends, OpenFor, CloseFor, LowerBranches, HasRet, Valid;
    var h := LowerStatement(main, g, cur, s).0;
    match s
    case ExitFunction(_) => RetHere(main, g, cur, s);
    case Conditional(_, t, f) =>
      var x := LowerBranches(main, g, s);
      ConditionalGrows(main, g, cur, s);
      BranchEnds(main, g, cur, s);
      ConditionalEnd(main, g, cur, s);
      hide LowerStatement;
      if !NoReturn(t) {
        RetEmittedIn(main, NewBlock(g), |g.blocks|, t);
        RetStays(x.g1, h);
      } else {
        RetEmittedIn(main, NewBlock(x.g1), |x.g1.blocks|, f);
        RetStays(x.g2, h);
      }
    case InfiniteLoop(loop, body) =>
      LoopGrows(main, g, cur, s);
      hide LowerStatement;
      RetEmittedIn(main, OpenLoop(g, loop), |g.blocks|, body);
      RetStays(LowerBlock(main, OpenLoop(g, loop), |g.blocks|, body).0, h);
    case ForLoop(_, _, _, _, _, body) =>
      ForGrows(main, g, cur, s);
      hide LowerStatement;
      RetEmittedIn(main, OpenForLoop(g, cur, s), |g.blocks| + 4, body);
      RetStays(LowerBlock(main, OpenForLoop(g, cur, s), |g.blocks| + 4, body).0, h);
  }

  lemma RetHere(main: bool, g: Gen, cur: nat, s: Statement)
    requires s.ExitFunction? && cur < |g.blocks|
    ensures HasRet(LowerStatement(main, g, cur, s).0)
  {
    hide CompileExpression;
    var c := CompileExpression(g.nextReg, s.expression);
    var h := LowerStatement(main, g, cur, s).0;
    assert h.blocks[cur] == g.blocks[cur] + c.code + [Ret(c.result)];
    var i := Ret(c.result);
    assert cur < |h.blocks| && i in h.blocks[cur] && i.Ret?;
  }

  lemma {:induction false} RetEmittedIn(main: bool, g: Gen, cur: nat, block: Block)
    requires Valid(g) && cur < |g.blocks| && !NoReturn(block)
    ensures HasRet(LowerBlock(main, g, cur, block).0)
    decreases block, 1
  {
    hide LowerStatement, Frame, Owns, Extends, HasRet, Valid;
    var Then(s, rest) := block;
    var (h, c) := LowerStatement(main, g, cur, s);
    FrameStatement(main, g, cur, s);
    FrameFacts(g, h, cur, LabelsIn(s), LoopsIn(s), c);
    if !NoReturnIn(s) {
      RetEmitted(main, g, cur, s);
      FrameBlock(main, h, c, rest);
      FrameFacts(h, LowerBlock(main, h, c, rest).0, c, LabelsOf(rest), LoopsOf(rest), LowerBlock(main, h, c, rest).1);
      RetStays(h, LowerBlock(main, h, c, rest).0);
    } else {
      RetEmittedIn(main, h, c, rest);
    }
  }

  // The finished function.

  lemma {:induction false} PrologueIsPlain(g: Gen, variables: seq<Variable>)
    ensures Open(Prologue(variables)) && CodeLinked(g, Prologue(variables))
  {
    if variables != [] {
      PrologueIsPlain(g, variables[1..]);
    }
  }

  lemma EntryLinked(variables: seq<Variable>)
    ensures var g := Entry(variables); Linked(g, {}) && Sealable(g, 0, {})
  {
    hide Prologue;
    var g := Entry(variables);
    EntryFacts(variables);
    PrologueIsPlain(g, variables);
    assert g.blocks[0] == [ResetStack] + Prologue(variables);
    OpenConcat([ResetStack], Prologue(variables));
    OneLinked(g, ResetStack);
    LinkedConcat(g, [ResetStack], Prologue(variables));
  }

  ghost predicate AllTerminated(f: Gen) {
    forall b: nat :: b < |f.blocks| ==> Terminated(f.blocks[b])
  }

  /** Blocks without jumps out of the function are all inside it. */
  lemma LinkedIsWellFormed(f: Gen, done: set<nat>)
    requires Linked(f, done) && f.labels.Keys <= done && AllTerminated(f) && AllTyped(f)
    ensures WellFormedFunction(f)
  {
    assert forall b: nat :: b in f.placed <==> b < |f.blocks|;
    forall b <- f.placed, i <- f.blocks[b] ensures BranchesInside(f, i) && WellTyped(i) {
      assert CodeTyped(f.blocks[b]);
      assert CodeLinked(f, f.blocks[b]);
      assert InstrLinked(f, i);
      if i.IndirectBr? {
        assert f.destinations[i.index] == f.returnPoints;
      }
    }
  }

  lemma EverythingOwned(g: Gen, h: Gen, ls: set<nat>, open: set<nat>)
    requires |g.blocks| == 1 && g.labels == map[] && Sealed(g, h, 0, ls, open)
    requires h.labels.Keys <= ls
    ensures forall b: nat :: b < |h.blocks| && b !in open ==> Terminated(h.blocks[b])
  {
    forall b: nat | b < |h.blocks| && b !in open ensures Terminated(h.blocks[b]) {
      assert Owns(g, h, 0, ls, b);
    }
  }

  lemma OpenEnd(g: Gen, h: Gen, ls: set<nat>, c: nat)
    requires Sealed(g, h, 0, ls, {c})
    ensures c < |h.blocks| && !EndsWithTerminator(h, c) && Terminated(h.blocks[c] + [RetVoid])
  {
    assert c in {c};
    OpenConcat(h.blocks[c], [RetVoid]);
  }

  lemma WellFormedIf(main: bool, variables: seq<Variable>, body: Block)
    requires FormedBlock(body, {}) && UniqueLabels(body) && Integral(variables)
    requires JumpsOf(body) <= LabelsOf(body) && NoReturn(body) && ValuesExistInBlock(main, body) && CallsCompleteInBlock(main, body)
    ensures WellFormedFunction(LowerFunction(main, variables, body))
  {
    hide LowerBlock, Frame, Owns, Sealed, Linked, WellFormedFunction, Terminated, Entry, EndsWithTerminator, FormedBlock, UniqueLabels, AllTyped;
    var g := Entry(variables);
    var (h, last) := LowerBlock(main, g, 0, body);
    var f := LowerFunction(main, variables, body);
    var ls := LabelsOf(body);
    EntryFacts(variables);
    EntryLinked(variables);
    PlacedExists(g, {});
    EntryInside(variables);
    LinkedBlock(main, g, 0, body, {}, {});
    LabelsKnownOf(main, g, 0, body);
    assert {} + ls == ls && h.labels.Keys <= ls;
    SealsBlock(main, g, 0, body, {});
    EverythingOwned(g, h, ls, {last});
    OpenEnd(g, h, ls, last);
    OneLinked(h, RetVoid);
    LinkedEmit(h, ls, last, [RetVoid]);
    assert f == Emit(h, last, [RetVoid]);
    FunctionTypedExactly(main, variables, body);
    LinkedIsWellFormed(f, ls);
  }

  lemma EntryInside(variables: seq<Variable>)
    ensures 0 in Entry(variables).placed
  {
  }

  lemma TerminatedHasNoRet(f: Gen)
    requires AllTerminated(f)
    ensures !HasRet(f)
  {
    forall b: nat, i | b < |f.blocks| && i in f.blocks[b] ensures !i.Ret? {
      var k :| 0 <= k < |f.blocks[b]| && f.blocks[b][k] == i;
      assert Terminated(f.blocks[b]);
      assert k < |f.blocks[b]| - 1 ==> i == f.blocks[b][..|f.blocks[b]| - 1][k];
    }
  }

  /** A block with code is inside the function, so when it is well-formed the target is too. */
  lemma JumpsInside(f: Gen, done: set<nat>, l: nat)
    requires Linked(f, done) && WellFormedFunction(f) && JumpsTo(f, l)
    requires forall k <- f.labels :: k !in done ==> f.blocks[f.labels[k]] == []
    ensures l in done
  {
    var t := f.labels[l];
    var b: nat :| b < |f.blocks| && HasTarget(f.blocks[b], t);
    var i :| i in f.blocks[b] && t in Targets(i);
    assert b in f.placed;
    assert BranchesInside(f, i);
    assert t in f.placed;
  }

  /** The finished function keeps the tables linked and contains all that was generated. */
  lemma FunctionLinked(main: bool, variables: seq<Variable>, body: Block)
    requires FormedBlock(body, {}) && UniqueLabels(body)
    ensures var f := LowerFunction(main, variables, body);
      var h := LowerBlock(main, Entry(variables), 0, body).0;
      && Linked(f, LabelsOf(body)) && Extends(h, f) && f.labels == h.labels
      && forall k <- f.labels :: k !in LabelsOf(body) ==> f.blocks[f.labels[k]] == []
  {
    hide LowerBlock, Frame, Owns, Linked, Entry, EndsWithTerminator, FormedBlock, UniqueLabels, Extends, Valid, CodeLinked;
    var g := Entry(variables);
    var (h, last) := LowerBlock(main, g, 0, body);
    var ls, xs := LabelsOf(body), LoopsOf(body);
    EntryFacts(variables);
    EntryLinked(variables);
    EntryInside(variables);
    LinkedBlock(main, g, 0, body, {}, {});
    assert {} + ls == ls;
    FrameBlock(main, g, 0, body);
    OneLinked(h, RetVoid);
    LinkedEmit(h, ls, last, [RetVoid]);
    ExtendsEmit(h, last, [RetVoid]);
    ExtendsSelf(h);
    FrameEmit(g, h, 0, ls, xs, last, [RetVoid]);
    UnplacedEmpty(g, h, ls, xs);
    UnplacedEmpty(g, Emit(h, last, [RetVoid]), ls, xs);
  }

  lemma WellFormedOnlyIf(main: bool, variables: seq<Variable>, body: Block)
    requires FormedBlock(body, {}) && UniqueLabels(body) && Integral(variables)
    requires WellFormedFunction(LowerFunction(main, variables, body))
    ensures JumpsOf(body) <= LabelsOf(body) && NoReturn(body) && ValuesExistInBlock(main, body) && CallsCompleteInBlock(main, body)
  {
    hide LowerBlock, Linked, WellFormedFunction, Terminated, Entry, FormedBlock, UniqueLabels;
    hide Extends, HasRet, JumpsTo, LowerFunction, Valid, AllTyped;
    var g := Entry(variables);
    var h := LowerBlock(main, g, 0, body).0;
    var f := LowerFunction(main, variables, body);
    EntryFacts(variables);
    FunctionLinked(main, variables, body);
    forall l | l in JumpsOf(body) ensures l in LabelsOf(body) {
      JumpEmittedIn(main, g, 0, body, l);
      JumpStays(h, f, l);
      JumpsInside(f, LabelsOf(body), l);
    }
    LabelsKnownOf(main, g, 0, body);
    InsideAreTerminated(f, LabelsOf(body));
    TerminatedHasNoRet(f);
    InsideAreTyped(f, LabelsOf(body));
    FunctionTypedExactly(main, variables, body);
    if !NoReturn(body) {
      RetEmittedIn(main, g, 0, body);
      RetStays(h, f);
    }
  }

  lemma InsideAreTerminated(f: Gen, done: set<nat>)
    requires Linked(f, done) && f.labels.Keys <= done && WellFormedFunction(f)
    ensures AllTerminated(f)
  {
    assert forall b: nat :: b in f.placed <==> b < |f.blocks|;
  }

  lemma InsideAreTyped(f: Gen, done: set<nat>)
    requires Linked(f, done) && f.labels.Keys <= done && WellFormedFunction(f)
    ensures AllTyped(f)
  {
    assert forall b: nat :: b in f.placed <==> b < |f.blocks|;
    forall b: nat | b < |f.blocks| ensures CodeTyped(f.blocks[b]) {
      assert forall k | 0 <= k < |f.blocks[b]| :: f.blocks[b][k] in f.blocks[b];
    }
  }

  /** The generated function is well-formed exactly when every label jumped to is placed in
      it, it has no explicit return, as its type is void and the value returned is not, it
      uses no value of a user function, as those are void as well, and each of its calls has
      all its arguments. */
  lemma WellFormedExactly(main: bool, variables: seq<Variable>, body: Block)
    requires FormedBlock(body, {}) && UniqueLabels(body) && Integral(variables)
    ensures WellFormedFunction(LowerFunction(main, variables, body)) <==>
      && JumpsOf(body) <= LabelsOf(body) && NoReturn(body)
      && ValuesExistInBlock(main, body) && CallsCompleteInBlock(main, body)
  {
    hide WellFormedFunction, LowerFunction, FormedBlock, UniqueLabels, Integral, ValuesExistInBlock, CallsCompleteInBlock, NoReturn;
    if WellFormedFunction(LowerFunction(main, variables, body)) {
      WellFormedOnlyIf(main, variables, body);
    }
    if JumpsOf(body) <= LabelsOf(body) && NoReturn(body) && ValuesExistInBlock(main, body) && CallsCompleteInBlock(main, body) {
      WellFormedIf(main, variables, body);
    }
  }

  /** A jump to a label of another function leads out of this one. */
  lemma GotoElsewhereIsRefused(main: bool, l: nat)
    ensures var body := Then(Goto(l), End);
      LowerableBlock(main, body, {}) && UniqueLabels(body) && !WellFormedFunction(LowerFunction(main, [], body))
  {
    hide WellFormedFunction, LowerFunction;
    var body := Then(Goto(l), End);
    assert LabelsOf(End) == {} == LabelsIn(Goto(l)) && LabelsOf(body) == {};
    assert JumpsIn(Goto(l)) == {l} && l in JumpsOf(body);
    assert LowerableStatement(main, Goto(l), {}) && LowerableBlock(main, End, {}) && UniqueLabels(End);
    WellFormedExactly(main, [], body);
  }

  lemma IntegerIsLowerable(k: int)
    ensures var e := Literal(Integer, k);
      Formed(e) && ValueExists(e) && CallsComplete(e) && IsValue(e)
  {
  }

  /** One explicit return, at the very end, is enough for LLVM to refuse the function. */
  lemma ExplicitReturnIsRefused(main: bool)
    ensures var body := Then(ExitFunction(Literal(Integer, 1)), End);
      LowerableBlock(main, body, {}) && UniqueLabels(body) && !WellFormedFunction(LowerFunction(main, [], body))
  {
    hide WellFormedFunction, LowerFunction, ValueExists, CallsComplete, IsValue, Formed;
    var e := Literal(Integer, 1);
    var body := Then(ExitFunction(e), End);
    IntegerIsLowerable(1);
    assert LowerableStatement(main, body.head, {});
    assert !NoReturnIn(body.head) && !NoReturn(body);
    WellFormedExactly(main, [], body);
  }

  /** Storing what a user function returns: the function called is void in the code. */
  lemma FunctionValueIsRefused(main: bool, foo: Callee, x: Variable)
    requires foo.UserFunction? && foo.params == [] && x.typ == Builtin(Integer)
    ensures var body := Then(Assignment(x, Expression.Call(foo, NoArguments, Builtin(Integer))), End);
      FormedBlock(body, {}) && UniqueLabels(body) && !WellFormedFunction(LowerFunction(main, [x], body))
  {
    hide WellFormedFunction, LowerFunction;
    var e := Expression.Call(foo, NoArguments, Builtin(Integer));
    var s := Assignment(x, e);
    var body := Then(s, End);
    assert FormedStatement(s, {}) by { assert Formed(e); }
    assert LabelsIn(s) == {} && UniqueLabels(body);
    assert YieldsNothing(e) && !ValuesExistIn(main, s);
    WellFormedExactly(main, [x], body);
  }

  /** A command called without arguments although it has a parameter. */
  lemma MissingArgumentIsRefused(main: bool, wait: Callee)
    requires wait.Command? && wait.params != [] && WidthOf(wait.result).Some? && !S.EndsProgram(main, wait)
    ensures var body := Then(FunctionCall(wait, NoArguments, wait.result), End);
      FormedBlock(body, {}) && UniqueLabels(body) && !WellFormedFunction(LowerFunction(main, [], body))
  {
    hide WellFormedFunction, LowerFunction;
    var s := FunctionCall(wait, NoArguments, wait.result);
    var body := Then(s, End);
    assert FormedStatement(s, {});
    assert LabelsIn(s) == {} && UniqueLabels(body);
    assert !CallsCompleteIn(main, s);
    WellFormedExactly(main, [], body);
  }
}
