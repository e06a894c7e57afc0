/** What lowering leaves alone: blocks only grow at their end, and only the insertion block,
    new blocks and the blocks of the labels placed are touched. */
module LoweringFrames {
  import opened Words
  import opened Ir
  import opened L = Llvm
  import opened Lowering

  // The labels placed and the loops defined by a piece of code.

  function LabelsIn(s: Statement): set<nat>
    decreases s, 0
  {
    match s
    case Label(l) => {l}
    case Conditional(_, t, f) => LabelsOf(t) + LabelsOf(f)
    case InfiniteLoop(_, body) => LabelsOf(body)
    case ForLoop(_, _, _, _, _, body) => LabelsOf(body)
    case _ => {}
  }

  function LabelsOf(b: Block): set<nat>
    decreases b, 0
  {
    match b
    case End => {}
    case Then(s, rest) => LabelsIn(s) + LabelsOf(rest)
  }

  function LoopsIn(s: Statement): set<nat>
    decreases s, 0
  {
    match s
    case Conditional(_, t, f) => LoopsOf(t) + LoopsOf(f)
    case InfiniteLoop(loop, body) => {loop} + LoopsOf(body)
    case ForLoop(loop, _, _, _, _, body) => {loop} + LoopsOf(body)
    case _ => {}
  }

  function LoopsOf(b: Block): set<nat>
    decreases b, 0
  {
    match b
    case End => {}
    case Then(s, rest) => LoopsIn(s) + LoopsOf(rest)
  }

  /** The tables are consistent; in particular every indirect branch lists every return point. */
  ghost predicate Valid(g: Gen) {
    && (forall l <- g.labels :: g.labels[l] < |g.blocks|)
    && (forall l <- g.labels, k <- g.labels :: g.labels[l] == g.labels[k] ==> l == k)
    && (forall i :: 0 <= i < |g.destinations| ==> g.destinations[i] == g.returnPoints)
  }

  /** `h` continues `g`: everything emitted is still there, at the same place. */
  ghost predicate Extends(g: Gen, h: Gen) {
    && |g.blocks| <= |h.blocks|
    && (forall b :: 0 <= b < |g.blocks| ==> g.blocks[b] <= h.blocks[b])
    && (forall l <- g.labels :: l in h.labels && h.labels[l] == g.labels[l])
    && g.returnPoints <= h.returnPoints
    && |g.destinations| <= |h.destinations|
  }

  lemma ExtendsTransitive(g: Gen, h: Gen, k: Gen)
    requires Extends(g, h) && Extends(h, k)
    ensures Extends(g, k)
  {
  }

  /** `b` belongs to the code generated from `g` to `h` with insertion block `cur`. */
  ghost predicate Owns(g: Gen, h: Gen, cur: nat, labels: set<nat>, b: nat) {
    && b < |h.blocks|
    && (b == cur || b >= |g.blocks| || exists l :: l in labels && l in g.labels && g.labels[l] == b)
    && (forall l <- h.labels :: l !in g.labels && l !in labels ==> h.labels[l] != b)
  }

  ghost predicate Frame(g: Gen, h: Gen, cur: nat, labels: set<nat>, loops: set<nat>) {
    && Valid(g) && Valid(h) && Extends(g, h) && cur < |g.blocks|
    && (forall b :: 0 <= b < |g.blocks| && b != cur && (forall l <- labels :: l in g.labels ==> g.labels[l] != b)
          ==> h.blocks[b] == g.blocks[b])
    && (forall l <- h.labels :: l !in g.labels ==> h.labels[l] >= |g.blocks|)
    && (forall l <- h.labels :: l !in g.labels && l !in labels ==> h.blocks[h.labels[l]] == [])
    && (forall x <- g.exits :: x in h.exits && (x !in loops ==> h.exits[x] == g.exits[x]))
  }

  lemma FrameTransitive(g: Gen, h: Gen, k: Gen, cur: nat, mid: nat, ls1: set<nat>, xs1: set<nat>, ls2: set<nat>, xs2: set<nat>)
    requires Frame(g, h, cur, ls1, xs1) && Owns(g, h, cur, ls1, mid)
    requires Frame(h, k, mid, ls2, xs2)
    ensures Frame(g, k, cur, ls1 + ls2, xs1 + xs2)
  {
    ExtendsTransitive(g, h, k);
    BlocksTransitive(g, h, k, cur, mid, ls1, xs1, ls2, xs2);
    UnplacedTransitive(g, h, k, cur, mid, ls1, xs1, ls2, xs2);
    hide Owns, Extends, Valid;
  }

  lemma BlocksTransitive(g: Gen, h: Gen, k: Gen, cur: nat, mid: nat, ls1: set<nat>, xs1: set<nat>, ls2: set<nat>, xs2: set<nat>)
    requires Frame(g, h, cur, ls1, xs1) && Owns(g, h, cur, ls1, mid)
    requires Frame(h, k, mid, ls2, xs2)
    ensures forall b :: 0 <= b < |g.blocks| && b != cur && (forall l <- ls1 + ls2 :: l in g.labels ==> g.labels[l] != b) ==>
      k.blocks[b] == g.blocks[b]
  {
  }

  lemma UnplacedTransitive(g: Gen, h: Gen, k: Gen, cur: nat, mid: nat, ls1: set<nat>, xs1: set<nat>, ls2: set<nat>, xs2: set<nat>)
    requires Frame(g, h, cur, ls1, xs1) && Owns(g, h, cur, ls1, mid)
    requires Frame(h, k, mid, ls2, xs2)
    ensures forall l <- k.labels :: l !in g.labels && l !in ls1 + ls2 ==> k.blocks[k.labels[l]] == []
  {
  }

  lemma OwnsLater(g: Gen, h: Gen, k: Gen, cur: nat, mid: nat, ls1: set<nat>, xs1: set<nat>, ls2: set<nat>, xs2: set<nat>, b: nat)
    requires Frame(g, h, cur, ls1, xs1) && Owns(g, h, cur, ls1, b)
    requires Frame(h, k, mid, ls2, xs2)
    ensures Owns(g, k, cur, ls1 + ls2, b)
  {
  }

  lemma OwnsThrough(g: Gen, h: Gen, k: Gen, cur: nat, mid: nat, ls1: set<nat>, xs1: set<nat>, ls2: set<nat>, xs2: set<nat>, b: nat)
    requires Frame(g, h, cur, ls1, xs1) && Owns(g, h, cur, ls1, mid)
    requires Frame(h, k, mid, ls2, xs2) && Owns(h, k, mid, ls2, b)
    ensures Owns(g, k, cur, ls1 + ls2, b)
  {
  }

  /** Two pieces of code one after the other; `b` is a block the first one owns. */
  lemma Chain(g: Gen, h: Gen, k: Gen, cur: nat, mid: nat, ls1: set<nat>, xs1: set<nat>, ls2: set<nat>, xs2: set<nat>,
              b: nat, c: nat, ls: set<nat>, xs: set<nat>)
    requires Frame(g, h, cur, ls1, xs1) && Owns(g, h, cur, ls1, mid) && Owns(g, h, cur, ls1, b)
    requires Frame(h, k, mid, ls2, xs2) && Owns(h, k, mid, ls2, c)
    requires ls == ls1 + ls2 && xs == xs1 + xs2
    ensures Frame(g, k, cur, ls, xs) && Owns(g, k, cur, ls, c) && Owns(g, k, cur, ls, b)
  {
    hide Frame, Owns;
    FrameTransitive(g, h, k, cur, mid, ls1, xs1, ls2, xs2);
    OwnsThrough(g, h, k, cur, mid, ls1, xs1, ls2, xs2, c);
    OwnsLater(g, h, k, cur, mid, ls1, xs1, ls2, xs2, b);
  }

  lemma FrameEmit(g: Gen, h: Gen, cur: nat, ls: set<nat>, xs: set<nat>, b: nat, code: seq<Instr>)
    requires Frame(g, h, cur, ls, xs) && Owns(g, h, cur, ls, b)
    ensures Frame(g, Emit(h, b, code), cur, ls, xs)
    ensures forall c :: Owns(g, h, cur, ls, c) ==> Owns(g, Emit(h, b, code), cur, ls, c)
  {
  }

  lemma {:induction false} AddToEachAt(ds: seq<seq<nat>>, b: nat)
    ensures |AddToEach(ds, b)| == |ds|
    ensures forall i :: 0 <= i < |ds| ==> AddToEach(ds, b)[i] == ds[i] + [b]
  {
    if ds != [] {
      AddToEachAt(ds[1..], b);
    }
  }

  lemma FrameNewBlock(g: Gen, cur: nat)
    requires Valid(g) && cur < |g.blocks|
    ensures Valid(NewBlock(g)) && Frame(g, NewBlock(g), cur, {}, {})
    ensures Owns(g, NewBlock(g), cur, {}, |g.blocks|) && Owns(g, NewBlock(g), cur, {}, cur)
  {
  }

  lemma FrameReflexive(g: Gen, cur: nat)
    requires Valid(g) && cur < |g.blocks|
    ensures Frame(g, g, cur, {}, {}) && Owns(g, g, cur, {}, cur)
  {
  }

  lemma FrameAddLabel(g: Gen, cur: nat, l: nat)
    requires Valid(g) && cur < |g.blocks|
    ensures Frame(g, AddLabel(g, l), cur, {}, {}) && Owns(g, AddLabel(g, l), cur, {}, cur)
    ensures LabelBlock(g, l) < |AddLabel(g, l).blocks|
    ensures l in AddLabel(g, l).labels && AddLabel(g, l).labels[l] == LabelBlock(g, l)
  {
  }

  lemma FrameGosub(g: Gen, cur: nat, l: nat)
    requires Valid(g) && cur < |g.blocks|
    ensures Frame(g, LowerGosub(g, cur, l), cur, {}, {})
    ensures Owns(g, LowerGosub(g, cur, l), cur, {}, |AddLabel(g, l).blocks|)
  {
    var g1 := AddLabel(g, l);
    var c := |g1.blocks|;
    FrameAddLabel(g, cur, l);
    FrameReturnPoint(g, g1, cur);
    var g2 := AddReturnPoint(NewBlock(g1), c);
    var code := [PushReturn(c), Br(LabelBlock(g, l))];
    hide Frame, Owns, Valid, AddReturnPoint;
    OwnedAfterEmit(g, g2, cur, {}, c, cur, code);
    FrameEmit(g, g2, cur, {}, {}, cur, code);
  }

  /** A new block that all indirect branches may lead to. */
  lemma FrameReturnPoint(g: Gen, h: Gen, cur: nat)
    requires Frame(g, h, cur, {}, {}) && Owns(g, h, cur, {}, cur)
    ensures var k := AddReturnPoint(NewBlock(h), |h.blocks|);
      Frame(g, k, cur, {}, {}) && Owns(g, k, cur, {}, cur) && Owns(g, k, cur, {}, |h.blocks|)
  {
    AddToEachAt(h.destinations, |h.blocks|);
    hide AddToEach;
  }

  lemma OwnedAfterEmit(g: Gen, h: Gen, cur: nat, ls: set<nat>, b: nat, at: nat, code: seq<Instr>)
    requires Owns(g, h, cur, ls, b)
    ensures Owns(g, Emit(h, at, code), cur, ls, b)
  {
  }

  lemma FrameOpenLoop(g: Gen, cur: nat, loop: nat)
    requires Valid(g) && cur < |g.blocks|
    ensures Valid(OpenLoop(g, loop)) && Frame(g, OpenLoop(g, loop), cur, {}, {loop})
    ensures Owns(g, OpenLoop(g, loop), cur, {}, |g.blocks|) && Owns(g, OpenLoop(g, loop), cur, {}, |g.blocks| + 1)
    ensures Owns(g, OpenLoop(g, loop), cur, {}, cur)
  {
  }

  lemma FrameOpenFor(g: Gen, cur: nat, loop: nat, counter: Variable, init: Expression, end: Expression, step: Expression)
    requires Valid(g) && cur < |g.blocks|
    ensures var h := OpenFor(g, cur, loop, counter, init, end, step);
      Valid(h) && Frame(g, h, cur, {}, {loop})
      && Owns(g, h, cur, {}, |g.blocks| + 4) && Owns(g, h, cur, {}, |g.blocks| + 5)
      && |h.blocks| == |g.blocks| + 6
      && h.blocks[|g.blocks| + 4] == [] && h.blocks[|g.blocks| + 5] == []
      && h.exits == g.exits[loop := |g.blocks| + 5] && h.labels == g.labels
  {
  }

  lemma FramePlaceLabel(g: Gen, cur: nat, l: nat)
    requires Valid(g) && cur < |g.blocks|
    ensures Frame(g, PlaceLabel(g, cur, l), cur, {l}, {})
    ensures Owns(g, PlaceLabel(g, cur, l), cur, {l}, LabelBlock(g, l))
  {
  }

  lemma FrameJump(g: Gen, h: Gen, cur: nat, target: nat)
    requires Frame(g, h, cur, {}, {}) && Owns(g, h, cur, {}, cur)
    ensures Frame(g, LowerJump(h, cur, target).0, cur, {}, {})
    ensures Owns(g, LowerJump(h, cur, target).0, cur, {}, LowerJump(h, cur, target).1)
  {
  }

  lemma FrameReturn(g: Gen, cur: nat)
    requires Valid(g) && cur < |g.blocks|
    ensures Frame(g, LowerReturn(g, cur).0, cur, {}, {})
    ensures Owns(g, LowerReturn(g, cur).0, cur, {}, LowerReturn(g, cur).1)
  {
  }

  lemma FrameEmitCode(g: Gen, cur: nat, code: seq<Instr>, next: nat)
    requires Valid(g) && cur < |g.blocks|
    ensures Frame(g, EmitCode(g, cur, code, next), cur, {}, {})
    ensures Owns(g, EmitCode(g, cur, code, next), cur, {}, cur)
  {
  }

  lemma FrameEnd(g: Gen, cur: nat)
    requires Valid(g) && cur < |g.blocks|
    ensures Frame(g, NewBlock(Emit(g, cur, [RetVoid])), cur, {}, {})
    ensures Owns(g, NewBlock(Emit(g, cur, [RetVoid])), cur, {}, |g.blocks|)
  {
  }

  lemma {:induction false} FrameStatement(isMain: bool, g: Gen, cur: nat, s: Statement)
    requires Valid(g) && cur < |g.blocks|
    ensures var (h, c) := LowerStatement(isMain, g, cur, s);
      Frame(g, h, cur, LabelsIn(s), LoopsIn(s)) && Owns(g, h, cur, LabelsIn(s), c)
    decreases s, 1
  {
    match s
    case Label(l) => FramePlaceLabel(g, cur, l);
    case Goto(l) => FrameAddLabel(g, cur, l); FrameJump(g, AddLabel(g, l), cur, LabelBlock(g, l));
    case Gosub(l) => FrameGosub(g, cur, l);
    case SubReturn => FrameReturn(g, cur);
    case Conditional(_, _, _) => FrameConditional(isMain, g, cur, s);
    case InfiniteLoop(_, _) => FrameLoop(isMain, g, cur, s);
    case ForLoop(_, _, _, _, _, _) => FrameFor(isMain, g, cur, s);
    case Exit(loop) =>
      FrameReflexive(g, cur);
      if loop in g.exits {
        FrameJump(g, g, cur, g.exits[loop]);
      }
    case Assignment(x, e) =>
      var c := CompileExpression(g.nextReg, e);
      FrameEmitCode(g, cur, c.code + [Store(x, c.result)], c.next);
    case FunctionCall(callee, arguments, ret) =>
      FrameEnd(g, cur);
      var c := CompileCall(g.nextReg, callee, arguments);
      FrameEmitCode(g, cur, c.code, c.next);
    case ExitFunction(e) =>
      var c := CompileExpression(g.nextReg, e);
      FrameEmitCode(g, cur, c.code + [Ret(c.result)], c.next);
    case GuardedLoop(_, _, _, _) => FrameReflexive(g, cur);
    case Missing => FrameReflexive(g, cur);
  }

  lemma {:induction false} FrameConditional(isMain: bool, g: Gen, cur: nat, s: Statement)
    requires Valid(g) && cur < |g.blocks| && s.Conditional?
    ensures var (h, c) := LowerStatement(isMain, g, cur, s);
      Frame(g, h, cur, LabelsIn(s), LoopsIn(s)) && Owns(g, h, cur, LabelsIn(s), c)
    decreases s, 0
  {
    hide Frame, Owns;
    var tb := |g.blocks|;
    FrameNewBlock(g, cur);
    FrameBlock(isMain, NewBlock(g), tb, s.trueBranch);
    var (g1, te) := LowerBlock(isMain, NewBlock(g), tb, s.trueBranch);
    Chain(g, NewBlock(g), g1, cur, tb, {}, {}, LabelsOf(s.trueBranch), LoopsOf(s.trueBranch),
          cur, te, LabelsOf(s.trueBranch), LoopsOf(s.trueBranch));
    FrameElse(isMain, g, g1, cur, te, s);
  }

  lemma {:induction false} FrameElse(isMain: bool, g: Gen, g1: Gen, cur: nat, te: nat, s: Statement)
    requires s.Conditional? && Frame(g, g1, cur, LabelsOf(s.trueBranch), LoopsOf(s.trueBranch))
    requires Owns(g, g1, cur, LabelsOf(s.trueBranch), cur) && Owns(g, g1, cur, LabelsOf(s.trueBranch), te)
    ensures var (g2, fe) := LowerBlock(isMain, NewBlock(g1), |g1.blocks|, s.falseBranch);
      var h := CloseConditional(g2, cur, s.condition, |g.blocks|, te, |g1.blocks|, fe);
      Frame(g, h, cur, LabelsIn(s), LoopsIn(s)) && Owns(g, h, cur, LabelsIn(s), |g2.blocks|)
    decreases s, -1
  {
    hide Frame, Owns;
    var fb := |g1.blocks|;
    FrameFresh(g, g1, cur, LabelsOf(s.trueBranch), LoopsOf(s.trueBranch), te);
    FrameFresh(g, g1, cur, LabelsOf(s.trueBranch), LoopsOf(s.trueBranch), cur);
    FrameBlock(isMain, NewBlock(g1), fb, s.falseBranch);
    var (g2, fe) := LowerBlock(isMain, NewBlock(g1), fb, s.falseBranch);
    Chain(g, NewBlock(g1), g2, cur, fb, LabelsOf(s.trueBranch), LoopsOf(s.trueBranch),
          LabelsOf(s.falseBranch), LoopsOf(s.falseBranch), te, fe, LabelsIn(s), LoopsIn(s));
    OwnsLater(g, NewBlock(g1), g2, cur, fb, LabelsOf(s.trueBranch), LoopsOf(s.trueBranch),
              LabelsOf(s.falseBranch), LoopsOf(s.falseBranch), cur);
    FrameCloseConditional(g, g2, cur, LabelsIn(s), LoopsIn(s), s.condition, |g.blocks|, te, fb, fe);
  }

  lemma FrameCloseConditional(g: Gen, g2: Gen, cur: nat, ls: set<nat>, xs: set<nat>, c: Expression, tb: nat, te: nat, fb: nat, fe: nat)
    requires Frame(g, g2, cur, ls, xs)
    requires Owns(g, g2, cur, ls, cur) && Owns(g, g2, cur, ls, te) && Owns(g, g2, cur, ls, fe)
    ensures var h := CloseConditional(g2, cur, c, tb, te, fb, fe);
      Frame(g, h, cur, ls, xs) && Owns(g, h, cur, ls, |g2.blocks|)
  {
    hide Frame, Owns;
    var k := CompileExpression(g2.nextReg, c);
    var h0 := NewBlock(g2);
    FrameFresh(g, g2, cur, ls, xs, cur);
    FrameFresh(g, g2, cur, ls, xs, te);
    FrameFresh(g, g2, cur, ls, xs, fe);
    var code := k.code + [CondBr(k.result, tb, fb)];
    FrameEmit(g, h0, cur, ls, xs, cur, code);
    var h1 := EmitCode(h0, cur, code, k.next);
    FrameRegister(g, Emit(h0, cur, code), cur, ls, xs, k.next);
    FrameEmit(g, h1, cur, ls, xs, te, [Br(|g2.blocks|)]);
    var h2 := Emit(h1, te, [Br(|g2.blocks|)]);
    FrameEmit(g, h2, cur, ls, xs, fe, [Br(|g2.blocks|)]);
  }

  lemma {:induction false} FrameLoop(isMain: bool, g: Gen, cur: nat, s: Statement)
    requires Valid(g) && cur < |g.blocks| && s.InfiniteLoop?
    ensures var (h, c) := LowerStatement(isMain, g, cur, s);
      Frame(g, h, cur, LabelsIn(s), LoopsIn(s)) && Owns(g, h, cur, LabelsIn(s), c)
    decreases s, 0
  {
    hide Frame, Owns;
    var ls, xs := LabelsOf(s.body), LoopsOf(s.body);
    var lb := |g.blocks|;
    FrameOpenLoop(g, cur, s.loop);
    var g0 := OpenLoop(g, s.loop);
    FrameBlock(isMain, g0, lb, s.body);
    var (g1, le) := LowerBlock(isMain, g0, lb, s.body);
    Chain(g, g0, g1, cur, lb, {}, {s.loop}, ls, xs, cur, le, LabelsIn(s), LoopsIn(s));
    OwnsLater(g, g0, g1, cur, lb, {}, {s.loop}, ls, xs, lb + 1);
    FrameCloseLoop(g, g1, cur, LabelsIn(s), LoopsIn(s), lb, le);
  }

  lemma FrameCloseLoop(g: Gen, g1: Gen, cur: nat, ls: set<nat>, xs: set<nat>, lb: nat, le: nat)
    requires Frame(g, g1, cur, ls, xs)
    requires Owns(g, g1, cur, ls, cur) && Owns(g, g1, cur, ls, le) && Owns(g, g1, cur, ls, lb + 1)
    ensures Frame(g, CloseLoop(g1, cur, lb, le), cur, ls, xs)
    ensures Owns(g, CloseLoop(g1, cur, lb, le), cur, ls, lb + 1)
  {
    hide Frame, Owns;
    var h0 := MoveAfter(g1, lb + 1, le);
    FrameMove(g, g1, cur, ls, xs, lb + 1, le);
    FrameEmit(g, h0, cur, ls, xs, cur, [Br(lb)]);
    FrameEmit(g, Emit(h0, cur, [Br(lb)]), cur, ls, xs, le, [Br(lb)]);
  }

  lemma {:induction false} FrameFor(isMain: bool, g: Gen, cur: nat, s: Statement)
    requires Valid(g) && cur < |g.blocks| && s.ForLoop?
    ensures var (h, c) := LowerStatement(isMain, g, cur, s);
      Frame(g, h, cur, LabelsIn(s), LoopsIn(s)) && Owns(g, h, cur, LabelsIn(s), c)
    decreases s, 0
  {
    hide Frame, Owns, OpenFor, CloseFor;
    var ls, xs := LabelsOf(s.body), LoopsOf(s.body);
    var n := |g.blocks|;
    FrameOpenFor(g, cur, s.loop, s.counter, s.init, s.end, s.step);
    var g0 := OpenFor(g, cur, s.loop, s.counter, s.init, s.end, s.step);
    FrameBlock(isMain, g0, n + 4, s.body);
    var (g1, le) := LowerBlock(isMain, g0, n + 4, s.body);
    Chain(g, g0, g1, cur, n + 4, {}, {s.loop}, ls, xs, n + 5, le, LabelsIn(s), LoopsIn(s));
    FrameCloseFor(g, g1, cur, LabelsIn(s), LoopsIn(s), s.counter, s.step, n, le);
  }

  lemma FrameCloseFor(g: Gen, g1: Gen, cur: nat, ls: set<nat>, xs: set<nat>, counter: Variable, step: Expression, n: nat, le: nat)
    requires Frame(g, g1, cur, ls, xs)
    requires Owns(g, g1, cur, ls, le) && Owns(g, g1, cur, ls, n + 5)
    ensures Frame(g, CloseFor(g1, counter, step, n, le), cur, ls, xs)
    ensures Owns(g, CloseFor(g1, counter, step, n, le), cur, ls, n + 5)
  {
    hide Frame, Owns;
    var inc := |g1.blocks|;
    FrameFresh(g, g1, cur, ls, xs, le);
    FrameFresh(g, g1, cur, ls, xs, n + 5);
    FrameEmit(g, NewBlock(g1), cur, ls, xs, le, [Br(inc)]);
    var h1 := Emit(NewBlock(g1), le, [Br(inc)]);
    var c := CompileIncrement(h1.nextReg, counter, step);
    FrameEmit(g, h1, cur, ls, xs, inc, c.code + [Br(n)]);
    FrameRegister(g, Emit(h1, inc, c.code + [Br(n)]), cur, ls, xs, c.next);
  }

  lemma FrameRegister(g: Gen, h: Gen, cur: nat, ls: set<nat>, xs: set<nat>, next: nat)
    requires Frame(g, h, cur, ls, xs)
    ensures Frame(g, h.(nextReg := next), cur, ls, xs)
    ensures forall c :: Owns(g, h, cur, ls, c) ==> Owns(g, h.(nextReg := next), cur, ls, c)
  {
  }

  lemma FrameMove(g: Gen, h: Gen, cur: nat, ls: set<nat>, xs: set<nat>, b: nat, after: nat)
    requires Frame(g, h, cur, ls, xs)
    ensures Frame(g, MoveAfter(h, b, after), cur, ls, xs)
    ensures forall c :: Owns(g, h, cur, ls, c) ==> Owns(g, MoveAfter(h, b, after), cur, ls, c)
  {
  }

  lemma FrameFresh(g: Gen, h: Gen, cur: nat, ls: set<nat>, xs: set<nat>, b: nat)
    requires Frame(g, h, cur, ls, xs) && Owns(g, h, cur, ls, b)
    ensures Valid(NewBlock(h)) && Frame(g, NewBlock(h), cur, ls, xs)
    ensures Owns(g, NewBlock(h), cur, ls, b) && Owns(g, NewBlock(h), cur, ls, |h.blocks|)
  {
  }

  lemma {:induction false} FrameBlock(isMain: bool, g: Gen, cur: nat, block: Block)
    requires Valid(g) && cur < |g.blocks|
    ensures var (h, c) := LowerBlock(isMain, g, cur, block);
      Frame(g, h, cur, LabelsOf(block), LoopsOf(block)) && Owns(g, h, cur, LabelsOf(block), c)
    decreases block, 2
  {
    match block
    case End => FrameReflexive(g, cur);
    case Then(s, rest) =>
      var (g1, c1) := LowerStatement(isMain, g, cur, s);
      FrameStatement(isMain, g, cur, s);
      FrameBlock(isMain, g1, c1, rest);
      var (g2, c2) := LowerBlock(isMain, g1, c1, rest);
      FrameTransitive(g, g1, g2, cur, c1, LabelsIn(s), LoopsIn(s), LabelsOf(rest), LoopsOf(rest));
      OwnsThrough(g, g1, g2, cur, c1, LabelsIn(s), LoopsIn(s), LabelsOf(rest), LoopsOf(rest), c2);
  }
}
