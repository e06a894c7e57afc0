/** Syntax trees as values: the rewriting of the binary bitwise-not, whose right operand is
    meaningless, into the unary one, and why it keeps what an expression means. */
module SyntaxTrees {
  import opened Words
  import opened Ir

  // `Call` and `Assign` have side effects; `Other` is any further kind of node that the search
  // for side effects does not know to be harmless.
  datatype Kind =
    | Binary(bop: BinaryOp)
    | Unary(uop: UnaryOp)
    | Variable(name: string)
    | Literal(value: int)
    | ArrayRef(name: string)
    | ArgList
    | Conditional
    | Call(name: string)
    | Assign(name: string)
    | Block
    | InfiniteLoop
    | WhileLoop
    | UntilLoop
    | ForLoop(name: string, hasStep: bool)
    | Exit
    | Other(tag: nat)

  predicate HasNoSideEffects(k: Kind) {
    k.Binary? || k.Unary? || k.Variable? || k.Literal? || k.ArrayRef? || k.ArgList? || k.Conditional?
  }

  const NOT := Kind.Binary(BitwiseNot)
  const UNARY_NOT := Kind.Unary(UnaryBitwiseNot)

  // Trees as values.

  datatype Tree = Tree(kind: Kind, children: Trees)
  datatype Trees = Nil | Cons(head: Tree, tail: Trees)

  predicate WellShaped(t: Tree)
    decreases t, 0
  {
    (t.kind == NOT ==> t.children.Cons? && t.children.tail.Cons? && t.children.tail.tail.Nil?) && AllWellShaped(t.children)
  }

  predicate AllWellShaped(ts: Trees)
    decreases ts, 0
  {
    ts.Cons? ==> WellShaped(ts.head) && AllWellShaped(ts.tail)
  }

  predicate Pure(t: Tree)
    decreases t, 0
  {
    HasNoSideEffects(t.kind) && AllPure(t.children)
  }

  predicate AllPure(ts: Trees)
    decreases ts, 0
  {
    ts.Cons? ==> Pure(ts.head) && AllPure(ts.tail)
  }

  /** No right operand of a bitwise-not, wherever it is, has side effects. */
  predicate Eliminable(t: Tree)
    decreases t, 0
  {
    (t.kind == NOT && t.children.Cons? && t.children.tail.Cons? ==> Pure(t.children.tail.head)) && AllEliminable(t.children)
  }

  predicate AllEliminable(ts: Trees)
    decreases ts, 0
  {
    ts.Cons? ==> Eliminable(ts.head) && AllEliminable(ts.tail)
  }

  /** The kinds of nodes that count as having side effects. */
  predicate Harmful(k: Kind) {
    k.Call? || k.Assign? || k.Block? || k.InfiniteLoop? || k.WhileLoop? || k.UntilLoop? || k.ForLoop? || k.Exit? || k.Other?
  }

  predicate Occurs(u: Tree, t: Tree)
    decreases t, 0
  {
    u == t || OccursIn(u, t.children)
  }

  predicate OccursIn(u: Tree, ts: Trees)
    decreases ts, 0
  {
    ts.Cons? && (Occurs(u, ts.head) || OccursIn(u, ts.tail))
  }

  lemma {:induction false} PureExactly(t: Tree)
    ensures Pure(t) <==> forall u :: Occurs(u, t) ==> !Harmful(u.kind)
    decreases t, 0
  {
    assert Occurs(t, t);
    AllPureExactly(t.children);
  }

  lemma {:induction false} AllPureExactly(ts: Trees)
    ensures AllPure(ts) <==> forall u :: OccursIn(u, ts) ==> !Harmful(u.kind)
    decreases ts, 0
  {
    if ts.Cons? {
      PureExactly(ts.head);
      AllPureExactly(ts.tail);
    }
  }

  /** In the right operand of the bitwise-not `u` there is a node with side effects. */
  ghost predicate HarmfulOperand(u: Tree) {
    && u.kind == Kind.Binary(BitwiseNot) && u.children.Cons? && u.children.tail.Cons?
    && exists v :: Occurs(v, u.children.tail.head) && Harmful(v.kind)
  }

  lemma {:induction false} HarmlessOperandsExactly(t: Tree)
    ensures Eliminable(t) <==> forall u :: Occurs(u, t) ==> !HarmfulOperand(u)
    decreases t, 0
  {
    hide HarmfulOperand, Pure;
    assert Occurs(t, t);
    OperandIsHarmful(t);
    HarmlessOperandsInAll(t.children);
  }

  lemma OperandIsHarmful(u: Tree)
    ensures HarmfulOperand(u) <==> u.kind == NOT && u.children.Cons? && u.children.tail.Cons? && !Pure(u.children.tail.head)
  {
    if u.children.Cons? && u.children.tail.Cons? {
      PureExactly(u.children.tail.head);
    }
    hide Pure, Harmful, Occurs;
  }

  lemma {:induction false} HarmlessOperandsInAll(ts: Trees)
    ensures AllEliminable(ts) <==> forall u :: OccursIn(u, ts) ==> !HarmfulOperand(u)
    decreases ts, 0
  {
    hide HarmfulOperand;
    if ts.Cons? {
      HarmlessOperandsExactly(ts.head);
      HarmlessOperandsInAll(ts.tail);
    }
  }

  function Rewrite(t: Tree): Tree
    decreases t, 0
  {
    if t.kind == NOT && t.children.Cons? then Tree(UNARY_NOT, Cons(Rewrite(t.children.head), Nil))
    else Tree(t.kind, RewriteAll(t.children))
  }

  function RewriteAll(ts: Trees): Trees
    decreases ts, 0
  {
    if ts.Nil? then Nil else Cons(Rewrite(ts.head), RewriteAll(ts.tail))
  }

  predicate HasBinaryNot(t: Tree)
    decreases t, 0
  {
    t.kind == NOT || AnyHasBinaryNot(t.children)
  }

  predicate AnyHasBinaryNot(ts: Trees)
    decreases ts, 0
  {
    ts.Cons? && (HasBinaryNot(ts.head) || AnyHasBinaryNot(ts.tail))
  }

  /** Nothing is left to rewrite, however deep it was nested. */
  lemma {:induction false} RewriteEliminates(t: Tree)
    requires WellShaped(t)
    ensures !HasBinaryNot(Rewrite(t))
    decreases t, 0
  {
    if t.kind == NOT {
      RewriteEliminates(t.children.head);
      assert !AnyHasBinaryNot(Nil) && !AnyHasBinaryNot(Cons(Rewrite(t.children.head), Nil));
    } else {
      RewriteAllEliminates(t.children);
    }
  }

  lemma {:induction false} RewriteAllEliminates(ts: Trees)
    requires AllWellShaped(ts)
    ensures !AnyHasBinaryNot(RewriteAll(ts))
    decreases ts, 0
  {
    if ts.Cons? {
      RewriteEliminates(ts.head);
      RewriteAllEliminates(ts.tail);
    }
  }

  /** Without a binary bitwise-not the pass changes nothing. */
  lemma {:induction false} RewriteIsIdentity(t: Tree)
    requires !HasBinaryNot(t)
    ensures Rewrite(t) == t
    decreases t, 0
  {
    RewriteAllIsIdentity(t.children);
  }

  lemma {:induction false} RewriteAllIsIdentity(ts: Trees)
    requires !AnyHasBinaryNot(ts)
    ensures RewriteAll(ts) == ts
    decreases ts, 0
  {
    if ts.Cons? {
      RewriteIsIdentity(ts.head);
      RewriteAllIsIdentity(ts.tail);
    }
  }

  // Evaluation, operands from left to right. `World` knows the arrays and what calls return.
  // Loops run for at most `f` more rounds, then evaluation counts as failed: what a tree
  // evaluates to is what it gives for some f.

  datatype State = State(memory: map<string, int>, trace: seq<(string, seq<int>)>)

  datatype World = World(
    element: (string, seq<int>, map<string, int>) -> Option<int>,
    result: (string, seq<int>, State) -> Option<int>,
    binary: (BinaryOp, int, int) -> Option<int>,
    unary: (UnaryOp, int) -> Option<int>,
    other: (nat, seq<int>, State) -> Option<(int, State)>)

  // `Leaves` is the way of an exit to the end of its loop.
  datatype Outcome = Failed | Gives(value: int, state: State) | Leaves(state: State)
  datatype Outcomes = AllFailed | AllGive(values: seq<int>, last: State) | AllLeave(last: State)
  datatype Progress = Stuck | Next(state: State) | Done(state: State)

  predicate IsLoop(k: Kind) {
    k.InfiniteLoop? || k.WhileLoop? || k.UntilLoop?
  }

  function Evaluate(w: World, t: Tree, s: State, f: nat): Outcome
    decreases f, t, 0
  {
    if t.kind == Kind.Conditional then EvaluateConditional(w, t.children, s, f)
    else if IsLoop(t.kind) then EvaluateLoop(w, t.kind, t.children, s, f)
    else if t.kind.ForLoop? then EvaluateFor(w, t.kind, t.children, s, f)
    else
      match EvaluateAll(w, t.children, s, f)
      case AllFailed => Failed
      case AllLeave(s1) => Leaves(s1)
      case AllGive(vs, s1) => Apply(w, t.kind, vs, s1)
  }

  function EvaluateConditional(w: World, ts: Trees, s: State, f: nat): Outcome
    decreases f, ts, 1
  {
    if ts.Nil? then Failed
    else
      match Evaluate(w, ts.head, s, f)
      case Gives(c, s1) =>
        if c != 0 then EvaluateFirst(w, ts.tail, s1, f)
        else if ts.tail.Nil? then Gives(0, s1)
        else EvaluateFirst(w, ts.tail.tail, s1, f)
      case o => o
  }

  function EvaluateFirst(w: World, ts: Trees, s: State, f: nat): Outcome
    decreases f, ts, 1
  {
    if ts.Nil? then Gives(0, s) else Evaluate(w, ts.head, s, f)
  }

  function EvaluateAll(w: World, ts: Trees, s: State, f: nat): Outcomes
    decreases f, ts, 0
  {
    if ts.Nil? then AllGive([], s)
    else
      match Evaluate(w, ts.head, s, f)
      case Failed => AllFailed
      case Leaves(s1) => AllLeave(s1)
      case Gives(v, s1) =>
        match EvaluateAll(w, ts.tail, s1, f)
        case AllFailed => AllFailed
        case AllLeave(s2) => AllLeave(s2)
        case AllGive(vs, s2) => AllGive([v] + vs, s2)
  }

  /** The rounds of a loop; for a for loop `ts` begins with its end. */
  function EvaluateLoop(w: World, k: Kind, ts: Trees, s: State, f: nat): Outcome
    decreases f, ts, 3
  {
    match Round(w, k, ts, s, f)
    case Stuck => Failed
    case Done(s1) => Gives(0, s1)
    case Next(s1) => if f == 0 then Failed else EvaluateLoop(w, k, ts, s1, f - 1)
  }

  function Round(w: World, k: Kind, ts: Trees, s: State, f: nat): Progress
    decreases f, ts, 2
  {
    if k.InfiniteLoop? then Body(w, ts, s, f)
    else if ts.Nil? then Stuck
    else if k.WhileLoop? then
      match Evaluate(w, ts.head, s, f)
      case Gives(c, s1) => if c == 0 then Done(s1) else Body(w, ts.tail, s1, f)
      case _ => Stuck
    else if k.UntilLoop? then
      match Body(w, ts.tail, s, f)
      case Next(s1) =>
        (match Evaluate(w, ts.head, s1, f)
         case Gives(c, s2) => if c != 0 then Done(s2) else Next(s2)
         case _ => Stuck)
      case p => p
    else if k.ForLoop? then
      match Evaluate(w, ts.head, s, f)
      case Gives(end, s1) => ForRound(w, k, end, ts.tail, s1, f)
      case _ => Stuck
    else Stuck
  }

  /** An exit in the body ends the loop. */
  function Body(w: World, ts: Trees, s: State, f: nat): Progress
    decreases f, ts, 1
  {
    match EvaluateAll(w, ts, s, f)
    case AllFailed => Stuck
    case AllLeave(s1) => Done(s1)
    case AllGive(_, s1) => Next(s1)
  }

  function EvaluateFor(w: World, k: Kind, ts: Trees, s: State, f: nat): Outcome
    decreases f, ts, 1
  {
    if ts.Nil? then Failed
    else
      match Evaluate(w, ts.head, s, f)
      case Gives(_, s1) => EvaluateLoop(w, k, ts.tail, s1, f)
      case o => o
  }

  /** `ts` begins with the step, if there is one, and goes on with the body. */
  function ForRound(w: World, k: Kind, end: int, ts: Trees, s: State, f: nat): Progress
    requires k.ForLoop?
    decreases f, ts, 3
  {
    match StepOf(w, k, ts, s, f)
    case Gives(step, s1) =>
      if k.name !in s1.memory then Stuck
      else if !GoesOn(s1.memory[k.name], end, step) then Done(s1)
      else
        (match ForBody(w, k, ts, s1, f)
         case Next(s2) => Increment(w, k, ts, s2, f)
         case p => p)
    case _ => Stuck
  }

  function Increment(w: World, k: Kind, ts: Trees, s: State, f: nat): Progress
    requires k.ForLoop?
    decreases f, ts, 2
  {
    match StepOf(w, k, ts, s, f)
    case Gives(step, s1) =>
      if k.name !in s1.memory then Stuck
      else
        (match w.binary(Add, s1.memory[k.name], step)
         case Some(sum) => Next(s1.(memory := s1.memory[k.name := sum]))
         case None => Stuck)
    case _ => Stuck
  }

  function StepOf(w: World, k: Kind, ts: Trees, s: State, f: nat): Outcome
    requires k.ForLoop?
    decreases f, ts, 1
  {
    if !k.hasStep then Gives(1, s) else if ts.Nil? then Failed else Evaluate(w, ts.head, s, f)
  }

  function ForBody(w: World, k: Kind, ts: Trees, s: State, f: nat): Progress
    requires k.ForLoop?
    decreases f, ts, 2
  {
    if k.hasStep && ts.Cons? then Body(w, ts.tail, s, f) else Body(w, ts, s, f)
  }

  predicate GoesOn(counter: int, end: int, step: int) {
    if step > 0 then counter <= end else step < 0 && counter >= end
  }

  function OfValue(v: Option<int>, s: State): Outcome {
    if v.Some? then Gives(v.value, s) else Failed
  }

  function Apply(w: World, k: Kind, vs: seq<int>, s: State): Outcome {
    match k
    case Binary(op) =>
      if |vs| != 2 then Failed
      else if op == BitwiseNot then OfValue(w.unary(UnaryBitwiseNot, vs[0]), s)
      else OfValue(w.binary(op, vs[0], vs[1]), s)
    case Unary(op) => if |vs| != 1 then Failed else OfValue(w.unary(op, vs[0]), s)
    case Variable(name) => if name in s.memory then Gives(s.memory[name], s) else Failed
    case Literal(v) => Gives(v, s)
    case ArrayRef(name) => OfValue(w.element(name, vs, s.memory), s)
    case ArgList => Gives(0, s)
    case Call(name) => OfValue(w.result(name, vs, s), s.(trace := s.trace + [(name, vs)]))
    case Assign(name) => if |vs| != 1 then Failed else Gives(vs[0], s.(memory := s.memory[name := vs[0]]))
    case Block => Gives(0, s)
    case Exit => Leaves(s)
    case Other(tag) => (match w.other(tag, vs, s) case None => Failed case Some(r) => Gives(r.0, r.1))
    case _ => Failed
  }

  /** Evaluating something without side effects leaves the state alone, and no loop. */
  lemma {:induction false} PureKeepsState(w: World, t: Tree, s: State, f: nat)
    requires Pure(t)
    ensures Keeps(Evaluate(w, t, s, f), s)
    decreases t, 1
  {
    if t.kind == Kind.Conditional {
      PureConditional(w, t.children, s, f);
    } else {
      AllPureKeepState(w, t.children, s, f);
    }
  }

  predicate Keeps(o: Outcome, s: State) {
    !o.Leaves? && (o.Gives? ==> o.state == s)
  }

  lemma {:induction false} PureConditional(w: World, ts: Trees, s: State, f: nat)
    requires AllPure(ts)
    ensures Keeps(EvaluateConditional(w, ts, s, f), s)
    decreases ts, 1
  {
    if ts.Cons? {
      PureKeepsState(w, ts.head, s, f);
      PureFirst(w, ts.tail, s, f);
      if ts.tail.Cons? {
        PureFirst(w, ts.tail.tail, s, f);
      }
    }
  }

  lemma {:induction false} PureFirst(w: World, ts: Trees, s: State, f: nat)
    requires AllPure(ts)
    ensures Keeps(EvaluateFirst(w, ts, s, f), s)
    decreases ts, 1
  {
    if ts.Cons? {
      PureKeepsState(w, ts.head, s, f);
    }
  }

  lemma {:induction false} AllPureKeepState(w: World, ts: Trees, s: State, f: nat)
    requires AllPure(ts)
    ensures var o := EvaluateAll(w, ts, s, f); !o.AllLeave? && (o.AllGive? ==> o.last == s)
    decreases ts, 0
  {
    if ts.Cons? {
      PureKeepsState(w, ts.head, s, f);
      AllPureKeepState(w, ts.tail, s, f);
    }
  }

  // Trees in which some of the bitwise-nots are rewritten.

  /** `u` is `t` with some bitwise-nots rewritten, of which no right operand has side effects. */
  predicate Rewritten(t: Tree, u: Tree)
    decreases t, 0
  {
    || (u.kind == t.kind && AllRewritten(t.children, u.children))
    || (IsPureNot(t) && u.kind == UNARY_NOT && u.children.Cons? && u.children.tail.Nil?
        && Rewritten(t.children.head, u.children.head))
  }

  predicate IsPureNot(t: Tree) {
    && t.kind == NOT && t.children.Cons? && t.children.tail.Cons? && t.children.tail.tail.Nil?
    && Pure(t.children.tail.head)
  }

  predicate AllRewritten(ts: Trees, us: Trees)
    decreases ts, 0
  {
    if ts.Nil? then us.Nil? else us.Cons? && Rewritten(ts.head, us.head) && AllRewritten(ts.tail, us.tail)
  }

  lemma {:induction false} RewriteRewrites(t: Tree)
    requires WellShaped(t) && Eliminable(t)
    ensures Rewritten(t, Rewrite(t))
    decreases t, 0
  {
    if t.kind == NOT {
      RewriteRewrites(t.children.head);
    } else {
      RewriteAllRewrites(t.children);
    }
  }

  lemma {:induction false} RewriteAllRewrites(ts: Trees)
    requires AllWellShaped(ts) && AllEliminable(ts)
    ensures AllRewritten(ts, RewriteAll(ts))
    decreases ts, 0
  {
    if ts.Cons? {
      RewriteRewrites(ts.head);
      RewriteAllRewrites(ts.tail);
    }
  }

  // Whatever evaluated before evaluates to the same value with the same effects after.

  predicate SameOutcome(before: Outcome, after: Outcome) {
    before.Failed? || after == before
  }

  predicate SameOutcomes(before: Outcomes, after: Outcomes) {
    before.AllFailed? || after == before
  }

  predicate SameProgress(before: Progress, after: Progress) {
    before.Stuck? || after == before
  }

  lemma {:induction false} RewrittenPreserves(w: World, t: Tree, u: Tree, s: State, f: nat)
    requires Rewritten(t, u)
    ensures SameOutcome(Evaluate(w, t, s, f), Evaluate(w, u, s, f))
    decreases f, t, 0
  {
    hide Pure;
    if u.kind != t.kind {
      NotPreserves(w, t, u, s, f);
    } else {
      if t.kind == Kind.Conditional {
        ConditionalPreserves(w, t.children, u.children, s, f);
      } else if IsLoop(t.kind) {
        LoopPreserves(w, t.kind, t.children, u.children, s, f);
      } else if t.kind.ForLoop? {
        ForPreserves(w, t.kind, t.children, u.children, s, f);
      } else {
        AllPreserve(w, t.children, u.children, s, f);
      }
    }
  }

  lemma {:induction false} NotPreserves(w: World, t: Tree, u: Tree, s: State, f: nat)
    requires Rewritten(t, u) && u.kind != t.kind
    ensures SameOutcome(Evaluate(w, t, s, f), Evaluate(w, u, s, f))
    decreases f, t.children, 0
  {
    var l, r, l1 := t.children.head, t.children.tail.head, u.children.head;
    RewrittenPreserves(w, l, l1, s, f);
    var left := Evaluate(w, l, s, f);
    if left.Gives? {
      PureKeepsState(w, r, left.state, f);
      NotEvaluates(w, l, r, s, f);
      UnaryEvaluates(w, l1, s, f);
    } else if left.Leaves? {
      assert EvaluateAll(w, t.children, s, f) == AllLeave(left.state) == EvaluateAll(w, u.children, s, f);
    } else {
      assert EvaluateAll(w, t.children, s, f) == AllFailed;
    }
  }

  lemma OneMoreOperand(w: World, t: Tree, ts: Trees, s: State, f: nat)
    requires Evaluate(w, t, s, f).Gives?
    ensures var v := Evaluate(w, t, s, f);
      var rest := EvaluateAll(w, ts, v.state, f);
      EvaluateAll(w, Cons(t, ts), s, f) == if rest.AllGive? then AllGive([v.value] + rest.values, rest.last) else rest
  {
  }

  lemma NotEvaluates(w: World, l: Tree, r: Tree, s: State, f: nat)
    requires Evaluate(w, l, s, f).Gives? && Pure(r)
    ensures var left := Evaluate(w, l, s, f);
      var right := Evaluate(w, r, left.state, f);
      Evaluate(w, Tree(NOT, Cons(l, Cons(r, Nil))), s, f)
      == if right.Failed? then Failed else OfValue(w.unary(UnaryBitwiseNot, left.value), left.state)
  {
    var left := Evaluate(w, l, s, f);
    var right := Evaluate(w, r, left.state, f);
    PureKeepsState(w, r, left.state, f);
    OneMoreOperand(w, l, Cons(r, Nil), s, f);
    if right.Failed? {
      assert EvaluateAll(w, Cons(r, Nil), left.state, f) == AllFailed;
    } else {
      OneMoreOperand(w, r, Nil, left.state, f);
      assert EvaluateAll(w, Nil, right.state, f) == AllGive([], right.state);
      assert [right.value] + [] == [right.value];
      assert EvaluateAll(w, Cons(r, Nil), left.state, f) == AllGive([right.value], right.state);
      assert [left.value] + [right.value] == [left.value, right.value];
    }
  }

  lemma UnaryEvaluates(w: World, l: Tree, s: State, f: nat)
    requires Evaluate(w, l, s, f).Gives?
    ensures var left := Evaluate(w, l, s, f);
      Evaluate(w, Tree(UNARY_NOT, Cons(l, Nil)), s, f) == OfValue(w.unary(UnaryBitwiseNot, left.value), left.state)
  {
    var left := Evaluate(w, l, s, f);
    assert EvaluateAll(w, Nil, left.state, f) == AllGive([], left.state);
    assert EvaluateAll(w, Cons(l, Nil), s, f) == AllGive([left.value] + [], left.state);
  }

  lemma {:induction false} ConditionalPreserves(w: World, ts: Trees, us: Trees, s: State, f: nat)
    requires AllRewritten(ts, us)
    ensures SameOutcome(EvaluateConditional(w, ts, s, f), EvaluateConditional(w, us, s, f))
    decreases f, ts, 1
  {
    hide Rewritten;
    if ts.Cons? {
      RewrittenPreserves(w, ts.head, us.head, s, f);
      var c := Evaluate(w, ts.head, s, f);
      if c.Gives? {
        FirstPreserves(w, ts.tail, us.tail, c.state, f);
        if ts.tail.Cons? {
          FirstPreserves(w, ts.tail.tail, us.tail.tail, c.state, f);
        }
      }
    }
  }

  lemma {:induction false} FirstPreserves(w: World, ts: Trees, us: Trees, s: State, f: nat)
    requires AllRewritten(ts, us)
    ensures SameOutcome(EvaluateFirst(w, ts, s, f), EvaluateFirst(w, us, s, f))
    decreases f, ts, 1
  {
    hide Rewritten;
    if ts.Cons? {
      RewrittenPreserves(w, ts.head, us.head, s, f);
    }
  }

  lemma {:induction false} AllPreserve(w: World, ts: Trees, us: Trees, s: State, f: nat)
    requires AllRewritten(ts, us)
    ensures SameOutcomes(EvaluateAll(w, ts, s, f), EvaluateAll(w, us, s, f))
    decreases f, ts, 0
  {
    hide Rewritten;
    if ts.Cons? {
      RewrittenPreserves(w, ts.head, us.head, s, f);
      var v := Evaluate(w, ts.head, s, f);
      if v.Gives? {
        AllPreserve(w, ts.tail, us.tail, v.state, f);
      }
    }
  }

  lemma {:induction false} LoopPreserves(w: World, k: Kind, ts: Trees, us: Trees, s: State, f: nat)
    requires AllRewritten(ts, us)
    ensures SameOutcome(EvaluateLoop(w, k, ts, s, f), EvaluateLoop(w, k, us, s, f))
    decreases f, ts, 3
  {
    hide AllRewritten, Round;
    RoundPreserves(w, k, ts, us, s, f);
    match Round(w, k, ts, s, f)
    case Next(s1) => if f > 0 { LoopPreserves(w, k, ts, us, s1, f - 1); }
    case _ =>
  }

  lemma {:induction false} RoundPreserves(w: World, k: Kind, ts: Trees, us: Trees, s: State, f: nat)
    requires AllRewritten(ts, us)
    ensures SameProgress(Round(w, k, ts, s, f), Round(w, k, us, s, f))
    decreases f, ts, 2
  {
    hide Rewritten, Evaluate, Body, ForRound;
    if k.InfiniteLoop? {
      BodyPreserves(w, ts, us, s, f);
    } else if ts.Cons? {
      if k.UntilLoop? {
        BodyPreserves(w, ts.tail, us.tail, s, f);
        match Body(w, ts.tail, s, f)
        case Next(s1) => RewrittenPreserves(w, ts.head, us.head, s1, f);
        case _ =>
      } else {
        RewrittenPreserves(w, ts.head, us.head, s, f);
        match Evaluate(w, ts.head, s, f)
        case Gives(c, s1) =>
          BodyPreserves(w, ts.tail, us.tail, s1, f);
          if k.ForLoop? { ForRoundPreserves(w, k, c, ts.tail, us.tail, s1, f); }
        case _ =>
      }
    }
  }

  lemma {:induction false} BodyPreserves(w: World, ts: Trees, us: Trees, s: State, f: nat)
    requires AllRewritten(ts, us)
    ensures SameProgress(Body(w, ts, s, f), Body(w, us, s, f))
    decreases f, ts, 1
  {
    hide EvaluateAll, AllRewritten;
    AllPreserve(w, ts, us, s, f);
  }

  lemma {:induction false} ForPreserves(w: World, k: Kind, ts: Trees, us: Trees, s: State, f: nat)
    requires AllRewritten(ts, us)
    ensures SameOutcome(EvaluateFor(w, k, ts, s, f), EvaluateFor(w, k, us, s, f))
    decreases f, ts, 1
  {
    hide Rewritten, EvaluateLoop;
    if ts.Cons? {
      RewrittenPreserves(w, ts.head, us.head, s, f);
      match Evaluate(w, ts.head, s, f)
      case Gives(_, s1) => LoopPreserves(w, k, ts.tail, us.tail, s1, f);
      case _ =>
    }
  }

  lemma {:induction false} ForRoundPreserves(w: World, k: Kind, end: int, ts: Trees, us: Trees, s: State, f: nat)
    requires AllRewritten(ts, us) && k.ForLoop?
    ensures SameProgress(ForRound(w, k, end, ts, s, f), ForRound(w, k, end, us, s, f))
    decreases f, ts, 3
  {
    hide AllRewritten, ForBody, StepOf, Increment;
    StepPreserves(w, k, ts, us, s, f);
    match StepOf(w, k, ts, s, f)
    case Gives(_, s1) =>
      ForBodyPreserves(w, k, ts, us, s1, f);
      match ForBody(w, k, ts, s1, f) {
        case Next(s2) => IncrementPreserves(w, k, ts, us, s2, f);
        case _ =>
      }
    case _ =>
  }

  lemma {:induction false} ForBodyPreserves(w: World, k: Kind, ts: Trees, us: Trees, s: State, f: nat)
    requires AllRewritten(ts, us) && k.ForLoop?
    ensures SameProgress(ForBody(w, k, ts, s, f), ForBody(w, k, us, s, f))
    decreases f, ts, 2
  {
    hide Rewritten, Body;
    if k.hasStep && ts.Cons? {
      BodyPreserves(w, ts.tail, us.tail, s, f);
    } else {
      BodyPreserves(w, ts, us, s, f);
    }
  }

  lemma {:induction false} IncrementPreserves(w: World, k: Kind, ts: Trees, us: Trees, s: State, f: nat)
    requires AllRewritten(ts, us) && k.ForLoop?
    ensures SameProgress(Increment(w, k, ts, s, f), Increment(w, k, us, s, f))
    decreases f, ts, 2
  {
    hide AllRewritten, StepOf;
    StepPreserves(w, k, ts, us, s, f);
  }

  lemma {:induction false} StepPreserves(w: World, k: Kind, ts: Trees, us: Trees, s: State, f: nat)
    requires AllRewritten(ts, us) && k.ForLoop?
    ensures SameOutcome(StepOf(w, k, ts, s, f), StepOf(w, k, us, s, f))
    decreases f, ts, 1
  {
    hide Rewritten;
    if ts.Cons? {
      RewrittenPreserves(w, ts.head, us.head, s, f);
    }
  }

  /** In particular when all bitwise-nots are rewritten. */
  lemma RewritePreserves(w: World, t: Tree, s: State, f: nat)
    requires WellShaped(t) && Eliminable(t)
    ensures SameOutcome(Evaluate(w, t, s, f), Evaluate(w, Rewrite(t), s, f))
  {
    RewriteRewrites(t);
    RewrittenPreserves(w, t, Rewrite(t), s, f);
  }
}
