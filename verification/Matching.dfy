/** How a state of the source program corresponds to a place in the generated code: the
    statements still to run are being generated from some state whose result is contained
    in the finished function, and the place is the insertion point of that state. */
module Matching {
  import opened Words
  import opened Ir
  import opened Lowering
  import opened LoweringFrames
  import opened ExpressionLowering
  import L = Llvm
  import S = Semantics

  // What semantic analysis guarantees and the generator relies on.

  predicate FormedStatement(s: Statement, enclosing: set<nat>)
    decreases s, 0
  {
    match s
    case Conditional(c, t, f) =>
      && Formed(c) && ExpressionWidth(c) == Some(W1)
      && FormedBlock(t, enclosing) && FormedBlock(f, enclosing)
    case InfiniteLoop(loop, body) => loop !in enclosing && FormedBlock(body, enclosing + {loop})
    case ForLoop(loop, counter, init, end, step, body) =>
      && loop !in enclosing && FormedBlock(body, enclosing + {loop})
      && HasValues(counter.typ)
      && Formed(init) && ExpressionWidth(init) == WidthOf(counter.typ)
      && Formed(end) && ExpressionWidth(end) == WidthOf(counter.typ)
      && Formed(step) && ExpressionWidth(step) == WidthOf(counter.typ)
    case Exit(loop) => loop in enclosing
    case Assignment(x, e) => Formed(e) && HasValues(x.typ) && ExpressionWidth(e) == WidthOf(x.typ)
    case FunctionCall(callee, arguments, ret) => FormedAll(arguments) && Returns(callee, ret)
    case ExitFunction(e) => Formed(e) && IsValue(e)
    case GuardedLoop(_, _, _, _) => false
    case Missing => false
    case _ => true
  }

  predicate FormedBlock(b: Block, enclosing: set<nat>)
    decreases b, 0
  {
    match b
    case End => true
    case Then(s, rest) => FormedStatement(s, enclosing) && FormedBlock(rest, enclosing)
  }

  // What nothing checks before LLVM does. The end command of the main program is only a name
  // for the generator.

  predicate ValuesExistIn(main: bool, s: Statement)
    decreases s, 0
  {
    match s
    case Conditional(c, t, f) => ValueExists(c) && ValuesExistInBlock(main, t) && ValuesExistInBlock(main, f)
    case InfiniteLoop(_, body) => ValuesExistInBlock(main, body)
    case ForLoop(_, _, init, end, step, body) =>
      ValueExists(init) && ValueExists(end) && ValueExists(step) && ValuesExistInBlock(main, body)
    case Assignment(_, e) => ValueExists(e)
    case FunctionCall(callee, arguments, _) => S.EndsProgram(main, callee) || AllValuesExist(arguments)
    case ExitFunction(e) => ValueExists(e)
    case _ => true
  }

  /** No value of a user function is used. */
  predicate ValuesExistInBlock(main: bool, b: Block)
    decreases b, 0
  {
    match b
    case End => true
    case Then(s, rest) => ValuesExistIn(main, s) && ValuesExistInBlock(main, rest)
  }

  predicate CallsCompleteIn(main: bool, s: Statement)
    decreases s, 0
  {
    match s
    case Conditional(c, t, f) => CallsComplete(c) && CallsCompleteInBlock(main, t) && CallsCompleteInBlock(main, f)
    case InfiniteLoop(_, body) => CallsCompleteInBlock(main, body)
    case ForLoop(_, _, init, end, step, body) =>
      CallsComplete(init) && CallsComplete(end) && CallsComplete(step) && CallsCompleteInBlock(main, body)
    case Assignment(_, e) => CallsComplete(e)
    case FunctionCall(callee, arguments, _) => S.EndsProgram(main, callee) || CallComplete(callee, arguments)
    case ExitFunction(e) => CallsComplete(e)
    case _ => true
  }

  /** Every call has all its arguments. */
  predicate CallsCompleteInBlock(main: bool, b: Block)
    decreases b, 0
  {
    match b
    case End => true
    case Then(s, rest) => CallsCompleteIn(main, s) && CallsCompleteInBlock(main, rest)
  }

  /** The statements whose code is valid and does what they do. */
  predicate LowerableStatement(main: bool, s: Statement, enclosing: set<nat>) {
    FormedStatement(s, enclosing) && ValuesExistIn(main, s) && CallsCompleteIn(main, s)
  }

  predicate LowerableBlock(main: bool, b: Block, enclosing: set<nat>) {
    FormedBlock(b, enclosing) && ValuesExistInBlock(main, b) && CallsCompleteInBlock(main, b)
  }

  predicate UniqueLabelsIn(s: Statement)
    decreases s, 0
  {
    match s
    case Conditional(_, t, f) => UniqueLabels(t) && UniqueLabels(f) && LabelsOf(t) !! LabelsOf(f)
    case InfiniteLoop(_, body) => UniqueLabels(body)
    case ForLoop(_, _, _, _, _, body) => UniqueLabels(body)
    case _ => true
  }

  /** No label is placed twice. */
  predicate UniqueLabels(b: Block)
    decreases b, 0
  {
    match b
    case End => true
    case Then(s, rest) => UniqueLabelsIn(s) && UniqueLabels(rest) && LabelsIn(s) !! LabelsOf(rest)
  }

  function ActiveLoops(k: S.Continuation): set<nat> {
    match k
    case Return => {}
    case Sequel(_, next) => ActiveLoops(next)
    case Iterate(loop, _, _, next) => {loop} + ActiveLoops(next)
    case Count(loop, _, _, _, _, _, next) => {loop} + ActiveLoops(next)
  }

  /** The blocks of labels still to be placed are empty. */
  ghost predicate Fresh(g: Gen, cur: nat, labels: set<nat>)
    requires Valid(g)
  {
    forall l <- labels :: l in g.labels ==> g.blocks[g.labels[l]] == [] && g.labels[l] != cur
  }

  /** Generating `block` from `g` into `cur` is legal and its result is part of `f`. */
  ghost predicate Ready(main: bool, f: Gen, g: Gen, cur: nat, block: Block, loops: set<nat>) {
    && Valid(g) && cur < |g.blocks| && Fresh(g, cur, LabelsOf(block))
    && UniqueLabels(block) && LowerableBlock(main, block, loops)
    && Extends(LowerBlock(main, g, cur, block).0, f)
  }

  /** Where the code of a block ends. */
  ghost predicate EndsAt(main: bool, g: Gen, cur: nat, block: Block, b: nat, i: nat) {
    var (h, c) := LowerBlock(main, g, cur, block);
    b == c && c < |h.blocks| && i == |h.blocks[c]|
  }

  ghost predicate InstrAt(f: Gen, b: nat, i: nat, instr: L.Instr) {
    b < |f.blocks| && i < |f.blocks[b]| && f.blocks[b][i] == instr
  }

  ghost predicate MatchBlock(main: bool, f: Gen, g: Gen, cur: nat, block: Block, k: S.Continuation)
    decreases k, 2
  {
    && Ready(main, f, g, cur, block, ActiveLoops(k))
    && MatchExits(main, f, g.exits, k)
    && exists b: nat, i: nat :: EndsAt(main, g, cur, block, b, i) && MatchNext(main, f, k, b, i)
  }

  /** The code of `block` starts at index `i` of block `b`, and afterwards comes `k`. */
  ghost predicate Placed(main: bool, f: Gen, b: nat, i: nat, block: Block, k: S.Continuation)
    decreases k, 3
  {
    exists g: Gen :: MatchBlock(main, f, g, b, block, k) && b < |g.blocks| && i == |g.blocks[b]|
  }

  /** The exit table leads to what follows each active loop. */
  ghost predicate MatchExits(main: bool, f: Gen, exits: map<nat, nat>, k: S.Continuation)
    decreases k, 1
  {
    match k
    case Return => true
    case Sequel(_, next) => MatchExits(main, f, exits, next)
    case Iterate(loop, _, rest, next) =>
      loop in exits && Placed(main, f, exits[loop], 0, rest, next) && MatchExits(main, f, exits, next)
    case Count(loop, _, _, _, _, rest, next) =>
      loop in exits && Placed(main, f, exits[loop], 0, rest, next) && MatchExits(main, f, exits, next)
  }

  /** The code at index `i` of block `b` goes on as `k` says. */
  ghost predicate MatchNext(main: bool, f: Gen, k: S.Continuation, b: nat, i: nat)
    decreases k, 0
  {
    match k
    case Return => InstrAt(f, b, i, L.RetVoid)
    case Sequel(rest, next) => exists c: nat :: InstrAt(f, b, i, L.Br(c)) && Placed(main, f, c, 0, rest, next)
    case Iterate(loop, body, rest, next) =>
      exists g: Gen, cur: nat ::
        && MatchBlock(main, f, g, cur, Then(InfiniteLoop(loop, body), rest), next)
        && EndsAt(main, OpenLoop(g, loop), |g.blocks|, body, b, i)
    case Count(loop, counter, end, step, body, rest, next) =>
      exists g: Gen, cur: nat, init: Expression ::
        && MatchBlock(main, f, g, cur, Then(ForLoop(loop, counter, init, end, step, body), rest), next)
        && EndsAt(main, OpenFor(g, cur, loop, counter, init, end, step), |g.blocks| + 4, body, b, i)
  }

  /** Block `b` is the condition of the for loop whose frame is `k`. */
  ghost predicate MatchTest(main: bool, f: Gen, k: S.Continuation, b: nat) {
    k.Count? &&
    exists g: Gen, cur: nat, init: Expression ::
      && MatchBlock(main, f, g, cur, Then(ForLoop(k.loop, k.counter, init, k.end, k.step, k.body), k.rest), k.next)
      && b == |g.blocks|
  }

  ghost predicate MatchControl(main: bool, f: Gen, s: S.State, b: nat, i: nat) {
    match s.control
    case Statements(block) => Placed(main, f, b, i, block, s.next)
    case Test => MatchTest(main, f, s.next, b) && i == 0
  }

  /** The return stack holds, in order, where the pending gosubs go on. */
  ghost predicate MatchStack(main: bool, f: Gen, gosubs: seq<S.Resumption>, slots: map<int, nat>, sp: int) {
    && sp == |gosubs| <= L.StackSlots
    && forall i :: 0 <= i < |gosubs| ==>
         && i in slots && slots[i] in f.returnPoints
         && Placed(main, f, slots[i], 0, gosubs[i].rest, gosubs[i].next)
  }

  ghost predicate MatchState(main: bool, f: Gen, s: S.State, m: L.Machine) {
    && m.memory == s.memory && m.trace == s.trace
    && MatchStack(main, f, s.gosubs, m.slots, m.sp)
    && MatchControl(main, f, s, m.block, m.index)
  }
}
