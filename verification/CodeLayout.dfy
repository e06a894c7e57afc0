/** Where things are in a generated function, and how deep its gosubs may nest. */
module CodeLayout {
  import opened Words
  import opened Ir
  import opened Lowering
  import opened LoweringFrames
  import opened Matching
  import opened MatchingLemmas
  import opened WellFormed
  import opened CompilerCorrectness
  import L = Llvm
  import S = Semantics

  // The return stack.

  /** After at most `n` steps no more than 32 gosubs are open. */
  ghost predicate Nests32(p: S.Program, world: L.World, s: S.State, n: nat) {
    forall k: nat :: 0 < k <= n && S.Run(p, world, s, k).Running? ==> |S.Run(p, world, s, k).state.gosubs| <= 32
  }

  lemma {:induction false} WithinStackExactly(p: S.Program, world: L.World, s: S.State, n: nat)
    ensures WithinStack(p, world, s, n) <==> Nests32(p, world, s, n)
    decreases n
  {
    if n > 0 {
      match S.Step(p, world, s)
      case Running(s1) =>
        WithinStackExactly(p, world, s1, n - 1);
        assert S.Run(p, world, s, 1) == S.Run(p, world, s1, 0) == L.Running(s1);
        forall k: nat | 0 < k < n ensures S.Run(p, world, s, k + 1) == S.Run(p, world, s1, k) {
        }
        if Nests32(p, world, s, n) {
          forall k: nat | 0 < k <= n - 1 && S.Run(p, world, s1, k).Running? ensures |S.Run(p, world, s1, k).state.gosubs| <= 32 {
            assert S.Run(p, world, s, k + 1) == S.Run(p, world, s1, k);
          }
        }
        if Nests32(p, world, s1, n - 1) && |s1.gosubs| <= 32 {
          forall k: nat | 0 < k <= n && S.Run(p, world, s, k).Running? ensures |S.Run(p, world, s, k).state.gosubs| <= 32 {
            if k > 1 {
              assert S.Run(p, world, s, k) == S.Run(p, world, s1, k - 1);
            }
          }
        }
      case _ =>
    }
  }

  /** The function with the limit runs as the one without exactly as long as 32 are enough. */
  lemma LimitIs32(p: S.Program, world: L.World, s: S.State, n: nat)
    ensures LimitedRun(p, world, s, n) == if Nests32(p, world, s, n) then S.Run(p, world, s, n) else L.Fault
  {
    hide Nests32, WithinStack, LimitedRun, S.Run;
    WithinStackExactly(p, world, s, n);
    LimitMatters(p, world, s, n);
  }

  // Variables.

  lemma {:induction false} PrologueAt(variables: seq<Variable>, k: nat)
    requires k < |variables|
    ensures |Prologue(variables)| == 2 * |variables|
    ensures Prologue(variables)[2 * k] == L.Alloca(variables[k])
    ensures Prologue(variables)[2 * k + 1] == L.Store(variables[k], L.Constant(Value(WidthOrVoid(WidthOf(variables[k].typ)), 0)))
    decreases |variables|
  {
    PrologueSize(variables[1..]);
    if k > 0 {
      PrologueAt(variables[1..], k - 1);
      assert Prologue(variables)[2 * k] == Prologue(variables[1..])[2 * k - 2];
      assert Prologue(variables)[2 * k + 1] == Prologue(variables[1..])[2 * k - 1];
    }
  }

  lemma {:induction false} PrologueSize(variables: seq<Variable>)
    ensures |Prologue(variables)| == 2 * |variables|
    decreases |variables|
  {
    if variables != [] {
      PrologueSize(variables[1..]);
    }
  }

  /** A function begins with an empty return stack, then allocates its variables in their order and
      sets each to zero. */
  lemma EntryAllocates(main: bool, variables: seq<Variable>, body: Block)
    requires FormedBlock(body, {}) && UniqueLabels(body)
    ensures var blocks := LowerFunction(main, variables, body).blocks;
      && |blocks| > 0 && |blocks[0]| > 2 * |variables| && blocks[0][0] == L.ResetStack
      && forall k :: 0 <= k < |variables| ==>
           && blocks[0][2 * k + 1] == L.Alloca(variables[k])
           && blocks[0][2 * k + 2] == L.Store(variables[k], L.Constant(Value(WidthOrVoid(WidthOf(variables[k].typ)), 0)))
  {
    hide LowerBlock, Frame, FormedBlock, UniqueLabels, Prologue, Linked, Entry, LowerFunction;
    var g, f := Entry(variables), LowerFunction(main, variables, body);
    EntryFacts(variables);
    FunctionLinked(main, variables, body);
    FrameBlock(main, g, 0, body);
    FrameIsExtends(g, LowerBlock(main, g, 0, body).0, 0, LabelsOf(body), LoopsOf(body));
    assert g.blocks[0] <= f.blocks[0];
    PrologueSize(variables);
    forall k | 0 <= k < |variables|
      ensures f.blocks[0][2 * k + 1] == L.Alloca(variables[k])
      ensures f.blocks[0][2 * k + 2] == L.Store(variables[k], L.Constant(Value(WidthOrVoid(WidthOf(variables[k].typ)), 0)))
    {
      PrologueAt(variables, k);
      assert g.blocks[0][2 * k + 1] == Prologue(variables)[2 * k] && g.blocks[0][2 * k + 2] == Prologue(variables)[2 * k + 1];
    }
  }

  lemma FrameIsExtends(g: Gen, h: Gen, cur: nat, labels: set<nat>, loops: set<nat>)
    requires Frame(g, h, cur, labels, loops)
    ensures Extends(g, h)
  {
  }

  // The order of the blocks.

  ghost predicate DirectlyBehind(s: seq<nat>, a: nat, b: nat) {
    exists i :: 0 <= i < |s| - 1 && s[i] == a && s[i + 1] == b
  }

  ghost predicate Before(s: seq<nat>, x: nat, y: nat) {
    exists i, j :: 0 <= i < j < |s| && s[i] == x && s[j] == y
  }

  lemma {:induction false} RemoveAt(s: seq<nat>, b: nat) returns (k: nat)
    requires b in s
    ensures k < |s| && s[k] == b && Remove(s, b) == s[..k] + s[k + 1..]
  {
    if s[0] == b {
      k := 0;
    } else {
      var n := RemoveAt(s[1..], b);
      k := n + 1;
      assert s[..k] == [s[0]] + s[1..][..n] && s[k + 1..] == s[1..][n + 1..];
    }
  }

  lemma {:induction false} InsertAt(s: seq<nat>, b: nat, after: nat) returns (k: nat)
    requires after in s
    ensures k < |s| && s[k] == after && InsertAfter(s, b, after) == s[..k + 1] + [b] + s[k + 1..]
  {
    if s[0] == after {
      k := 0;
    } else {
      var n := InsertAt(s[1..], b, after);
      k := n + 1;
      assert s[..k + 1] == [s[0]] + s[1..][..n + 1] && s[k + 1..] == s[1..][n + 1..];
    }
  }

  lemma TakenOut(s: seq<nat>, t: seq<nat>, k: nat, b: nat, x: nat, y: nat)
    requires k < |s| && s[k] == b && t == s[..k] + s[k + 1..] && x != b && y != b
    ensures Before(t, x, y) <==> Before(s, x, y)
  {
    if Before(t, x, y) {
      var i, j :| 0 <= i < j < |t| && t[i] == x && t[j] == y;
      var i1, j1 := if i < k then i else i + 1, if j < k then j else j + 1;
      assert s[i1] == x && s[j1] == y;
    }
    if Before(s, x, y) {
      var i, j :| 0 <= i < j < |s| && s[i] == x && s[j] == y;
      var i1, j1 := if i < k then i else i - 1, if j < k then j else j - 1;
      assert t[i1] == x && t[j1] == y;
    }
  }

  /** Moving a block puts it directly behind another one. */
  lemma MovedDirectlyBehind(s: seq<nat>, b: nat, after: nat)
    requires after in s && b != after
    ensures DirectlyBehind(InsertAfter(Remove(s, b), b, after), after, b)
  {
    var r := Remove(s, b);
    RemoveKeepsOthers(s, b, after);
    var k := InsertAt(r, b, after);
    hide Remove, InsertAfter;
    var t := InsertAfter(r, b, after);
    assert t[k] == after && t[k + 1] == b;
  }

  lemma {:induction false} RemoveKeepsOthers(s: seq<nat>, b: nat, x: nat)
    requires x in s && x != b
    ensures x in Remove(s, b)
    decreases |s|
  {
    if s[0] != b && s[0] != x {
      RemoveKeepsOthers(s[1..], b, x);
    }
  }

  /** The others keep their order. */
  lemma MovedKeepsOrder(s: seq<nat>, b: nat, after: nat, x: nat, y: nat)
    requires b in s && after in s && b != after && x != b && y != b
    ensures Before(InsertAfter(Remove(s, b), b, after), x, y) <==> Before(s, x, y)
  {
    var r := Remove(s, b);
    RemoveKeepsOthers(s, b, after);
    var i := RemoveAt(s, b);
    var k := InsertAt(r, b, after);
    hide Remove, InsertAfter, Before;
    var t := InsertAfter(r, b, after);
    assert r == t[..k + 1] + t[k + 2..];
    TakenOut(s, r, i, b, x, y);
    TakenOut(t, r, k + 1, b, x, y);
  }

  /** The block behind an infinite loop follows the last one of its body. */
  lemma LoopEndFollows(main: bool, g: Gen, cur: nat, s: Statement, loops: set<nat>, done: set<nat>)
    requires s.InfiniteLoop? && Linked(g, done) && cur in g.placed && loops <= g.exits.Keys
    requires FormedStatement(s, loops) && UniqueLabelsIn(s) && LabelsIn(s) !! done
    ensures var (h, c) := LowerStatement(main, g, cur, s);
      var (g1, last) := LowerBlock(main, OpenLoop(g, s.loop), |g.blocks|, s.body);
      && DirectlyBehind(h.placed, last, c)
      && forall x, y :: x != c && y != c ==> (Before(h.placed, x, y) <==> Before(g1.placed, x, y))
  {
    hide Linked, FormedBlock, LowerBlock, Frame, Owns, Before, DirectlyBehind, Remove, InsertAfter;
    var lb := |g.blocks|;
    LinkedOpenLoop(g, done, s.loop);
    var g0 := OpenLoop(g, s.loop);
    var (g1, last) := LowerBlock(main, g0, lb, s.body);
    LinkedBlock(main, g0, lb, s.body, loops + {s.loop}, done);
    LoopEndIsPlaced(main, g, s, loops, done);
    forall x, y | x != lb + 1 && y != lb + 1 ensures Before(MoveAfter(g1, lb + 1, last).placed, x, y) <==> Before(g1.placed, x, y) {
      MovedKeepsOrder(g1.placed, lb + 1, last, x, y);
    }
    MovedDirectlyBehind(g1.placed, lb + 1, last);
  }

  /** It was created before the body and is none of its blocks. */
  lemma LoopEndIsPlaced(main: bool, g: Gen, s: Statement, loops: set<nat>, done: set<nat>)
    requires s.InfiniteLoop? && Linked(g, done) && loops <= g.exits.Keys
    requires FormedStatement(s, loops) && UniqueLabelsIn(s) && LabelsIn(s) !! done
    ensures var (g1, last) := LowerBlock(main, OpenLoop(g, s.loop), |g.blocks|, s.body);
      last != |g.blocks| + 1 && |g.blocks| + 1 in g1.placed
  {
    hide LowerBlock, FormedBlock, Linked, Distinct;
    var g0 := OpenLoop(g, s.loop);
    LinkedOpenLoop(g, done, s.loop);
    LinkedBlock(main, g0, |g.blocks|, s.body, loops + {s.loop}, done);
    LinkedIsValid(g, done);
    FrameBlock(main, g0, |g.blocks|, s.body);
  }

  lemma LinkedIsValid(g: Gen, done: set<nat>)
    requires Linked(g, done)
    ensures Valid(g)
  {
  }
}
