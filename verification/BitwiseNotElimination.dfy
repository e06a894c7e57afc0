/** The pass that eliminates the binary bitwise-not. It edits the syntax tree in place, through
    parent pointers. */
module BitwiseNotElimination {
  import opened SyntaxTrees

  // The tree as the pass finds it: nodes with children and parents.

  datatype Heap = Heap(kind: map<nat, Kind>, children: map<nat, seq<nat>>, parent: map<nat, nat>)

  // A height for every node, lower for children.
  type Ranks = map<nat, nat>

  ghost predicate Ranked(h: Heap, rank: Ranks) {
    && h.kind.Keys == h.children.Keys
    && forall n, i :: n in h.children && 0 <= i < |h.children[n]| ==> IsChild(h, rank, n, h.children[n][i])
  }

  predicate IsChild(h: Heap, rank: Ranks, n: nat, c: nat) {
    c in h.children && n in rank && c in rank && rank[c] < rank[n]
  }

  predicate DistinctNodes(s: seq<nat>) {
    forall i, j :: 0 <= i < j < |s| ==> s[i] != s[j]
  }

  /** Every node knows its parent, and is a child of no other node, nor twice of that one. */
  ghost predicate IsTree(h: Heap, rank: Ranks) {
    && Ranked(h, rank)
    && (forall n, i :: n in h.children && 0 <= i < |h.children[n]| ==> h.children[n][i] in h.parent && h.parent[h.children[n][i]] == n)
    && (forall n :: n in h.children ==> DistinctNodes(h.children[n]))
    && (forall n :: n in h.children && h.kind[n] == NOT ==> |h.children[n]| == 2)
  }

  ghost function RankOf(rank: Ranks, n: nat): nat {
    if n in rank then rank[n] else 0
  }

  ghost function TreeAt(h: Heap, rank: Ranks, n: nat): Tree
    requires Ranked(h, rank) && n in h.children
    decreases RankOf(rank, n), |h.children[n]| + 1
  {
    Tree(h.kind[n], TreesAt(h, rank, n, 0))
  }

  ghost function TreesAt(h: Heap, rank: Ranks, n: nat, i: nat): Trees
    requires Ranked(h, rank) && n in h.children && i <= |h.children[n]|
    decreases RankOf(rank, n), |h.children[n]| - i
  {
    if i == |h.children[n]| then Nil
    else
      assert IsChild(h, rank, n, h.children[n][i]);
      Cons(TreeAt(h, rank, h.children[n][i]), TreesAt(h, rank, n, i + 1))
  }

  /** Bitwise-nots at and below a node, in the order in which they are visited. */
  ghost function Nots(h: Heap, rank: Ranks, n: nat): seq<nat>
    requires Ranked(h, rank) && n in h.children
    decreases RankOf(rank, n), |h.children[n]| + 1
  {
    (if h.kind[n] == NOT then [n] else []) + NotsBelow(h, rank, n, 0)
  }

  ghost function NotsBelow(h: Heap, rank: Ranks, n: nat, i: nat): seq<nat>
    requires Ranked(h, rank) && n in h.children && i <= |h.children[n]|
    decreases RankOf(rank, n), |h.children[n]| - i
  {
    if i == |h.children[n]| then []
    else
      assert IsChild(h, rank, n, h.children[n][i]);
      Nots(h, rank, h.children[n][i]) + NotsBelow(h, rank, n, i + 1)
  }

  // Each bitwise-not is visited once.

  ghost predicate Below(h: Heap, rank: Ranks, n: nat, m: nat)
    requires Ranked(h, rank) && n in h.children
    decreases RankOf(rank, n)
  {
    n == m || exists i :: 0 <= i < |h.children[n]| && IsChild(h, rank, n, h.children[n][i]) && Below(h, rank, h.children[n][i], m)
  }

  lemma {:induction false} BelowIsLower(h: Heap, rank: Ranks, n: nat, m: nat)
    requires Ranked(h, rank) && n in h.children && Below(h, rank, n, m)
    ensures m in h.children && (m == n || RankOf(rank, m) < RankOf(rank, n))
    decreases RankOf(rank, n)
  {
    if n != m {
      var i :| 0 <= i < |h.children[n]| && IsChild(h, rank, n, h.children[n][i]) && Below(h, rank, h.children[n][i], m);
      BelowIsLower(h, rank, h.children[n][i], m);
    }
  }

  lemma {:induction false} ParentBelow(h: Heap, rank: Ranks, n: nat, m: nat)
    requires IsTree(h, rank) && n in h.children && Below(h, rank, n, m) && n != m
    ensures m in h.parent && h.parent[m] in h.children && Below(h, rank, n, h.parent[m])
    ensures RankOf(rank, m) < RankOf(rank, h.parent[m])
    decreases RankOf(rank, n)
  {
    var i :| 0 <= i < |h.children[n]| && IsChild(h, rank, n, h.children[n][i]) && Below(h, rank, h.children[n][i], m);
    var c := h.children[n][i];
    if c == m {
      assert h.parent[c] == n && Below(h, rank, n, n);
    } else {
      ParentBelow(h, rank, c, m);
    }
  }

  /** Going up from `m`, the last node before `n`. */
  ghost function Climb(h: Heap, rank: Ranks, m: nat, n: nat): nat
    decreases RankOf(rank, n) - RankOf(rank, m)
  {
    if m !in h.parent || h.parent[m] == n then m
    else if RankOf(rank, m) < RankOf(rank, h.parent[m]) < RankOf(rank, n) then Climb(h, rank, h.parent[m], n)
    else m
  }

  lemma {:induction false} ClimbsToChild(h: Heap, rank: Ranks, n: nat, c: nat, m: nat)
    requires IsTree(h, rank) && n in h.children && c in h.children[n] && c in h.children && Below(h, rank, c, m)
    ensures Climb(h, rank, m, n) == c
    decreases RankOf(rank, c) - RankOf(rank, m)
  {
    var i :| 0 <= i < |h.children[n]| && h.children[n][i] == c;
    assert IsChild(h, rank, n, h.children[n][i]);
    BelowIsLower(h, rank, c, m);
    if m != c {
      ParentBelow(h, rank, c, m);
      BelowIsLower(h, rank, c, h.parent[m]);
      ClimbsToChild(h, rank, n, c, h.parent[m]);
    }
  }

  lemma {:induction false} NotsAreBelow(h: Heap, rank: Ranks, n: nat, m: nat)
    requires Ranked(h, rank) && n in h.children && m in Nots(h, rank, n)
    ensures Below(h, rank, n, m) && m in h.kind && h.kind[m] == NOT
    decreases RankOf(rank, n), |h.children[n]| + 1
  {
    if !(h.kind[n] == NOT && m == n) {
      var i := NotsBelowAreBelow(h, rank, n, 0, m);
    }
  }

  lemma {:induction false} NotsBelowAreBelow(h: Heap, rank: Ranks, n: nat, i: nat, m: nat) returns (j: nat)
    requires Ranked(h, rank) && n in h.children && i <= |h.children[n]| && m in NotsBelow(h, rank, n, i)
    ensures i <= j < |h.children[n]| && IsChild(h, rank, n, h.children[n][j]) && Below(h, rank, h.children[n][j], m)
    ensures m in h.kind && h.kind[m] == NOT
    decreases RankOf(rank, n), |h.children[n]| - i
  {
    var c := h.children[n][i];
    assert IsChild(h, rank, n, c);
    if m in Nots(h, rank, c) {
      NotsAreBelow(h, rank, c, m);
      j := i;
    } else {
      j := NotsBelowAreBelow(h, rank, n, i + 1, m);
    }
  }

  lemma {:induction false} NotsAreDistinct(h: Heap, rank: Ranks, n: nat)
    requires IsTree(h, rank) && n in h.children
    ensures DistinctNodes(Nots(h, rank, n))
    decreases RankOf(rank, n), |h.children[n]| + 1
  {
    NotsBelowAreDistinct(h, rank, n, 0);
    if n in NotsBelow(h, rank, n, 0) {
      var j := NotsBelowAreBelow(h, rank, n, 0, n);
      BelowIsLower(h, rank, h.children[n][j], n);
    }
  }

  lemma {:induction false} NotsBelowAreDistinct(h: Heap, rank: Ranks, n: nat, i: nat)
    requires IsTree(h, rank) && n in h.children && i <= |h.children[n]|
    ensures DistinctNodes(NotsBelow(h, rank, n, i))
    decreases RankOf(rank, n), |h.children[n]| - i
  {
    if i < |h.children[n]| {
      var c := h.children[n][i];
      assert IsChild(h, rank, n, c);
      NotsAreDistinct(h, rank, c);
      NotsBelowAreDistinct(h, rank, n, i + 1);
      var front, back := Nots(h, rank, c), NotsBelow(h, rank, n, i + 1);
      forall m | m in front ensures m !in back {
        SiblingsApart(h, rank, n, i, m);
      }
      ConcatDistinct(front, back);
    }
  }

  lemma SiblingsApart(h: Heap, rank: Ranks, n: nat, i: nat, m: nat)
    requires IsTree(h, rank) && n in h.children && i < |h.children[n]| && IsChild(h, rank, n, h.children[n][i])
    requires m in Nots(h, rank, h.children[n][i])
    ensures m !in NotsBelow(h, rank, n, i + 1)
  {
    NotsAreBelow(h, rank, h.children[n][i], m);
    ClimbsToChild(h, rank, n, h.children[n][i], m);
    if m in NotsBelow(h, rank, n, i + 1) {
      var j := NotsBelowAreBelow(h, rank, n, i + 1, m);
      ClimbsToChild(h, rank, n, h.children[n][j], m);
    }
  }

  lemma ConcatDistinct(a: seq<nat>, b: seq<nat>)
    requires DistinctNodes(a) && DistinctNodes(b) && forall x <- a :: x !in b
    ensures DistinctNodes(a + b)
  {
    var s := a + b;
    forall i, j | 0 <= i < j < |s| ensures s[i] != s[j] {
      if i < |a| && j >= |a| {
        assert s[i] in a && s[j] in b;
      }
    }
  }

  // The tree while it is edited: `swapped` maps each bitwise-not that was replaced to the node
  // that took its place. What was replaced is no longer part of the tree.

  type Swapped = map<nat, nat>

  function Rep(swapped: Swapped, n: nat): nat {
    if n in swapped then swapped[n] else n
  }

  ghost predicate OldNode(h: Heap, now: Heap, rank: Ranks, ranks: Ranks, n: nat) {
    && n in h.kind && n in now.kind && n in now.children
    && now.kind[n] == h.kind[n] && RankOf(ranks, n) == RankOf(rank, n)
  }

  ghost predicate NewNode(h: Heap, now: Heap, rank: Ranks, ranks: Ranks, n: nat, v: nat) {
    && n in h.children && n in h.kind && h.kind[n] == NOT && v in now.children && v in now.kind && v !in h.children
    && now.kind[v] == UNARY_NOT && RankOf(ranks, v) == RankOf(rank, n)
  }

  ghost predicate NewNodes(h: Heap, now: Heap, rank: Ranks, ranks: Ranks, swapped: Swapped) {
    && h.kind.Keys == h.children.Keys && now.kind.Keys == now.children.Keys
    && (forall n <- h.children :: OldNode(h, now, rank, ranks, n))
    && (forall n <- swapped :: NewNode(h, now, rank, ranks, n, swapped[n]))
    && (forall n <- swapped, m <- swapped :: swapped[n] == swapped[m] ==> n == m)
  }

  ghost predicate Children(h: Heap, now: Heap, swapped: Swapped)
    requires forall n <- h.children :: n in now.children
    requires forall n <- swapped :: n in h.children && swapped[n] in now.children && |h.children[n]| == 2
  {
    && (forall n <- h.children :: |now.children[n]| == |h.children[n]|)
    && (forall n, i :: n in h.children && n !in swapped && 0 <= i < |h.children[n]| ==> now.children[n][i] == Rep(swapped, h.children[n][i]))
    && (forall n <- swapped :: now.children[swapped[n]] == [Rep(swapped, h.children[n][0])])
    && (forall n <- swapped :: now.children[n][1] == Rep(swapped, h.children[n][1]))
    && (forall n <- swapped :: now.children[n][0] == h.children[n][0] || now.children[n][0] == Rep(swapped, h.children[n][0]))
  }

  /** The node that holds child `i` of `n`. */
  function Holder(swapped: Swapped, n: nat, i: nat): nat {
    if n in swapped && i == 0 then swapped[n] else n
  }

  ghost predicate Parents(h: Heap, now: Heap, swapped: Swapped) {
    forall n, i :: n in h.children && 0 <= i < |h.children[n]| ==>
      Rep(swapped, h.children[n][i]) in now.parent && now.parent[Rep(swapped, h.children[n][i])] == Holder(swapped, n, i)
  }

  ghost predicate Edited(h: Heap, now: Heap, rank: Ranks, ranks: Ranks, swapped: Swapped) {
    && IsTree(h, rank) && NewNodes(h, now, rank, ranks, swapped) && (forall n <- swapped :: |h.children[n]| == 2)
    && Children(h, now, swapped) && Parents(h, now, swapped)
    && Ranked(now, ranks)
  }

  lemma NothingEdited(h: Heap, rank: Ranks)
    requires IsTree(h, rank)
    ensures Edited(h, h, rank, rank, map[])
  {
  }

  // The tree with some bitwise-nots rewritten.

  ghost function Partly(h: Heap, rank: Ranks, done: set<nat>, n: nat): Tree
    requires Ranked(h, rank) && n in h.children
    decreases RankOf(rank, n), |h.children[n]| + 1
  {
    if n in done && |h.children[n]| > 0 then
      assert IsChild(h, rank, n, h.children[n][0]);
      Tree(UNARY_NOT, Cons(Partly(h, rank, done, h.children[n][0]), Nil))
    else Tree(h.kind[n], PartlyAll(h, rank, done, n, 0))
  }

  ghost function PartlyAll(h: Heap, rank: Ranks, done: set<nat>, n: nat, i: nat): Trees
    requires Ranked(h, rank) && n in h.children && i <= |h.children[n]|
    decreases RankOf(rank, n), |h.children[n]| - i
  {
    if i == |h.children[n]| then Nil
    else
      assert IsChild(h, rank, n, h.children[n][i]);
      Cons(Partly(h, rank, done, h.children[n][i]), PartlyAll(h, rank, done, n, i + 1))
  }

  /** What stands where node `n` stood is the tree with the replaced nodes rewritten. */
  lemma {:induction false} EditedTree(h: Heap, now: Heap, rank: Ranks, ranks: Ranks, swapped: Swapped, n: nat)
    requires Edited(h, now, rank, ranks, swapped) && n in h.children
    ensures Rep(swapped, n) in now.children
    ensures TreeAt(now, ranks, Rep(swapped, n)) == Partly(h, rank, swapped.Keys, n)
    decreases RankOf(rank, n), |h.children[n]| + 1
  {
    if n in swapped {
      var v := swapped[n];
      var l := h.children[n][0];
      assert IsChild(h, rank, n, l);
      EditedTree(h, now, rank, ranks, swapped, l);
      assert now.children[v] == [Rep(swapped, l)];
      assert TreesAt(now, ranks, v, 1) == Nil;
      assert TreesAt(now, ranks, v, 0) == Cons(TreeAt(now, ranks, Rep(swapped, l)), Nil);
    } else {
      EditedTrees(h, now, rank, ranks, swapped, n, 0);
    }
  }

  lemma {:induction false} EditedTrees(h: Heap, now: Heap, rank: Ranks, ranks: Ranks, swapped: Swapped, n: nat, i: nat)
    requires Edited(h, now, rank, ranks, swapped) && n in h.children && n !in swapped && i <= |h.children[n]|
    ensures n in now.children && |now.children[n]| == |h.children[n]|
    ensures TreesAt(now, ranks, n, i) == PartlyAll(h, rank, swapped.Keys, n, i)
    decreases RankOf(rank, n), |h.children[n]| - i
  {
    if i < |h.children[n]| {
      assert IsChild(h, rank, n, h.children[n][i]);
      EditedTree(h, now, rank, ranks, swapped, h.children[n][i]);
      EditedTrees(h, now, rank, ranks, swapped, n, i + 1);
    }
  }

  /** When all of them are done, the tree is rewritten. */
  lemma {:induction false} AllDone(h: Heap, rank: Ranks, done: set<nat>, n: nat)
    requires IsTree(h, rank) && n in h.children
    requires forall m <- Nots(h, rank, n) :: m in done
    requires forall m <- done :: m in h.kind && h.kind[m] == NOT
    ensures Partly(h, rank, done, n) == Rewrite(TreeAt(h, rank, n))
    decreases RankOf(rank, n), |h.children[n]| + 1
  {
    AllDoneBelow(h, rank, done, n, 0);
    assert TreeAt(h, rank, n).children == TreesAt(h, rank, n, 0);
    if h.kind[n] == NOT {
      assert n in Nots(h, rank, n);
    }
  }

  lemma {:induction false} AllDoneBelow(h: Heap, rank: Ranks, done: set<nat>, n: nat, i: nat)
    requires IsTree(h, rank) && n in h.children && i <= |h.children[n]|
    requires forall m <- NotsBelow(h, rank, n, i) :: m in done
    requires forall m <- done :: m in h.kind && h.kind[m] == NOT
    ensures PartlyAll(h, rank, done, n, i) == RewriteAll(TreesAt(h, rank, n, i))
    decreases RankOf(rank, n), |h.children[n]| - i
  {
    if i < |h.children[n]| {
      assert IsChild(h, rank, n, h.children[n][i]);
      AllDone(h, rank, done, h.children[n][i]);
      AllDoneBelow(h, rank, done, n, i + 1);
    }
  }

  // What the pass is for.

  /** Binary bitwise-nots have two operands, wherever they are. */
  lemma {:induction false} TreeIsWellShaped(h: Heap, rank: Ranks, n: nat)
    requires IsTree(h, rank) && n in h.children
    ensures WellShaped(TreeAt(h, rank, n))
    decreases RankOf(rank, n), |h.children[n]| + 1
  {
    TreesAreWellShaped(h, rank, n, 0);
    assert TreeAt(h, rank, n).children == TreesAt(h, rank, n, 0);
    if h.kind[n] == NOT {
      NotTree(h, rank, n);
    }
  }

  lemma {:induction false} TreesAreWellShaped(h: Heap, rank: Ranks, n: nat, i: nat)
    requires IsTree(h, rank) && n in h.children && i <= |h.children[n]|
    ensures AllWellShaped(TreesAt(h, rank, n, i))
    decreases RankOf(rank, n), |h.children[n]| - i
  {
    if i < |h.children[n]| {
      assert IsChild(h, rank, n, h.children[n][i]);
      TreeIsWellShaped(h, rank, h.children[n][i]);
      TreesAreWellShaped(h, rank, n, i + 1);
    }
  }

  /** Wherever the pass stops, only bitwise-nots with harmless right operands are rewritten. */
  lemma {:induction false} PartlyIsRewritten(h: Heap, rank: Ranks, done: set<nat>, n: nat)
    requires IsTree(h, rank) && n in h.children
    requires forall m <- done :: m in h.children && h.kind[m] == NOT && |h.children[m]| == 2 && PureOperand(h, rank, m)
    ensures Rewritten(TreeAt(h, rank, n), Partly(h, rank, done, n))
    decreases RankOf(rank, n), |h.children[n]| + 1
  {
    if n in done {
      NotTree(h, rank, n);
      PartlyIsRewritten(h, rank, done, h.children[n][0]);
    } else {
      PartlyAllRewritten(h, rank, done, n, 0);
    }
  }

  lemma {:induction false} PartlyAllRewritten(h: Heap, rank: Ranks, done: set<nat>, n: nat, i: nat)
    requires IsTree(h, rank) && n in h.children && i <= |h.children[n]|
    requires forall m <- done :: m in h.children && h.kind[m] == NOT && |h.children[m]| == 2 && PureOperand(h, rank, m)
    ensures AllRewritten(TreesAt(h, rank, n, i), PartlyAll(h, rank, done, n, i))
    decreases RankOf(rank, n), |h.children[n]| - i
  {
    if i < |h.children[n]| {
      assert IsChild(h, rank, n, h.children[n][i]);
      PartlyIsRewritten(h, rank, done, h.children[n][i]);
      PartlyAllRewritten(h, rank, done, n, i + 1);
    }
  }

  /** Whatever the first tree evaluated to, the second does. */
  ghost predicate MeansTheSame(t: Tree, u: Tree) {
    forall w: World, s: State, f: nat :: SameOutcome(Evaluate(w, t, s, f), Evaluate(w, u, s, f))
  }

  lemma RewrittenMeansTheSame(t: Tree, u: Tree)
    requires Rewritten(t, u)
    ensures MeansTheSame(t, u)
  {
    forall w: World, s: State, f: nat ensures SameOutcome(Evaluate(w, t, s, f), Evaluate(w, u, s, f)) {
      RewrittenPreserves(w, t, u, s, f);
    }
  }

  // One replacement.

  function Replaced(s: seq<nat>, old_: nat, new_: nat): (r: seq<nat>)
    ensures |r| == |s|
  {
    if s == [] then [] else if s[0] == old_ then [new_] + s[1..] else [s[0]] + Replaced(s[1..], old_, new_)
  }

  lemma {:induction false} ReplacedAt(s: seq<nat>, i: nat, new_: nat)
    requires i < |s| && forall k :: 0 <= k < i ==> s[k] != s[i]
    ensures Replaced(s, s[i], new_) == s[i := new_]
  {
    if i > 0 {
      assert s[1..][i - 1] == s[i];
      forall k | 0 <= k < i - 1 ensures s[1..][k] != s[i] {
        assert s[1..][k] == s[k + 1];
      }
      ReplacedAt(s[1..], i - 1, new_);
      assert s[i := new_] == [s[0]] + s[1..][i - 1 := new_];
    } else {
      assert s[i := new_] == [new_] + s[1..];
    }
  }

  function SwapNode(now: Heap, q: nat, m: nat, v: nat): Heap
    requires m in now.children && |now.children[m]| > 0 && q in now.children
  {
    var l := now.children[m][0];
    Heap(now.kind[v := UNARY_NOT],
         now.children[v := [l]][q := Replaced(now.children[q], m, v)],
         now.parent[l := v][v := q])
  }

  /** Bitwise-not `m` is child `i` of node `p` in the tree the pass started with. */
  ghost predicate Replaceable(h: Heap, now: Heap, rank: Ranks, ranks: Ranks, swapped: Swapped, m: nat, p: nat, i: nat, v: nat) {
    && Edited(h, now, rank, ranks, swapped)
    && p in h.children && i < |h.children[p]| && h.children[p][i] == m && m in h.children && h.kind[m] == NOT && m !in swapped
    && v !in now.children && v !in h.children
  }

  lemma PlaceOf(h: Heap, now: Heap, rank: Ranks, ranks: Ranks, swapped: Swapped, m: nat, p: nat, i: nat, v: nat)
    requires Replaceable(h, now, rank, ranks, swapped, m, p, i, v)
    ensures var q := Holder(swapped, p, i);
      && m in now.parent && now.parent[m] == q && q in now.children && q != m && m in now.children
      && |now.children[m]| == 2 && now.children[m][0] == Rep(swapped, h.children[m][0])
      && (if p in swapped && i == 0 then now.children[q] == [m] else i < |now.children[q]| && now.children[q][i] == m)
      && Replaced(now.children[q], m, v) == (if p in swapped && i == 0 then [v] else now.children[q][i := v])
  {
    hide Ranked;
    assert Rep(swapped, m) == m;
    assert IsChild(h, rank, p, m) by { TreeChild(h, rank, p, i); }
    var q := Holder(swapped, p, i);
    if p in swapped && i == 0 {
      assert now.children[q] == [m];
      ReplacedAt(now.children[q], 0, v);
    } else if p in swapped {
      assert i == 1 && now.children[p][1] == m;
      RepDiffers(h, now, rank, ranks, swapped, p, 0, m, i);
      ReplacedAt(now.children[p], 1, v);
    } else {
      forall k | 0 <= k < i ensures now.children[p][k] != m {
        RepDiffers(h, now, rank, ranks, swapped, p, k, m, i);
      }
      ReplacedAt(now.children[p], i, v);
    }
  }

  lemma TreeChild(h: Heap, rank: Ranks, p: nat, i: nat)
    requires IsTree(h, rank) && p in h.children && i < |h.children[p]|
    ensures IsChild(h, rank, p, h.children[p][i])
    ensures h.children[p][i] in h.parent && h.parent[h.children[p][i]] == p
  {
  }

  lemma RepDiffers(h: Heap, now: Heap, rank: Ranks, ranks: Ranks, swapped: Swapped, p: nat, k: nat, m: nat, i: nat)
    requires IsTree(h, rank) && NewNodes(h, now, rank, ranks, swapped) && p in h.children && k < i < |h.children[p]|
    requires h.children[p][i] == m && m in h.children
    ensures h.children[p][k] != m && Rep(swapped, h.children[p][k]) != m
  {
    hide Ranked;
    assert DistinctNodes(h.children[p]);
  }

  lemma SwapNewNodes(h: Heap, now: Heap, rank: Ranks, ranks: Ranks, swapped: Swapped, m: nat, q: nat, v: nat)
    requires NewNodes(h, now, rank, ranks, swapped) && m in h.children && h.kind[m] == NOT && m !in swapped
    requires v !in now.children && v !in h.children && m in now.children && |now.children[m]| > 0 && q in now.children
    ensures NewNodes(h, SwapNode(now, q, m, v), rank, ranks[v := RankOf(rank, m)], swapped[m := v])
  {
    hide Replaced, OldNode, NewNode, SwapNode;
    SwapKeeps(now, q, m, v);
    var after := SwapNode(now, q, m, v);
    var newRanks := ranks[v := RankOf(rank, m)];
    forall n | n in h.children ensures OldNode(h, after, rank, newRanks, n) {
      OldKept(h, now, after, rank, ranks, newRanks, v, n);
    }
    var s := swapped[m := v];
    forall n | n in s ensures NewNode(h, after, rank, newRanks, n, s[n]) {
      if n != m {
        NewKept(h, now, after, rank, ranks, newRanks, v, n, swapped[n]);
      } else {
        NewMade(h, now, after, rank, ranks, m, v);
      }
    }
    forall n | n in swapped ensures swapped[n] != v {
      NewExists(h, now, rank, ranks, n, swapped[n]);
    }
  }

  lemma SwapKeeps(now: Heap, q: nat, m: nat, v: nat)
    requires m in now.children && |now.children[m]| > 0 && q in now.children && now.kind.Keys == now.children.Keys
    ensures var after := SwapNode(now, q, m, v);
      && after.kind.Keys == after.children.Keys == now.children.Keys + {v} && after.kind == now.kind[v := UNARY_NOT]
  {
  }

  lemma OldKept(h: Heap, now: Heap, after: Heap, rank: Ranks, ranks: Ranks, newRanks: Ranks, v: nat, n: nat)
    requires OldNode(h, now, rank, ranks, n) && v !in now.children
    requires after.kind == now.kind[v := UNARY_NOT] && after.children.Keys == now.children.Keys + {v}
    requires newRanks.Keys == ranks.Keys + {v} && forall k <- ranks :: k != v ==> newRanks[k] == ranks[k]
    ensures OldNode(h, after, rank, newRanks, n)
  {
  }

  lemma NewKept(h: Heap, now: Heap, after: Heap, rank: Ranks, ranks: Ranks, newRanks: Ranks, v: nat, n: nat, u: nat)
    requires NewNode(h, now, rank, ranks, n, u) && v !in now.children
    requires after.kind == now.kind[v := UNARY_NOT] && after.children.Keys == now.children.Keys + {v}
    requires newRanks.Keys == ranks.Keys + {v} && forall k <- ranks :: k != v ==> newRanks[k] == ranks[k]
    ensures NewNode(h, after, rank, newRanks, n, u)
  {
  }

  lemma NewMade(h: Heap, now: Heap, after: Heap, rank: Ranks, ranks: Ranks, m: nat, v: nat)
    requires m in h.children && m in h.kind && h.kind[m] == NOT && v !in h.children
    requires after.kind == now.kind[v := UNARY_NOT] && after.children.Keys == now.children.Keys + {v}
    ensures NewNode(h, after, rank, ranks[v := RankOf(rank, m)], m, v)
  {
  }

  lemma NewExists(h: Heap, now: Heap, rank: Ranks, ranks: Ranks, n: nat, u: nat)
    requires NewNode(h, now, rank, ranks, n, u)
    ensures n in h.children && u in now.children && u !in h.children
  {
  }

  lemma SwapChildren(h: Heap, now: Heap, rank: Ranks, ranks: Ranks, swapped: Swapped, m: nat, p: nat, i: nat, v: nat)
    requires Replaceable(h, now, rank, ranks, swapped, m, p, i, v)
    requires m in now.children && |now.children[m]| > 0 && Holder(swapped, p, i) in now.children
    requires NewNodes(h, SwapNode(now, Holder(swapped, p, i), m, v), rank, ranks[v := RankOf(rank, m)], swapped[m := v])
    requires |h.children[m]| == 2
    ensures Children(h, SwapNode(now, Holder(swapped, p, i), m, v), swapped[m := v])
  {
    hide Ranked, Parents, Replaced, IsTree, Children, OldNode, NewNode, SwappedRight;
    var after := SwapNode(now, Holder(swapped, p, i), m, v);
    var s := swapped[m := v];
    NodesStay(h, now, rank, ranks, swapped);
    NodesStay(h, after, rank, ranks[v := RankOf(rank, m)], s);
    forall n | n in h.children ensures |after.children[n]| == |h.children[n]| {
      LengthsKept(h, now, swapped, n);
    }
    forall n, k | n in h.children && n !in s && 0 <= k < |h.children[n]| ensures after.children[n][k] == Rep(s, h.children[n][k]) {
      SwapChildAt(h, now, rank, ranks, swapped, m, p, i, v, n, k);
    }
    forall n | n in s ensures SwappedRight(h, after, s, n) {
      if n == m {
        SwapNew(h, now, rank, ranks, swapped, m, p, i, v);
      } else {
        SwapOther(h, now, rank, ranks, swapped, m, p, i, v, n);
      }
    }
    ChildrenFrom(h, after, s);
  }

  ghost predicate HasAll(h: Heap, now: Heap, swapped: Swapped) {
    && (forall n <- h.children :: n in now.children)
    && (forall n <- swapped :: n in h.children && swapped[n] in now.children && swapped[n] !in h.children)
  }

  lemma NodesStay(h: Heap, now: Heap, rank: Ranks, ranks: Ranks, swapped: Swapped)
    requires NewNodes(h, now, rank, ranks, swapped)
    ensures HasAll(h, now, swapped)
  {
    hide OldNode, NewNode;
    forall n | n in h.children ensures n in now.children {
      OldExists(h, now, rank, ranks, n);
    }
    forall n | n in swapped ensures n in h.children && swapped[n] in now.children && swapped[n] !in h.children {
      NewExists(h, now, rank, ranks, n, swapped[n]);
    }
  }

  lemma OldExists(h: Heap, now: Heap, rank: Ranks, ranks: Ranks, n: nat)
    requires OldNode(h, now, rank, ranks, n)
    ensures n in now.children
  {
  }

  lemma SwapChildAt(h: Heap, now: Heap, rank: Ranks, ranks: Ranks, swapped: Swapped, m: nat, p: nat, i: nat, v: nat, n: nat, k: nat)
    requires Replaceable(h, now, rank, ranks, swapped, m, p, i, v)
    requires m in now.children && |now.children[m]| > 0 && Holder(swapped, p, i) in now.children
    requires n in h.children && n !in swapped && n != m && k < |h.children[n]|
    ensures var after := SwapNode(now, Holder(swapped, p, i), m, v);
      n in after.children && k < |after.children[n]| && after.children[n][k] == Rep(swapped[m := v], h.children[n][k])
  {
    hide Ranked, Parents, Replaced, IsTree, Children, OldNode, NewNode, NewNodes;
    PlaceOf(h, now, rank, ranks, swapped, m, p, i, v);
    OnlyPlace(h, rank, p, i, n, k);
    NodesStay(h, now, rank, ranks, swapped);
    ChildKept(h, now, swapped, n, k);
  }

  lemma SwapNew(h: Heap, now: Heap, rank: Ranks, ranks: Ranks, swapped: Swapped, m: nat, p: nat, i: nat, v: nat)
    requires Replaceable(h, now, rank, ranks, swapped, m, p, i, v) && |h.children[m]| == 2
    requires m in now.children && |now.children[m]| > 0 && Holder(swapped, p, i) in now.children
    ensures SwappedRight(h, SwapNode(now, Holder(swapped, p, i), m, v), swapped[m := v], m)
  {
    hide Ranked, Parents, Replaced, IsTree, Children, OldNode, NewNode, NewNodes;
    PlaceOf(h, now, rank, ranks, swapped, m, p, i, v);
    OnlyPlace(h, rank, p, i, m, 0);
    OnlyPlace(h, rank, p, i, m, 1);
    NotItsOwnChild(h, rank, p, i);
    NodesStay(h, now, rank, ranks, swapped);
    ChildKept(h, now, swapped, m, 0);
    ChildKept(h, now, swapped, m, 1);
  }

  lemma NotItsOwnChild(h: Heap, rank: Ranks, p: nat, i: nat)
    requires IsTree(h, rank) && p in h.children && i < |h.children[p]|
    ensures h.children[p][i] != p
  {
    TreeChild(h, rank, p, i);
  }

  lemma SwapOther(h: Heap, now: Heap, rank: Ranks, ranks: Ranks, swapped: Swapped, m: nat, p: nat, i: nat, v: nat, n: nat)
    requires Replaceable(h, now, rank, ranks, swapped, m, p, i, v) && n in swapped && n != m
    requires m in now.children && |now.children[m]| > 0 && Holder(swapped, p, i) in now.children
    ensures n in h.children && SwappedRight(h, SwapNode(now, Holder(swapped, p, i), m, v), swapped[m := v], n)
  {
    hide Ranked, Parents, Replaced, IsTree, Children, OldNode, NewNode, NewNodes;
    PlaceOf(h, now, rank, ranks, swapped, m, p, i, v);
    NodesStay(h, now, rank, ranks, swapped);
    SwappedKept(h, now, swapped, n);
    OnlyPlace(h, rank, p, i, n, 0);
    OnlyPlace(h, rank, p, i, n, 1);
    SwappedApart(h, now, rank, ranks, swapped, n, p);
  }

  lemma SwappedApart(h: Heap, now: Heap, rank: Ranks, ranks: Ranks, swapped: Swapped, n: nat, p: nat)
    requires NewNodes(h, now, rank, ranks, swapped) && n in swapped
    ensures p in swapped && swapped[p] == swapped[n] ==> p == n
    ensures p in h.children ==> swapped[n] != p
  {
    assert NewNode(h, now, rank, ranks, n, swapped[n]);
  }

  ghost predicate SwappedRight(h: Heap, now: Heap, swapped: Swapped, n: nat)
    requires n in h.children && n in swapped
  {
    && n in now.children && swapped[n] in now.children && |h.children[n]| == 2 == |now.children[n]|
    && now.children[swapped[n]] == [Rep(swapped, h.children[n][0])]
    && now.children[n][1] == Rep(swapped, h.children[n][1])
    && (now.children[n][0] == h.children[n][0] || now.children[n][0] == Rep(swapped, h.children[n][0]))
  }

  lemma LengthsKept(h: Heap, now: Heap, swapped: Swapped, n: nat)
    requires forall n <- h.children :: n in now.children
    requires forall n <- swapped :: n in h.children && swapped[n] in now.children && |h.children[n]| == 2
    requires Children(h, now, swapped) && n in h.children
    ensures |now.children[n]| == |h.children[n]|
  {
  }

  lemma ChildKept(h: Heap, now: Heap, swapped: Swapped, n: nat, k: nat)
    requires forall n <- h.children :: n in now.children
    requires forall n <- swapped :: n in h.children && swapped[n] in now.children && |h.children[n]| == 2
    requires Children(h, now, swapped) && n in h.children && n !in swapped && k < |h.children[n]|
    ensures |now.children[n]| == |h.children[n]| && now.children[n][k] == Rep(swapped, h.children[n][k])
  {
  }

  lemma SwappedKept(h: Heap, now: Heap, swapped: Swapped, n: nat)
    requires forall n <- h.children :: n in now.children
    requires forall n <- swapped :: n in h.children && swapped[n] in now.children && |h.children[n]| == 2
    requires Children(h, now, swapped) && n in swapped
    ensures SwappedRight(h, now, swapped, n)
  {
  }

  lemma ChildrenFrom(h: Heap, now: Heap, swapped: Swapped)
    requires forall n <- h.children :: n in now.children
    requires forall n <- swapped :: n in h.children && swapped[n] in now.children && |h.children[n]| == 2
    requires forall n <- h.children :: |now.children[n]| == |h.children[n]|
    requires forall n, k :: n in h.children && n !in swapped && 0 <= k < |h.children[n]| ==>
      now.children[n][k] == Rep(swapped, h.children[n][k])
    requires forall n <- swapped :: SwappedRight(h, now, swapped, n)
    ensures Children(h, now, swapped)
  {
  }

  lemma OnlyPlace(h: Heap, rank: Ranks, p: nat, i: nat, n: nat, k: nat)
    requires IsTree(h, rank) && p in h.children && i < |h.children[p]| && n in h.children && k < |h.children[n]|
    ensures h.children[n][k] == h.children[p][i] ==> n == p && k == i
  {
    TreeChild(h, rank, p, i);
    TreeChild(h, rank, n, k);
    assert DistinctNodes(h.children[p]);
  }

  lemma RepInjective(h: Heap, now: Heap, rank: Ranks, ranks: Ranks, swapped: Swapped, a: nat, b: nat)
    requires NewNodes(h, now, rank, ranks, swapped) && a in h.children && b in h.children && Rep(swapped, a) == Rep(swapped, b)
    ensures a == b
  {
    hide OldNode;
    if a in swapped {
      NewExists(h, now, rank, ranks, a, swapped[a]);
    }
    if b in swapped {
      NewExists(h, now, rank, ranks, b, swapped[b]);
    }
  }

  lemma SwapParents(h: Heap, now: Heap, rank: Ranks, ranks: Ranks, swapped: Swapped, m: nat, p: nat, i: nat, v: nat)
    requires Replaceable(h, now, rank, ranks, swapped, m, p, i, v) && |h.children[m]| == 2
    requires m in now.children && |now.children[m]| > 0 && Holder(swapped, p, i) in now.children
    ensures Parents(h, SwapNode(now, Holder(swapped, p, i), m, v), swapped[m := v])
  {
    hide Ranked, Parents, Replaced, IsTree, Children, OldNode, NewNode, NewNodes, SwapNode;
    var after := SwapNode(now, Holder(swapped, p, i), m, v);
    var s := swapped[m := v];
    forall n, k | n in h.children && 0 <= k < |h.children[n]| ensures ParentRight(h, after, s, n, k) {
      SwapParentAt(h, now, rank, ranks, swapped, m, p, i, v, n, k);
    }
    ParentsFrom(h, after, s);
  }

  predicate ParentRight(h: Heap, now: Heap, swapped: Swapped, n: nat, k: nat) {
    n in h.children && k < |h.children[n]| ==>
      Rep(swapped, h.children[n][k]) in now.parent && now.parent[Rep(swapped, h.children[n][k])] == Holder(swapped, n, k)
  }

  lemma ParentsFrom(h: Heap, now: Heap, swapped: Swapped)
    requires forall n, k :: n in h.children && 0 <= k < |h.children[n]| ==> ParentRight(h, now, swapped, n, k)
    ensures Parents(h, now, swapped)
  {
    forall n, k | n in h.children && 0 <= k < |h.children[n]|
      ensures Rep(swapped, h.children[n][k]) in now.parent && now.parent[Rep(swapped, h.children[n][k])] == Holder(swapped, n, k)
    {
      assert ParentRight(h, now, swapped, n, k);
    }
  }

  lemma ParentKept(h: Heap, now: Heap, swapped: Swapped, n: nat, k: nat)
    requires Parents(h, now, swapped)
    ensures ParentRight(h, now, swapped, n, k)
  {
  }

  lemma SwapParentAt(h: Heap, now: Heap, rank: Ranks, ranks: Ranks, swapped: Swapped, m: nat, p: nat, i: nat, v: nat, n: nat, k: nat)
    requires Replaceable(h, now, rank, ranks, swapped, m, p, i, v) && |h.children[m]| == 2
    requires m in now.children && |now.children[m]| > 0 && Holder(swapped, p, i) in now.children
    requires n in h.children && k < |h.children[n]|
    ensures ParentRight(h, SwapNode(now, Holder(swapped, p, i), m, v), swapped[m := v], n, k)
  {
    hide Ranked, Parents, Replaced, IsTree, Children, OldNode, NewNode, NewNodes;
    PlaceOf(h, now, rank, ranks, swapped, m, p, i, v);
    OnlyPlace(h, rank, p, i, n, k);
    NotItsOwnChild(h, rank, p, i);
    ParentKept(h, now, swapped, n, k);
    NodesStay(h, now, rank, ranks, swapped);
    var c, l := h.children[n][k], h.children[m][0];
    TreeNode(h, rank, n, k);
    TreeNode(h, rank, m, 0);
    if c != m {
      if Rep(swapped, c) == Rep(swapped, l) {
        RepInjective(h, now, rank, ranks, swapped, c, l);
        OnlyPlace(h, rank, m, 0, n, k);
      }
      RepExists(h, now, swapped, c);
    }
  }

  lemma TreeNode(h: Heap, rank: Ranks, n: nat, k: nat)
    requires IsTree(h, rank) && n in h.children && k < |h.children[n]|
    ensures h.children[n][k] in h.children
  {
    TreeChild(h, rank, n, k);
  }

  lemma RepExists(h: Heap, now: Heap, swapped: Swapped, c: nat)
    requires HasAll(h, now, swapped) && c in h.children
    ensures Rep(swapped, c) in now.children
  {
  }

  lemma SwapRanked(h: Heap, now: Heap, rank: Ranks, ranks: Ranks, swapped: Swapped, m: nat, p: nat, i: nat, v: nat)
    requires Replaceable(h, now, rank, ranks, swapped, m, p, i, v)
    requires m in now.children && |now.children[m]| > 0 && Holder(swapped, p, i) in now.children
    ensures Ranked(SwapNode(now, Holder(swapped, p, i), m, v), ranks[v := RankOf(rank, m)])
  {
    hide Parents, Replaced, IsTree, Children, OldNode, NewNode, NewNodes, Ranked;
    PlaceOf(h, now, rank, ranks, swapped, m, p, i, v);
    SameRank(h, now, rank, ranks, swapped, m);
    var q := Holder(swapped, p, i);
    var at := if p in swapped && i == 0 then 0 else i;
    assert now.children[q][at] == m && Replaced(now.children[q], m, v) == now.children[q][at := v];
    RankedAfter(now, ranks, q, at, m, v, RankOf(rank, m));
  }

  lemma SameRank(h: Heap, now: Heap, rank: Ranks, ranks: Ranks, swapped: Swapped, m: nat)
    requires NewNodes(h, now, rank, ranks, swapped) && m in h.children
    ensures RankOf(ranks, m) == RankOf(rank, m)
  {
    assert OldNode(h, now, rank, ranks, m);
  }

  lemma RankedAfter(now: Heap, ranks: Ranks, q: nat, at: nat, m: nat, v: nat, r: nat)
    requires Ranked(now, ranks) && q in now.children && at < |now.children[q]| && now.children[q][at] == m && q != m
    requires m in now.children && |now.children[m]| > 0 && v !in now.children && r == RankOf(ranks, m)
    requires Replaced(now.children[q], m, v) == now.children[q][at := v]
    ensures Ranked(SwapNode(now, q, m, v), ranks[v := r])
  {
    hide Replaced;
    var after := SwapNode(now, q, m, v);
    assert IsChild(now, ranks, q, m) && IsChild(now, ranks, m, now.children[m][0]);
    forall n, k | n in after.children && 0 <= k < |after.children[n]| ensures IsChild(after, ranks[v := r], n, after.children[n][k]) {
      if n == q {
        assert k != at ==> IsChild(now, ranks, q, now.children[q][k]);
      } else if n != v {
        assert IsChild(now, ranks, n, now.children[n][k]);
      }
    }
  }

  lemma SwapEdited(h: Heap, now: Heap, rank: Ranks, ranks: Ranks, swapped: Swapped, m: nat, p: nat, i: nat, v: nat)
    requires Replaceable(h, now, rank, ranks, swapped, m, p, i, v)
    ensures m in now.parent && m in now.children && |now.children[m]| == 2
    ensures var q := now.parent[m];
      && q in now.children && m in now.children[q] && q != v
      && Edited(h, SwapNode(now, q, m, v), rank, ranks[v := RankOf(rank, m)], swapped[m := v])
  {
    hide Ranked, Parents, Replaced, Children, OldNode, NewNode, NewNodes, SwapNode, IsTree;
    NotHasTwo(h, rank, m);
    PlaceOf(h, now, rank, ranks, swapped, m, p, i, v);
    SwapNewNodes(h, now, rank, ranks, swapped, m, Holder(swapped, p, i), v);
    SwapChildren(h, now, rank, ranks, swapped, m, p, i, v);
    SwapParents(h, now, rank, ranks, swapped, m, p, i, v);
    SwapRanked(h, now, rank, ranks, swapped, m, p, i, v);
  }

  lemma NotHasTwo(h: Heap, rank: Ranks, m: nat)
    requires IsTree(h, rank) && m in h.children && h.kind[m] == NOT
    ensures |h.children[m]| == 2
  {
  }

  // Whether the pass succeeds.

  /** The right operand of each bitwise-not listed is free of side effects. */
  ghost predicate PureOperands(h: Heap, rank: Ranks, ms: seq<nat>)
    requires IsTree(h, rank)
  {
    forall m <- ms :: m in h.children && |h.children[m]| == 2 ==> PureOperand(h, rank, m)
  }

  ghost predicate PureOperand(h: Heap, rank: Ranks, m: nat)
    requires IsTree(h, rank) && m in h.children && |h.children[m]| == 2
  {
    assert IsChild(h, rank, m, h.children[m][1]);
    Pure(TreeAt(h, rank, h.children[m][1]))
  }

  lemma {:induction false} EliminableExactly(h: Heap, rank: Ranks, n: nat)
    requires IsTree(h, rank) && n in h.children
    ensures Eliminable(TreeAt(h, rank, n)) <==> PureOperands(h, rank, Nots(h, rank, n))
    decreases RankOf(rank, n), |h.children[n]| + 1
  {
    EliminableBelow(h, rank, n, 0);
    assert TreeAt(h, rank, n).children == TreesAt(h, rank, n, 0);
    if h.kind[n] == NOT {
      NotTree(h, rank, n);
      assert Nots(h, rank, n) == [n] + NotsBelow(h, rank, n, 0);
      assert n in Nots(h, rank, n);
    } else {
      assert Nots(h, rank, n) == NotsBelow(h, rank, n, 0);
    }
  }

  lemma NotTree(h: Heap, rank: Ranks, n: nat)
    requires IsTree(h, rank) && n in h.children && h.kind[n] == NOT
    ensures |h.children[n]| == 2 && IsChild(h, rank, n, h.children[n][0]) && IsChild(h, rank, n, h.children[n][1])
    ensures TreeAt(h, rank, n)
      == Tree(NOT, Cons(TreeAt(h, rank, h.children[n][0]), Cons(TreeAt(h, rank, h.children[n][1]), Nil)))
  {
    assert TreesAt(h, rank, n, 2) == Nil;
    assert TreesAt(h, rank, n, 1) == Cons(TreeAt(h, rank, h.children[n][1]), Nil);
  }

  lemma {:induction false} EliminableBelow(h: Heap, rank: Ranks, n: nat, i: nat)
    requires IsTree(h, rank) && n in h.children && i <= |h.children[n]|
    ensures AllEliminable(TreesAt(h, rank, n, i)) <==> PureOperands(h, rank, NotsBelow(h, rank, n, i))
    decreases RankOf(rank, n), |h.children[n]| - i
  {
    if i < |h.children[n]| {
      var c := h.children[n][i];
      assert IsChild(h, rank, n, c);
      EliminableExactly(h, rank, c);
      EliminableBelow(h, rank, n, i + 1);
      assert NotsBelow(h, rank, n, i) == Nots(h, rank, c) + NotsBelow(h, rank, n, i + 1);
    }
  }

  /** Replacing bitwise-nots with harmless right operands does not hide or add side effects. */
  lemma {:induction false} PartlyPure(h: Heap, rank: Ranks, done: set<nat>, n: nat)
    requires IsTree(h, rank) && n in h.children
    requires forall m <- done :: m in h.children && h.kind[m] == NOT && PureOperand(h, rank, m)
    ensures Pure(Partly(h, rank, done, n)) <==> Pure(TreeAt(h, rank, n))
    decreases RankOf(rank, n), |h.children[n]| + 1
  {
    if n in done {
      NotTree(h, rank, n);
      PartlyPure(h, rank, done, h.children[n][0]);
      var l, r := TreeAt(h, rank, h.children[n][0]), TreeAt(h, rank, h.children[n][1]);
      assert AllPure(Cons(r, Nil)) <==> Pure(r);
      assert AllPure(Cons(l, Cons(r, Nil))) <==> Pure(l) && AllPure(Cons(r, Nil));
      assert AllPure(Cons(Partly(h, rank, done, h.children[n][0]), Nil)) <==> Pure(Partly(h, rank, done, h.children[n][0]));
    } else {
      PartlyAllPure(h, rank, done, n, 0);
    }
  }

  lemma {:induction false} PartlyAllPure(h: Heap, rank: Ranks, done: set<nat>, n: nat, i: nat)
    requires IsTree(h, rank) && n in h.children && i <= |h.children[n]|
    requires forall m <- done :: m in h.children && h.kind[m] == NOT && PureOperand(h, rank, m)
    ensures AllPure(PartlyAll(h, rank, done, n, i)) <==> AllPure(TreesAt(h, rank, n, i))
    decreases RankOf(rank, n), |h.children[n]| - i
  {
    if i < |h.children[n]| {
      assert IsChild(h, rank, n, h.children[n][i]);
      PartlyPure(h, rank, done, h.children[n][i]);
      PartlyAllPure(h, rank, done, n, i + 1);
    }
  }

  // Parent pointers of everything in the tree.

  ghost predicate ParentsRight(h: Heap, rank: Ranks, n: nat)
    requires Ranked(h, rank) && n in h.children
    decreases RankOf(rank, n)
  {
    forall i :: 0 <= i < |h.children[n]| && IsChild(h, rank, n, h.children[n][i]) ==>
      h.children[n][i] in h.parent && h.parent[h.children[n][i]] == n && ParentsRight(h, rank, h.children[n][i])
  }

  lemma {:induction false} EditedParents(h: Heap, now: Heap, rank: Ranks, ranks: Ranks, swapped: Swapped, n: nat)
    requires Edited(h, now, rank, ranks, swapped) && n in h.children
    ensures Rep(swapped, n) in now.children && ParentsRight(now, ranks, Rep(swapped, n))
    decreases RankOf(rank, n)
  {
    hide NewNodes, Parents;
    NodesStay(h, now, rank, ranks, swapped);
    var r := Rep(swapped, n);
    if n in swapped {
      SwappedKept(h, now, swapped, n);
      EditedParentAt(h, now, rank, ranks, swapped, n, 0);
      EditedParents(h, now, rank, ranks, swapped, h.children[n][0]);
    } else {
      forall i | 0 <= i < |now.children[n]| && IsChild(now, ranks, n, now.children[n][i])
        ensures now.children[n][i] in now.parent && now.parent[now.children[n][i]] == n && ParentsRight(now, ranks, now.children[n][i])
      {
        LengthsKept(h, now, swapped, n);
        ChildKept(h, now, swapped, n, i);
        EditedParentAt(h, now, rank, ranks, swapped, n, i);
        EditedParents(h, now, rank, ranks, swapped, h.children[n][i]);
      }
    }
  }

  lemma EditedParentAt(h: Heap, now: Heap, rank: Ranks, ranks: Ranks, swapped: Swapped, n: nat, i: nat)
    requires Edited(h, now, rank, ranks, swapped) && n in h.children && i < |h.children[n]|
    ensures h.children[n][i] in h.children && RankOf(rank, h.children[n][i]) < RankOf(rank, n)
    ensures var c := Rep(swapped, h.children[n][i]); c in now.parent && now.parent[c] == Holder(swapped, n, i)
  {
    hide NewNodes, Children;
    TreeChild(h, rank, n, i);
  }

  class SyntaxTree {
    var kind: map<nat, Kind>
    var children: map<nat, seq<nat>>
    var parent: map<nat, nat>
    var next: nat
    ghost var ranks: Ranks

    ghost function Now(): Heap
      reads this
    {
      Heap(kind, children, parent)
    }

    /** Visits a node and what is below it, and collects the binary bitwise-nots. */
    method Gather(n: nat) returns (ops: seq<nat>)
      requires Ranked(Now(), ranks) && n in children
      ensures ops == Nots(Now(), ranks, n)
      decreases RankOf(ranks, n)
    {
      ops := if kind[n] == NOT then [n] else [];
      ghost var own := ops;
      ghost var below := NotsBelow(Now(), ranks, n, 0);
      for i := 0 to |children[n]|
        invariant own + below == ops + NotsBelow(Now(), ranks, n, i)
      {
        assert IsChild(Now(), ranks, n, children[n][i]);
        var more := Gather(children[n][i]);
        assert ops + (more + NotsBelow(Now(), ranks, n, i + 1)) == (ops + more) + NotsBelow(Now(), ranks, n, i + 1);
        ops := ops + more;
      }
      assert ops + [] == ops;
    }

    method FindSideEffects(n: nat) returns (found: bool)
      requires Ranked(Now(), ranks) && n in children
      ensures found <==> !Pure(TreeAt(Now(), ranks, n))
      decreases RankOf(ranks, n)
    {
      found := !HasNoSideEffects(kind[n]);
      for i := 0 to |children[n]|
        invariant (!found && AllPure(TreesAt(Now(), ranks, n, i))) <==> Pure(TreeAt(Now(), ranks, n))
      {
        assert IsChild(Now(), ranks, n, children[n][i]);
        var more := FindSideEffects(children[n][i]);
        found := found || more;
      }
    }

    /** Node::swapChild */
    method SwapChild(n: nat, old_: nat, new_: nat)
      requires n in children && old_ in children[n]
      modifies this
      ensures Now() == Heap(old(kind), old(children)[n := Replaced(old(children)[n], old_, new_)], old(parent)[new_ := n])
      ensures next == old(next) && ranks == old(ranks)
    {
      ghost var place :| 0 <= place < |children[n]| && children[n][place] == old_;
      var i := 0;
      while children[n][i] != old_
        invariant 0 <= i <= place
        invariant forall k :: 0 <= k < i ==> children[n][k] != old_
        decreases place - i
      {
        i := i + 1;
      }
      ReplacedAt(children[n], i, new_);
      var updated: seq<nat> := children[n][i := new_];
      children := children[n := updated];
      parent := parent[new_ := n];
    }

    /** Replaces one bitwise-not by the unary one on its left operand. */
    method ReplaceNot(op: nat)
      requires op in children && |children[op]| > 0 && op in parent && parent[op] in children && op in children[parent[op]]
      requires next !in children && parent[op] != next
      modifies this
      ensures Now() == SwapNode(old(Now()), old(parent)[op], op, old(next)) && next == old(next) + 1
      ensures ranks == old(ranks)[old(next) := RankOf(old(ranks), op)]
    {
      var v: nat, q: nat, operand: nat := next, parent[op], children[op][0];
      next := next + 1;
      var operands: seq<nat> := [operand];
      kind, children := kind[v := UNARY_NOT], children[v := operands];
      parent := parent[operand := v];
      ranks := ranks[v := RankOf(ranks, op)];
      SwapChild(q, op, v);
      assert old(children)[v := operands][q := Replaced(old(children)[q], op, v)] == children;
    }

    /** Checks one bitwise-not and replaces it. */
    method Eliminate(op: nat, ghost h: Heap, ghost rank: Ranks, ghost swapped: Swapped, ghost root: nat)
      returns (ok: bool, ghost more: Swapped)
      requires IsTree(h, rank) && root in h.children && h.kind[root] != NOT && op in Nots(h, rank, root)
      requires Edited(h, Now(), rank, ranks, swapped) && op !in swapped && (forall n <- children :: n < next)
      requires OperandsPure(h, rank, swapped)
      modifies this
      ensures op in h.children && |h.children[op]| == 2 && (ok <==> PureOperand(h, rank, op))
      ensures more == if ok then swapped[op := old(next)] else swapped
      ensures Edited(h, Now(), rank, ranks, more) && (forall n <- children :: n < next) && OperandsPure(h, rank, more)
    {
      hide Ranked, IsTree, Edited, Replaceable, PureOperand, DistinctNodes, Below, SwapNode, OperandsPure, Nots;
      ghost var p, k := PlaceInTree(h, rank, root, op);
      BeforeReplacing(h, Now(), rank, ranks, swapped, op, p, k, next);
      var found := FindSideEffects(children[op][1]);
      if found {
        return false, swapped;
      }
      SwapEdited(h, Now(), rank, ranks, swapped, op, p, k, next);
      SameRankNow(h, Now(), rank, ranks, swapped, op);
      KeysBelow(Now(), parent[op], op, next);
      OneMorePure(h, rank, swapped, op, next);
      more := swapped[op := next];
      ReplaceNot(op);
      ok := true;
    }

    /** True if every bitwise-not could be replaced. It stops at the first one whose right
        operand has side effects, with the `done` ones before it already replaced. */
    method Execute(root: nat) returns (ok: bool, ghost done: nat)
      requires IsTree(Now(), ranks) && root in children && kind[root] != NOT
      requires forall n <- children :: n < next
      modifies this
      ensures Ranked(Now(), ranks) && root in children
      ensures ok <==> Eliminable(old(TreeAt(Now(), ranks, root)))
      ensures old(StopsAt(Now(), ranks, Nots(Now(), ranks, root), done))
      ensures TreeAt(Now(), ranks, root) == old(Partly(Now(), ranks, FirstOf(Nots(Now(), ranks, root), done), root))
      ensures ok ==> TreeAt(Now(), ranks, root) == Rewrite(old(TreeAt(Now(), ranks, root)))
      ensures ok ==> !HasBinaryNot(TreeAt(Now(), ranks, root))
      ensures MeansTheSame(old(TreeAt(Now(), ranks, root)), TreeAt(Now(), ranks, root))
      ensures ParentsRight(Now(), ranks, root)
    {
      hide MeansTheSame, HasBinaryNot, Rewrite, Ranked, IsTree, Edited, PureOperand, DistinctNodes, OperandsPure, Nots, TreeAt, PureOperands, Eliminable, Partly;
      ghost var h, rank := Now(), ranks;
      done := 0;
      ghost var swapped: Swapped := map[];
      TreeIsRanked(h, rank);
      NothingEdited(h, rank);
      NothingPure(h, rank);
      var ops := Gather(root);
      NotsAreDistinct(h, rank, root);
      EliminableExactly(h, rank, root);
      for i := 0 to |ops|
        invariant Edited(h, Now(), rank, ranks, swapped) && OperandsPure(h, rank, swapped)
        invariant swapped.Keys == FirstOf(ops, i)
        invariant forall n <- children :: n < next
        invariant done == i && forall k :: 0 <= k < i ==> HasPureOperand(h, rank, ops[k])
      {
        assert ops[..i + 1] == ops[..i] + [ops[i]];
        FreshOp(ops, i);
        var replaced;
        replaced, swapped := Eliminate(ops[i], h, rank, swapped, root);
        if !replaced {
          FinishedParents(h, Now(), rank, ranks, swapped, root);
          FinishedMeaning(h, Now(), rank, ranks, swapped, root);
          FinishedPartly(h, Now(), rank, ranks, swapped, root);
          SomeImpure(h, rank, ops, i);
          return false, i;
        }
        done := i + 1;
      }
      assert ops[..|ops|] == ops;
      FinishedPartly(h, Now(), rank, ranks, swapped, root);
      FinishedParents(h, Now(), rank, ranks, swapped, root);
      FinishedTree(h, Now(), rank, ranks, swapped, root, ops);
      FinishedMeaning(h, Now(), rank, ranks, swapped, root);
      TreeIsWellShaped(h, rank, root);
      RewriteEliminates(TreeAt(h, rank, root));
      AllOperandsPure(h, rank, swapped, ops);
      ok := true;
    }
  }

  function FirstOf(ops: seq<nat>, n: nat): set<nat> {
    if n <= |ops| then set m | m in ops[..n] else {}
  }

  ghost predicate HasPureOperand(h: Heap, rank: Ranks, m: nat)
    requires IsTree(h, rank)
  {
    m in h.children && |h.children[m]| == 2 && PureOperand(h, rank, m)
  }

  /** The first `n` have harmless right operands, and the next one, if there is one, has not. */
  ghost predicate StopsAt(h: Heap, rank: Ranks, ops: seq<nat>, n: nat)
    requires IsTree(h, rank)
  {
    && n <= |ops| && (forall k :: 0 <= k < n ==> HasPureOperand(h, rank, ops[k]))
    && (n < |ops| ==> !HasPureOperand(h, rank, ops[n]))
  }

  lemma FinishedPartly(h: Heap, now: Heap, rank: Ranks, ranks: Ranks, swapped: Swapped, root: nat)
    requires Edited(h, now, rank, ranks, swapped) && root in h.children && h.kind[root] != NOT
    ensures Ranked(h, rank) && Ranked(now, ranks) && root in now.children
    ensures TreeAt(now, ranks, root) == Partly(h, rank, swapped.Keys, root)
  {
    hide Ranked, Children, Parents;
    if root in swapped {
      SwappedIsNot(h, now, rank, ranks, swapped, root);
    }
    EditedTree(h, now, rank, ranks, swapped, root);
  }

  ghost predicate OperandsPure(h: Heap, rank: Ranks, swapped: Swapped)
    requires IsTree(h, rank)
  {
    forall m <- swapped :: m in h.children && |h.children[m]| == 2 && PureOperand(h, rank, m)
  }

  lemma NothingPure(h: Heap, rank: Ranks)
    requires IsTree(h, rank)
    ensures OperandsPure(h, rank, map[])
  {
  }

  lemma OneMorePure(h: Heap, rank: Ranks, swapped: Swapped, m: nat, v: nat)
    requires IsTree(h, rank) && OperandsPure(h, rank, swapped)
    requires m in h.children && |h.children[m]| == 2 && PureOperand(h, rank, m)
    ensures OperandsPure(h, rank, swapped[m := v])
  {
    hide IsTree, PureOperand;
  }

  lemma SomeImpure(h: Heap, rank: Ranks, ops: seq<nat>, i: nat)
    requires IsTree(h, rank) && i < |ops| && ops[i] in h.children && |h.children[ops[i]]| == 2 && !PureOperand(h, rank, ops[i])
    ensures !PureOperands(h, rank, ops)
  {
    hide IsTree, PureOperand;
    assert ops[i] in ops;
  }

  lemma AllOperandsPure(h: Heap, rank: Ranks, swapped: Swapped, ops: seq<nat>)
    requires IsTree(h, rank) && OperandsPure(h, rank, swapped) && swapped.Keys == set m | m in ops
    ensures PureOperands(h, rank, ops)
  {
    hide IsTree, PureOperand;
    forall m | m in ops ensures m in swapped {
      assert m in swapped.Keys;
    }
  }

  lemma TreeIsRanked(h: Heap, rank: Ranks)
    requires IsTree(h, rank)
    ensures Ranked(h, rank)
  {
  }

  lemma FreshOp(ops: seq<nat>, i: nat)
    requires DistinctNodes(ops) && i < |ops|
    ensures ops[i] !in ops[..i]
  {
  }

  lemma PlaceInTree(h: Heap, rank: Ranks, root: nat, m: nat) returns (p: nat, i: nat)
    requires IsTree(h, rank) && root in h.children && h.kind[root] != NOT && m in Nots(h, rank, root)
    ensures p in h.children && i < |h.children[p]| && h.children[p][i] == m && m in h.children
    ensures m in h.kind && h.kind[m] == NOT && |h.children[m]| == 2
  {
    NotsAreBelow(h, rank, root, m);
    BelowIsLower(h, rank, root, m);
    p, i := PlaceBelow(h, rank, root, m);
  }

  lemma {:induction false} PlaceBelow(h: Heap, rank: Ranks, n: nat, m: nat) returns (p: nat, i: nat)
    requires IsTree(h, rank) && n in h.children && Below(h, rank, n, m) && n != m
    ensures p in h.children && i < |h.children[p]| && h.children[p][i] == m
    decreases RankOf(rank, n)
  {
    var k :| 0 <= k < |h.children[n]| && IsChild(h, rank, n, h.children[n][k]) && Below(h, rank, h.children[n][k], m);
    if h.children[n][k] == m {
      p, i := n, k;
    } else {
      p, i := PlaceBelow(h, rank, h.children[n][k], m);
    }
  }

  /** The right operand, as it is now, is as harmless as it was. */
  lemma BeforeReplacing(h: Heap, now: Heap, rank: Ranks, ranks: Ranks, swapped: Swapped, m: nat, p: nat, i: nat, v: nat)
    requires Edited(h, now, rank, ranks, swapped) && p in h.children && i < |h.children[p]| && h.children[p][i] == m
    requires m in h.children && m in h.kind && h.kind[m] == NOT && m !in swapped && v !in now.children
    requires OperandsPure(h, rank, swapped)
    ensures Replaceable(h, now, rank, ranks, swapped, m, p, i, v) && |h.children[m]| == 2
    ensures Ranked(now, ranks) && m in now.children && |now.children[m]| == 2 && now.children[m][1] in now.children
    ensures Pure(TreeAt(now, ranks, now.children[m][1])) <==> PureOperand(h, rank, m)
  {
    hide OldNode, NewNode, Parents, Ranked, PureOperand;
    NodesStay(h, now, rank, ranks, swapped);
    NotHasTwo(h, rank, m);
    LengthsKept(h, now, swapped, m);
    ChildKept(h, now, swapped, m, 1);
    TreeNode(h, rank, m, 1);
    var r := h.children[m][1];
    EditedTree(h, now, rank, ranks, swapped, r);
    forall k | k in swapped.Keys ensures k in h.children && h.kind[k] == NOT && PureOperand(h, rank, k) {
      SwappedIsNot(h, now, rank, ranks, swapped, k);
    }
    PartlyPure(h, rank, swapped.Keys, r);
    PureOperandIs(h, rank, m);
  }

  lemma PureOperandIs(h: Heap, rank: Ranks, m: nat)
    requires IsTree(h, rank) && m in h.children && |h.children[m]| == 2 && h.children[m][1] in h.children
    ensures PureOperand(h, rank, m) <==> Pure(TreeAt(h, rank, h.children[m][1]))
  {
  }

  lemma SwappedIsNot(h: Heap, now: Heap, rank: Ranks, ranks: Ranks, swapped: Swapped, k: nat)
    requires NewNodes(h, now, rank, ranks, swapped) && k in swapped
    ensures k in h.children && k in h.kind && h.kind[k] == NOT
  {
    assert NewNode(h, now, rank, ranks, k, swapped[k]);
  }

  lemma SameRankNow(h: Heap, now: Heap, rank: Ranks, ranks: Ranks, swapped: Swapped, m: nat)
    requires Edited(h, now, rank, ranks, swapped) && m in h.children
    ensures RankOf(ranks, m) == RankOf(rank, m)
  {
    SameRank(h, now, rank, ranks, swapped, m);
  }

  lemma KeysBelow(now: Heap, q: nat, m: nat, v: nat)
    requires m in now.children && |now.children[m]| > 0 && q in now.children && forall n <- now.children :: n < v
    ensures forall n <- SwapNode(now, q, m, v).children :: n < v + 1
  {
  }

  lemma FinishedParents(h: Heap, now: Heap, rank: Ranks, ranks: Ranks, swapped: Swapped, root: nat)
    requires Edited(h, now, rank, ranks, swapped) && root in h.children && h.kind[root] != NOT
    ensures Ranked(now, ranks) && root in now.children && ParentsRight(now, ranks, root)
  {
    hide Ranked, Children, Parents;
    if root in swapped {
      SwappedIsNot(h, now, rank, ranks, swapped, root);
    }
    EditedParents(h, now, rank, ranks, swapped, root);
  }

  lemma FinishedTree(h: Heap, now: Heap, rank: Ranks, ranks: Ranks, swapped: Swapped, root: nat, ops: seq<nat>)
    requires Edited(h, now, rank, ranks, swapped) && root in h.children && h.kind[root] != NOT
    requires ops == Nots(h, rank, root) && swapped.Keys == set m | m in ops
    ensures Ranked(now, ranks) && root in now.children
    ensures TreeAt(now, ranks, root) == Rewrite(TreeAt(h, rank, root))
  {
    hide Ranked, Children, Parents;
    if root in swapped {
      SwappedIsNot(h, now, rank, ranks, swapped, root);
    }
    EditedTree(h, now, rank, ranks, swapped, root);
    forall m | m in swapped.Keys ensures m in h.kind && h.kind[m] == NOT {
      SwappedIsNot(h, now, rank, ranks, swapped, m);
    }
    AllDone(h, rank, swapped.Keys, root);
  }

  lemma FinishedMeaning(h: Heap, now: Heap, rank: Ranks, ranks: Ranks, swapped: Swapped, root: nat)
    requires Edited(h, now, rank, ranks, swapped) && root in h.children && h.kind[root] != NOT
    requires OperandsPure(h, rank, swapped)
    ensures Ranked(h, rank) && Ranked(now, ranks) && root in now.children
    ensures MeansTheSame(TreeAt(h, rank, root), TreeAt(now, ranks, root))
  {
    hide Ranked, Children, Parents, PureOperand, MeansTheSame, Rewritten;
    if root in swapped {
      SwappedIsNot(h, now, rank, ranks, swapped, root);
    }
    EditedTree(h, now, rank, ranks, swapped, root);
    forall m | m in swapped.Keys ensures m in h.kind && h.kind[m] == NOT {
      SwappedIsNot(h, now, rank, ranks, swapped, m);
    }
    PartlyIsRewritten(h, rank, swapped.Keys, root);
    RewrittenMeansTheSame(TreeAt(h, rank, root), TreeAt(now, ranks, root));
  }
}
