/** What the driver hands to the parser: the scanned tokens, with runs of them merged into
    commands. */
module TokenMerging {
  import opened CommandMatching

  datatype Option<T> = None | Some(value: T)

  // `Empty` is what the scanner returns for a token it cannot make sense of.
  datatype Kind = End | Empty | Symbol | IntegerLiteral | StringLiteral | Command | Other(code: int)
  {
    predicate HasFreeableString() {
      StringLiteral? || Symbol? || Command?
    }

    predicate StopsLookAhead() {
      End? || Empty?
    }
  }

  datatype Lexeme = Lexeme(kind: Kind, text: string)

  // Which tokens are type annotations, and which words are keywords of the language.
  datatype Language = Language(commands: seq<string>, isAnnotation: Kind -> bool, keyword: string -> Option<int>)

  /** A token as the parser receives it; `span` is the number of scanned tokens behind it. */
  datatype Pushed = Pushed(kind: Kind, text: string, span: nat)

  predicate IsInput(input: seq<Lexeme>) {
    && input != [] && input[|input| - 1].kind == End
    && (forall i :: 0 <= i < |input| - 1 ==> input[i].kind != End)
    && (forall i :: 0 <= i < |input| ==> IsText(input[i].text))
  }

  predicate IsLanguage(l: Language) {
    IsTable(l.commands)
  }

  /** The text of the first `n` tokens: a space between two of them, except behind an integer
      (other than the first token) and before a type annotation. */
  function Joined(l: Language, s: seq<Lexeme>, n: nat): string
    requires 0 < n <= |s|
  {
    if n == 1 then s[0].text
    else Joined(l, s, n - 1) + Gap(l, s, n - 1) + s[n - 1].text
  }

  function Gap(l: Language, s: seq<Lexeme>, i: nat): string
    requires 0 < i < |s|
  {
    if (i > 1 && s[i - 1].kind == IntegerLiteral) || l.isAnnotation(s[i].kind) then "" else " "
  }

  /** The first `n` tokens together are a command. */
  predicate IsCommand(l: Language, s: seq<Lexeme>, n: nat)
    requires 0 < n <= |s|
  {
    Joined(l, s, n) != [] && Lower(Joined(l, s, n)) in l.commands
  }

  /** The first `n` tokens may form a run: none behind the first one stops the look-ahead, and
      one more token follows. */
  predicate MayRun(s: seq<Lexeme>, n: nat) {
    0 < n < |s| && forall i :: 1 <= i < n ==> !s[i].kind.StopsLookAhead()
  }

  predicate IsRun(l: Language, s: seq<Lexeme>, n: nat) {
    MayRun(s, n) && IsCommand(l, s, n)
  }

  /** The longest run of at most `n` tokens, or 0. */
  function LongestRun(l: Language, s: seq<Lexeme>, n: nat): (r: nat)
    ensures r <= n && (r > 0 ==> IsRun(l, s, r))
    ensures forall k :: r < k <= n ==> !IsRun(l, s, k)
  {
    hide IsRun;
    if n == 0 then 0 else if IsRun(l, s, n) then n else LongestRun(l, s, n - 1)
  }

  /** The number of tokens to merge: none if a type annotation follows the longest run. */
  function RunLength(l: Language, s: seq<Lexeme>): (n: nat)
    ensures n > 0 ==> IsRun(l, s, n)
  {
    var n := LongestRun(l, s, |s|);
    if n > 0 && !s[n].kind.StopsLookAhead() && l.isAnnotation(s[n].kind) then 0 else n
  }

  function FirstPushed(l: Language, s: seq<Lexeme>): (p: Pushed)
    requires s != []
    ensures 0 < p.span <= |s|
  {
    var n := if s[0].kind == Symbol || s[0].kind == IntegerLiteral then RunLength(l, s) else 0;
    var p := if n > 0 then Pushed(Command, Joined(l, s, n), n) else Pushed(s[0].kind, s[0].text, 1);
    Pushed(AsKeyword(l, p.kind, p.text, s[p.span..]), p.text, p.span)
  }

  /** Symbols and commands named like a keyword become one, unless a type annotation follows. */
  function AsKeyword(l: Language, kind: Kind, text: string, rest: seq<Lexeme>): Kind {
    if (kind == Symbol || kind == Command) && rest != [] && !l.isAnnotation(rest[0].kind) && l.keyword(text).Some?
    then Other(l.keyword(text).value)
    else kind
  }

  /** Everything the parser gets to see if it does not stop early. */
  function Merge(l: Language, s: seq<Lexeme>): seq<Pushed>
    decreases |s|
  {
    if s == [] then []
    else
      var p := FirstPushed(l, s);
      [p] + Merge(l, s[p.span..])
  }

  // What merging means.

  /** How many of the tokens carry a string. */
  function Strings(ps: seq<Pushed>): nat {
    if ps == [] then 0
    else Strings(ps[..|ps| - 1]) + if ps[|ps| - 1].kind in {Symbol, StringLiteral, Command} then 1 else 0
  }

  function Spans(ps: seq<Pushed>): nat {
    if ps == [] then 0 else ps[0].span + Spans(ps[1..])
  }

  /** Each pushed token stands for the next tokens of the input, whose joined text it carries. */
  ghost predicate Covers(l: Language, ps: seq<Pushed>, s: seq<Lexeme>) {
    if ps == [] then s == []
    else
      && 0 < ps[0].span <= |s| && ps[0].text == Joined(l, s, ps[0].span)
      && (ps[0].span > 1 ==> IsRun(l, s, ps[0].span))
      && Covers(l, ps[1..], s[ps[0].span..])
  }

  /** Nothing is lost, duplicated or reordered. */
  lemma {:induction false} MergeCovers(l: Language, s: seq<Lexeme>)
    ensures Covers(l, Merge(l, s), s) && Spans(Merge(l, s)) == |s|
    decreases |s|
  {
    if s != [] {
      var p := FirstPushed(l, s);
      MergeCovers(l, s[p.span..]);
      assert Merge(l, s)[1..] == Merge(l, s[p.span..]);
    }
  }

  /** A run is merged exactly when it is the longest one and no type annotation follows it. */
  lemma MergedExactly(l: Language, s: seq<Lexeme>, n: nat)
    requires s != [] && (s[0].kind == Symbol || s[0].kind == IntegerLiteral)
    ensures RunLength(l, s) == n && n > 0 <==>
      && IsRun(l, s, n) && (forall k :: n < k <= |s| ==> !IsRun(l, s, k))
      && (s[n].kind.StopsLookAhead() || !l.isAnnotation(s[n].kind))
  {
    var r := LongestRun(l, s, |s|);
    if IsRun(l, s, n) && forall k :: n < k <= |s| ==> !IsRun(l, s, k) {
      assert !(n < r) && !(r < n);
    }
  }

  /** A run in characters: tokens that the scanner made sense of, behind which another one follows,
      and whose text is a command but for the case of letters. */
  lemma RunExactly(l: Language, s: seq<Lexeme>, n: nat)
    requires IsTable(l.commands)
    ensures IsRun(l, s, n) <==>
      && 0 < n < |s| && (forall i :: 1 <= i < n ==> s[i].kind != End && s[i].kind != Empty)
      && Joined(l, s, n) != [] && exists c <- l.commands :: SameText(Joined(l, s, n), c)
  {
    hide Joined;
    if 0 < n < |s| {
      var text := Joined(l, s, n);
      forall c | c in l.commands ensures SameText(text, c) <==> Lower(text) == c {
        var i :| 0 <= i < |l.commands| && l.commands[i] == c;
        LowerExactly(text, c);
      }
    }
  }

  /** The first `n` tokens are the run to merge: the longest one, which no annotation follows. */
  ghost predicate IsMerged(l: Language, s: seq<Lexeme>, n: nat) {
    && s != [] && (s[0].kind == Symbol || s[0].kind == IntegerLiteral)
    && IsRun(l, s, n) && (forall k :: n < k <= |s| ==> !IsRun(l, s, k))
    && (s[n].kind == End || s[n].kind == Empty || !l.isAnnotation(s[n].kind))
  }

  /** The token pushed stands for a merged run or for a single token. It is a keyword exactly if it
      stands for a run, or for a symbol (or command), its text is a keyword and the next
      token is no annotation; otherwise a run is a command, and a token is what it was scanned as. */
  ghost predicate KindIs(l: Language, p: Pushed, s: seq<Lexeme>)
    requires 0 < p.span <= |s|
  {
    var merged := IsMerged(l, s, p.span);
    var word := merged || s[0].kind == Symbol || s[0].kind == Command;
    var isKeyword := word && p.span < |s| && !l.isAnnotation(s[p.span].kind) && l.keyword(p.text).Some?;
    && (!merged ==> p.span == 1 && p.text == s[0].text && forall n :: 0 < n <= |s| ==> !IsMerged(l, s, n))
    && (isKeyword ==> p.kind == Other(l.keyword(p.text).value))
    && (!isKeyword ==> p.kind == if merged then Command else s[0].kind)
  }

  ghost predicate KindsAre(l: Language, ps: seq<Pushed>, s: seq<Lexeme>)
    decreases |ps|
  {
    ps != [] ==> 0 < ps[0].span <= |s| && KindIs(l, ps[0], s) && KindsAre(l, ps[1..], s[ps[0].span..])
  }

  /** What kind of token the parser receives each time. */
  lemma {:induction false} MergeKinds(l: Language, s: seq<Lexeme>)
    ensures KindsAre(l, Merge(l, s), s)
    decreases |s|
  {
    if s != [] {
      var p := FirstPushed(l, s);
      FirstKind(l, s);
      MergeKinds(l, s[p.span..]);
      assert Merge(l, s)[1..] == Merge(l, s[p.span..]);
    }
  }

  lemma FirstKind(l: Language, s: seq<Lexeme>)
    requires s != []
    ensures KindIs(l, FirstPushed(l, s), s)
  {
    hide IsRun, LongestRun, RunLength, Joined;
    var p := FirstPushed(l, s);
    assert s[p.span..] != [] <==> p.span < |s|;
    forall n: nat | 0 < n <= |s| ensures IsMerged(l, s, n) <==> (s[0].kind == Symbol || s[0].kind == IntegerLiteral) && RunLength(l, s) == n {
      if s[0].kind == Symbol || s[0].kind == IntegerLiteral {
        MergedExactly(l, s, n);
      }
    }
  }

  /** A keyword alone, with its next token no annotation. */
  lemma KeywordIsPushed(l: Language, s: seq<Lexeme>, k: int)
    requires s == [Lexeme(Symbol, "for"), Lexeme(Symbol, "i"), Lexeme(End, "")]
    requires l.commands == [] && l.keyword("for") == Some(k) && !l.isAnnotation(Symbol)
    ensures Merge(l, s) != [] && Merge(l, s)[0] == Pushed(Other(k), "for", 1)
  {
    hide RunLength, Joined;
    MergeKinds(l, s);
    assert forall n :: 0 < n <= |s| ==> !IsRun(l, s, n);
  }

  /** A space follows the first token even if it is an integer, so a run of several tokens is
      never a command that goes on directly behind its leading integer. */
  lemma {:induction false} SpaceBehindFirst(l: Language, s: seq<Lexeme>, n: nat)
    requires 1 < n <= |s| && !l.isAnnotation(s[1].kind)
    ensures s[0].text + " " <= Joined(l, s, n)
    decreases n
  {
    if n > 2 {
      SpaceBehindFirst(l, s, n - 1);
      assert Joined(l, s, n - 1) <= Joined(l, s, n);
    } else {
      assert Joined(l, s, 1) == s[0].text;
    }
  }

  /** "3dsound" cannot be recognised when it is scanned as an integer and a symbol. */
  lemma LeadingIntegerIsNotMerged(l: Language, s: seq<Lexeme>)
    requires s == [Lexeme(IntegerLiteral, "3"), Lexeme(Symbol, "dsound"), Lexeme(End, "")]
    requires l.commands == ["3dsound"] && !l.isAnnotation(Symbol)
    ensures RunLength(l, s) == 0
  {
    assert Joined(l, s, 1) == "3";
    assert Lower("3") == "3" && "3" !in l.commands by {
      assert |Lower("3")| == 1;
    }
    SpaceBehindFirst(l, s, 2);
    var two := Joined(l, s, 2);
    assert two[1] == ("3" + " ")[1] == ' ';
    assert Lower(two)[1] == ' ' && "3dsound"[1] == 'd';
  }

  /** The text as the comment in the driver describes it: no space behind any integer. */
  function JoinedAsDescribed(l: Language, s: seq<Lexeme>, n: nat): string
    requires 0 < n <= |s|
  {
    if n == 1 then s[0].text
    else
      var gap := if s[n - 2].kind == IntegerLiteral || l.isAnnotation(s[n - 1].kind) then "" else " ";
      JoinedAsDescribed(l, s, n - 1) + gap + s[n - 1].text
  }

  /** For several tokens it is the text that is looked up exactly if they do not begin with an
      integer, or a type annotation follows it. */
  lemma {:induction false} DescribedExactly(l: Language, s: seq<Lexeme>, n: nat)
    requires 2 <= n <= |s|
    ensures JoinedAsDescribed(l, s, n) == Joined(l, s, n) <==> s[0].kind != IntegerLiteral || l.isAnnotation(s[1].kind)
    ensures |JoinedAsDescribed(l, s, n)| <= |Joined(l, s, n)|
    ensures JoinedAsDescribed(l, s, n) != Joined(l, s, n) ==> |JoinedAsDescribed(l, s, n)| < |Joined(l, s, n)|
    decreases n
  {
    if n == 2 {
      assert JoinedAsDescribed(l, s, 1) == Joined(l, s, 1) == s[0].text;
    } else {
      DescribedExactly(l, s, n - 1);
    }
  }
}
