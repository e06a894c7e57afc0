/** The driver's loop: it scans ahead, merges tokens, and pushes them to the parser. */
module ParserDriver {
  import opened CommandMatching
  import opened TokenMerging

  // `value` is the string that belongs to the token and `owned` the allocation that holds it,
  // for the kinds that have one. `str` is the text kept for look-ahead; it may not be set yet.
  datatype Token = Token(kind: Kind, value: string, owned: nat, str: string)

  function Owned(ts: seq<Token>): multiset<nat> {
    if ts == [] then multiset{}
    else (if ts[0].kind.HasFreeableString() then multiset{ts[0].owned} else multiset{}) + Owned(ts[1..])
  }

  lemma {:induction false} OwnedConcat(a: seq<Token>, b: seq<Token>)
    ensures Owned(a + b) == Owned(a) + Owned(b)
  {
    if a == [] {
      assert a + b == b;
    } else {
      assert (a + b)[1..] == a[1..] + b;
      OwnedConcat(a[1..], b);
    }
  }

  lemma OwnedOne(t: Token)
    ensures Owned([t]) == if t.kind.HasFreeableString() then multiset{t.owned} else multiset{}
  {
    assert [t][1..] == [];
  }

  lemma OwnedFirst(ts: seq<Token>)
    requires ts != []
    ensures Owned(ts) == Owned([ts[0]]) + Owned(ts[1..])
  {
    OwnedConcat([ts[0]], ts[1..]);
    assert ts == [ts[0]] + ts[1..];
  }

  /** The first `n` allocations, each once. */
  function Ids(n: nat): multiset<nat> {
    if n == 0 then multiset{} else Ids(n - 1) + multiset{n - 1}
  }

  lemma {:induction false} IdsOnce(n: nat, k: nat)
    ensures Ids(n)[k] == if k < n then 1 else 0
  {
    if n > 0 {
      IdsOnce(n - 1, k);
    }
  }

  /** The tokens are those of the input; only the last one may still lack its text. */
  predicate Queued(ts: seq<Token>, rest: seq<Lexeme>) {
    && |ts| <= |rest|
    && (forall k :: 0 <= k < |ts| ==> ts[k].kind == rest[k].kind && ts[k].value == rest[k].text)
    && (forall k :: 0 <= k < |ts| - 1 ==> ts[k].str == rest[k].text)
    && (ts != [] ==> ts[|ts| - 1].str == "" || ts[|ts| - 1].str == rest[|ts| - 1].text)
  }

  predicate AllTextsSet(ts: seq<Token>, rest: seq<Lexeme>) {
    |ts| <= |rest| && forall k :: 0 <= k < |ts| ==> ts[k].str == rest[k].text
  }

  class Driver {
    const input: seq<Lexeme>
    const language: Language
    const matcher: CommandMatcher
    var tokens: seq<Token>
    var scanned: nat
    var allocations: nat
    var freed: multiset<nat>
    var handed: multiset<nat>
    var pushed: seq<Pushed>

    constructor (lexemes: seq<Lexeme>, l: Language, m: CommandMatcher)
      ensures input == lexemes && language == l && matcher == m
      ensures tokens == [] && scanned == 0 && allocations == 0 && freed == multiset{} == handed && pushed == []
    {
      input, language, matcher := lexemes, l, m;
      tokens, scanned, allocations, freed, handed, pushed := [], 0, 0, multiset{}, multiset{}, [];
    }

    /** The matcher belongs to the language and knows the size of its table. */
    ghost predicate Ready()
      reads this, matcher
    {
      && IsInput(input) && IsLanguage(language) && this as object != matcher
      && matcher.commands == language.commands && matcher.Valid()
      && matcher.longestCommandLength == Longest(matcher.commands)
    }

    /** Every string allocated so far is in the queue, freed, or handed to the parser, once. */
    ghost predicate Accounted()
      reads this
    {
      Owned(tokens) + freed + handed == Ids(allocations)
    }

    /** The queue holds what was scanned behind the first `base` tokens of the input. */
    ghost predicate QueuedFrom(base: nat)
      reads this
    {
      base + |tokens| == scanned <= |input| && Queued(tokens, input[base..])
    }

    method ScanNextToken()
      requires scanned < |input| && Accounted()
      modifies `tokens, `scanned, `allocations, `freed
      ensures Accounted() && pushed == old(pushed) && scanned == old(scanned) + 1
      ensures tokens == old(tokens) + [Token(input[old(scanned)].kind, input[old(scanned)].text, old(allocations), "")]
    {
      hide Owned, Ids;
      var next := input[scanned];
      var token := Token(next.kind, next.text, allocations, "");
      OwnedConcat(tokens, [token]);
      OwnedOne(token);
      AccountedLonger(Owned(tokens), freed, handed, allocations);
      if next.kind.HasFreeableString() {
        allocations := allocations + 1;
      }
      tokens, scanned := tokens + [token], scanned + 1;
    }

    /** Sets the text of the last token scanned. */
    method SetLastText(ghost base: nat)
      requires tokens != [] && QueuedFrom(base) && Accounted()
      modifies `tokens
      ensures QueuedFrom(base) && Accounted() && AllTextsSet(tokens, input[base..]) && |tokens| == |old(tokens)|
    {
      hide Owned, Ids, Queued, AllTextsSet;
      var last := |tokens| - 1;
      assert input[base..][last] == input[scanned - 1];
      LastTextSet(tokens, input[base..]);
      tokens := tokens[last := tokens[last].(str := input[scanned - 1].text)];
    }

    /** Scans as far ahead as a command may reach and finds the tokens to merge. `possible` is
        the text assembled so far, of which the command is the beginning. */
    method FindRun(ghost base: nat) returns (found: bool, tokenIdx: nat, possible: string, matchedLength: nat)
      requires Ready() && QueuedFrom(base) && Accounted() && tokens != []
      requires tokens[0].kind == Symbol || tokens[0].kind == IntegerLiteral
      modifies `tokens, `scanned, `allocations, `freed
      ensures Ready() && QueuedFrom(base) && Accounted() && AllTextsSet(tokens, input[base..]) && pushed == old(pushed)
      ensures |tokens| >= |old(tokens)|
      ensures found <==> RunLength(language, input[base..]) > 0
      ensures found ==> tokenIdx == RunLength(language, input[base..]) < |tokens| && matchedLength <= |possible|
      ensures found ==> possible[..matchedLength] == Joined(language, input[base..], tokenIdx)
    {
      hide Queued, Owned, Ids, IsInput, Longest, MayRun, LookingAhead, RunLength, AllTextsSet, IsTable;
      ghost var rest := input[base..];
      FirstIsNotEnd(tokens, input, base);
      SetLastText(base);
      KindOf(tokens, rest, 0);
      var v := LookAhead(tokens[0].str, false, 0, false, 0);
      var i: nat := 1;
      StartOfLookAhead(language, rest);
      var more := true;
      while more && |v.possible| <= matcher.longestCommandLength
        invariant Ready() && QueuedFrom(base) && Accounted() && AllTextsSet(tokens, rest) && pushed == old(pushed)
        invariant |tokens| >= |old(tokens)| && i <= |tokens|
        invariant if more then i < |rest| && LookingAhead(language, rest, i, v) else FoundRun(language, rest, v) && v.tokenIdx < |tokens|
        decreases |rest| - i, more
      {
        v, more := LookOneFurther(base, i, v);
        if more {
          i := i + 1;
        }
      }
      if more {
        LookAheadIsOver(language, rest, i, v);
      }
      found, tokenIdx, possible, matchedLength := v.found, v.tokenIdx, v.possible, v.matchedLength;
    }

    /** Tries the text assembled so far, then adds the next token to it unless that one ends
        the look-ahead. */
    method LookOneFurther(ghost base: nat, i: nat, v: LookAhead) returns (r: LookAhead, more: bool)
      requires Ready() && QueuedFrom(base) && Accounted() && AllTextsSet(tokens, input[base..])
      requires i <= |tokens| && LookingAhead(language, input[base..], i, v)
      modifies `tokens, `scanned, `allocations, `freed
      ensures Ready() && QueuedFrom(base) && Accounted() && AllTextsSet(tokens, input[base..]) && pushed == old(pushed)
      ensures |tokens| >= |old(tokens)| && i < |tokens|
      ensures if more then i + 1 < |input[base..]| && LookingAhead(language, input[base..], i + 1, r)
              else FoundRun(language, input[base..], r) && r.tokenIdx < |tokens|
    {
      hide Queued, Owned, Ids, IsInput, Longest, LookingAhead, FoundRun, AllTextsSet, IsTable, MayRun, IsRun, Joined, Lower;
      ghost var rest := input[base..];
      PossibleIsJoined(language, rest, i, v);
      var hit := IsWholeCommand(base, i, v.possible);
      r := if hit then v.(found := true, tokenIdx := i, matchedLength := |v.possible|) else v;
      var token := TokenAt(base, i);
      if token.kind == End || token.kind == Empty {
        LookAheadEnds(language, rest, i, v);
        return r, false;
      }
      NotLast(input, base, i);
      ghost var w := r;
      var isAnnotation := language.isAnnotation(token.kind);
      if !r.lastSymbolWasInteger && !isAnnotation {
        r := r.(possible := r.possible + " ");
      } else if r.tokenIdx == i && isAnnotation {
        r := r.(found := false);
      }
      r := r.(possible := r.possible + token.str, lastSymbolWasInteger := token.kind == IntegerLiteral);
      more := true;
      LookAheadGoesOn(language, rest, i, v, w, r);
      PossibleIsJoined(language, rest, i + 1, r);
    }

    method IsWholeCommand(ghost base: nat, ghost i: nat, possible: string) returns (hit: bool)
      requires Ready() && base <= |input| && MayRun(input[base..], i) && possible == Joined(language, input[base..], i)
      ensures hit <==> IsRun(language, input[base..], i)
    {
      hide IsTable, LinearMatch, Joined, IsInput, Longest, Lower, IsRun;
      JoinedIsText(language, input, base, i);
      var result := matcher.FindLongestCommandMatching(possible);
      WholeIsCommand(language, input[base..], i);
      hit := result.found && result.matchedLength == |possible|;
    }

    /** Scans for the token if it is not in the queue yet. */
    method TokenAt(ghost base: nat, i: nat) returns (token: Token)
      requires QueuedFrom(base) && Accounted() && AllTextsSet(tokens, input[base..])
      requires i <= |tokens| && i < |input[base..]|
      modifies `tokens, `scanned, `allocations, `freed
      ensures QueuedFrom(base) && Accounted() && AllTextsSet(tokens, input[base..]) && pushed == old(pushed)
      ensures |tokens| >= |old(tokens)| && i < |tokens|
      ensures token.kind == input[base..][i].kind && token.str == input[base..][i].text
    {
      hide Queued, AllTextsSet, Owned, Ids;
      if i == |tokens| {
        assert input[base..][|tokens|] == input[scanned];
        QueuedLonger(tokens, input[base..], Token(input[scanned].kind, input[scanned].text, allocations, ""));
        ScanNextToken();
        SetLastText(base);
      }
      token := tokens[i];
      KindOf(tokens, input[base..], i);
    }

    /** Only the first token is not as scanned: it stands for the `span` tokens before `next`. */
    ghost predicate BehindHead(next: nat)
      reads this
    {
      && tokens != [] && next + |tokens| - 1 == scanned <= |input|
      && Queued(tokens[1..], input[next..])
    }

    /** Frees the strings of the first `n` tokens and replaces them by one command. */
    method MergeTokens(n: nat, text: string)
      requires 0 < n < |tokens| && Accounted()
      modifies `tokens, `scanned, `allocations, `freed
      ensures Accounted() && scanned == old(scanned) && pushed == old(pushed)
      ensures |tokens| == |old(tokens)| - n + 1 && tokens[1..] == old(tokens[n..])
      ensures tokens[0].kind == Command && tokens[0].value == text
    {
      hide Owned, Ids;
      ghost var was, freedBefore := tokens, freed;
      NothingOwned();
      for i := 0 to n
        invariant tokens == was && freed == freedBefore + Owned(was[..i])
        invariant allocations == old(allocations) && handed == old(handed) && scanned == old(scanned) && pushed == old(pushed)
      {
        OwnedConcat(was[..i], [was[i]]);
        OwnedOne(was[i]);
        assert was[..i + 1] == was[..i] + [was[i]];
        if tokens[i].kind.HasFreeableString() {
          freed := freed + multiset{tokens[i].owned};
        }
      }
      OwnedConcat(was[..n], was[n..]);
      assert was == was[..n] + was[n..];
      var command := Token(Command, text, allocations, tokens[0].str);
      OwnedConcat([command], was[n..]);
      OwnedOne(command);
      AccountedLonger(Owned(was), freedBefore, handed, allocations);
      Moved(Owned(was), freedBefore, handed, Owned(was[..n]), Owned(was[n..]), multiset{allocations});
      tokens, allocations := [command] + tokens[n..], allocations + 1;
    }

    /** Looks ahead from a symbol or an integer and merges what was found. */
    method ScanAheadForPossibleCommand(ghost base: nat) returns (span: nat)
      requires Ready() && QueuedFrom(base) && Accounted() && tokens != []
      requires tokens[0].kind == Symbol || tokens[0].kind == IntegerLiteral
      modifies `tokens, `scanned, `allocations, `freed
      ensures Ready() && Accounted() && pushed == old(pushed)
      ensures 0 < span <= |input[base..]| && BehindHead(base + span)
      ensures var n := RunLength(language, input[base..]);
        && (n > 0 ==> span == n && |tokens| > 1 && tokens[0].kind == Command && tokens[0].value == Joined(language, input[base..], n))
        && (n == 0 ==> span == 1 && tokens[0].kind == input[base].kind && tokens[0].value == input[base].text)
    {
      hide Owned, Ids, IsInput, Longest, RunLength, AllTextsSet, IsTable, Joined, Queued;
      ghost var rest := input[base..];
      var found, n, possible, matchedLength := FindRun(base);
      if found {
        QueuedTail(tokens, rest, n);
        span := n;
        assert input[base..][n..] == input[base + n..];
        MergeTokens(n, possible[..matchedLength]);
      } else {
        QueuedTail(tokens, rest, 1);
        assert input[base..][1..] == input[base + 1..];
        span := 1;
      }
    }

    /** Symbols and commands may turn out to be keywords. The next token is needed to decide. */
    method ConvertToKeyword(ghost base: nat, ghost span: nat)
      requires Ready() && Accounted() && base + span <= |input| && BehindHead(base + span)
      requires tokens[0].kind == Symbol || tokens[0].kind == Command ==> base + span < |input|
      modifies `tokens, `scanned, `allocations, `freed
      ensures Ready() && Accounted() && BehindHead(base + span) && pushed == old(pushed)
      ensures tokens[0].value == old(tokens[0].value)
      ensures tokens[0].kind == AsKeyword(language, old(tokens[0].kind), tokens[0].value, input[base + span..])
    {
      hide Owned, Ids, IsInput, IsTable, Longest;
      if tokens[0].kind == Symbol || tokens[0].kind == Command {
        if |tokens| < 2 {
          QueuedAlone(input, base + span, Token(input[scanned].kind, input[scanned].text, allocations, ""));
          ScanNextToken();
          assert tokens[1..] == [tokens[1]];
        }
        assert tokens[1..][0] == tokens[1] && input[base + span..][0] == input[base + span];
        if language.isAnnotation(tokens[1].kind) {
          return;
        }
        var keyword := language.keyword(tokens[0].value);
        if keyword.Some? {
          FreeFirst(keyword.value);
        }
      }
    }

    /** The first token becomes a keyword, which has no string. */
    method FreeFirst(keyword: int)
      requires tokens != [] && tokens[0].kind.HasFreeableString() && Accounted()
      modifies `freed, `tokens
      ensures Accounted() && |tokens| == |old(tokens)| && tokens[1..] == old(tokens[1..])
      ensures tokens[0] == old(tokens[0]).(kind := Other(keyword))
    {
      hide Owned, Ids;
      ghost var was := tokens;
      OwnedFirst(tokens);
      OwnedOne(tokens[0]);
      freed := freed + multiset{tokens[0].owned};
      tokens := tokens[0 := tokens[0].(kind := Other(keyword))];
      assert tokens[1..] == was[1..];
      OwnedFirst(tokens);
      OwnedOne(tokens[0]);
    }

    /** The parser takes the first token over, with its string. */
    method Push(ghost base: nat, span: nat)
      requires Accounted() && BehindHead(base + span)
      modifies this
      ensures Accounted() && QueuedFrom(base + span)
      ensures pushed == old(pushed) + [Pushed(old(tokens[0].kind), old(tokens[0].value), span)]
      ensures |handed| - Strings(pushed) == |old(handed)| - Strings(old(pushed))
    {
      hide Owned, Ids, Queued;
      ghost var before := pushed;
      pushed := pushed + [Pushed(tokens[0].kind, tokens[0].value, span)];
      assert pushed[..|pushed| - 1] == before;
      OwnedFirst(tokens);
      OwnedOne(tokens[0]);
      if tokens[0].kind.HasFreeableString() {
        handed := handed + multiset{tokens[0].owned};
      }
      tokens := tokens[1..];
    }

    /** Makes sure that there is a first token, and merges tokens into it if they are a command. */
    method PrepareFirst(ghost base: nat) returns (span: nat)
      requires Ready() && QueuedFrom(base) && Accounted() && base < |input|
      modifies `tokens, `scanned, `allocations, `freed
      ensures Ready() && Accounted() && pushed == old(pushed)
      ensures 0 < span <= |input[base..]| && BehindHead(base + span)
      ensures tokens[0].kind == Symbol || tokens[0].kind == Command ==> base + span < |input|
      ensures FirstPushed(language, input[base..])
        == Pushed(AsKeyword(language, tokens[0].kind, tokens[0].value, input[base + span..]), tokens[0].value, span)
    {
      hide Owned, Ids, Queued, IsTable, Longest, RunLength, Joined, IsInput, FirstPushed, AsKeyword;
      ghost var rest := input[base..];
      if tokens == [] {
        QueuedAlone(input, base, Token(input[scanned].kind, input[scanned].text, allocations, ""));
        ScanNextToken();
        assert tokens == [tokens[0]];
      }
      QueuedTail(tokens, rest, 1);
      assert rest[1..] == input[base + 1..];
      span := 1;
      if tokens[0].kind == Symbol || tokens[0].kind == IntegerLiteral {
        span := ScanAheadForPossibleCommand(base);
      }
      HeadIsFirst(language, input, base, tokens[0], span);
      assert rest[span..] == input[base + span..];
    }

    /** One round of the loop. */
    method PushNext(ghost base: nat) returns (span: nat)
      requires Ready() && QueuedFrom(base) && Accounted() && base < |input|
      modifies this
      ensures Ready() && Accounted() && 0 < span && base + span <= |input| && QueuedFrom(base + span)
      ensures pushed == old(pushed) + [FirstPushed(language, input[base..])]
      ensures span == FirstPushed(language, input[base..]).span
      ensures |handed| - Strings(pushed) == |old(handed)| - Strings(old(pushed))
    {
      hide Owned, Ids, Queued, IsTable, Longest, IsInput, FirstPushed, AsKeyword;
      span := PrepareFirst(base);
      ConvertToKeyword(base, span);
      Push(base, span);
    }

    /** The loop goes on until the parser is done, which it is after the end of the input at
        the latest. What is left in the queue is freed. */
    method DoParse(more: (nat, Kind) -> bool)
      requires Ready() && forall k :: !more(k, End)
      requires tokens == [] && scanned == 0 && pushed == [] && allocations == 0 && freed == multiset{} == handed
      modifies this
      ensures freed + handed == Ids(allocations)
      ensures pushed != [] && pushed <= Merge(language, input) && |handed| == Strings(pushed)
      ensures forall k :: 0 <= k < |pushed| ==> (more(k, pushed[k].kind) <==> k < |pushed| - 1)
    {
      hide Owned, Ids, Queued, IsTable, Longest, IsInput, Merge, FirstPushed;
      NothingOwned();
      NoIds();
      InputStarts(input);
      ghost var base := 0;
      var goesOn := true;
      while goesOn
        invariant Ready() && Accounted() && QueuedFrom(base)
        invariant goesOn ==> base < |input|
        invariant pushed + Merge(language, input[base..]) == Merge(language, input)
        invariant forall k :: 0 <= k < |pushed| ==> (more(k, pushed[k].kind) <==> goesOn || k < |pushed| - 1)
        invariant (goesOn || pushed != []) && |handed| == Strings(pushed)
        decreases |input| - base, goesOn
      {
        MergeStep(language, input, base);
        var span := PushNext(base);
        assert pushed[|pushed| - 1] == FirstPushed(language, input[base..]);
        goesOn := more(|pushed| - 1, pushed[|pushed| - 1].kind);
        base := base + span;
      }
      Cleanup();
    }

    method Cleanup()
      requires Accounted()
      modifies `tokens, `scanned, `allocations, `freed
      ensures tokens == [] && freed + handed == Ids(allocations) && pushed == old(pushed)
    {
      hide Owned, Ids;
      ghost var was, before := tokens, freed;
      NothingOwned();
      for i := 0 to |tokens|
        invariant tokens == was && freed == before + Owned(was[..i])
        invariant pushed == old(pushed) && handed == old(handed) && allocations == old(allocations)
      {
        OwnedConcat(was[..i], [was[i]]);
        OwnedOne(was[i]);
        assert was[..i + 1] == was[..i] + [was[i]];
        if tokens[i].kind.HasFreeableString() {
          freed := freed + multiset{tokens[i].owned};
        }
      }
      assert was[..|was|] == was;
      tokens := [];
    }
  }

  lemma NothingOwned()
    ensures Owned([]) == multiset{}
  {
  }

  lemma Moved(owned: multiset<nat>, freed: multiset<nat>, handed: multiset<nat>, front: multiset<nat>, back: multiset<nat>, one: multiset<nat>)
    requires owned == front + back
    ensures (one + back) + (freed + front) + handed == owned + one + freed + handed
  {
  }

  lemma NoIds()
    ensures Ids(0) == multiset{}
  {
  }

  lemma InputStarts(input: seq<Lexeme>)
    requires IsInput(input)
    ensures |input| > 0 && input[0..] == input && Queued([], input[0..])
  {
  }

  /** The head of the queue is what the parser gets, before it may become a keyword. */
  lemma HeadIsFirst(l: Language, input: seq<Lexeme>, base: nat, head: Token, span: nat)
    requires IsInput(input) && base < |input| && 0 < span <= |input[base..]|
    requires var rest := input[base..];
      var n := if rest[0].kind == Symbol || rest[0].kind == IntegerLiteral then RunLength(l, rest) else 0;
      if n > 0 then span == n && head.kind == Command && head.value == Joined(l, rest, n)
      else span == 1 && head.kind == rest[0].kind && head.value == rest[0].text
    ensures FirstPushed(l, input[base..])
      == Pushed(AsKeyword(l, head.kind, head.value, input[base..][span..]), head.value, span)
    ensures head.kind == Symbol || head.kind == Command ==> base + span < |input|
  {
  }

  lemma MergeStep(l: Language, input: seq<Lexeme>, base: nat)
    requires IsInput(input) && base < |input|
    ensures var p := FirstPushed(l, input[base..]);
      && base + p.span <= |input|
      && Merge(l, input[base..]) == [p] + Merge(l, input[base + p.span..])
      && (base + p.span == |input| ==> p.kind == End)
  {
    var rest := input[base..];
    var p := FirstPushed(l, rest);
    assert rest[p.span..] == input[base + p.span..];
    hide Joined;
    if base + p.span == |input| {
      assert p.span == |rest|;
      assert rest[|rest| - 1].kind == End;
    }
  }

  lemma QueuedAlone(input: seq<Lexeme>, next: nat, t: Token)
    requires next < |input| && t.kind == input[next].kind && t.value == input[next].text && t.str == ""
    ensures Queued([t], input[next..])
  {
  }

  lemma QueuedTail(ts: seq<Token>, rest: seq<Lexeme>, n: nat)
    requires Queued(ts, rest) && n <= |ts|
    ensures n <= |rest| && Queued(ts[n..], rest[n..])
    ensures n > 0 ==> ts[0].kind == rest[0].kind && ts[0].value == rest[0].text
  {
  }

  // The variables of the look-ahead loop, and what they mean after `n` tokens.

  datatype LookAhead = LookAhead(possible: string, lastSymbolWasInteger: bool, tokenIdx: nat, found: bool, matchedLength: nat)

  ghost predicate LookingAhead(l: Language, s: seq<Lexeme>, n: nat, v: LookAhead) {
    MayRun(s, n) && MatchedUpTo(l, s, n, n - 1, v)
  }

  /** `m` tokens have been matched, the text of `n` has been assembled. */
  ghost predicate MatchedUpTo(l: Language, s: seq<Lexeme>, n: nat, m: nat, v: LookAhead)
    requires 0 < n < |s|
  {
    && v.possible == Joined(l, s, n)
    && v.lastSymbolWasInteger == (n > 1 && s[n - 1].kind == IntegerLiteral)
    && v.tokenIdx == LongestRun(l, s, m)
    && (v.found <==> v.tokenIdx > 0 && (v.tokenIdx == n || !Cancelled(l, s, v.tokenIdx)))
    && (v.tokenIdx > 0 ==> v.matchedLength <= |v.possible| && v.possible[..v.matchedLength] == Joined(l, s, v.tokenIdx))
  }

  lemma PossibleIsJoined(l: Language, s: seq<Lexeme>, n: nat, v: LookAhead)
    requires LookingAhead(l, s, n, v)
    ensures MayRun(s, n) && 0 < n < |s| && v.possible == Joined(l, s, n)
  {
  }

  lemma AfterMatch(l: Language, s: seq<Lexeme>, n: nat, v: LookAhead)
    requires LookingAhead(l, s, n, v)
    ensures MatchedUpTo(l, s, n, n, if IsRun(l, s, n) then v.(found := true, tokenIdx := n, matchedLength := |v.possible|) else v)
  {
    NextRun(l, s, n);
    hide Joined, LongestRun, IsRun;
    assert v.possible[..|v.possible|] == v.possible;
  }

  lemma LookAheadEnds(l: Language, s: seq<Lexeme>, n: nat, v: LookAhead)
    requires LookingAhead(l, s, n, v) && s[n].kind.StopsLookAhead()
    ensures var w := if IsRun(l, s, n) then v.(found := true, tokenIdx := n, matchedLength := |v.possible|) else v;
      FoundRun(l, s, w) && w.tokenIdx <= n
  {
    AfterMatch(l, s, n, v);
    var w := if IsRun(l, s, n) then v.(found := true, tokenIdx := n, matchedLength := |v.possible|) else v;
    NothingBehind(l, s, n);
    RunLengthIs(l, s, w.tokenIdx);
  }

  /** The look-ahead has found what is to be merged. */
  ghost predicate FoundRun(l: Language, s: seq<Lexeme>, v: LookAhead) {
    && (v.found <==> RunLength(l, s) > 0)
    && (v.found ==> v.tokenIdx == RunLength(l, s) && v.matchedLength <= |v.possible|
                    && v.possible[..v.matchedLength] == Joined(l, s, v.tokenIdx))
  }

  lemma LookAheadGoesOn(l: Language, s: seq<Lexeme>, n: nat, v: LookAhead, w: LookAhead, x: LookAhead)
    requires LookingAhead(l, s, n, v) && !s[n].kind.StopsLookAhead() && MayRun(s, n + 1)
    requires w == if IsRun(l, s, n) then v.(found := true, tokenIdx := n, matchedLength := |v.possible|) else v
    requires x.possible == w.possible + (if !w.lastSymbolWasInteger && !l.isAnnotation(s[n].kind) then " " else "") + s[n].text
    requires x.lastSymbolWasInteger == (s[n].kind == IntegerLiteral)
    requires x.tokenIdx == w.tokenIdx && x.matchedLength == w.matchedLength
    requires x.found == (w.found && !(w.tokenIdx == n && l.isAnnotation(s[n].kind)))
    ensures LookingAhead(l, s, n + 1, x)
  {
    AfterMatch(l, s, n, v);
    JoinedLonger(l, s, n);
    CancelledIs(l, s, n);
    hide Joined, LongestRun, IsRun, Cancelled;
    if w.tokenIdx > 0 {
      assert w.possible <= x.possible;
      assert x.possible[..w.matchedLength] == w.possible[..w.matchedLength];
    }
  }

  lemma LookAheadIsOver(l: Language, s: seq<Lexeme>, n: nat, v: LookAhead)
    requires LookingAhead(l, s, n, v) && |v.possible| > Longest(l.commands)
    ensures FoundRun(l, s, v) && v.tokenIdx < n
  {
    NothingLonger(l, s, n);
    RunLengthIs(l, s, v.tokenIdx);
    hide Joined;
  }

  /** A type annotation follows the first `n` tokens. */
  predicate Cancelled(l: Language, s: seq<Lexeme>, n: nat)
    requires n < |s|
  {
    !s[n].kind.StopsLookAhead() && l.isAnnotation(s[n].kind)
  }

  lemma AccountedLonger(owned: multiset<nat>, freed: multiset<nat>, handed: multiset<nat>, n: nat)
    requires owned + freed + handed == Ids(n)
    ensures owned + multiset{n} + freed + handed == Ids(n + 1)
  {
    assert owned + multiset{n} + freed + handed == (owned + freed + handed) + multiset{n};
  }

  lemma QueuedLonger(ts: seq<Token>, rest: seq<Lexeme>, t: Token)
    requires Queued(ts, rest) && AllTextsSet(ts, rest) && |ts| < |rest|
    requires t.kind == rest[|ts|].kind && t.value == rest[|ts|].text && t.str == ""
    ensures Queued(ts + [t], rest)
  {
  }

  lemma LastTextSet(ts: seq<Token>, rest: seq<Lexeme>)
    requires Queued(ts, rest) && ts != []
    ensures var last := |ts| - 1;
      var now := ts[last := ts[last].(str := rest[last].text)];
      Queued(now, rest) && AllTextsSet(now, rest) && Owned(now) == Owned(ts)
  {
    var last := |ts| - 1;
    SameOwned(ts, ts[last := ts[last].(str := rest[last].text)]);
  }

  lemma {:induction false} SameOwned(a: seq<Token>, b: seq<Token>)
    requires |a| == |b| && forall k :: 0 <= k < |a| ==> a[k].kind == b[k].kind && a[k].owned == b[k].owned
    ensures Owned(a) == Owned(b)
  {
    if a != [] {
      SameOwned(a[1..], b[1..]);
    }
  }

  lemma CancelledIs(l: Language, s: seq<Lexeme>, n: nat)
    requires MayRun(s, n) && !s[n].kind.StopsLookAhead()
    ensures Cancelled(l, s, n) <==> l.isAnnotation(s[n].kind)
  {
  }

  lemma RunLengthIs(l: Language, s: seq<Lexeme>, n: nat)
    requires LongestRun(l, s, |s|) == n
    ensures n > 0 ==> n < |s|
    ensures RunLength(l, s) == if n > 0 && Cancelled(l, s, n) then 0 else n
  {
  }

  lemma FirstIsNotEnd(ts: seq<Token>, input: seq<Lexeme>, base: nat)
    requires IsInput(input) && base < |input| && Queued(ts, input[base..]) && ts != [] && ts[0].kind != End
    ensures MayRun(input[base..], 1) && ts[0].value == input[base].text && ts[0].kind == input[base].kind
  {
  }

  lemma KindOf(ts: seq<Token>, rest: seq<Lexeme>, i: nat)
    requires Queued(ts, rest) && AllTextsSet(ts, rest) && i < |ts|
    ensures ts[i].kind == rest[i].kind && ts[i].str == rest[i].text
  {
  }

  lemma NotLast(input: seq<Lexeme>, base: nat, i: nat)
    requires IsInput(input) && base <= |input| && MayRun(input[base..], i) && !input[base..][i].kind.StopsLookAhead()
    ensures MayRun(input[base..], i + 1)
  {
  }

  lemma StartOfLookAhead(l: Language, s: seq<Lexeme>)
    requires MayRun(s, 1)
    ensures |s| > 1 && LookingAhead(l, s, 1, LookAhead(s[0].text, false, 0, false, 0))
  {
  }

  lemma JoinedLonger(l: Language, s: seq<Lexeme>, n: nat)
    requires 0 < n < |s|
    ensures Joined(l, s, n + 1) == Joined(l, s, n) + Gap(l, s, n) + s[n].text
  {
  }

  lemma {:induction false} JoinedIsText(l: Language, input: seq<Lexeme>, base: nat, n: nat)
    requires IsInput(input) && base <= |input| && 0 < n <= |input[base..]|
    ensures IsText(Joined(l, input[base..], n))
    decreases n
  {
    if n > 1 {
      JoinedIsText(l, input, base, n - 1);
    }
  }

  lemma WholeIsCommand(l: Language, s: seq<Lexeme>, n: nat)
    requires IsLanguage(l) && MayRun(s, n)
    ensures var text := Joined(l, s, n);
      LinearMatch(l.commands, Lower(text)) == MatchResult(|text|, true) <==> IsRun(l, s, n)
  {
    hide IsTable, LinearMatch, Joined;
    var text := Joined(l, s, n);
    WholeExactly(l.commands, Lower(text));
  }

  lemma NextRun(l: Language, s: seq<Lexeme>, n: nat)
    requires n > 0
    ensures LongestRun(l, s, n) == if IsRun(l, s, n) then n else LongestRun(l, s, n - 1)
  {
  }

  lemma {:induction false} SameLongestRun(l: Language, s: seq<Lexeme>, n: nat, m: nat)
    requires n <= m && forall k :: n < k <= m ==> !IsRun(l, s, k)
    ensures LongestRun(l, s, m) == LongestRun(l, s, n)
    decreases m
  {
    if m > n {
      SameLongestRun(l, s, n, m - 1);
    }
  }

  lemma NothingBehind(l: Language, s: seq<Lexeme>, n: nat)
    requires MayRun(s, n) && s[n].kind.StopsLookAhead()
    ensures LongestRun(l, s, |s|) == LongestRun(l, s, n)
  {
    SameLongestRun(l, s, n, |s|);
  }

  lemma NothingLonger(l: Language, s: seq<Lexeme>, n: nat)
    requires MayRun(s, n) && |Joined(l, s, n)| > Longest(l.commands)
    ensures LongestRun(l, s, |s|) == LongestRun(l, s, n - 1)
  {
    forall k | n <= k < |s| ensures !IsCommand(l, s, k) {
      JoinedGrows(l, s, n, k);
      LongestIsBound(l.commands, Lower(Joined(l, s, k)));
    }
    hide Joined, IsCommand, Longest;
    SameLongestRun(l, s, n - 1, |s|);
  }

  lemma {:induction false} JoinedGrows(l: Language, s: seq<Lexeme>, n: nat, k: nat)
    requires 0 < n <= k <= |s|
    ensures |Joined(l, s, n)| <= |Joined(l, s, k)|
    decreases k
  {
    if n < k {
      JoinedGrows(l, s, n, k - 1);
    }
  }

  lemma {:induction false} LongestIsBound(commands: seq<string>, c: string)
    requires |c| > Longest(commands)
    ensures c !in commands
  {
    if commands != [] {
      var n := |commands| - 1;
      LongestIsBound(commands[..n], c);
      assert commands == commands[..n] + [commands[n]];
    }
  }
}
