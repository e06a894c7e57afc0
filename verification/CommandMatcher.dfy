/** The table of commands, and the search for the longest command at the start of a text. */
module CommandMatching {
  // Texts are ASCII without NUL; reading one place behind the end gives NUL, as in C.

  predicate IsText(s: string) {
    forall i :: 0 <= i < |s| ==> '\0' < s[i] < 128 as char
  }

  function At(s: string, i: nat): char
    requires i <= |s|
  {
    if i < |s| then s[i] else '\0'
  }

  function ToLower(c: char): char {
    if 'A' <= c <= 'Z' then (c as int + 32) as char else c
  }

  function Lower(s: string): (r: string)
    ensures |r| == |s| && forall i :: 0 <= i < |s| ==> r[i] == ToLower(s[i])
  {
    seq(|s|, i requires 0 <= i < |s| => ToLower(s[i]))
  }

  predicate IsSymbol(c: char) {
    '0' <= c <= '9' || 'A' <= c <= 'Z' || 'a' <= c <= 'z' || c == '_'
  }

  // Lexicographic order.

  predicate Leq(a: string, b: string) {
    a == [] || (b != [] && (a[0] < b[0] || (a[0] == b[0] && Leq(a[1..], b[1..]))))
  }

  predicate Sorted(commands: seq<string>) {
    forall i, j :: 0 <= i < j < |commands| ==> Leq(commands[i], commands[j])
  }

  predicate IsTable(commands: seq<string>) {
    Sorted(commands) && forall i :: 0 <= i < |commands| ==> IsText(commands[i]) && Lower(commands[i]) == commands[i]
  }

  lemma {:induction false} LeqTotal(a: string, b: string)
    ensures Leq(a, b) || Leq(b, a)
    decreases |a|
  {
    if a != [] && b != [] {
      LeqTotal(a[1..], b[1..]);
    }
  }

  lemma {:induction false} LeqTransitive(a: string, b: string, c: string)
    requires Leq(a, b) && Leq(b, c)
    ensures Leq(a, c)
    decreases |a|
  {
    if a != [] && a[0] == b[0] == c[0] {
      LeqTransitive(a[1..], b[1..], c[1..]);
    }
  }

  /** Behind a common prefix the order is decided by the next character, NUL being the least. */
  lemma {:induction false} LeqAt(a: string, b: string, p: string)
    requires p <= a && p <= b && Leq(a, b) && IsText(a) && IsText(b)
    ensures At(a, |p|) <= At(b, |p|)
    decreases |p|
  {
    if p != [] {
      assert a[0] == p[0] == b[0];
      assert p[1..] <= a[1..] && p[1..] <= b[1..];
      LeqAt(a[1..], b[1..], p[1..]);
    }
  }

  /** A text comes before everything that continues it. */
  lemma {:induction false} PrefixLeq(p: string, a: string)
    requires p <= a
    ensures Leq(p, a) && (Leq(a, p) ==> a == p)
    decreases |p|
  {
    if p != [] {
      assert p[1..] <= a[1..];
      PrefixLeq(p[1..], a[1..]);
      assert a == [a[0]] + a[1..] && p == [p[0]] + p[1..];
    }
  }

  // The reference: a scan through the whole table for every prefix of the text.

  datatype MatchResult = MatchResult(matchedLength: nat, found: bool)

  /** Position of the first command that starts with `p`, or the size of the table. */
  function FirstWith(commands: seq<string>, p: string): (i: nat)
    ensures i <= |commands|
    ensures i < |commands| ==> p <= commands[i]
    ensures forall k :: 0 <= k < i ==> !(p <= commands[k])
  {
    if commands == [] then 0
    else if p <= commands[0] then 0
    else
      var i := FirstWith(commands[1..], p);
      assert forall k :: 1 <= k < i + 1 ==> commands[k] == commands[1..][k - 1];
      i + 1
  }

  /** The text does not go on with a symbol character after `n` characters. */
  predicate Boundary(s: string, n: nat)
    requires n <= |s|
  {
    !IsSymbol(At(s, n))
  }

  predicate HitAt(commands: seq<string>, s: string, n: nat)
    requires n <= |s|
  {
    Boundary(s, n) && var i := FirstWith(commands, s[..n]); i < |commands| && commands[i] <= s
  }

  function Scan(commands: seq<string>, s: string, n: nat): MatchResult
    requires n <= |s|
  {
    if n == 0 then MatchResult(LongestShared(commands, s), false)
    else if HitAt(commands, s, n) then MatchResult(|commands[FirstWith(commands, s[..n])]|, true)
    else Scan(commands, s, n - 1)
  }

  function Shared(a: string, b: string): (n: nat)
    ensures n <= |a| && n <= |b| && a[..n] == b[..n]
    ensures n < |a| && n < |b| ==> a[n] != b[n]
  {
    if a == [] || b == [] || a[0] != b[0] then 0
    else
      var n := Shared(a[1..], b[1..]);
      assert a[..n + 1] == [a[0]] + a[1..][..n] && b[..n + 1] == [b[0]] + b[1..][..n];
      n + 1
  }

  function LongestShared(commands: seq<string>, s: string): (n: nat)
    ensures n <= |s|
    ensures forall c <- commands :: Shared(c, s) <= n
    ensures n == 0 || exists c :: c in commands && Shared(c, s) == n
  {
    if commands == [] then 0
    else
      var n := LongestShared(commands[1..], s);
      assert forall c <- commands[1..] :: c in commands;
      assert commands[0] in commands && forall c <- commands :: c == commands[0] || c in commands[1..];
      if n < Shared(commands[0], s) then Shared(commands[0], s) else n
  }

  function LinearMatch(commands: seq<string>, s: string): MatchResult {
    Scan(commands, s, |s|)
  }

  // What the reference means.

  /** A hit is the length of a command that starts the text. */
  lemma {:induction false} FoundIsCommand(commands: seq<string>, s: string, n: nat)
    requires n <= |s| && Scan(commands, s, n).found
    ensures exists c :: c in commands && c <= s && |c| == Scan(commands, s, n).matchedLength
    decreases n
  {
    if HitAt(commands, s, n) {
      assert commands[FirstWith(commands, s[..n])] in commands;
    } else {
      FoundIsCommand(commands, s, n - 1);
    }
  }

  /** Every command that starts the text and ends where a word ends is found, or a longer one. */
  lemma {:induction false} FoundIsLongest(commands: seq<string>, s: string, n: nat, c: string)
    requires IsTable(commands) && 0 < |c| <= n <= |s| && c in commands && c <= s && Boundary(s, |c|)
    ensures Scan(commands, s, n).found && Scan(commands, s, n).matchedLength >= |c|
    decreases n
  {
    if n == |c| {
      FirstIsCommand(commands, c);
      assert s[..n] == c;
    } else if HitAt(commands, s, n) {
      assert s[..n] <= commands[FirstWith(commands, s[..n])];
    } else {
      FoundIsLongest(commands, s, n - 1, c);
    }
  }

  /** The first command that starts with a command is that command. */
  lemma FirstIsCommand(commands: seq<string>, c: string)
    requires IsTable(commands) && c in commands
    ensures FirstWith(commands, c) < |commands| && commands[FirstWith(commands, c)] == c
  {
    var k :| 0 <= k < |commands| && commands[k] == c;
    var i := FirstWith(commands, c);
    assert i <= k;
    PrefixLeq(c, commands[i]);
  }

  /** The whole text is matched exactly when it is a command; the empty text never is. */
  lemma WholeExactly(commands: seq<string>, s: string)
    requires IsTable(commands)
    ensures LinearMatch(commands, s) == MatchResult(|s|, true) <==> s != [] && s in commands
  {
    var r := LinearMatch(commands, s);
    if r == MatchResult(|s|, true) {
      FoundIsCommand(commands, s, |s|);
      var c :| c in commands && c <= s && |c| == |s|;
      assert c == s;
    }
    if s != [] && s in commands {
      FoundIsLongest(commands, s, |s|, s);
      FoundIsCommand(commands, s, |s|);
    }
  }

  /** The other way round: without a hit, the length is that of the longest common prefix. */
  lemma {:induction false} NotFoundIsShared(commands: seq<string>, s: string, n: nat)
    requires n <= |s| && !Scan(commands, s, n).found
    ensures Scan(commands, s, n).matchedLength == LongestShared(commands, s)
    decreases n
  {
    if n > 0 {
      NotFoundIsShared(commands, s, n - 1);
    }
  }

  /** A match is the length of a command that starts the text, and no shorter than any command
      that does so and ends where a word ends; otherwise it is the longest common prefix. */
  lemma MatchMeaning(commands: seq<string>, str: string)
    requires IsTable(commands) && IsText(str)
    ensures var s, r := Lower(str), LinearMatch(commands, Lower(str));
      && (r.found ==> exists c :: c in commands && c <= s && |c| == r.matchedLength)
      && (forall c :: c in commands && c != [] && c <= s && Boundary(s, |c|) ==> r.found && r.matchedLength >= |c|)
      && (!r.found ==> r.matchedLength == LongestShared(commands, s))
  {
    hide IsTable, IsText, Scan, Boundary;
    var s, r := Lower(str), LinearMatch(commands, Lower(str));
    if r.found {
      FoundIsCommand(commands, s, |s|);
    } else {
      NotFoundIsShared(commands, s, |s|);
    }
    forall c | c in commands && c != [] && c <= s && Boundary(s, |c|) ensures r.found && r.matchedLength >= |c| {
      FoundIsLongest(commands, s, |s|, c);
    }
  }

  // The same in characters: an upper-case letter is 32 below its lower-case letter.

  predicate SameLetter(x: char, y: char) {
    || x == y
    || (65 <= x as int <= 90 && y as int == x as int + 32)
    || (65 <= y as int <= 90 && x as int == y as int + 32)
  }

  predicate SameText(a: string, b: string) {
    |a| == |b| && forall i :: 0 <= i < |a| ==> SameLetter(a[i], b[i])
  }

  /** After `n` characters the text goes on with a digit, a letter or an underscore. */
  predicate GoesOn(s: string, n: nat) {
    n < |s| && var c := s[n] as int; 48 <= c <= 57 || 65 <= c <= 90 || 97 <= c <= 122 || c == 95
  }

  predicate Starts(c: string, s: string) {
    |c| <= |s| && SameText(c, s[..|c|])
  }

  predicate NoUpperCase(s: string) {
    forall i :: 0 <= i < |s| ==> !(65 <= s[i] as int <= 90)
  }

  lemma LowerExactly(a: string, b: string)
    ensures Lower(a) == Lower(b) <==> SameText(a, b)
    ensures NoUpperCase(Lower(a))
    ensures NoUpperCase(a) ==> Lower(a) == a
  {
    if Lower(a) == Lower(b) {
      forall i | 0 <= i < |a| ensures SameLetter(a[i], b[i]) {
        assert Lower(a)[i] == Lower(b)[i];
      }
    }
  }

  /** Two texts that differ in the case of letters only get the same result. */
  lemma CaseIsIgnored(commands: seq<string>, a: string, b: string)
    requires SameText(a, b)
    ensures LinearMatch(commands, Lower(a)) == LinearMatch(commands, Lower(b))
  {
    LowerExactly(a, b);
  }

  /** A text is found whole exactly if it is a command but for the case of letters, and not empty. */
  lemma WholeInAnyCase(commands: seq<string>, u: string)
    requires IsTable(commands)
    ensures LinearMatch(commands, Lower(u)) == MatchResult(|u|, true) <==> u != [] && exists c <- commands :: SameText(u, c)
  {
    WholeExactly(commands, Lower(u));
    forall c | c in commands ensures SameText(u, c) <==> Lower(u) == c {
      var i :| 0 <= i < |commands| && commands[i] == c;
      LowerExactly(u, c);
    }
  }

  lemma StartsExactly(commands: seq<string>, c: string, str: string)
    requires IsTable(commands) && IsText(str) && c in commands
    ensures c <= Lower(str) <==> Starts(c, str)
    ensures |c| <= |str| ==> (Boundary(Lower(str), |c|) <==> !GoesOn(str, |c|))
  {
    var i :| 0 <= i < |commands| && commands[i] == c;
    if |c| <= |str| {
      LowerExactly(c, str[..|c|]);
      assert Lower(str)[..|c|] == Lower(str[..|c|]);
    }
  }

  /** What a match is, in characters. */
  lemma MatchMeaningByLetters(commands: seq<string>, str: string)
    requires IsTable(commands) && IsText(str)
    ensures var r := LinearMatch(commands, Lower(str));
      && (r.found ==> exists c <- commands :: Starts(c, str) && |c| == r.matchedLength)
      && (forall c <- commands :: c != [] && Starts(c, str) && !GoesOn(str, |c|) ==> r.found && r.matchedLength >= |c|)
  {
    hide IsTable, IsText, LinearMatch, Boundary, GoesOn, Starts;
    MatchMeaning(commands, str);
    forall c | c in commands
      ensures c <= Lower(str) <==> Starts(c, str)
      ensures Starts(c, str) ==> |c| <= |Lower(str)| && (Boundary(Lower(str), |c|) <==> !GoesOn(str, |c|))
    {
      StartsExactly(commands, c, str);
    }
  }

  /** A hit may end inside a word. */
  lemma HitInsideWord()
    ensures LinearMatch(["abc d"], "abc def") == MatchResult(5, true)
  {
    var commands, s := ["abc d"], "abc def";
    assert forall n :: 3 < n <= 7 ==> (HitAt(commands, s, n) ==> n == 7);
    assert !HitAt(commands, s, 7) by { assert !(s[..7] <= "abc d"); }
    assert Scan(commands, s, 7) == Scan(commands, s, 6) == Scan(commands, s, 5) == Scan(commands, s, 4) == Scan(commands, s, 3);
    assert s[..3] == "abc" && "abc" <= "abc d" && "abc d" <= s;
    assert HitAt(commands, s, 3);
  }

  /** Every hit on every text ends where a word of the text ends. */
  ghost predicate AlwaysAtWordEnd(commands: seq<string>) {
    forall str: string :: IsText(str) ==>
      var s, r := Lower(str), LinearMatch(commands, Lower(str));
      r.found ==> r.matchedLength <= |s| && Boundary(s, r.matchedLength)
  }

  /** Wherever a word ends inside a command, another command that starts in the same way comes
      before it in the table. */
  predicate WordsAreCovered(commands: seq<string>) {
    forall i, k :: 0 <= i < |commands| && 0 < k < |commands[i]| && !IsSymbol(commands[i][k])
      ==> FirstWith(commands, commands[i][..k]) < i
  }

  /** A hit before the end of its command is one that the table does not cover. */
  lemma {:induction false} CoveredHit(commands: seq<string>, s: string, n: nat)
    requires WordsAreCovered(commands) && n <= |s| && Scan(commands, s, n).found
    ensures Scan(commands, s, n).matchedLength <= |s| && Boundary(s, Scan(commands, s, n).matchedLength)
    decreases n
  {
    if HitAt(commands, s, n) {
      var i := FirstWith(commands, s[..n]);
      var c := commands[i];
      AgreeUpTo(c, s, n);
    } else {
      CoveredHit(commands, s, n - 1);
    }
  }

  lemma AgreeUpTo(c: string, s: string, n: nat)
    requires c <= s && n <= |c|
    ensures c[..n] == s[..n] && (n < |c| ==> c[n] == s[n])
  {
  }

  lemma NoneSoLong(commands: seq<string>, s: string)
    requires forall j :: 0 <= j < |commands| ==> |commands[j]| < |s|
    ensures FirstWith(commands, s) == |commands|
  {
    assert forall j :: 0 <= j < |commands| ==> !(s <= commands[j]);
  }

  lemma FirstIsEarlier(commands: seq<string>, p: string, q: string, i: nat)
    requires p <= q && i < |commands| && q <= commands[i] && FirstWith(commands, p) == i
    ensures FirstWith(commands, q) == i
  {
    var j := FirstWith(commands, q);
    assert p <= commands[j];
  }

  /** The command with so many more letters behind it that no command goes on for as long. */
  function Lengthened(c: string, n: nat): string {
    c + seq(n, _ => 'a')
  }

  lemma LengthenedExactly(c: string, n: nat)
    ensures var s := Lengthened(c, n); |s| == |c| + n && c <= s && forall j :: |c| <= j < |s| ==> s[j] == 'a'
  {
  }

  /** On such a text there are no hits from the end of the command on, and those before it are
      hits of the command. */
  lemma HitsOfLengthened(commands: seq<string>, i: nat, k: nat, extra: nat, n: nat)
    requires i < |commands| && 0 < k < |commands[i]| && !IsSymbol(commands[i][k])
    requires FirstWith(commands, commands[i][..k]) == i && extra > 0
    requires forall j :: 0 <= j < |commands| ==> |commands[j]| < |commands[i]| + extra
    requires k <= n <= |commands[i]| + extra
    ensures var s := Lengthened(commands[i], extra);
      && |s| == |commands[i]| + extra
      && (|commands[i]| <= n ==> !HitAt(commands, s, n))
      && (n < |commands[i]| ==> FirstWith(commands, s[..n]) == i)
      && (n == k ==> HitAt(commands, s, n))
  {
    var c, s := commands[i], Lengthened(commands[i], extra);
    LengthenedExactly(c, extra);
    hide Lengthened, FirstWith;
    if n == |s| {
      assert s[..n] == s;
      NoneSoLong(commands, s);
    } else if |c| <= n {
      assert s[n] == 'a';
    } else {
      AgreeUpTo(c, s, n);
      FirstOfBeginning(commands, i, k, n);
    }
  }

  /** The search ends behind the command, inside the last word. */
  lemma {:induction false} UncoveredHit(commands: seq<string>, i: nat, k: nat, extra: nat, n: nat)
    requires i < |commands| && 0 < k < |commands[i]| && !IsSymbol(commands[i][k])
    requires FirstWith(commands, commands[i][..k]) == i && extra > 0
    requires forall j :: 0 <= j < |commands| ==> |commands[j]| < |commands[i]| + extra
    requires k <= n <= |commands[i]| + extra
    ensures |Lengthened(commands[i], extra)| == |commands[i]| + extra
    ensures Scan(commands, Lengthened(commands[i], extra), n) == MatchResult(|commands[i]|, true)
    decreases n
  {
    hide Lengthened, FirstWith, HitAt, IsSymbol;
    HitsOfLengthened(commands, i, k, extra, n);
    if n > k && !HitAt(commands, Lengthened(commands[i], extra), n) {
      UncoveredHit(commands, i, k, extra, n - 1);
    }
  }

  lemma FirstOfBeginning(commands: seq<string>, i: nat, k: nat, n: nat)
    requires i < |commands| && k <= n < |commands[i]| && FirstWith(commands, commands[i][..k]) == i
    ensures FirstWith(commands, commands[i][..n]) == i
  {
    var c := commands[i];
    assert c[..k] <= c[..n];
    FirstIsEarlier(commands, c[..k], c[..n], i);
  }

  lemma {:induction false} SomeLength(commands: seq<string>) returns (n: nat)
    ensures n > 0 && forall j :: 0 <= j < |commands| ==> |commands[j]| < n
  {
    if commands == [] {
      n := 1;
    } else {
      var m := SomeLength(commands[1..]);
      n := m + |commands[0]| + 1;
      forall j | 0 <= j < |commands| ensures |commands[j]| < n {
        if j > 0 {
          assert commands[j] == commands[1..][j - 1];
        }
      }
    }
  }

  /** Hits never end inside a word exactly if, wherever a word ends inside a command, an earlier
      command of the table starts in the same way. */
  lemma AtWordEndExactly(commands: seq<string>)
    requires IsTable(commands)
    ensures AlwaysAtWordEnd(commands) <==> WordsAreCovered(commands)
  {
    hide Scan;
    if WordsAreCovered(commands) {
      forall str: string | IsText(str) && LinearMatch(commands, Lower(str)).found
        ensures var s, n := Lower(str), LinearMatch(commands, Lower(str)).matchedLength; n <= |s| && Boundary(s, n)
      {
        CoveredHit(commands, Lower(str), |Lower(str)|);
      }
    } else {
      var i, k :| 0 <= i < |commands| && 0 < k < |commands[i]| && !IsSymbol(commands[i][k])
        && FirstWith(commands, commands[i][..k]) >= i;
      var c := commands[i];
      assert c[..k] <= c;
      var extra := SomeLength(commands);
      var s := Lengthened(c, extra);
      UncoveredHit(commands, i, k, extra, |s|);
      LengthenedIsText(c, extra);
      assert s[|c|] == 'a' && !Boundary(s, |c|);
    }
  }

  lemma LengthenedIsText(c: string, n: nat)
    requires IsText(c) && Lower(c) == c
    ensures IsText(Lengthened(c, n)) && Lower(Lengthened(c, n)) == Lengthened(c, n)
  {
    var s := Lengthened(c, n);
    forall j | 0 <= j < |s| ensures ToLower(s[j]) == s[j] {
      if j < |c| {
        assert s[j] == c[j] == Lower(c)[j];
      }
    }
  }

  // The search itself.

  method Strncicmp(a: string, b: string, n: nat) returns (d: int)
    requires IsText(a) && IsText(b)
    ensures d == 0 <==> Lower(Upto(a, n)) == Lower(Upto(b, n))
  {
    hide IsText;
    var i := 0;
    while i < n
      invariant i <= n && i <= |a| && i <= |b|
      invariant forall k :: 0 <= k < i ==> ToLower(a[k]) == ToLower(b[k])
    {
      NulOnlyAtEnd(a, i);
      NulOnlyAtEnd(b, i);
      d := ToLower(At(a, i)) as int - ToLower(At(b, i)) as int;
      if d != 0 {
        Differ(a, b, n, i);
        return;
      }
      if At(a, i) == '\0' {
        return;
      }
      i := i + 1;
    }
    d := 0;
  }

  function Upto(s: string, n: nat): string {
    if n <= |s| then s[..n] else s
  }

  lemma NulOnlyAtEnd(s: string, i: nat)
    requires IsText(s) && i <= |s|
    ensures ToLower(At(s, i)) == '\0' <==> i == |s|
    ensures At(s, i) == '\0' <==> i == |s|
  {
  }

  lemma Differ(a: string, b: string, n: nat, i: nat)
    requires i < n && i <= |a| && i <= |b| && ToLower(At(a, i)) != ToLower(At(b, i))
    ensures Lower(Upto(a, n)) != Lower(Upto(b, n))
  {
    var x, y := Lower(Upto(a, n)), Lower(Upto(b, n));
    assert i < |x| && i < |y| ==> x[i] != y[i];
  }

  class CommandMatcher {
    var commands: seq<string>
    var longestCommandLength: nat
    var longestCommandWordCount: nat

    ghost predicate Valid()
      reads this
    {
      IsTable(commands)
    }

    constructor ()
      ensures Valid() && commands == [] && longestCommandLength == longestCommandWordCount == 0
    {
      commands, longestCommandLength, longestCommandWordCount := [], 0, 0;
    }

    /** First entry of the range whose character at `m` is not below `c`. */
    method LowerBound(first: nat, last: nat, c: char, m: nat) returns (bound: nat)
      requires first <= last <= |commands| && Ordered(commands, first, last, m)
      ensures first <= bound <= last
      ensures forall i :: first <= i < bound ==> At(commands[i], m) < c
      ensures forall i :: bound <= i < last ==> At(commands[i], m) >= c
    {
      bound := first;
      var count := last - first;
      while count > 0
        invariant first <= bound <= bound + count <= last
        invariant forall i :: first <= i < bound ==> At(commands[i], m) < c
        invariant forall i :: bound + count <= i < last ==> At(commands[i], m) >= c
      {
        var step := count / 2;
        var middle := bound + step;
        if ToLower(At(commands[middle], m)) < c {
          bound, count := middle + 1, count - step - 1;
        } else {
          count := step;
        }
      }
    }

    /** First entry of the range whose character at `m` is above `c`. */
    method UpperBound(first: nat, last: nat, c: char, m: nat) returns (bound: nat)
      requires first <= last <= |commands| && Ordered(commands, first, last, m)
      ensures first <= bound <= last
      ensures forall i :: first <= i < bound ==> At(commands[i], m) <= c
      ensures forall i :: bound <= i < last ==> At(commands[i], m) > c
    {
      bound := first;
      var count := last - first;
      while count > 0
        invariant first <= bound <= bound + count <= last
        invariant forall i :: first <= i < bound ==> At(commands[i], m) <= c
        invariant forall i :: bound + count <= i < last ==> At(commands[i], m) > c
      {
        var step := count / 2;
        var middle := bound + step;
        if c < ToLower(At(commands[middle], m)) {
          count := step;
        } else {
          bound, count := middle + 1, count - step - 1;
        }
      }
    }

    /** Narrows the table down to the commands that share more and more of the text, then goes
        back through the places where a word ended. */
    method FindLongestCommandMatching(str: string) returns (r: MatchResult)
      requires Valid() && IsText(str)
      ensures r == LinearMatch(commands, Lower(str))
    {
      var matchedLen: nat;
      var commandStack: seq<nat>;
      matchedLen, commandStack := Narrow(str);
      ghost var s := Lower(str);
      StackIsScan(commands, s, matchedLen);
      hide Stack, Scan, IsText, IsTable;
      while commandStack != []
        invariant InTable(commands, commandStack)
        invariant LinearMatch(commands, s) == FromStack(commands, s, commandStack, matchedLen)
      {
        var command := commands[commandStack[|commandStack| - 1]];
        EntryIsText(commands, commandStack[|commandStack| - 1]);
        var d := Strncicmp(str, command, |command|);
        ComparedPrefix(str, command);
        if d == 0 {
          return MatchResult(|command|, true);
        }
        commandStack := commandStack[..|commandStack| - 1];
      }
      r := MatchResult(matchedLen, false);
    }

    method Narrow(str: string) returns (matchedLen: nat, commandStack: seq<nat>)
      requires Valid() && IsText(str)
      ensures matchedLen <= |str| && commandStack == Stack(commands, Lower(str), matchedLen)
      ensures matchedLen == 0 || FirstWith(commands, Lower(str)[..matchedLen]) < |commands|
      ensures matchedLen == |str| || FirstWith(commands, Lower(str)[..matchedLen + 1]) == |commands|
    {
      hide IsTable, IsText, FirstWith, IsSymbol, InRange, Stack;
      ghost var s := Lower(str);
      EmptyStack(commands, s);
      AllInRange(commands, s);
      var first: nat, last: nat := 0, |commands|;
      commandStack := [];
      matchedLen := 0;
      LowerText(str);
      while matchedLen < |str|
        invariant matchedLen <= |str| && first <= last <= |commands|
        invariant InRange(commands, first, last, s[..matchedLen])
        invariant commandStack == Stack(commands, s, matchedLen)
        invariant matchedLen == 0 || FirstWith(commands, s[..matchedLen]) < |commands|
      {
        first, last := NarrowOnce(str, matchedLen, first, last);
        if first == last {
          break;
        }
        matchedLen := matchedLen + 1;
        if matchedLen == |str| || !IsSymbol(str[matchedLen]) {
          commandStack := commandStack + [first];
        }
        StackGrows(commands, str, matchedLen);
      }
    }

    method NarrowOnce(str: string, m: nat, first: nat, last: nat) returns (newFirst: nat, newLast: nat)
      requires Valid() && IsText(str) && m < |str|
      requires first <= last <= |commands| && InRange(commands, first, last, Lower(str)[..m])
      ensures newFirst <= newLast <= |commands| && InRange(commands, newFirst, newLast, Lower(str)[..m + 1])
      ensures FirstWith(commands, Lower(str)[..m + 1]) == if newFirst < newLast then newFirst else |commands|
    {
      hide IsTable, IsText, FirstWith, InRange;
      ghost var s := Lower(str);
      LowerText(str);
      RangeIsOrdered(commands, first, last, s, m);
      var c := ToLower(str[m]);
      newFirst := LowerBound(first, last, c, m);
      newLast := UpperBound(newFirst, last, c, m);
      Narrowed(commands, s, m, first, last, newFirst, newLast);
      FirstInRange(commands, s[..m + 1], newFirst, newLast);
    }

    /** Fills the table from the names of all commands, in any order and any case. */
    method UpdateFromIndex(names: seq<string>)
      requires forall i :: 0 <= i < |names| ==> IsText(names[i])
      modifies this
      ensures Valid() && multiset(commands) == multiset(LowerAll(names))
      ensures forall c <- commands :: NoUpperCase(c) && exists name <- names :: SameText(c, name)
      ensures forall name <- names :: exists c <- commands :: SameText(name, c)
      ensures longestCommandLength == Longest(commands) && longestCommandWordCount == MostWords(commands)
    {
      hide IsTable, IsText;
      EmptyTable();
      commands := [];
      var i := 0;
      while i < |names|
        invariant i <= |names| && IsTable(commands) && multiset(commands) == multiset(LowerAll(names[..i]))
      {
        LowerText(names[i]);
        LowerTwice(names[i]);
        LowerOneMore(names, i);
        Insert(Lower(names[i]));
        i := i + 1;
      }
      assert names[..i] == names;
      NamesOfTable(names, commands);
      Measure();
    }

    method Measure()
      modifies `longestCommandLength, `longestCommandWordCount
      ensures longestCommandLength == Longest(commands) && longestCommandWordCount == MostWords(commands)
    {
      var i := 0;
      longestCommandLength, longestCommandWordCount := 0, 0;
      while i < |commands|
        invariant i <= |commands|
        invariant longestCommandLength == Longest(commands[..i]) && longestCommandWordCount == MostWords(commands[..i])
      {
        assert commands[..i + 1][..i] == commands[..i];
        var words := WordCount(commands[i]);
        if longestCommandLength < |commands[i]| {
          longestCommandLength := |commands[i]|;
        }
        if longestCommandWordCount < words {
          longestCommandWordCount := words;
        }
        i := i + 1;
      }
      assert commands[..i] == commands;
    }

    /** Puts a name at its place in the sorted table. */
    method Insert(name: string)
      requires IsTable(commands) && IsText(name) && Lower(name) == name
      modifies `commands
      ensures IsTable(commands) && multiset(commands) == multiset(old(commands)) + multiset{name}
    {
      var place := 0;
      while place < |commands| && Leq(commands[place], name)
        invariant place <= |commands|
        invariant forall k :: 0 <= k < place ==> Leq(commands[k], name)
      {
        place := place + 1;
      }
      InsertionIsTable(commands, name, place);
      assert commands == commands[..place] + commands[place..];
      commands := commands[..place] + [name] + commands[place..];
    }
  }

  lemma EmptyTable()
    ensures IsTable([])
  {
  }

  lemma InsertionIsTable(commands: seq<string>, name: string, place: nat)
    requires IsTable(commands) && IsText(name) && Lower(name) == name && place <= |commands|
    requires forall k :: 0 <= k < place ==> Leq(commands[k], name)
    requires place == |commands| || !Leq(commands[place], name)
    ensures IsTable(commands[..place] + [name] + commands[place..])
  {
    hide IsText, Leq;
    var t := commands[..place] + [name] + commands[place..];
    forall k | place <= k < |commands| ensures Leq(name, commands[k]) {
      LeqTotal(name, commands[place]);
      if k > place {
        LeqTransitive(name, commands[place], commands[k]);
      }
    }
    forall i, j | 0 <= i < j < |t| ensures Leq(t[i], t[j]) {
      var x := if i < place then i else i - 1;
      var y := if j < place then j else j - 1;
      assert i != place ==> t[i] == commands[x];
      assert j != place ==> t[j] == commands[y];
    }
  }

  function LowerAll(names: seq<string>): seq<string> {
    seq(|names|, i requires 0 <= i < |names| => Lower(names[i]))
  }

  lemma LowerOneMore(names: seq<string>, i: nat)
    requires i < |names|
    ensures LowerAll(names[..i + 1]) == LowerAll(names[..i]) + [Lower(names[i])]
  {
  }

  lemma NamesOfTable(names: seq<string>, commands: seq<string>)
    requires multiset(commands) == multiset(LowerAll(names))
    ensures forall c <- commands :: NoUpperCase(c) && exists name <- names :: SameText(c, name)
    ensures forall name <- names :: exists c <- commands :: SameText(name, c)
  {
    var lower := LowerAll(names);
    forall c | c in commands ensures NoUpperCase(c) && exists name <- names :: SameText(c, name) {
      assert c in multiset(lower);
      var i :| 0 <= i < |lower| && lower[i] == c;
      LowerTwice(names[i]);
      LowerExactly(names[i], c);
      LowerExactly(c, names[i]);
      assert names[i] in names;
    }
    forall name | name in names ensures exists c <- commands :: SameText(name, c) {
      var i :| 0 <= i < |names| && names[i] == name;
      assert lower[i] in multiset(commands);
      LowerTwice(name);
      LowerExactly(name, lower[i]);
    }
  }

  lemma LowerTwice(s: string)
    ensures Lower(Lower(s)) == Lower(s)
  {
  }

  function Longest(commands: seq<string>): nat {
    if commands == [] then 0
    else
      var n := |commands| - 1;
      if Longest(commands[..n]) < |commands[n]| then |commands[n]| else Longest(commands[..n])
  }

  function Spaces(s: string): nat {
    if s == [] then 0 else Spaces(s[..|s| - 1]) + if s[|s| - 1] == ' ' then 1 else 0
  }

  function MostWords(commands: seq<string>): nat {
    if commands == [] then 0
    else
      var n := |commands| - 1;
      if MostWords(commands[..n]) < Spaces(commands[n]) + 1 then Spaces(commands[n]) + 1 else MostWords(commands[..n])
  }

  /** The places of the spaces in a text. */
  function SpacesOf(s: string): set<nat> {
    set i: nat | i < |s| && s[i] == ' '
  }

  lemma {:induction false} SpacesExactly(s: string)
    ensures Spaces(s) == |SpacesOf(s)|
    decreases |s|
  {
    if s != [] {
      var n := |s| - 1;
      SpacesExactly(s[..n]);
      assert SpacesOf(s) == if s[n] == ' ' then SpacesOf(s[..n]) + {n} else SpacesOf(s[..n]);
      assert n !in SpacesOf(s[..n]);
    } else {
      assert SpacesOf(s) == {};
    }
  }

  /** The two measures are the largest length and the largest number of words of a command. */
  lemma {:induction false} MeasuresExactly(commands: seq<string>)
    ensures forall c <- commands :: |c| <= Longest(commands) && |SpacesOf(c)| + 1 <= MostWords(commands)
    ensures commands != [] ==> exists c <- commands :: |c| == Longest(commands)
    ensures commands != [] ==> exists c <- commands :: |SpacesOf(c)| + 1 == MostWords(commands)
    ensures commands == [] ==> Longest(commands) == 0 == MostWords(commands)
    decreases |commands|
  {
    if commands != [] {
      var n := |commands| - 1;
      var c := commands[n];
      MeasuresExactly(commands[..n]);
      SpacesExactly(c);
      hide SpacesOf;
      assert c in commands && forall d <- commands :: d == c || d in commands[..n];
      assert forall d <- commands[..n] :: d in commands;
    }
  }

  method WordCount(s: string) returns (n: nat)
    ensures n == Spaces(s) + 1
  {
    n := 0;
    for i := 0 to |s|
      invariant n == Spaces(s[..i])
    {
      assert s[..i + 1][..i] == s[..i];
      if s[i] == ' ' {
        n := n + 1;
      }
    }
    assert s[..|s|] == s;
    n := n + 1;
  }

  lemma EntryIsText(commands: seq<string>, i: nat)
    requires IsTable(commands) && i < |commands|
    ensures IsText(commands[i]) && Lower(commands[i]) == commands[i]
  {
  }

  lemma LowerText(s: string)
    requires IsText(s)
    ensures IsText(Lower(s)) && forall i :: 0 <= i < |s| ==> (IsSymbol(s[i]) <==> IsSymbol(Lower(s)[i]))
  {
  }

  /** On a range the characters at `m` exist, are lower case, and ascend. */
  predicate Ordered(commands: seq<string>, first: nat, last: nat, m: nat)
    requires first <= last <= |commands|
  {
    && (forall i :: first <= i < last ==> m <= |commands[i]| && ToLower(At(commands[i], m)) == At(commands[i], m))
    && (forall i, j :: first <= i < j < last ==> At(commands[i], m) <= At(commands[j], m))
  }

  predicate InRange(commands: seq<string>, first: nat, last: nat, p: string)
    requires first <= last <= |commands|
  {
    forall i :: 0 <= i < |commands| ==> (first <= i < last <==> p <= commands[i])
  }

  /** The first commands with each prefix that ends where a word ends. */
  function Stack(commands: seq<string>, s: string, m: nat): seq<nat>
    requires m <= |s|
  {
    if m == 0 then []
    else Stack(commands, s, m - 1) + if Boundary(s, m) then [FirstWith(commands, s[..m])] else []
  }

  lemma RangeIsOrdered(commands: seq<string>, first: nat, last: nat, s: string, m: nat)
    requires IsTable(commands) && m <= |s| && first <= last <= |commands| && InRange(commands, first, last, s[..m])
    ensures Ordered(commands, first, last, m)
  {
    forall i | first <= i < last ensures m <= |commands[i]| && ToLower(At(commands[i], m)) == At(commands[i], m) {
      assert s[..m] <= commands[i];
      assert m < |commands[i]| ==> Lower(commands[i])[m] == commands[i][m];
    }
    forall i, j | first <= i < j < last ensures At(commands[i], m) <= At(commands[j], m) {
      assert s[..m] <= commands[i] && s[..m] <= commands[j];
      LeqAt(commands[i], commands[j], s[..m]);
    }
  }

  lemma EmptyStack(commands: seq<string>, s: string)
    ensures Stack(commands, s, 0) == []
  {
  }

  lemma AllInRange(commands: seq<string>, s: string)
    ensures InRange(commands, 0, |commands|, s[..0])
  {
  }

  lemma FirstInRange(commands: seq<string>, p: string, first: nat, last: nat)
    requires first <= last <= |commands| && InRange(commands, first, last, p)
    ensures FirstWith(commands, p) == if first < last then first else |commands|
  {
    var i := FirstWith(commands, p);
    assert i < |commands| ==> p <= commands[i];
    if first < last {
      assert p <= commands[first];
    }
  }

  lemma StackGrows(commands: seq<string>, str: string, m: nat)
    requires IsText(str) && 0 < m <= |str|
    ensures var s := Lower(str);
      Stack(commands, s, m) == Stack(commands, s, m - 1)
        + if m == |str| || !IsSymbol(str[m]) then [FirstWith(commands, s[..m])] else []
  {
    LowerText(str);
  }

  /** One more character: the range between the bounds is that of the longer prefix. */
  lemma Narrowed(commands: seq<string>, s: string, m: nat, first: nat, last: nat, newFirst: nat, newLast: nat)
    requires m < |s| && IsText(s) && first <= newFirst <= newLast <= last <= |commands|
    requires InRange(commands, first, last, s[..m]) && Ordered(commands, first, last, m)
    requires forall i :: first <= i < newFirst ==> At(commands[i], m) < s[m]
    requires forall i :: newFirst <= i < newLast ==> s[m] <= At(commands[i], m) <= s[m]
    requires forall i :: newLast <= i < last ==> At(commands[i], m) > s[m]
    ensures InRange(commands, newFirst, newLast, s[..m + 1])
  {
    forall i | 0 <= i < |commands| ensures newFirst <= i < newLast <==> s[..m + 1] <= commands[i] {
      OneMoreCharacter(commands[i], s, m);
    }
  }

  lemma OneMoreCharacter(c: string, s: string, m: nat)
    requires m < |s| && IsText(s)
    ensures s[..m + 1] <= c <==> s[..m] <= c && At(c, m) == s[m]
  {
    if s[..m + 1] <= c {
      assert c[..m + 1] == s[..m + 1];
      assert c[..m] == c[..m + 1][..m] == s[..m];
    }
    if s[..m] <= c && At(c, m) == s[m] {
      assert c[..m + 1] == c[..m] + [c[m]] == s[..m + 1];
    }
  }

  // Going back through the stack is the scan.

  predicate InTable(commands: seq<string>, stack: seq<nat>) {
    forall k :: 0 <= k < |stack| ==> stack[k] < |commands|
  }

  function FromStack(commands: seq<string>, s: string, stack: seq<nat>, m: nat): MatchResult
    requires InTable(commands, stack)
  {
    if stack == [] then MatchResult(m, false)
    else
      var c := commands[stack[|stack| - 1]];
      if c <= s then MatchResult(|c|, true) else FromStack(commands, s, stack[..|stack| - 1], m)
  }

  lemma StackIsScan(commands: seq<string>, s: string, m: nat)
    requires m <= |s| && (m == 0 || FirstWith(commands, s[..m]) < |commands|)
    requires m == |s| || FirstWith(commands, s[..m + 1]) == |commands|
    ensures InTable(commands, Stack(commands, s, m))
    ensures LinearMatch(commands, s) == FromStack(commands, s, Stack(commands, s, m), m)
  {
    NoneLonger(commands, s, m, |s|);
    MatchedIsShared(commands, s, m);
    StackScans(commands, s, m, m);
  }

  lemma MatchedIsShared(commands: seq<string>, s: string, m: nat)
    requires m <= |s| && (m == 0 || FirstWith(commands, s[..m]) < |commands|)
    requires m == |s| || FirstWith(commands, s[..m + 1]) == |commands|
    ensures LongestShared(commands, s) == m
  {
    if m > 0 {
      var c := commands[FirstWith(commands, s[..m])];
      assert c in commands;
      SharedPrefix(c, s, m);
    }
    if m < |s| {
      forall c | c in commands ensures Shared(c, s) <= m {
        SharesNoMore(commands, s, m, c);
      }
    }
  }

  lemma SharesNoMore(commands: seq<string>, s: string, m: nat, c: string)
    requires m < |s| && c in commands && FirstWith(commands, s[..m + 1]) == |commands|
    ensures Shared(c, s) <= m
  {
    var k :| 0 <= k < |commands| && commands[k] == c;
    assert !(s[..m + 1] <= c);
    var n := Shared(c, s);
    if n > m {
      PrefixOfPrefix(s, c, m + 1, n);
    }
  }

  lemma PrefixOfPrefix(s: string, c: string, n: nat, m: nat)
    requires n <= m <= |s| && s[..m] <= c
    ensures s[..n] <= c
  {
    assert forall i :: 0 <= i < n ==> s[..n][i] == s[..m][i] == c[i];
  }

  lemma {:induction false} SharedPrefix(c: string, s: string, m: nat)
    requires m <= |s| && s[..m] <= c
    ensures Shared(c, s) >= m
  {
    assert forall i :: 0 <= i < m ==> s[..m][i] == s[i] == c[i];
  }

  lemma {:induction false} NoneLonger(commands: seq<string>, s: string, m: nat, n: nat)
    requires m <= n <= |s| && (m == |s| || FirstWith(commands, s[..m + 1]) == |commands|)
    ensures Scan(commands, s, n) == Scan(commands, s, m)
    decreases n
  {
    if n > m {
      NotLonger(commands, s, m, n);
      NoneLonger(commands, s, m, n - 1);
    }
  }

  lemma NotLonger(commands: seq<string>, s: string, m: nat, n: nat)
    requires m < n <= |s| && FirstWith(commands, s[..m + 1]) == |commands|
    ensures FirstWith(commands, s[..n]) == |commands|
  {
    forall k | 0 <= k < |commands| ensures !(s[..n] <= commands[k]) {
      if s[..n] <= commands[k] {
        PrefixOfPrefix(s, commands[k], m + 1, n);
      }
    }
  }

  lemma {:induction false} StackScans(commands: seq<string>, s: string, m: nat, n: nat)
    requires n <= m <= |s| && (m == 0 || FirstWith(commands, s[..m]) < |commands|)
    requires LongestShared(commands, s) == m
    ensures InTable(commands, Stack(commands, s, n))
    ensures Scan(commands, s, n) == FromStack(commands, s, Stack(commands, s, n), m)
    decreases n
  {
    if n > 0 {
      StackScans(commands, s, m, n - 1);
      ShorterPrefix(commands, s, m, n);
      ScanStep(commands, s, m, n, Stack(commands, s, n - 1));
    }
  }

  lemma ScanStep(commands: seq<string>, s: string, m: nat, n: nat, below: seq<nat>)
    requires 0 < n <= |s| && FirstWith(commands, s[..n]) < |commands| && InTable(commands, below)
    requires Scan(commands, s, n - 1) == FromStack(commands, s, below, m)
    ensures var all := below + if Boundary(s, n) then [FirstWith(commands, s[..n])] else [];
      InTable(commands, all) && Scan(commands, s, n) == FromStack(commands, s, all, m)
  {
    hide IsSymbol;
    var i := FirstWith(commands, s[..n]);
    hide FirstWith;
    if Boundary(s, n) {
      var all := below + [i];
      assert all[..|all| - 1] == below;
    } else {
      assert below + [] == below;
    }
  }

  lemma ShorterPrefix(commands: seq<string>, s: string, m: nat, n: nat)
    requires n <= m <= |s| && FirstWith(commands, s[..m]) < |commands|
    ensures FirstWith(commands, s[..n]) < |commands|
  {
    PrefixOfPrefix(s, commands[FirstWith(commands, s[..m])], n, m);
  }

  lemma ComparedPrefix(str: string, c: string)
    requires Lower(c) == c
    ensures Lower(Upto(str, |c|)) == Lower(Upto(c, |c|)) <==> c <= Lower(str)
  {
    var s := Lower(str);
    assert Upto(c, |c|) == c;
    if |c| <= |str| {
      assert Lower(str[..|c|]) == s[..|c|];
    } else {
      assert |Lower(Upto(str, |c|))| == |str|;
    }
  }
}
