/** Pattern matching with "*", "?" and "[...]" character sets. */
module Glob {
  import opened Text

  // ---- The glob relation ----

  datatype Token = AnyRun | AnyOne | OneOf(body: String) | Literal(c: CHAR16)

  /** A set is a list of characters and lo-hi ranges; a range's low end is the character before its dash. */
  predicate Member(w: String, i: nat, c: CHAR16)
    requires i < |w|
  {
    if w[i] != DASH then c == w[i]
    else i + 1 < |w| && ((if i == 0 then 0 else w[i - 1]) <= c <= w[i + 1] || c == w[i + 1])
  }

  predicate InSet(w: String, c: CHAR16) {
    exists i | 0 <= i < |w| :: Member(w, i, c)
  }

  predicate TokenMatches(t: Token, piece: String) {
    match t
    case AnyRun => true
    case AnyOne => |piece| == 1
    case OneOf(w) => |piece| == 1 && InSet(w, piece[0])
    case Literal(c) => piece == [c]
  }

  function Flatten(pieces: seq<String>): String {
    if pieces == [] then [] else pieces[0] + Flatten(pieces[1..])
  }

  ghost predicate Splits(s: String, pieces: seq<String>, tokens: seq<Token>) {
    && |pieces| == |tokens|
    && Flatten(pieces) == s
    && forall i | 0 <= i < |tokens| :: TokenMatches(tokens[i], pieces[i])
  }

  /** The string falls into consecutive pieces, one for each token of the pattern. */
  ghost predicate Matches(s: String, tokens: seq<Token>) {
    exists pieces: seq<String> :: Splits(s, pieces, tokens)
  }

  lemma EmptyMatches(s: String)
    ensures Matches(s, []) <==> s == []
  {
    if s == [] {
      assert Splits(s, [], []);
    }
  }

  lemma SplitsCons(s: String, piece: String, rest: seq<String>, tokens: seq<Token>)
    requires tokens != [] && piece <= s
    requires TokenMatches(tokens[0], piece) && Splits(s[|piece|..], rest, tokens[1..])
    ensures Matches(s, tokens)
  {
    var pieces := [piece] + rest;
    assert pieces[1..] == rest;
    assert piece + s[|piece|..] == s;
    forall i | 0 <= i < |tokens|
      ensures TokenMatches(tokens[i], pieces[i])
    {
      if i > 0 {
        assert tokens[i] == tokens[1..][i - 1];
      }
    }
    assert Splits(s, pieces, tokens);
  }

  /** The first token takes a prefix, the others match what is left. */
  lemma MatchesSplit(s: String, tokens: seq<Token>)
    requires tokens != []
    ensures Matches(s, tokens)
       <==> exists k | 0 <= k <= |s| :: TokenMatches(tokens[0], s[..k]) && Matches(s[k..], tokens[1..])
  {
    if pieces :| Splits(s, pieces, tokens) {
      var k := |pieces[0]|;
      assert s[..k] == pieces[0] && s[k..] == Flatten(pieces[1..]);
      assert Splits(s[k..], pieces[1..], tokens[1..]) by {
        assert forall i | 0 <= i < |tokens| - 1 :: tokens[1..][i] == tokens[i + 1] && pieces[1..][i] == pieces[i + 1];
      }
    }
    if k :| 0 <= k <= |s| && TokenMatches(tokens[0], s[..k]) && Matches(s[k..], tokens[1..]) {
      var rest :| Splits(s[k..], rest, tokens[1..]);
      SplitsCons(s, s[..k], rest, tokens);
    }
  }

  /** A token other than the star takes exactly one character. */
  lemma MatchesOne(s: String, tokens: seq<Token>)
    requires tokens != [] && !tokens[0].AnyRun?
    ensures Matches(s, tokens)
       <==> s != [] && TokenMatches(tokens[0], [s[0]]) && Matches(s[1..], tokens[1..])
  {
    hide Matches;
    MatchesSplit(s, tokens);
    if s != [] {
      assert s[..1] == [s[0]];
    }
    assert forall k | 0 <= k <= |s| && TokenMatches(tokens[0], s[..k]) :: |s[..k]| == 1;
  }

  /** The star takes nothing, or one character and then possibly more. */
  lemma MatchesRun(s: String, tokens: seq<Token>)
    requires tokens != [] && tokens[0].AnyRun?
    ensures Matches(s, tokens) <==> exists k | 0 <= k <= |s| :: Matches(s[k..], tokens[1..])
  {
    hide Matches;
    MatchesSplit(s, tokens);
  }

  // ---- Reading a pattern ----

  /** The first closing bracket from j on, or the end of the pattern. */
  function Close(p: String, j: nat): (k: nat)
    requires j <= |p|
    ensures j <= k <= |p|
    ensures forall i | j <= i < k :: p[i] != CLOSE_BRACKET
    ensures k < |p| ==> p[k] == CLOSE_BRACKET
    decreases |p| - j
  {
    if j == |p| || p[j] == CLOSE_BRACKET then j else Close(p, j + 1)
  }

  /** Every set that the pattern opens from i on is closed. */
  predicate Closed(p: String, i: nat)
    requires i <= |p|
    decreases |p| - i
  {
    if i == |p| then true
    else if p[i] == OPEN_BRACKET then Close(p, i + 1) < |p| && Closed(p, Close(p, i + 1) + 1)
    else Closed(p, i + 1)
  }

  function Tokens(p: String, i: nat): seq<Token>
    requires i <= |p| && Closed(p, i)
    decreases |p| - i
  {
    if i == |p| then []
    else if p[i] == STAR then [AnyRun] + Tokens(p, i + 1)
    else if p[i] == QUESTION then [AnyOne] + Tokens(p, i + 1)
    else if p[i] == OPEN_BRACKET then [OneOf(p[i + 1..Close(p, i + 1)])] + Tokens(p, Close(p, i + 1) + 1)
    else [Literal(p[i])] + Tokens(p, i + 1)
  }

  // ---- The matcher ----

  /** Decides whether c is in the set whose body starts at start; if so, next is behind its closing bracket. */
  method MatchSet(c: CHAR16, p: String, start: nat) returns (found: bool, next: nat)
    requires c != NUL && start <= |p| && Close(p, start) < |p|
    ensures found <==> InSet(p[start..Close(p, start)], c)
    ensures found ==> next == Close(p, start) + 1
  {
    ghost var close := Close(p, start);
    ghost var w: String := p[start..close];
    var pattern := start;
    var l: CHAR16 := 0;
    var ch;
    while true
      invariant start <= pattern <= close
      invariant forall i | 0 <= i < pattern - start :: !Member(w, i, c)
      invariant pattern == start ==> l == 0
      invariant pattern > start && p[pattern - 1] != DASH ==> l == p[pattern - 1]
      invariant pattern > start && p[pattern - 1] == DASH ==> pattern < close && l == p[pattern]
      decreases close - pattern
    {
      ch := At(p, pattern);
      pattern := pattern + 1;
      if ch == CLOSE_BRACKET {
        return false, pattern;
      }
      ghost var i := pattern - 1 - start;
      assert w[i] == p[start + i] && (i > 0 ==> w[i - 1] == p[start + i - 1]);
      if ch == DASH {
        ch := At(p, pattern);
        if ch == NUL || ch == CLOSE_BRACKET {
          return false, pattern;
        }
        assert w[i + 1] == p[start + i + 1];
        if c >= l && c <= ch {
          assert Member(w, i, c);
          break;
        }
      }
      l := ch;
      if c == ch {
        assert Member(w, i, c);
        break;
      }
    }
    while ch != NUL && ch != CLOSE_BRACKET
      invariant ch == CLOSE_BRACKET ==> pattern == close + 1
      invariant ch != CLOSE_BRACKET ==> start <= pattern <= close && ch != NUL
      decreases ch != CLOSE_BRACKET, |p| - pattern
    {
      ch := At(p, pattern);
      pattern := pattern + 1;
    }
    return true, pattern;
  }

  /** The pattern from i on is one token followed by the pattern from next on. */
  predicate Step(p: String, i: nat, token: Token, next: nat)
    requires i <= |p| && Closed(p, i)
  {
    i < next <= |p| && Closed(p, next) && Tokens(p, i) == [token] + Tokens(p, next)
  }

  lemma Steps(p: String, i: nat)
    requires i < |p| && Closed(p, i)
    ensures p[i] == STAR ==> Step(p, i, AnyRun, i + 1)
    ensures p[i] == QUESTION ==> Step(p, i, AnyOne, i + 1)
    ensures p[i] == OPEN_BRACKET ==>
      Close(p, i + 1) < |p| && Step(p, i, OneOf(p[i + 1..Close(p, i + 1)]), Close(p, i + 1) + 1)
    ensures p[i] !in {STAR, QUESTION, OPEN_BRACKET} ==> Step(p, i, Literal(p[i]), i + 1)
  {
  }

  lemma StepOne(s: String, str: nat, p: String, i: nat, token: Token, next: nat)
    requires str <= |s| && i <= |p| && Closed(p, i) && Step(p, i, token, next) && !token.AnyRun?
    ensures Matches(s[str..], Tokens(p, i))
       <==> str < |s| && TokenMatches(token, [s[str]]) && Matches(s[str + 1..], Tokens(p, next))
  {
    hide Matches, TokenMatches, Tokens, Closed;
    var tokens := Tokens(p, i);
    assert tokens[0] == token && tokens[1..] == Tokens(p, next);
    MatchesOne(s[str..], tokens);
    if str < |s| {
      assert s[str..][0] == s[str] && s[str..][1..] == s[str + 1..];
    }
  }

  lemma StepRun(s: String, str: nat, p: String, i: nat, next: nat)
    requires str <= |s| && i <= |p| && Closed(p, i) && Step(p, i, AnyRun, next)
    ensures Matches(s[str..], Tokens(p, i))
       <==> exists k | str <= k <= |s| :: Matches(s[k..], Tokens(p, next))
  {
    hide Matches, Tokens, Closed;
    var tokens := Tokens(p, i);
    assert tokens[0] == AnyRun && tokens[1..] == Tokens(p, next);
    MatchesRun(s[str..], tokens);
    RunShift(s, str, Tokens(p, next));
  }

  lemma PatternEnd(s: String, str: nat, p: String)
    requires str <= |s|
    ensures Closed(p, |p|)
    ensures Matches(s[str..], Tokens(p, |p|)) <==> str == |s|
  {
    EmptyMatches(s[str..]);
  }

  method MetaMatch(s: String, p: String, si: nat, pi: nat) returns (r: bool)
    requires si <= |s| && pi <= |p| && Closed(p, pi)
    ensures r <==> Matches(s[si..], Tokens(p, pi))
    decreases |p| - pi, 0
  {
    hide Matches, TokenMatches, InSet, Tokens, Closed;
    var str: nat, pattern: nat := si, pi;
    ghost var goal := Matches(s[si..], Tokens(p, pi));
    while true
      invariant str <= |s| && pi <= pattern <= |p| && Closed(p, pattern)
      invariant goal <==> Matches(s[str..], Tokens(p, pattern))
      decreases |p| - pattern
    {
      var c := At(p, pattern);
      if c == NUL {
        PatternEnd(s, str, p);
        return At(s, str) == NUL;
      }
      Steps(p, pattern);
      if c == STAR {
        StepRun(s, str, p, pattern, pattern + 1);
        r := MatchRun(s, p, str, pattern + 1);
        return r;
      } else if c == QUESTION {
        StepOne(s, str, p, pattern, AnyOne, pattern + 1);
        if At(s, str) == NUL {
          return false;
        }
        OneToken(s[str]);
        str, pattern := str + 1, pattern + 1;
      } else if c == OPEN_BRACKET {
        ghost var close := Close(p, pattern + 1);
        StepOne(s, str, p, pattern, OneOf(p[pattern + 1..close]), close + 1);
        if At(s, str) == NUL {
          return false;
        }
        SetToken(p[pattern + 1..close], s[str]);
        var found, next := MatchSet(s[str], p, pattern + 1);
        if !found {
          return false;
        }
        str, pattern := str + 1, next;
      } else {
        StepOne(s, str, p, pattern, Literal(c), pattern + 1);
        LiteralToken(c, At(s, str));
        if At(s, str) != c {
          return false;
        }
        str, pattern := str + 1, pattern + 1;
      }
    }
  }

  /** The star's loop: tries the rest of the pattern at every position up to the end. */
  method MatchRun(s: String, p: String, si: nat, pi: nat) returns (r: bool)
    requires si <= |s| && pi <= |p| && Closed(p, pi)
    ensures r <==> exists k | si <= k <= |s| :: Matches(s[k..], Tokens(p, pi))
    decreases |p| - pi, 1
  {
    hide Matches;
    var str := si;
    while At(s, str) != NUL
      invariant si <= str <= |s|
      invariant forall k | si <= k < str :: !Matches(s[k..], Tokens(p, pi))
      decreases |s| - str
    {
      r := MetaMatch(s, p, str, pi);
      if r {
        return true;
      }
      str := str + 1;
    }
    r := MetaMatch(s, p, str, pi);
  }

  lemma RunShift(s: String, str: nat, tokens: seq<Token>)
    requires str <= |s|
    ensures (exists k | 0 <= k <= |s[str..]| :: Matches(s[str..][k..], tokens))
       <==> (exists k | str <= k <= |s| :: Matches(s[k..], tokens))
  {
    hide Matches;
    if k :| 0 <= k <= |s[str..]| && Matches(s[str..][k..], tokens) {
      assert s[str..][k..] == s[str + k..];
    }
    if k :| str <= k <= |s| && Matches(s[k..], tokens) {
      assert s[str..][k - str..] == s[k..];
    }
  }

  lemma OneToken(c: CHAR16)
    requires c != NUL
    ensures TokenMatches(AnyOne, [c])
  {
  }

  lemma SetToken(w: String, c: CHAR16)
    requires c != NUL
    ensures TokenMatches(OneOf(w), [c]) <==> InSet(w, c)
  {
  }

  lemma LiteralToken(p: CHAR16, c: CHAR16)
    ensures c != NUL ==> (TokenMatches(Literal(p), [c]) <==> c == p)
  {
  }

  // ---- Sets as lists of characters and ranges ----

  datatype SetItem = One(c: CHAR16) | Range(lo: CHAR16, hi: CHAR16)

  predicate Plain(c: CHAR16) {
    c != NUL && c != DASH && c != CLOSE_BRACKET
  }

  predicate ValidItem(item: SetItem) {
    match item
    case One(c) => Plain(c)
    case Range(lo, hi) => Plain(lo) && Plain(hi)
  }

  function ItemBody(item: SetItem): (s: String)
    requires ValidItem(item)
    ensures s != [] && s[0] != DASH && s[|s| - 1] != DASH
  {
    match item
    case One(c) => [c]
    case Range(lo, hi) => [lo, DASH, hi]
  }

  /** A character, or every character between a range's ends, and the ends themselves in whatever order they stand. */
  predicate InItem(item: SetItem, c: CHAR16) {
    match item
    case One(d) => c == d
    case Range(lo, hi) => lo <= c <= hi || c == lo || c == hi
  }

  predicate ValidItems(items: seq<SetItem>) {
    forall i | 0 <= i < |items| :: ValidItem(items[i])
  }

  /** The body of the set that lists these items. */
  function SetBody(items: seq<SetItem>): (s: String)
    requires ValidItems(items)
    ensures s != [] ==> s[0] != DASH
  {
    if items == [] then [] else ItemBody(items[0]) + SetBody(items[1..])
  }

  lemma InItemBody(item: SetItem, c: CHAR16)
    requires ValidItem(item)
    ensures InSet(ItemBody(item), c) <==> InItem(item, c)
  {
    match item
    case One(d) =>
      var w: String := [d];
      assert Member(w, 0, c) <==> c == d;
    case Range(lo, hi) =>
      var w: String := [lo, DASH, hi];
      assert Member(w, 0, c) <==> c == lo;
      assert Member(w, 1, c) <==> lo <= c <= hi || c == hi;
      assert Member(w, 2, c) <==> c == hi;
  }

  lemma InSetConcat(a: String, b: String, c: CHAR16)
    requires a != [] && a[|a| - 1] != DASH && (b == [] || b[0] != DASH)
    ensures InSet(a + b, c) <==> InSet(a, c) || InSet(b, c)
  {
    var w: String := a + b;
    forall i | 0 <= i < |w|
      ensures Member(w, i, c) <==> if i < |a| then Member(a, i, c) else Member(b, i - |a|, c)
    {
      if i >= |a| {
        assert w[i] == b[i - |a|] && (i > |a| ==> w[i - 1] == b[i - |a| - 1]);
        assert i + 1 < |w| ==> w[i + 1] == b[i + 1 - |a|];
      } else {
        assert w[i] == a[i] && (i > 0 ==> w[i - 1] == a[i - 1]) && (i + 1 < |a| ==> w[i + 1] == a[i + 1]);
      }
    }
    if i :| 0 <= i < |b| && Member(b, i, c) {
      assert Member(w, |a| + i, c);
    }
    if i :| 0 <= i < |a| && Member(a, i, c) {
      assert Member(w, i, c);
    }
  }

  /** What the matcher takes for a set is what the set lists. */
  lemma {:induction false} SetMembers(items: seq<SetItem>, c: CHAR16)
    requires ValidItems(items)
    ensures InSet(SetBody(items), c) <==> exists i | 0 <= i < |items| :: InItem(items[i], c)
  {
    hide InSet, InItem;
    if items == [] {
      NoMember(c);
    } else {
      var rest := items[1..];
      SetMembers(rest, c);
      InItemBody(items[0], c);
      InSetConcat(ItemBody(items[0]), SetBody(rest), c);
      assert forall i | 0 < i < |items| :: items[i] == rest[i - 1];
      if i :| 0 <= i < |rest| && InItem(rest[i], c) {
        assert InItem(items[i + 1], c);
      }
    }
  }

  lemma NoMember(c: CHAR16)
    ensures !InSet([], c)
  {
  }

  // ---- What patterns mean ----

  /** Characters that stand for themselves. */
  predicate NothingSpecial(p: String) {
    forall i | 0 <= i < |p| :: p[i] !in {STAR, QUESTION, OPEN_BRACKET}
  }

  function Literals(p: String): seq<Token> {
    seq(|p|, i requires 0 <= i < |p| => Literal(p[i]))
  }

  /** A run of such characters is read as literals, and reading goes on behind it. */
  lemma {:induction false} PlainTokens(p: String, i: nat, n: nat)
    requires i + n <= |p| && NothingSpecial(p[i..i + n]) && Closed(p, i + n)
    ensures Closed(p, i) && Tokens(p, i) == Literals(p[i..i + n]) + Tokens(p, i + n)
    decreases n
  {
    hide Tokens, Closed;
    var run := p[i..i + n];
    if n > 0 {
      assert run[0] == p[i] && run[1..] == p[i + 1..i + n];
      PlainTokens(p, i + 1, n - 1);
      LiteralRead(p, i);
      assert Literals(run) == [Literal(p[i])] + Literals(run[1..]);
    } else {
      assert run == [] && Literals([]) == [];
    }
  }

  lemma LiteralRead(p: String, i: nat)
    requires i < |p| && p[i] !in {STAR, QUESTION, OPEN_BRACKET} && Closed(p, i + 1)
    ensures Closed(p, i) && Tokens(p, i) == [Literal(p[i])] + Tokens(p, i + 1)
  {
  }

  lemma StarRead(p: String, i: nat)
    requires i < |p| && p[i] == STAR && Closed(p, i + 1)
    ensures Closed(p, i) && Tokens(p, i) == [AnyRun] + Tokens(p, i + 1)
  {
  }

  lemma {:induction false} LiteralsMatch(s: String, p: String, behind: seq<Token>)
    ensures Matches(s, Literals(p) + behind) <==> p <= s && Matches(s[|p|..], behind)
    decreases |p|
  {
    hide Matches;
    var ts := Literals(p) + behind;
    if p == [] {
      assert ts == behind && s[0..] == s;
    } else {
      assert ts[0] == Literal(p[0]) && ts[1..] == Literals(p[1..]) + behind;
      MatchesOne(s, ts);
      if s != [] {
        LiteralsMatch(s[1..], p[1..], behind);
        assert p == [p[0]] + p[1..] && s == [s[0]] + s[1..];
        assert p <= s <==> p[0] == s[0] && p[1..] <= s[1..];
        assert p <= s ==> s[1..][|p| - 1..] == s[|p|..];
      }
    }
  }

  lemma NoTokens(p: String)
    ensures Closed(p, |p|) && Tokens(p, |p|) == []
  {
  }

  /** A pattern without special characters matches itself only. */
  lemma PlainPattern(s: String, p: String)
    requires NothingSpecial(p)
    ensures Closed(p, 0) && (Matches(s, Tokens(p, 0)) <==> s == p)
  {
    hide Matches, Tokens, Closed, NothingSpecial;
    NoTokens(p);
    assert p[0..|p|] == p;
    PlainTokens(p, 0, |p|);
    LiteralsMatch(s, p, []);
    if p <= s {
      EmptyMatches(s[|p|..]);
      assert s[..|p|] == p && s == s[..|p|] + s[|p|..];
    }
  }

  /** A star between such texts matches whatever begins with the one and ends with the other. */
  lemma StarPattern(s: String, front: String, back: String)
    requires NothingSpecial(front) && NothingSpecial(back)
    ensures var p := front + [STAR] + back;
      && Closed(p, 0)
      && (Matches(s, Tokens(p, 0))
          <==> |front| + |back| <= |s| && s[..|front|] == front && s[|s| - |back|..] == back)
  {
    hide Matches, Tokens, Closed, Literals, NothingSpecial;
    var p: String, n := front + [STAR] + back, |front|;
    StarTokens(p, front, back);
    LiteralsMatch(s, front, [AnyRun] + Literals(back));
    if front <= s {
      RunThen(s[n..], [AnyRun] + Literals(back), back);
      assert s[..n] == front;
      assert |back| <= |s| - n ==> s[n..][|s| - n - |back|..] == s[|s| - |back|..];
    }
  }

  lemma StarTokens(p: String, front: String, back: String)
    requires p == front + [STAR] + back && NothingSpecial(front) && NothingSpecial(back)
    ensures Closed(p, 0) && Tokens(p, 0) == Literals(front) + ([AnyRun] + Literals(back))
  {
    hide Tokens, Closed, Literals, NothingSpecial;
    var n := |front|;
    NoTokens(p);
    assert p[n + 1..n + 1 + |back|] == back && p[0..n] == front && p[n] == STAR;
    PlainTokens(p, n + 1, |back|);
    StarRead(p, n);
    PlainTokens(p, 0, n);
    assert Literals(back) + [] == Literals(back);
  }

  lemma RunThen(s: String, tokens: seq<Token>, back: String)
    requires tokens != [] && tokens[0].AnyRun? && tokens[1..] == Literals(back)
    ensures Matches(s, tokens) <==> |back| <= |s| && s[|s| - |back|..] == back
  {
    hide Matches;
    MatchesRun(s, tokens);
    forall k | 0 <= k <= |s|
      ensures Matches(s[k..], tokens[1..]) <==> s[k..] == back
    {
      LiteralsMatch(s[k..], back, []);
      assert Literals(back) + [] == Literals(back);
      if back <= s[k..] {
        EmptyMatches(s[k..][|back|..]);
        assert s[k..] == s[k..][..|back|] + s[k..][|back|..];
      }
    }
    if |back| <= |s| && s[|s| - |back|..] == back {
      assert Matches(s[|s| - |back|..], tokens[1..]);
    }
  }

  /** Question marks match as many characters as there are. */
  lemma {:induction false} QuestionPattern(s: String, p: String, i: nat)
    requires i <= |p| && forall k | i <= k < |p| :: p[k] == QUESTION
    ensures Closed(p, i) && (Matches(s, Tokens(p, i)) <==> |s| == |p| - i)
    decreases |p| - i
  {
    hide Matches;
    if i == |p| {
      EmptyMatches(s);
    } else {
      QuestionPattern(if s == [] then [] else s[1..], p, i + 1);
      assert Tokens(p, i) == [AnyOne] + Tokens(p, i + 1);
      assert Tokens(p, i)[1..] == Tokens(p, i + 1);
      MatchesOne(s, Tokens(p, i));
    }
  }

  /** A set matches one character, which must be one of those it lists. */
  lemma SetPattern(s: String, items: seq<SetItem>)
    requires ValidItems(items)
    ensures var p := [OPEN_BRACKET] + SetBody(items) + [CLOSE_BRACKET];
      && Closed(p, 0)
      && (Matches(s, Tokens(p, 0))
          <==> |s| == 1 && exists i | 0 <= i < |items| :: InItem(items[i], s[0]))
  {
    hide Matches, Tokens, InSet, InItem, SetBody, ValidItems;
    NoBracket(items);
    var w := SetBody(items);
    var p: String := [OPEN_BRACKET] + w + [CLOSE_BRACKET];
    SetRead(p, w);
    var ts := Tokens(p, 0);
    assert ts[1..] == [];
    MatchesOne(s, ts);
    if s != [] {
      EmptyMatches(s[1..]);
      SetMembers(items, s[0]);
      assert [s[0]][0] == s[0];
    }
  }

  lemma {:induction false} NoBracket(items: seq<SetItem>)
    requires ValidItems(items)
    ensures forall i | 0 <= i < |SetBody(items)| :: SetBody(items)[i] != CLOSE_BRACKET
  {
    if items != [] {
      NoBracket(items[1..]);
    }
  }

  lemma SetRead(p: String, w: String)
    requires p == [OPEN_BRACKET] + w + [CLOSE_BRACKET] && forall i | 0 <= i < |w| :: w[i] != CLOSE_BRACKET
    ensures Closed(p, 0) && Tokens(p, 0) == [OneOf(w)]
  {
    var k := Close(p, 1);
    assert p[|p| - 1] == CLOSE_BRACKET && forall i | 1 <= i < |p| - 1 :: p[i] == w[i - 1];
    assert k == |p| - 1;
    assert p[1..k] == w;
    NoTokens(p);
  }
}
