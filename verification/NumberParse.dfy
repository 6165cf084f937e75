/** The parsers xtoi and Atoi, and the round trips between them and the printers. */
module NumberParse {
  import opened Bytes
  import opened Text
  import opened NumberText

  predicate IsHex(c: CHAR16) {
    DIGIT_0 <= c <= DIGIT_9 || UPPER_A <= c <= UPPER_F || LOWER_A <= c <= LOWER_F
  }

  predicate IsDecimal(c: CHAR16) {
    DIGIT_0 <= c <= DIGIT_9
  }

  function HexDigitValue(c: CHAR16): nat
    requires IsHex(c)
  {
    if c <= DIGIT_9 then (c - DIGIT_0) as nat
    else if c <= UPPER_F then (c - UPPER_A) as nat + 10
    else (c - LOWER_A) as nat + 10
  }

  // ---- What the parsers compute: leading spaces, then the longest run of digits, modulo 2^64 ----

  function SkipSpaces(s: String): String {
    if s != [] && s[0] == SPACE then SkipSpaces(s[1..]) else s
  }

  function HexRun(s: String): (d: seq<nat>)
    ensures |d| <= |s| && forall i | 0 <= i < |d| :: IsHex(s[i]) && d[i] == HexDigitValue(s[i])
    ensures |d| < |s| ==> !IsHex(s[|d|])
  {
    if s == [] || !IsHex(s[0]) then [] else [HexDigitValue(s[0])] + HexRun(s[1..])
  }

  function DecimalRun(s: String): (d: seq<nat>)
    ensures |d| <= |s| && forall i | 0 <= i < |d| :: IsDecimal(s[i]) && d[i] == (s[i] - DIGIT_0) as nat
    ensures |d| < |s| ==> !IsDecimal(s[|d|])
  {
    if s == [] || !IsDecimal(s[0]) then [] else [(s[0] - DIGIT_0) as nat] + DecimalRun(s[1..])
  }

  function XtoiValue(s: String): nat {
    Value(HexRun(SkipSpaces(s)), 16) % TWO64
  }

  function AtoiValue(s: String): nat {
    Value(DecimalRun(SkipSpaces(s)), 10) % TWO64
  }

  lemma HornerStep(d: seq<nat>, n: nat, base: nat)
    requires n < |d|
    ensures Value(d[..n + 1], base) % TWO64 == (Value(d[..n], base) % TWO64 * base + d[n]) % TWO64
  {
    assert d[..n + 1][..n] == d[..n];
    var v := Value(d[..n], base);
    var k := v / TWO64;
    assert v * base + d[n] == (v % TWO64 * base + d[n]) + (k * base) * TWO64 by {
      assert v == k * TWO64 + v % TWO64;
      assert v * base == (k * TWO64) * base + v % TWO64 * base;
      assert (k * TWO64) * base == (k * base) * TWO64;
    }
    ModShift(v % TWO64 * base + d[n], k * base);
  }

  lemma ModShift(x: nat, k: nat)
    ensures (x + k * TWO64) % TWO64 == x % TWO64
  {
  }

  method SkipLeadingSpaces(str: String) returns (at: nat)
    ensures at <= |str| && str[at..] == SkipSpaces(str)
  {
    at := 0;
    assert str[0..] == str;
    while At(str, at) != NUL && At(str, at) == SPACE
      invariant at <= |str| && SkipSpaces(str[at..]) == SkipSpaces(str)
      decreases |str| - at
    {
      assert str[at..][1..] == str[at + 1..];
      at := at + 1;
    }
  }

  /** A run of digits ends where the string does or at the first other character. */
  lemma RunGoesOn(str: String, start: nat, run: seq<nat>, at: nat)
    requires start <= at <= start + |run| <= |str|
    requires run == HexRun(str[start..])
    ensures at < |str| && IsHex(str[at]) ==> at < start + |run| && run[at - start] == HexDigitValue(str[at])
    ensures at == |str| || !IsHex(str[at]) ==> at == start + |run|
  {
    var s: String := str[start..];
    if at < |str| {
      assert s[at - start] == str[at];
    }
  }

  function UpperCase(c: CHAR16): CHAR16 {
    if c >= LOWER_A && c <= LOWER_F then c - (LOWER_A - UPPER_A) else c
  }

  lemma UpperCaseDigit(c: CHAR16)
    ensures var u := UpperCase(c);
      && (IsHex(c) <==> (u >= DIGIT_0 && u <= DIGIT_9) || (u >= UPPER_A && u <= UPPER_F))
      && (IsHex(c) ==> HexDigitValue(c) == UpperDigit(u) < 16)
  {
  }

  function UpperDigit(u: CHAR16): nat
    requires DIGIT_0 <= u
  {
    (u - (if u >= UPPER_A then UPPER_A - 10 else DIGIT_0)) as nat
  }

  /** u = (u << 4) | d on 64-bit words. */
  method ShiftInDigit(ghost run: seq<nat>, ghost n: nat, u: nat, d: nat) returns (w: nat)
    requires n < |run| && u == Value(run[..n], 16) % TWO64 && run[n] == d < 16
    ensures w == Value(run[..n + 1], 16) % TWO64
  {
    hide Value;
    HornerStep(run, n, 16);
    ShiftOr(u, d);
    w := u * 16 % TWO64 + d;
  }

  /** u = u * 10 + d on 64-bit words. */
  method AppendDigit(ghost run: seq<nat>, ghost n: nat, u: nat, d: nat) returns (w: nat)
    requires n < |run| && u == Value(run[..n], 10) % TWO64 && run[n] == d
    ensures w == Value(run[..n + 1], 10) % TWO64
  {
    hide Value;
    HornerStep(run, n, 10);
    w := (u * 10 + d) % TWO64;
  }

  method Xtoi(str: String) returns (u: nat)
    ensures u == XtoiValue(str)
  {
    var at := SkipLeadingSpaces(str);
    u := XtoiFrom(str, at);
  }

  method XtoiFrom(str: String, start: nat) returns (u: nat)
    requires start <= |str|
    ensures u == Value(HexRun(str[start..]), 16) % TWO64
  {
    ghost var run := HexRun(str[start..]);
    hide SkipSpaces, HexRun, Value, IsHex, HexDigitValue, UpperCase, UpperDigit;
    NoDigits(run, 16);
    u := 0;
    var at := start;
    while true
      invariant start <= at <= start + |run| <= |str|
      invariant u == Value(run[..at - start], 16) % TWO64
      decreases |str| - at
    {
      RunGoesOn(str, start, run, at);
      var c := At(str, at);
      if c == NUL {
        break;
      }
      UpperCaseDigit(c);
      c := UpperCase(c);
      if !((c >= DIGIT_0 && c <= DIGIT_9) || (c >= UPPER_A && c <= UPPER_F)) {
        break;
      }
      u := ShiftInDigit(run, at - start, u, UpperDigit(c));
      at := at + 1;
    }
    assert run[..at - start] == run;
  }

  lemma NoDigits(run: seq<nat>, base: nat)
    ensures Value(run[..0], base) % TWO64 == 0
  {
  }

  /** Shifted left by four, the low four bits are free: the OR is a sum and stays in 64 bits. */
  lemma ShiftOr(u: nat, d: nat)
    requires d < 16
    ensures u * 16 % TWO64 + d == (u * 16 + d) % TWO64
  {
  }

  method Atoi(str: String) returns (u: nat)
    ensures u == AtoiValue(str)
  {
    var at := SkipLeadingSpaces(str);
    u := AtoiFrom(str, at);
  }

  method AtoiFrom(str: String, start: nat) returns (u: nat)
    requires start <= |str|
    ensures u == Value(DecimalRun(str[start..]), 10) % TWO64
  {
    u := SumDigits(str, start, DecimalRun(str[start..]));
  }

  ghost predicate RunFrom(str: String, start: nat, run: seq<nat>) {
    start + |run| <= |str| && run == DecimalRun(str[start..])
  }

  method SumDigits(str: String, start: nat, ghost run: seq<nat>) returns (u: nat)
    requires RunFrom(str, start, run)
    ensures u == Value(run, 10) % TWO64
  {
    assert start + |run| <= |str|;
    hide RunFrom, Value;
    NoDigits(run, 10);
    u := 0;
    var at := start;
    while true
      invariant start <= at <= start + |run|
      invariant u == Value(run[..at - start], 10) % TWO64
      decreases |str| - at
    {
      DecimalRunGoesOn(str, start, run, at);
      var c := At(str, at);
      if c == NUL {
        break;
      }
      if !(c >= DIGIT_0 && c <= DIGIT_9) {
        break;
      }
      u := AppendDigit(run, at - start, u, (c - DIGIT_0) as nat);
      at := at + 1;
    }
    assert run[..at - start] == run;
  }

  lemma DecimalRunGoesOn(str: String, start: nat, run: seq<nat>, at: nat)
    requires start <= at <= start + |run| <= |str|
    requires RunFrom(str, start, run)
    ensures at < |str| && DIGIT_0 <= str[at] <= DIGIT_9 ==>
      at < start + |run| && run[at - start] == (str[at] - DIGIT_0) as nat
    ensures at == |str| || !(DIGIT_0 <= str[at] <= DIGIT_9) ==> at == start + |run|
  {
    var s: String := str[start..];
    if at < |str| {
      assert s[at - start] == str[at];
    }
  }

  // ---- Round trips ----

  predicate Spaces(s: String) {
    forall i | 0 <= i < |s| :: s[i] == SPACE
  }

  lemma {:induction false} SkipThem(pre: String, s: String)
    requires Spaces(pre) && (s == [] || s[0] != SPACE)
    ensures SkipSpaces(pre + s) == s
  {
    if pre == [] {
      assert pre + s == s;
    } else {
      assert (pre + s)[1..] == pre[1..] + s;
      SkipThem(pre[1..], s);
    }
  }

  lemma HexCharRead(d: nat)
    requires d < 16
    ensures IsHex(HexChar(d)) && HexDigitValue(HexChar(d)) == d && HexChar(d) != SPACE
  {
  }

  lemma {:induction false} HexRunOfDigits(d: seq<nat>, post: String)
    requires forall i | 0 <= i < |d| :: d[i] < 16
    requires post == [] || !IsHex(post[0])
    ensures HexRun(HexChars(d) + post) == d
  {
    var s := HexChars(d) + post;
    if d == [] {
      assert s == post;
    } else {
      HexCharRead(d[0]);
      assert HexChars(d)[1..] == HexChars(d[1..]);
      assert s[1..] == HexChars(d[1..]) + post;
      HexRunOfDigits(d[1..], post);
    }
  }

  lemma {:induction false} DecimalRunOfDigits(d: seq<nat>, post: String)
    requires forall i | 0 <= i < |d| :: d[i] < 10
    requires post == [] || !IsDecimal(post[0])
    ensures DecimalRun(DecChars(d) + post) == d
  {
    var s := DecChars(d) + post;
    if d == [] {
      assert s == post;
    } else {
      assert DecChars(d)[1..] == DecChars(d[1..]);
      assert s[1..] == DecChars(d[1..]) + post;
      DecimalRunOfDigits(d[1..], post);
    }
  }

  /** The hexadecimal text of any number reads back as that number modulo 2^64, behind spaces and before anything
      else. */
  lemma HexRoundTrip(v: nat, pre: String, post: String)
    requires Spaces(pre) && (post == [] || !IsHex(post[0]))
    ensures XtoiValue(pre + (HexText(v) + post)) == v % 0x1_0000_0000_0000_0000
  {
    hide Digits, HexChars, Value, SkipSpaces, HexRun, IsHex;
    HexTextRuns(v, post);
    HexTextFirst(v, post);
    SkipThem(pre, HexText(v) + post);
  }

  lemma HexTextFirst(v: nat, post: String)
    ensures HexText(v) != [] && (HexText(v) + post)[0] != SPACE
  {
    if v != 0 {
      HexCharRead(Digits(v, 16)[0]);
    }
  }

  lemma HexTextRuns(v: nat, post: String)
    requires post == [] || !IsHex(post[0])
    ensures Value(HexRun(HexText(v) + post), 16) == v
  {
    if v == 0 {
      assert HexText(v) == HexChars([0]);
      HexRunOfDigits([0], post);
      assert [0][..0] == [];
    } else {
      HexRunOfDigits(Digits(v, 16), post);
      ValueOfDigits(v, 16);
    }
  }

  lemma PlainReadsBack(v: nat, post: String)
    requires 0 < v && (post == [] || !IsDecimal(post[0]))
    ensures AtoiValue(PlainText(v) + post) == v % 0x1_0000_0000_0000_0000
  {
    hide Digits, DecChars, Value, AtoiValue, IsDecimal;
    PlainFirst(v, post);
    ValueOfDigits(v, 10);
    DigitsReadBack(Digits(v, 10), post);
  }

  lemma DigitsReadBack(d: seq<nat>, post: String)
    requires forall i | 0 <= i < |d| :: d[i] < 10
    requires d != [] && (DecChars(d) + post)[0] != SPACE
    requires post == [] || !IsDecimal(post[0])
    ensures AtoiValue(DecChars(d) + post) == Value(d, 10) % TWO64
  {
    hide DecChars, Value, DecimalRun, IsDecimal, SkipSpaces;
    var s: String := DecChars(d) + post;
    SkipNothing(s);
    DecimalRunOfDigits(d, post);
  }

  lemma PlainFirst(v: nat, post: String)
    requires v > 0
    ensures PlainText(v) != [] && (PlainText(v) + post)[0] != SPACE
  {
    var d := Digits(v, 10);
    assert PlainText(v)[0] == DecChar(d[0]);
  }

  // ---- Commas ----

  function WithoutCommas(s: String): String {
    if s == [] then [] else (if s[0] == COMMA then [] else [s[0]]) + WithoutCommas(s[1..])
  }

  predicate NoCommas(s: String) {
    forall i | 0 <= i < |s| :: s[i] != COMMA
  }

  lemma WithoutCommasCons(c: CHAR16, s: String)
    requires c != NUL
    ensures WithoutCommas([c] + s) == (if c == COMMA then [] else [c]) + WithoutCommas(s)
  {
    assert ([c] + s)[1..] == s;
  }

  /** Taking the commas out again leaves the digits. */
  lemma {:induction false} GroupedDigits(s: String, first: bool)
    requires NoCommas(s)
    ensures WithoutCommas(Grouped(s, first)) == s
  {
    if s != [] {
      GroupedDigits(s[1..], false);
      var rest := Grouped(s[1..], false);
      WithoutCommasCons(s[0], rest);
      if !first && |s| % 3 == 0 {
        WithoutCommasCons(COMMA, [s[0]] + rest);
        assert Grouped(s, first) == [COMMA] + ([s[0]] + rest);
      } else {
        assert Grouped(s, first) == [s[0]] + rest;
      }
      assert [s[0]] + s[1..] == s;
    }
  }

  /** The text in front of the separator before digit k. */
  function Before(s: String, first: bool, k: nat): String
    requires k < |s|
  {
    if k == 0 then []
    else (if !first && |s| % 3 == 0 then [COMMA] else []) + [s[0]] + Before(s[1..], false, k - 1)
  }

  /** In front of digit k stands a comma exactly if a positive multiple of three digits is left from there on,
      and something stands before it. */
  lemma {:induction false} CommaBeforeDigit(s: String, first: bool, k: nat)
    requires k < |s|
    ensures Grouped(s, first) == Before(s, first, k) + (Separator(s, first, k) + From(s, k))
    decreases k
  {
    hide Grouped, Before;
    var lead := Separator(s, first, 0);
    GroupedStep(s, first);
    if k == 0 {
      NothingBefore(s, first);
      Associate([], lead, [s[0]], Grouped(s[1..], false));
      assert [] + lead + ([s[0]] + Grouped(s[1..], false)) == [] + (lead + ([s[0]] + Grouped(s[1..], false)));
    } else {
      CommaBeforeDigit(s[1..], false, k - 1);
      assert s[1..][k - 1 + 1..] == s[k + 1..];
      BeforeStep(s, first, k);
      Associate(lead, [s[0]], Before(s[1..], false, k - 1), Separator(s, first, k) + From(s, k));
    }
  }

  function Separator(s: String, first: bool, k: nat): String
    requires k < |s|
  {
    if (k > 0 || !first) && (|s| - k) % 3 == 0 then [COMMA] else []
  }

  function From(s: String, k: nat): String
    requires k < |s|
  {
    [s[k]] + Grouped(s[k + 1..], false)
  }

  lemma BeforeStep(s: String, first: bool, k: nat)
    requires 0 < k < |s|
    ensures Before(s, first, k)
         == (if !first && |s| % 3 == 0 then [COMMA] else []) + [s[0]] + Before(s[1..], false, k - 1)
  {
  }

  lemma GroupedStep(s: String, first: bool)
    requires s != []
    ensures Grouped(s, first) == (if !first && |s| % 3 == 0 then [COMMA] else []) + [s[0]] + Grouped(s[1..], false)
  {
  }

  lemma Associate(a: String, b: String, c: String, d: String)
    ensures a + b + (c + d) == (a + b + c) + d
  {
  }

  /** What stands before digit k are the k digits in front of it. */
  lemma {:induction false} DigitsBefore(s: String, first: bool, k: nat)
    requires NoCommas(s) && k < |s|
    ensures WithoutCommas(Before(s, first, k)) == s[..k]
    decreases k
  {
    if k > 0 {
      DigitsBefore(s[1..], false, k - 1);
      hide Before, WithoutCommas;
      BeforeStep(s, first, k);
      WithoutCommasLead(if !first && |s| % 3 == 0 then [COMMA] else [], s[0], Before(s[1..], false, k - 1));
      FirstOfPrefix(s, k);
    }
  }

  lemma FirstOfPrefix(s: String, k: nat)
    requires 0 < k <= |s|
    ensures [s[0]] + s[1..][..k - 1] == s[..k]
  {
  }

  predicate EndsInDigit(s: String) {
    s != [] && s[|s| - 1] != COMMA
  }

  /** ... and it does not end in a comma. */
  lemma {:induction false} NoCommaBefore(s: String, first: bool, k: nat)
    requires NoCommas(s) && 0 < k < |s|
    ensures EndsInDigit(Before(s, first, k))
    decreases k
  {
    var lead: String := if !first && |s| % 3 == 0 then [COMMA] else [];
    if k > 1 {
      NoCommaBefore(s[1..], false, k - 1);
    } else {
      NothingBefore(s[1..], false);
    }
    hide Before;
    BeforeStep(s, first, k);
    EndOfConcat(lead + [s[0]], Before(s[1..], false, k - 1));
  }

  lemma NothingBefore(s: String, first: bool)
    requires s != []
    ensures Before(s, first, 0) == []
  {
  }

  lemma EndOfConcat(a: String, b: String)
    ensures b != [] ==> (EndsInDigit(a + b) <==> EndsInDigit(b))
    ensures b == [] ==> a + b == a
  {
  }

  lemma WithoutCommasLead(lead: String, c: CHAR16, rest: String)
    requires c != NUL && c != COMMA && lead in {[], [COMMA]}
    ensures WithoutCommas(lead + [c] + rest) == [c] + WithoutCommas(rest)
  {
    WithoutCommasCons(c, rest);
    if lead == [] {
      assert lead + [c] + rest == [c] + rest;
    } else {
      WithoutCommasCons(COMMA, [c] + rest);
      assert lead + [c] + rest == [COMMA] + ([c] + rest);
    }
  }

  /** Until the first comma at most three digits stand. */
  lemma {:induction false} GroupedRun(s: String)
    requires |s| > 3 && NoCommas(s)
    ensures exists g, tail: String :: 1 <= g <= 3 && Grouped(s, true) == s[..g] + ([COMMA] + tail)
  {
    var g := if |s| % 3 == 0 then 3 else |s| % 3;
    CommaBeforeDigit(s, true, g);
    FirstGroup(s, g);
    var tail := From(s, g);
    assert Grouped(s, true) == s[..g] + ([COMMA] + tail);
  }

  lemma FirstGroup(s: String, g: nat)
    requires g < |s| && g == if |s| % 3 == 0 then 3 else |s| % 3
    ensures Before(s, true, g) == s[..g]
  {
    assert s[1..][0] == s[1];
    if g == 1 {
      assert Before(s, true, 1) == [s[0]];
    } else if g == 2 {
      assert Before(s[1..], false, 1) == [s[1]];
      assert Before(s, true, 2) == [s[0]] + [s[1]];
    } else {
      assert s[1..][1..][0] == s[2];
      assert Before(s[1..][1..], false, 1) == [s[2]];
      assert Before(s[1..], false, 2) == [s[1]] + [s[2]];
      assert Before(s, true, 3) == [s[0]] + ([s[1]] + [s[2]]);
    }
  }

  lemma SmallValue(d: seq<nat>)
    requires |d| <= 3 && forall i | 0 <= i < |d| :: d[i] < 10
    ensures Value(d, 10) < 1000
  {
    if |d| > 0 {
      var d1 := d[..|d| - 1];
      if |d1| > 0 {
        var d2 := d1[..|d1| - 1];
        assert Value(d2, 10) <= 9 by {
          if |d2| > 0 {
            assert d2[..0] == [];
          }
        }
      }
    }
  }

  lemma {:induction false} ManyDigits(v: nat)
    requires v >= 1000
    ensures |Digits(v, 10)| > 3
  {
    assert |Digits(v / 10, 10)| >= 3 by {
      assert v / 10 / 10 / 10 > 0;
      assert |Digits(v / 10 / 10 / 10, 10)| >= 1;
    }
  }

  lemma {:induction false} FewDigits(v: nat)
    requires 0 < v < 1000
    ensures |Digits(v, 10)| <= 3
  {
    assert Pow(10, 3) == 1000;
    DigitsCount(v, 10, 3);
  }

  lemma {:induction false} UngroupedIfShort(s: String, first: bool)
    requires |s| < 3 || (|s| == 3 && first)
    ensures Grouped(s, first) == s
  {
    if s != [] {
      UngroupedIfShort(s[1..], false);
      assert [s[0]] + s[1..] == s;
    }
  }

  /** The decimal text reads back exactly if the value is not negative and no comma was put into it. */
  lemma DecimalRoundTripIff(v: int, comma: bool)
    requires -TWO63 <= v < TWO63
    ensures AtoiValue(DecimalText(v, comma)) == v <==> v >= 0 && (!comma || v < 1000)
  {
    hide Digits, Value, Grouped, PlainText;
    if v == 0 {
      ZeroReadsBack();
    } else if v > 0 {
      if !comma {
        assert [] + PlainText(v) == PlainText(v) + [];
        PlainReadsBack(v, []);
      } else {
        assert [] + Grouped(PlainText(v), true) == Grouped(PlainText(v), true);
        CommaReadsBackIff(v);
      }
    }
  }

  lemma ZeroReadsBack()
    ensures AtoiValue([DIGIT_0]) == 0
  {
    assert [DIGIT_0][1..] == [];
    assert DecimalRun([DIGIT_0]) == [0];
    assert [0][..0] == [];
  }

  lemma CommaReadsBackIff(v: nat)
    requires 0 < v < TWO63
    ensures AtoiValue(Grouped(PlainText(v), true)) == v <==> v < 1000
  {
    hide Digits, Value, Grouped, DecimalRun, SkipSpaces;
    var s := PlainText(v);
    if v < 1000 {
      FewDigits(v);
      UngroupedIfShort(s, true);
      assert s + [] == s;
      PlainReadsBack(v, []);
    } else {
      ManyDigits(v);
      GroupedRun(s);
      var g, tail: String :| 1 <= g <= 3 && Grouped(s, true) == s[..g] + ([COMMA] + tail);
      var d := Digits(v, 10)[..g];
      assert s[..g] == DecChars(d);
      DecimalRunOfDigits(d, [COMMA] + tail);
      SkipNothing(DecChars(d) + ([COMMA] + tail));
      SmallValue(d);
    }
  }

  lemma SkipNothing(s: String)
    requires s != [] && s[0] != SPACE
    ensures SkipSpaces(s) == s
  {
  }

  /** The decimal text of any positive number reads back as that number modulo 2^64, behind spaces. */
  lemma DecimalReadsModulo(v: nat, pre: String, post: String)
    requires 0 < v && Spaces(pre) && (post == [] || !IsDecimal(post[0]))
    ensures AtoiValue(pre + (PlainText(v) + post)) == v % 0x1_0000_0000_0000_0000
  {
    hide PlainText, SkipSpaces, DecimalRun, Value, IsDecimal;
    PlainReadsBack(v, post);
    PlainFirst(v, post);
    SkipThem(pre, PlainText(v) + post);
    SkipNothing(PlainText(v) + post);
  }

  /** Without its commas the text is the plain one. */
  lemma CommasOnlySeparate(v: int)
    requires v != 0
    ensures WithoutCommas(DecimalText(v, true)) == DecimalText(v, false)
  {
    hide Digits, Grouped;
    var s := PlainText(Magnitude(v));
    GroupedDigits(s, true);
    if v < 0 {
      WithoutCommasCons(DASH, Grouped(s, true));
    } else {
      assert [] + Grouped(s, true) == Grouped(s, true);
      assert [] + s == s;
    }
  }
}
