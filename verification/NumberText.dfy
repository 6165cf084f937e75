/** Numbers as text: the printers for hexadecimal and decimal values and the parsers that read them back. */
module NumberText {
  import opened Bytes
  import opened Text

  const HEX_SCRATCH := 30
  const DECIMAL_SCRATCH := 40

  // ---- Digits ----

  /** The digits of v, most significant first; none for zero. */
  function Digits(v: nat, base: nat): (d: seq<nat>)
    requires base >= 2
    ensures forall i | 0 <= i < |d| :: d[i] < base
    decreases v
  {
    if v == 0 then [] else Digits(v / base, base) + [v % base]
  }

  /** The number that a run of digits stands for. */
  function Value(d: seq<nat>, base: nat): nat
    decreases |d|
  {
    if d == [] then 0 else Value(d[..|d| - 1], base) * base + d[|d| - 1]
  }

  lemma ValueSnoc(d: seq<nat>, x: nat, base: nat)
    ensures Value(d + [x], base) == Value(d, base) * base + x
  {
    assert (d + [x])[..|d|] == d;
  }

  lemma {:induction false} ValueOfDigits(v: nat, base: nat)
    requires base >= 2
    ensures Value(Digits(v, base), base) == v
    decreases v
  {
    hide Value, Digits;
    DigitsStep(v, base);
    if v > 0 {
      DivMod(v, base);
      ValueOfDigits(v / base, base);
      ValueSnoc(Digits(v / base, base), v % base, base);
    } else {
      NoValue(base);
    }
  }

  lemma DigitsStep(v: nat, base: nat)
    requires base >= 2
    ensures Digits(v, base) == if v == 0 then [] else Digits(v / base, base) + [v % base]
  {
  }

  lemma DivMod(v: nat, base: nat)
    requires base >= 2
    ensures v == v / base * base + v % base
    ensures v > 0 ==> v / base < v
  {
  }

  lemma NoValue(base: nat)
    ensures Value([], base) == 0
  {
  }

  function Pow(base: nat, n: nat): nat {
    if n == 0 then 1 else base * Pow(base, n - 1)
  }

  /** A value below base^n still has n digits to give; taking one leaves a value below base^(n - 1). */
  lemma DigitTaken(v: nat, base: nat, n: nat)
    requires base > 0 && 0 < v < Pow(base, n)
    ensures n > 0 && v / base < Pow(base, n - 1)
  {
    QuotientBelow(v, base, Pow(base, n - 1));
  }

  lemma {:induction false} DigitsCount(v: nat, base: nat, n: nat)
    requires base >= 2 && v < Pow(base, n)
    ensures |Digits(v, base)| <= n
    decreases n
  {
    if v > 0 {
      DigitTaken(v, base, n);
      DigitsCount(v / base, base, n - 1);
    }
  }

  lemma QuotientBelow(v: nat, base: nat, bound: nat)
    requires base > 0 && v < base * bound
    ensures v / base < bound
  {
    var q := v / base;
    assert base * q <= v;
    if q >= bound {
      MulMonotone(base, bound, q);
    }
  }

  lemma Pow16()
    ensures Pow(16, 16) == TWO64
  {
    assert Pow(16, 4) == 0x1_0000;
    assert Pow(16, 8) == 0x1_0000_0000;
    assert Pow(16, 12) == 0x1_0000_0000_0000;
  }

  lemma Pow10()
    ensures Pow(10, 20) > TWO64
  {
    assert Pow(10, 5) == 100000;
    assert Pow(10, 10) == 10000000000;
    assert Pow(10, 15) == 1000000000000000;
  }

  function Reversed(s: seq<CHAR16>): (r: seq<CHAR16>)
    ensures |r| == |s|
  {
    if s == [] then [] else Reversed(s[1..]) + [s[0]]
  }

  lemma {:induction false} ReversedSnoc(s: seq<CHAR16>, c: CHAR16)
    ensures Reversed(s + [c]) == [c] + Reversed(s)
  {
    if s == [] {
      assert s + [c] == [c];
    } else {
      assert (s + [c])[1..] == s[1..] + [c];
      ReversedSnoc(s[1..], c);
    }
  }

  lemma {:induction false} ReversedAt(s: seq<CHAR16>, i: nat)
    requires i < |s|
    ensures Reversed(s)[|s| - 1 - i] == s[i]
  {
    if i > 0 {
      ReversedAt(s[1..], i - 1);
    }
  }

  // ---- Hexadecimal ----

  function HexChar(d: nat): CHAR16
    requires d < 16
  {
    if d < 10 then (d + DIGIT_0 as nat) as CHAR16 else (d - 10 + UPPER_A as nat) as CHAR16
  }

  function HexChars(d: seq<nat>): (s: String)
    requires forall i | 0 <= i < |d| :: d[i] < 16
    ensures |s| == |d|
    ensures forall i | 0 <= i < |d| :: s[i] == HexChar(d[i])
  {
    seq(|d|, i requires 0 <= i < |d| => HexChar(d[i]))
  }

  function HexText(v: nat): (s: String) {
    if v == 0 then [DIGIT_0] else HexChars(Digits(v, 16))
  }

  /** A string and its terminator at the front of a buffer. */
  ghost predicate Holds(buffer: array<CHAR16>, s: String)
    reads buffer
  {
    |s| < buffer.Length && buffer[..|s|] == s && buffer[|s|] == NUL
  }

  lemma HexStep(v: nat, done: seq<CHAR16>)
    requires v > 0
    ensures HexChars(Digits(v, 16)) + Reversed(done)
         == HexChars(Digits(v / 16, 16)) + Reversed(done + [HexChar(v % 16)])
  {
    ReversedSnoc(done, HexChar(v % 16));
    assert HexChars(Digits(v, 16)) == HexChars(Digits(v / 16, 16)) + [HexChar(v % 16)];
  }

  /** Fills the scratch array with the digits of v, last digit first. */
  method ScratchHex(v: nat) returns (str: array<CHAR16>, p1: nat)
    requires v < TWO64
    ensures fresh(str) && str.Length == HEX_SCRATCH && p1 <= 16
    ensures Reversed(str[..p1]) == HexChars(Digits(v, 16))
  {
    hide HexChars, HexChar, Digits, Pow, Reversed;
    str := new CHAR16[HEX_SCRATCH];
    p1 := 0;
    var w: nat := v;
    Pow16();
    ghost var text := HexChars(Digits(v, 16));
    NothingReversed();
    while w != 0
      invariant p1 <= 16 && w < Pow(16, 16 - p1)
      invariant text == HexChars(Digits(w, 16)) + Reversed(str[..p1])
      invariant fresh(str) && str.Length == HEX_SCRATCH
      decreases w
    {
      HexStep(w, str[..p1]);
      DigitTaken(w, 16, 16 - p1);
      str[p1] := HexChar(w % 16);
      assert str[..p1 + 1] == str[..p1] + [HexChar(w % 16)];
      p1 := p1 + 1;
      w := w / 16;
    }
  }

  lemma NothingReversed()
    ensures Reversed([]) == [] && HexChars(Digits(0, 16)) == [] && PlainText(0) == []
  {
  }

  method ValueToHex(buffer: array<CHAR16>, v: nat)
    requires v < TWO64 && |HexText(v)| < buffer.Length
    modifies buffer
    ensures Holds(buffer, HexText(v))
  {
    hide HexChars, Digits, Reversed;
    if v == 0 {
      buffer[0], buffer[1] := DIGIT_0, NUL;
      return;
    }
    var str, p1 := ScratchHex(v);
    ghost var digits := str[..p1];
    ghost var text := HexText(v);
    var p2: nat := 0;
    while p1 != 0
      invariant 0 <= p1 <= |digits| && p1 + p2 == |digits| == |text|
      invariant str[..|digits|] == digits
      invariant buffer[..p2] == text[..p2]
      decreases p1
    {
      p1 := p1 - 1;
      ReversedAt(digits, p1);
      assert str[p1] == digits[p1] == text[p2];
      buffer[p2] := str[p1];
      p2 := p2 + 1;
    }
    buffer[p2] := NUL;
  }

  // ---- Decimal ----

  function DecChar(d: nat): (c: CHAR16)
    requires d < 10
    ensures c != NUL && c != COMMA
  {
    (d + DIGIT_0 as nat) as CHAR16
  }

  function DecChars(d: seq<nat>): (s: String)
    requires forall i | 0 <= i < |d| :: d[i] < 10
    ensures |s| == |d|
    ensures forall i | 0 <= i < |d| :: s[i] == DecChar(d[i])
  {
    seq(|d|, i requires 0 <= i < |d| => DecChar(d[i]))
  }

  /** Digits with a comma wherever a positive multiple of three digits is left, but none in front. */
  function Grouped(s: String, first: bool): String {
    if s == [] then []
    else (if !first && |s| % 3 == 0 then [COMMA] else []) + [s[0]] + Grouped(s[1..], false)
  }

  function Magnitude(v: int): nat {
    if v < 0 then -v else v
  }

  function PlainText(v: nat): (s: String) {
    DecChars(Digits(v, 10))
  }

  function DecimalText(v: int, comma: bool): String {
    if v == 0 then [DIGIT_0]
    else (if v < 0 then [DASH] else [])
         + (if comma then Grouped(PlainText(Magnitude(v)), true) else PlainText(Magnitude(v)))
  }

  /** Two's complement: the value of a 64-bit word read as signed. */
  function ToInt64(v: int): int {
    if v % TWO64 < TWO63 then v % TWO64 else v % TWO64 - TWO64
  }

  lemma DecStep(v: nat, done: seq<CHAR16>)
    requires v > 0
    ensures PlainText(v) + Reversed(done) == PlainText(v / 10) + Reversed(done + [DecChar(v % 10)])
  {
    ReversedSnoc(done, DecChar(v % 10));
    assert PlainText(v) == PlainText(v / 10) + [DecChar(v % 10)];
  }

  /** A signed 64-bit word, read as unsigned. */
  function Unsigned(w: int): (u: nat)
    ensures u < TWO64
  {
    w % TWO64
  }

  lemma UnsignedFacts(w: int)
    requires -TWO63 <= w < TWO63
    ensures w >= 0 ==> Unsigned(w) == w
    ensures Unsigned(w) == 0 <==> w == 0
  {
  }

  /** Fills the scratch array with the digits of v, last digit first. */
  method ScratchDigits(v: int) returns (str: array<CHAR16>, p1: nat)
    requires -TWO63 <= v < TWO63
    ensures fresh(str) && str.Length == DECIMAL_SCRATCH && p1 <= 20
    ensures Reversed(str[..p1]) == PlainText(Unsigned(v))
  {
    hide PlainText, Pow, Reversed, DecChar, Unsigned;
    str := new CHAR16[DECIMAL_SCRATCH];
    p1 := 0;
    var w := v;
    Pow10();
    ghost var text := PlainText(Unsigned(v));
    NothingReversed();
    UnsignedFacts(0);
    while w != 0
      invariant p1 <= 20 && Unsigned(w) < Pow(10, 20 - p1)
      invariant -TWO63 <= w < TWO63
      invariant text == PlainText(Unsigned(w)) + Reversed(str[..p1])
      invariant fresh(str) && str.Length == DECIMAL_SCRATCH
      decreases Unsigned(w)
    {
      var u := Unsigned(w);
      UnsignedFacts(w);
      UnsignedFacts(u / 10);
      DecStep(u, str[..p1]);
      DigitTaken(u, 10, 20 - p1);
      str[p1] := DecChar(u % 10);
      assert str[..p1 + 1] == str[..p1] + [DecChar(u % 10)];
      p1 := p1 + 1;
      w := u / 10;
    }
  }

  method ValueToString(buffer: array<CHAR16>, comma: bool, v: int)
    requires -TWO63 <= v < TWO63 && |DecimalText(v, comma)| < buffer.Length
    modifies buffer
    ensures Holds(buffer, DecimalText(v, comma))
  {
    hide PlainText, Reversed, Grouped;
    if v == 0 {
      buffer[0], buffer[1] := DIGIT_0, NUL;
      return;
    }
    var p2, w := 0, v;
    if v < 0 {
      buffer[0] := DASH;
      p2 := 1;
      w := ToInt64(-v);
    }
    assert Unsigned(w) == Magnitude(v);
    var str, p1 := ScratchDigits(w);
    ghost var text := DecimalText(v, comma);
    assert text[p2..] == Tail(PlainText(Magnitude(v)), comma, true);
    p2 := WriteDigits(buffer, str, p1, p2, comma, text, PlainText(Magnitude(v)));
    buffer[p2] := NUL;
  }

  function Tail(rest: String, comma: bool, first: bool): String {
    if comma then Grouped(rest, first) else rest
  }

  lemma TailStep(rest: String, comma: bool, first: bool)
    requires rest != []
    ensures Tail(rest, comma, first)
         == (if comma && !first && |rest| % 3 == 0 then [COMMA] else []) + [rest[0]] + Tail(rest[1..], comma, false)
  {
    if !comma {
      assert [] + [rest[0]] + rest[1..] == rest;
    }
  }

  /** The countdown to the next comma, before its decrement, with m digits left of n. */
  function Countdown(comma: bool, m: nat, n: nat): int {
    if !comma then 1000 - (n - m)
    else if m % 3 != 0 then m % 3 + 1
    else if m == n then 4 else 1
  }

  lemma CountdownStep(comma: bool, m: nat, n: nat)
    requires 0 < m <= n <= 20
    ensures var c := Countdown(comma, m, n) - 1;
      && (c == 0 <==> comma && m != n && m % 3 == 0)
      && (m > 1 ==> (if c == 0 then 3 else c) == Countdown(comma, m - 1, n))
  {
  }

  lemma CountdownStart(comma: bool, n: nat)
    requires 0 < n
    ensures Countdown(comma, n, n) == (if comma then [3, 1, 2][n % 3] else 999) + 1
  {
  }

  method WriteDigits(buffer: array<CHAR16>, str: array<CHAR16>, n: nat, start: nat, comma: bool,
                     ghost text: String, ghost plain: String)
    returns (p2: nat)
    requires buffer != str && n <= str.Length && n <= 20 && start <= |text| < buffer.Length
    requires Reversed(str[..n]) == plain
    requires buffer[..start] == text[..start] && text[start..] == Tail(plain, comma, true)
    modifies buffer
    ensures p2 == |text| && buffer[..p2] == text
  {
    hide Reversed, Grouped, Tail, Countdown;
    if n > 0 {
      CountdownStart(comma, n);
    }
    ghost var digits := str[..n];
    var p1 := n;
    p2 := start;
    var c := (if comma then [3, 1, 2][p1 % 3] else 999) + 1;
    assert plain[0..] == plain;
    while p1 != 0
      invariant 0 <= p1 <= n && str[..n] == digits
      invariant p1 > 0 ==> c == Countdown(comma, p1, n)
      invariant start <= p2 <= |text| && buffer[..p2] == text[..p2]
      invariant text[p2..] == Tail(plain[n - p1..], comma, p1 == n)
      decreases p1
    {
      ghost var rest: String := plain[n - p1..];
      TailStep(rest, comma, p1 == n);
      CountdownStep(comma, p1, n);
      p1 := p1 - 1;
      ReversedAt(digits, p1);
      assert str[p1] == digits[p1] == rest[0];
      assert plain[n - p1..] == rest[1..];
      c := c - 1;
      if c == 0 {
        Advance(text, p2, COMMA, [rest[0]] + Tail(rest[1..], comma, false));
        buffer[p2] := COMMA;
        p2 := p2 + 1;
        c := 3;
      }
      Advance(text, p2, rest[0], Tail(rest[1..], comma, false));
      buffer[p2] := str[p1];
      p2 := p2 + 1;
    }
    NoTail(comma, n == 0);
  }

  lemma NoTail(comma: bool, first: bool)
    ensures Tail([], comma, first) == []
  {
  }

  lemma Advance(text: String, at: nat, c: CHAR16, rest: String)
    requires c != NUL && at <= |text| && text[at..] == [c] + rest
    ensures at < |text| && text[at] == c && text[at + 1..] == rest && text[..at + 1] == text[..at] + [c]
  {
    assert text[at] == text[at..][0];
    assert text[at + 1..] == text[at..][1..];
  }
}
