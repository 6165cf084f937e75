/** A format with its arguments can be read in one way only. */
module FormatReading {
  import opened Bytes
  import opened Text
  import opened NumberText
  import opened NumberParse
  import opened FormatText
  import opened FormatPrint

  /** The letter and the argument tell the conversion. */
  lemma ConversionUnique(c: Conversion, d: Conversion)
    requires ValidConversion(c) && ValidConversion(d)
    requires Letter(c) == Letter(d)
    requires ConversionArgs(c) != [] && ConversionArgs(d) != [] ==> ConversionArgs(c)[0] == ConversionArgs(d)[0]
    ensures c == d
  {
    ConversionKind(c);
    ConversionKind(d);
  }

  /** Which conversion a letter stands for. */
  lemma ConversionKind(c: Conversion)
    requires ValidConversion(c)
    ensures c.Percent? <==> Letter(c) == PERCENT
    ensures c.StringOf? <==> Letter(c) in {LETTER_a, LETTER_s}
    ensures c.Character? <==> Letter(c) == LETTER_c
    ensures c.FixedHex? <==> Letter(c) == LETTER_X
    ensures c.Hex? <==> Letter(c) == LETTER_x
    ensures c.Decimal? <==> Letter(c) == LETTER_d
    ensures c.Other? <==> Letter(c) in {LETTER_g, LETTER_t, LETTER_r}
    ensures ConversionArgs(c) == [] <==> c.Percent? || c.UnknownLetter?
  {
  }

  /** The number written at this place. */
  function NumberAt(fmt: String, i: nat): nat {
    if i <= |fmt| then Value(DecimalRun(fmt[i..]), 10) else 0
  }

  lemma NumberHere(fmt: String, i: nat, args: seq<Arg>, j: nat, fs: seq<Flag>, c: Conversion, behind: seq<Piece>)
    requires InDirective(fmt, i, args, j, fs, c, behind) && fs != [] && fs[0].Width?
    ensures NumberAt(fmt, i) == fs[0].n
  {
    hide InDirective, DecimalRun, Digits, Value, FlagText;
    AtFlag(fmt, i, args, j, fs, c, behind);
    WidthFlag(fs);
    NextFlag(fmt, i, args, j, fs, c, behind);
    var next := i + |FlagText(fs[0])|;
    BehindNumber(fmt, next, args, j, fs[1..], c, behind);
    assert fmt[i..] == fmt[i..next] + fmt[next..];
    NumberRun(fmt[i..], fs[0].n, fmt[next..]);
  }

  /** Two flags that begin at the same place are the same flag. */
  lemma FlagUnique(fmt: String, i: nat, args: seq<Arg>, j: nat, fs: seq<Flag>, gs: seq<Flag>,
                   c: Conversion, d: Conversion, x: seq<Piece>, y: seq<Piece>)
    requires InDirective(fmt, i, args, j, fs, c, x) && InDirective(fmt, i, args, j, gs, d, y)
    requires fs != [] && gs != []
    ensures fs[0] == gs[0]
  {
    hide InDirective, FlagText, NumberAt, IsFlagLetter;
    DirectiveGoesOn(fmt, i, args, j, fs, c, x);
    FlagHere(fmt, i, args, j, fs, c, x);
    FlagHere(fmt, i, args, j, gs, d, y);
    if fs[0].Width? && gs[0].Width? {
      NumberHere(fmt, i, args, j, fs, c, x);
      NumberHere(fmt, i, args, j, gs, d, y);
    }
  }

  lemma {:induction false} DirectiveUnique(fmt: String, i: nat, args: seq<Arg>, j: nat, fs: seq<Flag>, gs: seq<Flag>,
                                           c: Conversion, d: Conversion, x: seq<Piece>, y: seq<Piece>)
    requires InDirective(fmt, i, args, j, fs, c, x) && InDirective(fmt, i, args, j, gs, d, y)
    ensures fs == gs && c == d
    ensures exists k, l :: i <= k && Between(fmt, k, args, l, x) && Between(fmt, k, args, l, y)
    decreases |fs|
  {
    hide InDirective, Between, FlagText, FlagArgs, ConversionArgs, Letter, IsFlagLetter, ValidConversion;
    DirectiveGoesOn(fmt, i, args, j, fs, c, x);
    DirectiveGoesOn(fmt, i, args, j, gs, d, y);
    if fs == [] {
      AtConversion(fmt, i, args, j, c, x);
      AtConversion(fmt, i, args, j, d, y);
      ConversionUnique(c, d);
    } else {
      FlagUnique(fmt, i, args, j, fs, gs, c, d, x, y);
      AtFlag(fmt, i, args, j, fs, c, x);
      AtFlag(fmt, i, args, j, gs, d, y);
      DirectiveUnique(fmt, i + |FlagText(fs[0])|, args, j + |FlagArgs(fs[0])|, fs[1..], gs[1..], c, d, x, y);
      assert fs == [fs[0]] + fs[1..] && gs == [gs[0]] + gs[1..];
    }
  }

  /** Pieces that are written alike and take the same arguments are the same, so what a print call puts is determined
      by its format and arguments alone. */
  lemma {:induction false} PiecesUnique(fmt: String, i: nat, args: seq<Arg>, j: nat, a: seq<Piece>, b: seq<Piece>)
    requires Between(fmt, i, args, j, a) && Between(fmt, i, args, j, b)
    ensures a == b
    decreases |a|
  {
    hide Between, InDirective, ValidPiece;
    NextPiece(fmt, i, args, j, a);
    NextPiece(fmt, i, args, j, b);
    if a != [] {
      if fmt[i] == PERCENT {
        var p, q := a[0], b[0];
        DirectiveUnique(fmt, i + 1, args, j, p.flags, q.flags, p.conversion, q.conversion, a[1..], b[1..]);
        var k, l :| i + 1 <= k && Between(fmt, k, args, l, a[1..]) && Between(fmt, k, args, l, b[1..]);
        PiecesUnique(fmt, k, args, l, a[1..], b[1..]);
      } else {
        PiecesUnique(fmt, i + 1, args, j, a[1..], b[1..]);
      }
      assert a == [a[0]] + a[1..] && b == [b[0]] + b[1..];
    }
  }

  lemma FormatUnambiguous(a: seq<Piece>, b: seq<Piece>)
    requires ValidPieces(a) && ValidPieces(b) && FormatOf(a) == FormatOf(b) && ArgsOf(a) == ArgsOf(b)
    ensures a == b
  {
    hide FormatOf, ArgsOf, ValidPieces;
    var fmt, args := FormatOf(a), ArgsOf(a);
    assert fmt[0..] == fmt && args[0..] == args;
    PiecesUnique(fmt, 0, args, 0, a, b);
  }

  // ---- Which formats are written from pieces ----

  /** The format ends outside a directive; Inside starts within one. */
  predicate Outside(s: String) {
    s != [] ==> if s[0] == PERCENT then Inside(s[1..]) else Outside(s[1..])
  }

  predicate Inside(s: String) {
    s != [] && if IsFlagLetter(s[0]) then Inside(s[1..]) else Outside(s[1..])
  }

  predicate AllFlagLetters(s: String) {
    forall i | 0 <= i < |s| :: IsFlagLetter(s[i])
  }

  lemma {:induction false} PastFlagLetters(t: String, s: String)
    requires AllFlagLetters(t)
    ensures Inside(t + s) == Inside(s)
  {
    if t == [] {
      assert t + s == s;
    } else {
      assert (t + s)[1..] == t[1..] + s;
      PastFlagLetters(t[1..], s);
    }
  }

  lemma FlagLetters(f: Flag)
    requires ValidFlag(f)
    ensures AllFlagLetters(FlagText(f))
  {
    if f.Width? {
      hide Digits;
      forall i | 0 <= i < |PlainText(f.n)|
        ensures IsDecimal(PlainText(f.n)[i])
      {
      }
    } else {
      FlagNotEmpty(f);
    }
  }

  lemma {:induction false} FlagsLetters(fs: seq<Flag>)
    requires ValidFlags(fs)
    ensures AllFlagLetters(FlagsText(fs))
  {
    if fs != [] {
      FlagsUnfold(fs);
      FlagLetters(fs[0]);
      FlagsLetters(fs[1..]);
    }
  }

  lemma {:induction false} WrittenEndsOutside(ps: seq<Piece>)
    requires ValidPieces(ps)
    ensures Outside(FormatOf(ps))
  {
    if ps != [] {
      ValidTail(ps);
      WrittenEndsOutside(ps[1..]);
      var rest := FormatOf(ps[1..]);
      match ps[0]
      case Literal(c) =>
        assert ([c] + rest)[1..] == rest;
      case Directive(fs, c) =>
        hide FlagsText, FormatOf, Letter, IsFlagLetter;
        DirectiveParts(fs, c);
        Regroup([PERCENT], FlagsText(fs) + [Letter(c)], rest);
        Regroup(FlagsText(fs), [Letter(c)], rest);
        assert ([PERCENT] + (FlagsText(fs) + ([Letter(c)] + rest)))[1..] == FlagsText(fs) + ([Letter(c)] + rest);
        FlagsLetters(fs);
        PastFlagLetters(FlagsText(fs), [Letter(c)] + rest);
        assert ([Letter(c)] + rest)[1..] == rest;
        FormatStep(ps);
    }
  }

  /** Some conversion is written with any letter that is not a flag's. */
  function ConversionFor(l: CHAR16): (c: Conversion)
    requires l != NUL && !IsFlagLetter(l)
    ensures ValidConversion(c) && Letter(c) == l
  {
    if l == PERCENT then Percent
    else if l == LETTER_a || l == LETTER_s then StringOf(l, NullPointer)
    else if l == LETTER_c then Character(0)
    else if l == LETTER_X then FixedHex(0)
    else if l == LETTER_x then Hex(0)
    else if l == LETTER_d then Decimal(0)
    else if l == LETTER_g || l == LETTER_t || l == LETTER_r then Other(l, Prepared([]))
    else UnknownLetter(l)
  }

  /** The flag that a letter is; a number is not told by its first digit alone. */
  function FlagFor(l: CHAR16): (f: Flag)
    requires IsFlagLetter(l) && !(DIGIT_0 < l <= DIGIT_9)
    ensures ValidFlag(f) && FlagText(f) == [l] && !f.Width?
  {
    if l == DIGIT_0 then PadZero
    else if l == DASH then JustifyLeft
    else if l == COMMA then WithCommas
    else if l == DOT then FieldNext
    else if l == STAR then WidthArg(0)
    else if l == LETTER_l then Long
    else Attribute(l)
  }

  /** Digits without a leading zero are those of the number they stand for. */
  lemma {:induction false} DigitsOfValue(d: seq<nat>)
    requires (forall i | 0 <= i < |d| :: d[i] < 10) && (d != [] ==> d[0] > 0)
    ensures Digits(Value(d, 10), 10) == d && (d != [] ==> Value(d, 10) > 0)
    decreases |d|
  {
    if d != [] {
      var init, last := d[..|d| - 1], d[|d| - 1];
      DigitsOfValue(init);
      assert d == init + [last];
      ValueSnoc(init, last, 10);
      assert Value(d, 10) / 10 == Value(init, 10) && Value(d, 10) % 10 == last;
      if init == [] {
        NoValue(10);
      }
      DigitsStep(Value(d, 10), 10);
    }
  }

  /** A number written at the start of s, and what follows it. */
  lemma LeadingNumber(s: String) returns (n: nat, post: String)
    requires s != [] && DIGIT_0 < s[0] <= DIGIT_9
    ensures n > 0 && s == PlainText(n) + post && AllFlagLetters(PlainText(n)) && |post| < |s|
    ensures post == [] || !IsDecimal(post[0])
  {
    var d := DecimalRun(s);
    assert d != [] && d[0] > 0;
    n, post := Value(d, 10), s[|d|..];
    DigitsOfValue(d);
    assert PlainText(n) == s[..|d|];
    assert forall i | 0 <= i < |d| :: s[..|d|][i] == s[i];
    hide PlainText, DecimalRun, Value;
    assert s == s[..|d|] + post;
    assert post != [] ==> post[0] == s[|d|];
  }

  lemma FlagsCons(f: Flag, fs: seq<Flag>, tail: String)
    requires ValidFlag(f) && ValidFlags(fs)
    requires f.Width? && fs != [] ==> !fs[0].PadZero? && !fs[0].Width?
    ensures ValidFlags([f] + fs)
    ensures FlagsText([f] + fs) + tail == FlagText(f) + (FlagsText(fs) + tail)
  {
    hide FlagText, ValidFlag;
    assert ([f] + fs)[1..] == fs;
  }

  /** Behind a number no flag begins with a digit. */
  lemma NoDigitNext(fs: seq<Flag>, post: String, tail: String)
    requires ValidFlags(fs) && post == FlagsText(fs) + tail && (post == [] || !IsDecimal(post[0]))
    ensures fs != [] ==> !fs[0].PadZero? && !fs[0].Width?
  {
    if fs != [] {
      FlagsUnfold(fs);
      FlagNotEmpty(fs[0]);
      assert post[0] == FlagText(fs[0])[0];
    }
  }

  lemma {:induction false} ReadInside(s: String) returns (fs: seq<Flag>, c: Conversion, rest: String)
    requires Inside(s)
    ensures ValidFlags(fs) && ValidConversion(c) && Outside(rest) && |rest| < |s|
    ensures s == FlagsText(fs) + ([Letter(c)] + rest)
    decreases |s|
  {
    var l := s[0];
    assert s == [l] + s[1..];
    if !IsFlagLetter(l) {
      fs, c, rest := [], ConversionFor(l), s[1..];
    } else if DIGIT_0 < l <= DIGIT_9 {
      var n, post := LeadingNumber(s);
      hide PlainText, IsFlagLetter, Letter, Inside, Outside, FlagsText, ValidFlags, ValidConversion, IsDecimal;
      PastFlagLetters(PlainText(n), post);
      fs, c, rest := ReadInside(post);
      NoDigitNext(fs, post, [Letter(c)] + rest);
      FlagsCons(Width(n), fs, [Letter(c)] + rest);
      fs := [Width(n)] + fs;
    } else {
      var f := FlagFor(l);
      hide IsFlagLetter, Letter, Outside, FlagsText, ValidFlags, ValidConversion;
      fs, c, rest := ReadInside(s[1..]);
      FlagsCons(f, fs, [Letter(c)] + rest);
      fs := [f] + fs;
    }
  }

  lemma {:induction false} ReadOutside(s: String) returns (ps: seq<Piece>)
    requires Outside(s)
    ensures ValidPieces(ps) && FormatOf(ps) == s
    decreases |s|
  {
    if s == [] {
      ps := [];
    } else if s[0] == PERCENT {
      var fs, c, rest := ReadInside(s[1..]);
      hide Letter, FlagsText, ValidFlags, ValidConversion, Outside, Inside, FormatOf;
      var behind := ReadOutside(rest);
      ps := PiecesCons(Directive(fs, c), behind);
      DirectiveParts(fs, c);
      Regroup([PERCENT], FlagsText(fs) + [Letter(c)], rest);
      Regroup(FlagsText(fs), [Letter(c)], rest);
      assert s == [PERCENT] + s[1..];
    } else {
      var behind := ReadOutside(s[1..]);
      hide FormatOf;
      ps := PiecesCons(Literal(s[0]), behind);
      assert s == [s[0]] + s[1..];
    }
  }

  lemma PiecesCons(p: Piece, behind: seq<Piece>) returns (ps: seq<Piece>)
    requires ValidPiece(p) && ValidPieces(behind)
    ensures ps == [p] + behind && ValidPieces(ps) && FormatOf(ps) == PieceText(p) + FormatOf(behind)
  {
    hide ValidPiece, PieceText;
    ps := [p] + behind;
    assert ps[1..] == behind;
  }

  /** The formats that can be written from pieces are exactly those that do not end inside a directive. */
  lemma WrittenIff(fmt: String)
    ensures Outside(fmt) <==> exists ps: seq<Piece> :: ValidPieces(ps) && FormatOf(ps) == fmt
  {
    hide Outside, FormatOf, ValidPieces;
    if Outside(fmt) {
      var ps := ReadOutside(fmt);
    }
    if ps: seq<Piece> :| ValidPieces(ps) && FormatOf(ps) == fmt {
      WrittenEndsOutside(ps);
    }
  }
}
