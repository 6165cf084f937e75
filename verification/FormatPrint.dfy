/** The print loop: it reads a format character by character and puts what the format means. */
module FormatPrint {
  import opened Bytes
  import opened Text
  import opened NumberText
  import opened NumberParse
  import opened PoolPrint
  import opened FormatText

  const PRINT_ITEM_BUFFER_LEN := 100

  // ---- Where a reader of the format stands ----

  /** From here on the format and the arguments are those of the flags fs, the conversion, and the pieces behind. */
  ghost predicate InDirective(fmt: String, i: nat, args: seq<Arg>, j: nat, fs: seq<Flag>, c: Conversion,
                              behind: seq<Piece>)
  {
    && i <= |fmt| && j <= |args|
    && ValidFlags(fs) && ValidConversion(c) && ValidPieces(behind)
    && fmt[i..] == FlagsText(fs) + ([Letter(c)] + FormatOf(behind))
    && args[j..] == FlagsArgs(fs) + (ConversionArgs(c) + ArgsOf(behind))
  }

  ghost predicate Between(fmt: String, i: nat, args: seq<Arg>, j: nat, ps: seq<Piece>) {
    && i <= |fmt| && j <= |args| && ValidPieces(ps)
    && fmt[i..] == FormatOf(ps) && args[j..] == ArgsOf(ps)
  }

  lemma Drop<T>(s: seq<T>, at: nat, a: seq<T>, b: seq<T>)
    requires at <= |s| && s[at..] == a + b
    ensures at + |a| <= |s| && s[at + |a|..] == b && s[at..at + |a|] == a
    ensures forall k | 0 <= k < |a| :: s[at + k] == a[k]
  {
    assert s[at + |a|..] == s[at..][|a|..];
    assert s[at..at + |a|] == s[at..][..|a|];
    forall k | 0 <= k < |a|
      ensures s[at + k] == a[k]
    {
      assert s[at + k] == s[at..][k];
    }
  }

  /** Between two pieces a percent sign starts a directive, and anything else is put as it is. */
  lemma NextPiece(fmt: String, i: nat, args: seq<Arg>, j: nat, ps: seq<Piece>)
    requires Between(fmt, i, args, j, ps)
    ensures i <= |fmt| && (i == |fmt| <==> ps == [])
    ensures i < |fmt| && fmt[i] != PERCENT ==>
      && ps[0] == Literal(fmt[i]) && Between(fmt, i + 1, args, j, ps[1..])
    ensures i < |fmt| && fmt[i] == PERCENT ==>
      && ps[0].Directive? && ValidPiece(ps[0])
      && InDirective(fmt, i + 1, args, j, ps[0].flags, ps[0].conversion, ps[1..])
  {
    if ps != [] {
      assert ps[0] in ps && forall p | p in ps[1..] :: p in ps;
      Drop(fmt, i, PieceText(ps[0]), FormatOf(ps[1..]));
      Drop(args, j, PieceArgs(ps[0]), ArgsOf(ps[1..]));
      if ps[0].Directive? {
        DirectiveStart(fmt, i, args, j, ps[0].flags, ps[0].conversion, ps[1..]);
      }
    }
  }

  lemma DirectiveStart(fmt: String, i: nat, args: seq<Arg>, j: nat, fs: seq<Flag>, c: Conversion, behind: seq<Piece>)
    requires i <= |fmt| && j <= |args| && ValidFlags(fs) && ValidConversion(c) && ValidPieces(behind)
    requires fmt[i..] == PieceText(Directive(fs, c)) + FormatOf(behind)
    requires args[j..] == PieceArgs(Directive(fs, c)) + ArgsOf(behind)
    ensures i < |fmt| && fmt[i] == PERCENT && InDirective(fmt, i + 1, args, j, fs, c, behind)
  {
    hide FlagsText, FormatOf, FlagsArgs, ConversionArgs, ArgsOf, Letter, ValidFlags, ValidConversion, ValidPieces,
         PieceText, PieceArgs;
    DirectiveParts(fs, c);
    var rest := FlagsText(fs) + [Letter(c)] + FormatOf(behind);
    var restArgs := FlagsArgs(fs) + ConversionArgs(c) + ArgsOf(behind);
    Regroup([PERCENT], FlagsText(fs) + [Letter(c)], FormatOf(behind));
    Drop(fmt, i, [PERCENT], rest);
    Regroup(FlagsText(fs), [Letter(c)], FormatOf(behind));
    Regroup(FlagsArgs(fs), ConversionArgs(c), ArgsOf(behind));
  }

  lemma DirectiveParts(fs: seq<Flag>, c: Conversion)
    requires ValidFlags(fs) && ValidConversion(c)
    ensures PieceText(Directive(fs, c)) == [PERCENT] + (FlagsText(fs) + [Letter(c)])
    ensures PieceArgs(Directive(fs, c)) == FlagsArgs(fs) + ConversionArgs(c)
  {
    hide FlagsText, FlagsArgs, ConversionArgs, Letter;
    Regroup([PERCENT], FlagsText(fs), [Letter(c)]);
  }

  lemma Regroup<T>(a: seq<T>, b: seq<T>, c: seq<T>)
    ensures (a + b) + c == a + (b + c)
  {
  }

  /** With no flag left the conversion's letter comes next, its argument is the next one, and the pieces follow. */
  lemma AtConversion(fmt: String, i: nat, args: seq<Arg>, j: nat, c: Conversion, behind: seq<Piece>)
    requires InDirective(fmt, i, args, j, [], c, behind)
    ensures i < |fmt| && fmt[i] == Letter(c)
    ensures j + |ConversionArgs(c)| <= |args|
    ensures ConversionArgs(c) != [] ==> args[j] == ConversionArgs(c)[0]
    ensures Between(fmt, i + 1, args, j + |ConversionArgs(c)|, behind)
  {
    hide FormatOf, ConversionArgs, ArgsOf, Letter, ValidConversion, ValidPieces;
    Drop(fmt, i, [], [Letter(c)] + FormatOf(behind));
    Drop(fmt, i, [Letter(c)], FormatOf(behind));
    Drop(args, j, [], ConversionArgs(c) + ArgsOf(behind));
    Drop(args, j, ConversionArgs(c), ArgsOf(behind));
  }

  /** A flag's text comes first if there is a flag; behind it the rest of the directive. */
  lemma AtFlag(fmt: String, i: nat, args: seq<Arg>, j: nat, fs: seq<Flag>, c: Conversion, behind: seq<Piece>)
    requires InDirective(fmt, i, args, j, fs, c, behind) && fs != []
    ensures ValidFlag(fs[0]) && FlagText(fs[0]) != []
    ensures i + |FlagText(fs[0])| <= |fmt| && fmt[i..i + |FlagText(fs[0])|] == FlagText(fs[0])
    ensures fmt[i] == FlagText(fs[0])[0] && IsFlagLetter(fmt[i])
    ensures j + |FlagArgs(fs[0])| <= |args| && (fs[0].WidthArg? ==> args[j] == Number(fs[0].n))
    ensures InDirective(fmt, i + |FlagText(fs[0])|, args, j + |FlagArgs(fs[0])|, fs[1..], c, behind)
  {
    hide FormatOf, ConversionArgs, ArgsOf, Letter, ValidConversion, ValidPieces, FlagsText, FlagsArgs, FlagText,
         ValidFlags, IsFlagLetter, ValidFlag;
    FlagNotEmptyAt(fs);
    FlagsUnfold(fs);
    FirstOf(fmt, i, FlagText(fs[0]), FlagsText(fs[1..]), [Letter(c)] + FormatOf(behind));
    FirstOf(args, j, FlagArgs(fs[0]), FlagsArgs(fs[1..]), ConversionArgs(c) + ArgsOf(behind));
  }

  lemma FlagNotEmptyAt(fs: seq<Flag>)
    requires ValidFlags(fs) && fs != []
    ensures ValidFlag(fs[0]) && FlagText(fs[0]) != [] && IsFlagLetter(FlagText(fs[0])[0])
  {
    FlagNotEmpty(fs[0]);
  }

  lemma FirstOf<T>(s: seq<T>, at: nat, a: seq<T>, b: seq<T>, tail: seq<T>)
    requires at <= |s| && s[at..] == (a + b) + tail
    ensures at + |a| <= |s| && s[at..at + |a|] == a && s[at + |a|..] == b + tail
    ensures forall k | 0 <= k < |a| :: s[at + k] == a[k]
  {
    assert (a + b) + tail == a + (b + tail);
    Drop(s, at, a, b + tail);
  }

  lemma FlagsUnfold(fs: seq<Flag>)
    requires ValidFlags(fs) && fs != []
    ensures ValidFlag(fs[0]) && ValidFlags(fs[1..])
    ensures FlagsText(fs) == FlagText(fs[0]) + FlagsText(fs[1..])
    ensures FlagsArgs(fs) == FlagArgs(fs[0]) + FlagsArgs(fs[1..])
  {
  }

  /** The first character tells the flags apart: digits from one to nine begin a number. */
  lemma FlagNotEmpty(f: Flag)
    requires ValidFlag(f)
    ensures FlagText(f) != [] && IsFlagLetter(FlagText(f)[0])
    ensures f.PadZero? <==> FlagText(f)[0] == DIGIT_0
    ensures f.JustifyLeft? <==> FlagText(f)[0] == DASH
    ensures f.WithCommas? <==> FlagText(f)[0] == COMMA
    ensures f.FieldNext? <==> FlagText(f)[0] == DOT
    ensures f.WidthArg? <==> FlagText(f)[0] == STAR
    ensures f.Long? <==> FlagText(f)[0] == LETTER_l
    ensures f.Width? <==> DIGIT_0 < FlagText(f)[0] <= DIGIT_9
    ensures f.Attribute? <==> FlagText(f)[0] in ATTRIBUTES
    ensures f.Attribute? ==> f.letter == FlagText(f)[0]
    ensures !f.Width? ==> |FlagText(f)| == 1
    ensures |FlagArgs(f)| == if f.WidthArg? then 1 else 0
  {
    if f.Width? {
      FirstDigit(f.n);
    }
  }

  /** A positive number does not begin with a zero. */
  lemma {:induction false} FirstDigit(v: nat)
    requires v > 0
    ensures Digits(v, 10) != [] && Digits(v, 10)[0] > 0
    ensures PlainText(v) != [] && DIGIT_0 < PlainText(v)[0] <= DIGIT_9
    decreases v
  {
    if v >= 10 {
      FirstDigit(v / 10);
    }
  }

  /** Behind a number stands no further digit. */
  lemma BehindNumber(fmt: String, i: nat, args: seq<Arg>, j: nat, fs: seq<Flag>, c: Conversion, behind: seq<Piece>)
    requires InDirective(fmt, i, args, j, fs, c, behind)
    requires fs != [] ==> !fs[0].PadZero? && !fs[0].Width?
    ensures i < |fmt| && !IsDecimal(fmt[i])
  {
    if fs == [] {
      AtConversion(fmt, i, args, j, c, behind);
    } else {
      AtFlag(fmt, i, args, j, fs, c, behind);
      FlagNotEmpty(fs[0]);
      assert !(DIGIT_0 <= FlagText(fs[0])[0] <= DIGIT_9);
    }
  }

  /** The run of digits where a number is written, with no digit behind it, is the number's. */
  lemma NumberRun(rest: String, n: nat, post: String)
    requires rest == PlainText(n) + post && (post == [] || !IsDecimal(post[0]))
    ensures DecimalRun(rest) == Digits(n, 10) && |PlainText(n)| == |Digits(n, 10)|
    ensures Value(DecimalRun(rest), 10) == n
  {
    hide DecimalRun, Digits, Value;
    DecimalRunOfDigits(Digits(n, 10), post);
    ValueOfDigits(n, 10);
  }

  // ---- Reading ----

  /** Reads a number, digit by digit, into a 64-bit word. */
  method ReadNumber(fmt: String, start: nat) returns (n: nat, i: nat)
    requires start < |fmt| && IsDecimal(fmt[start])
    ensures n == Value(DecimalRun(fmt[start..]), 10) % TWO64
    ensures i == start + |DecimalRun(fmt[start..])|
  {
    hide DecimalRun, Value, IsDecimal;
    ghost var run := DecimalRun(fmt[start..]);
    NoDigits(run, 10);
    DigitBounds(fmt[start]);
    DecimalRunGoesOn(fmt, start, run, start);
    n, i := 0, start;
    var c := fmt[start];
    while true
      invariant start <= i < start + |run| <= |fmt| && c == fmt[i] && DIGIT_0 <= c <= DIGIT_9
      invariant n == Value(run[..i - start], 10) % TWO64
      decreases |fmt| - i
    {
      DecimalRunGoesOn(fmt, start, run, i);
      n := AppendDigit(run, i - start, n, (c - DIGIT_0) as nat);
      i := i + 1;
      DecimalRunGoesOn(fmt, start, run, i);
      c := At(fmt, i);
      if !(c >= DIGIT_0 && c <= DIGIT_9) {
        break;
      }
    }
    assert run[..i - start] == run;
  }

  lemma DigitBounds(c: CHAR16)
    ensures IsDecimal(c) <==> DIGIT_0 <= c <= DIGIT_9
  {
  }

  /** The number that a flag is, and where it is over. */
  method ReadWidth(fmt: String, at: nat, ghost args: seq<Arg>, ghost next: nat,
                   ghost fs: seq<Flag>, ghost c: Conversion, ghost behind: seq<Piece>)
    returns (n: nat, i: nat)
    requires InDirective(fmt, at, args, next, fs, c, behind) && fs != [] && fs[0].Width?
    ensures n == fs[0].n % TWO64 && i == at + |FlagText(fs[0])| > at
  {
    hide InDirective, DecimalRun, Digits, Value, FlagText;
    AtFlag(fmt, at, args, next, fs, c, behind);
    WidthFlag(fs);
    ghost var behindIt := at + |FlagText(fs[0])|;
    NextFlag(fmt, at, args, next, fs, c, behind);
    BehindNumber(fmt, behindIt, args, next, fs[1..], c, behind);
    assert fmt[at..] == fmt[at..behindIt] + fmt[behindIt..];
    NumberRun(fmt[at..], fs[0].n, fmt[behindIt..]);
    n, i := ReadNumber(fmt, at);
  }

  lemma WidthFlag(fs: seq<Flag>)
    requires fs != [] && fs[0].Width? && ValidFlag(fs[0])
    ensures FlagText(fs[0]) == PlainText(fs[0].n)
    ensures FlagText(fs[0]) != [] && IsDecimal(FlagText(fs[0])[0])
  {
    FirstDigit(fs[0].n);
  }

  lemma NextFlag(fmt: String, i: nat, args: seq<Arg>, j: nat, fs: seq<Flag>, c: Conversion, behind: seq<Piece>)
    requires InDirective(fmt, i, args, j, fs, c, behind) && fs != [] && fs[0].Width?
    ensures |fs| > 1 ==> !fs[1].PadZero? && !fs[1].Width?
  {
  }

  /** Which flag it is that begins with this letter, and where the directive goes on behind it. */
  lemma FlagHere(fmt: String, i: nat, args: seq<Arg>, j: nat, fs: seq<Flag>, c: Conversion, behind: seq<Piece>)
    requires InDirective(fmt, i, args, j, fs, c, behind)
    requires i < |fmt| && IsFlagLetter(fmt[i])
    ensures fs != []
    ensures var f, l := fs[0], fmt[i];
      && (l == DIGIT_0 ==> f == PadZero) && (l == DASH ==> f == JustifyLeft) && (l == COMMA ==> f == WithCommas)
      && (l == DOT ==> f == FieldNext) && (l == LETTER_l ==> f == Long)
      && (l == STAR ==> f.WidthArg? && j < |args| && args[j] == Number(f.n))
      && (DIGIT_0 < l <= DIGIT_9 ==> f.Width?)
      && (l in ATTRIBUTES ==> f == Attribute(l))
      && (l in {DIGIT_0, DASH, COMMA, DOT, LETTER_l, STAR} || l in ATTRIBUTES || DIGIT_0 < l <= DIGIT_9)
    ensures InDirective(fmt, if fs[0].Width? then i + |FlagText(fs[0])| else i + 1, args,
                        if fs[0].WidthArg? then j + 1 else j, fs[1..], c, behind)
  {
    hide InDirective, FlagText, FlagArgs, ValidFlag, IsFlagLetter, IsDecimal;
    DirectiveGoesOn(fmt, i, args, j, fs, c, behind);
    AtFlag(fmt, i, args, j, fs, c, behind);
    FlagKind(fs[0]);
  }

  /** The first letter of a flag tells which one it is. */
  lemma FlagKind(f: Flag)
    requires ValidFlag(f)
    ensures FlagText(f) != []
    ensures var l := FlagText(f)[0];
      && (l == DIGIT_0 ==> f == PadZero) && (l == DASH ==> f == JustifyLeft) && (l == COMMA ==> f == WithCommas)
      && (l == DOT ==> f == FieldNext) && (l == LETTER_l ==> f == Long) && (l == STAR ==> f.WidthArg?)
      && (DIGIT_0 < l <= DIGIT_9 ==> f.Width?)
      && (l in ATTRIBUTES ==> f == Attribute(l))
      && (l in {DIGIT_0, DASH, COMMA, DOT, LETTER_l, STAR} || l in ATTRIBUTES || DIGIT_0 < l <= DIGIT_9)
    ensures |FlagText(f)| == 1 || f.Width?
    ensures |FlagArgs(f)| == if f.WidthArg? then 1 else 0
  {
    FlagNotEmpty(f);
  }

  /** One flag: how it changes the settings, and whether it asks for the buffer to be emptied first. */
  method ReadFlag(fmt: String, at: nat, args: seq<Arg>, next: nat, settings: Settings,
                  ghost fs: seq<Flag>, ghost c: Conversion, ghost behind: seq<Piece>)
    returns (i: nat, j: nat, s: Settings, flush: bool)
    requires InDirective(fmt, at, args, next, fs, c, behind)
    requires at < |fmt| && IsFlagLetter(fmt[at])
    ensures fs != [] && InDirective(fmt, i, args, j, fs[1..], c, behind) && i > at
    ensures s == WithFlag(settings, fs[0])
    ensures flush <==> fs[0].Attribute? && fs[0].letter in {LETTER_n, LETTER_h, LETTER_e}
  {
    hide InDirective, FlagText, IsFlagLetter;
    FlagHere(fmt, at, args, next, fs, c, behind);
    var l := fmt[at];
    i, j, s, flush := at + 1, next, settings, false;
    if l == DIGIT_0 {
      s := s.(pad := DIGIT_0);
    } else if l == DASH {
      s := s.(padBefore := false);
    } else if l == COMMA {
      s := s.(comma := true);
    } else if l == DOT {
      s := s.(inField := true);
    } else if l == STAR {
      s := WithWidth(s, args[next].v);
      j := next + 1;
    } else if DIGIT_0 < l <= DIGIT_9 {
      var n;
      n, i := ReadWidth(fmt, at, args, next, fs, c, behind);
      s := WithWidth(s, n);
    } else if l == LETTER_l {
      s := s.(long := true);
    } else {
      flush := l == LETTER_n || l == LETTER_h || l == LETTER_e;
    }
  }

  /** The string that a buffer holds. */
  method Held(scratch: array<CHAR16>, ghost text: String) returns (s: String)
    requires Holds(scratch, text)
    ensures s == text
  {
    assert forall k | 0 <= k < |text| :: scratch[k] == text[k];
    s := PrintState.Up(scratch, |text|);
  }

  /** The text of a conversion; numbers are written into the item's own buffer. */
  method ConvertText(l: CHAR16, args: seq<Arg>, next: nat, s: Settings, ghost c: Conversion)
    returns (text: String, j: nat)
    requires ValidConversion(c) && l == Letter(c)
    requires next + |ConversionArgs(c)| <= |args|
    requires ConversionArgs(c) != [] ==> args[next] == ConversionArgs(c)[0]
    ensures text == ConversionText(s, c) && j == next + |ConversionArgs(c)|
  {
    hide Holds, HexText, DecimalText;
    var scratch := new CHAR16[PRINT_ITEM_BUFFER_LEN];
    text, j := [], next;
    if l == PERCENT {
      text := [PERCENT];
    } else if l == LETTER_a || l == LETTER_s {
      text := if args[next].NullPointer? then NULL_TEXT else args[next].text;
      j := next + 1;
    } else if l == LETTER_c {
      var v := args[next].v % 0x1_0000;
      text := if v == 0 then [] else [v as CHAR16];
      j := next + 1;
    } else if l == LETTER_X || l == LETTER_x {
      var v := Taken(args[next].v, s.long);
      HexTextShort(v);
      ValueToHex(scratch, v);
      text := Held(scratch, HexText(v));
      j := next + 1;
    } else if l == LETTER_d {
      var v := ToInt64(Taken(args[next].v, s.long));
      DecimalTextShort(v, s.comma);
      ValueToString(scratch, s.comma, v);
      text := Held(scratch, DecimalText(v, s.comma));
      j := next + 1;
    } else if l == LETTER_g || l == LETTER_t || l == LETTER_r {
      text := args[next].text;
      j := next + 1;
    } else {
      text := [QUESTION];
    }
  }

  // ---- Printing ----

  /** Empties the buffer in the middle of a print. */
  method FlushOn(ps: PrintState, ghost from: Origin, ghost done: String)
    requires ps.Valid() && ps.HasPut(from, done)
    modifies ps.Footprint()
    ensures ps.Valid() && fresh(ps.pool.Storage() - old(ps.pool.Storage()))
    ensures ps.HasPut(from, done) && ps.pos == 0
    ensures ps.Output() == ps.pool.Contents()
  {
    ghost var mid, asked := ps.Output(), ps.pool.asked;
    ps.Flush();
    FlushKeeps(from.output, ExpandAll(done), mid, ps.pool.Granted(from.asked, asked),
               ps.Output(), ps.pool.Granted(asked, ps.pool.asked));
  }

  lemma FlushKeeps(a: seq<CHAR16>, s: seq<CHAR16>, b: seq<CHAR16>, i: bool, c: seq<CHAR16>, j: bool)
    requires Kept(a, s, b, i) && c == if j then b else []
    ensures Kept(a, s, c, i && j)
  {
  }

  /** One directive, from behind its percent sign to behind its conversion. */
  method PrintDirective(ps: PrintState, fmt: String, at: nat, args: seq<Arg>, next: nat,
                        ghost d: Piece, ghost behind: seq<Piece>, ghost from: Origin, ghost done: String)
    returns (i: nat, j: nat)
    requires ps.Valid() && ps.HasPut(from, done)
    requires d.Directive? && ValidPiece(d) && InDirective(fmt, at, args, next, d.flags, d.conversion, behind)
    modifies ps.Footprint()
    ensures ps.Valid() && fresh(ps.pool.Storage() - old(ps.pool.Storage()))
    ensures ps.HasPut(from, done + PieceRendered(d))
    ensures Between(fmt, i, args, j, behind)
    ensures at < i <= |fmt|
  {
    hide InDirective, Between, ValidPieces, ValidFlags, ValidConversion, WithFlags, WithFlag, PieceRendered,
         PrintState.Valid, PrintState.HasPut;
    i, j := at, next;
    var s := DEFAULT;
    ghost var fs := d.flags;
    ghost var c := d.conversion;
    while true
      invariant i >= at && InDirective(fmt, i, args, j, fs, c, behind)
      invariant s.pad != NUL && WithFlags(s, fs) == WithFlags(DEFAULT, d.flags)
      invariant ps.Valid() && fresh(ps.pool.Storage() - old(ps.pool.Storage())) && ps.HasPut(from, done)
      decreases |fs|
    {
      DirectiveGoesOn(fmt, i, args, j, fs, c, behind);
      if fs == [] {
        NoFlags(s);
      } else {
        WithFlagsStep(s, fs);
      }
      var l := fmt[i];
      if !IsFlagLetter(l) {
        AtConversion(fmt, i, args, j, c, behind);
        var text;
        text, j := ConvertText(l, args, j, s, c);
        i := i + 1;
        var item := if l == LETTER_X then Item(text, if s.long then 16 else 8, s.fieldWidth, DIGIT_0, s.padBefore)
                    else Item(text, s.width, s.fieldWidth, s.pad, s.padBefore);
        ItemRendered(d, s, item);
        ps.PutItem(item, from, done);
        return;
      }
      var flush;
      i, j, s, flush := ReadFlag(fmt, i, args, j, s, fs, c, behind);
      fs := fs[1..];
      if flush {
        FlushOn(ps, from, done);
      }
    }
  }

  lemma DirectiveGoesOn(fmt: String, i: nat, args: seq<Arg>, j: nat, fs: seq<Flag>, c: Conversion, behind: seq<Piece>)
    requires InDirective(fmt, i, args, j, fs, c, behind)
    ensures i < |fmt| && (IsFlagLetter(fmt[i]) <==> fs != [])
    ensures ValidConversion(c)
  {
    if fs == [] {
      AtConversion(fmt, i, args, j, c, behind);
    } else {
      AtFlag(fmt, i, args, j, fs, c, behind);
    }
  }

  lemma ItemRendered(d: Piece, s: Settings, item: Item)
    requires d.Directive? && ValidPiece(d) && s == WithFlags(DEFAULT, d.flags)
    requires item == if Letter(d.conversion) == LETTER_X
      then Item(ConversionText(s, d.conversion), if s.long then 16 else 8, s.fieldWidth, DIGIT_0, s.padBefore)
      else Item(ConversionText(s, d.conversion), s.width, s.fieldWidth, s.pad, s.padBefore)
    ensures ValidItem(item) && ItemText(item) == PieceRendered(d)
  {
    ItemValid(s, d.conversion);
  }

  lemma NoFlags(s: Settings)
    requires s.pad != NUL
    ensures WithFlags(s, []) == s
  {
  }

  lemma WithFlagsStep(s: Settings, fs: seq<Flag>)
    requires s.pad != NUL && fs != []
    ensures WithFlags(s, fs) == WithFlags(WithFlag(s, fs[0]), fs[1..]) && WithFlag(s, fs[0]).pad != NUL
  {
  }

  /** The print loop. The format and the arguments are those of some pieces; their meaning is put, and the staging
      buffer is empty at the end. */
  method Print(ps: PrintState, fmt: String, args: seq<Arg>, ghost pieces: seq<Piece>) returns (length: nat)
    requires ps.Valid() && ps.len == 0
    requires ValidPieces(pieces) && fmt == FormatOf(pieces) && args == ArgsOf(pieces)
    modifies ps.Footprint()
    ensures ps.Valid() && fresh(ps.pool.Storage() - old(ps.pool.Storage()))
    ensures ps.HasPut(old(ps.Here()), Rendered(pieces))
    ensures ps.Output() == ps.pool.Contents()
    ensures length == |ExpandAll(Rendered(pieces))|
  {
    hide Between, InDirective, FormatOf, ArgsOf, Rendered, ValidPiece, PieceRendered, PrintState.HasPut;
    ghost var from := ps.Here();
    ps.NothingPutYet();
    var i, j := 0, 0;
    ghost var k := 0;
    PrintStart(fmt, args, pieces);
    while At(fmt, i) != NUL
      invariant i <= |fmt| && k <= |pieces| && Between(fmt, i, args, j, pieces[k..])
      invariant ps.Valid() && fresh(ps.pool.Storage() - old(ps.pool.Storage()))
      invariant ps.HasPut(from, Rendered(pieces[..k]))
      decreases |fmt| - i
    {
      NextPiece(fmt, i, args, j, pieces[k..]);
      RenderedStep(pieces, k);
      if fmt[i] != PERCENT {
        ps.Put(fmt[i], from, Rendered(pieces[..k]));
        i := i + 1;
      } else {
        i, j := PrintDirective(ps, fmt, i + 1, args, j, pieces[k], pieces[k + 1..], from, Rendered(pieces[..k]));
      }
      k := k + 1;
    }
    NextPiece(fmt, i, args, j, pieces[k..]);
    assert pieces[..k] == pieces;
    FlushOn(ps, from, Rendered(pieces));
    Counted(ps, from, Rendered(pieces));
    length := ps.len;
  }

  lemma Counted(ps: PrintState, from: Origin, text: String)
    requires ps.Valid() && ps.HasPut(from, text)
    ensures ps.len == from.len + |ExpandAll(text)|
  {
  }

  lemma PrintStart(fmt: String, args: seq<Arg>, pieces: seq<Piece>)
    requires ValidPieces(pieces) && fmt == FormatOf(pieces) && args == ArgsOf(pieces)
    ensures pieces[0..] == pieces && ValidPieces(pieces[..0])
    ensures Between(fmt, 0, args, 0, pieces) && Rendered(pieces[..0]) == []
  {
  }

  lemma RenderedStep(ps: seq<Piece>, k: nat)
    requires ValidPieces(ps) && k < |ps|
    ensures ValidPieces(ps[..k]) && ValidPieces(ps[..k + 1]) && ValidPiece(ps[k])
    ensures ps[k..][0] == ps[k] && ps[k..][1..] == ps[k + 1..]
    ensures Rendered(ps[..k + 1]) == Rendered(ps[..k]) + PieceRendered(ps[k])
    ensures ps[k].Literal? ==> PieceRendered(ps[k]) == [ps[k].c]
  {
    hide ValidPiece, ValidPieces, PieceRendered;
    var one := [ps[k]];
    assert ps[..k + 1] == ps[..k] + one;
    ValidParts(ps, k);
    RenderedConcat(ps[..k], one);
    assert one[1..] == [];
    if ps[k].Literal? {
      LiteralRendered(ps[k]);
    }
  }

  lemma ValidParts(ps: seq<Piece>, k: nat)
    requires ValidPieces(ps) && k < |ps|
    ensures ValidPiece(ps[k]) && ValidPieces(ps[..k]) && ValidPieces([ps[k]])
  {
    hide ValidPiece;
    assert ps[k] in ps && forall p | p in ps[..k] :: p in ps;
  }

  lemma LiteralRendered(p: Piece)
    requires p.Literal? && ValidPiece(p)
    ensures PieceRendered(p) == [p.c]
  {
  }

  // ---- Printing into a pool string ----

  /** Appends what a format means to a pool string. If no allocation fails nothing is lost, and otherwise what is left
      is the end of what was to be there. */
  method CatPrint(pool: PoolString, fmt: String, args: seq<Arg>, ghost pieces: seq<Piece>)
    requires pool.Valid()
    requires ValidPieces(pieces) && fmt == FormatOf(pieces) && args == ArgsOf(pieces)
    modifies pool, pool.Storage()
    ensures pool.Valid() && fresh(pool.Storage() - old(pool.Storage()))
    ensures pool.asked >= old(pool.asked)
    ensures Kept(old(pool.Contents()), ExpandAll(Rendered(pieces)), pool.Contents(),
                 pool.Granted(old(pool.asked), pool.asked))
  {
    var ps := new PrintState(pool);
    var length := Print(ps, fmt, args, pieces);
  }

  /** One print call: its format, its arguments, and the pieces they are made of. */
  datatype PrintCall = PrintCall(fmt: String, args: seq<Arg>, pieces: seq<Piece>)

  predicate ValidCall(c: PrintCall) {
    ValidPieces(c.pieces) && c.fmt == FormatOf(c.pieces) && c.args == ArgsOf(c.pieces)
  }

  predicate ValidCalls(cs: seq<PrintCall>) {
    forall i | 0 <= i < |cs| :: ValidCall(cs[i])
  }

  function RenderedCalls(cs: seq<PrintCall>): String
    requires ValidCalls(cs)
  {
    if cs == [] then [] else RenderedCalls(cs[..|cs| - 1]) + Rendered(cs[|cs| - 1].pieces)
  }

  /** Any series of print calls into one pool string. */
  method CatPrintAll(pool: PoolString, calls: seq<PrintCall>)
    requires pool.Valid() && ValidCalls(calls)
    modifies pool, pool.Storage()
    ensures pool.Valid() && fresh(pool.Storage() - old(pool.Storage()))
    ensures pool.asked >= old(pool.asked)
    ensures Kept(old(pool.Contents()), ExpandAll(RenderedCalls(calls)), pool.Contents(),
                 pool.Granted(old(pool.asked), pool.asked))
  {
    hide Kept, ExpandAll, RenderedCalls;
    NoCalls();
    KeptNothing(pool.Contents());
    for n := 0 to |calls|
      invariant pool.Valid() && fresh(pool.Storage() - old(pool.Storage())) && pool.asked >= old(pool.asked)
      invariant Kept(old(pool.Contents()), ExpandAll(RenderedCalls(calls[..n])), pool.Contents(),
                     pool.Granted(old(pool.asked), pool.asked))
    {
      ghost var mid, asked := pool.Contents(), pool.asked;
      assert ValidCall(calls[n]);
      CatPrint(pool, calls[n].fmt, calls[n].args, calls[n].pieces);
      KeptMore(old(pool.Contents()), RenderedCalls(calls[..n]), mid, pool.Granted(old(pool.asked), asked),
               Rendered(calls[n].pieces), pool.Contents(), pool.Granted(asked, pool.asked));
      CallsStep(calls, n);
    }
    assert calls[..|calls|] == calls;
  }

  /** Putting one text and then another keeps what putting both at once keeps. */
  lemma KeptMore(a: seq<CHAR16>, s: String, b: seq<CHAR16>, i: bool, t: String, c: seq<CHAR16>, j: bool)
    requires Kept(a, ExpandAll(s), b, i) && Kept(b, ExpandAll(t), c, j)
    ensures Kept(a, ExpandAll(s + t), c, i && j)
  {
    hide Kept, ExpandAll;
    KeptTwice(a, ExpandAll(s), b, i, ExpandAll(t), c, j);
    ExpandAllConcat(s, t);
  }

  lemma NoCalls()
    ensures RenderedCalls([]) == [] && ExpandAll([]) == []
  {
  }

  lemma CallsStep(cs: seq<PrintCall>, n: nat)
    requires ValidCalls(cs) && n < |cs|
    ensures RenderedCalls(cs[..n + 1]) == RenderedCalls(cs[..n]) + Rendered(cs[n].pieces)
  {
    assert cs[..n + 1][..n] == cs[..n];
  }
}
