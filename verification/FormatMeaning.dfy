/** What formats put, format by format: the flags and conversions as a caller of the print functions knows them. */
module FormatMeaning {
  import opened Bytes
  import opened Text
  import opened NumberText
  import opened NumberParse
  import opened PoolPrint
  import opened FormatText
  import FormatReading
  import FormatPrint

  /** A text of ASCII characters. */
  function Ascii(s: string): (t: String)
    ensures |t| == |s| && forall i | 0 <= i < |s| && 0 < s[i] as int < 0x80 :: t[i] as int == s[i] as int
  {
    seq(|s|, i requires 0 <= i < |s| => if 0 < s[i] as int < 0x80 then s[i] as int as CHAR16 else QUESTION)
  }

  /** The format, with these arguments, is made of pieces that mean this text. */
  ghost predicate Prints(fmt: String, args: seq<Arg>, text: String) {
    exists ps: seq<Piece> :: Writes(ps, fmt, args, text)
  }

  ghost predicate Writes(ps: seq<Piece>, fmt: String, args: seq<Arg>, text: String) {
    ValidPieces(ps) && FormatOf(ps) == fmt && ArgsOf(ps) == args && Rendered(ps) == text
  }

  /** A format with its arguments prints one text only. */
  lemma PrintsOnce(fmt: String, args: seq<Arg>, t: String, u: String)
    requires Prints(fmt, args, t) && Prints(fmt, args, u)
    ensures t == u
  {
    hide FormatOf, ArgsOf, Rendered, ValidPieces;
    var ps :| Writes(ps, fmt, args, t);
    var qs :| Writes(qs, fmt, args, u);
    FormatReading.FormatUnambiguous(ps, qs);
  }

  /** Formats put together print their texts put together. */
  lemma PrintsBoth(f: String, a: seq<Arg>, t: String, g: String, b: seq<Arg>, u: String)
    requires Prints(f, a, t) && Prints(g, b, u)
    ensures Prints(f + g, a + b, t + u)
  {
    hide FormatOf, ArgsOf, Rendered, ValidPieces;
    var ps :| Writes(ps, f, a, t);
    var qs :| Writes(qs, g, b, u);
    FormatConcat(ps, qs);
    RenderedConcat(ps, qs);
    assert Writes(ps + qs, f + g, a + b, t + u);
  }

  /** What a format prints is what the print function appends to a pool string. */
  method CatPrintText(pool: PoolString, fmt: String, args: seq<Arg>, ghost text: String)
    requires pool.Valid() && Prints(fmt, args, text)
    modifies pool, pool.Storage()
    ensures pool.Valid() && fresh(pool.Storage() - old(pool.Storage()))
    ensures pool.asked >= old(pool.asked)
    ensures Kept(old(pool.Contents()), ExpandAll(text), pool.Contents(), pool.Granted(old(pool.asked), pool.asked))
  {
    hide FormatOf, ArgsOf, Rendered, ValidPieces, Kept, ExpandAll;
    ghost var ps :| Writes(ps, fmt, args, text);
    FormatPrint.CatPrint(pool, fmt, args, ps);
  }

  // ---- One directive ----

  function TextOf(c: Conversion, flags: seq<Flag>): String
    requires ValidConversion(c)
  {
    ItemValid(WithFlags(DEFAULT, flags), c);
    ItemText(ItemOf(WithFlags(DEFAULT, flags), c))
  }

  lemma DirectivePrints(fmt: String, args: seq<Arg>, flags: seq<Flag>, c: Conversion)
    requires ValidFlags(flags) && ValidConversion(c)
    requires fmt == [PERCENT] + FlagsText(flags) + [Letter(c)] && args == FlagsArgs(flags) + ConversionArgs(c)
    ensures Prints(fmt, args, TextOf(c, flags))
  {
    var ps := [Directive(flags, c)];
    hide FlagsText, FlagsArgs, TextOf, WithFlags, ItemOf, ItemText;
    assert ps[1..] == [];
    assert FormatOf(ps) == PieceText(ps[0]) + [] == fmt;
    assert ArgsOf(ps) == PieceArgs(ps[0]) + [] == args;
    assert Rendered(ps) == PieceRendered(ps[0]) + [];
    TextIsRendered(flags, c);
    assert Writes(ps, fmt, args, TextOf(c, flags));
  }

  lemma TextIsRendered(flags: seq<Flag>, c: Conversion)
    requires ValidFlags(flags) && ValidConversion(c)
    ensures PieceRendered(Directive(flags, c)) == TextOf(c, flags)
  {
    hide ItemText, ItemOf, WithFlags;
  }

  lemma LiteralPrints(c: CHAR16)
    requires c != NUL && c != PERCENT
    ensures Prints([c], [], [c])
  {
    var ps := [Literal(c)];
    assert ps[1..] == [];
    assert FormatOf(ps) == PieceText(ps[0]) + [];
    assert ArgsOf(ps) == PieceArgs(ps[0]) + [];
    assert Rendered(ps) == PieceRendered(ps[0]) + [];
    assert Writes(ps, [c], [], [c]);
  }

  // ---- Padding ----

  /** A text on the right of a width, with c in front of it. */
  function Padded(c: CHAR16, n: nat, text: String): String
    requires c != NUL
  {
    Run(c, if n > |text| then n - |text| else 0) + text
  }

  /** The part of a text that a field of n characters shows, with spaces in front or behind. */
  function InField(n: nat, text: String, left: bool): String {
    if |text| >= n then text[..n]
    else if left then text + Run(SPACE, n - |text|) else Run(SPACE, n - |text|) + text
  }

  lemma ItemPadded(item: Item)
    requires ValidItem(item) && item.fieldWidth == NO_FIELD_WIDTH
    ensures ItemText(item) == Padded(item.pad, item.width, item.text)
  {
    assert item.text[..|item.text|] == item.text;
    assert Run(SPACE, 0) == [];
  }

  lemma ItemInField(item: Item)
    requires ValidItem(item) && item.fieldWidth < NO_FIELD_WIDTH && item.width == 0
    ensures ItemText(item) == InField(item.fieldWidth, item.text, !item.padBefore)
  {
    assert Run(item.pad, 0) == [] && Run(SPACE, 0) == [];
    assert item.text[..|item.text|] == item.text;
  }

  /** A directive without a field prints its text padded to its width. */
  lemma PaddedPrints(fmt: String, args: seq<Arg>, flags: seq<Flag>, c: Conversion, item: Item)
    requires ValidFlags(flags) && ValidConversion(c) && item == ItemOf(WithFlags(DEFAULT, flags), c)
    requires fmt == [PERCENT] + FlagsText(flags) + [Letter(c)] && args == FlagsArgs(flags) + ConversionArgs(c)
    requires item.fieldWidth == NO_FIELD_WIDTH
    ensures item.pad != NUL && Prints(fmt, args, Padded(item.pad, item.width, item.text))
    ensures item.width == 0 ==> Prints(fmt, args, item.text)
  {
    hide FlagsText, FlagsArgs, ItemText, WithFlags, ItemOf, Prints;
    ItemValid(WithFlags(DEFAULT, flags), c);
    DirectivePrints(fmt, args, flags, c);
    ItemPadded(item);
    assert Run(item.pad, 0) + item.text == item.text;
  }

  /** One with a field prints it in that field. */
  lemma FieldPrints(fmt: String, args: seq<Arg>, flags: seq<Flag>, c: Conversion, item: Item)
    requires ValidFlags(flags) && ValidConversion(c) && item == ItemOf(WithFlags(DEFAULT, flags), c)
    requires fmt == [PERCENT] + FlagsText(flags) + [Letter(c)] && args == FlagsArgs(flags) + ConversionArgs(c)
    requires item.fieldWidth < NO_FIELD_WIDTH && item.width == 0
    ensures Prints(fmt, args, InField(item.fieldWidth, item.text, !item.padBefore))
  {
    hide FlagsText, FlagsArgs, ItemText, WithFlags, ItemOf, Prints, InField;
    ItemValid(WithFlags(DEFAULT, flags), c);
    DirectivePrints(fmt, args, flags, c);
    ItemInField(item);
  }

  // ---- How flags are written, and what they set ----

  lemma NoFlags()
    ensures FlagsText([]) == [] && FlagsArgs([]) == [] && ValidFlags([]) && WithFlags(DEFAULT, []) == DEFAULT
  {
  }

  lemma FlagOn(s: Settings, f: Flag, fs: seq<Flag>)
    requires s.pad != NUL
    ensures WithFlag(s, f).pad != NUL
    ensures WithFlags(s, [f] + fs) == WithFlags(WithFlag(s, f), fs)
    ensures WithFlags(s, [f]) == WithFlag(s, f)
  {
    hide WithFlag;
    assert ([f] + fs)[1..] == fs && [f][1..] == [];
    FlagKeepsPad(s, f);
  }

  lemma FlagKeepsPad(s: Settings, f: Flag)
    requires s.pad != NUL
    ensures WithFlag(s, f).pad != NUL
  {
  }

  lemma OneFlag(f: Flag)
    requires ValidFlag(f)
    ensures ValidFlags([f]) && FlagsText([f]) == FlagText(f) && FlagsArgs([f]) == FlagArgs(f)
    ensures WithFlags(DEFAULT, [f]) == WithFlag(DEFAULT, f)
  {
    hide FlagText, FlagArgs, WithFlag, WithFlags;
    assert [f][1..] == [];
    assert FlagText(f) + [] == FlagText(f) && FlagArgs(f) + [] == FlagArgs(f);
    FlagOn(DEFAULT, f, []);
  }

  lemma TwoFlags(f: Flag, g: Flag)
    requires ValidFlag(f) && ValidFlag(g) && !f.Width?
    ensures ValidFlags([f, g]) && FlagsText([f, g]) == FlagText(f) + FlagText(g)
    ensures FlagsArgs([f, g]) == FlagArgs(f) + FlagArgs(g)
    ensures WithFlags(DEFAULT, [f, g]) == WithFlag(WithFlag(DEFAULT, f), g)
  {
    hide FlagText, FlagArgs, WithFlag, WithFlags;
    OneFlag(g);
    assert [f, g][1..] == [g] && [g][1..] == [] && [f] + [g] == [f, g];
    FlagOn(DEFAULT, f, [g]);
    FlagOn(WithFlag(DEFAULT, f), g, []);
  }

  lemma ThreeFlags(f: Flag, g: Flag, h: Flag)
    requires ValidFlag(f) && ValidFlag(g) && ValidFlag(h) && !f.Width? && !g.Width?
    ensures ValidFlags([f, g, h]) && FlagsText([f, g, h]) == FlagText(f) + (FlagText(g) + FlagText(h))
    ensures FlagsArgs([f, g, h]) == FlagArgs(f) + (FlagArgs(g) + FlagArgs(h))
    ensures WithFlags(DEFAULT, [f, g, h]) == WithFlag(WithFlag(WithFlag(DEFAULT, f), g), h)
  {
    hide FlagText, FlagArgs, WithFlag, WithFlags;
    TwoFlags(g, h);
    assert [f, g, h][1..] == [g, h] && [g, h][1..] == [h] && [h][1..] == [];
    assert [f] + [g, h] == [f, g, h] && [g] + [h] == [g, h];
    FlagOn(DEFAULT, f, [g, h]);
    FlagOn(WithFlag(DEFAULT, f), g, [h]);
    FlagOn(WithFlag(WithFlag(DEFAULT, f), g), h, []);
  }

  // ---- Numbers ----

  /** A number in hexadecimal: the low 32 bits, or all 64 with l. */
  lemma HexPrinted(v: nat)
    requires v < TWO64
    ensures Prints(Ascii("%x"), [Number(v)], HexText(v % TWO32))
    ensures Prints(Ascii("%lx"), [Number(v)], HexText(v))
  {
    hide HexText, Prints;
    NoFlags();
    OneFlag(Long);
    PaddedPrints(Ascii("%x"), [Number(v)], [], Hex(v), Item(HexText(v % TWO32), 0, NO_FIELD_WIDTH, SPACE, true));
    PaddedPrints(Ascii("%lx"), [Number(v)], [Long], Hex(v), Item(HexText(v), 0, NO_FIELD_WIDTH, SPACE, true));
  }

  /** The value of a 64-bit word as a signed number. */
  function Signed(v: nat): int {
    if v < TWO63 then v else v - TWO64
  }

  /** In decimal: the low 32 bits without a sign, or all 64 with one. */
  lemma DecimalPrinted(v: nat)
    requires v < TWO64
    ensures Prints(Ascii("%d"), [Number(v)], DecimalText(v % TWO32, false))
    ensures Prints(Ascii("%ld"), [Number(v)], DecimalText(Signed(v), false))
  {
    hide DecimalText, Prints;
    NoFlags();
    OneFlag(Long);
    PaddedPrints(Ascii("%d"), [Number(v)], [], Decimal(v),
                 Item(DecimalText(v % TWO32, false), 0, NO_FIELD_WIDTH, SPACE, true));
    PaddedPrints(Ascii("%ld"), [Number(v)], [Long], Decimal(v),
                 Item(DecimalText(Signed(v), false), 0, NO_FIELD_WIDTH, SPACE, true));
  }

  /** In decimal with commas. */
  lemma CommasPrinted(v: nat)
    requires v < TWO64
    ensures Prints(Ascii("%,d"), [Number(v)], DecimalText(v % TWO32, true))
  {
    hide DecimalText, Prints;
    OneFlag(WithCommas);
    PaddedPrints(Ascii("%,d"), [Number(v)], [WithCommas], Decimal(v),
                 Item(DecimalText(v % TWO32, true), 0, NO_FIELD_WIDTH, SPACE, true));
  }

  lemma LongCommasPrinted(v: nat)
    requires v < TWO64
    ensures Prints(Ascii("%,ld"), [Number(v)], DecimalText(Signed(v), true))
  {
    hide DecimalText, Prints;
    TwoFlags(WithCommas, Long);
    PaddedPrints(Ascii("%,ld"), [Number(v)], [WithCommas, Long], Decimal(v),
                 Item(DecimalText(Signed(v), true), 0, NO_FIELD_WIDTH, SPACE, true));
  }

  /** A format with a number in it. */
  function WithNumber(front: string, n: nat, back: string): String {
    Ascii(front) + PlainText(n) + Ascii(back)
  }

  /** X always gives 8 digits, and 16 with l, whatever width the format asks for. */
  lemma FixedHexPrinted(v: nat, n: nat)
    requires v < TWO64 && 0 < n < TWO64
    ensures Prints(Ascii("%X"), [Number(v)], Padded(DIGIT_0, 8, HexText(v % TWO32)))
    ensures Prints(Ascii("%lX"), [Number(v)], Padded(DIGIT_0, 16, HexText(v)))
    ensures Prints(WithNumber("%", n, "X"), [Number(v)], Padded(DIGIT_0, 8, HexText(v % TWO32)))
  {
    hide HexText, Prints, Padded, PlainText;
    NoFlags();
    OneFlag(Long);
    OneFlag(Width(n));
    PaddedPrints(Ascii("%X"), [Number(v)], [], FixedHex(v), Item(HexText(v % TWO32), 8, NO_FIELD_WIDTH, DIGIT_0, true));
    PaddedPrints(Ascii("%lX"), [Number(v)], [Long], FixedHex(v), Item(HexText(v), 16, NO_FIELD_WIDTH, DIGIT_0, true));
    PaddedPrints(WithNumber("%", n, "X"), [Number(v)], [Width(n)], FixedHex(v),
                 Item(HexText(v % TWO32), 8, NO_FIELD_WIDTH, DIGIT_0, true));
  }

  // ---- Widths and fields ----

  /** A conversion written as this letter, which takes this argument and has this text when there is no flag. */
  predicate Converts(c: Conversion, letter: string, arg: Arg, text: String) {
    && ValidConversion(c) && !c.FixedHex?
    && [Letter(c)] == Ascii(letter) && ConversionArgs(c) == [arg]
    && ConversionText(DEFAULT, c) == text
  }

  lemma WidthPrinted(c: Conversion, letter: string, arg: Arg, text: String, n: nat)
    requires Converts(c, letter, arg, text) && 0 < n < TWO64
    ensures Prints(WithNumber("%", n, letter), [arg], Padded(SPACE, n, text))
  {
    hide Prints, Padded, PlainText, Letter, ConversionText, ConversionArgs;
    OneFlag(Width(n));
    SameText(DEFAULT, WithFlag(DEFAULT, Width(n)), c);
    PaddedPrints(WithNumber("%", n, letter), [arg], [Width(n)], c, Item(text, n, NO_FIELD_WIDTH, SPACE, true));
  }

  lemma ZerosPrinted(c: Conversion, letter: string, arg: Arg, text: String, n: nat)
    requires Converts(c, letter, arg, text) && 0 < n < TWO64
    ensures Prints(WithNumber("%0", n, letter), [arg], Padded(DIGIT_0, n, text))
  {
    hide Prints, Padded, PlainText, Letter, ConversionText, ConversionArgs;
    TwoFlags(PadZero, Width(n));
    SameText(DEFAULT, WithFlag(WithFlag(DEFAULT, PadZero), Width(n)), c);
    PaddedPrints(WithNumber("%0", n, letter), [arg], [PadZero, Width(n)], c,
                 Item(text, n, NO_FIELD_WIDTH, DIGIT_0, true));
  }

  lemma DashPrinted(c: Conversion, letter: string, arg: Arg, text: String, n: nat)
    requires Converts(c, letter, arg, text) && 0 < n < TWO64
    ensures Prints(WithNumber("%-", n, letter), [arg], Padded(SPACE, n, text))
  {
    hide Prints, Padded, PlainText, Letter, ConversionText, ConversionArgs;
    TwoFlags(JustifyLeft, Width(n));
    SameText(DEFAULT, WithFlag(WithFlag(DEFAULT, JustifyLeft), Width(n)), c);
    PaddedPrints(WithNumber("%-", n, letter), [arg], [JustifyLeft, Width(n)], c,
                 Item(text, n, NO_FIELD_WIDTH, SPACE, false));
  }

  lemma StarPrinted(c: Conversion, letter: string, arg: Arg, text: String, n: nat)
    requires Converts(c, letter, arg, text) && 0 < n < TWO64
    ensures Prints(Ascii("%*" + letter), [Number(n), arg], Padded(SPACE, n, text))
  {
    hide Prints, Padded, PlainText, Letter, ConversionText, ConversionArgs;
    OneFlag(WidthArg(n));
    SameText(DEFAULT, WithFlag(DEFAULT, WidthArg(n)), c);
    PaddedPrints(Ascii("%*" + letter), [Number(n), arg], [WidthArg(n)], c, Item(text, n, NO_FIELD_WIDTH, SPACE, true));
  }

  lemma FieldPrinted(c: Conversion, letter: string, arg: Arg, text: String, n: nat)
    requires Converts(c, letter, arg, text) && 0 < n < NO_FIELD_WIDTH
    ensures Prints(WithNumber("%.", n, letter), [arg], InField(n, text, false))
  {
    hide Prints, InField, PlainText, Letter, ConversionText, ConversionArgs;
    TwoFlags(FieldNext, Width(n));
    SameText(DEFAULT, WithFlag(WithFlag(DEFAULT, FieldNext), Width(n)), c);
    FieldPrints(WithNumber("%.", n, letter), [arg], [FieldNext, Width(n)], c, Item(text, 0, n, SPACE, true));
  }

  lemma LeftFieldPrinted(c: Conversion, letter: string, arg: Arg, text: String, n: nat)
    requires Converts(c, letter, arg, text) && 0 < n < NO_FIELD_WIDTH
    ensures Prints(WithNumber("%-.", n, letter), [arg], InField(n, text, true))
  {
    hide Prints, InField, PlainText, Letter, ConversionText, ConversionArgs, WithNumber, WithFlag, Ascii;
    ThreeFlags(JustifyLeft, FieldNext, Width(n));
    LeftFieldSettings(n);
    LeftFieldFormat(n, letter, Letter(c));
    SameText(DEFAULT, WithFlag(WithFlag(WithFlag(DEFAULT, JustifyLeft), FieldNext), Width(n)), c);
    FieldPrints(WithNumber("%-.", n, letter), [arg], [JustifyLeft, FieldNext, Width(n)], c,
                Item(text, 0, n, SPACE, false));
  }

  lemma LeftFieldSettings(n: nat)
    requires n < NO_FIELD_WIDTH
    ensures WithFlag(WithFlag(WithFlag(DEFAULT, JustifyLeft), FieldNext), Width(n))
         == DEFAULT.(padBefore := false, inField := true, fieldWidth := n)
  {
  }

  lemma LeftFieldFormat(n: nat, letter: string, l: CHAR16)
    requires l != NUL && [l] == Ascii(letter)
    ensures WithNumber("%-.", n, letter) == [PERCENT] + ([DASH] + ([DOT] + PlainText(n))) + [l]
  {
    hide PlainText;
    assert Ascii("%-.") == [PERCENT, DASH, DOT];
  }

  lemma SameText(s: Settings, t: Settings, c: Conversion)
    requires ValidConversion(c) && s.long == t.long && s.comma == t.comma
    ensures ConversionText(s, c) == ConversionText(t, c)
  {
  }

  /** What width and padding mean for a number: spaces in front, or zeros after a 0; a dash changes nothing, and a star
      takes the width from the arguments. */
  lemma NumberWidths(v: nat, n: nat)
    requires v < TWO64 && 0 < n < TWO64
    ensures var t := DecimalText(v % TWO32, false);
      && Prints(WithNumber("%", n, "d"), [Number(v)], Padded(SPACE, n, t))
      && Prints(WithNumber("%0", n, "d"), [Number(v)], Padded(DIGIT_0, n, t))
      && Prints(WithNumber("%-", n, "d"), [Number(v)], Padded(SPACE, n, t))
      && Prints(Ascii("%*d"), [Number(n), Number(v)], Padded(SPACE, n, t))
    ensures var t := HexText(v % TWO32);
      && Prints(WithNumber("%", n, "x"), [Number(v)], Padded(SPACE, n, t))
      && Prints(WithNumber("%0", n, "x"), [Number(v)], Padded(DIGIT_0, n, t))
      && Prints(WithNumber("%-", n, "x"), [Number(v)], Padded(SPACE, n, t))
      && Prints(Ascii("%*x"), [Number(n), Number(v)], Padded(SPACE, n, t))
  {
    DecimalConverts(v);
    HexConverts(v);
    hide Prints, Padded, WithNumber, Ascii, DecimalText, HexText, Converts;
    var d, t := Decimal(v), DecimalText(v % TWO32, false);
    WidthPrinted(d, "d", Number(v), t, n);
    ZerosPrinted(d, "d", Number(v), t, n);
    DashPrinted(d, "d", Number(v), t, n);
    StarPrinted(d, "d", Number(v), t, n);
    var x, u := Hex(v), HexText(v % TWO32);
    WidthPrinted(x, "x", Number(v), u, n);
    ZerosPrinted(x, "x", Number(v), u, n);
    DashPrinted(x, "x", Number(v), u, n);
    StarPrinted(x, "x", Number(v), u, n);
    assert "%*" + "d" == "%*d" && "%*" + "x" == "%*x";
  }

  lemma DecimalConverts(v: nat)
    requires v < TWO64
    ensures Converts(Decimal(v), "d", Number(v), DecimalText(v % TWO32, false))
  {
    hide DecimalText;
  }

  lemma HexConverts(v: nat)
    requires v < TWO64
    ensures Converts(Hex(v), "x", Number(v), HexText(v % TWO32))
  {
    hide HexText;
  }

  // ---- Texts and characters ----

  lemma StringConverts(t: String)
    requires |t| < NO_FIELD_WIDTH
    ensures Converts(StringOf(LETTER_s, Pointer(t)), "s", Pointer(t), t)
  {
  }

  /** A string argument prints itself, and the null pointer a text in its place. */
  lemma StringPrinted(t: String)
    requires |t| < NO_FIELD_WIDTH
    ensures Prints(Ascii("%s"), [Pointer(t)], t) && Prints(Ascii("%a"), [Pointer(t)], t)
    ensures Prints(Ascii("%s"), [NullPointer], Ascii("(null)")) && Prints(Ascii("%a"), [NullPointer], Ascii("(null)"))
  {
    hide Prints;
    NoFlags();
    assert NULL_TEXT == Ascii("(null)");
    PaddedPrints(Ascii("%s"), [Pointer(t)], [], StringOf(LETTER_s, Pointer(t)),
                 Item(t, 0, NO_FIELD_WIDTH, SPACE, true));
    PaddedPrints(Ascii("%a"), [Pointer(t)], [], StringOf(LETTER_a, Pointer(t)),
                 Item(t, 0, NO_FIELD_WIDTH, SPACE, true));
    PaddedPrints(Ascii("%s"), [NullPointer], [], StringOf(LETTER_s, NullPointer),
                 Item(NULL_TEXT, 0, NO_FIELD_WIDTH, SPACE, true));
    PaddedPrints(Ascii("%a"), [NullPointer], [], StringOf(LETTER_a, NullPointer),
                 Item(NULL_TEXT, 0, NO_FIELD_WIDTH, SPACE, true));
  }

  /** A field shows the first n characters of a string, with spaces in front of a shorter one, or behind it after a
      dash; a width alone never cuts it. */
  lemma StringFields(t: String, n: nat)
    requires |t| < NO_FIELD_WIDTH && 0 < n < NO_FIELD_WIDTH
    ensures Prints(WithNumber("%.", n, "s"), [Pointer(t)], InField(n, t, false))
    ensures Prints(WithNumber("%-.", n, "s"), [Pointer(t)], InField(n, t, true))
    ensures Prints(WithNumber("%", n, "s"), [Pointer(t)], Padded(SPACE, n, t))
  {
    StringConverts(t);
    hide Prints, Padded, InField, WithNumber, Ascii, Converts;
    var c := StringOf(LETTER_s, Pointer(t));
    FieldPrinted(c, "s", Pointer(t), t, n);
    LeftFieldPrinted(c, "s", Pointer(t), t, n);
    WidthPrinted(c, "s", Pointer(t), t, n);
  }

  /** A character argument prints itself. */
  lemma CharacterPrinted(c: CHAR16)
    requires c != NUL
    ensures Prints(Ascii("%c"), [Number(c as nat)], [c])
  {
    hide Prints;
    NoFlags();
    PaddedPrints(Ascii("%c"), [Number(c as nat)], [], Character(c as nat), Item([c], 0, NO_FIELD_WIDTH, SPACE, true));
  }

  /** A doubled percent sign prints one. */
  lemma PercentPrinted()
    ensures Prints(Ascii("%%"), [], Ascii("%"))
  {
    hide Prints;
    NoFlags();
    assert Ascii("%") == [PERCENT];
    PaddedPrints(Ascii("%%"), [], [], Percent, Item([PERCENT], 0, NO_FIELD_WIDTH, SPACE, true));
  }

  /** An unknown letter prints a question mark. */
  lemma UnknownPrinted(letter: CHAR16)
    requires ValidConversion(UnknownLetter(letter))
    ensures Prints([PERCENT, letter], [], Ascii("?"))
  {
    hide Prints;
    NoFlags();
    assert Ascii("?") == [QUESTION];
    PaddedPrints([PERCENT, letter], [], [], UnknownLetter(letter),
                 Item([QUESTION], 0, NO_FIELD_WIDTH, SPACE, true));
  }

  // ---- Digits ----

  /** The digits themselves. */
  lemma DigitCharacters(d: nat)
    requires d < 16
    ensures HexChar(d) == Ascii("0123456789ABCDEF")[d]
    ensures d < 10 ==> DecChar(d) == Ascii("0123456789")[d]
  {
  }

  /** The hexadecimal parser reads both kinds of letters. */
  lemma DigitsParsed(d: nat)
    requires d < 16
    ensures var u, l := Ascii("0123456789ABCDEF")[d], Ascii("0123456789abcdef")[d];
      IsHex(u) && HexDigitValue(u) == d && IsHex(l) && HexDigitValue(l) == d
  {
  }

  /** Two digits, as times are printed. */
  lemma TwoDigits(v: nat)
    requires v < 100
    ensures Prints(Ascii("%02d"), [Number(v)], [Ascii("0123456789")[v / 10], Ascii("0123456789")[v % 10]])
  {
    hide Prints, Ascii, DecimalText, Padded, PlainText, DecChar;
    ZeroPadded(v);
    TwoDigitText(v);
    DigitCharacters(v / 10);
    DigitCharacters(v % 10);
  }

  lemma ZeroPadded(v: nat)
    requires v < 100
    ensures Prints(Ascii("%02d"), [Number(v)], Padded(DIGIT_0, 2, DecimalText(v, false)))
  {
    hide Prints, DecimalText, Padded, Converts, WithNumber, Ascii, PlainText, Digits;
    DecimalConverts(v);
    ZerosPrinted(Decimal(v), "d", Number(v), DecimalText(v % TWO32, false), 2);
    TwoDigitFormat();
  }

  lemma TwoDigitFormat()
    ensures WithNumber("%0", 2, "d") == Ascii("%02d")
  {
    hide PlainText;
    SmallText(2);
    assert Ascii("%0") + [DecChar(2)] + Ascii("d") == Ascii("%02d");
  }

  lemma SmallText(d: nat)
    requires 0 < d < 10
    ensures Digits(d, 10) == [d] && PlainText(d) == [DecChar(d)]
  {
    DigitsStep(d, 10);
    assert Digits(d / 10, 10) == [];
  }

  lemma TwoDigitText(v: nat)
    requires v < 100
    ensures Padded(DIGIT_0, 2, DecimalText(v, false)) == [DecChar(v / 10), DecChar(v % 10)]
  {
    var t := DecimalText(v, false);
    assert t == if v == 0 then [DIGIT_0] else [] + PlainText(v);
    if 0 < v < 10 {
      SmallText(v);
      hide Digits;
    } else if v >= 10 {
      DigitsStep(v, 10);
      SmallText(v / 10);
      hide Digits;
      assert PlainText(v) == [DecChar(v / 10), DecChar(v % 10)];
    }
  }
}
