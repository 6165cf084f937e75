/** Formats: what a format string says, piece by piece, and what printing it puts. */
module FormatText {
  import opened Bytes
  import opened Text
  import opened NumberText
  import opened NumberParse
  import opened PoolPrint

  const PERCENT: CHAR16 := 0x25
  const DOT: CHAR16 := 0x2E
  const LETTER_E: CHAR16 := 0x45
  const LETTER_H: CHAR16 := 0x48
  const LETTER_N: CHAR16 := 0x4E
  const LETTER_X: CHAR16 := 0x58
  const LETTER_a: CHAR16 := 0x61
  const LETTER_c: CHAR16 := 0x63
  const LETTER_d: CHAR16 := 0x64
  const LETTER_e: CHAR16 := 0x65
  const LETTER_g: CHAR16 := 0x67
  const LETTER_h: CHAR16 := 0x68
  const LETTER_l: CHAR16 := 0x6C
  const LETTER_n: CHAR16 := 0x6E
  const LETTER_r: CHAR16 := 0x72
  const LETTER_s: CHAR16 := 0x73
  const LETTER_t: CHAR16 := 0x74
  const LETTER_x: CHAR16 := 0x78
  const NULL_TEXT: String := [0x28, 0x6E, 0x75, 0x6C, 0x6C, 0x29]

  /** An argument of a print call: a number of up to 64 bits, a string or the null pointer, or something whose text
      another printer of the library makes. */
  datatype Arg = Number(v: nat) | Pointer(text: String) | NullPointer | Prepared(text: String)

  /** What may stand between the percent sign and the conversion. The arguments that they take are part of them. */
  datatype Flag =
    | PadZero
    | JustifyLeft
    | WithCommas
    | FieldNext
    | WidthArg(n: nat)
    | Width(n: nat)
    | Long
    | Attribute(letter: CHAR16)

  datatype Conversion =
    | Percent
    | StringOf(letter: CHAR16, arg: Arg)
    | Character(v: nat)
    | FixedHex(v: nat)
    | Hex(v: nat)
    | Decimal(v: nat)
    | Other(letter: CHAR16, arg: Arg)
    | UnknownLetter(letter: CHAR16)

  datatype Piece = Literal(c: CHAR16) | Directive(flags: seq<Flag>, conversion: Conversion)

  const ATTRIBUTES := {LETTER_n, LETTER_h, LETTER_e, LETTER_N, LETTER_H, LETTER_E}
  const CONVERSIONS := {PERCENT, LETTER_a, LETTER_s, LETTER_c, LETTER_X, LETTER_x, LETTER_d, LETTER_g, LETTER_t,
                        LETTER_r}

  predicate IsFlagLetter(c: CHAR16) {
    IsDecimal(c) || c in {DASH, COMMA, DOT, STAR, LETTER_l} || c in ATTRIBUTES
  }

  // ---- Well-formed pieces ----

  predicate ValidFlag(f: Flag) {
    match f
    case Width(n) => n > 0
    case WidthArg(n) => n < TWO64
    case Attribute(letter) => letter in ATTRIBUTES
    case _ => true
  }

  /** A number is over before the next flag begins. */
  predicate ValidFlags(fs: seq<Flag>) {
    if fs == [] then true
    else
      && ValidFlag(fs[0]) && ValidFlags(fs[1..])
      && (fs[0].Width? && |fs| > 1 ==> !fs[1].PadZero? && !fs[1].Width?)
  }

  predicate ValidConversion(c: Conversion) {
    match c
    case StringOf(letter, arg) =>
      && letter in {LETTER_a, LETTER_s}
      && (arg.NullPointer? || (arg.Pointer? && |arg.text| < NO_FIELD_WIDTH))
    case Character(v) => v < TWO64
    case FixedHex(v) => v < TWO64
    case Hex(v) => v < TWO64
    case Decimal(v) => v < TWO64
    case Other(letter, arg) => letter in {LETTER_g, LETTER_t, LETTER_r} && arg.Prepared? && |arg.text| < NO_FIELD_WIDTH
    case UnknownLetter(letter) => letter != NUL && letter !in CONVERSIONS && !IsFlagLetter(letter)
    case Percent => true
  }

  predicate ValidPiece(p: Piece) {
    match p
    case Literal(c) => c != NUL && c != PERCENT
    case Directive(flags, conversion) => ValidFlags(flags) && ValidConversion(conversion)
  }

  predicate ValidPieces(ps: seq<Piece>) {
    forall p | p in ps :: ValidPiece(p)
  }

  // ---- How they are written ----

  function FlagText(f: Flag): String
    requires ValidFlag(f)
  {
    match f
    case PadZero => [DIGIT_0]
    case JustifyLeft => [DASH]
    case WithCommas => [COMMA]
    case FieldNext => [DOT]
    case WidthArg(_) => [STAR]
    case Width(n) => PlainText(n)
    case Long => [LETTER_l]
    case Attribute(letter) => [letter]
  }

  function FlagsText(fs: seq<Flag>): String
    requires ValidFlags(fs)
  {
    if fs == [] then [] else FlagText(fs[0]) + FlagsText(fs[1..])
  }

  function Letter(c: Conversion): (l: CHAR16)
    requires ValidConversion(c)
    ensures l != NUL && !IsFlagLetter(l)
  {
    match c
    case Percent => PERCENT
    case StringOf(letter, _) => letter
    case Character(_) => LETTER_c
    case FixedHex(_) => LETTER_X
    case Hex(_) => LETTER_x
    case Decimal(_) => LETTER_d
    case Other(letter, _) => letter
    case UnknownLetter(letter) => letter
  }

  function PieceText(p: Piece): (s: String)
    requires ValidPiece(p)
    ensures s != []
  {
    match p
    case Literal(c) => [c]
    case Directive(flags, conversion) => [PERCENT] + FlagsText(flags) + [Letter(conversion)]
  }

  /** The format string of the pieces. */
  function FormatOf(ps: seq<Piece>): String
    requires ValidPieces(ps)
  {
    if ps == [] then [] else PieceText(ps[0]) + FormatOf(ps[1..])
  }

  function FlagArgs(f: Flag): seq<Arg> {
    if f.WidthArg? then [Number(f.n)] else []
  }

  function FlagsArgs(fs: seq<Flag>): seq<Arg> {
    if fs == [] then [] else FlagArgs(fs[0]) + FlagsArgs(fs[1..])
  }

  function ConversionArgs(c: Conversion): seq<Arg> {
    match c
    case StringOf(_, arg) => [arg]
    case Character(v) => [Number(v)]
    case FixedHex(v) => [Number(v)]
    case Hex(v) => [Number(v)]
    case Decimal(v) => [Number(v)]
    case Other(_, arg) => [arg]
    case _ => []
  }

  function PieceArgs(p: Piece): seq<Arg> {
    if p.Literal? then [] else FlagsArgs(p.flags) + ConversionArgs(p.conversion)
  }

  /** The arguments that the pieces take, in order. */
  function ArgsOf(ps: seq<Piece>): seq<Arg> {
    if ps == [] then [] else PieceArgs(ps[0]) + ArgsOf(ps[1..])
  }

  // ---- What they mean ----

  datatype Settings = Settings(width: nat, fieldWidth: nat, inField: bool, pad: CHAR16, padBefore: bool, comma: bool,
                               long: bool)

  const DEFAULT := Settings(0, NO_FIELD_WIDTH, false, SPACE, true, false, false)

  function WithWidth(s: Settings, n: nat): Settings {
    if s.inField then s.(fieldWidth := n) else s.(width := n)
  }

  /** A width written out is kept in a 64-bit word. */
  function WithFlag(s: Settings, f: Flag): Settings {
    match f
    case PadZero => s.(pad := DIGIT_0)
    case JustifyLeft => s.(padBefore := false)
    case WithCommas => s.(comma := true)
    case FieldNext => s.(inField := true)
    case WidthArg(n) => WithWidth(s, n)
    case Width(n) => WithWidth(s, n % TWO64)
    case Long => s.(long := true)
    case Attribute(_) => s
  }

  function WithFlags(s: Settings, fs: seq<Flag>): (r: Settings)
    requires s.pad != NUL
    ensures r.pad != NUL
    decreases |fs|
  {
    if fs == [] then s else WithFlags(WithFlag(s, fs[0]), fs[1..])
  }

  /** Without the long flag only 32 bits of a number are taken. */
  function Taken(v: nat, long: bool): (w: nat)
    ensures v < TWO64 ==> w < TWO64
  {
    if long then v else v % TWO32
  }

  /** The text of a conversion before padding. */
  function ConversionText(s: Settings, c: Conversion): String
    requires ValidConversion(c)
  {
    match c
    case Percent => [PERCENT]
    case StringOf(_, arg) => if arg.NullPointer? then NULL_TEXT else arg.text
    case Character(v) => if v % 0x1_0000 == 0 then [] else [(v % 0x1_0000) as CHAR16]
    case FixedHex(v) => HexText(Taken(v, s.long))
    case Hex(v) => HexText(Taken(v, s.long))
    case Decimal(v) => DecimalText(ToInt64(Taken(v, s.long)), s.comma)
    case Other(_, arg) => arg.text
    case UnknownLetter(_) => [QUESTION]
  }

  function ItemOf(s: Settings, c: Conversion): Item
    requires ValidConversion(c)
  {
    var text := ConversionText(s, c);
    if c.FixedHex? then Item(text, if s.long then 16 else 8, s.fieldWidth, DIGIT_0, s.padBefore)
    else Item(text, s.width, s.fieldWidth, s.pad, s.padBefore)
  }

  lemma DecimalTextShort(v: int, comma: bool)
    requires -TWO63 <= v < TWO63
    ensures |DecimalText(v, comma)| <= 41
  {
    Pow10();
    DigitsCount(Magnitude(v), 10, 20);
    GroupedAtMostDoubles(PlainText(Magnitude(v)), true);
  }

  lemma {:induction false} GroupedAtMostDoubles(s: String, first: bool)
    ensures |Grouped(s, first)| <= 2 * |s|
  {
    if s != [] {
      GroupedAtMostDoubles(s[1..], false);
    }
  }

  lemma HexTextShort(v: nat)
    requires v < TWO64
    ensures |HexText(v)| <= 16
  {
    Pow16();
    DigitsCount(v, 16, 16);
  }

  lemma ItemValid(s: Settings, c: Conversion)
    requires ValidConversion(c) && s.pad != NUL
    ensures ValidItem(ItemOf(s, c))
  {
    match c
    case FixedHex(v) => HexTextShort(Taken(v, s.long));
    case Hex(v) => HexTextShort(Taken(v, s.long));
    case Decimal(v) => DecimalTextShort(ToInt64(Taken(v, s.long)), s.comma);
    case _ =>
  }

  /** What printing a piece puts. */
  function PieceRendered(p: Piece): String
    requires ValidPiece(p)
  {
    match p
    case Literal(c) => [c]
    case Directive(flags, conversion) =>
      ItemValid(WithFlags(DEFAULT, flags), conversion);
      ItemText(ItemOf(WithFlags(DEFAULT, flags), conversion))
  }

  function Rendered(ps: seq<Piece>): String
    requires ValidPieces(ps)
  {
    if ps == [] then [] else PieceRendered(ps[0]) + Rendered(ps[1..])
  }

  // ---- Laws ----

  lemma {:induction false} RenderedConcat(a: seq<Piece>, b: seq<Piece>)
    requires ValidPieces(a) && ValidPieces(b)
    ensures ValidPieces(a + b) && Rendered(a + b) == Rendered(a) + Rendered(b)
  {
    hide ValidPiece, PieceRendered, ValidPieces, Rendered;
    ValidConcat(a, b);
    if a == [] {
      assert a + b == b;
      NothingRendered();
    } else {
      assert (a + b)[1..] == a[1..] + b;
      ValidTail(a);
      RenderedConcat(a[1..], b);
      RenderedFirst(a);
      RenderedFirst(a + b);
    }
  }

  lemma NothingRendered()
    ensures ValidPieces([]) && Rendered([]) == []
  {
  }

  lemma RenderedFirst(ps: seq<Piece>)
    requires ValidPieces(ps) && ps != []
    ensures ValidPiece(ps[0]) && ValidPieces(ps[1..]) && Rendered(ps) == PieceRendered(ps[0]) + Rendered(ps[1..])
  {
    hide ValidPiece, PieceRendered;
    ValidTail(ps);
  }

  /** A format made of two takes the arguments of both. */
  lemma {:induction false} FormatConcat(a: seq<Piece>, b: seq<Piece>)
    requires ValidPieces(a) && ValidPieces(b)
    ensures ValidPieces(a + b) && FormatOf(a + b) == FormatOf(a) + FormatOf(b)
    ensures ArgsOf(a + b) == ArgsOf(a) + ArgsOf(b)
  {
    hide ValidPiece, PieceText, PieceArgs, ValidPieces, FormatOf;
    ValidConcat(a, b);
    if a == [] {
      assert a + b == b;
      NoFormat();
    } else {
      assert (a + b)[1..] == a[1..] + b;
      ValidTail(a);
      FormatConcat(a[1..], b);
      FormatStep(a);
      FormatStep(a + b);
    }
  }

  lemma NoFormat()
    ensures ValidPieces([]) && FormatOf([]) == []
  {
  }

  lemma FormatStep(ps: seq<Piece>)
    requires ValidPieces(ps) && ps != []
    ensures ValidPiece(ps[0]) && ValidPieces(ps[1..]) && FormatOf(ps) == PieceText(ps[0]) + FormatOf(ps[1..])
  {
    hide ValidPiece, PieceText;
    ValidTail(ps);
  }

  lemma ValidConcat(a: seq<Piece>, b: seq<Piece>)
    requires ValidPieces(a) && ValidPieces(b)
    ensures ValidPieces(a + b)
  {
    hide ValidPiece;
  }

  lemma ValidTail(a: seq<Piece>)
    requires ValidPieces(a) && a != []
    ensures ValidPiece(a[0]) && ValidPieces(a[1..])
  {
    hide ValidPiece;
    assert a[0] in a && forall p | p in a[1..] :: p in a;
  }

  /** Without the long flag a decimal never comes out negative; with it, exactly the values from 2^63 on do. */
  lemma DecimalsUnsigned(v: nat, comma: bool)
    requires v < TWO64
    ensures DecimalText(ToInt64(Taken(v, false)), comma)[0] != DASH
    ensures DecimalText(ToInt64(Taken(v, true)), comma)[0] == DASH <==> v >= TWO63
  {
    hide DecimalText, ToInt64;
    SignOf(Taken(v, false));
    NoDash(Taken(v, false), comma);
    SignOf(v);
    if v < TWO63 {
      NoDash(v, comma);
    } else {
      Dash(ToInt64(v), comma);
    }
  }

  lemma SignOf(v: nat)
    requires v < TWO64
    ensures v < TWO63 ==> ToInt64(v) == v
    ensures v >= TWO63 ==> ToInt64(v) < 0
  {
  }

  lemma Dash(v: int, comma: bool)
    requires v < 0
    ensures DecimalText(v, comma) != [] && DecimalText(v, comma)[0] == DASH
  {
    hide Grouped, PlainText;
  }

  lemma NoDash(v: nat, comma: bool)
    ensures DecimalText(v, comma) != [] && DecimalText(v, comma)[0] != DASH
  {
    if v > 0 {
      DigitsStep(v, 10);
      assert PlainText(v) != [];
    }
  }
}
