/** 16-bit characters. A string in memory ends with a NUL; here it is the sequence of the characters before it. */
module Text {

  newtype CHAR16 = x: int | 0 <= x < 0x1_0000

  const NUL: CHAR16 := 0
  const NEWLINE: CHAR16 := 0x0A
  const CARRIAGE_RETURN: CHAR16 := 0x0D
  const SPACE: CHAR16 := 0x20
  const STAR: CHAR16 := 0x2A
  const COMMA: CHAR16 := 0x2C
  const DASH: CHAR16 := 0x2D
  const QUESTION: CHAR16 := 0x3F
  const OPEN_BRACKET: CHAR16 := 0x5B
  const CLOSE_BRACKET: CHAR16 := 0x5D
  const DIGIT_0: CHAR16 := 0x30
  const DIGIT_9: CHAR16 := 0x39
  const UPPER_A: CHAR16 := 0x41
  const UPPER_F: CHAR16 := 0x46
  const LOWER_A: CHAR16 := 0x61
  const LOWER_F: CHAR16 := 0x66

  type String = s: seq<CHAR16> | forall i | 0 <= i < |s| :: s[i] != NUL

  /** The character a pointer i characters into s points at. */
  function At(s: String, i: nat): (c: CHAR16)
    requires i <= |s|
    ensures c == NUL <==> i == |s|
  {
    if i < |s| then s[i] else NUL
  }
}
