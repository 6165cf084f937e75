/** That the checksum is CRC-32: its value on the standard check message, and the residue that every message leaves when
    its own checksum is put behind it. */
module CrcChecks {
  import opened Crc
  import opened TableHeader

  /** One byte, through the table. */
  lemma Fed(c: bv32, b: bv8, i: bv8, word: bv32, next: bv32)
    requires Index(c, b) == i && Lookup(i) == word && Xor(Shr8(c), word) == next
    ensures FeedBits(c, BitsOfByte(b)) == next
  {
    hide FeedBits, BitsOfByte, Lookup, Index, Xor, Shr8;
    TableStep(c, b);
  }

  lemma FedFirst(c: bv32, s: seq<bv8>)
    requires s != []
    ensures FeedBits(c, Bits(s)) == FeedBits(FeedBits(c, BitsOfByte(s[0])), Bits(s[1..]))
  {
    hide FeedBits, BitsOfByte;
    FeedBitsConcat(c, BitsOfByte(s[0]), Bits(s[1..]));
  }

  lemma FedAll(c: bv32)
    ensures FeedBits(c, Bits([])) == c
  {
  }

  // ---- The check value ----

  /** The digits 1 to 9 as ASCII characters. */
  const CHECK_MESSAGE: seq<bv8> := [0x31, 0x32, 0x33, 0x34, 0x35, 0x36, 0x37, 0x38, 0x39]

  lemma Check1()
    ensures FeedBits(0xFFFFFFFF, BitsOfByte(0x31)) == 0x7C231048
  {
    hide FeedBits, BitsOfByte;
    assert Lookup(0xCE) == 0x7CDCEFB7;
    Fed(0xFFFFFFFF, 0x31, 0xCE, 0x7CDCEFB7, 0x7C231048);
  }

  lemma Check2()
    ensures FeedBits(0x7C231048, BitsOfByte(0x32)) == 0xB0ACBB32
  {
    hide FeedBits, BitsOfByte;
    assert Lookup(0x7A) == 0xB0D09822;
    Fed(0x7C231048, 0x32, 0x7A, 0xB0D09822, 0xB0ACBB32);
  }

  lemma Check3()
    ensures FeedBits(0xB0ACBB32, BitsOfByte(0x33)) == 0x77B79C2D
  {
    hide FeedBits, BitsOfByte;
    assert Lookup(0x01) == 0x77073096;
    Fed(0xB0ACBB32, 0x33, 0x01, 0x77073096, 0x77B79C2D);
  }

  lemma Check4()
    ensures FeedBits(0x77B79C2D, BitsOfByte(0x34)) == 0x641C1F5C
  {
    hide FeedBits, BitsOfByte;
    assert Lookup(0x19) == 0x646BA8C0;
    Fed(0x77B79C2D, 0x34, 0x19, 0x646BA8C0, 0x641C1F5C);
  }

  lemma Check5()
    ensures FeedBits(0x641C1F5C, BitsOfByte(0x35)) == 0x340AC5E3
  {
    hide FeedBits, BitsOfByte;
    assert Lookup(0x69) == 0x346ED9FC;
    Fed(0x641C1F5C, 0x35, 0x69, 0x346ED9FC, 0x340AC5E3);
  }

  lemma Check6()
    ensures FeedBits(0x340AC5E3, BitsOfByte(0x36)) == 0xF68D2C9E
  {
    hide FeedBits, BitsOfByte;
    assert Lookup(0xD5) == 0xF6B9265B;
    Fed(0x340AC5E3, 0x36, 0xD5, 0xF6B9265B, 0xF68D2C9E);
  }

  lemma Check7()
    ensures FeedBits(0xF68D2C9E, BitsOfByte(0x37)) == 0xAFFC9660
  {
    hide FeedBits, BitsOfByte;
    assert Lookup(0xA9) == 0xAF0A1B4C;
    Fed(0xF68D2C9E, 0x37, 0xA9, 0xAF0A1B4C, 0xAFFC9660);
  }

  lemma Check8()
    ensures FeedBits(0xAFFC9660, BitsOfByte(0x38)) == 0x651F2550
  {
    hide FeedBits, BitsOfByte;
    assert Lookup(0x58) == 0x65B0D9C6;
    Fed(0xAFFC9660, 0x38, 0x58, 0x65B0D9C6, 0x651F2550);
  }

  lemma Check9()
    ensures FeedBits(0x651F2550, BitsOfByte(0x39)) == 0x340BC6D9
  {
    hide FeedBits, BitsOfByte;
    assert Lookup(0x69) == 0x346ED9FC;
    Fed(0x651F2550, 0x39, 0x69, 0x346ED9FC, 0x340BC6D9);
  }

  /** The value that implementations of CRC-32 are checked against. */
  lemma CheckValue()
    ensures Crc32(CHECK_MESSAGE) == 0xCBF43926
  {
    var s := CHECK_MESSAGE;
    hide FeedBits, BitsOfByte, Bits;
    FedFirst(0xFFFFFFFF, s[0..]);
    Check1();
    FedFirst(0x7C231048, s[1..]);
    Check2();
    FedFirst(0xB0ACBB32, s[2..]);
    Check3();
    FedFirst(0x77B79C2D, s[3..]);
    Check4();
    FedFirst(0x641C1F5C, s[4..]);
    Check5();
    FedFirst(0x340AC5E3, s[5..]);
    Check6();
    FedFirst(0xF68D2C9E, s[6..]);
    Check7();
    FedFirst(0xAFFC9660, s[7..]);
    Check8();
    FedFirst(0x651F2550, s[8..]);
    Check9();
    FedAll(0x340BC6D9);
    assert s[9..] == [] && s[0..] == s;
  }

  // ---- The residue ----

  lemma ShiftXor(x: bv32, d: bv32)
    ensures Shr8(Xor(x, d)) == Xor(Shr8(x), Shr8(d))
  {
  }

  lemma NextXor(x: bv32, d: bv32, word: bv32, next: bv32)
    requires Xor(Shr8(d), word) == next
    ensures Xor(Shr8(Xor(x, d)), word) == Xor(Shr8(x), next)
  {
    hide Xor, Shr8;
    ShiftXor(x, d);
    XorAssociates(Shr8(x), Shr8(d), word);
  }

  /** What is left of the register when k bytes of the checksum have been fed. */
  function Rest(r: bv32, k: nat): bv32 {
    if k == 0 then r else Shr8(Rest(r, k - 1))
  }

  lemma RestIsShift(r: bv32)
    ensures Rest(r, 0) == r && Rest(r, 1) == r >> 8 && Rest(r, 2) == r >> 16 && Rest(r, 3) == r >> 24 && Rest(r, 4) == 0
  {
    hide Shr8;
    Shifts(r);
    assert Rest(r, 0) == r;
    assert Rest(r, 1) == Shr8(Rest(r, 0));
    assert Rest(r, 2) == Shr8(Rest(r, 1));
    assert Rest(r, 3) == Shr8(Rest(r, 2));
    assert Rest(r, 4) == Shr8(Rest(r, 3));
  }

  lemma Shifts(r: bv32)
    ensures Shr8(r) == r >> 8 && Shr8(r >> 8) == r >> 16 && Shr8(r >> 16) == r >> 24 && Shr8(r >> 24) == 0
  {
  }

  lemma ResidueIndex1(r: bv32, x: bv32)
    requires x == r
    ensures Index(Xor(x, 0x00000000), Cut(r ^ ALL_ONES, 0)) == 0xFF
  {
  }

  lemma Residue1(r: bv32)
    ensures FeedBits(Xor(Rest(r, 0), 0x00000000), BitsOfByte(Cut(r ^ ALL_ONES, 0))) == Xor(Rest(r, 1), 0x2D02EF8D)
  {
    assert Lookup(0xFF) == 0x2D02EF8D && Xor(Shr8(0x00000000), 0x2D02EF8D) == 0x2D02EF8D;
    RestIsShift(r);
    ResidueIndex1(r, Rest(r, 0));
    hide FeedBits, BitsOfByte, Index, Xor, Shr8, Cut, Lookup;
    var x, b := Rest(r, 0), Cut(r ^ ALL_ONES, 0);
    NextXor(x, 0x00000000, 0x2D02EF8D, 0x2D02EF8D);
    Fed(Xor(x, 0x00000000), b, 0xFF, 0x2D02EF8D, Xor(Shr8(x), 0x2D02EF8D));
  }

  lemma ResidueIndex2(r: bv32, x: bv32)
    requires x == r >> 8
    ensures Index(Xor(x, 0x2D02EF8D), Cut(r ^ ALL_ONES, 8)) == 0x72
  {
  }

  lemma Residue2(r: bv32)
    ensures FeedBits(Xor(Rest(r, 1), 0x2D02EF8D), BitsOfByte(Cut(r ^ ALL_ONES, 8))) == Xor(Rest(r, 2), 0xBE2612FF)
  {
    assert Lookup(0x72) == 0xBE0B1010 && Xor(Shr8(0x2D02EF8D), 0xBE0B1010) == 0xBE2612FF;
    RestIsShift(r);
    ResidueIndex2(r, Rest(r, 1));
    hide FeedBits, BitsOfByte, Index, Xor, Shr8, Cut, Lookup;
    var x, b := Rest(r, 1), Cut(r ^ ALL_ONES, 8);
    NextXor(x, 0x2D02EF8D, 0xBE0B1010, 0xBE2612FF);
    Fed(Xor(x, 0x2D02EF8D), b, 0x72, 0xBE0B1010, Xor(Shr8(x), 0xBE2612FF));
  }

  lemma ResidueIndex3(r: bv32, x: bv32)
    requires x == r >> 16
    ensures Index(Xor(x, 0xBE2612FF), Cut(r ^ ALL_ONES, 16)) == 0x00
  {
  }

  lemma Residue3(r: bv32)
    ensures FeedBits(Xor(Rest(r, 2), 0xBE2612FF), BitsOfByte(Cut(r ^ ALL_ONES, 16))) == Xor(Rest(r, 3), 0x00BE2612)
  {
    assert Lookup(0x00) == 0x00000000 && Xor(Shr8(0xBE2612FF), 0x00000000) == 0x00BE2612;
    RestIsShift(r);
    ResidueIndex3(r, Rest(r, 2));
    hide FeedBits, BitsOfByte, Index, Xor, Shr8, Cut, Lookup;
    var x, b := Rest(r, 2), Cut(r ^ ALL_ONES, 16);
    NextXor(x, 0xBE2612FF, 0x00000000, 0x00BE2612);
    Fed(Xor(x, 0xBE2612FF), b, 0x00, 0x00000000, Xor(Shr8(x), 0x00BE2612));
  }

  lemma ResidueIndex4(r: bv32, x: bv32)
    requires x == r >> 24
    ensures Index(Xor(x, 0x00BE2612), Cut(r ^ ALL_ONES, 24)) == 0xED
  {
  }

  lemma Residue4(r: bv32)
    ensures FeedBits(Xor(Rest(r, 3), 0x00BE2612), BitsOfByte(Cut(r ^ ALL_ONES, 24))) == Xor(Rest(r, 4), 0xDEBB20E3)
  {
    assert Lookup(0xED) == 0xDEBB9EC5 && Xor(Shr8(0x00BE2612), 0xDEBB9EC5) == 0xDEBB20E3;
    RestIsShift(r);
    ResidueIndex4(r, Rest(r, 3));
    hide FeedBits, BitsOfByte, Index, Xor, Shr8, Cut, Lookup;
    var x, b := Rest(r, 3), Cut(r ^ ALL_ONES, 24);
    NextXor(x, 0x00BE2612, 0xDEBB9EC5, 0xDEBB20E3);
    Fed(Xor(x, 0x00BE2612), b, 0xED, 0xDEBB9EC5, Xor(Shr8(x), 0xDEBB20E3));
  }

  /** Every message with its own checksum behind it, lowest byte first, has the same checksum. */
  lemma Residue(s: seq<bv8>)
    ensures Crc32(s + Little(Crc32(s))) == 0x2144DF1C
  {
    var r := FeedBits(ALL_ONES, Bits(s));
    var t := Little(Crc32(s));
    assert Crc32(s) == r ^ ALL_ONES;
    RestIsShift(r);
    XorZero(r);
    XorZero(0xDEBB20E3);
    XorCommutes(0, 0xDEBB20E3);
    assert Xor(0xDEBB20E3, ALL_ONES) == 0x2144DF1C;
    hide FeedBits, BitsOfByte, Bits, Cut, Xor, Rest;
    BitsConcat(s, t);
    FeedBitsConcat(ALL_ONES, Bits(s), Bits(t));
    assert t[1..][1..] == t[2..] && t[2..][1..] == t[3..] && t[3..][1..] == [];
    Residue1(r);
    Residue2(r);
    Residue3(r);
    Residue4(r);
    FedFirst(r, t);
    FedFirst(Xor(Rest(r, 1), 0x2D02EF8D), t[1..]);
    FedFirst(Xor(Rest(r, 2), 0xBE2612FF), t[2..]);
    FedFirst(Xor(Rest(r, 3), 0x00BE2612), t[3..]);
    FedAll(0xDEBB20E3);
  }
}
