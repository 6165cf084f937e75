/** CRC-32 as the EFI library computes it over table headers. The definition shifts the message through the
    reflected polynomial one bit at a time; the library's byte-wise table walk is proved equal to it.

    Lemmas that chain many register steps hide the bit operations, so that the solver reasons about them through
    the small facts stated next to them and not bit by bit. */
module Crc {

  // ---- The bit-at-a-time definition (section 8 of RFC 1952) ----

  const POLYNOMIAL: bv32 := 0xEDB88320
  const ALL_ONES: bv32 := 0xFFFFFFFF

  function Xor(x: bv32, y: bv32): bv32 {
    x ^ y
  }

  function Half(x: bv32): bv32 {
    x >> 1
  }

  function Tap(c: bv32): bv32 {
    if c & 1 == 1 then POLYNOMIAL else 0
  }

  function BitShift(c: bv32): bv32 {
    Half(c) ^ Tap(c)
  }

  function BitValue(bit: bool): bv32 {
    if bit then 1 else 0
  }

  /** The register after the message bits have been shifted in, first bit first. */
  function FeedBits(c: bv32, bits: seq<bool>): bv32
    decreases |bits|
  {
    if bits == [] then c else FeedBits(BitShift(Xor(c, BitValue(bits[0]))), bits[1..])
  }

  /** A byte's bits, least significant first. */
  function BitsOfByte(b: bv8): seq<bool> {
    [b & 1 == 1, (b >> 1) & 1 == 1, (b >> 2) & 1 == 1, (b >> 3) & 1 == 1,
     (b >> 4) & 1 == 1, (b >> 5) & 1 == 1, (b >> 6) & 1 == 1, (b >> 7) & 1 == 1]
  }

  function Bits(s: seq<bv8>): seq<bool> {
    if s == [] then [] else BitsOfByte(s[0]) + Bits(s[1..])
  }

  function Crc32(s: seq<bv8>): bv32 {
    Xor(FeedBits(ALL_ONES, Bits(s)), ALL_ONES)
  }

  lemma {:induction false} FeedBitsConcat(c: bv32, x: seq<bool>, y: seq<bool>)
    ensures FeedBits(c, x + y) == FeedBits(FeedBits(c, x), y)
    decreases |x|
  {
    hide Xor, BitShift, BitValue;
    if x == [] {
      assert x + y == y;
    } else {
      assert (x + y)[1..] == x[1..] + y;
      FeedBitsConcat(BitShift(Xor(c, BitValue(x[0]))), x[1..], y);
    }
  }

  lemma {:induction false} BitsConcat(s: seq<bv8>, t: seq<bv8>)
    ensures Bits(s + t) == Bits(s) + Bits(t)
  {
    hide BitsOfByte;
    if s == [] {
      assert s + t == t;
    } else {
      assert (s + t)[1..] == s[1..] + t;
      BitsConcat(s[1..], t);
    }
  }

  // ---- Facts about one shift ----

  lemma XorCancel(x: bv32, y: bv32, z: bv32)
    requires Xor(x, z) == Xor(y, z)
    ensures x == y
  {
  }

  lemma XorSelf(x: bv32)
    ensures Xor(x, x) == 0
  {
  }

  lemma XorZero(x: bv32)
    ensures Xor(x, 0) == x
  {
  }

  lemma RawXorAssociates(a: bv32, b: bv32, c: bv32)
    ensures a ^ (b ^ c) == (a ^ b) ^ c
  {
  }

  lemma RawXorCommutes(a: bv32, b: bv32)
    ensures a ^ b == b ^ a
  {
  }

  lemma XorAssociates(a: bv32, b: bv32, c: bv32)
    ensures Xor(a, Xor(b, c)) == Xor(Xor(a, b), c)
  {
    RawXorAssociates(a, b, c);
  }

  lemma XorCommutes(a: bv32, b: bv32)
    ensures Xor(a, b) == Xor(b, a)
  {
    RawXorCommutes(a, b);
  }

  lemma XorRotate(a: bv32, b: bv32, c: bv32)
    ensures Xor(a, Xor(b, c)) == Xor(c, Xor(a, b))
  {
    hide Xor;
    XorAssociates(a, b, c);
    XorCommutes(Xor(a, b), c);
  }

  lemma BitShiftInjective(x: bv32, y: bv32)
    requires BitShift(x) == BitShift(y)
    ensures x == y
  {
  }

  predicate Odd(x: bv32) {
    x & 1 == 1
  }

  predicate TopBit(x: bv32) {
    x >> 31 == 1
  }

  /** The polynomial's top bit is set, so the difference of two shifted registers shows in its top bit whether
      their lowest bits differed; if they agreed, the difference has only moved down one place. */
  lemma ShiftedDifference(x: bv32, y: bv32)
    requires !TopBit(Xor(BitShift(x), BitShift(y)))
    ensures !Odd(Xor(x, y))
    ensures Half(Xor(x, y)) == Xor(BitShift(x), BitShift(y))
  {
  }

  lemma XorPairs(c: bv32, p: bv32, d: bv32, q: bv32)
    ensures Xor(Xor(c, p), Xor(d, q)) == Xor(Xor(c, d), Xor(p, q))
  {
    hide Xor;
    XorAssociates(Xor(c, p), d, q);
    XorCommutes(c, p);
    XorAssociates(p, c, d);
    XorCommutes(p, Xor(c, d));
    XorAssociates(Xor(c, d), p, q);
  }

  lemma HalfOfXor(x: bv32, y: bv32)
    ensures Half(Xor(x, y)) == Xor(Half(x), Half(y))
  {
  }

  lemma HalfOfBits(b: bool, e: bool)
    ensures Half(Xor(BitValue(b), BitValue(e))) == 0
  {
  }

  lemma DifferenceBeforeBit(c: bv32, d: bv32, b: bool, e: bool)
    ensures Half(Xor(Xor(c, BitValue(b)), Xor(d, BitValue(e)))) == Half(Xor(c, d))
  {
    hide Xor, Half, BitValue;
    XorPairs(c, BitValue(b), d, BitValue(e));
    HalfOfXor(Xor(c, d), Xor(BitValue(b), BitValue(e)));
    HalfOfBits(b, e);
    XorZero(Half(Xor(c, d)));
  }

  lemma EqualLowBits(c: bv32, b: bool, e: bool)
    requires !Odd(Xor(Xor(c, BitValue(b)), Xor(c, BitValue(e))))
    ensures b == e
  {
  }

  // ---- Burst detection ----

  /** Only the n lowest bits of p may be set. */
  ghost predicate Fits(p: bv32, n: nat)
    decreases n
  {
    if n == 0 then p == 0 else Fits(Half(p), n - 1)
  }

  lemma {:induction false} ZeroFits(n: nat)
    ensures Fits(0, n)
  {
    if n > 0 {
      assert Half(0) == 0;
      ZeroFits(n - 1);
    }
  }

  lemma {:induction false} FitsWider(p: bv32, n: nat, m: nat)
    requires Fits(p, n) && n <= m
    ensures Fits(p, m)
    decreases n
  {
    hide Half;
    if n > 0 {
      FitsWider(Half(p), n - 1, m - 1);
    } else {
      ZeroFits(m);
    }
  }

  function Half8(p: bv32): bv32 {
    Half(Half(Half(Half(Half(Half(Half(Half(p))))))))
  }

  lemma FitsHalf8(p: bv32, n: nat)
    requires Fits(p, n + 8)
    ensures Fits(Half8(p), n)
  {
    hide Half;
    var q := Half(Half(Half(Half(p))));
    assert Fits(Half(p), n + 7) && Fits(Half(Half(p)), n + 6) && Fits(Half(Half(Half(p))), n + 5) && Fits(q, n + 4);
    assert Fits(Half(q), n + 3) && Fits(Half(Half(q)), n + 2) && Fits(Half(Half(Half(q))), n + 1);
  }

  lemma TopBitFromHalves(p: bv32)
    requires Half8(Half8(Half8(Half(Half(Half(Half(Half(Half(Half(p)))))))))) == 0
    ensures !TopBit(p)
  {
  }

  lemma TopBitClear(p: bv32, n: nat)
    requires Fits(p, n) && n <= 31
    ensures !TopBit(p)
  {
    hide Half, Half8, TopBit;
    FitsWider(p, n, 31);
    var q := Half(Half(Half(Half(p))));
    assert Fits(Half(p), 30) && Fits(Half(Half(p)), 29) && Fits(Half(Half(Half(p))), 28) && Fits(q, 27);
    assert Fits(Half(q), 26) && Fits(Half(Half(q)), 25) && Fits(Half(Half(Half(q))), 24);
    var r := Half(Half(Half(q)));
    FitsHalf8(r, 16);
    FitsHalf8(Half8(r), 8);
    FitsHalf8(Half8(Half8(r)), 0);
    TopBitFromHalves(p);
  }

  /** Two registers that end up equal after n further bits, n at most 31, differed in their n lowest bits only. */
  lemma {:induction false} DifferenceFits(c: bv32, d: bv32, u: seq<bool>, v: seq<bool>)
    requires |u| == |v| <= 31
    requires FeedBits(c, u) == FeedBits(d, v)
    ensures Fits(Xor(c, d), |u|)
    decreases |u|
  {
    hide Xor, Half, BitShift, BitValue, TopBit;
    if u == [] {
      XorSelf(c);
    } else {
      var x, y := Xor(c, BitValue(u[0])), Xor(d, BitValue(v[0]));
      DifferenceFits(BitShift(x), BitShift(y), u[1..], v[1..]);
      TopBitClear(Xor(BitShift(x), BitShift(y)), |u| - 1);
      ShiftedDifference(x, y);
      DifferenceBeforeBit(c, d, u[0], v[0]);
    }
  }

  /** Up to 32 bits fed into the same register are determined by what they leave in it. */
  lemma {:induction false} WindowInjective(c: bv32, u: seq<bool>, v: seq<bool>)
    requires |u| == |v| <= 32
    requires FeedBits(c, u) == FeedBits(c, v)
    ensures u == v
    decreases |u|
  {
    hide Xor, Half, BitShift, BitValue, TopBit, Odd;
    if u != [] {
      var x, y := Xor(c, BitValue(u[0])), Xor(c, BitValue(v[0]));
      DifferenceFits(BitShift(x), BitShift(y), u[1..], v[1..]);
      TopBitClear(Xor(BitShift(x), BitShift(y)), |u| - 1);
      ShiftedDifference(x, y);
      EqualLowBits(c, u[0], v[0]);
      WindowInjective(BitShift(x), u[1..], v[1..]);
      assert u == [u[0]] + u[1..] && v == [v[0]] + v[1..];
    }
  }

  /** Nothing that follows can hide a difference already in the register. */
  lemma {:induction false} FeedBitsInjective(c: bv32, d: bv32, bits: seq<bool>)
    requires FeedBits(c, bits) == FeedBits(d, bits)
    ensures c == d
    decreases |bits|
  {
    hide Xor, BitShift, BitValue;
    if bits != [] {
      var b := BitValue(bits[0]);
      FeedBitsInjective(BitShift(Xor(c, b)), BitShift(Xor(d, b)), bits[1..]);
      BitShiftInjective(Xor(c, b), Xor(d, b));
      XorCancel(c, d, b);
    }
  }

  /** Two messages that differ only inside one window of at most 32 bits leave different registers. */
  lemma BitBurstDetected(c: bv32, before: seq<bool>, u: seq<bool>, v: seq<bool>, after: seq<bool>)
    requires |u| == |v| <= 32
    requires u != v
    ensures FeedBits(c, before + u + after) != FeedBits(c, before + v + after)
  {
    hide FeedBits;
    FeedBitsConcat(c, before + u, after);
    FeedBitsConcat(c, before + v, after);
    FeedBitsConcat(c, before, u);
    FeedBitsConcat(c, before, v);
    if FeedBits(c, before + u + after) == FeedBits(c, before + v + after) {
      FeedBitsInjective(FeedBits(c, before + u), FeedBits(c, before + v), after);
      WindowInjective(FeedBits(c, before), u, v);
    }
  }

  lemma BitsOfByteInjective(b: bv8, e: bv8)
    requires BitsOfByte(b) == BitsOfByte(e)
    ensures b == e
  {
    var x, y := BitsOfByte(b), BitsOfByte(e);
    assert x[0] == y[0] && x[1] == y[1] && x[2] == y[2] && x[3] == y[3];
    assert x[4] == y[4] && x[5] == y[5] && x[6] == y[6] && x[7] == y[7];
  }

  lemma {:induction false} BitsInjective(s: seq<bv8>, t: seq<bv8>)
    requires |s| == |t| && Bits(s) == Bits(t)
    ensures s == t
  {
    if s != [] {
      assert Bits(s)[..8] == BitsOfByte(s[0]) && Bits(t)[..8] == BitsOfByte(t[0]);
      assert Bits(s)[8..] == Bits(s[1..]) && Bits(t)[8..] == Bits(t[1..]);
      BitsOfByteInjective(s[0], t[0]);
      BitsInjective(s[1..], t[1..]);
      assert s == [s[0]] + s[1..] && t == [t[0]] + t[1..];
    }
  }

  lemma {:induction false} BitsLength(s: seq<bv8>)
    ensures |Bits(s)| == 8 * |s|
  {
    if s != [] {
      BitsLength(s[1..]);
    }
  }

  /** s and t differ, but only inside the four bytes that start at index at. */
  ghost predicate DifferWithin(s: seq<bv8>, t: seq<bv8>, at: nat) {
    |s| == |t| && s != t && forall k | 0 <= k < |s| && !(at <= k < at + 4) :: s[k] == t[k]
  }

  lemma BurstDetected(s: seq<bv8>, t: seq<bv8>, at: nat)
    requires DifferWithin(s, t, at)
    ensures Crc32(s) != Crc32(t)
  {
    hide Xor, Bits, FeedBits;
    var lo := if at <= |s| then at else |s|;
    var hi := if at + 4 <= |s| then at + 4 else |s|;
    var before, u, v, after := s[..lo], s[lo..hi], t[lo..hi], s[hi..];
    assert s == before + u + after;
    assert t == before + v + after;
    BitsConcat(before + u, after);
    BitsConcat(before + v, after);
    BitsConcat(before, u);
    BitsConcat(before, v);
    BitsLength(u);
    BitsLength(v);
    if Bits(u) == Bits(v) {
      BitsInjective(u, v);
    }
    BitBurstDetected(ALL_ONES, Bits(before), Bits(u), Bits(v), Bits(after));
    if Crc32(s) == Crc32(t) {
      XorCancel(FeedBits(ALL_ONES, Bits(s)), FeedBits(ALL_ONES, Bits(t)), ALL_ONES);
    }
  }

  // ---- Shifting whole nibbles and bytes ----

  function NibbleShift(c: bv32): bv32 {
    BitShift(BitShift(BitShift(BitShift(c))))
  }

  function ByteShift(c: bv32): bv32 {
    NibbleShift(NibbleShift(c))
  }

  function LowBit(x: bv32): bv32 {
    x & 1
  }

  function LowNibble(x: bv32): bv32 {
    x & 0xF
  }

  function LowByte(x: bv32): bv32 {
    x & 0xFF
  }

  function Shr4(x: bv32): bv32 {
    x >> 4
  }

  function Shr8(x: bv32): bv32 {
    x >> 8
  }

  lemma RawXorPastShift(c: bv32, q: bv32, x: bv32, y: bv32, h: bv32)
    requires x == c ^ q && y == c ^ (q & 1) && h == q >> 1
    ensures BitShift(x) == BitShift(y) ^ h
  {
  }

  /** The bits of q above its lowest one can be XORed in before the shift, or one place lower after it. */
  lemma XorPastShift(c: bv32, q: bv32)
    ensures BitShift(Xor(c, q)) == Xor(BitShift(Xor(c, LowBit(q))), Half(q))
  {
    hide BitShift;
    RawXorPastShift(c, q, Xor(c, q), Xor(c, LowBit(q)), Half(q));
  }

  lemma BitsOfByteAreLowBits(b: bv8)
    ensures var q := b as bv32; var q4 := Half(Half(Half(Half(q)))); var bits := BitsOfByte(b);
      && BitValue(bits[0]) == LowBit(q) && BitValue(bits[1]) == LowBit(Half(q))
      && BitValue(bits[2]) == LowBit(Half(Half(q))) && BitValue(bits[3]) == LowBit(Half(Half(Half(q))))
      && BitValue(bits[4]) == LowBit(q4) && BitValue(bits[5]) == LowBit(Half(q4))
      && BitValue(bits[6]) == LowBit(Half(Half(q4))) && BitValue(bits[7]) == LowBit(Half(Half(Half(q4))))
      && Half(Half(Half(Half(q4)))) == 0
  {
  }

  lemma FeedFour(c: bv32, bits: seq<bool>)
    requires |bits| >= 4
    ensures var c1 := BitShift(Xor(c, BitValue(bits[0])));
      var c2 := BitShift(Xor(c1, BitValue(bits[1])));
      var c3 := BitShift(Xor(c2, BitValue(bits[2])));
      FeedBits(c, bits) == FeedBits(BitShift(Xor(c3, BitValue(bits[3]))), bits[4..])
  {
    hide Xor, BitShift, BitValue;
    assert bits[1..][1..] == bits[2..] && bits[2..][1..] == bits[3..] && bits[3..][1..] == bits[4..];
    var c1 := BitShift(Xor(c, BitValue(bits[0])));
    var c2 := BitShift(Xor(c1, BitValue(bits[1])));
    var c3 := BitShift(Xor(c2, BitValue(bits[2])));
    assert FeedBits(c, bits) == FeedBits(c1, bits[1..]);
    assert FeedBits(c1, bits[1..]) == FeedBits(c2, bits[2..]);
    assert FeedBits(c2, bits[2..]) == FeedBits(c3, bits[3..]);
  }

  lemma FourShifts(c: bv32, q: bv32)
    ensures var c1 := BitShift(Xor(c, LowBit(q)));
      var c2 := BitShift(Xor(c1, LowBit(Half(q))));
      var c3 := BitShift(Xor(c2, LowBit(Half(Half(q)))));
      Xor(BitShift(Xor(c3, LowBit(Half(Half(Half(q)))))), Half(Half(Half(Half(q))))) == NibbleShift(Xor(c, q))
  {
    hide Xor, BitShift, Half, LowBit;
    XorPastShift(c, q);
    var c1 := BitShift(Xor(c, LowBit(q)));
    XorPastShift(c1, Half(q));
    var c2 := BitShift(Xor(c1, LowBit(Half(q))));
    XorPastShift(c2, Half(Half(q)));
    var c3 := BitShift(Xor(c2, LowBit(Half(Half(q)))));
    XorPastShift(c3, Half(Half(Half(q))));
  }

  /** Feeding a byte bit by bit is XORing it into the register and shifting eight times. */
  lemma FeedByteIsShifts(c: bv32, b: bv8)
    ensures FeedBits(c, BitsOfByte(b)) == ByteShift(Xor(c, b as bv32))
  {
    hide Xor, BitShift, Half, LowBit, BitsOfByte, NibbleShift, BitValue;
    var q, bits := b as bv32, BitsOfByte(b);
    assert |bits| == 8 by {
      ByteHasEightBits(b);
    }
    BitsOfByteAreLowBits(b);
    FeedFour(c, bits);
    FourShifts(c, q);
    var q4 := Half(Half(Half(Half(q))));
    var c1 := BitShift(Xor(c, LowBit(q)));
    var c2 := BitShift(Xor(c1, LowBit(Half(q))));
    var c3 := BitShift(Xor(c2, LowBit(Half(Half(q)))));
    var d := BitShift(Xor(c3, LowBit(Half(Half(Half(q))))));
    FeedFour(d, bits[4..]);
    FourShifts(d, q4);
    assert bits[4..][4..] == [];
    XorZero(FeedBits(c, bits));
  }

  lemma ByteHasEightBits(b: bv8)
    ensures |BitsOfByte(b)| == 8
  {
  }

  lemma TapOfEven(c: bv32, q: bv32)
    requires !Odd(q)
    ensures Tap(Xor(c, q)) == Tap(c)
  {
  }

  lemma BitShiftUnfolds(c: bv32)
    ensures BitShift(c) == Xor(Half(c), Tap(c))
  {
  }

  lemma EvenXorPastShift(c: bv32, q: bv32)
    requires !Odd(q)
    ensures BitShift(Xor(c, q)) == Xor(BitShift(c), Half(q))
  {
    hide Xor, Half, Tap, BitShift, Odd;
    BitShiftUnfolds(Xor(c, q));
    BitShiftUnfolds(c);
    TapOfEven(c, q);
    HalfOfXor(c, q);
    XorRotate(Tap(c), Half(c), Half(q));
    XorCommutes(Xor(Half(c), Half(q)), Tap(c));
    XorCommutes(Tap(c), Half(c));
    XorCommutes(Half(q), Xor(Half(c), Tap(c)));
  }

  function HighPart(c: bv32): bv32 {
    c & 0xFFFFFFF0
  }

  lemma HighPartFacts(c: bv32)
    ensures var q := HighPart(c); !Odd(q) && !Odd(Half(q)) && !Odd(Half(Half(q))) && !Odd(Half(Half(Half(q))))
    ensures Half(Half(Half(Half(HighPart(c))))) == Shr4(c)
  {
  }

  lemma NibbleAndHighPart(c: bv32)
    ensures Xor(LowNibble(c), HighPart(c)) == c
  {
  }

  lemma NibbleSplit(c: bv32)
    ensures NibbleShift(c) == Xor(NibbleShift(LowNibble(c)), Shr4(c))
  {
    hide Xor, BitShift, Half, Odd, LowNibble, HighPart, Shr4;
    var n, q := LowNibble(c), HighPart(c);
    HighPartFacts(c);
    NibbleAndHighPart(c);
    EvenXorPastShift(n, q);
    EvenXorPastShift(BitShift(n), Half(q));
    EvenXorPastShift(BitShift(BitShift(n)), Half(Half(q)));
    EvenXorPastShift(BitShift(BitShift(BitShift(n))), Half(Half(Half(q))));
  }

  lemma SecondNibble(n: bv32, x: bv32)
    ensures LowNibble(Xor(n, Shr4(x))) == LowNibble(Xor(n, Shr4(LowByte(x))))
    ensures Shr4(Xor(n, Shr4(x))) == Xor(Shr4(Xor(n, Shr4(LowByte(x)))), Shr8(x))
    ensures LowNibble(LowByte(x)) == LowNibble(x)
  {
  }

  lemma ByteSplit(x: bv32)
    ensures ByteShift(x) == Xor(Shr8(x), ByteShift(LowByte(x)))
  {
    hide Xor, NibbleShift, LowNibble, LowByte, Shr4, Shr8;
    var n := NibbleShift(LowNibble(x));
    var y, z := Xor(n, Shr4(x)), Xor(n, Shr4(LowByte(x)));
    NibbleSplit(x);
    NibbleSplit(LowByte(x));
    SecondNibble(n, x);
    NibbleSplit(y);
    NibbleSplit(z);
    XorRotate(NibbleShift(LowNibble(z)), Shr4(z), Shr8(x));
  }

  // ---- The table ----

  /** The library's 256 words, sixteen to a row: word i is CRC_TABLE[i >> 4][i & 0xF]. */
  const CRC_TABLE: seq<seq<bv32>> := [
    [0x00000000, 0x77073096, 0xEE0E612C, 0x990951BA, 0x076DC419, 0x706AF48F, 0xE963A535, 0x9E6495A3,
     0x0EDB8832, 0x79DCB8A4, 0xE0D5E91E, 0x97D2D988, 0x09B64C2B, 0x7EB17CBD, 0xE7B82D07, 0x90BF1D91],
    [0x1DB71064, 0x6AB020F2, 0xF3B97148, 0x84BE41DE, 0x1ADAD47D, 0x6DDDE4EB, 0xF4D4B551, 0x83D385C7,
     0x136C9856, 0x646BA8C0, 0xFD62F97A, 0x8A65C9EC, 0x14015C4F, 0x63066CD9, 0xFA0F3D63, 0x8D080DF5],
    [0x3B6E20C8, 0x4C69105E, 0xD56041E4, 0xA2677172, 0x3C03E4D1, 0x4B04D447, 0xD20D85FD, 0xA50AB56B,
     0x35B5A8FA, 0x42B2986C, 0xDBBBC9D6, 0xACBCF940, 0x32D86CE3, 0x45DF5C75, 0xDCD60DCF, 0xABD13D59],
    [0x26D930AC, 0x51DE003A, 0xC8D75180, 0xBFD06116, 0x21B4F4B5, 0x56B3C423, 0xCFBA9599, 0xB8BDA50F,
     0x2802B89E, 0x5F058808, 0xC60CD9B2, 0xB10BE924, 0x2F6F7C87, 0x58684C11, 0xC1611DAB, 0xB6662D3D],
    [0x76DC4190, 0x01DB7106, 0x98D220BC, 0xEFD5102A, 0x71B18589, 0x06B6B51F, 0x9FBFE4A5, 0xE8B8D433,
     0x7807C9A2, 0x0F00F934, 0x9609A88E, 0xE10E9818, 0x7F6A0DBB, 0x086D3D2D, 0x91646C97, 0xE6635C01],
    [0x6B6B51F4, 0x1C6C6162, 0x856530D8, 0xF262004E, 0x6C0695ED, 0x1B01A57B, 0x8208F4C1, 0xF50FC457,
     0x65B0D9C6, 0x12B7E950, 0x8BBEB8EA, 0xFCB9887C, 0x62DD1DDF, 0x15DA2D49, 0x8CD37CF3, 0xFBD44C65],
    [0x4DB26158, 0x3AB551CE, 0xA3BC0074, 0xD4BB30E2, 0x4ADFA541, 0x3DD895D7, 0xA4D1C46D, 0xD3D6F4FB,
     0x4369E96A, 0x346ED9FC, 0xAD678846, 0xDA60B8D0, 0x44042D73, 0x33031DE5, 0xAA0A4C5F, 0xDD0D7CC9],
    [0x5005713C, 0x270241AA, 0xBE0B1010, 0xC90C2086, 0x5768B525, 0x206F85B3, 0xB966D409, 0xCE61E49F,
     0x5EDEF90E, 0x29D9C998, 0xB0D09822, 0xC7D7A8B4, 0x59B33D17, 0x2EB40D81, 0xB7BD5C3B, 0xC0BA6CAD],
    [0xEDB88320, 0x9ABFB3B6, 0x03B6E20C, 0x74B1D29A, 0xEAD54739, 0x9DD277AF, 0x04DB2615, 0x73DC1683,
     0xE3630B12, 0x94643B84, 0x0D6D6A3E, 0x7A6A5AA8, 0xE40ECF0B, 0x9309FF9D, 0x0A00AE27, 0x7D079EB1],
    [0xF00F9344, 0x8708A3D2, 0x1E01F268, 0x6906C2FE, 0xF762575D, 0x806567CB, 0x196C3671, 0x6E6B06E7,
     0xFED41B76, 0x89D32BE0, 0x10DA7A5A, 0x67DD4ACC, 0xF9B9DF6F, 0x8EBEEFF9, 0x17B7BE43, 0x60B08ED5],
    [0xD6D6A3E8, 0xA1D1937E, 0x38D8C2C4, 0x4FDFF252, 0xD1BB67F1, 0xA6BC5767, 0x3FB506DD, 0x48B2364B,
     0xD80D2BDA, 0xAF0A1B4C, 0x36034AF6, 0x41047A60, 0xDF60EFC3, 0xA867DF55, 0x316E8EEF, 0x4669BE79],
    [0xCB61B38C, 0xBC66831A, 0x256FD2A0, 0x5268E236, 0xCC0C7795, 0xBB0B4703, 0x220216B9, 0x5505262F,
     0xC5BA3BBE, 0xB2BD0B28, 0x2BB45A92, 0x5CB36A04, 0xC2D7FFA7, 0xB5D0CF31, 0x2CD99E8B, 0x5BDEAE1D],
    [0x9B64C2B0, 0xEC63F226, 0x756AA39C, 0x026D930A, 0x9C0906A9, 0xEB0E363F, 0x72076785, 0x05005713,
     0x95BF4A82, 0xE2B87A14, 0x7BB12BAE, 0x0CB61B38, 0x92D28E9B, 0xE5D5BE0D, 0x7CDCEFB7, 0x0BDBDF21],
    [0x86D3D2D4, 0xF1D4E242, 0x68DDB3F8, 0x1FDA836E, 0x81BE16CD, 0xF6B9265B, 0x6FB077E1, 0x18B74777,
     0x88085AE6, 0xFF0F6A70, 0x66063BCA, 0x11010B5C, 0x8F659EFF, 0xF862AE69, 0x616BFFD3, 0x166CCF45],
    [0xA00AE278, 0xD70DD2EE, 0x4E048354, 0x3903B3C2, 0xA7672661, 0xD06016F7, 0x4969474D, 0x3E6E77DB,
     0xAED16A4A, 0xD9D65ADC, 0x40DF0B66, 0x37D83BF0, 0xA9BCAE53, 0xDEBB9EC5, 0x47B2CF7F, 0x30B5FFE9],
    [0xBDBDF21C, 0xCABAC28A, 0x53B39330, 0x24B4A3A6, 0xBAD03605, 0xCDD70693, 0x54DE5729, 0x23D967BF,
     0xB3667A2E, 0xC4614AB8, 0x5D681B02, 0x2A6F2B94, 0xB40BBE37, 0xC30C8EA1, 0x5A05DF1B, 0x2D02EF8D]
  ]

  function Lookup(i: bv8): bv32 {
    CRC_TABLE[(i >> 4) as int][(i & 0xF) as int]
  }

  function Pick(v: bv32, mask: bv32, word: bv32): bv32 {
    if v & mask == mask then word else 0
  }

  /** NibbleShift of a four-bit value, as a sum of one word for each bit. */
  function NibbleSum(v: bv32): bv32 {
    (Pick(v, 1, 0x1DB71064) ^ Pick(v, 2, 0x3B6E20C8)) ^ (Pick(v, 4, 0x76DC4190) ^ Pick(v, 8, 0xEDB88320))
  }

  lemma NibbleSumCorrect(v: bv32)
    ensures NibbleShift(LowNibble(v)) == NibbleSum(LowNibble(v))
  {
  }

  lemma Row0(h: bv8, b: bv8, y: bv32)
    requires h == 0x0 && b < 16 && y == NibbleSum(b as bv32) ^ h as bv32
    ensures CRC_TABLE[h as int][b as int] == NibbleSum(y & 0xF) ^ (y >> 4)
  {
  }

  lemma Row1(h: bv8, b: bv8, y: bv32)
    requires h == 0x1 && b < 16 && y == NibbleSum(b as bv32) ^ h as bv32
    ensures CRC_TABLE[h as int][b as int] == NibbleSum(y & 0xF) ^ (y >> 4)
  {
  }

  lemma Row2(h: bv8, b: bv8, y: bv32)
    requires h == 0x2 && b < 16 && y == NibbleSum(b as bv32) ^ h as bv32
    ensures CRC_TABLE[h as int][b as int] == NibbleSum(y & 0xF) ^ (y >> 4)
  {
  }

  lemma Row3(h: bv8, b: bv8, y: bv32)
    requires h == 0x3 && b < 16 && y == NibbleSum(b as bv32) ^ h as bv32
    ensures CRC_TABLE[h as int][b as int] == NibbleSum(y & 0xF) ^ (y >> 4)
  {
  }

  lemma Row4(h: bv8, b: bv8, y: bv32)
    requires h == 0x4 && b < 16 && y == NibbleSum(b as bv32) ^ h as bv32
    ensures CRC_TABLE[h as int][b as int] == NibbleSum(y & 0xF) ^ (y >> 4)
  {
  }

  lemma Row5(h: bv8, b: bv8, y: bv32)
    requires h == 0x5 && b < 16 && y == NibbleSum(b as bv32) ^ h as bv32
    ensures CRC_TABLE[h as int][b as int] == NibbleSum(y & 0xF) ^ (y >> 4)
  {
  }

  lemma Row6(h: bv8, b: bv8, y: bv32)
    requires h == 0x6 && b < 16 && y == NibbleSum(b as bv32) ^ h as bv32
    ensures CRC_TABLE[h as int][b as int] == NibbleSum(y & 0xF) ^ (y >> 4)
  {
  }

  lemma Row7(h: bv8, b: bv8, y: bv32)
    requires h == 0x7 && b < 16 && y == NibbleSum(b as bv32) ^ h as bv32
    ensures CRC_TABLE[h as int][b as int] == NibbleSum(y & 0xF) ^ (y >> 4)
  {
  }

  lemma Row8(h: bv8, b: bv8, y: bv32)
    requires h == 0x8 && b < 16 && y == NibbleSum(b as bv32) ^ h as bv32
    ensures CRC_TABLE[h as int][b as int] == NibbleSum(y & 0xF) ^ (y >> 4)
  {
  }

  lemma Row9(h: bv8, b: bv8, y: bv32)
    requires h == 0x9 && b < 16 && y == NibbleSum(b as bv32) ^ h as bv32
    ensures CRC_TABLE[h as int][b as int] == NibbleSum(y & 0xF) ^ (y >> 4)
  {
  }

  lemma RowA(h: bv8, b: bv8, y: bv32)
    requires h == 0xA && b < 16 && y == NibbleSum(b as bv32) ^ h as bv32
    ensures CRC_TABLE[h as int][b as int] == NibbleSum(y & 0xF) ^ (y >> 4)
  {
  }

  lemma RowB(h: bv8, b: bv8, y: bv32)
    requires h == 0xB && b < 16 && y == NibbleSum(b as bv32) ^ h as bv32
    ensures CRC_TABLE[h as int][b as int] == NibbleSum(y & 0xF) ^ (y >> 4)
  {
  }

  lemma RowC(h: bv8, b: bv8, y: bv32)
    requires h == 0xC && b < 16 && y == NibbleSum(b as bv32) ^ h as bv32
    ensures CRC_TABLE[h as int][b as int] == NibbleSum(y & 0xF) ^ (y >> 4)
  {
  }

  lemma RowD(h: bv8, b: bv8, y: bv32)
    requires h == 0xD && b < 16 && y == NibbleSum(b as bv32) ^ h as bv32
    ensures CRC_TABLE[h as int][b as int] == NibbleSum(y & 0xF) ^ (y >> 4)
  {
  }

  lemma RowE(h: bv8, b: bv8, y: bv32)
    requires h == 0xE && b < 16 && y == NibbleSum(b as bv32) ^ h as bv32
    ensures CRC_TABLE[h as int][b as int] == NibbleSum(y & 0xF) ^ (y >> 4)
  {
  }

  lemma RowF(h: bv8, b: bv8, y: bv32)
    requires h == 0xF && b < 16 && y == NibbleSum(b as bv32) ^ h as bv32
    ensures CRC_TABLE[h as int][b as int] == NibbleSum(y & 0xF) ^ (y >> 4)
  {
  }

  lemma LookupByNibbles(i: bv8, y: bv32)
    requires y == NibbleSum((i & 0xF) as bv32) ^ (i >> 4) as bv32
    ensures Lookup(i) == NibbleSum(y & 0xF) ^ (y >> 4)
  {
    hide NibbleSum, CRC_TABLE;
    var h, b := i >> 4, i & 0xF;
    assert h <= 0xF;
    if h == 0x0 {
      Row0(h, b, y);
    } else if h == 0x1 {
      Row1(h, b, y);
    } else if h == 0x2 {
      Row2(h, b, y);
    } else if h == 0x3 {
      Row3(h, b, y);
    } else if h == 0x4 {
      Row4(h, b, y);
    } else if h == 0x5 {
      Row5(h, b, y);
    } else if h == 0x6 {
      Row6(h, b, y);
    } else if h == 0x7 {
      Row7(h, b, y);
    } else if h == 0x8 {
      Row8(h, b, y);
    } else if h == 0x9 {
      Row9(h, b, y);
    } else if h == 0xA {
      RowA(h, b, y);
    } else if h == 0xB {
      RowB(h, b, y);
    } else if h == 0xC {
      RowC(h, b, y);
    } else if h == 0xD {
      RowD(h, b, y);
    } else if h == 0xE {
      RowE(h, b, y);
    } else {
      RowF(h, b, y);
    }
  }

  lemma LookupIsNibbleSums(i: bv8, n: bv32, h: bv32, y: bv32, m: bv32, t: bv32)
    requires n == (i & 0xF) as bv32 && h == (i >> 4) as bv32
    requires y == NibbleSum(n) ^ h
    requires m == y & 0xF && t == y >> 4
    ensures Lookup(i) == Xor(NibbleSum(m), t)
  {
    hide NibbleSum, Lookup;
    LookupByNibbles(i, y);
  }

  lemma NibblesOfIndex(i: bv8)
    ensures LowNibble(i as bv32) == (i & 0xF) as bv32
    ensures Shr4(i as bv32) == (i >> 4) as bv32
  {
  }

  lemma XorUnfolds(x: bv32, y: bv32)
    ensures Xor(x, y) == x ^ y
  {
  }

  lemma NibblesUnfold(x: bv32)
    ensures LowNibble(x) == x & 0xF && Shr4(x) == x >> 4
  {
  }

  /** Every one of the 256 words is its index shifted eight times. */
  lemma TableCorrect(i: bv8)
    ensures Lookup(i) == ByteShift(i as bv32)
  {
    hide Lookup, Xor, NibbleSum, NibbleShift, LowNibble, Shr4;
    var c := i as bv32;
    var y := NibbleShift(c);
    NibbleSplit(c);
    NibbleSumCorrect(c);
    NibblesOfIndex(i);
    XorUnfolds(NibbleSum(LowNibble(c)), Shr4(c));
    NibblesUnfold(y);
    LookupIsNibbleSums(i, LowNibble(c), Shr4(c), y, LowNibble(y), Shr4(y));
    NibbleSplit(y);
    NibbleSumCorrect(y);
  }

  function Index(c: bv32, b: bv8): bv8 {
    ((c & 0xFF) as bv8) ^ b
  }

  lemma IndexFacts(c: bv32, b: bv8)
    ensures Index(c, b) as bv32 == LowByte(Xor(c, b as bv32))
    ensures Shr8(c) == Shr8(Xor(c, b as bv32))
  {
  }

  /** One round of the library's loop feeds the register exactly one byte. */
  lemma TableStep(c: bv32, b: bv8)
    ensures Xor(Shr8(c), Lookup(Index(c, b))) == FeedBits(c, BitsOfByte(b))
  {
    hide Lookup, Index, Xor, ByteShift, LowByte, Shr8, FeedBits, BitsOfByte;
    IndexFacts(c, b);
    FeedByteIsShifts(c, b);
    TableCorrect(Index(c, b));
    ByteSplit(Xor(c, b as bv32));
  }
}
