/** The CRC32 field of an EFI table header: computing it, storing it and checking it, on the header's own bytes. */
module TableHeader {
  import opened Crc

  const HEADER_SIZE_OFFSET := 12
  const CRC_OFFSET := 16
  const TABLE_HEADER_LENGTH := 24

  // ---- The byte-wise CRC loop ----

  /** The loop's register is a 64-bit word. */
  function Widen(c: bv32): bv64 {
    c as bv64
  }

  function WideIndex(wide: bv64, b: bv8): bv8 {
    ((wide & 0xFF) as bv8) ^ b
  }

  function WideNext(wide: bv64, word: bv32): bv64 {
    (wide >> 8) ^ (word as bv64)
  }

  lemma WideIndexSame(c: bv32, b: bv8)
    ensures WideIndex(Widen(c), b) == Index(c, b)
  {
  }

  lemma WideNextSame(c: bv32, word: bv32)
    ensures WideNext(Widen(c), word) == Widen(Xor(Shr8(c), word))
  {
  }

  /** One round keeps the register below 2^32 and feeds it exactly one byte. */
  lemma WideTableStep(c: bv32, b: bv8)
    ensures WideNext(Widen(c), Lookup(WideIndex(Widen(c), b))) == Widen(FeedBits(c, BitsOfByte(b)))
  {
    hide Lookup, FeedBits, BitsOfByte, Xor, Widen, WideIndex, WideNext, Index, Shr8;
    WideIndexSame(c, b);
    WideNextSame(c, Lookup(Index(c, b)));
    TableStep(c, b);
  }

  lemma FeedOneMoreByte(c: bv32, s: seq<bv8>, n: nat)
    requires n < |s|
    ensures FeedBits(c, Bits(s[..n + 1])) == FeedBits(FeedBits(c, Bits(s[..n])), BitsOfByte(s[n]))
  {
    hide FeedBits, BitsOfByte;
    assert s[..n + 1] == s[..n] + [s[n]];
    BitsConcat(s[..n], [s[n]]);
    assert Bits([s[n]]) == BitsOfByte(s[n]);
    FeedBitsConcat(c, Bits(s[..n]), BitsOfByte(s[n]));
  }

  lemma FinalXor(c: bv32)
    ensures Widen(c) ^ 0xFFFFFFFF <= 0xFFFFFFFF
    ensures ((Widen(c) ^ 0xFFFFFFFF) & 0xFFFFFFFF) as bv32 == Xor(c, ALL_ONES)
  {
  }

  method CalculateCrc(pt: array<bv8>, size: nat) returns (crc: bv32)
    requires size <= pt.Length
    ensures crc == Crc32(pt[..size])
  {
    hide Lookup, FeedBits, Bits, BitsOfByte, Xor, WideIndex, WideNext, Widen;
    var register: bv64 := 0xFFFFFFFF;
    var i, left := 0, size;
    ghost var s := pt[..size];
    ghost var c := ALL_ONES;
    NothingFed(s);
    while left != 0
      invariant i + left == size
      invariant s == pt[..size]
      invariant register == Widen(c)
      invariant c == FeedBits(ALL_ONES, Bits(s[..i]))
    {
      WideTableStep(c, pt[i]);
      FeedOneMoreByte(ALL_ONES, s, i);
      register := WideNext(register, Lookup(WideIndex(register, pt[i])));
      c := FeedBits(c, BitsOfByte(pt[i]));
      i := i + 1;
      left := left - 1;
    }
    assert s[..i] == s;
    FinalXor(c);
    crc := ((register ^ 0xFFFFFFFF) & 0xFFFFFFFF) as bv32;
  }

  lemma NothingFed(s: seq<bv8>)
    ensures FeedBits(ALL_ONES, Bits(s[..0])) == ALL_ONES
    ensures Widen(ALL_ONES) == 0xFFFFFFFF
  {
  }

  // ---- The field in the header ----

  function Cut(v: bv32, shift: bv6): bv8
    requires shift <= 24
  {
    ((v >> shift) & 0xFF) as bv8
  }

  function Join(b0: bv8, b1: bv8, b2: bv8, b3: bv8): bv32 {
    (b0 as bv32) | ((b1 as bv32) << 8) | ((b2 as bv32) << 16) | ((b3 as bv32) << 24)
  }

  lemma CutOfJoin(b0: bv8, b1: bv8, b2: bv8, b3: bv8)
    ensures var v := Join(b0, b1, b2, b3);
      Cut(v, 0) == b0 && Cut(v, 8) == b1 && Cut(v, 16) == b2 && Cut(v, 24) == b3
  {
  }

  lemma JoinOfCut(v: bv32)
    ensures Join(Cut(v, 0), Cut(v, 8), Cut(v, 16), Cut(v, 24)) == v
  {
  }

  function Little(v: bv32): (r: seq<bv8>)
    ensures |r| == 4
  {
    [Cut(v, 0), Cut(v, 8), Cut(v, 16), Cut(v, 24)]
  }

  function Word32(b: seq<bv8>): bv32
    requires |b| == 4
  {
    Join(b[0], b[1], b[2], b[3])
  }

  lemma WordOfLittle(v: bv32)
    ensures Word32(Little(v)) == v
  {
    hide Join, Cut;
    JoinOfCut(v);
  }

  lemma LittleOfWord(b: seq<bv8>)
    requires |b| == 4
    ensures Little(Word32(b)) == b
  {
    hide Join, Cut;
    CutOfJoin(b[0], b[1], b[2], b[3]);
  }

  function CrcField(h: seq<bv8>): bv32
    requires |h| >= TABLE_HEADER_LENGTH
  {
    Word32(h[CRC_OFFSET..CRC_OFFSET + 4])
  }

  function HeaderSize(h: seq<bv8>): bv32
    requires |h| >= TABLE_HEADER_LENGTH
  {
    Word32(h[HEADER_SIZE_OFFSET..HEADER_SIZE_OFFSET + 4])
  }

  function WithCrcField(h: seq<bv8>, v: bv32): (r: seq<bv8>)
    requires |h| >= TABLE_HEADER_LENGTH
    ensures |r| == |h|
  {
    h[..CRC_OFFSET] + Little(v) + h[CRC_OFFSET + 4..]
  }

  lemma CrcFieldOfWith(h: seq<bv8>, v: bv32)
    requires |h| >= TABLE_HEADER_LENGTH
    ensures CrcField(WithCrcField(h, v)) == v
  {
    hide Little, Word32;
    assert WithCrcField(h, v)[CRC_OFFSET..CRC_OFFSET + 4] == Little(v);
    WordOfLittle(v);
  }

  lemma WithOwnCrcField(h: seq<bv8>)
    requires |h| >= TABLE_HEADER_LENGTH
    ensures WithCrcField(h, CrcField(h)) == h
  {
    hide Little, Word32;
    LittleOfWord(h[CRC_OFFSET..CRC_OFFSET + 4]);
  }

  lemma WithCrcFieldTwice(h: seq<bv8>, v: bv32, w: bv32)
    requires |h| >= TABLE_HEADER_LENGTH
    ensures WithCrcField(WithCrcField(h, v), w) == WithCrcField(h, w)
  {
    hide Little;
  }

  /** The CRC of the first size bytes, taken with the field itself cleared (section 4.2 of the UEFI Specification). */
  function HeaderCrc(h: seq<bv8>, size: nat): bv32
    requires |h| >= TABLE_HEADER_LENGTH && size <= |h|
  {
    Crc32(WithCrcField(h, 0)[..size])
  }

  /** What a passing check means. */
  ghost predicate Passes(maxSize: nat, size: nat, h: seq<bv8>)
    requires |h| >= TABLE_HEADER_LENGTH
  {
    && size != 0
    && (maxSize == 0 || size <= maxSize)
    && size <= |h|
    && CrcField(h) == HeaderCrc(h, size)
  }

  function Sealed(h: seq<bv8>, size: nat): (r: seq<bv8>)
    requires |h| >= TABLE_HEADER_LENGTH && size <= |h|
    ensures |r| == |h|
  {
    WithCrcField(h, HeaderCrc(h, size))
  }

  // ---- Operations ----

  method StoreCrcField(hdr: array<bv8>, v: bv32)
    requires hdr.Length >= TABLE_HEADER_LENGTH
    modifies hdr
    ensures hdr[..] == WithCrcField(old(hdr[..]), v)
  {
    var b := Little(v);
    hide Little;
    hdr[CRC_OFFSET] := b[0];
    hdr[CRC_OFFSET + 1] := b[1];
    hdr[CRC_OFFSET + 2] := b[2];
    hdr[CRC_OFFSET + 3] := b[3];
    assert hdr[CRC_OFFSET..CRC_OFFSET + 4] == b;
    assert hdr[..] == hdr[..CRC_OFFSET] + hdr[CRC_OFFSET..CRC_OFFSET + 4] + hdr[CRC_OFFSET + 4..];
  }

  method SetCrcAltSize(size: nat, hdr: array<bv8>)
    requires hdr.Length >= TABLE_HEADER_LENGTH && size <= hdr.Length
    modifies hdr
    ensures hdr[..] == Sealed(old(hdr[..]), size)
  {
    hide Crc32, Little;
    StoreCrcField(hdr, 0);
    assert hdr[..][..size] == hdr[..size];
    var crc := CalculateCrc(hdr, size);
    StoreCrcField(hdr, crc);
    WithCrcFieldTwice(old(hdr[..]), 0, crc);
  }

  method CheckCrcAltSize(maxSize: nat, size: nat, hdr: array<bv8>) returns (ok: bool)
    requires hdr.Length >= TABLE_HEADER_LENGTH
    requires (maxSize != 0 && size > maxSize) || size <= hdr.Length
    modifies hdr
    ensures ok <==> Passes(maxSize, size, old(hdr[..]))
    ensures hdr[..] == old(hdr[..])
  {
    hide Crc32, Little, Word32;
    if size == 0 {
      return false;
    }
    if maxSize != 0 && size > maxSize {
      return false;
    }
    ghost var before := hdr[..];
    assert before[CRC_OFFSET..CRC_OFFSET + 4] == hdr[CRC_OFFSET..CRC_OFFSET + 4];
    var orgCrc := Word32(hdr[CRC_OFFSET..CRC_OFFSET + 4]);
    StoreCrcField(hdr, 0);
    assert hdr[..][..size] == hdr[..size];
    var crc := CalculateCrc(hdr, size);
    StoreCrcField(hdr, orgCrc);
    WithCrcFieldTwice(before, 0, orgCrc);
    WithOwnCrcField(before);
    ok := orgCrc == crc;
  }

  method SetCrc(hdr: array<bv8>)
    requires hdr.Length >= TABLE_HEADER_LENGTH && HeaderSize(hdr[..]) as nat <= hdr.Length
    modifies hdr
    ensures hdr[..] == Sealed(old(hdr[..]), HeaderSize(old(hdr[..])) as nat)
    ensures HeaderSize(hdr[..]) == HeaderSize(old(hdr[..]))
  {
    hide Crc32, Little, Word32;
    assert hdr[..][HEADER_SIZE_OFFSET..HEADER_SIZE_OFFSET + 4] == hdr[HEADER_SIZE_OFFSET..HEADER_SIZE_OFFSET + 4];
    var size := Word32(hdr[HEADER_SIZE_OFFSET..HEADER_SIZE_OFFSET + 4]);
    SetCrcAltSize(size as nat, hdr);
    assert hdr[..][HEADER_SIZE_OFFSET..HEADER_SIZE_OFFSET + 4]
        == old(hdr[..])[HEADER_SIZE_OFFSET..HEADER_SIZE_OFFSET + 4];
  }

  method CheckCrc(maxSize: nat, hdr: array<bv8>) returns (ok: bool)
    requires hdr.Length >= TABLE_HEADER_LENGTH
    requires (maxSize != 0 && HeaderSize(hdr[..]) as nat > maxSize) || HeaderSize(hdr[..]) as nat <= hdr.Length
    modifies hdr
    ensures ok <==> Passes(maxSize, HeaderSize(old(hdr[..])) as nat, old(hdr[..]))
    ensures hdr[..] == old(hdr[..])
  {
    hide Crc32, Little, Word32;
    assert hdr[..][HEADER_SIZE_OFFSET..HEADER_SIZE_OFFSET + 4] == hdr[HEADER_SIZE_OFFSET..HEADER_SIZE_OFFSET + 4];
    var size := Word32(hdr[HEADER_SIZE_OFFSET..HEADER_SIZE_OFFSET + 4]);
    ok := CheckCrcAltSize(maxSize, size as nat, hdr);
  }

  // ---- What the pair of operations guarantees ----

  /** A sealed header passes for every size that the caller allows, and only then. */
  lemma SealedPasses(h: seq<bv8>, size: nat, maxSize: nat)
    requires |h| >= TABLE_HEADER_LENGTH && size <= |h|
    ensures Passes(maxSize, size, Sealed(h, size)) <==> size != 0 && (maxSize == 0 || size <= maxSize)
  {
    hide Crc32, Little;
    WithCrcFieldTwice(h, HeaderCrc(h, size), 0);
    CrcFieldOfWith(h, HeaderCrc(h, size));
  }

  /** A header written field by field: an 8-byte signature, a revision, its own size, the CRC and a reserved word. */
  function FieldsOf(signature: seq<bv8>, revision: seq<bv8>, size: bv32, crc: bv32, reserved: seq<bv8>, rest: seq<bv8>)
    : seq<bv8>
  {
    signature + revision + Little(size) + Little(crc) + reserved + rest
  }

  /** The size and the CRC are found in their fields, and sealing sets the latter to the CRC of the first size bytes
      with four zeros in its place. */
  lemma SealedFields(signature: seq<bv8>, revision: seq<bv8>, size: bv32, crc: bv32, reserved: seq<bv8>,
                     rest: seq<bv8>)
    requires |signature| == 8 && |revision| == 4 && |reserved| == 4 && size as nat <= 24 + |rest|
    ensures var h := FieldsOf(signature, revision, size, crc, reserved, rest);
      && HeaderSize(h) == size && CrcField(h) == crc
      && Sealed(h, size as nat) == FieldsOf(signature, revision, size,
           Crc32((signature + revision + Little(size) + [0, 0, 0, 0] + reserved + rest)[..size as nat]), reserved, rest)
  {
    hide Crc32, Little, Word32;
    LittleZero();
    WordOfLittle(size);
    WordOfLittle(crc);
    FieldSlices(signature, revision, Little(size), Little(crc), reserved, rest, Little(0));
    var zeroed := signature + revision + Little(size) + Little(0) + reserved + rest;
    FieldSlices(signature, revision, Little(size), Little(crc), reserved, rest, Little(Crc32(zeroed[..size as nat])));
  }

  lemma LittleZero()
    ensures Little(0) == [0, 0, 0, 0]
  {
  }

  lemma FieldSlices(a: seq<bv8>, b: seq<bv8>, c: seq<bv8>, d: seq<bv8>, e: seq<bv8>, f: seq<bv8>, x: seq<bv8>)
    requires |a| == 8 && |b| == |c| == |d| == |x| == 4
    ensures var h := a + b + c + d + e + f;
      h[12..16] == c && h[16..20] == d && h[..16] + x + h[20..] == a + b + c + x + e + f
  {
    var front, back := a + b + c, e + f;
    assert a + b + c + d + e + f == front + d + back;
    assert a + b + c + x + e + f == front + x + back;
  }

  lemma ClearedAt(h: seq<bv8>, k: nat)
    requires |h| >= TABLE_HEADER_LENGTH && k < |h|
    ensures WithCrcField(h, 0)[k]
         == if CRC_OFFSET <= k < CRC_OFFSET + 4 then Little(0)[k - CRC_OFFSET] else h[k]
  {
    hide Little;
  }

  /** Clearing the field keeps a difference outside it, and adds none. */
  lemma ClearedDiffer(s: seq<bv8>, t: seq<bv8>, size: nat, at: nat)
    requires |s| == |t| && |s| >= TABLE_HEADER_LENGTH && size <= |s|
    requires t[CRC_OFFSET..CRC_OFFSET + 4] == s[CRC_OFFSET..CRC_OFFSET + 4]
    requires DifferWithin(t[..size], s[..size], at)
    ensures DifferWithin(WithCrcField(t, 0)[..size], WithCrcField(s, 0)[..size], at)
  {
    hide WithCrcField, Little;
    var t0, s0 := WithCrcField(t, 0)[..size], WithCrcField(s, 0)[..size];
    forall k | 0 <= k < size
      ensures t0[k] == s0[k] <==> t[k] == s[k]
    {
      ClearedAt(t, k);
      ClearedAt(s, k);
      if CRC_OFFSET <= k < CRC_OFFSET + 4 {
        assert t[k] == t[CRC_OFFSET..CRC_OFFSET + 4][k - CRC_OFFSET];
        assert s[k] == s[CRC_OFFSET..CRC_OFFSET + 4][k - CRC_OFFSET];
      }
    }
    var k :| 0 <= k < size && t[..size][k] != s[..size][k];
    assert t0[k] != s0[k];
    forall j | 0 <= j < size && !(at <= j < at + 4)
      ensures t0[j] == s0[j]
    {
      assert t[..size][j] == s[..size][j];
    }
  }

  /** After sealing, a change confined to four consecutive bytes outside the field is always noticed. */
  lemma TamperingNoticed(h: seq<bv8>, size: nat, maxSize: nat, t: seq<bv8>, at: nat)
    requires |h| >= TABLE_HEADER_LENGTH && size <= |h| == |t|
    requires t[CRC_OFFSET..CRC_OFFSET + 4] == Sealed(h, size)[CRC_OFFSET..CRC_OFFSET + 4]
    requires DifferWithin(t[..size], Sealed(h, size)[..size], at)
    ensures !Passes(maxSize, size, t)
  {
    hide Crc32, Little, Word32, WithCrcField, DifferWithin;
    var s := Sealed(h, size);
    WithCrcFieldTwice(h, HeaderCrc(h, size), 0);
    CrcFieldOfWith(h, HeaderCrc(h, size));
    ClearedDiffer(s, t, size, at);
    BurstDetected(WithCrcField(t, 0)[..size], WithCrcField(s, 0)[..size], at);
  }

  /** A change of the field alone is always noticed. */
  lemma WrongFieldNoticed(h: seq<bv8>, size: nat, maxSize: nat, v: bv32)
    requires |h| >= TABLE_HEADER_LENGTH && size <= |h|
    ensures Passes(maxSize, size, WithCrcField(h, v))
       <==> size != 0 && (maxSize == 0 || size <= maxSize) && v == HeaderCrc(h, size)
  {
    hide Crc32, Little;
    WithCrcFieldTwice(h, v, 0);
    CrcFieldOfWith(h, v);
  }
}
