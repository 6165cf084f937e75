/** PE files written field by field, in the order in which the PE/COFF headers declare their fields (sections 3.3, 3.4
    and 4 of the Microsoft PE/COFF Specification), and how the loader reads them back. */
module PeFields {
  import opened Bytes
  import opened PeImage

  /** The fields of the headers of a 64-bit image from the PE signature to the data directories. Those that the loader
      does not look at are runs of bytes. */
  datatype Fields = Fields(
    upperSignature: seq<byte>, machine: seq<byte>, numberOfSections: nat, timeAndSymbols: seq<byte>,
    sizeOfOptionalHeader: nat, characteristics: nat,
    linkerAndSizes: seq<byte>, entryPoint: nat, baseOfCode: seq<byte>, imageBase: nat,
    alignmentsAndVersions: seq<byte>, sizeOfImage: nat, sizeOfHeaders: nat, checksum: seq<byte>,
    subsystemAndLimits: seq<byte>, numberOfRvaAndSizes: nat, firstDirectories: seq<byte>,
    secVA: nat, secSize: nat, relocVA: nat, relocSize: nat, otherDirectories: seq<byte>)

  predicate ValidFields(f: Fields) {
    && |f.upperSignature| == 2 && |f.machine| == 2 && f.numberOfSections < TWO16
    && |f.timeAndSymbols| == 4 + 4 + 4 && f.sizeOfOptionalHeader < TWO16 && f.characteristics < TWO16
    && |f.linkerAndSizes| == 2 + 3 * 4 && f.entryPoint < TWO32 && |f.baseOfCode| == 4 && f.imageBase < TWO64
    && |f.alignmentsAndVersions| == 2 * 4 + 6 * 2 + 4 && f.sizeOfImage < TWO32 && f.sizeOfHeaders < TWO32
    && |f.checksum| == 4 && |f.subsystemAndLimits| == 2 * 2 + 4 * 8 + 4 && f.numberOfRvaAndSizes < TWO32
    && |f.firstDirectories| == 4 * 8 && f.secVA < TWO32 && f.secSize < TWO32 && f.relocVA < TWO32
    && f.relocSize < TWO32 && |f.otherDirectories| == 10 * 8
  }

  function Chunks(f: Fields): seq<seq<byte>> {
    [[0x50, 0x45], f.upperSignature, f.machine, ToLE(f.numberOfSections, 2), f.timeAndSymbols,
     ToLE(f.sizeOfOptionalHeader, 2), ToLE(f.characteristics, 2),
     [0x0B, 0x02], f.linkerAndSizes, ToLE(f.entryPoint, 4), f.baseOfCode, ToLE(f.imageBase, 8),
     f.alignmentsAndVersions, ToLE(f.sizeOfImage, 4), ToLE(f.sizeOfHeaders, 4), f.checksum,
     f.subsystemAndLimits, ToLE(f.numberOfRvaAndSizes, 4), f.firstDirectories,
     ToLE(f.secVA, 4), ToLE(f.secSize, 4), ToLE(f.relocVA, 4), ToLE(f.relocSize, 4), f.otherDirectories]
  }

  function Joined(chunks: seq<seq<byte>>): seq<byte> {
    if chunks == [] then [] else chunks[0] + Joined(chunks[1..])
  }

  /** Where the i-th chunk stands. */
  function Start(chunks: seq<seq<byte>>, i: nat): nat
    requires i <= |chunks|
  {
    if i == 0 then 0 else Start(chunks, i - 1) + |chunks[i - 1]|
  }

  lemma {:induction false} StartTail(chunks: seq<seq<byte>>, i: nat)
    requires i < |chunks|
    ensures Start(chunks, i + 1) == |chunks[0]| + Start(chunks[1..], i)
  {
    if i > 0 {
      StartTail(chunks, i - 1);
    }
  }

  lemma {:induction false} ChunkAt(chunks: seq<seq<byte>>, i: nat)
    requires i < |chunks|
    ensures Start(chunks, i) + |chunks[i]| <= |Joined(chunks)|
    ensures Joined(chunks)[Start(chunks, i)..Start(chunks, i) + |chunks[i]|] == chunks[i]
    decreases i
  {
    if i > 0 {
      var rest, n := Joined(chunks[1..]), |chunks[0]|;
      ChunkAt(chunks[1..], i - 1);
      StartTail(chunks, i - 1);
      var at := Start(chunks[1..], i - 1);
      assert Joined(chunks)[n + at..n + at + |chunks[i]|] == rest[at..at + |chunks[i]|];
    }
  }

  /** The sizes of the fields add up to the places at which the loader looks for them. */
  lemma Starts(f: Fields)
    requires ValidFields(f)
    ensures var cs := Chunks(f);
      && |cs| == 24
      && Start(cs, 0) == 0 && Start(cs, 3) == NUMBER_OF_SECTIONS
      && Start(cs, 5) == SIZE_OF_OPTIONAL_HEADER && Start(cs, 6) == CHARACTERISTICS && Start(cs, 7) == OPTIONAL_HEADER
      && Start(cs, 9) == ENTRY_POINT && Start(cs, 11) == IMAGE_BASE && Start(cs, 13) == SIZE_OF_IMAGE
      && Start(cs, 14) == SIZE_OF_HEADERS && Start(cs, 15) == CHECKSUM && Start(cs, 16) == CHECKSUM + CHECKSUM_SIZE
      && Start(cs, 17) == NUMBER_OF_RVA_AND_SIZES
      && Start(cs, 19) == SECURITY_DIRECTORY && Start(cs, 20) == SECURITY_DIRECTORY + 4
      && Start(cs, 21) == BASERELOC_DIRECTORY && Start(cs, 22) == BASERELOC_DIRECTORY + 4
      && Start(cs, 24) == OPTIONAL_HEADER_UNION_SIZE
  {
    var cs := Chunks(f);
    ChunkSizes(f);
    hide Chunks;
    assert Start(cs, 1) == Start(cs, 0) + 2;
    assert Start(cs, 2) == Start(cs, 1) + 2;
    assert Start(cs, 3) == Start(cs, 2) + 2;
    assert Start(cs, 4) == Start(cs, 3) + 2;
    assert Start(cs, 5) == Start(cs, 4) + 12;
    assert Start(cs, 6) == Start(cs, 5) + 2;
    assert Start(cs, 7) == Start(cs, 6) + 2;
    assert Start(cs, 8) == Start(cs, 7) + 2;
    assert Start(cs, 9) == Start(cs, 8) + 14;
    assert Start(cs, 10) == Start(cs, 9) + 4;
    assert Start(cs, 11) == Start(cs, 10) + 4;
    assert Start(cs, 12) == Start(cs, 11) + 8;
    assert Start(cs, 13) == Start(cs, 12) + 24;
    assert Start(cs, 14) == Start(cs, 13) + 4;
    assert Start(cs, 15) == Start(cs, 14) + 4;
    assert Start(cs, 16) == Start(cs, 15) + 4;
    assert Start(cs, 17) == Start(cs, 16) + 40;
    assert Start(cs, 18) == Start(cs, 17) + 4;
    assert Start(cs, 19) == Start(cs, 18) + 32;
    assert Start(cs, 20) == Start(cs, 19) + 4;
    assert Start(cs, 21) == Start(cs, 20) + 4;
    assert Start(cs, 22) == Start(cs, 21) + 4;
    assert Start(cs, 23) == Start(cs, 22) + 4;
    assert Start(cs, 24) == Start(cs, 23) + 80;
  }

  lemma ChunkSizes(f: Fields)
    requires ValidFields(f)
    ensures var cs := Chunks(f);
      && |cs| == 24
      && |cs[0]| == 2 && |cs[1]| == 2 && |cs[2]| == 2 && |cs[3]| == 2 && |cs[4]| == 12 && |cs[5]| == 2
      && |cs[6]| == 2 && |cs[7]| == 2 && |cs[8]| == 14 && |cs[9]| == 4 && |cs[10]| == 4 && |cs[11]| == 8
      && |cs[12]| == 24 && |cs[13]| == 4 && |cs[14]| == 4 && |cs[15]| == 4 && |cs[16]| == 40 && |cs[17]| == 4
      && |cs[18]| == 32 && |cs[19]| == 4 && |cs[20]| == 4 && |cs[21]| == 4 && |cs[22]| == 4 && |cs[23]| == 80
  {
    hide Chunks, ValidFields;
    FirstSizes(f);
    MiddleSizes(f);
    LastSizes(f);
  }

  lemma FirstSizes(f: Fields)
    requires ValidFields(f)
    ensures var cs := Chunks(f);
      && |cs| == 24
      && |cs[0]| == 2 && |cs[1]| == 2 && |cs[2]| == 2 && |cs[3]| == 2
      && |cs[4]| == 12 && |cs[5]| == 2 && |cs[6]| == 2 && |cs[7]| == 2
  {
    hide ToLE;
  }

  lemma MiddleSizes(f: Fields)
    requires ValidFields(f)
    ensures var cs := Chunks(f);
      && |cs| == 24
      && |cs[8]| == 14 && |cs[9]| == 4 && |cs[10]| == 4 && |cs[11]| == 8
      && |cs[12]| == 24 && |cs[13]| == 4 && |cs[14]| == 4 && |cs[15]| == 4
  {
    hide ToLE;
  }

  lemma LastSizes(f: Fields)
    requires ValidFields(f)
    ensures var cs := Chunks(f);
      && |cs| == 24
      && |cs[16]| == 40 && |cs[17]| == 4 && |cs[18]| == 32 && |cs[19]| == 4
      && |cs[20]| == 4 && |cs[21]| == 4 && |cs[22]| == 4 && |cs[23]| == 80
  {
    hide ToLE;
  }

  lemma {:induction false} JoinedLength(chunks: seq<seq<byte>>)
    ensures |Joined(chunks)| == Start(chunks, |chunks|)
  {
    if chunks != [] {
      JoinedLength(chunks[1..]);
      StartTail(chunks, |chunks| - 1);
    }
  }

  // ---- The file ----

  /** Nothing, or a DOS stub that says where the PE signature is: right behind it. */
  predicate ValidStub(stub: seq<byte>) {
    stub == []
    || (64 <= |stub| < TWO32 && stub[0] == 0x4D && stub[1] == 0x5A && stub[60..64] == ToLE(|stub|, 4))
  }

  function FileOf(stub: seq<byte>, f: Fields, rest: seq<byte>): seq<byte> {
    stub + Joined(Chunks(f)) + rest
  }

  lemma ChunkInFile(stub: seq<byte>, f: Fields, rest: seq<byte>, i: nat)
    requires ValidFields(f) && i < |Chunks(f)|
    ensures var at, n, data := |stub| + Start(Chunks(f), i), |Chunks(f)[i]|, FileOf(stub, f, rest);
      at + n <= |data| && data[at..at + n] == Chunks(f)[i]
  {
    hide Chunks, Start, Joined;
    var cs, j := Chunks(f), Joined(Chunks(f));
    ChunkAt(cs, i);
    var at, n := Start(cs, i), |cs[i]|;
    assert FileOf(stub, f, rest)[|stub| + at..|stub| + at + n] == j[at..at + n];
  }

  lemma NumberInFile(stub: seq<byte>, f: Fields, rest: seq<byte>, i: nat, v: nat, width: nat)
    requires ValidFields(f) && i < |Chunks(f)| && Chunks(f)[i] == ToLE(v, width) && v < Pow256(width)
    ensures var at, data := |stub| + Start(Chunks(f), i), FileOf(stub, f, rest);
      at + width <= |data| && Number(data, at, width) == v
  {
    hide Chunks, Start, FileOf, ToLE, FromLE, ValidFields, Pow256;
    ChunkInFile(stub, f, rest, i);
    FromToLE(v, width);
    SmallMod(v, Pow256(width));
  }

  lemma SmallMod(v: nat, m: nat)
    requires v < m
    ensures v % m == v
  {
  }

  lemma FileLength(stub: seq<byte>, f: Fields, rest: seq<byte>)
    requires ValidFields(f)
    ensures |FileOf(stub, f, rest)| == |stub| + OPTIONAL_HEADER_UNION_SIZE + |rest|
  {
    hide Chunks, Start;
    Starts(f);
    JoinedLength(Chunks(f));
  }

  lemma MarksRead(stub: seq<byte>, f: Fields, rest: seq<byte>)
    requires ValidFields(f)
    ensures var pe, data := |stub|, FileOf(stub, f, rest);
      && pe + OPTIONAL_HEADER_UNION_SIZE <= |data|
      && Number(data, pe, 2) == NT_SIGNATURE && Number(data, pe + OPTIONAL_HEADER, 2) == NT_OPTIONAL_HDR64_MAGIC
  {
    hide Chunks, Start, FileOf, Number, ValidFields;
    Starts(f);
    FileLength(stub, f, rest);
    MarkChunks(f);
    PairInFile(stub, f, rest, 0, 0x50, 0x45);
    PairInFile(stub, f, rest, 7, 0x0B, 0x02);
  }

  lemma MarkChunks(f: Fields)
    ensures |Chunks(f)| == 24 && Chunks(f)[0] == [0x50, 0x45] && Chunks(f)[7] == [0x0B, 0x02]
  {
    hide ToLE;
  }

  lemma FileHeaderRead(stub: seq<byte>, f: Fields, rest: seq<byte>)
    requires ValidFields(f)
    ensures var pe, data := |stub|, FileOf(stub, f, rest);
      && pe + OPTIONAL_HEADER_UNION_SIZE <= |data|
      && Number(data, pe + NUMBER_OF_SECTIONS, 2) == f.numberOfSections
      && Number(data, pe + SIZE_OF_OPTIONAL_HEADER, 2) == f.sizeOfOptionalHeader
      && Number(data, pe + CHARACTERISTICS, 2) == f.characteristics
  {
    Starts(f);
    WordSizes();
    FileLength(stub, f, rest);
    var cs := Chunks(f);
    assert cs[3] == ToLE(f.numberOfSections, 2) && cs[5] == ToLE(f.sizeOfOptionalHeader, 2);
    assert cs[6] == ToLE(f.characteristics, 2);
    hide Chunks, Start, FileOf, ToLE, Number;
    NumberInFile(stub, f, rest, 3, f.numberOfSections, 2);
    NumberInFile(stub, f, rest, 5, f.sizeOfOptionalHeader, 2);
    NumberInFile(stub, f, rest, 6, f.characteristics, 2);
  }

  lemma OptionalHeaderRead(stub: seq<byte>, f: Fields, rest: seq<byte>)
    requires ValidFields(f)
    ensures var pe, data := |stub|, FileOf(stub, f, rest);
      && pe + OPTIONAL_HEADER_UNION_SIZE <= |data|
      && Number(data, pe + ENTRY_POINT, 4) == f.entryPoint && Number(data, pe + IMAGE_BASE, 8) == f.imageBase
      && Number(data, pe + SIZE_OF_IMAGE, 4) == f.sizeOfImage
      && Number(data, pe + SIZE_OF_HEADERS, 4) == f.sizeOfHeaders
      && Number(data, pe + NUMBER_OF_RVA_AND_SIZES, 4) == f.numberOfRvaAndSizes
  {
    Starts(f);
    WordSizes();
    FileLength(stub, f, rest);
    var cs := Chunks(f);
    assert cs[9] == ToLE(f.entryPoint, 4) && cs[11] == ToLE(f.imageBase, 8) && cs[13] == ToLE(f.sizeOfImage, 4);
    assert cs[14] == ToLE(f.sizeOfHeaders, 4) && cs[17] == ToLE(f.numberOfRvaAndSizes, 4);
    hide Chunks, Start, FileOf, ToLE, Number;
    NumberInFile(stub, f, rest, 9, f.entryPoint, 4);
    NumberInFile(stub, f, rest, 11, f.imageBase, 8);
    NumberInFile(stub, f, rest, 13, f.sizeOfImage, 4);
    NumberInFile(stub, f, rest, 14, f.sizeOfHeaders, 4);
    NumberInFile(stub, f, rest, 17, f.numberOfRvaAndSizes, 4);
  }

  lemma DirectoriesRead(stub: seq<byte>, f: Fields, rest: seq<byte>)
    requires ValidFields(f)
    ensures var pe, data := |stub|, FileOf(stub, f, rest);
      && pe + OPTIONAL_HEADER_UNION_SIZE <= |data|
      && Number(data, pe + SECURITY_DIRECTORY, 4) == f.secVA
      && Number(data, pe + SECURITY_DIRECTORY + 4, 4) == f.secSize
      && Number(data, pe + BASERELOC_DIRECTORY, 4) == f.relocVA
      && Number(data, pe + BASERELOC_DIRECTORY + 4, 4) == f.relocSize
  {
    Starts(f);
    WordSizes();
    FileLength(stub, f, rest);
    var cs := Chunks(f);
    assert cs[19] == ToLE(f.secVA, 4) && cs[20] == ToLE(f.secSize, 4);
    assert cs[21] == ToLE(f.relocVA, 4) && cs[22] == ToLE(f.relocSize, 4);
    hide Chunks, Start, FileOf, ToLE, Number;
    NumberInFile(stub, f, rest, 19, f.secVA, 4);
    NumberInFile(stub, f, rest, 20, f.secSize, 4);
    NumberInFile(stub, f, rest, 21, f.relocVA, 4);
    NumberInFile(stub, f, rest, 22, f.relocSize, 4);
  }

  /** Every field is read from its own bytes. */
  lemma FieldNumbers(stub: seq<byte>, f: Fields, rest: seq<byte>)
    requires ValidFields(f)
    ensures var pe, data := |stub|, FileOf(stub, f, rest);
      && pe + OPTIONAL_HEADER_UNION_SIZE <= |data|
      && ContextAt(data, pe)
         == Context(pe, f.imageBase, f.sizeOfImage, f.sizeOfHeaders, f.entryPoint, f.relocVA, f.relocSize,
                    f.numberOfRvaAndSizes, f.numberOfSections, pe + 24 + f.sizeOfOptionalHeader, f.secVA, f.secSize)
  {
    hide FileOf, Number, ValidFields;
    FileHeaderRead(stub, f, rest);
    OptionalHeaderRead(stub, f, rest);
    DirectoriesRead(stub, f, rest);
  }

  lemma PairInFile(stub: seq<byte>, f: Fields, rest: seq<byte>, i: nat, x: byte, y: byte)
    requires ValidFields(f) && i < |Chunks(f)| && Chunks(f)[i] == [x, y]
    ensures var at, data := |stub| + Start(Chunks(f), i), FileOf(stub, f, rest);
      at + 2 <= |data| && Number(data, at, 2) == x as nat + 0x100 * y as nat
  {
    hide Chunks, Start, FileOf, Number, ValidFields;
    ChunkInFile(stub, f, rest, i);
    var at, data := |stub| + Start(Chunks(f), i), FileOf(stub, f, rest);
    TwoBytes(data, at);
    assert data[at..at + 2][0] == data[at] && data[at..at + 2][1] == data[at + 1];
  }

  lemma StubFound(stub: seq<byte>, f: Fields, rest: seq<byte>)
    requires ValidStub(stub) && ValidFields(f)
    ensures |FileOf(stub, f, rest)| >= DOS_HEADER_SIZE && PeOffset(FileOf(stub, f, rest)) == |stub|
  {
    hide FileOf, ValidFields, Number;
    FileLength(stub, f, rest);
    MarksRead(stub, f, rest);
    if stub != [] {
      StubRead(stub, f, rest);
    }
  }

  lemma StubRead(stub: seq<byte>, f: Fields, rest: seq<byte>)
    requires ValidStub(stub) && stub != []
    ensures var data := FileOf(stub, f, rest);
      |data| >= 64 && Number(data, 0, 2) == DOS_SIGNATURE && Number(data, 60, 4) == |stub|
  {
    hide Chunks, Joined, ToLE, FromLE;
    var data := FileOf(stub, f, rest);
    assert data[60..64] == stub[60..64] && data[0] == stub[0] && data[1] == stub[1];
    FromToLE(|stub|, 4);
    WordSizes();
    TwoBytes(data, 0);
  }

  /** How the loader reads a file that was written field by field: it takes every field for what it is, and refuses
      the file only if relocations are stripped, the headers are larger than the image, or the certificate table is said
      to lie behind the file. */
  lemma FieldsRead(stub: seq<byte>, f: Fields, rest: seq<byte>)
    requires ValidStub(stub) && ValidFields(f)
    ensures var data := FileOf(stub, f, rest);
      ReadHeader(data) ==
        if f.characteristics % 2 == 1 || f.sizeOfImage < f.sizeOfHeaders then Refused(Unsupported)
        else if f.secVA >= |data| then Refused(InvalidParameter)
        else Read(Context(|stub|, f.imageBase, f.sizeOfImage, f.sizeOfHeaders, f.entryPoint, f.relocVA, f.relocSize,
                          f.numberOfRvaAndSizes, f.numberOfSections, |stub| + 24 + f.sizeOfOptionalHeader, f.secVA,
                          f.secSize))
  {
    hide FileOf, PeOffset, Number, ContextAt, ValidFields, ValidStub;
    StubFound(stub, f, rest);
    MarksRead(stub, f, rest);
    FileHeaderRead(stub, f, rest);
    FieldNumbers(stub, f, rest);
  }

  // ---- The section table ----

  /** A section header: name, sizes and addresses, and what only linkers and debuggers need. */
  function SectionHeader(name: seq<byte>, s: Section, others: seq<byte>): seq<byte> {
    name + ToLE(s.virtualSize, 4) + ToLE(s.virtualAddress, 4) + ToLE(s.rawSize, 4) + ToLE(s.rawPointer, 4) + others
  }

  predicate ValidHeader(name: seq<byte>, s: Section, others: seq<byte>) {
    && |name| == 8 && |others| == 4 + 4 + 2 + 2 + 4
    && s.virtualSize < TWO32 && s.virtualAddress < TWO32 && s.rawSize < TWO32 && s.rawPointer < TWO32
  }

  lemma SectionRead(data: seq<byte>, at: nat, name: seq<byte>, s: Section, others: seq<byte>)
    requires ValidHeader(name, s, others) && at + 40 <= |data| && data[at..at + 40] == SectionHeader(name, s, others)
    ensures SectionAt(data, at) == s
  {
    hide ToLE, FromLE;
    var h := data[at..at + 40];
    assert h[8..12] == ToLE(s.virtualSize, 4) && h[12..16] == ToLE(s.virtualAddress, 4);
    assert h[16..20] == ToLE(s.rawSize, 4) && h[20..24] == ToLE(s.rawPointer, 4);
    SliceOfSlice(data, at, at + 40, 8, 12);
    SliceOfSlice(data, at, at + 40, 12, 16);
    SliceOfSlice(data, at, at + 40, 16, 20);
    SliceOfSlice(data, at, at + 40, 20, 24);
    FromToLE(s.virtualSize, 4);
    FromToLE(s.virtualAddress, 4);
    FromToLE(s.rawSize, 4);
    FromToLE(s.rawPointer, 4);
    WordSizes();
  }
}
