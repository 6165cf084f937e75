/** What the hash of a file does not bind, and what it comes down to for a well-formed file. */
module HashLimits {
  import opened Bytes
  import opened PeImage
  import opened SectionSort
  import opened PeHash
  import opened PeHashLaws
  import opened ImageLayout
  import opened HashBinding
  import ImageCheck
  import Loader
  import PeFields
  import Relocation

  // ---- The two fields ----

  /** The bytes that the hash leaves out of the headers are those of the checksum and of the security directory entry,
      which stand behind the fifteenth and the nineteenth piece of the headers. */
  lemma SkippedAreFields(f: PeFields.Fields, pe: nat, k: nat)
    requires PeFields.ValidFields(f)
    ensures |PeFields.Chunks(f)| == 24
    ensures PeFields.Chunks(f)[15] == f.checksum
    ensures PeFields.Chunks(f)[19] == ToLE(f.secVA, 4) && PeFields.Chunks(f)[20] == ToLE(f.secSize, 4)
    ensures Skipped(pe, pe + k)
       <==> PeFields.Start(PeFields.Chunks(f), 15) <= k < PeFields.Start(PeFields.Chunks(f), 16)
            || PeFields.Start(PeFields.Chunks(f), 19) <= k < PeFields.Start(PeFields.Chunks(f), 21)
  {
    hide ToLE, PeFields.Start;
    PeFields.Starts(f);
  }

  // ---- The place of the certificate table ----

  /** No hashed byte behind the headers lies over the two fields that the hash leaves out. */
  ghost predicate FieldsUnused(data: seq<byte>)
    requires HashedFile(data)
  {
    var c := Header(data);
    && (forall s | s in SectionsOf(data) && s.rawSize > 0 ::
         AvoidsSkipped(c.pe, s.rawPointer, s.rawPointer + s.rawSize))
    && AvoidsSkipped(c.pe, HashedEnd(data), |data|)
  }

  /** The file with another place for its certificate table. */
  function Redirected(data: seq<byte>, v: nat): (r: seq<byte>)
    requires ReadHeader(data).Read?
    ensures |r| == |data|
  {
    hide Number;
    Overwrite(data, Header(data).pe + SECURITY_DIRECTORY, ToLE(v, 4))
  }

  lemma SameSlice(a: seq<byte>, b: seq<byte>, pe: nat, lo: nat, hi: nat)
    requires AgreeBelow(a, b, pe, |a|) && |a| == |b| && lo <= hi <= |a| && AvoidsSkipped(pe, lo, hi)
    ensures a[lo..hi] == b[lo..hi]
  {
  }

  lemma RedirectedBytes(data: seq<byte>, v: nat)
    requires ReadHeader(data).Read? && v < TWO32
    ensures var at, b := Header(data).pe + SECURITY_DIRECTORY, Redirected(data, v);
      && at + 4 <= |data| && Number(b, at, 4) == v
      && AgreeBelow(data, b, Header(data).pe, |data|)
      && forall k | 0 <= k < |data| && !(at <= k < at + 4) :: b[k] == data[k]
  {
    hide ReadHeader, ToLE, FromLE;
    PeOfContext(data);
    FromToLE(v, 4);
    WordSizes();
  }

  lemma RedirectedMarks(a: seq<byte>, b: seq<byte>, pe: nat)
    requires |a| == |b| && |a| >= DOS_HEADER_SIZE && pe + OPTIONAL_HEADER_UNION_SIZE <= |a|
    requires forall k | 0 <= k < |a| && !(pe + SECURITY_DIRECTORY <= k < pe + SECURITY_DIRECTORY + 4) :: b[k] == a[k]
    ensures PeOffset(b) == PeOffset(a) && Number(b, pe, 2) == Number(a, pe, 2)
    ensures Number(b, pe + CHARACTERISTICS, 2) == Number(a, pe + CHARACTERISTICS, 2)
    ensures Number(b, pe + OPTIONAL_HEADER, 2) == Number(a, pe + OPTIONAL_HEADER, 2)
  {
    hide Number;
    var lo, hi := pe + SECURITY_DIRECTORY, pe + SECURITY_DIRECTORY + 4;
    SameNumber(a, b, 0, 2, lo, hi);
    SameNumber(a, b, 60, 4, lo, hi);
    SameNumber(a, b, pe, 2, lo, hi);
    SameNumber(a, b, pe + CHARACTERISTICS, 2, lo, hi);
    SameNumber(a, b, pe + OPTIONAL_HEADER, 2, lo, hi);
  }

  lemma RedirectedHeader(data: seq<byte>, v: nat)
    requires ReadHeader(data).Read? && v < |data| && v < TWO32
    ensures ReadHeader(Redirected(data, v)) == Read(Header(data).(secVA := v))
  {
    hide Number, Redirected, AgreeBelow, PeOffset, ContextAt;
    RedirectedBytes(data, v);
    PeOfContext(data);
    RedirectedMarks(data, Redirected(data, v), Header(data).pe);
    RedirectedContext(data, Redirected(data, v), Header(data).pe);
  }

  lemma RedirectedContext(a: seq<byte>, b: seq<byte>, pe: nat)
    requires |a| == |b| && pe + OPTIONAL_HEADER_UNION_SIZE <= |a|
    requires forall k | 0 <= k < |a| && !(pe + SECURITY_DIRECTORY <= k < pe + SECURITY_DIRECTORY + 4) :: b[k] == a[k]
    ensures ContextAt(b, pe) == ContextAt(a, pe).(secVA := Number(b, pe + SECURITY_DIRECTORY, 4))
  {
    hide Number;
    var lo, hi := pe + SECURITY_DIRECTORY, pe + SECURITY_DIRECTORY + 4;
    forall at, width | 0 <= at && 0 <= width && at + width <= |a| && (at + width <= lo || hi <= at)
      ensures Number(a, at, width) == Number(b, at, width)
    {
      SameNumber(a, b, at, width, lo, hi);
    }
  }

  /** Of what does not change with the place of the certificate table. */
  lemma RedirectedHashed(data: seq<byte>, v: nat)
    requires HashedFile(data) && HeadersCover(Header(data)) && v < |data| && v < TWO32
    ensures var b := Redirected(data, v);
      && ReadHeader(b) == Read(Header(data).(secVA := v)) && HashedFile(b) && SectionsOf(b) == SectionsOf(data)
  {
    var a, b := data, Redirected(data, v);
    RedirectedHeader(data, v);
    RedirectedBytes(data, v);
    ContextParts(data);
    HashedParts(data);
    hide ReadHeader, ContextAt, Redirected, AgreeBelow, Header, SectionTable, AvoidsSkipped, HashedFile, SectionsOf,
         PeHash.Readable, Accepted, RawInFile, BeyondFile;
    var c := Header(data);
    SameTable(a, b, c.pe, |a|, c.firstSection, c.numberOfSections);
    StillReadable(a, b, c, v, SectionsOf(a));
    HashedMake(b, c.(secVA := v), SectionsOf(a));
  }

  lemma StillReadable(a: seq<byte>, b: seq<byte>, c: Context, v: nat, table: seq<Section>)
    requires |a| == |b| && PeHash.Readable(a, c, table) && Accepted(a, table)
    ensures PeHash.Readable(b, c.(secVA := v), table) && Accepted(b, table)
  {
    hide RawTotal;
  }

  lemma HashedMake(b: seq<byte>, c: Context, table: seq<Section>)
    requires ReadHeader(b) == Read(c) && ImageCheck.TableInFile(b, c)
    requires SectionTable(b, c.firstSection, c.numberOfSections) == table
    requires PeHash.Readable(b, c, table) && Accepted(b, table)
    ensures HashedFile(b) && Header(b) == c && SectionsOf(b) == table
  {
    hide ReadHeader, SectionTable, PeHash.Readable, Accepted;
  }

  /** The hash does not bind the place of the certificate table: every place in the file is accepted with the same
      hash input. */
  lemma CertificatePlaceUnbound(a: seq<byte>, v: nat)
    requires HashedFile(a) && HeadersCover(Header(a)) && FieldsUnused(a) && v < |a|
    ensures var b := Redirected(a, v);
      && ReadHeader(b) == Read(Header(a).(secVA := v)) && HashedFile(b)
      && SectionsOf(b) == SectionsOf(a) && InputOf(b) == InputOf(a)
  {
    HashedParts(a);
    RedirectedHashed(a, v);
    RedirectedBytes(a, v);
    var b := Redirected(a, v);
    hide Redirected, HashedFile, Header, SectionsOf, InputOf, HeadersCover, RawBytes, FieldsUnused, ReadHeader,
         SectionTable, PeHash.Readable, Accepted, RawInFile, BeyondFile, AgreeBelow, TailOf, Number, ContextAt,
         RawTotal;
    AgreeShorter(a, b, Header(a).pe, |a|, Header(a).sizeOfHeaders);
    ContextParts(a);
    ContextParts(b);
    forall s | s in SectionsOf(a)
      ensures RawBytes(a, s) == RawBytes(b, s)
    {
      RedirectedRaw(a, b, s);
    }
    RedirectedTail(a, b);
    HashBindsIff(a, b);
  }

  lemma AgreeShorter(a: seq<byte>, b: seq<byte>, pe: nat, end: nat, n: nat)
    requires AgreeBelow(a, b, pe, end) && n <= end
    ensures AgreeBelow(a, b, pe, n)
  {
  }

  lemma RedirectedRaw(a: seq<byte>, b: seq<byte>, s: Section)
    requires HashedFile(a) && HashedFile(b) && FieldsUnused(a) && s in SectionsOf(a)
    requires AgreeBelow(a, b, Header(a).pe, |a|) && |a| == |b|
    ensures RawInFile(a, s) && !BeyondFile(a, s) && RawInFile(b, s) && !BeyondFile(b, s)
    ensures RawBytes(a, s) == RawBytes(b, s)
  {
    hide Header, SectionsOf, AgreeBelow, AvoidsSkipped, RawInFile, BeyondFile, RawBytes, FieldsUnused, ReadHeader,
         PeHash.Readable, Accepted, ImageCheck.Sections, ImageCheck.TableInFile;
    RawHashed(a, s);
    RawUnused(a, s);
    UnusedRaw(a, b, Header(a).pe, s);
  }

  lemma RawHashed(data: seq<byte>, s: Section)
    requires HashedFile(data) && s in SectionsOf(data)
    ensures RawInFile(data, s) && !BeyondFile(data, s)
  {
    hide HashedFile, Header, SectionsOf, RawInFile, BeyondFile, ReadHeader, ContextAt, SectionTable;
    ContextParts(data);
  }

  lemma RawUnused(data: seq<byte>, s: Section)
    requires HashedFile(data) && FieldsUnused(data) && s in SectionsOf(data)
    ensures s.rawSize > 0 ==> AvoidsSkipped(Header(data).pe, s.rawPointer, s.rawPointer + s.rawSize)
  {
    hide HashedFile, Header, SectionsOf, HashedEnd, AvoidsSkipped;
  }

  lemma UnusedRaw(a: seq<byte>, b: seq<byte>, pe: nat, s: Section)
    requires AgreeBelow(a, b, pe, |a|) && |a| == |b| && RawInFile(a, s) && !BeyondFile(a, s)
    requires s.rawSize > 0 ==> AvoidsSkipped(pe, s.rawPointer, s.rawPointer + s.rawSize)
    ensures RawInFile(b, s) && !BeyondFile(b, s) && RawBytes(a, s) == RawBytes(b, s)
  {
    hide AgreeBelow, AvoidsSkipped;
    if s.rawSize > 0 {
      SameSlice(a, b, pe, s.rawPointer, s.rawPointer + s.rawSize);
    }
  }

  lemma RedirectedTail(a: seq<byte>, b: seq<byte>)
    requires HashedFile(a) && HashedFile(b) && FieldsUnused(a)
    requires AgreeBelow(a, b, Header(a).pe, |a|) && |a| == |b|
    requires Header(b) == Header(a).(secVA := Header(b).secVA) && SectionsOf(b) == SectionsOf(a)
    ensures TailOf(a) == TailOf(b)
  {
    HashedParts(a);
    HashedParts(b);
    SameEnd(a, b);
    hide HashedFile, Header, SectionsOf, HashedEnd, AgreeBelow, AvoidsSkipped, TailBytes, PeHash.Readable, Accepted;
    SameTail(a, b, Header(a).pe, HashedEnd(a), Header(a).secSize);
  }

  lemma SameEnd(a: seq<byte>, b: seq<byte>)
    requires HashedFile(a) && HashedFile(b)
    requires Header(b) == Header(a).(secVA := Header(b).secVA) && SectionsOf(b) == SectionsOf(a)
    ensures HashedEnd(b) == HashedEnd(a)
  {
    hide HashedFile, Header, SectionsOf, RawTotal;
  }

  lemma SameTail(a: seq<byte>, b: seq<byte>, pe: nat, hashed: nat, certSize: nat)
    requires AgreeBelow(a, b, pe, |a|) && |a| == |b| && AvoidsSkipped(pe, hashed, |a|)
    requires hashed < |a| ==> hashed + certSize <= |a|
    ensures TailBytes(a, hashed, certSize) == TailBytes(b, hashed, certSize)
  {
    if hashed < |a| {
      SameSlice(a, b, pe, hashed, |a| - certSize);
    }
  }

  // ---- Well-formed files ----

  /** An accepted file that is well-formed: its sections follow the headers without gaps, and its certificate table is
      where it ends. */
  ghost predicate Proper(data: seq<byte>, order: seq<Section>) {
    && ReadHeader(data).Read? && ImageCheck.TableInFile(data, Header(data))
    && WellFormed(data, Header(data), ImageCheck.Sections(data, Header(data)), order)
  }

  /** It is hashed, and nothing but the headers lies over the two fields, so any place for its certificate table will
      do. */
  lemma ProperHashed(data: seq<byte>, order: seq<Section>)
    requires Proper(data, order)
    ensures HashedFile(data) && FieldsUnused(data)
    ensures Header(data).pe + SECURITY_DIRECTORY + DATA_DIRECTORY_SIZE <= Header(data).sizeOfHeaders
    ensures Header(data).sizeOfHeaders <= Header(data).secVA <= |data|
    ensures InputOf(data) == FileMinusRegions(data, Header(data))
  {
    hide ReadHeader, FileMinusRegions, HashInput, PeHash.Readable, Accepted, ImageCheck.Sections, Tiles, NonEmpty, Sum,
         RawTotal;
    var c := Header(data);
    HashCoversFile(data, c, ImageCheck.Sections(data, c), order);
    ProperEnd(data, order);
    forall s | s in SectionsOf(data) && s.rawSize > 0
      ensures AvoidsSkipped(c.pe, s.rawPointer, s.rawPointer + s.rawSize)
    {
      SectionBehind(SectionsOf(data), order, c.sizeOfHeaders, s);
    }
  }

  lemma SectionBehind(table: seq<Section>, order: seq<Section>, start: nat, s: Section)
    requires multiset(order) == multiset(NonEmpty(table)) && Tiles(order, start)
    requires s in table && s.rawSize > 0
    ensures start <= s.rawPointer
  {
    hide Tiles, NonEmpty;
    NonEmptyMember(table, s);
    assert s in multiset(order);
    TilesBelow(order, start, s);
  }

  lemma ProperEnd(data: seq<byte>, order: seq<Section>)
    requires Proper(data, order) && HashedFile(data)
    ensures Header(data).sizeOfHeaders <= HashedEnd(data)
  {
    hide ReadHeader, ImageCheck.Sections, PeHash.Readable, Accepted, Tiles, NonEmpty, Sum, RawTotal;
    OrderIsSorted(SectionsOf(data), order, Header(data).sizeOfHeaders);
    RawTotalIsSum(SectionsOf(data));
  }

  /** Well-formed files, each read by itself, have the same hash input exactly if they have their headers and their
      certificate table in the same places and agree up to the latter outside the two fields. */
  lemma ProperInputIff(a: seq<byte>, b: seq<byte>, orderA: seq<Section>, orderB: seq<Section>)
    requires Proper(a, orderA) && Proper(b, orderB)
    ensures HashedFile(a) && HashedFile(b)
    ensures var ca, cb := Header(a), Header(b);
      InputOf(a) == InputOf(b)
      <==> ca.pe == cb.pe && ca.secVA == cb.secVA && AgreeBelow(a, b, ca.pe, ca.secVA)
  {
    ProperHashed(a, orderA);
    ProperHashed(b, orderB);
    hide Proper, HashedFile, InputOf, HeaderBytes, FileMinusRegions, FieldsUnused, AgreeBelow, ReadHeader, Header;
    ContextParts(a);
    ContextParts(b);
    var ca, cb := Header(a), Header(b);
    var ea, eb := ca.(sizeOfHeaders := ca.secVA), cb.(sizeOfHeaders := cb.secVA);
    MinusRegions(a, ca);
    MinusRegions(b, cb);
    if InputOf(a) == InputOf(b) {
      SameHeaders(a, b, ca, cb, InputOf(a));
      SameLarger(a, b, ea, eb);
    } else if ca.pe == cb.pe && ca.secVA == cb.secVA && AgreeBelow(a, b, ca.pe, ca.secVA) {
      SameHeaderBytes(a, b, ea, eb);
      assert false;
    }
  }

  /** The file without its regions is what the headers would give if they reached up to the certificate table. */
  lemma MinusRegions(data: seq<byte>, c: Context)
    requires c.pe + SECURITY_DIRECTORY + DATA_DIRECTORY_SIZE <= c.sizeOfHeaders <= c.secVA <= |data|
    ensures FileMinusRegions(data, c) == HeaderBytes(data, c.(sizeOfHeaders := c.secVA))
    ensures HeaderBytes(data, c) <= FileMinusRegions(data, c)
  {
    var h := c.pe + SECURITY_DIRECTORY + DATA_DIRECTORY_SIZE;
    assert data[h..c.secVA] == data[h..c.sizeOfHeaders] + data[c.sizeOfHeaders..c.secVA];
    assert FileMinusRegions(data, c) == HeaderBytes(data, c) + data[c.sizeOfHeaders..c.secVA];
  }

  lemma SameLarger(a: seq<byte>, b: seq<byte>, ca: Context, cb: Context)
    requires ca.pe + SECURITY_DIRECTORY + DATA_DIRECTORY_SIZE <= ca.sizeOfHeaders <= |a|
    requires cb.pe + SECURITY_DIRECTORY + DATA_DIRECTORY_SIZE <= cb.sizeOfHeaders <= |b|
    requires ca.pe == cb.pe && HeaderBytes(a, ca) == HeaderBytes(b, cb)
    ensures ca.sizeOfHeaders == cb.sizeOfHeaders && AgreeBelow(a, b, ca.pe, ca.sizeOfHeaders)
  {
    hide HeaderBytes;
    HeaderBytesAt(a, ca, 0);
    HeaderBytesAt(b, cb, 0);
    forall k | 0 <= k < ca.sizeOfHeaders && !Skipped(ca.pe, k)
      ensures a[k] == b[k]
    {
      assert HeaderBytes(a, ca)[Moved(ca.pe, k)] == HeaderBytes(b, cb)[Moved(ca.pe, k)];
    }
  }

  // ---- A section table that the headers do not cover ----

  const SMALL_SIZE := OPTIONAL_HEADER_UNION_SIZE
  const TABLE_FILE_SIZE := SMALL_SIZE + SECTION_HEADER_SIZE

  /** Headers of the smallest size, and behind them a certificate table in which the only section header stands. It
      asks for one byte of zeros at address va. */
  function TableFile(va: byte): (data: seq<byte>)
    ensures |data| == TABLE_FILE_SIZE
  {
    seq(TABLE_FILE_SIZE, k =>
      if k == 0 then 0x50 else if k == 1 then 0x45
      else if k == NUMBER_OF_SECTIONS then 1
      else if k == SIZE_OF_OPTIONAL_HEADER then (SMALL_SIZE - OPTIONAL_HEADER) as byte
      else if k == OPTIONAL_HEADER then 0x0B else if k == OPTIONAL_HEADER + 1 then 0x02
      else if k in {SIZE_OF_IMAGE, SIZE_OF_HEADERS, SECURITY_DIRECTORY} then (SMALL_SIZE % 0x100) as byte
      else if k in {SIZE_OF_IMAGE + 1, SIZE_OF_HEADERS + 1, SECURITY_DIRECTORY + 1} then (SMALL_SIZE / 0x100) as byte
      else if k == SECURITY_DIRECTORY + 4 then SECTION_HEADER_SIZE as byte
      else if k == SMALL_SIZE + 8 then 1 else if k == SMALL_SIZE + 12 then va
      else 0)
  }

  lemma LowBytes(data: seq<byte>, at: nat, width: nat)
    requires 2 <= width && at + width <= |data|
    requires forall k | at + 2 <= k < at + width :: data[k] == 0
    ensures Number(data, at, width) == data[at] as nat + 0x100 * data[at + 1] as nat
  {
    hide Number;
    NumberStep(data, at, width);
    NumberStep(data, at + 1, width - 1);
    ZeroNumber(data, at + 2, width - 2);
  }

  const TABLE_CONTEXT :=
    Context(0, 0, SMALL_SIZE, SMALL_SIZE, 0, 0, 0, 0, 1, SMALL_SIZE, SMALL_SIZE, SECTION_HEADER_SIZE)

  lemma TableFileZeros(va: byte)
    ensures var data := TableFile(va);
      && Number(data, IMAGE_BASE, 8) == Number(data, ENTRY_POINT, 4) == Number(data, NUMBER_OF_RVA_AND_SIZES, 4) == 0
      && Number(data, BASERELOC_DIRECTORY, 4) == Number(data, BASERELOC_DIRECTORY + 4, 4) == 0
  {
    hide Number;
    var data := TableFile(va);
    ZeroNumber(data, IMAGE_BASE, 8);
    ZeroNumber(data, ENTRY_POINT, 4);
    ZeroNumber(data, NUMBER_OF_RVA_AND_SIZES, 4);
    ZeroNumber(data, BASERELOC_DIRECTORY, 4);
    ZeroNumber(data, BASERELOC_DIRECTORY + 4, 4);
  }

  lemma TableFileSizes(va: byte)
    ensures var data := TableFile(va);
      && Number(data, NUMBER_OF_SECTIONS, 2) == 1
      && OPTIONAL_HEADER + Number(data, SIZE_OF_OPTIONAL_HEADER, 2) == SMALL_SIZE
      && Number(data, SIZE_OF_IMAGE, 4) == Number(data, SIZE_OF_HEADERS, 4) == SMALL_SIZE
      && Number(data, SECURITY_DIRECTORY, 4) == SMALL_SIZE
      && Number(data, SECURITY_DIRECTORY + 4, 4) == SECTION_HEADER_SIZE
  {
    hide Number;
    var data := TableFile(va);
    LowBytes(data, NUMBER_OF_SECTIONS, 2);
    LowBytes(data, SIZE_OF_OPTIONAL_HEADER, 2);
    LowBytes(data, SIZE_OF_IMAGE, 4);
    LowBytes(data, SIZE_OF_HEADERS, 4);
    LowBytes(data, SECURITY_DIRECTORY, 4);
    LowBytes(data, SECURITY_DIRECTORY + 4, 4);
  }

  lemma TableFileContext(va: byte)
    ensures ContextAt(TableFile(va), 0) == TABLE_CONTEXT
  {
    hide Number, TableFile;
    TableFileZeros(va);
    TableFileSizes(va);
  }

  lemma TableFileMarks(va: byte)
    ensures var data := TableFile(va);
      && Number(data, 0, 2) == NT_SIGNATURE && Number(data, CHARACTERISTICS, 2) == 0
      && Number(data, OPTIONAL_HEADER, 2) == NT_OPTIONAL_HDR64_MAGIC
  {
    hide Number;
    var data := TableFile(va);
    LowBytes(data, 0, 2);
    LowBytes(data, CHARACTERISTICS, 2);
    LowBytes(data, OPTIONAL_HEADER, 2);
  }

  lemma TableFileHeader(va: byte)
    ensures ReadHeader(TableFile(va)) == Read(TABLE_CONTEXT)
  {
    hide Number, TableFile, ContextAt;
    TableFileMarks(va);
    TableFileContext(va);
  }

  lemma TableFileSections(va: byte)
    ensures SectionTable(TableFile(va), SMALL_SIZE, 1) == [Section(1, va as nat, 0, 0)]
  {
    hide Number;
    var data := TableFile(va);
    LowBytes(data, SMALL_SIZE + 8, 4);
    LowBytes(data, SMALL_SIZE + 12, 4);
    LowBytes(data, SMALL_SIZE + 16, 4);
    LowBytes(data, SMALL_SIZE + 20, 4);
  }

  /** A single section without data. */
  lemma EmptySection(x: Section)
    requires x.rawSize == 0
    ensures RawTotal([x]) == 0 && Sum([x]) == 0 && Sort([x]) == [x]
  {
    assert [x][..0] == [];
    assert Sort([x]) == Insert(Sort([]), x) && Sort([]) == [];
  }

  lemma TableFileReadable(data: seq<byte>, x: Section)
    requires |data| == TABLE_FILE_SIZE && x.rawSize == 0
    ensures PeHash.Readable(data, TABLE_CONTEXT, [x]) && Accepted(data, [x])
  {
    EmptySection(x);
    hide RawTotal;
  }

  lemma TableFileHashed(va: byte)
    ensures HashedFile(TableFile(va)) && Header(TableFile(va)) == TABLE_CONTEXT
    ensures SectionsOf(TableFile(va)) == [Section(1, va as nat, 0, 0)]
  {
    hide TableFile, ReadHeader, SectionTable, PeHash.Readable, Accepted, HashedFile, SectionsOf, Header;
    TableFileHeader(va);
    TableFileSections(va);
    TableFileReadable(TableFile(va), Section(1, va as nat, 0, 0));
    HashedMake(TableFile(va), TABLE_CONTEXT, [Section(1, va as nat, 0, 0)]);
  }

  /** Only the headers are hashed. */
  lemma TableFileInput(va: byte)
    ensures HashedFile(TableFile(va)) && InputOf(TableFile(va)) == HeaderBytes(TableFile(va), TABLE_CONTEXT)
  {
    hide TableFile, HashedFile, SectionsOf, Header, HeaderBytes, SectionBytes, Sort, Sum, RawTotal, InputOf;
    var data, table := TableFile(va), [Section(1, va as nat, 0, 0)];
    TableFileHashed(va);
    EmptySection(table[0]);
    InputParts(data);
    SectionBytesLength(data, table);
    assert |TailOf(data)| == 0;
  }

  /** The loader places the file's sections. */
  ghost predicate Placed(data: seq<byte>, buffer: seq<byte>) {
    && HashedFile(data) && |buffer| == Header(data).imageSize
    && Loader.CopiesInBounds(data, Header(data)) && Loader.AllPlaceable(data, Header(data))
  }

  /** Two accepted files with the same hash input, other sections and another image. */
  ghost predicate Confused(a: seq<byte>, b: seq<byte>, buffer: seq<byte>) {
    && Placed(a, buffer) && Placed(b, buffer)
    && InputOf(a) == InputOf(b)
    && SectionsOf(a) != SectionsOf(b)
    && Loader.Copied(buffer, a, Header(a)) != Loader.Copied(buffer, b, Header(b))
  }

  lemma TableFilePlaced(va: byte, buffer: seq<byte>)
    requires |buffer| == SMALL_SIZE && 0 < va < 100
    ensures Placed(TableFile(va), buffer)
  {
    hide TableFile, HashedFile, SectionsOf, Header, Loader.CopiesInBounds, Loader.AllPlaceable;
    TableFileHashed(va);
    LoaderSections(TableFile(va));
  }

  /** The one byte that the section asks for. */
  lemma OneByteLaidOut(buffer: seq<byte>, data: seq<byte>, va: nat, k: nat)
    requires |buffer| == SMALL_SIZE == TABLE_CONTEXT.imageSize && |data| == TABLE_FILE_SIZE && 0 < va < 100 && k < 100
    requires HashedFile(data) && Header(data) == TABLE_CONTEXT && SectionsOf(data) == [Section(1, va, 0, 0)]
    requires Placed(data, buffer)
    ensures Loader.Copied(buffer, data, Header(data))[k] == if k == va then 0 else data[k]
  {
    hide HashedFile, SectionsOf, Header, Layout, Loader.Copied, Loader.CopiesInBounds, Loader.AllPlaceable, Overwrite;
    CopiedIs(buffer, data);
    var image := Overwrite(buffer, 0, data[..SMALL_SIZE]);
    assert image[0..SMALL_SIZE][k] == image[k];
    OneByteSection(image, data, Section(1, va, 0, 0), k);
  }

  lemma OneByteSection(image: seq<byte>, data: seq<byte>, s: Section, k: nat)
    requires s.virtualSize == 1 && s.rawSize == 0 && s.virtualAddress < |image| && k < |image|
    ensures Fits(data, |image|, s) && Layout(image, data, [s])[k] == if k == s.virtualAddress then 0 else image[k]
  {
    hide Layout;
    assert Contents(data, s) == Zeros(1);
    if k == s.virtualAddress {
      LayoutInside(image, data, [s], s, k);
    } else {
      LayoutOutside(image, data, [s], k);
    }
  }

  lemma TableFilesAgree()
    ensures var a, b := TableFile(1), TableFile(2);
      a[1] == b[1] == 0x45 && AgreeBelow(a, b, 0, SMALL_SIZE)
  {
  }

  /** Then the hash binds neither the section table nor the image. */
  lemma TableUnbound(buffer: seq<byte>)
    requires |buffer| == SMALL_SIZE
    ensures Confused(TableFile(1), TableFile(2), buffer)
  {
    hide TableFile, HashedFile, SectionsOf, Header, Loader.Copied, Loader.CopiesInBounds, Loader.AllPlaceable,
         HeaderBytes, InputOf, AgreeBelow, Placed;
    var a, b := TableFile(1), TableFile(2);
    TableFilesAgree();
    SameHeaderBytes(a, b, TABLE_CONTEXT, TABLE_CONTEXT);
    TableFileInput(1);
    TableFileInput(2);
    TableFileHashed(1);
    TableFileHashed(2);
    TableFilePlaced(1, buffer);
    TableFilePlaced(2, buffer);
    OneByteLaidOut(buffer, a, 1, 1);
    OneByteLaidOut(buffer, b, 2, 1);
  }
}
