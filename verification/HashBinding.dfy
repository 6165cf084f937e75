/** What the hash of a file binds: two accepted files with the same hash input, each read by itself, have the same
    headers, section table and section contents, and lead to the same image in memory, if the headers cover the section
    table. */
module HashBinding {
  import opened Bytes
  import opened PeImage
  import opened SectionSort
  import opened PeHash
  import opened PeHashLaws
  import opened Relocation
  import opened ImageLayout
  import ImageCheck
  import Loader
  import RelocationLaws

  /** The two header fields that the hash leaves out. */
  predicate Skipped(pe: nat, k: nat) {
    || pe + CHECKSUM <= k < pe + CHECKSUM + CHECKSUM_SIZE
    || pe + SECURITY_DIRECTORY <= k < pe + SECURITY_DIRECTORY + DATA_DIRECTORY_SIZE
  }

  predicate AvoidsSkipped(pe: nat, lo: nat, hi: nat) {
    forall k | lo <= k < hi :: !Skipped(pe, k)
  }

  function Header(data: seq<byte>): Context
    requires ReadHeader(data).Read?
  {
    ReadHeader(data).context
  }

  /** Accepted as a PE image and by the hash, whose reads stay in the file. */
  ghost predicate HashedFile(data: seq<byte>) {
    && ReadHeader(data).Read?
    && ImageCheck.TableInFile(data, Header(data))
    && PeHash.Readable(data, Header(data), ImageCheck.Sections(data, Header(data)))
    && Accepted(data, ImageCheck.Sections(data, Header(data)))
  }

  function SectionsOf(data: seq<byte>): seq<Section>
    requires HashedFile(data)
  {
    ImageCheck.Sections(data, Header(data))
  }

  function InputOf(data: seq<byte>): seq<byte>
    requires HashedFile(data)
  {
    HashInput(data, Header(data), SectionsOf(data))
  }

  /** Where the hash takes the sections to end, in its 32-bit counter. */
  function HashedEnd(data: seq<byte>): nat
    requires HashedFile(data)
  {
    (Header(data).sizeOfHeaders + RawTotal(SectionsOf(data))) % TWO32
  }

  lemma HashedParts(data: seq<byte>)
    requires HashedFile(data)
    ensures PeHash.Readable(data, Header(data), SectionsOf(data)) && Accepted(data, SectionsOf(data))
    ensures |data| < TWO32 && Header(data).sizeOfHeaders <= |data|
    ensures HashedEnd(data) < |data| ==> HashedEnd(data) + Header(data).secSize <= |data|
  {
    hide ReadHeader, ImageCheck.Sections, Accepted, RawTotal;
  }

  /** The part of the file behind the sections, as far as it is hashed. */
  function TailOf(data: seq<byte>): seq<byte>
    requires HashedFile(data)
  {
    HashedParts(data);
    TailBytes(data, HashedEnd(data), Header(data).secSize)
  }

  /** The headers cover the directories and the section table, which does not lie over the two fields. */
  predicate HeadersCover(c: Context) {
    var end := c.firstSection + c.numberOfSections * SECTION_HEADER_SIZE;
    && c.pe + BASERELOC_DIRECTORY + DATA_DIRECTORY_SIZE <= c.sizeOfHeaders
    && end <= c.sizeOfHeaders
    && AvoidsSkipped(c.pe, c.firstSection, end)
  }

  /** Equal below end, but for the fields that the hash leaves out. */
  ghost predicate AgreeBelow(a: seq<byte>, b: seq<byte>, pe: nat, end: nat) {
    && end <= |a| && end <= |b|
    && forall k | 0 <= k < end && !Skipped(pe, k) :: a[k] == b[k]
  }

  /** All that is hashed is the same in both files, each read by itself. */
  ghost predicate SameHashed(a: seq<byte>, b: seq<byte>)
    requires HashedFile(a) && HashedFile(b)
  {
    && Header(b) == Header(a).(secVA := Header(b).secVA, secSize := Header(b).secSize)
    && SectionsOf(b) == SectionsOf(a)
    && AgreeBelow(a, b, Header(a).pe, Header(a).sizeOfHeaders)
    && (forall s | s in SectionsOf(a) :: RawBytes(a, s) == RawBytes(b, s))
    && TailOf(a) == TailOf(b)
  }

  // ---- The headers ----

  function Moved(pe: nat, k: nat): nat
    requires !Skipped(pe, k)
  {
    if k < pe + CHECKSUM then k
    else if k < pe + SECURITY_DIRECTORY then k - CHECKSUM_SIZE
    else k - CHECKSUM_SIZE - DATA_DIRECTORY_SIZE
  }

  /** The headers stand in front of the input, without the two fields. */
  lemma HeaderBytesAt(data: seq<byte>, c: Context, n: nat)
    requires c.pe + SECURITY_DIRECTORY + DATA_DIRECTORY_SIZE <= c.sizeOfHeaders <= |data| && n <= c.pe + CHECKSUM
    ensures |HeaderBytes(data, c)| == c.sizeOfHeaders - CHECKSUM_SIZE - DATA_DIRECTORY_SIZE
    ensures n <= |HeaderBytes(data, c)| && HeaderBytes(data, c)[..n] == data[..n]
    ensures forall k | 0 <= k < c.sizeOfHeaders && !Skipped(c.pe, k) ::
      Moved(c.pe, k) < |HeaderBytes(data, c)| && HeaderBytes(data, c)[Moved(c.pe, k)] == data[k]
  {
  }

  /** Two files whose headers stand in front of the same bytes agree on them. */
  lemma SameHeaders(a: seq<byte>, b: seq<byte>, ca: Context, cb: Context, input: seq<byte>)
    requires ReadHeader(a) == Read(ca) && ReadHeader(b) == Read(cb)
    requires ca.pe + SECURITY_DIRECTORY + DATA_DIRECTORY_SIZE <= ca.sizeOfHeaders <= |a|
    requires cb.pe + SECURITY_DIRECTORY + DATA_DIRECTORY_SIZE <= cb.sizeOfHeaders <= |b|
    requires HeaderBytes(a, ca) <= input && HeaderBytes(b, cb) <= input
    ensures ca.pe == cb.pe && ca.sizeOfHeaders == cb.sizeOfHeaders && AgreeBelow(a, b, ca.pe, ca.sizeOfHeaders)
  {
    hide ReadHeader, ContextAt, PeOffset, HeaderBytes, Number;
    PeOfContext(a);
    PeOfContext(b);
    HeaderBytesAt(a, ca, DOS_HEADER_SIZE);
    HeaderBytesAt(b, cb, DOS_HEADER_SIZE);
    SameFront(HeaderBytes(a, ca), HeaderBytes(b, cb), input, DOS_HEADER_SIZE);
    SamePeOffset(a, b);
    var n := ca.pe + CHECKSUM;
    HeaderBytesAt(a, ca, n);
    HeaderBytesAt(b, cb, n);
    SameFront(HeaderBytes(a, ca), HeaderBytes(b, cb), input, n);
    SameSize(a, b, ca.pe);
    forall k | 0 <= k < ca.sizeOfHeaders && !Skipped(ca.pe, k)
      ensures a[k] == b[k]
    {
      var m := Moved(ca.pe, k);
      assert HeaderBytes(a, ca)[m] == input[m] == HeaderBytes(b, cb)[m];
    }
  }

  lemma SameFront(x: seq<byte>, y: seq<byte>, input: seq<byte>, n: nat)
    requires x <= input && y <= input && n <= |x| && n <= |y|
    ensures x[..n] == y[..n]
  {
    assert x[..n] == input[..n] && y[..n] == input[..n];
  }

  lemma SamePeOffset(a: seq<byte>, b: seq<byte>)
    requires |a| >= DOS_HEADER_SIZE && |b| >= DOS_HEADER_SIZE && a[..DOS_HEADER_SIZE] == b[..DOS_HEADER_SIZE]
    ensures PeOffset(a) == PeOffset(b)
  {
    assert a[0..2] == a[..DOS_HEADER_SIZE][0..2] && b[0..2] == b[..DOS_HEADER_SIZE][0..2];
    assert a[60..64] == a[..DOS_HEADER_SIZE][60..64] && b[60..64] == b[..DOS_HEADER_SIZE][60..64];
  }

  lemma SameSize(a: seq<byte>, b: seq<byte>, pe: nat)
    requires pe + OPTIONAL_HEADER_UNION_SIZE <= |a| && pe + OPTIONAL_HEADER_UNION_SIZE <= |b|
    requires a[..pe + CHECKSUM] == b[..pe + CHECKSUM]
    ensures ContextAt(a, pe).sizeOfHeaders == ContextAt(b, pe).sizeOfHeaders
  {
    var lo, hi := pe + SIZE_OF_HEADERS, pe + CHECKSUM;
    assert a[lo..hi] == a[..hi][lo..hi] && b[lo..hi] == b[..hi][lo..hi];
  }

  lemma PeOfContext(data: seq<byte>)
    requires ReadHeader(data).Read?
    ensures |data| >= DOS_HEADER_SIZE && PeOffset(data) + OPTIONAL_HEADER_UNION_SIZE <= |data|
    ensures ReadHeader(data).context == ContextAt(data, PeOffset(data))
    ensures ReadHeader(data).context.pe == PeOffset(data)
  {
    hide Number;
  }

  lemma SameNumberBelow(a: seq<byte>, b: seq<byte>, pe: nat, end: nat, at: nat, width: nat)
    requires AgreeBelow(a, b, pe, end) && at + width <= end && AvoidsSkipped(pe, at, at + width)
    ensures Number(a, at, width) == Number(b, at, width)
  {
    assert a[at..at + width] == b[at..at + width];
  }

  lemma SameHeader(a: seq<byte>, b: seq<byte>, pe: nat, end: nat)
    requires AgreeBelow(a, b, pe, end) && pe + BASERELOC_DIRECTORY + DATA_DIRECTORY_SIZE <= end
    requires pe + OPTIONAL_HEADER_UNION_SIZE <= |a| && pe + OPTIONAL_HEADER_UNION_SIZE <= |b|
    ensures var x, y := ContextAt(a, pe), ContextAt(b, pe);
      y == x.(secVA := y.secVA, secSize := y.secSize)
  {
    hide Number, AgreeBelow;
    SameNumberBelow(a, b, pe, end, pe + IMAGE_BASE, 8);
    SameNumberBelow(a, b, pe, end, pe + SIZE_OF_IMAGE, 4);
    SameNumberBelow(a, b, pe, end, pe + SIZE_OF_HEADERS, 4);
    SameNumberBelow(a, b, pe, end, pe + ENTRY_POINT, 4);
    SameNumberBelow(a, b, pe, end, pe + BASERELOC_DIRECTORY, 4);
    SameNumberBelow(a, b, pe, end, pe + BASERELOC_DIRECTORY + 4, 4);
    SameNumberBelow(a, b, pe, end, pe + NUMBER_OF_RVA_AND_SIZES, 4);
    SameNumberBelow(a, b, pe, end, pe + NUMBER_OF_SECTIONS, 2);
    SameNumberBelow(a, b, pe, end, pe + SIZE_OF_OPTIONAL_HEADER, 2);
  }

  lemma {:induction false} SameTable(a: seq<byte>, b: seq<byte>, pe: nat, end: nat, at: nat, n: nat)
    requires AgreeBelow(a, b, pe, end) && at + n * SECTION_HEADER_SIZE <= end
    requires AvoidsSkipped(pe, at, at + n * SECTION_HEADER_SIZE)
    ensures SectionTable(a, at, n) == SectionTable(b, at, n)
    decreases n
  {
    hide Number, AgreeBelow, Skipped;
    if n > 0 {
      SameTable(a, b, pe, end, at, n - 1);
      var last := at + (n - 1) * SECTION_HEADER_SIZE;
      SameNumberBelow(a, b, pe, end, last + 8, 4);
      SameNumberBelow(a, b, pe, end, last + 12, 4);
      SameNumberBelow(a, b, pe, end, last + 16, 4);
      SameNumberBelow(a, b, pe, end, last + 20, 4);
    }
  }

  // ---- The sections ----

  lemma {:induction false} SectionBytesLength(data: seq<byte>, s: seq<Section>)
    requires Hashable(data, s)
    ensures |SectionBytes(data, s)| == Sum(s)
    decreases |s|
  {
    if s != [] {
      assert forall x | x in s[..|s| - 1] :: x in s;
      assert s[|s| - 1] in s;
      SectionBytesLength(data, s[..|s| - 1]);
    }
  }

  lemma {:induction false} SameSectionBytesIff(a: seq<byte>, b: seq<byte>, s: seq<Section>)
    requires Hashable(a, s) && Hashable(b, s)
    ensures SectionBytes(a, s) == SectionBytes(b, s) <==> forall x | x in s :: RawBytes(a, x) == RawBytes(b, x)
    decreases |s|
  {
    hide RawBytes;
    if s != [] {
      var init, last := s[..|s| - 1], s[|s| - 1];
      assert s == init + [last];
      assert forall x | x in s :: x in init || x == last;
      SameSectionBytesIff(a, b, init);
      SectionBytesLength(a, init);
      SectionBytesLength(b, init);
      SameParts(SectionBytes(a, init), RawBytes(a, last), SectionBytes(b, init), RawBytes(b, last));
    }
  }

  lemma SameParts(x: seq<byte>, y: seq<byte>, u: seq<byte>, v: seq<byte>)
    requires |x| == |u|
    ensures x + y == u + v <==> x == u && y == v
  {
    if x + y == u + v {
      assert x == (x + y)[..|x|] && u == (u + v)[..|u|];
      assert y == (x + y)[|x|..] && v == (u + v)[|u|..];
    }
  }

  lemma HashInputParts(data: seq<byte>, c: Context, table: seq<Section>)
    requires PeHash.Readable(data, c, table) && Accepted(data, table)
    ensures var s, hashed := Sort(table), (c.sizeOfHeaders + RawTotal(table)) % TWO32;
      && Hashable(data, s) && (forall x :: x in s <==> x in table)
      && (hashed < |data| ==> hashed + c.secSize <= |data|)
      && HashInput(data, c, table)
         == HeaderBytes(data, c) + (SectionBytes(data, s) + TailBytes(data, hashed, c.secSize))
  {
    hide Sort, SectionBytes, HeaderBytes, TailBytes, RawTotal;
    SortSorts(table);
    SameMembers(table, Sort(table));
  }

  lemma InputParts(data: seq<byte>)
    requires HashedFile(data)
    ensures var c, s := Header(data), Sort(SectionsOf(data));
      && c.pe + SECURITY_DIRECTORY + DATA_DIRECTORY_SIZE <= c.sizeOfHeaders <= |data|
      && Hashable(data, s) && (forall x :: x in s <==> x in SectionsOf(data))
      && InputOf(data) == HeaderBytes(data, c) + (SectionBytes(data, s) + TailOf(data))
  {
    hide ReadHeader, Sort, SectionBytes, HeaderBytes, TailBytes, RawTotal, HashInput, Accepted, Hashable, RawInFile,
         ImageCheck.Sections;
    HashInputParts(data, Header(data), SectionsOf(data));
  }

  lemma ContextParts(data: seq<byte>)
    requires HashedFile(data)
    ensures ReadHeader(data) == Read(Header(data)) && ImageCheck.TableInFile(data, Header(data))
    ensures Header(data).pe == PeOffset(data) && Header(data) == ContextAt(data, Header(data).pe)
    ensures Header(data).pe + OPTIONAL_HEADER_UNION_SIZE <= |data|
    ensures SectionsOf(data) == SectionTable(data, Header(data).firstSection, Header(data).numberOfSections)
    ensures forall s | s in SectionsOf(data) :: RawInFile(data, s) && !BeyondFile(data, s)
  {
    hide ContextAt, PeOffset;
    PeOfContext(data);
  }

  lemma HashBindsHeaders(a: seq<byte>, b: seq<byte>)
    requires HashedFile(a) && HashedFile(b) && InputOf(a) == InputOf(b) && HeadersCover(Header(a))
    ensures Header(b) == Header(a).(secVA := Header(b).secVA, secSize := Header(b).secSize)
    ensures SectionsOf(b) == SectionsOf(a)
    ensures AgreeBelow(a, b, Header(a).pe, Header(a).sizeOfHeaders)
  {
    hide HashedFile, InputOf, SectionsOf, Header, ReadHeader, ContextAt, HeaderBytes, SectionBytes, Sort, TailOf,
         AgreeBelow, PeOffset, AvoidsSkipped;
    InputParts(a);
    InputParts(b);
    ContextParts(a);
    ContextParts(b);
    var ca, cb := Header(a), Header(b);
    SameHeaders(a, b, ca, cb, InputOf(a));
    SameHeader(a, b, ca.pe, ca.sizeOfHeaders);
    SameTable(a, b, ca.pe, ca.sizeOfHeaders, ca.firstSection, ca.numberOfSections);
  }

  /** Equal hash input means that every header field but the two numbers of the security directory entry, the section
      table, the headers but for the fields left out, each section's data and the hashed rest of the file are equal. */
  lemma HashBindsIff(a: seq<byte>, b: seq<byte>)
    requires HashedFile(a) && HashedFile(b) && HeadersCover(Header(a))
    ensures InputOf(a) == InputOf(b) <==> SameHashed(a, b)
  {
    hide HashedFile, InputOf, SectionsOf, Header, HeaderBytes, SectionBytes, Sort, TailOf, AgreeBelow, RawBytes,
         HeadersCover;
    InputParts(a);
    InputParts(b);
    ContextParts(a);
    ContextParts(b);
    if InputOf(a) == InputOf(b) {
      HashBindsHeaders(a, b);
    }
    if InputOf(a) == InputOf(b) || SameHashed(a, b) {
      var s := Sort(SectionsOf(a));
      assert Sort(SectionsOf(b)) == s;
      SameHeaderBytes(a, b, Header(a), Header(b));
      SectionBytesLength(a, s);
      SectionBytesLength(b, s);
      SameSectionBytesIff(a, b, s);
      SameParts(HeaderBytes(a, Header(a)), SectionBytes(a, s) + TailOf(a),
                HeaderBytes(b, Header(b)), SectionBytes(b, s) + TailOf(b));
      SameParts(SectionBytes(a, s), TailOf(a), SectionBytes(b, s), TailOf(b));
    }
  }

  lemma SameHeaderBytes(a: seq<byte>, b: seq<byte>, ca: Context, cb: Context)
    requires ca.pe == cb.pe && ca.sizeOfHeaders == cb.sizeOfHeaders && AgreeBelow(a, b, ca.pe, ca.sizeOfHeaders)
    requires ca.pe + SECURITY_DIRECTORY + DATA_DIRECTORY_SIZE <= ca.sizeOfHeaders
    ensures HeaderBytes(a, ca) == HeaderBytes(b, cb)
  {
    var p := ca.pe;
    assert a[..p + CHECKSUM] == b[..p + CHECKSUM];
    assert a[p + CHECKSUM + CHECKSUM_SIZE..p + SECURITY_DIRECTORY]
        == b[p + CHECKSUM + CHECKSUM_SIZE..p + SECURITY_DIRECTORY];
    assert a[p + SECURITY_DIRECTORY + DATA_DIRECTORY_SIZE..ca.sizeOfHeaders]
        == b[p + SECURITY_DIRECTORY + DATA_DIRECTORY_SIZE..ca.sizeOfHeaders];
  }

  lemma SameRaw(a: seq<byte>, b: seq<byte>, s: Section)
    requires HashedFile(a) && HashedFile(b) && SameHashed(a, b) && s in SectionsOf(a)
    ensures s in SectionsOf(b) && RawInFile(a, s) && !BeyondFile(a, s) && RawInFile(b, s) && !BeyondFile(b, s)
    ensures RawBytes(a, s) == RawBytes(b, s)
  {
    hide HashedFile, SectionsOf, Header, TailOf, AgreeBelow, RawBytes, RawInFile, BeyondFile;
    ContextParts(a);
    ContextParts(b);
  }

  lemma SameContents(a: seq<byte>, b: seq<byte>, s: Section)
    requires RawInFile(a, s) && !BeyondFile(a, s) && RawInFile(b, s) && !BeyondFile(b, s)
    requires RawBytes(a, s) == RawBytes(b, s)
    ensures s.rawSize > 0 ==> s.rawPointer + CopiedSize(s) <= |a| && s.rawPointer + CopiedSize(s) <= |b|
    ensures Contents(a, s) == Contents(b, s)
  {
    if s.rawSize > 0 {
      var n := CopiedSize(s);
      assert RawBytes(a, s)[..n] == a[s.rawPointer..s.rawPointer + n];
      assert RawBytes(b, s)[..n] == b[s.rawPointer..s.rawPointer + n];
    }
  }

  /** So what is copied into memory for a section is the same, too. */
  lemma HashBindsContents(a: seq<byte>, b: seq<byte>, s: Section)
    requires HashedFile(a) && HashedFile(b) && HeadersCover(Header(a)) && InputOf(a) == InputOf(b)
    requires s in SectionsOf(a)
    ensures s in SectionsOf(b)
    ensures s.rawSize > 0 ==> s.rawPointer + CopiedSize(s) <= |a| && s.rawPointer + CopiedSize(s) <= |b|
    ensures Contents(a, s) == Contents(b, s)
  {
    hide HashedFile, InputOf, SectionsOf, Header, HeadersCover, RawBytes, RawInFile, BeyondFile, SameHashed, CopiedSize;
    ContextParts(a);
    HashBindsIff(a, b);
    SameRaw(a, b, s);
    SameContents(a, b, s);
  }

  // ---- The image in memory ----

  ghost predicate SameBut(x: seq<byte>, y: seq<byte>, pe: nat) {
    |x| == |y| && forall k | 0 <= k < |x| && !Skipped(pe, k) :: x[k] == y[k]
  }

  lemma SameOverwritten(x: seq<byte>, y: seq<byte>, pe: nat, at: nat, t: seq<byte>)
    requires SameBut(x, y, pe) && at + |t| <= |x|
    ensures SameBut(Overwrite(x, at, t), Overwrite(y, at, t), pe)
  {
    var p, q := Overwrite(x, at, t), Overwrite(y, at, t);
    forall k | 0 <= k < |x| && !Skipped(pe, k)
      ensures p[k] == q[k]
    {
      if at <= k < at + |t| {
        assert p[at..at + |t|][k - at] == p[k] && q[at..at + |t|][k - at] == q[k];
      }
    }
  }

  lemma {:induction false} SameLayout(x: seq<byte>, y: seq<byte>, a: seq<byte>, b: seq<byte>, pe: nat,
                                      sections: seq<Section>)
    requires SameBut(x, y, pe)
    requires forall s | s in sections :: Fits(a, |x|, s) && Fits(b, |x|, s) && Contents(a, s) == Contents(b, s)
    ensures SameBut(Layout(x, a, sections), Layout(y, b, sections), pe)
    decreases |sections|
  {
    hide SameBut, Contents, Overwrite;
    assert |x| == |y| by {
      SameLength(x, y, pe);
    }
    if sections != [] {
      var s := sections[0];
      assert s in sections && forall t | t in sections[1..] :: t in sections;
      SameOverwritten(x, y, pe, s.virtualAddress, Contents(a, s));
      SameLayout(Overwrite(x, s.virtualAddress, Contents(a, s)), Overwrite(y, s.virtualAddress, Contents(b, s)),
                 a, b, pe, sections[1..]);
    }
  }

  lemma SameLength(x: seq<byte>, y: seq<byte>, pe: nat)
    requires SameBut(x, y, pe)
    ensures |x| == |y|
  {
  }

  predicate FixesAvoid(pe: nat, fs: seq<Fix>) {
    forall f | f in fs :: AvoidsSkipped(pe, f.addr, f.addr + Width(f.kind))
  }

  lemma SameFixed(x: seq<byte>, y: seq<byte>, pe: nat, f: Fix, adjust: nat)
    requires SameBut(x, y, pe) && InBounds(f, |x|) && AvoidsSkipped(pe, f.addr, f.addr + Width(f.kind))
    ensures SameBut(ApplyFix(x, f, adjust), ApplyFix(y, f, adjust), pe)
  {
    hide Overwrite, ToLE, FromLE, Share;
    if Width(f.kind) > 0 {
      assert SlotBytes(x, f) == SlotBytes(y, f);
      SameOverwritten(x, y, pe, f.addr, ToLE(FromLE(SlotBytes(x, f)) + Share(f.kind, adjust), Width(f.kind)));
    }
  }

  lemma {:induction false} SameApplied(x: seq<byte>, y: seq<byte>, pe: nat, fs: seq<Fix>, adjust: nat)
    requires SameBut(x, y, pe) && AllInBounds(fs, |x|) && FixesAvoid(pe, fs)
    ensures |x| == |y| && SameBut(ApplyAll(x, fs, adjust), ApplyAll(y, fs, adjust), pe)
    decreases |fs|
  {
    SameLength(x, y, pe);
    hide SameBut, ApplyFix, InBounds, AvoidsSkipped, Width;
    if fs != [] {
      assert fs[0] in fs && forall f | f in fs[1..] :: f in fs;
      SameFixed(x, y, pe, fs[0], adjust);
      SameApplied(ApplyFix(x, fs[0], adjust), ApplyFix(y, fs[0], adjust), pe, fs[1..], adjust);
    }
  }

  /** Neither the relocation table nor any of its fixups lies over the two fields. */
  ghost predicate RelocationAvoids(image: seq<byte>, c: Context) {
    DirectoryAccepted(|image|, c.relocVA, c.relocSize) && Table(image, c.relocVA, Loader.LastRelocByte(c)) ==>
      && AvoidsSkipped(c.pe, c.relocVA, TableEnd(image, c.relocVA, Loader.LastRelocByte(c)))
      && FixesAvoid(c.pe, TablePlan(image, c.relocVA, Loader.LastRelocByte(c)).fixes)
  }

  lemma SamePlan(x: seq<byte>, y: seq<byte>, c: Context)
    requires SameBut(x, y, c.pe) && |x| == c.imageSize && Loader.TableInBounds(x, c) && RelocationAvoids(x, c)
    ensures |y| == |x| && Loader.TableInBounds(y, c)
    ensures DirectoryAccepted(|x|, c.relocVA, c.relocSize) ==>
      && Table(x, c.relocVA, Loader.LastRelocByte(c)) && Table(y, c.relocVA, Loader.LastRelocByte(c))
      && TablePlan(y, c.relocVA, Loader.LastRelocByte(c)) == TablePlan(x, c.relocVA, Loader.LastRelocByte(c))
  {
    hide Table, TablePlan, TableEnd, SlotsFree, FixesAvoid, DirectoryAccepted;
    if DirectoryAccepted(|x|, c.relocVA, c.relocSize) {
      var at, last := c.relocVA, Loader.LastRelocByte(c);
      assert Agree(x, y, at, TableEnd(x, at, last));
      RelocationLaws.TableUnchanged(x, y, at, last, at, TableEnd(x, at, last));
    }
  }

  /** What the loader says about a file's sections, in terms of these. */
  lemma LoaderSections(data: seq<byte>)
    requires HashedFile(data)
    ensures var c, sections := Header(data), SectionsOf(data);
      && Loader.SectionTableInFile(data, c) && Loader.Sections(data, c) == sections && c.sizeOfHeaders <= c.imageSize
      && (Loader.AllPlaceable(data, c) <==> forall s | s in sections :: Placeable(c.imageSize, s))
      && (Loader.CopiesInBounds(data, c) <==>
           forall s | s in sections && Placeable(c.imageSize, s) :: Fits(data, c.imageSize, s))
  {
    hide ContextAt, Number, Placeable, Fits, Accepted, ImageCheck.Sections;
  }

  lemma CopiedIs(buffer: seq<byte>, data: seq<byte>)
    requires HashedFile(data) && |buffer| == Header(data).imageSize
    requires Loader.CopiesInBounds(data, Header(data)) && Loader.AllPlaceable(data, Header(data))
    ensures var c, sections := Header(data), SectionsOf(data);
      && c.sizeOfHeaders <= |data| && c.sizeOfHeaders <= c.imageSize
      && (forall s | s in sections :: Fits(data, c.imageSize, s))
      && Loader.Copied(buffer, data, c) == Layout(Overwrite(buffer, 0, data[..c.sizeOfHeaders]), data, sections)
  {
    hide ContextAt, Number, Placeable, Fits, Accepted, ImageCheck.Sections, HashedFile, Header, SectionsOf, Layout;
    ContextParts(data);
    LoaderSections(data);
  }

  lemma FitsBoth(a: seq<byte>, b: seq<byte>, imageSize: nat, s: Section)
    requires Fits(a, imageSize, s) && (s.rawSize > 0 ==> s.rawPointer + CopiedSize(s) <= |b|)
    ensures Fits(b, imageSize, s)
  {
  }

  /** What may be assumed of the one file's copies holds of the other's. */
  lemma SameBounds(a: seq<byte>, b: seq<byte>)
    requires HashedFile(a) && HashedFile(b) && HeadersCover(Header(a)) && InputOf(a) == InputOf(b)
    requires Loader.CopiesInBounds(a, Header(a))
    ensures Loader.CopiesInBounds(b, Header(b))
    ensures Loader.AllPlaceable(b, Header(b)) <==> Loader.AllPlaceable(a, Header(a))
  {
    hide HashedFile, InputOf, SectionsOf, Header, TailOf, AgreeBelow, HeadersCover, Contents, Placeable, Fits, RawBytes,
         CopiedSize, Loader.CopiesInBounds, Loader.AllPlaceable, Loader.Sections;
    ContextParts(a);
    HashBindsHeaders(a, b);
    LoaderSections(a);
    LoaderSections(b);
    forall s | s in SectionsOf(a) && Placeable(Header(a).imageSize, s)
      ensures Fits(b, Header(a).imageSize, s)
    {
      HashBindsContents(a, b, s);
      FitsBoth(a, b, Header(a).imageSize, s);
    }
  }

  lemma SameCopied(a: seq<byte>, b: seq<byte>, buffer: seq<byte>)
    requires HashedFile(a) && HashedFile(b) && HeadersCover(Header(a)) && InputOf(a) == InputOf(b)
    requires |buffer| == Header(a).imageSize
    requires Loader.CopiesInBounds(a, Header(a)) && Loader.AllPlaceable(a, Header(a))
    ensures Header(b).imageSize == Header(a).imageSize
    ensures Loader.CopiesInBounds(b, Header(b)) && Loader.AllPlaceable(b, Header(b))
    ensures SameBut(Loader.Copied(buffer, a, Header(a)), Loader.Copied(buffer, b, Header(b)), Header(a).pe)
  {
    hide HashedFile, InputOf, SectionsOf, Header, TailOf, AgreeBelow, HeadersCover, Contents, Placeable, Fits, RawBytes,
         CopiedSize, Layout, Overwrite, SameBut, Loader.CopiesInBounds, Loader.AllPlaceable, Loader.Sections,
         Loader.Copied, SamePlaced;
    ContextParts(a);
    HashBindsHeaders(a, b);
    SameBounds(a, b);
    CopiedIs(buffer, a);
    CopiedIs(buffer, b);
    forall s | s in SectionsOf(a)
      ensures SamePlaced(a, b, |buffer|, s)
    {
      HashPlacesSame(a, b, |buffer|, s);
    }
    SameLaidOut(a, b, buffer, Header(a).pe, Header(a).sizeOfHeaders, SectionsOf(a));
  }

  predicate SamePlaced(a: seq<byte>, b: seq<byte>, imageSize: nat, s: Section) {
    Fits(a, imageSize, s) && Fits(b, imageSize, s) && Contents(a, s) == Contents(b, s)
  }

  lemma HashPlacesSame(a: seq<byte>, b: seq<byte>, imageSize: nat, s: Section)
    requires HashedFile(a) && HashedFile(b) && HeadersCover(Header(a)) && InputOf(a) == InputOf(b)
    requires s in SectionsOf(a) && Fits(a, imageSize, s)
    ensures SamePlaced(a, b, imageSize, s)
  {
    hide HashedFile, InputOf, SectionsOf, Header, HeadersCover, Contents, CopiedSize;
    ContextParts(a);
    HashBindsContents(a, b, s);
  }

  lemma SameLaidOut(a: seq<byte>, b: seq<byte>, buffer: seq<byte>, pe: nat, n: nat, sections: seq<Section>)
    requires AgreeBelow(a, b, pe, n) && n <= |buffer|
    requires forall s | s in sections :: Fits(a, |buffer|, s) && Fits(b, |buffer|, s) && SamePlaced(a, b, |buffer|, s)
    ensures SameBut(Layout(Overwrite(buffer, 0, a[..n]), a, sections),
                    Layout(Overwrite(buffer, 0, b[..n]), b, sections), pe)
  {
    hide Contents, Fits, Layout, Overwrite, SameBut;
    SameStart(buffer, a, b, pe, n, n);
    SameLayout(Overwrite(buffer, 0, a[..n]), Overwrite(buffer, 0, b[..n]), a, b, pe, sections);
  }

  lemma SameStart(buffer: seq<byte>, a: seq<byte>, b: seq<byte>, pe: nat, end: nat, n: nat)
    requires AgreeBelow(a, b, pe, end) && n <= end && n <= |buffer|
    ensures SameBut(Overwrite(buffer, 0, a[..n]), Overwrite(buffer, 0, b[..n]), pe)
  {
    var p, q := Overwrite(buffer, 0, a[..n]), Overwrite(buffer, 0, b[..n]);
    forall k | 0 <= k < |buffer| && !Skipped(pe, k)
      ensures p[k] == q[k]
    {
      if k < n {
        assert p[0..n][k] == p[k] && q[0..n][k] == q[k];
      }
    }
  }

  /** Two accepted files with the same hash input are loaded or refused together, with the same entry point, and their
      images differ at most in the two fields that the hash leaves out. */
  lemma HashBindsImage(a: seq<byte>, b: seq<byte>, buffer: seq<byte>, loadedAt: nat)
    requires HashedFile(a) && HashedFile(b) && HeadersCover(Header(a)) && InputOf(a) == InputOf(b)
    requires Loader.WellFormed(buffer, a, Header(a))
    requires Loader.AllPlaceable(a, Header(a)) ==> RelocationAvoids(Loader.Copied(buffer, a, Header(a)), Header(a))
    ensures var ca, cb := Header(a), Header(b);
      && ca.entryPoint == cb.entryPoint && ca.pe == cb.pe
      && Loader.WellFormed(buffer, b, cb)
      && (Loader.Runs(buffer, b, cb) <==> Loader.Runs(buffer, a, ca))
      && (Loader.Runs(buffer, a, ca) ==>
           SameBut(Loader.FinalImage(buffer, a, ca, loadedAt), Loader.FinalImage(buffer, b, cb, loadedAt), ca.pe))
  {
    var ca, cb := Header(a), Header(b);
    hide HashedFile, InputOf, Header, SectionsOf, TailOf, AgreeBelow, RawBytes, HeadersCover, Loader.Copied,
         Loader.CopiesInBounds, Loader.AllPlaceable, Table, TablePlan, TableEnd, ApplyAll, SameBut, DirectoryAccepted,
         SlotsFree, FixesAvoid, AvoidsSkipped, Loader.LastRelocByte;
    HashBindsIff(a, b);
    SameBounds(a, b);
    if !Loader.AllPlaceable(a, ca) {
      return;
    }
    SameCopied(a, b, buffer);
    var x, y := Loader.Copied(buffer, a, ca), Loader.Copied(buffer, b, cb);
    SamePlan(x, y, ca);
    SameRelocation(y, ca, cb);
    if Loader.Runs(buffer, a, ca) {
      var fs := TablePlan(x, ca.relocVA, Loader.LastRelocByte(ca)).fixes;
      FreeInBounds(fs, |x|, ca.relocVA, TableEnd(x, ca.relocVA, Loader.LastRelocByte(ca)));
      SameApplied(x, y, ca.pe, fs, Adjustment(ca.imageAddress, loadedAt));
    }
  }

  lemma SameRelocation(y: seq<byte>, ca: Context, cb: Context)
    requires cb == ca.(secVA := cb.secVA, secSize := cb.secSize)
    ensures Loader.LastRelocByte(ca) == Loader.LastRelocByte(cb)
    ensures Loader.TableInBounds(y, ca) <==> Loader.TableInBounds(y, cb)
    ensures Loader.RelocationsOffered(ca) <==> Loader.RelocationsOffered(cb)
  {
    hide Table, TablePlan, TableEnd, SlotsFree, DirectoryAccepted;
  }
}
