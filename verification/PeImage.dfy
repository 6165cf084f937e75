/** The headers of a 64-bit PE image, read from the file's bytes. */
module PeImage {
  import opened Bytes


  const DOS_HEADER_SIZE := 64
  const DOS_SIGNATURE := 0x5A4D
  // The loader compares the signature field of the TE header, 16 of the PE signature's 32 bits.
  const NT_SIGNATURE := 0x4550
  const OPTIONAL_HEADER_UNION_SIZE := 264
  const FILE_RELOCS_STRIPPED := 1
  const NT_OPTIONAL_HDR64_MAGIC := 0x20B
  const SECTION_HEADER_SIZE := 40
  const CHECKSUM_SIZE := 4
  const DATA_DIRECTORY_SIZE := 8

  // Offsets from the PE signature.
  const NUMBER_OF_SECTIONS := 6
  const SIZE_OF_OPTIONAL_HEADER := 20
  const CHARACTERISTICS := 22
  const OPTIONAL_HEADER := 24
  const ENTRY_POINT := 40
  const IMAGE_BASE := 48
  const SIZE_OF_IMAGE := 80
  const SIZE_OF_HEADERS := 84
  const CHECKSUM := 88
  const NUMBER_OF_RVA_AND_SIZES := 132
  const SECURITY_DIRECTORY := 168
  const BASERELOC_DIRECTORY := 176

  datatype Status = Success | Unsupported | InvalidParameter

  datatype Section = Section(virtualSize: nat, virtualAddress: nat, rawSize: nat, rawPointer: nat)

  datatype Context = Context(pe: nat, imageAddress: nat, imageSize: nat, sizeOfHeaders: nat, entryPoint: nat,
                             relocVA: nat, relocSize: nat, numberOfRvaAndSizes: nat, numberOfSections: nat,
                             firstSection: nat, secVA: nat, secSize: nat)

  datatype HeaderResult = Refused(status: Status) | Read(context: Context)

  function Number(data: seq<byte>, at: nat, width: nat): (v: nat)
    requires at + width <= |data|
    ensures v < Pow256(width)
  {
    FromLEBound(data[at..at + width]);
    FromLE(data[at..at + width])
  }

  /** Where the PE signature is: after a DOS stub, or at the start of the file. */
  function PeOffset(data: seq<byte>): nat
    requires |data| >= DOS_HEADER_SIZE
  {
    if Number(data, 0, 2) == DOS_SIGNATURE then Number(data, 60, 4) else 0
  }

  function ContextAt(data: seq<byte>, pe: nat): Context
    requires pe + OPTIONAL_HEADER_UNION_SIZE <= |data|
  {
    Context(pe,
            Number(data, pe + IMAGE_BASE, 8),
            Number(data, pe + SIZE_OF_IMAGE, 4),
            Number(data, pe + SIZE_OF_HEADERS, 4),
            Number(data, pe + ENTRY_POINT, 4),
            Number(data, pe + BASERELOC_DIRECTORY, 4),
            Number(data, pe + BASERELOC_DIRECTORY + 4, 4),
            Number(data, pe + NUMBER_OF_RVA_AND_SIZES, 4),
            Number(data, pe + NUMBER_OF_SECTIONS, 2),
            pe + OPTIONAL_HEADER + Number(data, pe + SIZE_OF_OPTIONAL_HEADER, 2),
            Number(data, pe + SECURITY_DIRECTORY, 4),
            Number(data, pe + SECURITY_DIRECTORY + 4, 4))
  }

  /** Accepts exactly unstripped 64-bit PE images, and then every header field read lies inside the file. */
  function ReadHeader(data: seq<byte>): (r: HeaderResult)
    ensures r.Read? ==>
      && r.context.pe + OPTIONAL_HEADER_UNION_SIZE <= |data|
      && Number(data, r.context.pe, 2) == NT_SIGNATURE
      && r.context.sizeOfHeaders <= r.context.imageSize < TWO32
      && r.context.secVA < |data|
      && r.context.numberOfSections < 0x1_0000
  {
    WordSizes();
    if |data| < DOS_HEADER_SIZE then Refused(Unsupported)
    else
      var pe := PeOffset(data);
      if pe + OPTIONAL_HEADER_UNION_SIZE > |data| then Refused(Unsupported)
      else if Number(data, pe, 2) != NT_SIGNATURE then Refused(Unsupported)
      else if Number(data, pe + CHARACTERISTICS, 2) % (2 * FILE_RELOCS_STRIPPED) == FILE_RELOCS_STRIPPED
        then Refused(Unsupported)
      else if Number(data, pe + OPTIONAL_HEADER, 2) != NT_OPTIONAL_HDR64_MAGIC then Refused(Unsupported)
      else
        var c := ContextAt(data, pe);
        if c.imageSize < c.sizeOfHeaders then Refused(Unsupported)
        else if pe + SECURITY_DIRECTORY > |data| - DATA_DIRECTORY_SIZE then Refused(Unsupported)
        else if c.secVA >= |data| then Refused(InvalidParameter)
        else Read(c)
  }

  function SectionAt(data: seq<byte>, at: nat): (s: Section)
    requires at + SECTION_HEADER_SIZE <= |data|
    ensures s.virtualSize < TWO32 && s.virtualAddress < TWO32 && s.rawSize < TWO32 && s.rawPointer < TWO32
  {
    WordSizes();
    Section(Number(data, at + 8, 4), Number(data, at + 12, 4), Number(data, at + 16, 4), Number(data, at + 20, 4))
  }

  /** The section headers, in table order. */
  function SectionTable(data: seq<byte>, at: nat, n: nat): (r: seq<Section>)
    requires at + n * SECTION_HEADER_SIZE <= |data|
    ensures |r| == n
    ensures forall i | 0 <= i < n :: r[i] == SectionAt(data, at + i * SECTION_HEADER_SIZE)
    decreases n
  {
    if n == 0 then []
    else SectionTable(data, at, n - 1) + [SectionAt(data, at + (n - 1) * SECTION_HEADER_SIZE)]
  }

  // ---- The half of the signature that is not looked at ----

  lemma SameNumber(a: seq<byte>, b: seq<byte>, at: nat, width: nat, lo: nat, hi: nat)
    requires |a| == |b| && at + width <= |a| && (at + width <= lo || hi <= at)
    requires forall k | 0 <= k < |a| && !(lo <= k < hi) :: a[k] == b[k]
    ensures Number(a, at, width) == Number(b, at, width)
  {
    assert a[at..at + width] == b[at..at + width];
  }

  /** The third and fourth byte of the PE signature decide nothing, as long as they are not also part of the DOS
      header's pointer to it. */
  lemma UpperSignatureUnchecked(a: seq<byte>, b: seq<byte>, pe: nat)
    requires |a| == |b| && |a| >= DOS_HEADER_SIZE && pe == PeOffset(a) && (pe + 4 <= 60 || 62 <= pe)
    requires forall k | 0 <= k < |a| && !(pe + 2 <= k < pe + 4) :: a[k] == b[k]
    ensures ReadHeader(a) == ReadHeader(b)
  {
    hide Number;
    var lo, hi := pe + 2, pe + 4;
    SameNumber(a, b, 0, 2, lo, hi);
    SameNumber(a, b, 60, 4, lo, hi);
    if pe + OPTIONAL_HEADER_UNION_SIZE <= |a| {
      SameNumber(a, b, pe, 2, lo, hi);
      SameNumber(a, b, pe + CHARACTERISTICS, 2, lo, hi);
      SameNumber(a, b, pe + OPTIONAL_HEADER, 2, lo, hi);
      SameContext(a, b, pe);
    }
  }

  lemma SameContext(a: seq<byte>, b: seq<byte>, pe: nat)
    requires |a| == |b| && pe + OPTIONAL_HEADER_UNION_SIZE <= |a|
    requires forall k | 0 <= k < |a| && !(pe + 2 <= k < pe + 4) :: a[k] == b[k]
    ensures ContextAt(a, pe) == ContextAt(b, pe)
  {
    hide Number;
    forall at, width | at >= pe + 4 && at + width <= |a|
      ensures Number(a, at, width) == Number(b, at, width)
    {
      SameNumber(a, b, at, width, pe + 2, pe + 4);
    }
  }

  lemma NumberStep(data: seq<byte>, at: nat, width: nat)
    requires 0 < width && at + width <= |data|
    ensures Number(data, at, width) == data[at] as nat + 0x100 * Number(data, at + 1, width - 1)
    ensures Number(data, at + width, 0) == 0
  {
    assert data[at..at + width][1..] == data[at + 1..at + width];
  }

  lemma {:induction false} ZeroNumber(data: seq<byte>, at: nat, width: nat)
    requires at + width <= |data| && forall k | at <= k < at + width :: data[k] == 0
    ensures Number(data, at, width) == 0
    decreases width
  {
    if width > 0 {
      NumberStep(data, at, width);
      ZeroNumber(data, at + 1, width - 1);
    }
  }

  lemma TwoBytes(data: seq<byte>, at: nat)
    requires at + 2 <= |data|
    ensures Number(data, at, 2) == data[at] as nat + 0x100 * data[at + 1] as nat
  {
    hide Number;
    NumberStep(data, at, 2);
    NumberStep(data, at + 1, 1);
  }

  /** The smallest file of the kind: two signature bytes, one more byte, and the mark of a 64-bit image. */
  function SmallFile(third: byte): (data: seq<byte>) {
    seq(OPTIONAL_HEADER_UNION_SIZE, k =>
      if k == 0 then 0x50 else if k == 1 then 0x45 else if k == 2 then third
      else if k == OPTIONAL_HEADER then 0x0B else if k == OPTIONAL_HEADER + 1 then 0x02 else 0)
  }

  lemma SmallFileNumbers(third: byte)
    ensures var data := SmallFile(third);
      && |data| == OPTIONAL_HEADER_UNION_SIZE
      && Number(data, 0, 2) == NT_SIGNATURE && Number(data, 2, 2) == third as nat
      && Number(data, OPTIONAL_HEADER, 2) == NT_OPTIONAL_HDR64_MAGIC
      && Number(data, CHARACTERISTICS, 2) == 0 && Number(data, SIZE_OF_IMAGE, 4) == 0
      && Number(data, SIZE_OF_HEADERS, 4) == 0 && Number(data, SECURITY_DIRECTORY, 4) == 0
  {
    hide Number;
    var data := SmallFile(third);
    TwoBytes(data, 0);
    TwoBytes(data, 2);
    TwoBytes(data, OPTIONAL_HEADER);
    ZeroNumber(data, CHARACTERISTICS, 2);
    ZeroNumber(data, SIZE_OF_IMAGE, 4);
    ZeroNumber(data, SIZE_OF_HEADERS, 4);
    ZeroNumber(data, SECURITY_DIRECTORY, 4);
  }

  /** So a file whose signature field is not that of a PE image is accepted all the same. */
  lemma OtherSignatureAccepted(third: byte)
    requires third != 0
    ensures ReadHeader(SmallFile(third)).Read? && ReadHeader(SmallFile(third)).context.pe == 0
    ensures Number(SmallFile(third), 0, 4) != NT_SIGNATURE
  {
    hide Number, SmallFile;
    SmallFileNumbers(third);
    var data := SmallFile(third);
    NumberStep(data, 0, 4);
    NumberStep(data, 1, 3);
    NumberStep(data, 0, 2);
    NumberStep(data, 1, 1);
    NumberStep(data, 2, 2);
    ThirdByte(third);
  }

  lemma ThirdByte(third: byte)
    ensures SmallFile(third)[2] == third
  {
  }
}
