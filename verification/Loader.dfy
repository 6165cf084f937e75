/** The loader's whole path from file bytes to a relocated image in memory. */
module Loader {
  import opened Bytes
  import opened PeImage
  import opened Relocation
  import opened ImageLayout
  import ImageCheck
  import ShimPolicy

  datatype Outcome = Loaded(entryPoint: nat) | Failed(status: LoadError)
  datatype LoadError = BadHeader | NotVerified | BadSection | BadRelocation | BadEntryPoint

  predicate SectionTableInFile(data: seq<byte>, c: Context) {
    c.sizeOfHeaders <= |data| && ImageCheck.TableInFile(data, c)
  }

  function Sections(data: seq<byte>, c: Context): seq<Section>
    requires SectionTableInFile(data, c)
  {
    ImageCheck.Sections(data, c)
  }

  predicate AllPlaceable(data: seq<byte>, c: Context)
    requires SectionTableInFile(data, c)
  {
    forall s | s in Sections(data, c) :: Placeable(c.imageSize, s)
  }

  /** What the loader takes for granted about an accepted header: what it copies lies inside file and image. */
  ghost predicate CopiesInBounds(data: seq<byte>, c: Context) {
    && SectionTableInFile(data, c)
    && c.sizeOfHeaders <= c.imageSize
    && forall s | s in Sections(data, c) && Placeable(c.imageSize, s) :: Fits(data, c.imageSize, s)
  }

  function Copied(buffer: seq<byte>, data: seq<byte>, c: Context): (r: seq<byte>)
    requires |buffer| == c.imageSize && CopiesInBounds(data, c) && AllPlaceable(data, c)
    ensures |r| == |buffer|
  {
    Layout(Overwrite(buffer, 0, data[..c.sizeOfHeaders]), data, Sections(data, c))
  }

  function LastRelocByte(c: Context): nat {
    (c.relocVA + c.relocSize - 1) % TWO32
  }

  predicate RelocationsOffered(c: Context) {
    c.numberOfRvaAndSizes > IMAGE_DIRECTORY_ENTRY_BASERELOC && DirectoryAccepted(c.imageSize, c.relocVA, c.relocSize)
  }

  /** ... and about the relocation table it finds in the copied image. */
  ghost predicate TableInBounds(image: seq<byte>, c: Context) {
    DirectoryAccepted(|image|, c.relocVA, c.relocSize) ==>
      && Table(image, c.relocVA, LastRelocByte(c))
      && SlotsFree(TablePlan(image, c.relocVA, LastRelocByte(c)).fixes, |image|, c.relocVA,
                   TableEnd(image, c.relocVA, LastRelocByte(c)))
  }

  ghost predicate WellFormed(buffer: seq<byte>, data: seq<byte>, c: Context) {
    && |buffer| == c.imageSize
    && CopiesInBounds(data, c)
    && (AllPlaceable(data, c) ==> TableInBounds(Copied(buffer, data, c), c))
  }

  /** The conditions under which an accepted header leads to a running image. */
  ghost predicate Runs(buffer: seq<byte>, data: seq<byte>, c: Context)
    requires WellFormed(buffer, data, c)
  {
    && AllPlaceable(data, c)
    && RelocationsOffered(c)
    && TablePlan(Copied(buffer, data, c), c.relocVA, LastRelocByte(c)).ok
    && c.entryPoint <= c.imageSize
  }

  ghost function FinalImage(buffer: seq<byte>, data: seq<byte>, c: Context, loadedAt: nat): seq<byte>
    requires WellFormed(buffer, data, c) && Runs(buffer, data, c)
  {
    var image := Copied(buffer, data, c);
    ApplyAll(image, TablePlan(image, c.relocVA, LastRelocByte(c)).fixes, Adjustment(c.imageAddress, loadedAt))
  }

  /** In secure mode the file must be trusted. */
  ghost predicate Admitted(data: seq<byte>, secure: bool, k: ImageCheck.Crypto, fw: ImageCheck.Firmware,
                           d: ShimPolicy.Databases)
    requires ReadHeader(data).Read? && secure ==> ImageCheck.Readable(data, ReadHeader(data).context)
  {
    ReadHeader(data).Read? && (secure ==> ImageCheck.Trusted(data, ReadHeader(data).context, k, fw, d))
  }

  /** From file bytes and databases to a relocated image in memory, or none. The buffer was allocated at loadedAt with
      the size the header asks for. */
  method HandleImage(data: seq<byte>, secure: bool, k: ImageCheck.Crypto, fw: ImageCheck.Firmware,
                     buffer: array<byte>, loadedAt: nat, ghost d: ShimPolicy.Databases)
    returns (r: Outcome)
    requires loadedAt < TWO64
    requires ReadHeader(data).Read? && secure ==> ImageCheck.Sound(data, ReadHeader(data).context, k, fw, d)
    requires Admitted(data, secure, k, fw, d) ==> WellFormed(buffer[..], data, ReadHeader(data).context)
    modifies buffer
    ensures r.Loaded? <==>
      Admitted(data, secure, k, fw, d) && Runs(old(buffer[..]), data, ReadHeader(data).context)
    ensures r.Loaded? ==>
      && r.entryPoint == ReadHeader(data).context.entryPoint
      && buffer[..] == FinalImage(old(buffer[..]), data, ReadHeader(data).context, loadedAt)
    ensures r.Failed? && r.status in {BadHeader, NotVerified} ==> buffer[..] == old(buffer[..])
    // Why it failed, in the order of the checks.
    ensures r == Failed(BadHeader) <==> ReadHeader(data).Refused?
    ensures r == Failed(NotVerified) <==>
      ReadHeader(data).Read? && secure && !ImageCheck.Trusted(data, ReadHeader(data).context, k, fw, d)
    ensures r == Failed(BadSection) ==> exists s | s in Sections(data, ReadHeader(data).context) ::
      !Placeable(ReadHeader(data).context.imageSize, s)
    ensures r == Failed(BadEntryPoint) ==> ReadHeader(data).context.entryPoint > ReadHeader(data).context.imageSize
    ensures r.Loaded? ==>
      && ReadHeader(data).context.entryPoint <= ReadHeader(data).context.imageSize
      && ReadHeader(data).context.numberOfRvaAndSizes > 5
      && forall s | s in Sections(data, ReadHeader(data).context) :: Placeable(ReadHeader(data).context.imageSize, s)
  {
    hide Layout, Table, TablePlan, TableEnd, ApplyAll, SlotsFree, ContextAt, Number, Fits, ImageCheck.Readable,
         ImageCheck.Trusted, Placeable, DirectoryAccepted, CopiedSize, Adjustment, ImageCheck.Sound;
    var header := ReadHeader(data);
    if header.Refused? {
      return Failed(BadHeader);
    }
    var c := header.context;
    if secure {
      var verified := ImageCheck.VerifyBuffer(data, c, k, fw, d);
      if !verified {
        return Failed(NotVerified);
      }
    }
    CopyMem(buffer, 0, data[..c.sizeOfHeaders]);
    var sections := SectionTable(data, c.firstSection, c.numberOfSections);
    var placed := CopySections(buffer, data, sections);
    if !placed {
      return Failed(BadSection);
    }
    HeaderNumbers(data);
    var status := RelocateCoff(buffer, c.numberOfRvaAndSizes, c.relocVA, c.relocSize, c.imageAddress, loadedAt);
    if status == Relocation.Unsupported {
      return Failed(BadRelocation);
    }
    var entry := ImageAddress(c.imageSize, c.entryPoint);
    if entry.Null? {
      return Failed(BadEntryPoint);
    }
    return Loaded(entry.offset);
  }

  lemma HeaderNumbers(data: seq<byte>)
    requires ReadHeader(data).Read?
    ensures var c := ReadHeader(data).context;
      c.relocVA < TWO32 && c.relocSize < TWO32 && c.imageAddress < TWO64
  {
    WordSizes();
  }
}
