# Verification models of the boot application, shim and the EFI library

This project models the parts of the repository in which bytes, tables and persistent state are handled by hand, and
proves what they promise.

- **CRC-32** (`Crc`, `CrcChecks`, `TableHeader`): the table-driven loop of `crc.c` is the bit-at-a-time CRC-32 of
  section 8 of RFC 1952 on every byte string, with its check value and residue; every change within four consecutive
  bytes is detected; sealing and checking a table header fit together.
- **PE images in shim** (`PeImage`, `PeFields`, `SectionSort`, `PeHash`, `PeHashLaws`, `ImageLayout`, `Relocation`,
  `RelocationLaws`, `RelocationTable`, `ImageCheck`, `Loader`, `HashBinding`, `HashLimits`): how headers and relocation
  tables written field by field are read, what the Authenticode hash covers, how sections are laid out in memory, what
  base relocation does to every slot, the whole way from file bytes and signature databases to a relocated image, and
  what two files with the same hash input have in common.
- **Signature databases** (`SignatureList`, `ShimLookup`, `ShimPolicy`, `MokManager`): the lists of section 30.4.1 of
  the UEFI Specification 2.5, the three walks over them, the list builder and the variable it is stored in, and the
  decision whether an image may run.
- **Key enrolment** (`EnrolmentPlan`, `Enrolment`): the application that enrols PK, KEK and DB from files and then
  deletes the files, over any number of boots, each of which may be cut off or fail at any firmware call.
- **Device paths** (`DevicePath`, `DevicePathAppend`, `DevicePathJoin`, `DevicePathUnpack`): walking, splitting into
  instances, appending and unpacking (section 9.3.1 of the UEFI Specification 2.4).
- **Printing** (`PoolPrint`, `FormatText`, `FormatPrint`, `FormatReading`, `FormatMeaning`): the staging buffer, the
  growing pool string, padding, the format loop, against a description of formats as lists of pieces, and what each
  format prints.
- **Numbers and patterns** (`NumberText`, `NumberParse`, `Glob`): the digit printers, the parsers, the round trips
  between them, and `MetaMatch` against a declarative glob relation.
- **Protocol installation** (`HandleDatabase`): all-or-nothing installation and what the rollback of reinstallation
  restores.
- **BMP conversion** (`Bitmap`): which file bytes end up in which output cell.

`Bytes` and `Text` hold bytes, little-endian numbers and 16-bit strings. Code that updates memory, arrays or fields is
modelled by methods over arrays and classes that are proved against specification functions; the laws are lemmas about
those functions. Memory that the code only reads is a sequence of bytes. Answers of the firmware, of the pool and of
the user are parameters, so every statement holds for all of them.

## Where the code does not do what one might expect

- The entry count of a signature list omits the 28-byte list header from its division. It is exact exactly if a
  signature is longer than 28 bytes (`SignatureList.CertCountExact`).
- The certificate walk hands the verifier `SignatureSize` bytes, 16 more than the certificate has. The model hands over
  those bytes too and assumes only that for the certificates in the databases the verifier's answer does not depend on
  the 16 bytes behind them (`ShimLookup.PrefixVerifierIgnoresTail` shows verifiers that are so).
- Of the four-byte PE signature only the first two bytes are compared, as the field read is that of the TE format
  (`PeImage.UpperSignatureUnchecked`, `PeImage.OtherSignatureAccepted`).
- `verify_buffer` ignores the outcome of `verify_mok`, so a MokList that cannot be erased is still consulted. MokList is
  not searched for SHA-1 hashes.
- `store_keys` reports success without storing anything if MokAuth is readable but of the wrong size.
- Composing two relocations loses the carry for the HIGH type, so rebasing twice is rebasing once exactly if there is no
  such fixup or no carry (`RelocationLaws.RebaseTwiceIff`).
- The hash leaves out the security directory entry, so it does not bind where the certificate table is
  (`HashLimits.CertificatePlaceUnbound`); and it binds section table and image only if the headers cover the former
  (`HashBinding.HashBindsIff`, `HashLimits.TableUnbound`).
- Among the sections that lie in the image, exactly those at virtual address 0 of which nothing is copied are refused,
  because their end address wraps around (`ImageLayout.PlaceableIff`).
- The bounds checks of a section let the copy end one byte behind the image, and do not look at its padding
  (`ImageLayout.CopyInsideIff`, `ImageLayout.CopyLeavesImage`, `ImageLayout.PaddingLeavesImage`).
- An image whose relocation directory is empty and at address 0 is refused (`Relocation.NoDirectoryRefused`).
- An image of 2 GiB or more is refused as soon as its relocation table has a block, because its size is kept in a signed
  number (`Relocation.HugeImageRefused`).
- The rollback of `LibReinstallProtocolInterfaces` undoes in installation order; for all interfaces it restores the
  handle exactly if no protocol occurs twice (`HandleDatabase.UndoRestoresIff`).
- `DevicePathInstance` gives up after octal 01000 steps, so a path's instances are told apart correctly exactly if none
  has more than 513 nodes (`DevicePath.WalkedIff`).
- `DevicePathSize` counts a bare header for the end node. For an unpacked path, whose end node is padded, the size is
  right exactly if the alignment divides 4 (`DevicePathUnpack.UnpackedSizeIff`). A duplicate of such a path lacks the
  padding, and a path appended to it does not fit into the memory that was measured for both
  (`DevicePathAppend.AppendFitsIff`).
- `AppendDevicePath` promises to append its second path to every instance of the first. It copies the second path with
  the node that ends an entire path, so walkers find the first instance only and the promise is kept exactly if there is
  one instance (`DevicePathJoin.AppendsToEachIff`). Its memory is large enough exactly if there is one instance or the
  first path is at least as long as the second (`DevicePathJoin.JoinFitsIff`).
- `SPrint` shows one character less than its buffer length allows for once the text does not fit, although the returned
  length counts it (`PoolPrint.PoolString.SPrintAll`).
- The `-` flag of a format does not move the padding up to the width behind the text (`PoolPrint.LeftOnlyIff`), the
  conversion `d` without `l` never prints a minus sign (`FormatText.DecimalsUnsigned`), and in a print into a pool
  string the letters `N`, `H` and `E` do not end a directive, because all attributes are zero there.
- A number printed with commas reads back exactly if it is below 1000 (`NumberParse.DecimalRoundTripIff`).
- The logo's bytes are taken for green, red and blue, although a BMP holds blue, green and red; exactly grey pixels keep
  their colour (`Bitmap.ColourKeptIff`).
- Rows of a BMP are read from where the format puts them exactly if there is at most one row or the image offset is a
  multiple of four (`Bitmap.RowsAtStrideIff`).
- Deleting a key file may end in a warning, which the application takes for success; then the file is still there. If
  all three stay (`EnrolmentPlan.WarnedKeepsFiles`), the next boot asks the user to clear the keys exactly if it finds
  the files and reads the variables of a known mode other than setup mode (`EnrolmentPlan.AskedToClearIff`).

## Model

| member | source | states |
|---|---|---|
| Crc.TableCorrect | src/lib/external/BSD/gnu-efi/lib/crc.c:22-66 | Every one of the 256 table entries is the register after eight single-bit steps from its index. |
| Crc.TableStep | src/lib/external/BSD/gnu-efi/lib/crc.c:211-215 | One table step feeds exactly the eight bits of one byte into the bit-wise register. |
| Crc.BitBurstDetected | src/lib/external/BSD/gnu-efi/lib/crc.c:201-218 | Two bit strings that differ only within a window of at most 32 bits always leave different registers. |
| Crc.BurstDetected | src/lib/external/BSD/gnu-efi/lib/crc.c:201-218 | Two byte strings of equal length that differ only within four consecutive bytes have different CRCs. |
| CrcChecks.CheckValue | src/lib/external/BSD/gnu-efi/lib/crc.c:201-218 | The CRC of the ASCII digits 1 to 9 is 0xCBF43926, the check value of CRC-32. |
| CrcChecks.Residue | src/lib/external/BSD/gnu-efi/lib/crc.c:201-218 | Every message with its own CRC behind it, lowest byte first, has the CRC 0x2144DF1C. |
| TableHeader.WideTableStep | src/lib/external/BSD/gnu-efi/lib/crc.c:211-215 | The 64-bit accumulator of the loop stays a zero-extended 32-bit register and advances by one byte. |
| TableHeader.CalculateCrc | src/lib/external/BSD/gnu-efi/lib/crc.c:201-218 | The loop computes the bit-wise CRC-32 of the first size bytes, for every buffer. |
| TableHeader.SetCrcAltSize | src/lib/external/BSD/gnu-efi/lib/crc.c:93-116 | Stores the CRC taken with a zero field and changes no other byte. |
| TableHeader.SetCrc | src/lib/external/BSD/gnu-efi/lib/crc.c:70-91 | The same with the size from the header, which stays as it was. |
| TableHeader.CheckCrcAltSize | src/lib/external/BSD/gnu-efi/lib/crc.c:146-198 | TRUE exactly for a non-zero permitted size with a matching field; the header is left byte for byte as it was. |
| TableHeader.CheckCrc | src/lib/external/BSD/gnu-efi/lib/crc.c:119-141 | The same with the size from the header. |
| TableHeader.SealedPasses | src/lib/external/BSD/gnu-efi/lib/crc.c:93-198 | A sealed header passes exactly for the sizes that the check permits. |
| TableHeader.SealedFields | src/lib/external/BSD/gnu-efi/lib/crc.c:70-116 | In a header written field by field the size and the CRC are found in their fields, and sealing sets the latter to the CRC of the first size bytes with four zeros in its place. |
| TableHeader.TamperingNoticed | src/lib/external/BSD/gnu-efi/lib/crc.c:93-198 | After sealing, any change within four consecutive bytes outside the field makes the check fail. |
| TableHeader.WrongFieldNoticed | src/lib/external/BSD/gnu-efi/lib/crc.c:183-192 | With any other value in the field the check fails. |
| PeImage.ReadHeader | boot/external/BSD/shim/src/shim.c:733-793 | A header is accepted only if its first two signature bytes are those of a PE header, its fields lie inside the file, headers fit the image, and the security directory starts inside the file. |
| PeImage.UpperSignatureUnchecked | boot/external/BSD/shim/src/shim.c:752-755 | Two files that differ at most in the third and fourth signature byte are read alike. |
| PeImage.OtherSignatureAccepted | boot/external/BSD/shim/src/shim.c:752-755 | A file whose four signature bytes are not those of a PE image, and whose header is accepted. |
| PeFields.FieldsRead | boot/external/BSD/shim/src/shim.c:733-793 | A file written field by field, behind a DOS stub or without one, is read as these fields, and refused exactly if relocations are stripped, the headers are larger than the image, or the certificate table is said to lie behind the file. |
| PeFields.SectionRead | boot/external/BSD/shim/src/shim.c:841-846 | A section header written field by field is read as these sizes and addresses. |
| PeImage.SectionTable | boot/external/BSD/shim/src/shim.c:841-862 | The table is the n section headers that follow one another at 40 bytes each. |
| SectionSort.SortSorts | boot/external/BSD/shim/src/shim.c:544-553 | The insertion sort yields the same headers, ordered by raw pointer. |
| SectionSort.SortStable | boot/external/BSD/shim/src/shim.c:547-549 | Headers with the same raw pointer keep their table order. |
| SectionSort.InsertHeader | boot/external/BSD/shim/src/shim.c:546-552 | The shifting loop inserts one header into the sorted part, in place. |
| SectionSort.SortHeaders | boot/external/BSD/shim/src/shim.c:544-553 | The loops leave the sorted table in the array. |
| PeHash.SumRawSizes | boot/external/BSD/shim/src/shim.c:527-529 | The 32-bit sum of all raw sizes, wrapping around. |
| PeHash.RawTotalSort | boot/external/BSD/shim/src/shim.c:527-576 | Sorting does not change the 32-bit sum of raw sizes. |
| PeHash.AcceptedIff | boot/external/BSD/shim/src/shim.c:527-566 | If the sizes do not overflow, a table is refused exactly if they sum up to the file size or more, or a section with data starts behind the end of the file. |
| PeHash.HashSections | boot/external/BSD/shim/src/shim.c:555-577 | Both digests get the sections with data in sorted order, up to the first that starts beyond the file; the counter of hashed bytes agrees. |
| PeHash.GenerateHash | boot/external/BSD/shim/src/shim.c:446-611 | Refused exactly if raw sizes sum up to the file size or a section starts beyond the file; otherwise both digests get the specified bytes. |
| PeHashLaws.SectionOrderIrrelevant | boot/external/BSD/shim/src/shim.c:544-577 | If no two headers with data share a raw pointer, the section part of the hash input depends on the set of headers only. |
| PeHashLaws.EmptySectionsAddNothing | boot/external/BSD/shim/src/shim.c:558-560 | Sections without data contribute nothing, wherever the sort puts them. |
| PeHashLaws.HashCoversFile | boot/external/BSD/shim/src/shim.c:480-593 | For a well-formed image the hash input is the file in order without checksum, security directory entry and certificate table. |
| HashLimits.ProperInputIff | boot/external/BSD/shim/src/shim.c:480-593 | Two well-formed files, each read by itself, have the same hash input exactly if their headers and certificate tables are in the same places and they agree up to the latter outside checksum and security directory entry. |
| HashBinding.HashBindsHeaders | boot/external/BSD/shim/src/shim.c:480-593 | If two accepted files, each read by itself, have the same hash input and the headers of one cover its section table, then both have the same header fields but for the two numbers of the security directory entry, the same section table, and the same headers outside the two fields left out. |
| HashBinding.HashBindsIff | boot/external/BSD/shim/src/shim.c:480-593 | Under the same condition the input is the same exactly if these, the data of every section and the hashed rest of the file are the same. |
| HashBinding.HashBindsContents | boot/external/BSD/shim/src/shim.c:480-593 | What is copied into memory for a section is then the same. |
| HashBinding.HashBindsImage | boot/external/BSD/shim/src/shim.c:829-891 | The two files are loaded or refused together, with the same entry point, and their relocated images differ at most in the two fields left out, if neither the relocation table nor a fixup lies over these. |
| HashLimits.CertificatePlaceUnbound | boot/external/BSD/shim/src/shim.c:493-512 | The place of the certificate table is not bound: with any other place inside the file, a file whose hashed sections do not lie over the entry is accepted with the same section table and hash input. |
| HashLimits.TableUnbound | boot/external/BSD/shim/src/shim.c:480-593 | Two accepted files whose section table lies behind the headers have the same hash input, but different sections and images. |
| HashLimits.SkippedAreFields | boot/external/BSD/shim/src/shim.c:480-506 | The bytes of the headers that are left out are exactly those of the checksum and of the security directory entry, by the sizes of the fields in front of them. |
| ImageLayout.PlaceSection | boot/external/BSD/shim/src/shim.c:843-860 | One section: its raw bytes cut to the virtual size, then zeros up to the virtual size, and no other byte changes. |
| ImageLayout.CopySections | boot/external/BSD/shim/src/shim.c:841-863 | Succeeds exactly if every section passes its bounds checks, and then the buffer is the specified layout. |
| ImageLayout.PlaceableIff | boot/external/BSD/shim/src/shim.c:848-854 | A section inside the image passes the bounds checks exactly unless it is at address 0 with nothing to copy. |
| ImageLayout.WritesInsideIff | boot/external/BSD/shim/src/shim.c:843-860 | What the copy and the padding of an accepted section write stays in the image exactly if the section ends in the image. |
| ImageLayout.CopyInsideIff | boot/external/BSD/shim/src/shim.c:848-857 | The copy of an accepted section that does not wrap around stays in the image exactly unless it ends one byte behind it. |
| ImageLayout.CopyLeavesImage | boot/external/BSD/shim/src/shim.c:848-857 | An accepted section whose last raw byte goes behind the image, for every image size. |
| ImageLayout.PaddingLeavesImage | boot/external/BSD/shim/src/shim.c:848-860 | An accepted section whose padding goes behind the image, for every image size. |
| ImageLayout.LayoutInside | boot/external/BSD/shim/src/shim.c:841-863 | With disjoint sections, each address of a section holds that section's own contents, whatever is copied later. |
| ImageLayout.LayoutOutside | boot/external/BSD/shim/src/shim.c:841-863 | An address that no section covers keeps its byte. |
| ImageLayout.ImageByAddress | boot/external/BSD/shim/src/shim.c:836-863 | Headers, raw bytes and zero padding stand where they belong. |
| ImageLayout.LayoutOrderIrrelevant | boot/external/BSD/shim/src/shim.c:841-863 | The layout does not depend on the order of the section table. |
| Relocation.ApplyInPlace | boot/external/BSD/shim/src/shim.c:160-206 | One fixup adds its type's share of the adjustment to its slot, modulo the slot's width. |
| Relocation.ApplyBlock | boot/external/BSD/shim/src/shim.c:159-208 | The entries of a block are applied in order up to the first unknown type. |
| Relocation.ApplyTable | boot/external/BSD/shim/src/shim.c:144-212 | The nested loops terminate, apply exactly the fixups of the table up to the first refused block or entry, and leave the table untouched. |
| Relocation.RelocateCoff | boot/external/BSD/shim/src/shim.c:114-213 | Refusals of the directory change nothing; otherwise the image is the old one with all planned fixups applied. |
| Relocation.HugeImageRefused | boot/external/BSD/shim/src/shim.c:124-151 | In an image of 2 GiB or more the first block is refused, whatever it holds. |
| Relocation.SmallImageEnd | boot/external/BSD/shim/src/shim.c:124-157 | In a smaller one a block is refused exactly if it or its page leaves the image. |
| Relocation.DirectoryAcceptedIff | boot/external/BSD/shim/src/shim.c:134-140 | A directory that is not empty is accepted exactly if its first and its last byte are at most at the image size. |
| Relocation.NoDirectoryRefused | boot/external/BSD/shim/src/shim.c:134-140 | The empty directory at address 0 is refused. |
| RelocationTable.EntryOfBytes | boot/external/BSD/shim/src/shim.c:160-161 | The upper four bits of an entry are its type and the lower twelve its offset in the page, on the two bytes themselves. |
| RelocationTable.TableRead | boot/external/BSD/shim/src/shim.c:144-210 | A table written byte by byte from blocks of a page, types and offsets asks for exactly these fixups in order, up to the first of an unknown type. |
| RelocationTable.RelocateWritten | boot/external/BSD/shim/src/shim.c:114-213 | With such a table every slot of 16, 32 or 64 bits moves by the distance between link and load address modulo its width, a high half by the upper half of its low 32 bits, and no other byte changes. |
| Relocation.TableUntouched | boot/external/BSD/shim/src/shim.c:144-210 | Fixups outside the table leave every byte of it as it was. |
| Relocation.ApplyAllOutside | boot/external/BSD/shim/src/shim.c:159-206 | Bytes outside all slots are unchanged. |
| RelocationLaws.SlotRelocated | boot/external/BSD/shim/src/shim.c:165-201 | With disjoint slots, every slot ends with its own share added once, whatever the other fixups are. |
| RelocationLaws.PointerMoves | boot/external/BSD/shim/src/shim.c:142-201 | A LOW, HIGHLOW or DIR64 slot that held link base plus r holds load base plus r. |
| RelocationLaws.HighComposesIffNoCarry | boot/external/BSD/shim/src/shim.c:165-167 | For the HIGH type two adjustments add up exactly if their low halves do not carry. |
| RelocationLaws.ApplyAllTwiceIff | boot/external/BSD/shim/src/shim.c:159-208 | On disjoint slots, applying two adjustments one after the other is applying their sum modulo 2^64 exactly if no slot is a high half or the low halves of the adjustments do not carry. |
| RelocationLaws.TableUnchanged | boot/external/BSD/shim/src/shim.c:144-210 | An image that agrees on the table's bytes has the same table. |
| RelocationLaws.RebaseTwiceIff | boot/external/BSD/shim/src/shim.c:114-213 | Rebasing from a to b and then from b to c finds the same table, and leaves the image as rebasing from a to c exactly if the table has no high half or the low halves of the two moves do not carry. |
| Loader.HandleImage | boot/external/BSD/shim/src/shim.c:798-891 | From file bytes and databases: an image is loaded exactly if its header is accepted, in secure mode the file is trusted, and sections, relocation and entry point pass; then memory holds the relocated layout. Each failure has its cause, and an untrusted file leaves the buffer untouched. |
| SignatureList.HeaderFields | boot/external/BSD/shim/src/signature.h:18-43 | A reader standing on an encoded list finds its type, sizes and entries. |
| SignatureList.HeaderAt | boot/external/BSD/shim/src/shim.c:291-312 | In a database, the list size leads from each list to the next. |
| SignatureList.DataAt | boot/external/BSD/shim/src/shim.c:293-304 | Entry i of a list stands i signature sizes behind the first, with its data behind the owner. |
| SignatureList.EncodeDbConcat | boot/external/BSD/shim/src/MokManager.c:623-628 | Databases are concatenated byte-wise exactly as their lists are. |
| SignatureList.CertCountExact | boot/external/BSD/shim/src/shim.c:292-292 | The division that omits the list header yields the number of entries exactly if a signature is longer than 28 bytes. |
| SignatureList.DatabaseUnique | boot/external/BSD/shim/src/shim.c:291-312 | No bytes encode two different databases, so what the walks find is determined by the bytes. |
| ShimLookup.SearchEntries | boot/external/BSD/shim/src/shim.c:295-305 | Found exactly if some entry of the list begins with the digest. |
| ShimLookup.CheckDbHashInRam | boot/external/BSD/shim/src/shim.c:283-319 | DATA_FOUND exactly if some entry of the requested type in the database carries the digest. |
| ShimLookup.CheckDbHash | boot/external/BSD/shim/src/shim.c:324-346 | The same for a variable, with VAR_NOT_FOUND for an absent one. |
| ShimLookup.CarriesConcat | boot/external/BSD/shim/src/shim.c:283-319 | Lookup in two databases put together is the disjunction of the two lookups. |
| ShimLookup.LookupDistributes | boot/external/BSD/shim/src/shim.c:283-319 | The same on bytes: the concatenated databases are searchable and answer as either does. |
| ShimLookup.SearchCerts | boot/external/BSD/shim/src/shim.c:229-239 | Found exactly if the verifier accepts some certificate of the list, although it is handed 16 bytes too many. |
| ShimLookup.CheckDbCertInRam | boot/external/BSD/shim/src/shim.c:215-254 | DATA_FOUND exactly if some X.509 list holds an accepted certificate. |
| ShimLookup.PrefixVerifierIgnoresTail | boot/external/BSD/shim/src/shim.c:230-234 | Verifiers that know certificates by how they begin give the same answer with bytes behind a certificate, for every database with no shorter certificates than those known. |
| ShimLookup.CertAcceptedConcat | boot/external/BSD/shim/src/shim.c:215-254 | Certificate lookup distributes over concatenation. |
| ShimPolicy.CheckDbCert | boot/external/BSD/shim/src/shim.c:256-278 | Certificate lookup in a variable. |
| ShimPolicy.CheckBlacklist | boot/external/BSD/shim/src/shim.c:352-379 | Denied exactly if the built-in list or dbx carries either hash or accepts the signature. |
| ShimPolicy.CheckWhitelist | boot/external/BSD/shim/src/shim.c:384-405 | Allowed exactly if db or MokList says so; SHA-1 counts in db only. |
| ShimPolicy.Decide | boot/external/BSD/shim/src/shim.c:676-722 | Each of six kinds of entries in the built-in list and dbx (SHA-256, SHA-1, accepted certificate) forbids; if there is none, the image may run exactly for a SHA-256, a SHA-1 or an accepted certificate in db, a built-in certificate, or a SHA-256 or an accepted certificate in MokList unless that is accessible at run time and the firmware deletes it. |
| ShimPolicy.SeenEntries | boot/external/BSD/shim/src/shim.c:352-405 | The same about the specification, entry by entry. |
| ShimPolicy.Sha1InMokListIgnored | boot/external/BSD/shim/src/shim.c:384-405 | A SHA-1 hash in MokList alone lets no image run. |
| ImageCheck.VerifyBuffer | boot/external/BSD/shim/src/shim.c:641-728 | From file bytes and databases: a file may run exactly if it has a signature of the known kind, it can be hashed, and the databases let an image run whose hashes are the digests of its specified hash input. |
| ImageCheck.CertificateFields | boot/external/BSD/shim/src/shim.c:655-719 | Of a certificate written field by field the type and the signature are found; the signature is as long as the certificate says against the databases, and as long as the security directory says against the built-in certificates. |
| ShimPolicy.EnrolledImageRuns | boot/external/BSD/shim/src/shim.c:352-405 | Enrolling a hash into MokList lets exactly that image run in addition, unless it is blacklisted. |
| ShimPolicy.ListsAreMonotone | boot/external/BSD/shim/src/shim.c:352-405 | More entries in dbx never let another image run; more entries in db or MokList never stop one. |
| MokManager.BuildList | boot/external/BSD/shim/src/MokManager.c:1086-1141 | The fields written one by one make up the encoding of a list with one entry, owned by shim. |
| MokManager.FiltersAgree | boot/external/BSD/shim/src/MokManager.c:108-122 | The differently written filters of counting and filling both accept exactly certificates of any size and SHA-256 lists of signature size 48. |
| MokManager.CountLists | boot/external/BSD/shim/src/MokManager.c:412-435 | The counting loop yields the number of accepted lists, without wrapping around. |
| MokManager.BuildMokList | boot/external/BSD/shim/src/MokManager.c:91-137 | Every index written is below the allocated count, all are written, and the nodes are those specified. |
| MokManager.NodeDescribesFirstEntry | boot/external/BSD/shim/src/MokManager.c:124-128 | Node i holds the signature size of the i-th accepted list and leads to its first entry's data. |
| MokManager.ListKeys | boot/external/BSD/shim/src/MokManager.c:394-442 | Requests shorter than 45 bytes show nothing; otherwise counting and filling fit. |
| MokManager.VariableStore.StoreKeys | boot/external/BSD/shim/src/MokManager.c:561-637 | With a readable password hash and a willing firmware the request is written exactly if one of three passwords has the right hash and none before it could not be hashed; without a right one nothing changes. Size 0 erases the list, anything else is appended. |
| MokManager.DialogueAccepts | boot/external/BSD/shim/src/MokManager.c:581-613 | The dialogue accepts exactly if one of the first three attempts has the stored hash and none before it failed to be hashed. |
| MokManager.EnrolThenFind | boot/external/BSD/shim/src/MokManager.c:1086-1141 | After storing the list built for a hash, lookup finds that hash and answers as before for every other. |
| MokManager.EnrolThenLookUp | boot/external/BSD/shim/src/MokManager.c:1086-1141 | Building the list for a hash, storing it and looking a hash up: found exactly if it was found before or is the stored one and the firmware stored it. |
| MokManager.EraseThenLookUp | boot/external/BSD/shim/src/MokManager.c:614-620 | Storing a request of size zero and looking a hash up: the variable is absent if the user was authorised and the firmware agreed, and the answer is the old one otherwise. |
| MokManager.NewListCarries | boot/external/BSD/shim/src/MokManager.c:1113-1118 | The list built for a hash carries that hash and no other. |
| MokManager.ListCarriesFront | boot/external/BSD/shim/src/shim.c:295-305 | A list with one entry carries exactly the digests with which the entry begins. |
| EnrolmentPlan.PlatformKeyLast | src/efi_main.c:341-384 | PK is enrolled only after DB and KEK were enrolled in the same boot, and with both in the firmware's variables. |
| EnrolmentPlan.RemovalLast | src/efi_main.c:386-411 | A key file is deleted only after all three enrolments succeeded in the same boot, and while all three keys are enrolled. |
| EnrolmentPlan.OnlyInSetupMode | src/efi_main.c:212-239 | Nothing is enrolled unless all three files are there, and this boot found no platform key, SetupMode 1, and zero or nothing in AuditMode, DeployedMode and SecureBoot. |
| EnrolmentPlan.SetupModeEnrols | src/efi_main.c:212-416 | A boot that finds these values and at which every other call goes well enrols all three keys and deletes all three files. |
| EnrolmentPlan.UserModeAsks | src/efi_main.c:212-239 | A boot with a platform key and the values of user or deployed mode changes nothing and asks the user to clear the keys. |
| EnrolmentPlan.UnknownModeGoesOn | src/efi_main.c:212-239 | Without a platform key and with zero in all other variables a boot changes nothing and goes on as usual. |
| EnrolmentPlan.FailureResets | src/efi_main.c:241-416 | A failed call, or a variable other than the platform key that does not fit its place, ends the boot with a reset. |
| EnrolmentPlan.MissingMeansEnrolled | src/efi_main.c:323-416 | A boot that ends without a key file it started with leaves all three keys enrolled. |
| EnrolmentPlan.CutOffKeepsFiles | src/efi_main.c:323-384 | A boot that ends before the deletions leaves all files, so a later boot can start over. |
| EnrolmentPlan.CompleteBoot | src/efi_main.c:323-416 | If every call goes well the keys are enrolled, and exactly the files whose deletion only warned are left. |
| EnrolmentPlan.MissingFileBoot | src/efi_main.c:285-295 | With a key file missing a boot changes nothing and never asks the user to clear the keys. |
| EnrolmentPlan.NoEnrolmentAfterRemoval | src/efi_main.c:212-416 | Over any number of boots: once a key file has been removed, nothing is enrolled, neither later in that boot nor in any later one. |
| EnrolmentPlan.SettledAfterRemoval | src/efi_main.c:212-416 | All boots after one that removed a key file change nothing. |
| EnrolmentPlan.AskedToClearIff | src/efi_main.c:212-239 | A boot ends by asking the user to clear the keys exactly if it found all three files and read the variables of a known mode other than setup mode; it has changed nothing then. |
| EnrolmentPlan.WarnedKeepsFiles | src/efi_main.c:388-411 | A boot that enrolled all keys while every deletion only warned leaves all files. |
| Enrolment.Machine.UefiKeys | src/efi_main.c:241-321 | Looking for the files comes back with "missing" only on NOT_FOUND; opening them, and every other failure, ends the boot. |
| Enrolment.Machine.GetVariable | src/secure_boot_mode.c:52-89 | The value of a mode variable, or the boot ends; a missing variable is zero, a platform key of any size is one. |
| Enrolment.Machine.IsSecureBootSetupMode | src/secure_boot_mode.c:91-183 | Setup mode and unknown mode are told exactly as the five values read amount to them. |
| Enrolment.Machine.RegistUefiKeys | src/efi_main.c:323-416 | From setup mode on, the calls follow the plan and the boot ends as the last answer demands. |
| Enrolment.Machine.BootSelfSigned | src/efi_main.c:212-239 | One boot carries out the plan up to some call and ends as that call's answer demands. |
| Enrolment.Machine.RunBoots | src/efi_main.c:212-416 | Any number of boots, with any firmware and anything happening to its variables in between, form a history in which no enrolment follows a removal. |
| DevicePath.NodeAt | src/lib/external/BSD/gnu-efi/lib/dpath.c:68-85 | A walker on a node sees its type, subtype, length and payload, and steps to the next node. |
| DevicePath.PathUnique | src/lib/external/BSD/gnu-efi/lib/dpath.c:68-85 | The bytes at a place are those of one path only. |
| DevicePath.WalkToEnd | src/lib/external/BSD/gnu-efi/lib/dpath.c:297-300 | The walk stops at the end of the entire path. |
| DevicePath.DevicePathSize | src/lib/external/BSD/gnu-efi/lib/dpath.c:286-307 | The size of the nodes before the last and of one node header, for every path. |
| DevicePath.MeasuredShort | src/lib/external/BSD/gnu-efi/lib/dpath.c:286-307 | What is measured misses exactly the payload of the end node, so it is the size of the path exactly if that is bare. |
| DevicePath.DevicePathInstance | src/lib/external/BSD/gnu-efi/lib/dpath.c:48-106 | Returns the first instance's bytes and the position behind its end node, or null after the last; after 513 nodes without an end it takes the next node for one, and goes on behind that. |
| DevicePath.DevicePathInstanceCount | src/lib/external/BSD/gnu-efi/lib/dpath.c:108-121 | The number of instances that the walker tells apart, for every path. |
| DevicePath.WalkedIff | src/lib/external/BSD/gnu-efi/lib/dpath.c:71-96 | The walker tells apart the path's own instances exactly if none of them has more than 513 nodes. |
| DevicePath.EndOfInstance | src/lib/external/BSD/gnu-efi/lib/dpath.c:71-96 | The first node of end type ends the entire path exactly if it is the last node, and what follows it is a path again. |
| DevicePathAppend.DuplicateDevicePath | src/lib/external/BSD/gnu-efi/lib/dpath.c:309-334 | A copy of the path as far as it is measured, which is all of it exactly for a bare end node; null without pool memory. |
| DevicePathAppend.AppendDevicePathInstance | src/lib/external/BSD/gnu-efi/lib/dpath.c:396-433 | The new path is exactly the first path with its end turned into an instance end, and then the second as far as it is measured; the pool memory is filled exactly. |
| DevicePathAppend.AppendFitsIff | src/lib/external/BSD/gnu-efi/lib/dpath.c:411-430 | The second path, copied behind the first one's end node, fits into the memory measured for both exactly if that node is bare. |
| DevicePathAppend.AppendMeasured | src/lib/external/BSD/gnu-efi/lib/dpath.c:411-413 | The measured size of the new path is the whole size of the first and the measured size of the second. |
| DevicePathAppend.AppendInstances | src/lib/external/BSD/gnu-efi/lib/dpath.c:396-433 | The instances of the result are the first path's and then the second's. |
| DevicePathAppend.AppendEncoded | src/lib/external/BSD/gnu-efi/lib/dpath.c:411-413 | Sizes are additive. |
| DevicePathAppend.AppendIsPath | src/lib/external/BSD/gnu-efi/lib/dpath.c:420-432 | The result is a path again, with known ends if both were, and with a bare end exactly if the second has one. |
| DevicePathAppend.AppendShort | src/lib/external/BSD/gnu-efi/lib/dpath.c:75-82 | The result is within the walker's node limit exactly if both paths are. |
| DevicePathAppend.AppendWalked | src/lib/external/BSD/gnu-efi/lib/dpath.c:48-121 | If no instance of the first path is too long, the walker tells apart its instances and then those that it tells apart in the second; so the counts add up. |
| DevicePathAppend.EachInstance | src/lib/external/BSD/gnu-efi/lib/dpath.c:176-186 | Asking for one instance after the other yields the bytes of all that the walker tells apart, in order. |
| DevicePathJoin.AppendDevicePath | src/lib/external/BSD/gnu-efi/lib/dpath.c:124-194 | The memory holds, for every instance that the walker tells apart, its bytes, the measured second path and an end node, the last of which ends the entire path; a missing path gives a copy of the other. |
| DevicePathJoin.JoinFitsIff | src/lib/external/BSD/gnu-efi/lib/dpath.c:163-191 | What is written fits into the memory asked for exactly if there is one instance or the second path is not longer than the first. |
| DevicePathJoin.JoinedPath | src/lib/external/BSD/gnu-efi/lib/dpath.c:169-191 | A walker over the result finds the first instance with the second path behind it. |
| DevicePathJoin.AppendsToEachIff | src/lib/external/BSD/gnu-efi/lib/dpath.c:124-133 | The path found there is the promised one, with the second path behind every instance, exactly if there is one instance. |
| DevicePathJoin.PromisedInstances | src/lib/external/BSD/gnu-efi/lib/dpath.c:129-132 | The promised path has, for every instance, the instances of that one with the second path behind it. |
| DevicePathJoin.InstancesBehind | src/lib/external/BSD/gnu-efi/lib/dpath.c:129-132 | These are the second path's, the first of them made longer in front. |
| DevicePathUnpack.AlignBehind | src/lib/external/BSD/gnu-efi/lib/dpath.c:351-352 | Padding the running total pads each node as if it stood alone. |
| DevicePathUnpack.UnpackedSize | src/lib/external/BSD/gnu-efi/lib/dpath.c:348-359 | The sizing pass computes the size of the unpacked path. |
| DevicePathUnpack.CopyNode | src/lib/external/BSD/gnu-efi/lib/dpath.c:378-383 | One node's bytes, padded, flagged and with its new length, and the rest of the pool still zero. |
| DevicePathUnpack.UnpackDevicePath | src/lib/external/BSD/gnu-efi/lib/dpath.c:336-394 | The pool memory of the computed size is filled exactly with the unpacked nodes, for every positive alignment and every node length. |
| DevicePathUnpack.UnpackedKeeps | src/lib/external/BSD/gnu-efi/lib/dpath.c:378-382 | Masked type, subtype and payload are kept, followed by fewer zeros than one alignment. |
| DevicePathUnpack.UnpackTwice | src/lib/external/BSD/gnu-efi/lib/dpath.c:336-394 | Unpacking an unpacked path gives the same nodes. |
| DevicePathUnpack.StoredLengthIff | src/lib/external/BSD/gnu-efi/lib/dpath.c:380-381 | A length field holds the padded length exactly if that is below 65536. |
| DevicePathUnpack.UnpackedIsPath | src/lib/external/BSD/gnu-efi/lib/dpath.c:336-394 | The unpacked path can be walked again exactly if every padded length fits its field. |
| DevicePathUnpack.UnpackedInstances | src/lib/external/BSD/gnu-efi/lib/dpath.c:336-394 | Its instances are the unpacked instances. |
| DevicePathUnpack.UnpackedSizeIff | src/lib/external/BSD/gnu-efi/lib/dpath.c:286-307 | Of an unpacked path the measured size misses the padding of the end node, so it is right exactly if the alignment divides the header size. |
| PoolPrint.NewlinesReturned | src/lib/external/BSD/gnu-efi/lib/print.c:915-918 | In what is put every newline follows a carriage return. |
| PoolPrint.OnlyReturnsAdded | src/lib/external/BSD/gnu-efi/lib/print.c:915-918 | Nothing but carriage returns is added. |
| PoolPrint.ItemLayout | src/lib/external/BSD/gnu-efi/lib/print.c:955-1002 | Where the text, the padding and the spaces of an item stand, and how long it is. |
| PoolPrint.LeftOnlyIff | src/lib/external/BSD/gnu-efi/lib/print.c:979-1002 | When an item's text stands at its left end. |
| PoolPrint.PoolString.Reallocate | src/lib/external/BSD/gnu-efi/lib/misc.c:56-79 | The text moves to new memory, or is gone if there is none. |
| PoolPrint.PoolString.SPrint | src/lib/external/BSD/gnu-efi/lib/print.c:329-368 | Appends what fits below the capacity and terminates the string inside it. |
| PoolPrint.PoolString.SPrintAll | src/lib/external/BSD/gnu-efi/lib/print.c:446-486 | However a text is cut into strings, a fixed buffer shows the same: all of it exactly if it is shorter than the capacity. |
| PoolPrint.PoolString.Append | src/lib/external/BSD/gnu-efi/lib/print.c:371-413 | The pool string grows as needed, stays terminated below its capacity, and loses its text only if an allocation fails. |
| PoolPrint.PrintState.Flush | src/lib/external/BSD/gnu-efi/lib/print.c:877-889 | Nothing staged is lost unless an allocation fails while there is something to lose. |
| PoolPrint.PrintState.Put | src/lib/external/BSD/gnu-efi/lib/print.c:908-928 | One character, expanded, is appended to the output; the staging buffer is never overrun. |
| PoolPrint.PrintState.PutItem | src/lib/external/BSD/gnu-efi/lib/print.c:946-1003 | An item is put with exactly its padding. |
| FormatText.RenderedConcat | src/lib/external/BSD/gnu-efi/lib/print.c:1066-1246 | Printing two formats put together is printing the one and then the other. |
| FormatText.FormatConcat | src/lib/external/BSD/gnu-efi/lib/print.c:1066-1246 | Their strings and their arguments are put together in the same way. |
| FormatText.ItemValid | src/lib/external/BSD/gnu-efi/lib/print.c:68-69 | Texts of numbers fit the item buffer and every item can be put. |
| FormatText.DecimalTextShort | src/lib/external/BSD/gnu-efi/lib/print.c:68-69 | A decimal with sign and commas has at most 41 characters. |
| FormatText.DecimalsUnsigned | src/lib/external/BSD/gnu-efi/lib/print.c:1179-1187 | Without the long flag no decimal is negative; with it exactly the values from 2^63 on are. |
| FormatPrint.ReadNumber | src/lib/external/BSD/gnu-efi/lib/print.c:1128-1134 | A width is the number its digits stand for, and reading stops behind them. |
| FormatPrint.ReadFlag | src/lib/external/BSD/gnu-efi/lib/print.c:1088-1159 | Each flag letter changes the settings as its flag says and takes its argument. |
| FormatPrint.ConvertText | src/lib/external/BSD/gnu-efi/lib/print.c:1090-1226 | Each conversion letter yields its text from its argument. |
| FormatPrint.PrintDirective | src/lib/external/BSD/gnu-efi/lib/print.c:1073-1245 | A directive is read exactly to its end and puts its item. |
| FormatPrint.Print | src/lib/external/BSD/gnu-efi/lib/print.c:1006-1251 | For a format written from pieces, with their arguments, the loop puts exactly what the pieces mean and counts it. |
| FormatReading.FormatUnambiguous | src/lib/external/BSD/gnu-efi/lib/print.c:1066-1246 | Formats with their arguments can be read in one way only, so what is printed is determined by them. |
| FormatReading.WrittenIff | src/lib/external/BSD/gnu-efi/lib/print.c:1066-1246 | The formats that can be written from pieces are exactly those that do not end inside a directive. |
| FormatMeaning.PrintsOnce | src/lib/external/BSD/gnu-efi/lib/print.c:1066-1246 | A format with its arguments prints one text only. |
| FormatMeaning.PrintsBoth | src/lib/external/BSD/gnu-efi/lib/print.c:1066-1246 | Formats put together print their texts put together. |
| FormatMeaning.CatPrintText | src/lib/external/BSD/gnu-efi/lib/print.c:589-623 | What a format prints is what is appended to a pool string. |
| FormatMeaning.HexPrinted | src/lib/external/BSD/gnu-efi/lib/print.c:1165-1172 | %x prints the low 32 bits in hexadecimal, with l all 64. |
| FormatMeaning.DecimalPrinted | src/lib/external/BSD/gnu-efi/lib/print.c:1179-1187 | %d prints the low 32 bits without a sign, with l all 64 as a signed number. |
| FormatMeaning.CommasPrinted | src/lib/external/BSD/gnu-efi/lib/print.c:1107-1109 | After a comma the digits are grouped. |
| FormatMeaning.LongCommasPrinted | src/lib/external/BSD/gnu-efi/lib/print.c:1107-1109 | So they are with l. |
| FormatMeaning.LiteralPrints | src/lib/external/BSD/gnu-efi/lib/print.c:1064-1069 | Any other character than the percent sign prints itself. |
| FormatMeaning.FixedHexPrinted | src/lib/external/BSD/gnu-efi/lib/print.c:1161-1172 | %X always prints at least 8 digits, with l 16, whatever the width. |
| FormatMeaning.NumberWidths | src/lib/external/BSD/gnu-efi/lib/print.c:1099-1134 | A width puts spaces in front of a number, after a 0 zeros; a dash changes nothing; a star takes the width from the arguments. |
| FormatMeaning.StringPrinted | src/lib/external/BSD/gnu-efi/lib/print.c:1136-1149 | %s and %a print their argument, and "(null)" for the null pointer. |
| FormatMeaning.StringFields | src/lib/external/BSD/gnu-efi/lib/print.c:955-1002 | A field of n shows the first n characters, with spaces in front of a shorter text or, after a dash, behind it; a width alone never cuts. |
| FormatMeaning.CharacterPrinted | src/lib/external/BSD/gnu-efi/lib/print.c:1151-1155 | %c prints its character. |
| FormatMeaning.PercentPrinted | src/lib/external/BSD/gnu-efi/lib/print.c:1090-1097 | %% prints a percent sign. |
| FormatMeaning.UnknownPrinted | src/lib/external/BSD/gnu-efi/lib/print.c:1222-1226 | An unknown letter prints a question mark. |
| FormatMeaning.TwoDigits | src/lib/external/BSD/gnu-efi/lib/print.c:1354-1361 | %02d prints every number below 100 as two digits. |
| FormatMeaning.DigitCharacters | src/lib/external/BSD/gnu-efi/lib/print.c:1256-1283 | The sixteen hexadecimal and the ten decimal digits are the usual characters. |
| FormatMeaning.DigitsParsed | src/lib/external/BSD/gnu-efi/lib/str.c:214-243 | The parser reads hexadecimal digits of both cases. |
| FormatPrint.CatPrint | src/lib/external/BSD/gnu-efi/lib/print.c:589-623 | The pool string is its old text and then the rendered format if no allocation fails, and the end of that otherwise. |
| FormatPrint.CatPrintAll | src/lib/external/BSD/gnu-efi/lib/print.c:589-623 | The same for any series of calls. |
| NumberText.ValueOfDigits | src/lib/external/BSD/gnu-efi/lib/print.c:1266-1283 | The digits of a number stand for it. |
| NumberText.ScratchHex | src/lib/external/BSD/gnu-efi/lib/print.c:1273-1276 | At most 16 of the 30 scratch places are used, holding the digits in reverse. |
| NumberText.ValueToHex | src/lib/external/BSD/gnu-efi/lib/print.c:1256-1283 | The buffer holds the hexadecimal text, terminated. |
| NumberText.ScratchDigits | src/lib/external/BSD/gnu-efi/lib/print.c:1311-1314 | At most 20 of the 40 scratch places are used. |
| NumberText.ValueToString | src/lib/external/BSD/gnu-efi/lib/print.c:1286-1329 | The buffer holds the decimal text with sign and, if asked for, commas, for every 64-bit value. |
| NumberText.WriteDigits | src/lib/external/BSD/gnu-efi/lib/print.c:1316-1328 | The countdown puts the commas exactly where the specification groups the digits. |
| NumberParse.Xtoi | src/lib/external/BSD/gnu-efi/lib/str.c:214-243 | The value of the longest run of hexadecimal digits behind leading spaces, modulo 2^64. |
| NumberParse.Atoi | src/lib/external/BSD/gnu-efi/lib/str.c:245-270 | The same for decimal digits. |
| NumberParse.HexRoundTrip | src/lib/external/BSD/gnu-efi/lib/str.c:214-243 | The hexadecimal text of every number reads back as that number modulo 2^64, behind spaces and before anything else. |
| NumberParse.DecimalReadsModulo | src/lib/external/BSD/gnu-efi/lib/str.c:245-270 | So does the plain decimal text of every positive number. |
| NumberParse.DecimalRoundTripIff | src/lib/external/BSD/gnu-efi/lib/str.c:245-270 | The decimal text reads back as the value exactly if it is not negative and has no comma. |
| NumberParse.CommaBeforeDigit | src/lib/external/BSD/gnu-efi/lib/print.c:1316-1327 | A comma stands before a digit exactly if a positive multiple of three digits is left from there on and a digit stands before it. |
| NumberParse.DigitsBefore | src/lib/external/BSD/gnu-efi/lib/print.c:1316-1327 | What stands before digit k are the k digits in front of it. |
| NumberParse.CommasOnlySeparate | src/lib/external/BSD/gnu-efi/lib/print.c:1286-1329 | Without its commas the text is the plain one. |
| Glob.MatchesOne | src/lib/external/BSD/gnu-efi/lib/str.c:299-353 | In the relation every token but the star takes exactly one character. |
| Glob.MatchesRun | src/lib/external/BSD/gnu-efi/lib/str.c:289-297 | The star takes any run of characters. |
| Glob.MatchSet | src/lib/external/BSD/gnu-efi/lib/str.c:307-344 | Found exactly if the character is in the set, and the pattern position is behind its closing bracket. |
| Glob.SetMembers | src/lib/external/BSD/gnu-efi/lib/str.c:315-335 | A set that lists characters and ranges contains exactly the characters listed. |
| Glob.PlainPattern | src/lib/external/BSD/gnu-efi/lib/str.c:272-356 | A pattern without special characters matches itself only. |
| Glob.StarPattern | src/lib/external/BSD/gnu-efi/lib/str.c:289-297 | A star between two such texts matches exactly what begins with the one and ends with the other, without overlap. |
| Glob.QuestionPattern | src/lib/external/BSD/gnu-efi/lib/str.c:299-305 | Question marks match exactly the strings of their number. |
| Glob.SetPattern | src/lib/external/BSD/gnu-efi/lib/str.c:307-344 | A set matches exactly one character, which must be one of those it lists. |
| Glob.MatchRun | src/lib/external/BSD/gnu-efi/lib/str.c:289-297 | The loop of the star tries every position up to the end. |
| Glob.MetaMatch | src/lib/external/BSD/gnu-efi/lib/str.c:272-356 | Terminates, and TRUE exactly if the string matches the pattern, for every pattern whose sets are closed. |
| HandleDatabase.LibInstallProtocolInterfaces | src/lib/external/BSD/gnu-efi/lib/hand.c:438-518 | All pairs are installed on one handle, or database, handle and TPL are as before. |
| HandleDatabase.Rollback | src/lib/external/BSD/gnu-efi/lib/hand.c:498-507 | Uninstalling the installed pairs in installation order restores the database. |
| HandleDatabase.MapOfAll | src/lib/external/BSD/gnu-efi/lib/hand.c:467-491 | After success every pair is on the handle, and what was there before still is. |
| HandleDatabase.LibReinstallProtocolInterfaces | src/lib/external/BSD/gnu-efi/lib/hand.c:559-637 | All interfaces are replaced, or the successful replacements are undone in the order in which they were made. |
| HandleDatabase.UndoRestores | src/lib/external/BSD/gnu-efi/lib/hand.c:617-628 | With distinct protocols undoing restores every interface. |
| HandleDatabase.UndoRestoresIff | src/lib/external/BSD/gnu-efi/lib/hand.c:617-628 | It restores them for all interfaces exactly if the protocols are distinct. |
| HandleDatabase.FailedReinstallRestores | src/lib/external/BSD/gnu-efi/lib/hand.c:559-637 | With distinct protocols a failed call leaves the database as it was. |
| Bitmap.ConvertRow | src/lib/tp_UDKenv/tp_draw_logo.c:202-218 | One row is read pixel by pixel and written to consecutive cells, and no other cell changes. |
| Bitmap.ColourKeptIff | src/lib/tp_UDKenv/tp_draw_logo.c:206-213 | The three bytes of a pixel are taken for green, red and blue instead of blue, green and red, so its colour is kept exactly if it is grey. |
| Bitmap.FieldsSupported | src/lib/tp_UDKenv/tp_draw_logo.c:148-189 | A file written field by field is taken exactly if signature, header size, offset, planes, bits and compression are those of an uncompressed 24-bit bitmap, and with its own width, height and offset. |
| Bitmap.ConvertRows | src/lib/tp_UDKenv/tp_draw_logo.c:200-226 | Every output cell is written from its own three bytes, bottom row first. |
| Bitmap.ConvBitmap | src/lib/tp_UDKenv/tp_draw_logo.c:138-229 | A result exactly for supported headers with memory for it, holding the converted image. |
| Bitmap.RowsAtStrideIff | src/lib/tp_UDKenv/tp_draw_logo.c:220-225 | Row i is read from offset plus i strides, for all rows, exactly if there is at most one row or the offset is a multiple of four. |
| Bitmap.PixelPosition | src/lib/tp_UDKenv/tp_draw_logo.c:200-226 | Pixel j of file row i goes to column j of row height - 1 - i. |

## Left out

- Console menus, key reading, certificate display and time printing: the user's answers are parameters.
- Cryptography: digests are represented by the bytes they are given, and signature verification by an uninterpreted
  function of the certificate bytes. Failing digest calls and allocations inside `generate_hash` are not modelled.
- Files, network boot, graphics modes and the firmware's own enrolment: only the state they change is kept.
- PeHash.GenerateHash: reads that would leave the file (headers longer than the file, sections that start inside the
  file and end beyond it, a certificate table larger than what is left) are excluded by a precondition, as the code does
  not check them.
- Relocation.RelocateCoff: block headers and last entries that leave the image, blocks of size 0, which the code would
  read for ever, and slots that leave the image or lie over the table are excluded by a precondition, as the code does
  not check for them.
- ImageLayout.CopySections: accepted sections are taken to lie in the image and their raw bytes in the file, and copies
  to be shorter than 2 GiB. The code checks none of this fully: the copy may end one byte behind the image, and the
  padding, the file and the sign of the length are not looked at.
- ImageCheck.VerifyBuffer: a certificate header or a certificate that leaves the file, and lengths below that of the
  header, are excluded by a precondition, as the code does not check for them; the digests have their proper sizes.
- Loader.HandleImage: what CopySections, RelocateCoff and VerifyBuffer exclude, section tables outside the file and
  headers longer than the file are excluded by a precondition; the allocation of the image buffer is taken to succeed,
  the variables that `secure_mode` reads are a parameter, and the write of the new image base into the file's header
  (shim.c line 127) is not modelled, since the file buffer is not read afterwards.
- HashBinding.HashBindsImage: files whose relocation table or fixups lie over the checksum or the security directory
  entry in the copied headers are left out, as relocation reads or changes these bytes then; of both files the hash's
  reads are taken to stay inside.
- ShimLookup.CheckDbHashInRam: databases are concatenations of well-formed lists, those of the requested type with
  signatures longer than 28 bytes; malformed sizes, zero among them, are not modelled.
- MokManager.VariableStore.StoreKeys: a firmware write either happens or changes nothing.
- Enrolment.Machine.RegistUefiKeys: closing the files after a failed enrolment and the calls of the setup screen are
  left out, as they change neither key files nor key variables; other failures before the files are looked for are, too.
- HandleDatabase.LibInstallProtocolInterfaces: the firmware is taken to uninstall what was just installed.
- DevicePathAppend.AppendDevicePathInstance: with a source path the pool is taken to have room, which the code only
  asserts, and the source path to end in a bare header, without which the second copy would leave the memory.
- DevicePathJoin.AppendDevicePath: what is written is taken to fit into the memory, which the code does not check.
- `AppendDevicePathNode`, `LibDuplicateDevicePathInstance` and the text form of device paths.
- FormatPrint.Print: formats that end inside a directive are not modelled; the texts of GUIDs, times and status codes
  are taken as given; console attributes, which are zero when printing into a pool string, are left out.
- Glob.MetaMatch: patterns with unclosed sets are excluded.
- Bitmap.ConvBitmap: products of width and height that overflow a machine word.
- `exit_boot_services`, `get_memory_map` and the remaining helpers of gnu-efi: short sequences of firmware calls.
