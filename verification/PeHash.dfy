/** The Authenticode digest of a PE image ("Calculating the PE Image Hash" of the Windows Authenticode Portable
    Executable Signature Format). Both digests are represented by the bytes fed to them. */
module PeHash {
  import opened Bytes
  import opened PeImage
  import opened SectionSort

  datatype HashStatus = Hashed | Malformed

  /** Both digests, by the bytes they have been given. */
  class Digests {
    var sha256: seq<byte>
    var sha1: seq<byte>

    constructor ()
      ensures sha256 == [] && sha1 == []
    {
      sha256, sha1 := [], [];
    }

    method Update(bytes: seq<byte>)
      modifies this
      ensures sha256 == old(sha256) + bytes && sha1 == old(sha1) + bytes
    {
      sha256, sha1 := sha256 + bytes, sha1 + bytes;
    }
  }

  // ---- What the code feeds ----

  /** Sizes are summed in a 32-bit counter. */
  function RawTotal(s: seq<Section>): (t: nat)
    ensures t < TWO32
    decreases |s|
  {
    if s == [] then 0 else (RawTotal(s[..|s| - 1]) + s[|s| - 1].rawSize) % TWO32
  }

  /** A section with data is skipped only if it is empty, and refused if it starts beyond the file. */
  predicate BeyondFile(data: seq<byte>, s: Section) {
    s.rawSize != 0 && s.rawPointer > |data|
  }

  predicate RawInFile(data: seq<byte>, s: Section) {
    s.rawSize == 0 || s.rawPointer > |data| || s.rawPointer + s.rawSize <= |data|
  }

  function RawBytes(data: seq<byte>, s: Section): seq<byte>
    requires RawInFile(data, s) && !BeyondFile(data, s)
  {
    if s.rawSize == 0 then [] else data[s.rawPointer..s.rawPointer + s.rawSize]
  }

  function SectionBytes(data: seq<byte>, s: seq<Section>): seq<byte>
    requires forall x | x in s :: RawInFile(data, x) && !BeyondFile(data, x)
    decreases |s|
  {
    if s == [] then [] else SectionBytes(data, s[..|s| - 1]) + RawBytes(data, s[|s| - 1])
  }

  /** The header pieces: up to the checksum, up to the security directory entry, and the rest of the headers. */
  function HeaderBytes(data: seq<byte>, c: Context): seq<byte>
    requires c.pe + SECURITY_DIRECTORY + DATA_DIRECTORY_SIZE <= c.sizeOfHeaders <= |data|
  {
    data[..c.pe + CHECKSUM]
    + data[c.pe + CHECKSUM + CHECKSUM_SIZE..c.pe + SECURITY_DIRECTORY]
    + data[c.pe + SECURITY_DIRECTORY + DATA_DIRECTORY_SIZE..c.sizeOfHeaders]
  }

  /** What lies behind the headers and sections, without the certificate table's length. */
  function TailBytes(data: seq<byte>, hashed: nat, certSize: nat): seq<byte>
    requires hashed < |data| ==> hashed + certSize <= |data|
  {
    if |data| > hashed then data[hashed..|data| - certSize] else []
  }

  /** The reads of the hash stay inside the file. */
  predicate Readable(data: seq<byte>, c: Context, table: seq<Section>) {
    && |data| < TWO32
    && c.pe + SECURITY_DIRECTORY + DATA_DIRECTORY_SIZE <= c.sizeOfHeaders <= |data|
    && (forall x | x in table :: RawInFile(data, x))
    && (var hashed := (c.sizeOfHeaders + RawTotal(table)) % TWO32;
        hashed < |data| ==> hashed + c.secSize <= |data|)
  }

  predicate Accepted(data: seq<byte>, table: seq<Section>) {
    RawTotal(table) < |data| && forall x | x in table :: !BeyondFile(data, x)
  }

  function HashInput(data: seq<byte>, c: Context, table: seq<Section>): seq<byte>
    requires Readable(data, c, table) && Accepted(data, table)
  {
    SortSorts(table);
    assert forall x | x in Sort(table) :: x in table by {
      SameMembers(table, Sort(table));
    }
    HeaderBytes(data, c) + SectionBytes(data, Sort(table))
    + TailBytes(data, (c.sizeOfHeaders + RawTotal(table)) % TWO32, c.secSize)
  }

  lemma SameMembers(s: seq<Section>, t: seq<Section>)
    requires multiset(s) == multiset(t)
    ensures forall x :: x in s <==> x in t
  {
    forall x
      ensures x in s <==> x in t
    {
      assert x in s <==> x in multiset(s);
      assert x in t <==> x in multiset(t);
    }
  }

  // ---- The hashing loops ----

  method SumRawSizes(table: seq<Section>) returns (sum: nat)
    ensures sum == RawTotal(table)
  {
    sum := 0;
    var index := 0;
    while index < |table|
      invariant 0 <= index <= |table|
      invariant sum == RawTotal(table[..index])
    {
      sum := (sum + table[index].rawSize) % TWO32;
      assert table[..index + 1][..index] == table[..index];
      index := index + 1;
    }
    assert table[..index] == table;
  }

  function RawTotalFrom(start: nat, s: seq<Section>): nat {
    (start + RawTotal(s)) % TWO32
  }

  lemma RawTotalFromSnoc(start: nat, s: seq<Section>, k: nat)
    requires k < |s|
    ensures RawTotalFrom(start, s[..k + 1]) == (RawTotalFrom(start, s[..k]) + s[k].rawSize) % TWO32
  {
    assert s[..k + 1][..k] == s[..k];
    var t := RawTotal(s[..k]);
    ModEqual(start + (t + s[k].rawSize) % TWO32, start + t + s[k].rawSize, -((t + s[k].rawSize) / TWO32), TWO32);
    ModEqual((start + t) % TWO32 + s[k].rawSize, start + t + s[k].rawSize, -((start + t) / TWO32), TWO32);
  }

  function Sum(s: seq<Section>): nat
    decreases |s|
  {
    if s == [] then 0 else Sum(s[..|s| - 1]) + s[|s| - 1].rawSize
  }

  lemma {:induction false} RawTotalIsSum(s: seq<Section>)
    ensures RawTotal(s) == Sum(s) % TWO32
    decreases |s|
  {
    if s != [] {
      var init, x := s[..|s| - 1], s[|s| - 1].rawSize;
      RawTotalIsSum(init);
      ModEqual(Sum(init) % TWO32 + x, Sum(init) + x, -(Sum(init) / TWO32), TWO32);
    }
  }

  lemma {:induction false} SumInsert(s: seq<Section>, x: Section)
    ensures Sum(Insert(s, x)) == Sum(s) + x.rawSize
    decreases |s|
  {
    if s != [] && x.rawPointer < s[|s| - 1].rawPointer {
      SumInsert(s[..|s| - 1], x);
      assert Insert(s, x)[..|s|] == Insert(s[..|s| - 1], x);
    } else {
      assert (s + [x])[..|s|] == s;
    }
  }

  lemma {:induction false} SumSort(s: seq<Section>)
    ensures Sum(Sort(s)) == Sum(s)
    decreases |s|
  {
    if s != [] {
      SumSort(s[..|s| - 1]);
      SumInsert(Sort(s[..|s| - 1]), s[|s| - 1]);
    }
  }

  lemma RawTotalSort(s: seq<Section>)
    ensures RawTotal(Sort(s)) == RawTotal(s)
  {
    RawTotalIsSum(s);
    RawTotalIsSum(Sort(s));
    SumSort(s);
  }

  predicate Hashable(data: seq<byte>, s: seq<Section>) {
    forall x | x in s :: RawInFile(data, x) && !BeyondFile(data, x)
  }

  lemma HashableSnoc(data: seq<byte>, s: seq<Section>, k: nat)
    requires k < |s| && Hashable(data, s[..k])
    requires RawInFile(data, s[k]) && !BeyondFile(data, s[k])
    ensures Hashable(data, s[..k + 1])
    ensures SectionBytes(data, s[..k + 1]) == SectionBytes(data, s[..k]) + RawBytes(data, s[k])
  {
    assert s[..k + 1] == s[..k] + [s[k]];
    assert s[..k + 1][..k] == s[..k];
  }

  /** A table whose sizes do not overflow is refused exactly if they sum up to the file size or more, or a section with
      data starts behind the file's end. */
  lemma AcceptedIff(data: seq<byte>, table: seq<Section>)
    requires Sum(table) < TWO32
    ensures Accepted(data, table)
       <==> Sum(table) < |data| && forall x | x in table && x.rawSize > 0 :: x.rawPointer <= |data|
  {
    hide RawTotal, Sum;
    RawTotalIsSum(table);
  }

  /** The sorted headers' data, one after the other; stops at the first header that points beyond the file. */
  method HashSections(data: seq<byte>, sorted: seq<Section>, start: nat, digests: Digests)
    returns (status: HashStatus, sumOfBytesHashed: nat)
    requires forall x | x in sorted :: RawInFile(data, x)
    requires start < TWO32
    requires digests.sha256 == digests.sha1
    modifies digests
    ensures status == Hashed <==> Hashable(data, sorted)
    ensures status == Hashed ==> sumOfBytesHashed == RawTotalFrom(start, sorted)
    ensures status == Hashed ==>
      digests.sha256 == digests.sha1 == old(digests.sha256) + SectionBytes(data, sorted)
  {
    hide RawTotalFrom, SectionBytes, RawTotal;
    ghost var before := digests.sha256;
    sumOfBytesHashed := start;
    var index := 0;
    NothingHashed(data, sorted, start);
    while index < |sorted|
      invariant 0 <= index <= |sorted|
      invariant sumOfBytesHashed == RawTotalFrom(start, sorted[..index])
      invariant Hashable(data, sorted[..index])
      invariant digests.sha256 == digests.sha1 == before + SectionBytes(data, sorted[..index])
    {
      var section := sorted[index];
      RawTotalFromSnoc(start, sorted, index);
      if section.rawSize == 0 {
        HashableSnoc(data, sorted, index);
        TotalInRange(start, sorted[..index]);
        index := index + 1;
        continue;
      }
      if section.rawPointer > |data| {
        assert section in sorted && BeyondFile(data, section);
        return Malformed, sumOfBytesHashed;
      }
      HashableSnoc(data, sorted, index);
      digests.Update(data[section.rawPointer..section.rawPointer + section.rawSize]);
      sumOfBytesHashed := (sumOfBytesHashed + section.rawSize) % TWO32;
      index := index + 1;
    }
    assert sorted[..index] == sorted;
    return Hashed, sumOfBytesHashed;
  }

  lemma TotalInRange(start: nat, s: seq<Section>)
    ensures RawTotalFrom(start, s) < TWO32
  {
  }

  lemma NothingHashed(data: seq<byte>, sorted: seq<Section>, start: nat)
    requires start < TWO32
    ensures RawTotalFrom(start, sorted[..0]) == start
    ensures SectionBytes(data, sorted[..0]) == []
  {
  }

  method GenerateHash(data: seq<byte>, c: Context, table: seq<Section>, digests: Digests) returns (status: HashStatus)
    requires Readable(data, c, table)
    requires digests.sha256 == [] && digests.sha1 == []
    modifies digests
    ensures status == Hashed <==> Accepted(data, table)
    ensures status == Hashed ==> digests.sha256 == digests.sha1 == HashInput(data, c, table)
  {
    hide SectionBytes, RawTotal, Sort;
    digests.Update(data[..c.pe + CHECKSUM]);
    digests.Update(data[c.pe + CHECKSUM + CHECKSUM_SIZE..c.pe + SECURITY_DIRECTORY]);
    digests.Update(data[c.pe + SECURITY_DIRECTORY + DATA_DIRECTORY_SIZE..c.sizeOfHeaders]);
    assert digests.sha256 == HeaderBytes(data, c);
    var sumOfSectionBytes := SumRawSizes(table);
    if sumOfSectionBytes >= |data| {
      return Malformed;
    }
    var headers := SortHeaders(table);
    SortSorts(table);
    SameMembers(table, Sort(table));
    RawTotalSort(table);
    var sumOfBytesHashed;
    status, sumOfBytesHashed := HashSections(data, headers[..], c.sizeOfHeaders, digests);
    if status == Hashed && |data| > sumOfBytesHashed {
      digests.Update(data[sumOfBytesHashed..|data| - c.secSize]);
    }
  }
}
