/** EFI_SIGNATURE_LIST records and databases made of them (section 30.4.1 of the UEFI Specification). */
module SignatureList {
  import opened Bytes

  const LIST_HEADER_SIZE := 28
  const GUID_SIZE := 16
  const SHA256_DIGEST_SIZE := 32

  type Guid = seq<byte>

  const HASH_SHA256_GUID: Guid :=
    [0x26, 0x16, 0xC4, 0xC1, 0x4C, 0x50, 0x92, 0x40, 0xAC, 0xA9, 0x41, 0xF9, 0x36, 0x93, 0x43, 0x28]
  const HASH_SHA1_GUID: Guid :=
    [0x12, 0xA5, 0x6C, 0x82, 0x10, 0xCF, 0xC9, 0x4A, 0xB1, 0x87, 0xBE, 0x01, 0x49, 0x66, 0x31, 0xBD]
  const CERT_X509_GUID: Guid :=
    [0xA1, 0x59, 0xC0, 0xA5, 0xE4, 0x94, 0xA7, 0x4A, 0x87, 0xB5, 0xAB, 0x15, 0x5C, 0x2B, 0xF0, 0x72]
  const SHIM_LOCK_GUID: Guid :=
    [0x50, 0xAB, 0x5D, 0x60, 0x46, 0xE0, 0x00, 0x43, 0xAB, 0xB6, 0x3D, 0xD8, 0x10, 0xDD, 0x8B, 0x23]

  datatype Entry = Entry(owner: Guid, data: seq<byte>)

  datatype SigList = SigList(sigType: Guid, header: seq<byte>, sigSize: nat, entries: seq<Entry>)

  // ---- Layout ----

  function ListSize(l: SigList): (n: nat)
    ensures n >= LIST_HEADER_SIZE + |l.header|
  {
    LIST_HEADER_SIZE + |l.header| + |l.entries| * l.sigSize
  }

  predicate ValidEntry(e: Entry, sigSize: nat) {
    |e.owner| == GUID_SIZE && |e.owner| + |e.data| == sigSize
  }

  predicate Valid(l: SigList) {
    && |l.sigType| == GUID_SIZE
    && ListSize(l) < TWO32 && l.sigSize < TWO32
    && forall e | e in l.entries :: ValidEntry(e, l.sigSize)
  }

  function EncodeEntries(es: seq<Entry>): seq<byte> {
    if es == [] then [] else es[0].owner + es[0].data + EncodeEntries(es[1..])
  }

  function Encode(l: SigList): seq<byte> {
    l.sigType + ToLE(ListSize(l), 4) + ToLE(|l.header|, 4) + ToLE(l.sigSize, 4) + l.header + EncodeEntries(l.entries)
  }

  function EncodeDb(ls: seq<SigList>): seq<byte> {
    if ls == [] then [] else Encode(ls[0]) + EncodeDb(ls[1..])
  }

  predicate AllValid(ls: seq<SigList>) {
    forall l | l in ls :: Valid(l)
  }

  lemma Distribute(n: nat, s: nat)
    ensures (n + 1) * s == s + n * s
  {
  }

  lemma {:induction false} EntriesLength(es: seq<Entry>, sigSize: nat)
    requires forall e | e in es :: ValidEntry(e, sigSize)
    ensures |EncodeEntries(es)| == |es| * sigSize
  {
    if es != [] {
      assert ValidEntry(es[0], sigSize);
      EntriesLength(es[1..], sigSize);
      Distribute(|es| - 1, sigSize);
    }
  }

  lemma EncodeLength(l: SigList)
    requires Valid(l)
    ensures |Encode(l)| == ListSize(l)
  {
    EntriesLength(l.entries, l.sigSize);
  }

  lemma {:induction false} EncodeDbConcat(a: seq<SigList>, b: seq<SigList>)
    ensures EncodeDb(a + b) == EncodeDb(a) + EncodeDb(b)
  {
    if a == [] {
      assert a + b == b;
    } else {
      assert (a + b)[1..] == a[1..] + b;
      EncodeDbConcat(a[1..], b);
    }
  }

  // ---- Reading fields back ----

  lemma Parts(t0: seq<byte>, t1: seq<byte>, t2: seq<byte>, t3: seq<byte>, rest: seq<byte>)
    requires |t0| == 16 && |t1| == |t2| == |t3| == 4
    ensures var b := t0 + t1 + t2 + t3 + rest;
      && b[..16] == t0 && b[16..20] == t1 && b[20..24] == t2 && b[24..28] == t3 && b[28..] == rest
  {
  }

  lemma ReadBack(b: seq<byte>, at: nat, v: nat)
    requires v < TWO32 && at + 4 <= |b| && b[at..at + 4] == ToLE(v, 4)
    ensures Read32(b, at) == v
  {
    FromToLE(v, 4);
    WordSizes();
  }

  lemma EncodeParts(l: SigList)
    ensures Encode(l) == l.sigType + ToLE(ListSize(l), 4) + ToLE(|l.header|, 4) + ToLE(l.sigSize, 4)
                         + (l.header + EncodeEntries(l.entries))
  {
    hide ListSize, ToLE, EncodeEntries;
  }

  lemma HeaderShort(l: SigList)
    requires Valid(l)
    ensures |l.header| < TWO32
  {
  }

  lemma Behind(b: seq<byte>, at: nat, x: seq<byte>, y: seq<byte>)
    requires at <= |b| && b[at..] == x + y
    ensures at + |x| <= |b| && b[at + |x|..] == y
  {
    assert b[at + |x|..] == b[at..][|x|..];
  }

  /** What a reader standing on a list finds in its header. */
  lemma HeaderFields(l: SigList)
    requires Valid(l)
    ensures var b := Encode(l);
      && |b| == ListSize(l)
      && b[..GUID_SIZE] == l.sigType
      && Read32(b, 16) == ListSize(l)
      && Read32(b, 20) == |l.header|
      && Read32(b, 24) == l.sigSize
      && b[LIST_HEADER_SIZE + |l.header|..] == EncodeEntries(l.entries)
  {
    hide ListSize, ToLE, EncodeEntries, Read32, Encode;
    EncodeLength(l);
    EncodeParts(l);
    HeaderShort(l);
    var b := Encode(l);
    Parts(l.sigType, ToLE(ListSize(l), 4), ToLE(|l.header|, 4), ToLE(l.sigSize, 4),
          l.header + EncodeEntries(l.entries));
    ReadBack(b, 16, ListSize(l));
    ReadBack(b, 20, |l.header|);
    ReadBack(b, 24, l.sigSize);
    Behind(b, LIST_HEADER_SIZE, l.header, EncodeEntries(l.entries));
  }

  lemma Read32Shift(db: seq<byte>, pos: nat, end: nat, at: nat)
    requires pos <= end <= |db| && pos + at + 4 <= end
    ensures Read32(db[pos..end], at) == Read32(db, pos + at)
  {
    SliceOfSlice(db, pos, end, at, at + 4);
  }

  /** A reader standing at pos, where the encoding of ls begins. */
  ghost predicate StandsAt(db: seq<byte>, pos: nat, ls: seq<SigList>) {
    pos <= |db| && db[pos..] == EncodeDb(ls) && AllValid(ls)
  }

  lemma HeaderAt(db: seq<byte>, pos: nat, ls: seq<SigList>)
    requires StandsAt(db, pos, ls) && ls != []
    ensures var l := ls[0];
      && Valid(l)
      && pos + ListSize(l) <= |db|
      && db[pos..pos + GUID_SIZE] == l.sigType
      && Read32(db, pos + 16) == ListSize(l)
      && Read32(db, pos + 20) == |l.header|
      && Read32(db, pos + 24) == l.sigSize
      && db[pos + LIST_HEADER_SIZE + |l.header|..pos + ListSize(l)] == EncodeEntries(l.entries)
      && StandsAt(db, pos + ListSize(l), ls[1..])
  {
    hide Encode, EncodeEntries, Read32, ListSize;
    var l := ls[0];
    assert l in ls;
    HeaderFields(l);
    var end := pos + ListSize(l);
    assert db[pos..][..ListSize(l)] == Encode(l);
    assert db[pos..end] == Encode(l);
    Read32Shift(db, pos, end, 16);
    Read32Shift(db, pos, end, 20);
    Read32Shift(db, pos, end, 24);
    SliceOfSlice(db, pos, end, 0, GUID_SIZE);
    SliceOfSlice(db, pos, end, LIST_HEADER_SIZE + |l.header|, ListSize(l));
    assert db[end..] == db[pos..][ListSize(l)..] == EncodeDb(ls[1..]);
    assert forall x | x in ls[1..] :: x in ls;
  }

  lemma {:induction false} EntryAt(es: seq<Entry>, sigSize: nat, i: nat)
    requires forall e | e in es :: ValidEntry(e, sigSize)
    requires i < |es|
    ensures i * sigSize + sigSize <= |EncodeEntries(es)|
    ensures EncodeEntries(es)[i * sigSize..i * sigSize + sigSize] == es[i].owner + es[i].data
    decreases i
  {
    assert ValidEntry(es[0], sigSize);
    var b, rest := EncodeEntries(es), EncodeEntries(es[1..]);
    EntriesLength(es[1..], sigSize);
    Distribute(|es| - 1, sigSize);
    assert b == (es[0].owner + es[0].data) + rest;
    if i > 0 {
      EntryAt(es[1..], sigSize, i - 1);
      Distribute(i - 1, sigSize);
      hide EncodeEntries;
      var k := (i - 1) * sigSize;
      SliceOfConcat(es[0].owner + es[0].data, rest, k, k + sigSize);
    }
  }

  lemma SliceOfConcat(a: seq<byte>, b: seq<byte>, i: nat, j: nat)
    requires i <= j <= |b|
    ensures (a + b)[|a| + i..|a| + j] == b[i..j]
  {
  }

  /** The data of an entry, as a reader finds it in the database. */
  lemma DataAt(db: seq<byte>, pos: nat, ls: seq<SigList>, i: nat, offset: nat)
    requires StandsAt(db, pos, ls) && ls != [] && i < |ls[0].entries|
    requires offset == i * ls[0].sigSize
    ensures var l := ls[0];
      var cert := pos + LIST_HEADER_SIZE + |l.header| + offset;
      && GUID_SIZE <= l.sigSize
      && cert + l.sigSize <= pos + ListSize(l) <= |db|
      && db[cert + GUID_SIZE..cert + l.sigSize] == l.entries[i].data
  {
    hide EncodeEntries, EncodeDb, Encode, Read32, StandsAt, ListSize;
    HeaderAt(db, pos, ls);
    var l := ls[0];
    assert ValidEntry(l.entries[i], l.sigSize);
    EntryAt(l.entries, l.sigSize, i);
    DataInEntries(db, pos + LIST_HEADER_SIZE + |l.header|, pos + ListSize(l), EncodeEntries(l.entries), offset,
                  l.entries[i], l.sigSize);
  }

  lemma DataInEntries(db: seq<byte>, start: nat, end: nat, b: seq<byte>, k: nat, e: Entry, size: nat)
    requires start <= end <= |db| && db[start..end] == b
    requires k + size <= |b| && b[k..k + size] == e.owner + e.data
    requires |e.owner| == GUID_SIZE
    ensures start + k + size <= end && GUID_SIZE <= size
    ensures db[start + k + GUID_SIZE..start + k + size] == e.data
  {
    var x := b[k..k + size];
    assert |x| == size == GUID_SIZE + |e.data|;
    SliceOfSlice(db, start, end, k + GUID_SIZE, k + size);
    SliceOfSlice(b, k, k + size, GUID_SIZE, size);
    assert (e.owner + e.data)[GUID_SIZE..size] == e.data;
  }

  // ---- One reading only ----

  lemma {:induction false} EntriesUnique(a: seq<Entry>, b: seq<Entry>, sigSize: nat)
    requires forall e | e in a :: ValidEntry(e, sigSize)
    requires forall e | e in b :: ValidEntry(e, sigSize)
    requires EncodeEntries(a) == EncodeEntries(b)
    ensures a == b
  {
    if a != [] && b != [] {
      FirstEntry(a, sigSize);
      FirstEntry(b, sigSize);
      EntriesUnique(a[1..], b[1..], sigSize);
      assert a == [a[0]] + a[1..] && b == [b[0]] + b[1..];
    } else if a != [] {
      FirstEntry(a, sigSize);
    } else if b != [] {
      FirstEntry(b, sigSize);
    }
  }

  lemma FirstEntry(es: seq<Entry>, sigSize: nat)
    requires es != [] && forall e | e in es :: ValidEntry(e, sigSize)
    ensures var s := EncodeEntries(es);
      && GUID_SIZE <= sigSize <= |s|
      && s[..GUID_SIZE] == es[0].owner && s[GUID_SIZE..sigSize] == es[0].data
      && s[sigSize..] == EncodeEntries(es[1..])
  {
    assert ValidEntry(es[0], sigSize);
  }

  lemma EncodeUnique(l: SigList, m: SigList)
    requires Valid(l) && Valid(m) && Encode(l) == Encode(m)
    ensures l == m
  {
    hide Encode, EncodeEntries, ListSize, Read32;
    HeaderFields(l);
    HeaderFields(m);
    HeaderBytes(l);
    HeaderBytes(m);
    EntriesUnique(l.entries, m.entries, l.sigSize);
  }

  lemma HeaderBytes(l: SigList)
    requires Valid(l)
    ensures |Encode(l)| >= LIST_HEADER_SIZE + |l.header|
    ensures Encode(l)[LIST_HEADER_SIZE..LIST_HEADER_SIZE + |l.header|] == l.header
  {
    hide EncodeEntries, ListSize, ToLE;
  }

  /** No bytes are the encoding of two different databases, so what a reader finds in them is well defined. */
  lemma {:induction false} DatabaseUnique(db: seq<byte>, pos: nat, a: seq<SigList>, b: seq<SigList>)
    requires StandsAt(db, pos, a) && StandsAt(db, pos, b)
    ensures a == b
    decreases |a|
  {
    hide Encode, EncodeEntries, ListSize, Read32;
    if a != [] && b != [] {
      HeaderAt(db, pos, a);
      HeaderAt(db, pos, b);
      FirstList(db, pos, a);
      FirstList(db, pos, b);
      EncodeUnique(a[0], b[0]);
      DatabaseUnique(db, pos + ListSize(a[0]), a[1..], b[1..]);
      assert a == [a[0]] + a[1..] && b == [b[0]] + b[1..];
    } else if a != [] {
      HeaderAt(db, pos, a);
    } else if b != [] {
      HeaderAt(db, pos, b);
    }
  }

  lemma FirstList(db: seq<byte>, pos: nat, ls: seq<SigList>)
    requires StandsAt(db, pos, ls) && ls != []
    ensures pos + ListSize(ls[0]) <= |db| && db[pos..pos + ListSize(ls[0])] == Encode(ls[0])
  {
    hide Encode, ListSize;
    assert ls[0] in ls;
    EncodeLength(ls[0]);
    assert db[pos..][..ListSize(ls[0])] == Encode(ls[0]);
  }

  // ---- The number of entries ----

  /** The readers' entry count; their subtraction leaves the 28-byte list header in. */
  function CertCount(l: SigList): nat
    requires l.sigSize > 0
  {
    (ListSize(l) - |l.header|) / l.sigSize
  }

  /** The forgotten header does no harm exactly if one signature is longer than it. */
  lemma CertCountExact(l: SigList)
    requires l.sigSize > 0
    ensures CertCount(l) == |l.entries| <==> l.sigSize > LIST_HEADER_SIZE
  {
    var n, s := |l.entries|, l.sigSize;
    assert ListSize(l) - |l.header| == s * n + LIST_HEADER_SIZE by {
      assert n * s == s * n;
    }
    if s > LIST_HEADER_SIZE {
      ModUnique(s * n + LIST_HEADER_SIZE, s, n, LIST_HEADER_SIZE);
    } else {
      var q, r := (s * n + LIST_HEADER_SIZE) / s, (s * n + LIST_HEADER_SIZE) % s;
      assert s * n + LIST_HEADER_SIZE == s * q + r;
    }
  }
}
