/** The loader's walks over a signature database. */
module ShimLookup {
  import opened Bytes
  import opened SignatureList

  datatype CheckStatus = DataFound | DataNotFound | VarNotFound

  // ---- Hashes ----

  /** The walk divides by every list's signature size. A list of the requested type can be searched if its signatures
      hold at least a digest, and more than a list header, without which the entry count would be too large. */
  predicate Searchable(l: SigList, digestSize: nat, certType: Guid) {
    && l.sigSize > 0
    && (l.sigType == certType ==> l.sigSize > LIST_HEADER_SIZE && GUID_SIZE + digestSize <= l.sigSize)
  }

  predicate AllSearchable(ls: seq<SigList>, digestSize: nat, certType: Guid) {
    AllValid(ls) && forall l | l in ls :: Searchable(l, digestSize, certType)
  }

  predicate EntryCarries(e: Entry, digest: seq<byte>) {
    digest <= e.data
  }

  predicate ListCarries(l: SigList, digest: seq<byte>) {
    exists e | e in l.entries :: EntryCarries(e, digest)
  }

  /** Some entry of the requested type carries the digest. */
  predicate Carries(ls: seq<SigList>, digest: seq<byte>, certType: Guid) {
    exists l | l in ls :: l.sigType == certType && ListCarries(l, digest)
  }

  lemma CarriesConcat(a: seq<SigList>, b: seq<SigList>, digest: seq<byte>, certType: Guid)
    ensures Carries(a + b, digest, certType) <==> Carries(a, digest, certType) || Carries(b, digest, certType)
  {
    if l :| l in a && l.sigType == certType && ListCarries(l, digest) {
      assert l in a + b;
    }
    if l :| l in b && l.sigType == certType && ListCarries(l, digest) {
      assert l in a + b;
    }
  }

  lemma SearchableTail(ls: seq<SigList>, digestSize: nat, certType: Guid)
    requires AllSearchable(ls, digestSize, certType) && ls != []
    ensures Searchable(ls[0], digestSize, certType)
    ensures AllSearchable(ls[1..], digestSize, certType)
  {
    assert ls[0] in ls;
    assert forall l | l in ls[1..] :: l in ls;
  }

  lemma CarriesCons(ls: seq<SigList>, digest: seq<byte>, certType: Guid)
    requires ls != []
    ensures Carries(ls, digest, certType)
       <==> (ls[0].sigType == certType && ListCarries(ls[0], digest)) || Carries(ls[1..], digest, certType)
  {
    assert ls == [ls[0]] + ls[1..];
    CarriesConcat([ls[0]], ls[1..], digest, certType);
    assert Carries([ls[0]], digest, certType) <==> ls[0].sigType == certType && ListCarries(ls[0], digest) by {
      assert ls[0] in [ls[0]];
    }
  }

  /** The entries of one list. cert is the position of its first entry. */
  method SearchEntries(db: seq<byte>, cert: nat, certCount: nat, sigSize: nat, digest: seq<byte>,
                       ghost pos: nat, ghost ls: seq<SigList>)
    returns (found: bool)
    requires StandsAt(db, pos, ls) && ls != []
    requires cert == pos + LIST_HEADER_SIZE + |ls[0].header|
    requires certCount == |ls[0].entries| && sigSize == ls[0].sigSize
    requires GUID_SIZE + |digest| <= sigSize
    ensures found <==> ListCarries(ls[0], digest)
  {
    hide StandsAt, EncodeDb, ListSize;
    ghost var es := ls[0].entries;
    var at := cert;
    var index := 0;
    ghost var offset := 0;
    while index < certCount
      invariant 0 <= index <= certCount
      invariant offset == index * sigSize && at == cert + offset
      invariant forall j | 0 <= j < index :: !EntryCarries(es[j], digest)
    {
      DataAt(db, pos, ls, index, offset);
      var data := db[at + GUID_SIZE..at + GUID_SIZE + |digest|];
      assert data == es[index].data[..|digest|] by {
        Prefix(db, at + GUID_SIZE, at + sigSize, |digest|, es[index].data);
      }
      if data == digest {
        assert EntryCarries(es[index], digest) && es[index] in es;
        return true;
      }
      Distribute(index, sigSize);
      at := at + sigSize;
      offset := offset + sigSize;
      index := index + 1;
    }
    return false;
  }

  lemma Prefix(db: seq<byte>, i: nat, j: nat, n: nat, data: seq<byte>)
    requires i + n <= j <= |db| && db[i..j] == data
    ensures n <= |data| && db[i..i + n] == data[..n]
  {
    SliceOfSlice(db, i, j, 0, n);
  }

  /** The entry count that the walk computes from a list's header. */
  function CountField(db: seq<byte>, pos: nat): nat
    requires pos + LIST_HEADER_SIZE <= |db|
    requires Read32(db, pos + 24) > 0 && Read32(db, pos + 16) >= Read32(db, pos + 20)
  {
    (Read32(db, pos + 16) - Read32(db, pos + 20)) / Read32(db, pos + 24)
  }

  lemma CountDefined(db: seq<byte>, pos: nat, ls: seq<SigList>)
    requires StandsAt(db, pos, ls) && ls != [] && ls[0].sigSize > 0
    ensures pos + LIST_HEADER_SIZE <= |db|
    ensures Read32(db, pos + 24) > 0 && Read32(db, pos + 16) >= Read32(db, pos + 20)
  {
    hide StandsAt, EncodeDb, Read32;
    HeaderAt(db, pos, ls);
  }

  lemma CountHere(db: seq<byte>, pos: nat, ls: seq<SigList>)
    requires StandsAt(db, pos, ls) && ls != [] && ls[0].sigSize > LIST_HEADER_SIZE
    ensures pos + LIST_HEADER_SIZE <= |db|
    ensures Read32(db, pos + 24) > 0 && Read32(db, pos + 16) >= Read32(db, pos + 20)
    ensures CountField(db, pos) == |ls[0].entries|
  {
    hide StandsAt, EncodeDb;
    HeaderAt(db, pos, ls);
    CertCountExact(ls[0]);
  }

  method CheckDbHashInRam(db: seq<byte>, digest: seq<byte>, certType: Guid, ghost lists: seq<SigList>)
    returns (status: CheckStatus)
    requires db == EncodeDb(lists) && AllSearchable(lists, |digest|, certType)
    ensures status == if Carries(lists, digest, certType) then DataFound else DataNotFound
  {
    hide StandsAt, EncodeDb, EncodeEntries, Encode, ListSize, AllSearchable, Carries, ListCarries, Read32, CountField;
    var pos, dbsize := 0, |db|;
    ghost var rest := lists;
    Starting(db, lists, |digest|, certType);
    while dbsize > 0 && dbsize >= Read32(db, pos + 16)
      invariant pos + dbsize == |db|
      invariant StandsAt(db, pos, rest) && AllSearchable(rest, |digest|, certType)
      invariant dbsize > 0 <==> rest != []
      invariant dbsize > 0 ==> pos + LIST_HEADER_SIZE <= |db| && dbsize >= Read32(db, pos + 16)
      invariant Carries(lists, digest, certType) <==> Carries(rest, digest, certType)
      decreases dbsize
    {
      SearchableTail(rest, |digest|, certType);
      HeaderAt(db, pos, rest);
      CountDefined(db, pos, rest);
      CarriesCons(rest, digest, certType);
      var listSize, headerSize, sigSize := Read32(db, pos + 16), Read32(db, pos + 20), Read32(db, pos + 24);
      var certCount := CountField(db, pos);
      var cert := pos + LIST_HEADER_SIZE + headerSize;
      if db[pos..pos + GUID_SIZE] == certType {
        CountHere(db, pos, rest);
        var found := SearchEntries(db, cert, certCount, sigSize, digest, pos, rest);
        if found {
          return DataFound;
        }
      }
      dbsize := dbsize - listSize;
      pos := pos + listSize;
      rest := rest[1..];
      Standing(db, pos, rest);
    }
    NothingCarried(digest, certType);
    return DataNotFound;
  }

  lemma Starting(db: seq<byte>, lists: seq<SigList>, digestSize: nat, certType: Guid)
    requires db == EncodeDb(lists) && AllSearchable(lists, digestSize, certType)
    ensures StandsAt(db, 0, lists)
    ensures |db| > 0 <==> lists != []
    ensures |db| > 0 ==> LIST_HEADER_SIZE <= |db| && |db| >= Read32(db, 16)
  {
    StandsAtStart(db, lists);
    Standing(db, 0, lists);
  }

  lemma Standing(db: seq<byte>, pos: nat, ls: seq<SigList>)
    requires StandsAt(db, pos, ls)
    ensures |db| - pos > 0 <==> ls != []
    ensures pos < |db| ==> pos + LIST_HEADER_SIZE <= |db| && |db| - pos >= Read32(db, pos + 16)
  {
    if ls == [] {
      assert |db[pos..]| == 0;
    } else {
      HeaderAt(db, pos, ls);
    }
  }

  lemma NothingCarried(digest: seq<byte>, certType: Guid)
    ensures !Carries([], digest, certType)
  {
  }

  /** Lookup in a variable that may not exist. */
  method CheckDbHash(variable: Variable, digest: seq<byte>, certType: Guid, ghost lists: seq<SigList>)
    returns (status: CheckStatus)
    requires variable.Stored? ==> variable.value == EncodeDb(lists) && AllSearchable(lists, |digest|, certType)
    ensures status == if variable.Absent? then VarNotFound
                      else if Carries(lists, digest, certType) then DataFound else DataNotFound
  {
    match variable {
      case Absent => return VarNotFound;
      case Stored(db) => status := CheckDbHashInRam(db, digest, certType, lists);
    }
  }

  datatype Variable = Absent | Stored(value: seq<byte>)

  /** Looking up in a database made of two is looking up in either. */
  lemma LookupDistributes(a: seq<SigList>, b: seq<SigList>, digest: seq<byte>, certType: Guid)
    requires AllSearchable(a, |digest|, certType) && AllSearchable(b, |digest|, certType)
    ensures EncodeDb(a + b) == EncodeDb(a) + EncodeDb(b)
    ensures AllSearchable(a + b, |digest|, certType)
    ensures Carries(a + b, digest, certType) <==> Carries(a, digest, certType) || Carries(b, digest, certType)
  {
    EncodeDbConcat(a, b);
    CarriesConcat(a, b, digest, certType);
  }

  // ---- Certificates ----

  /** The signature check, of the image's signature against the certificate bytes it is handed. */
  type Verifier = seq<byte> -> bool

  predicate CertSearchable(ls: seq<SigList>) {
    AllValid(ls) && forall l | l in ls && l.sigType == CERT_X509_GUID :: l.sigSize > LIST_HEADER_SIZE
  }

  /** The walk hands over SignatureSize bytes from the certificate on: the certificate and the 16 bytes behind it,
      which belong to the next entry or list, or lie behind the database. */
  function Handed(mem: seq<byte>, cert: nat, sigSize: nat): seq<byte>
    requires cert + GUID_SIZE + sigSize <= |mem|
  {
    mem[cert + GUID_SIZE..cert + GUID_SIZE + sigSize]
  }

  /** What follows this entry's certificate in the bytes handed over does not change the verifier's answer. */
  ghost predicate EntryIgnoresTail(verify: Verifier, accepts: Verifier, e: Entry) {
    forall tail: seq<byte> | |tail| == GUID_SIZE :: verify(e.data + tail) == accepts(e.data)
  }

  ghost predicate ListIgnoresTail(verify: Verifier, accepts: Verifier, l: SigList) {
    forall e | e in l.entries :: EntryIgnoresTail(verify, accepts, e)
  }

  /** So it is for every certificate of the database. */
  ghost predicate IgnoresTail(verify: Verifier, accepts: Verifier, ls: seq<SigList>) {
    forall l | l in ls && l.sigType == CERT_X509_GUID :: ListIgnoresTail(verify, accepts, l)
  }

  /** A verifier that knows certificates by how they begin, and takes no notice of what follows, is of that kind. */
  lemma PrefixVerifierIgnoresTail(known: set<seq<byte>>, ls: seq<SigList>)
    requires forall l, e | l in ls && l.sigType == CERT_X509_GUID && e in l.entries ::
      forall c | c in known :: |c| <= |e.data|
    ensures var verify := (s: seq<byte>) => exists c | c in known :: c <= s;
      IgnoresTail(verify, verify, ls)
  {
    var verify := (s: seq<byte>) => exists c | c in known :: c <= s;
    forall l, e, tail: seq<byte> | l in ls && l.sigType == CERT_X509_GUID && e in l.entries
      ensures verify(e.data + tail) == verify(e.data)
    {
      forall c | c in known
        ensures c <= e.data + tail <==> c <= e.data
      {
        assert (e.data + tail)[..|c|] == e.data[..|c|];
      }
    }
    forall l | l in ls && l.sigType == CERT_X509_GUID
      ensures ListIgnoresTail(verify, verify, l)
    {
    }
  }

  ghost predicate CertAccepted(ls: seq<SigList>, accepts: Verifier) {
    exists l | l in ls :: l.sigType == CERT_X509_GUID && ListAccepted(l, accepts)
  }

  ghost predicate ListAccepted(l: SigList, accepts: Verifier) {
    exists e | e in l.entries :: accepts(e.data)
  }

  lemma CertAcceptedConcat(a: seq<SigList>, b: seq<SigList>, accepts: Verifier)
    ensures CertAccepted(a + b, accepts) <==> CertAccepted(a, accepts) || CertAccepted(b, accepts)
  {
    if l :| l in a && l.sigType == CERT_X509_GUID && ListAccepted(l, accepts) {
      assert l in a + b;
    }
    if l :| l in b && l.sigType == CERT_X509_GUID && ListAccepted(l, accepts) {
      assert l in a + b;
    }
  }

  lemma CertAcceptedCons(ls: seq<SigList>, accepts: Verifier)
    requires ls != []
    ensures CertAccepted(ls, accepts)
       <==> (ls[0].sigType == CERT_X509_GUID && ListAccepted(ls[0], accepts)) || CertAccepted(ls[1..], accepts)
  {
    assert ls == [ls[0]] + ls[1..];
    CertAcceptedConcat([ls[0]], ls[1..], accepts);
    assert CertAccepted([ls[0]], accepts) <==> ls[0].sigType == CERT_X509_GUID && ListAccepted(ls[0], accepts) by {
      assert ls[0] in [ls[0]];
    }
  }

  lemma HandedVerdict(mem: seq<byte>, cert: nat, sigSize: nat, e: Entry, verify: Verifier, accepts: Verifier)
    requires EntryIgnoresTail(verify, accepts, e)
    requires GUID_SIZE <= sigSize && cert + GUID_SIZE + sigSize <= |mem|
    requires mem[cert + GUID_SIZE..cert + sigSize] == e.data
    ensures verify(Handed(mem, cert, sigSize)) == accepts(e.data)
  {
    var tail := mem[cert + sigSize..cert + sigSize + GUID_SIZE];
    assert Handed(mem, cert, sigSize) == e.data + tail;
  }

  method SearchCerts(mem: seq<byte>, ghost db: seq<byte>, cert: nat, certCount: nat, sigSize: nat,
                     verify: Verifier, ghost accepts: Verifier, ghost pos: nat, ghost ls: seq<SigList>)
    returns (found: bool)
    requires |db| + GUID_SIZE <= |mem| && mem[..|db|] == db
    requires StandsAt(db, pos, ls) && ls != [] && ListIgnoresTail(verify, accepts, ls[0])
    requires cert == pos + LIST_HEADER_SIZE + |ls[0].header|
    requires certCount == |ls[0].entries| && sigSize == ls[0].sigSize
    ensures found <==> ListAccepted(ls[0], accepts)
  {
    hide StandsAt, EncodeDb, ListSize, EntryIgnoresTail;
    ghost var es := ls[0].entries;
    var at := cert;
    var index := 0;
    ghost var offset := 0;
    found := false;
    while index < certCount
      invariant 0 <= index <= certCount && !found
      invariant offset == index * sigSize && at == cert + offset
      invariant forall j | 0 <= j < index :: !accepts(es[j].data)
    {
      DataAt(db, pos, ls, index, offset);
      assert mem[at + GUID_SIZE..at + sigSize] == es[index].data by {
        SliceOfSlice(mem, 0, |db|, at + GUID_SIZE, at + sigSize);
        assert mem[0..|db|] == db;
      }
      assert es[index] in es;
      HandedVerdict(mem, at, sigSize, es[index], verify, accepts);
      found := verify(Handed(mem, at, sigSize));
      if found {
        return;
      }
      Distribute(index, sigSize);
      at := at + sigSize;
      offset := offset + sigSize;
      index := index + 1;
    }
  }

  /** mem is the memory in which the database of dbsize bytes lies; 16 bytes behind it are readable. */
  method CheckDbCertInRam(mem: seq<byte>, size: nat, verify: Verifier,
                          ghost accepts: Verifier, ghost lists: seq<SigList>)
    returns (status: CheckStatus)
    requires size + GUID_SIZE <= |mem| && mem[..size] == EncodeDb(lists) && CertSearchable(lists)
    requires IgnoresTail(verify, accepts, lists)
    ensures status == if CertAccepted(lists, accepts) then DataFound else DataNotFound
  {
    hide StandsAt, EncodeDb, EncodeEntries, Encode, ListSize, CertAccepted, ListAccepted, Read32, ListIgnoresTail,
         CountField;
    var db := mem[..size];
    var pos, dbsize := 0, size;
    ghost var rest := lists;
    assert StandsAt(db, 0, lists) by {
      StandsAtStart(db, lists);
    }
    Standing(db, 0, lists);
    while dbsize > 0 && dbsize >= Read32(db, pos + 16)
      invariant pos + dbsize == |db|
      invariant StandsAt(db, pos, rest) && CertSearchable(rest) && IgnoresTail(verify, accepts, rest)
      invariant dbsize > 0 <==> rest != []
      invariant dbsize > 0 ==> pos + LIST_HEADER_SIZE <= |db| && dbsize >= Read32(db, pos + 16)
      invariant CertAccepted(lists, accepts) <==> CertAccepted(rest, accepts)
      decreases dbsize
    {
      HeaderAt(db, pos, rest);
      CertAcceptedCons(rest, accepts);
      assert rest[0] in rest;
      var listSize := Read32(db, pos + 16);
      if db[pos..pos + GUID_SIZE] == CERT_X509_GUID {
        CountHere(db, pos, rest);
        var headerSize, sigSize := Read32(db, pos + 20), Read32(db, pos + 24);
        var certCount := CountField(db, pos);
        var cert := pos + LIST_HEADER_SIZE + headerSize;
        var found := SearchCerts(mem, db, cert, certCount, sigSize, verify, accepts, pos, rest);
        if found {
          return DataFound;
        }
      }
      dbsize := dbsize - listSize;
      pos := pos + listSize;
      assert forall l | l in rest[1..] :: l in rest;
      rest := rest[1..];
      Standing(db, pos, rest);
    }
    NoCertAccepted(accepts);
    return DataNotFound;
  }

  lemma StandsAtStart(db: seq<byte>, lists: seq<SigList>)
    requires db == EncodeDb(lists) && AllValid(lists)
    ensures StandsAt(db, 0, lists)
  {
    assert db[0..] == db;
  }

  lemma NoCertAccepted(accepts: Verifier)
    ensures !CertAccepted([], accepts)
  {
  }
}
