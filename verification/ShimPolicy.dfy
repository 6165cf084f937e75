/** The loader's decision whether an image may run, over all its databases. */
module ShimPolicy {
  import opened Bytes
  import opened SignatureList
  import opened ShimLookup
  import opened MokManager

  const SHA1_DIGEST_SIZE := 20

  /** The built-in list of forbidden images and the three variables, as bytes; slack is what lies behind a database. */
  datatype Store = Store(vendorDbx: seq<byte>, dbx: Variable, db: Variable, mokList: Variable, slack: seq<byte>)

  /** What the databases say. An absent variable says nothing. */
  datatype Databases = Databases(vendorDbx: seq<SigList>, dbx: seq<SigList>, db: seq<SigList>, mokList: seq<SigList>)

  datatype Image = Image(sha256: seq<byte>, sha1: seq<byte>)

  predicate WellFormed(ls: seq<SigList>) {
    && AllSearchable(ls, SHA256_DIGEST_SIZE, HASH_SHA256_GUID)
    && AllSearchable(ls, SHA1_DIGEST_SIZE, HASH_SHA1_GUID)
    && CertSearchable(ls)
  }

  ghost predicate Describes(d: Databases, s: Store) {
    && |s.slack| == GUID_SIZE
    && s.vendorDbx == EncodeDb(d.vendorDbx)
    && Holds(s.dbx, d.dbx) && Holds(s.db, d.db) && Holds(s.mokList, d.mokList)
    && (s.dbx.Absent? ==> d.dbx == []) && (s.db.Absent? ==> d.db == []) && (s.mokList.Absent? ==> d.mokList == [])
    && WellFormed(d.vendorDbx) && WellFormed(d.dbx) && WellFormed(d.db) && WellFormed(d.mokList)
  }

  /** The verifier's answers for the certificates in the databases do not depend on the bytes behind them. */
  ghost predicate VerifierFits(verify: Verifier, accepts: Verifier, d: Databases) {
    && IgnoresTail(verify, accepts, d.vendorDbx) && IgnoresTail(verify, accepts, d.dbx)
    && IgnoresTail(verify, accepts, d.db) && IgnoresTail(verify, accepts, d.mokList)
  }

  // ---- Meaning ----

  ghost predicate Forbids(ls: seq<SigList>, image: Image, accepts: Verifier) {
    || Carries(ls, image.sha256, HASH_SHA256_GUID)
    || Carries(ls, image.sha1, HASH_SHA1_GUID)
    || CertAccepted(ls, accepts)
  }

  ghost predicate Blacklisted(d: Databases, image: Image, accepts: Verifier) {
    Forbids(d.vendorDbx, image, accepts) || Forbids(d.dbx, image, accepts)
  }

  /** SHA-1 hashes count in db, but not in MokList. */
  ghost predicate Whitelisted(d: Databases, image: Image, accepts: Verifier) {
    || Carries(d.db, image.sha256, HASH_SHA256_GUID)
    || Carries(d.db, image.sha1, HASH_SHA1_GUID)
    || Carries(d.mokList, image.sha256, HASH_SHA256_GUID)
    || CertAccepted(d.db, accepts)
    || CertAccepted(d.mokList, accepts)
  }

  ghost predicate MayRun(d: Databases, image: Image, accepts: Verifier, builtIn: bool) {
    !Blacklisted(d, image, accepts) && (Whitelisted(d, image, accepts) || builtIn)
  }

  // ---- The checks ----

  method CheckDbCert(variable: Variable, slack: seq<byte>, verify: Verifier, ghost accepts: Verifier,
                     ghost lists: seq<SigList>)
    returns (status: CheckStatus)
    requires |slack| == GUID_SIZE
    requires variable.Stored? ==>
      variable.value == EncodeDb(lists) && CertSearchable(lists) && IgnoresTail(verify, accepts, lists)
    ensures status == if variable.Absent? then VarNotFound
                      else if CertAccepted(lists, accepts) then DataFound else DataNotFound
  {
    hide EncodeDb, CertAccepted, CertSearchable, IgnoresTail;
    match variable {
      case Absent => return VarNotFound;
      case Stored(db) =>
        var mem := db + slack;
        assert mem[..|db|] == db;
        status := CheckDbCertInRam(mem, |db|, verify, accepts, lists);
    }
  }

  lemma AbsentSaysNothing(image: Image, accepts: Verifier)
    ensures !Carries([], image.sha256, HASH_SHA256_GUID) && !Carries([], image.sha1, HASH_SHA1_GUID)
    ensures !CertAccepted([], accepts)
  {
  }

  method CheckBlacklist(s: Store, image: Image, verify: Verifier, ghost d: Databases, ghost accepts: Verifier)
    returns (denied: bool)
    requires Describes(d, s) && VerifierFits(verify, accepts, d)
    requires |image.sha256| == SHA256_DIGEST_SIZE && |image.sha1| == SHA1_DIGEST_SIZE
    ensures denied <==> Blacklisted(d, image, accepts)
  {
    hide EncodeDb, AllSearchable, CertSearchable, Carries, CertAccepted, IgnoresTail;
    AbsentSaysNothing(image, accepts);
    var r := CheckDbHashInRam(s.vendorDbx, image.sha256, HASH_SHA256_GUID, d.vendorDbx);
    if r == DataFound {
      return true;
    }
    r := CheckDbHashInRam(s.vendorDbx, image.sha1, HASH_SHA1_GUID, d.vendorDbx);
    if r == DataFound {
      return true;
    }
    r := CheckDbCert(Stored(s.vendorDbx), s.slack, verify, accepts, d.vendorDbx);
    if r == DataFound {
      return true;
    }
    r := CheckDbHash(s.dbx, image.sha256, HASH_SHA256_GUID, d.dbx);
    if r == DataFound {
      return true;
    }
    r := CheckDbHash(s.dbx, image.sha1, HASH_SHA1_GUID, d.dbx);
    if r == DataFound {
      return true;
    }
    r := CheckDbCert(s.dbx, s.slack, verify, accepts, d.dbx);
    return r == DataFound;
  }

  method CheckWhitelist(s: Store, image: Image, verify: Verifier, ghost d: Databases, ghost accepts: Verifier)
    returns (allowed: bool)
    requires Describes(d, s) && VerifierFits(verify, accepts, d)
    requires |image.sha256| == SHA256_DIGEST_SIZE && |image.sha1| == SHA1_DIGEST_SIZE
    ensures allowed <==> Whitelisted(d, image, accepts)
  {
    hide EncodeDb, AllSearchable, CertSearchable, Carries, CertAccepted, IgnoresTail;
    AbsentSaysNothing(image, accepts);
    var r := CheckDbHash(s.db, image.sha256, HASH_SHA256_GUID, d.db);
    if r == DataFound {
      return true;
    }
    r := CheckDbHash(s.db, image.sha1, HASH_SHA1_GUID, d.db);
    if r == DataFound {
      return true;
    }
    r := CheckDbHash(s.mokList, image.sha256, HASH_SHA256_GUID, d.mokList);
    if r == DataFound {
      return true;
    }
    r := CheckDbCert(s.db, s.slack, verify, accepts, d.db);
    if r == DataFound {
      return true;
    }
    r := CheckDbCert(s.mokList, s.slack, verify, accepts, d.mokList);
    return r == DataFound;
  }

  /** MokList as the lookups see it: erased if it is accessible at run time and the firmware lets it be erased. */
  function AfterVerifyMok(s: Store, runtimeAccess: bool, deleteOk: bool): Store {
    if runtimeAccess && deleteOk then s.(mokList := Absent) else s
  }

  function SeenDatabases(d: Databases, runtimeAccess: bool, deleteOk: bool): Databases {
    if runtimeAccess && deleteOk then d.(mokList := []) else d
  }

  /** The decision about an image with these hashes; builtIn says whether its signature is of one of the loader's own
      certificates. The outcome of the MokList check is ignored. */
  method Decide(s: Store, image: Image, verify: Verifier, builtIn: bool, runtimeAccess: bool, deleteOk: bool,
                ghost d: Databases, ghost accepts: Verifier)
    returns (allowed: bool)
    requires Describes(d, s) && VerifierFits(verify, accepts, d)
    requires |image.sha256| == SHA256_DIGEST_SIZE && |image.sha1| == SHA1_DIGEST_SIZE
    ensures allowed <==> MayRun(SeenDatabases(d, runtimeAccess, deleteOk), image, accepts, builtIn)
    // Entry by entry: each of six kinds of entries forbids, and if there is none of these, each of six reasons allows.
    ensures Carries(d.vendorDbx, image.sha256, HASH_SHA256_GUID) || Carries(d.dbx, image.sha256, HASH_SHA256_GUID)
         || Carries(d.vendorDbx, image.sha1, HASH_SHA1_GUID) || Carries(d.dbx, image.sha1, HASH_SHA1_GUID)
         || CertAccepted(d.vendorDbx, accepts) || CertAccepted(d.dbx, accepts)
      ==> !allowed
    ensures !Carries(d.vendorDbx, image.sha256, HASH_SHA256_GUID) && !Carries(d.dbx, image.sha256, HASH_SHA256_GUID)
         && !Carries(d.vendorDbx, image.sha1, HASH_SHA1_GUID) && !Carries(d.dbx, image.sha1, HASH_SHA1_GUID)
         && !CertAccepted(d.vendorDbx, accepts) && !CertAccepted(d.dbx, accepts)
      ==> (allowed <==>
             || Carries(d.db, image.sha256, HASH_SHA256_GUID) || Carries(d.db, image.sha1, HASH_SHA1_GUID)
             || CertAccepted(d.db, accepts) || builtIn
             || (!(runtimeAccess && deleteOk)
                 && (Carries(d.mokList, image.sha256, HASH_SHA256_GUID) || CertAccepted(d.mokList, accepts))))
  {
    SeenEntries(d, image, accepts, builtIn, runtimeAccess, deleteOk);
    hide Blacklisted, Whitelisted, WellFormed, EncodeDb, ListIgnoresTail;
    var seen := AfterVerifyMok(s, runtimeAccess, deleteOk);
    ghost var e := SeenDatabases(d, runtimeAccess, deleteOk);
    EmptyWellFormed();
    var denied := CheckBlacklist(seen, image, verify, e, accepts);
    if denied {
      return false;
    }
    var listed := CheckWhitelist(seen, image, verify, e, accepts);
    if listed {
      return true;
    }
    return builtIn;
  }

  /** What the databases as they are seen say, entry by entry. */
  lemma SeenEntries(d: Databases, image: Image, accepts: Verifier, builtIn: bool, runtimeAccess: bool, deleteOk: bool)
    ensures var e := SeenDatabases(d, runtimeAccess, deleteOk);
      && (Carries(d.vendorDbx, image.sha256, HASH_SHA256_GUID) ==> !MayRun(e, image, accepts, builtIn))
      && (Carries(d.vendorDbx, image.sha1, HASH_SHA1_GUID) ==> !MayRun(e, image, accepts, builtIn))
      && (CertAccepted(d.vendorDbx, accepts) ==> !MayRun(e, image, accepts, builtIn))
      && (Carries(d.dbx, image.sha256, HASH_SHA256_GUID) ==> !MayRun(e, image, accepts, builtIn))
      && (Carries(d.dbx, image.sha1, HASH_SHA1_GUID) ==> !MayRun(e, image, accepts, builtIn))
      && (CertAccepted(d.dbx, accepts) ==> !MayRun(e, image, accepts, builtIn))
    ensures NothingForbids(d, image, accepts) ==>
      (MayRun(SeenDatabases(d, runtimeAccess, deleteOk), image, accepts, builtIn) <==>
        || Carries(d.db, image.sha256, HASH_SHA256_GUID) || Carries(d.db, image.sha1, HASH_SHA1_GUID)
        || CertAccepted(d.db, accepts) || builtIn
        || (!(runtimeAccess && deleteOk)
            && (Carries(d.mokList, image.sha256, HASH_SHA256_GUID) || CertAccepted(d.mokList, accepts))))
  {
    hide Carries, CertAccepted;
    NothingCarried(image.sha256, HASH_SHA256_GUID);
    AbsentSaysNothing(image, accepts);
  }

  ghost predicate NothingForbids(d: Databases, image: Image, accepts: Verifier) {
    && !Carries(d.vendorDbx, image.sha256, HASH_SHA256_GUID) && !Carries(d.dbx, image.sha256, HASH_SHA256_GUID)
    && !Carries(d.vendorDbx, image.sha1, HASH_SHA1_GUID) && !Carries(d.dbx, image.sha1, HASH_SHA1_GUID)
    && !CertAccepted(d.vendorDbx, accepts) && !CertAccepted(d.dbx, accepts)
  }

  /** A SHA-1 hash in MokList alone lets no image run. */
  lemma Sha1InMokListIgnored(d: Databases, image: Image, accepts: Verifier)
    requires Carries(d.mokList, image.sha1, HASH_SHA1_GUID)
    requires !Carries(d.mokList, image.sha256, HASH_SHA256_GUID) && !CertAccepted(d.mokList, accepts)
    requires !Carries(d.db, image.sha256, HASH_SHA256_GUID) && !Carries(d.db, image.sha1, HASH_SHA1_GUID)
    requires !CertAccepted(d.db, accepts)
    ensures !MayRun(d, image, accepts, false)
  {
    hide Carries, CertAccepted;
  }

  lemma EmptyWellFormed()
    ensures WellFormed([])
  {
  }

  // ---- Consequences ----

  function Enrolled(d: Databases, digest: seq<byte>): Databases {
    d.(mokList := d.mokList + [OneEntryList(HASH_SHA256_GUID, digest)])
  }

  lemma HashListHasNoCert(digest: seq<byte>, accepts: Verifier)
    ensures !CertAccepted([OneEntryList(HASH_SHA256_GUID, digest)], accepts)
  {
    assert CERT_X509_GUID[0] != HASH_SHA256_GUID[0];
  }

  /** Enrolling an image's hash lets exactly that image run in addition, unless it is blacklisted. */
  lemma EnrolledImageRuns(d: Databases, digest: seq<byte>, image: Image, accepts: Verifier, builtIn: bool)
    requires |digest| == |image.sha256|
    ensures MayRun(Enrolled(d, digest), image, accepts, builtIn)
       <==> MayRun(d, image, accepts, builtIn) || (image.sha256 == digest && !Blacklisted(d, image, accepts))
  {
    var l := OneEntryList(HASH_SHA256_GUID, digest);
    hide Carries, CertAccepted;
    CarriesConcat(d.mokList, [l], image.sha256, HASH_SHA256_GUID);
    CarriesCons([l], image.sha256, HASH_SHA256_GUID);
    assert [l][1..] == [] && [l][0] == l;
    AbsentSaysNothing(image, accepts);
    NewListCarries(digest, image.sha256);
    CertAcceptedConcat(d.mokList, [l], accepts);
    HashListHasNoCert(digest, accepts);
  }

  /** Forbidding more never lets another image run, and trusting more never stops one. */
  lemma ListsAreMonotone(d: Databases, more: seq<SigList>, image: Image, accepts: Verifier, builtIn: bool)
    ensures MayRun(d.(dbx := d.dbx + more), image, accepts, builtIn) ==> MayRun(d, image, accepts, builtIn)
    ensures MayRun(d, image, accepts, builtIn) ==> MayRun(d.(db := d.db + more), image, accepts, builtIn)
    ensures MayRun(d, image, accepts, builtIn) ==> MayRun(d.(mokList := d.mokList + more), image, accepts, builtIn)
  {
    hide Carries, CertAccepted;
    CarriesConcat(d.dbx, more, image.sha256, HASH_SHA256_GUID);
    CarriesConcat(d.dbx, more, image.sha1, HASH_SHA1_GUID);
    CertAcceptedConcat(d.dbx, more, accepts);
    CarriesConcat(d.db, more, image.sha256, HASH_SHA256_GUID);
    CarriesConcat(d.db, more, image.sha1, HASH_SHA1_GUID);
    CertAcceptedConcat(d.db, more, accepts);
    CarriesConcat(d.mokList, more, image.sha256, HASH_SHA256_GUID);
    CertAcceptedConcat(d.mokList, more, accepts);
  }
}
