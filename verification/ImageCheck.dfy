/** The loader's signature check of a file: from its bytes and the databases to the answer whether it may run. */
module ImageCheck {
  import opened Bytes
  import opened PeImage
  import PeHash
  import Relocation
  import ShimLookup
  import ShimPolicy
  import SignatureList

  const WIN_CERTIFICATE_SIZE := 8
  const WIN_CERTIFICATE_TYPE := 6
  const WIN_CERT_TYPE_PKCS_SIGNED_DATA := 2

  /** The signature check: of a signature against a certificate, for a hash. */
  type Authenticode = (seq<byte>, seq<byte>, seq<byte>) -> bool

  /** The cryptography, which is not modelled, and the certificates built into the loader. */
  datatype Crypto = Crypto(sha256: seq<byte> -> seq<byte>, sha1: seq<byte> -> seq<byte>, authenticode: Authenticode,
                           shimCert: seq<byte>, vendorCert: seq<byte>)

  /** The databases, and what the firmware says about MokList: whether it is accessible at run time, and whether it can
      be deleted. */
  datatype Firmware = Firmware(store: ShimPolicy.Store, runtimeAccess: bool, deleteOk: bool)

  ghost predicate DigestSizes(k: Crypto) {
    forall s: seq<byte> ::
      |k.sha256(s)| == SignatureList.SHA256_DIGEST_SIZE && |k.sha1(s)| == ShimPolicy.SHA1_DIGEST_SIZE
  }

  // ---- The signature in the file ----

  predicate CertInFile(data: seq<byte>, c: Context) {
    c.secVA + WIN_CERTIFICATE_SIZE <= |data|
  }

  function CertLength(data: seq<byte>, c: Context): nat
    requires CertInFile(data, c)
  {
    Number(data, c.secVA, 4)
  }

  function CertType(data: seq<byte>, c: Context): nat
    requires CertInFile(data, c)
  {
    Number(data, c.secVA + WIN_CERTIFICATE_TYPE, 2)
  }

  /** There is a signature, and it is of the one kind that is understood. */
  predicate Signed(data: seq<byte>, c: Context)
    requires c.secSize != 0 ==> CertInFile(data, c)
  {
    && c.secSize != 0
    && Relocation.ImageAddress(|data|, c.secVA).At?
    && CertType(data, c) == WIN_CERT_TYPE_PKCS_SIGNED_DATA
  }

  /** The length in the certificate's header and that in the security directory both stay in the file. */
  predicate SignatureReadable(data: seq<byte>, c: Context) {
    && (c.secSize != 0 ==> CertInFile(data, c))
    && (Signed(data, c) ==>
         && WIN_CERTIFICATE_SIZE <= CertLength(data, c) && c.secVA + CertLength(data, c) <= |data|
         && WIN_CERTIFICATE_SIZE <= c.secSize && c.secVA + c.secSize <= |data|)
  }

  /** What is asked about the certificates of the databases: the signature ends where its own header says. */
  function ListVerifier(data: seq<byte>, c: Context, k: Crypto, hash: seq<byte>): ShimLookup.Verifier
    requires SignatureReadable(data, c) && Signed(data, c)
  {
    var signature := data[c.secVA + WIN_CERTIFICATE_SIZE..c.secVA + CertLength(data, c)];
    cert => k.authenticode(signature, cert, hash)
  }

  /** For the built-in certificates it ends where the security directory says. */
  predicate SignedByBuiltIn(data: seq<byte>, c: Context, k: Crypto, hash: seq<byte>)
    requires SignatureReadable(data, c) && Signed(data, c)
  {
    var signature := data[c.secVA + WIN_CERTIFICATE_SIZE..c.secVA + c.secSize];
    k.authenticode(signature, k.shimCert, hash) || k.authenticode(signature, k.vendorCert, hash)
  }

  /** Whether a certificate alone is accepted: the answer with some bytes behind it. */
  function Accepts(verify: ShimLookup.Verifier): ShimLookup.Verifier {
    cert => verify(cert + Zeros(SignatureList.GUID_SIZE))
  }

  /** A certificate written field by field: its length, a revision, its type, and the signature. Against the
      certificates of the databases the signature is taken to be as long as the certificate says, and against the
      built-in ones as long as the security directory says. */
  lemma CertificateFields(data: seq<byte>, c: Context, k: Crypto, hash: seq<byte>, length: nat, revision: seq<byte>,
                          certType: nat, payload: seq<byte>, cert: seq<byte>)
    requires SignatureReadable(data, c) && c.secSize != 0 && |revision| == 2
    requires length < TWO32 && certType < TWO16
    requires data[c.secVA..] == ToLE(length, 4) + revision + ToLE(certType, 2) + payload
    ensures CertLength(data, c) == length && CertType(data, c) == certType
    ensures Signed(data, c) <==> certType == 2
    ensures certType == 2 ==>
      && 8 <= length && length - 8 <= |payload| && 8 <= c.secSize && c.secSize - 8 <= |payload|
      && ListVerifier(data, c, k, hash)(cert) == k.authenticode(payload[..length - 8], cert, hash)
      && SignedByBuiltIn(data, c, k, hash)
         == (k.authenticode(payload[..c.secSize - 8], k.shimCert, hash)
             || k.authenticode(payload[..c.secSize - 8], k.vendorCert, hash))
  {
    hide ToLE, Number, SignedByBuiltIn, ListVerifier;
    CertificateNumbers(data, c.secVA, length, revision, certType, payload);
    if Signed(data, c) {
      SignatureParts(data, c, k, hash, payload, cert);
    }
  }

  lemma CertificateNumbers(data: seq<byte>, at: nat, length: nat, revision: seq<byte>, certType: nat,
                           payload: seq<byte>)
    requires |revision| == 2 && length < TWO32 && certType < TWO16 && at <= |data|
    requires data[at..] == ToLE(length, 4) + revision + ToLE(certType, 2) + payload
    ensures at + 8 <= |data| && Number(data, at, 4) == length && Number(data, at + 6, 2) == certType
    ensures data[at + 8..] == payload
  {
    hide ToLE, FromLE;
    CertificateParts(data, at, ToLE(length, 4), revision, ToLE(certType, 2), payload);
    FromToLE(length, 4);
    FromToLE(certType, 2);
    WordSizes();
  }

  lemma SignatureParts(data: seq<byte>, c: Context, k: Crypto, hash: seq<byte>, payload: seq<byte>, cert: seq<byte>)
    requires SignatureReadable(data, c) && Signed(data, c) && data[c.secVA + 8..] == payload
    ensures var length := CertLength(data, c);
      && 8 <= length && length - 8 <= |payload| && 8 <= c.secSize && c.secSize - 8 <= |payload|
      && ListVerifier(data, c, k, hash)(cert) == k.authenticode(payload[..length - 8], cert, hash)
      && SignedByBuiltIn(data, c, k, hash)
         == (k.authenticode(payload[..c.secSize - 8], k.shimCert, hash)
             || k.authenticode(payload[..c.secSize - 8], k.vendorCert, hash))
  {
    hide Number;
    PayloadPart(data, c.secVA, payload, CertLength(data, c));
    PayloadPart(data, c.secVA, payload, c.secSize);
  }

  lemma CertificateParts(data: seq<byte>, at: nat, length: seq<byte>, revision: seq<byte>, certType: seq<byte>,
                         payload: seq<byte>)
    requires |length| == 4 && |revision| == |certType| == 2 && at <= |data|
    requires data[at..] == length + revision + certType + payload
    ensures at + 8 <= |data| && data[at..at + 4] == length && data[at + 6..at + 8] == certType
    ensures data[at + 8..] == payload
  {
    var tail := data[at..];
    assert tail[0..4] == length && tail[6..8] == certType && tail[8..] == payload;
    assert data[at..at + 4] == tail[0..4] && data[at + 6..at + 8] == tail[6..8] && data[at + 8..] == tail[8..];
  }

  lemma PayloadPart(data: seq<byte>, at: nat, payload: seq<byte>, n: nat)
    requires at + 8 <= |data| && data[at + 8..] == payload && 8 <= n && at + n <= |data|
    ensures n - 8 <= |payload| && data[at + 8..at + n] == payload[..n - 8]
  {
  }

  // ---- The answer ----

  predicate TableInFile(data: seq<byte>, c: Context) {
    c.firstSection + c.numberOfSections * SECTION_HEADER_SIZE <= |data|
  }

  function Sections(data: seq<byte>, c: Context): seq<Section>
    requires TableInFile(data, c)
  {
    SectionTable(data, c.firstSection, c.numberOfSections)
  }

  /** All that the check reads lies in the file. */
  predicate Readable(data: seq<byte>, c: Context) {
    && TableInFile(data, c)
    && PeHash.Readable(data, c, Sections(data, c))
    && SignatureReadable(data, c)
  }

  predicate Hashable(data: seq<byte>, c: Context)
    requires Readable(data, c)
  {
    PeHash.Accepted(data, Sections(data, c))
  }

  function Hashes(data: seq<byte>, c: Context, k: Crypto): ShimPolicy.Image
    requires Readable(data, c) && Hashable(data, c)
  {
    var input := PeHash.HashInput(data, c, Sections(data, c));
    ShimPolicy.Image(k.sha256(input), k.sha1(input))
  }

  /** The databases hold what d says, and the bytes behind a certificate in them do not matter to the verifier. */
  ghost predicate Sound(data: seq<byte>, c: Context, k: Crypto, fw: Firmware, d: ShimPolicy.Databases) {
    && Readable(data, c) && DigestSizes(k) && ShimPolicy.Describes(d, fw.store)
    && (Signed(data, c) && Hashable(data, c) ==>
         var verify := ListVerifier(data, c, k, Hashes(data, c, k).sha256);
         ShimPolicy.VerifierFits(verify, Accepts(verify), d))
  }

  /** The file is signed, it can be hashed, and the databases as they are seen let an image with its hashes run. */
  ghost predicate Trusted(data: seq<byte>, c: Context, k: Crypto, fw: Firmware, d: ShimPolicy.Databases)
    requires Readable(data, c)
  {
    && Signed(data, c) && Hashable(data, c)
    && var image := Hashes(data, c, k);
       ShimPolicy.MayRun(ShimPolicy.SeenDatabases(d, fw.runtimeAccess, fw.deleteOk), image,
                         Accepts(ListVerifier(data, c, k, image.sha256)), SignedByBuiltIn(data, c, k, image.sha256))
  }

  method VerifyBuffer(data: seq<byte>, c: Context, k: Crypto, fw: Firmware, ghost d: ShimPolicy.Databases)
    returns (allowed: bool)
    requires Sound(data, c, k, fw, d)
    ensures allowed <==> Trusted(data, c, k, fw, d)
  {
    hide PeHash.Readable, PeHash.Accepted, PeHash.HashInput, ShimPolicy.MayRun, ShimPolicy.VerifierFits,
         ShimPolicy.Describes, SignedByBuiltIn;
    if c.secSize == 0 {
      return false;
    }
    if Relocation.ImageAddress(|data|, c.secVA).Null? {
      return false;
    }
    if CertType(data, c) != WIN_CERT_TYPE_PKCS_SIGNED_DATA {
      return false;
    }
    var table := SectionTable(data, c.firstSection, c.numberOfSections);
    var digests := new PeHash.Digests();
    var status := PeHash.GenerateHash(data, c, table, digests);
    if status != PeHash.Hashed {
      return false;
    }
    var sha256, sha1 := k.sha256(digests.sha256), k.sha1(digests.sha1);
    var image := ShimPolicy.Image(sha256, sha1);
    var verify := ListVerifier(data, c, k, sha256);
    allowed := ShimPolicy.Decide(fw.store, image, verify, SignedByBuiltIn(data, c, k, sha256), fw.runtimeAccess,
                                 fw.deleteOk, d, Accepts(verify));
  }
}
