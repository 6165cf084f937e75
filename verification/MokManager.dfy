/** MokManager's side of the databases: building a list for a hash or certificate, counting and describing the lists
    of a request, and storing them. */
module MokManager {
  import opened Bytes
  import opened SignatureList
  import opened ShimLookup

  const HASH_SIGNATURE_SIZE := 48
  const SIGNATURE_DATA_SIZE := 17

  // ---- Building a list ----

  /** The one-entry list that holds a payload on the loader's behalf. */
  function OneEntryList(sigType: Guid, payload: seq<byte>): SigList {
    SigList(sigType, [], GUID_SIZE + |payload|, [Entry(SHIM_LOCK_GUID, payload)])
  }

  lemma OneEntryListValid(sigType: Guid, payload: seq<byte>)
    requires |sigType| == GUID_SIZE && |payload| + LIST_HEADER_SIZE + GUID_SIZE < TWO32
    ensures Valid(OneEntryList(sigType, payload))
    ensures ListSize(OneEntryList(sigType, payload)) == LIST_HEADER_SIZE + GUID_SIZE + |payload|
  {
    var l := OneEntryList(sigType, payload);
    assert |l.entries| * l.sigSize == l.sigSize;
    assert forall e | e in l.entries :: e == Entry(SHIM_LOCK_GUID, payload);
  }

  /** The parts of the encoding, in order. */
  lemma OneEntryListBytes(sigType: Guid, payload: seq<byte>, size: seq<byte>, none: seq<byte>, sigSize: seq<byte>)
    requires |sigType| == GUID_SIZE && |payload| + LIST_HEADER_SIZE + GUID_SIZE < TWO32
    requires size == ToLE(LIST_HEADER_SIZE + GUID_SIZE + |payload|, 4)
    requires none == ToLE(0, 4) && sigSize == ToLE(GUID_SIZE + |payload|, 4)
    ensures Encode(OneEntryList(sigType, payload)) == sigType + size + none + sigSize + SHIM_LOCK_GUID + payload
  {
    hide Encode, ToLE, ListSize, OneEntryList, SHIM_LOCK_GUID;
    OneEntryListValid(sigType, payload);
    OneEntryListFields(sigType, payload);
    OneEntryBytes(OneEntryList(sigType, payload), SHIM_LOCK_GUID, payload, size, none, sigSize);
  }

  lemma OneEntryListFields(sigType: Guid, payload: seq<byte>)
    ensures var l := OneEntryList(sigType, payload);
      && l.sigType == sigType && l.header == [] && l.sigSize == GUID_SIZE + |payload|
      && l.entries == [Entry(SHIM_LOCK_GUID, payload)]
  {
  }

  lemma OneEntryBytes(l: SigList, owner: Guid, payload: seq<byte>, size: seq<byte>, none: seq<byte>, sigSize: seq<byte>)
    requires l.header == [] && l.entries == [Entry(owner, payload)]
    requires size == ToLE(ListSize(l), 4) && none == ToLE(0, 4) && sigSize == ToLE(l.sigSize, 4)
    ensures Encode(l) == l.sigType + size + none + sigSize + owner + payload
  {
    hide ToLE, ListSize;
    assert l.entries[1..] == [];
    assert EncodeEntries(l.entries) == owner + payload;
    var head := l.sigType + size + none + sigSize;
    assert head + l.header == head;
    assert head + (owner + payload) == head + owner + payload;
  }

  lemma SixParts(b: seq<byte>, t0: seq<byte>, t1: seq<byte>, t2: seq<byte>, t3: seq<byte>, t4: seq<byte>, t5: seq<byte>)
    requires |t0| == 16 && |t1| == |t2| == |t3| == 4 && |t4| == 16 && |b| == 44 + |t5|
    requires b[0..16] == t0 && b[16..20] == t1 && b[20..24] == t2 && b[24..28] == t3 && b[28..44] == t4 && b[44..] == t5
    ensures b == t0 + t1 + t2 + t3 + t4 + t5
  {
    assert b == b[0..16] + b[16..20] + b[20..24] + b[24..28] + b[28..44] + b[44..];
  }

  /** Fills a freshly allocated buffer field by field, in the order of the callback. */
  method BuildList(sigType: Guid, payload: seq<byte>) returns (mokbuffer: array<byte>)
    requires |sigType| == GUID_SIZE && |payload| + LIST_HEADER_SIZE + GUID_SIZE < TWO32
    ensures fresh(mokbuffer) && mokbuffer[..] == Encode(OneEntryList(sigType, payload))
  {
    hide ToLE;
    var mokbuffersize := LIST_HEADER_SIZE + GUID_SIZE + |payload|;
    mokbuffer := new byte[mokbuffersize];
    var t1, t2, t3 := ToLE(mokbuffersize, 4), ToLE(0, 4), ToLE(GUID_SIZE + |payload|, 4);
    CopyMem(mokbuffer, 0, sigType);
    assert mokbuffer[..][0..16] == sigType;
    CopyMem(mokbuffer, 24, t3);
    assert mokbuffer[..][0..16] == sigType && mokbuffer[..][24..28] == t3;
    CopyMem(mokbuffer, 44, payload);
    assert mokbuffer[..][0..16] == sigType && mokbuffer[..][24..28] == t3 && mokbuffer[..][44..] == payload;
    CopyMem(mokbuffer, 16, t1);
    CopyMem(mokbuffer, 20, t2);
    assert mokbuffer[..][0..16] == sigType && mokbuffer[..][16..20] == t1 && mokbuffer[..][20..24] == t2;
    assert mokbuffer[..][24..28] == t3 && mokbuffer[..][44..] == payload;
    CopyMem(mokbuffer, 28, SHIM_LOCK_GUID);
    assert mokbuffer[..][0..16] == sigType && mokbuffer[..][16..20] == t1 && mokbuffer[..][20..24] == t2;
    assert mokbuffer[..][24..28] == t3 && mokbuffer[..][44..] == payload;
    assert mokbuffer[..][28..44] == SHIM_LOCK_GUID;
    SixParts(mokbuffer[..], sigType, t1, t2, t3, SHIM_LOCK_GUID, payload);
    OneEntryListBytes(sigType, payload, t1, t2, t3);
  }

  // ---- Counting and describing the lists of a request ----

  /** Certificates of any size, and SHA-256 hashes of the right size. */
  predicate Listable(l: SigList) {
    l.sigType == CERT_X509_GUID || (l.sigType == HASH_SHA256_GUID && l.sigSize == HASH_SIGNATURE_SIZE)
  }

  /** The filter of the counting loop ... */
  predicate CountAccepts(l: SigList) {
    && !(l.sigType != CERT_X509_GUID && l.sigType != HASH_SHA256_GUID)
    && !(l.sigType != CERT_X509_GUID && l.sigSize != HASH_SIGNATURE_SIZE)
  }

  /** ... and that of the loop which fills the array, written differently. */
  predicate BuildAccepts(l: SigList) {
    && !(l.sigType != CERT_X509_GUID && l.sigType != HASH_SHA256_GUID)
    && !(l.sigType == HASH_SHA256_GUID && l.sigSize != HASH_SIGNATURE_SIZE)
  }

  lemma FiltersAgree(l: SigList)
    ensures CountAccepts(l) <==> Listable(l)
    ensures BuildAccepts(l) <==> Listable(l)
    ensures Listable(l) <==> l.sigType == CERT_X509_GUID || (l.sigType == HASH_SHA256_GUID && l.sigSize == 16 + 32)
  {
    assert CERT_X509_GUID[0] != HASH_SHA256_GUID[0];
  }

  function ListableLists(ls: seq<SigList>): seq<SigList> {
    if ls == [] then []
    else (if Listable(ls[0]) then [ls[0]] else []) + ListableLists(ls[1..])
  }

  datatype MokListNode = MokListNode(mokSize: nat, mok: nat)

  /** The nodes for the lists encoded from pos on: signature size, and where the first signature's data lie. */
  function Nodes(ls: seq<SigList>, pos: nat): (r: seq<MokListNode>)
    ensures |r| == |ListableLists(ls)|
  {
    if ls == [] then []
    else
      (if Listable(ls[0])
       then [MokListNode(ls[0].sigSize, pos + LIST_HEADER_SIZE + |ls[0].header| + GUID_SIZE)]
       else [])
      + Nodes(ls[1..], pos + ListSize(ls[0]))
  }

  lemma NodesStep(done: seq<MokListNode>, ls: seq<SigList>, pos: nat)
    requires ls != []
    ensures var l, rest := ls[0], Nodes(ls[1..], pos + ListSize(ls[0]));
      var node := MokListNode(l.sigSize, pos + LIST_HEADER_SIZE + |l.header| + GUID_SIZE);
      && done + Nodes(ls, pos) == (if Listable(l) then done + [node] else done) + rest
      && |ListableLists(ls)| == |ListableLists(ls[1..])| + if Listable(l) then 1 else 0
  {
    hide Listable, ListSize, Nodes, ListableLists;
    var l, rest := ls[0], Nodes(ls[1..], pos + ListSize(ls[0]));
    NodesCons(ls, pos);
    Regroup(done, [MokListNode(l.sigSize, pos + LIST_HEADER_SIZE + |l.header| + GUID_SIZE)], rest);
  }

  lemma NodesCons(ls: seq<SigList>, pos: nat)
    requires ls != []
    ensures var l, rest := ls[0], Nodes(ls[1..], pos + ListSize(ls[0]));
      var node := MokListNode(l.sigSize, pos + LIST_HEADER_SIZE + |l.header| + GUID_SIZE);
      && Nodes(ls, pos) == (if Listable(l) then [node] + rest else rest)
      && |ListableLists(ls)| == |ListableLists(ls[1..])| + if Listable(l) then 1 else 0
  {
    hide Listable, ListSize;
    var rest := Nodes(ls[1..], pos + ListSize(ls[0]));
    assert [] + rest == rest;
  }

  lemma Regroup(a: seq<MokListNode>, b: seq<MokListNode>, c: seq<MokListNode>)
    ensures a + (b + c) == (a + b) + c
  {
  }

  /** Node i holds the signature size of the i-th listable list and leads to its first entry's data. */
  lemma {:induction false} NodeDescribesFirstEntry(db: seq<byte>, pos: nat, ls: seq<SigList>, i: nat)
    requires StandsAt(db, pos, ls) && i < |Nodes(ls, pos)|
    ensures var l, node := ListableLists(ls)[i], Nodes(ls, pos)[i];
      && node.mokSize == l.sigSize
      && (l.entries != [] ==>
           && GUID_SIZE <= l.sigSize
           && node.mok + (l.sigSize - GUID_SIZE) <= |db|
           && db[node.mok..node.mok + (l.sigSize - GUID_SIZE)] == l.entries[0].data)
    decreases |ls|
  {
    hide StandsAt, ListSize, EncodeDb;
    HeaderAt(db, pos, ls);
    if Listable(ls[0]) && i == 0 {
      if ls[0].entries != [] {
        DataAt(db, pos, ls, 0, 0);
      }
    } else {
      NodeDescribesFirstEntry(db, pos + ListSize(ls[0]), ls[1..], if Listable(ls[0]) then i - 1 else i);
    }
  }

  /** No database of this size holds 2^32 lists, so the 32-bit counter does not wrap. */
  lemma {:induction false} FewLists(db: seq<byte>, pos: nat, ls: seq<SigList>)
    requires StandsAt(db, pos, ls)
    ensures LIST_HEADER_SIZE * |ls| <= |db| - pos
    ensures |ListableLists(ls)| <= |ls|
    decreases |ls|
  {
    if ls != [] {
      HeaderAt(db, pos, ls);
      FewLists(db, pos + ListSize(ls[0]), ls[1..]);
    }
  }

  method CountLists(db: seq<byte>, ghost lists: seq<SigList>) returns (mokNum: nat)
    requires db == EncodeDb(lists) && AllValid(lists) && |db| < TWO32
    ensures mokNum == |ListableLists(lists)|
  {
    hide StandsAt, EncodeDb, EncodeEntries, Encode, ListSize, Read32, Nodes, ListableLists;
    mokNum := 0;
    var pos, dbsize := 0, |db|;
    ghost var rest := lists;
    StandsAtStart(db, lists);
    Standing(db, 0, lists);
    FewLists(db, 0, lists);
    while dbsize > 0 && dbsize >= Read32(db, pos + 16)
      invariant pos + dbsize == |db|
      invariant StandsAt(db, pos, rest)
      invariant dbsize > 0 <==> rest != []
      invariant dbsize > 0 ==> pos + LIST_HEADER_SIZE <= |db| && dbsize >= Read32(db, pos + 16)
      invariant |ListableLists(lists)| == mokNum + |ListableLists(rest)|
      decreases dbsize
    {
      HeaderAt(db, pos, rest);
      FiltersAgree(rest[0]);
      NodesStep([], rest, pos);
      var listSize, sigSize, sigType := Read32(db, pos + 16), Read32(db, pos + 24), db[pos..pos + GUID_SIZE];
      rest := rest[1..];
      Standing(db, pos + listSize, rest);
      if sigType != CERT_X509_GUID && sigType != HASH_SHA256_GUID {
        dbsize := dbsize - listSize;
        pos := pos + listSize;
        continue;
      }
      if sigType != CERT_X509_GUID && sigSize != HASH_SIGNATURE_SIZE {
        dbsize := dbsize - listSize;
        pos := pos + listSize;
        continue;
      }
      mokNum := (mokNum + 1) % TWO32;
      dbsize := dbsize - listSize;
      pos := pos + listSize;
    }
    NoNodes(pos);
  }

  /** num nodes are allocated; every index written is below num, and all of them are written. */
  method BuildMokList(num: nat, db: seq<byte>, ghost lists: seq<SigList>) returns (list: array<MokListNode>)
    requires db == EncodeDb(lists) && AllValid(lists)
    requires num == |ListableLists(lists)|
    ensures fresh(list) && list[..] == Nodes(lists, 0)
  {
    hide StandsAt, EncodeDb, EncodeEntries, Encode, ListSize, Read32, Nodes, ListableLists;
    list := new MokListNode[num](_ => MokListNode(0, 0));
    var pos, dbsize, count := 0, |db|, 0;
    ghost var rest := lists;
    StandsAtStart(db, lists);
    Standing(db, 0, lists);
    assert list[..0] == [];
    while dbsize > 0 && dbsize >= Read32(db, pos + 16)
      invariant pos + dbsize == |db|
      invariant StandsAt(db, pos, rest)
      invariant dbsize > 0 <==> rest != []
      invariant dbsize > 0 ==> pos + LIST_HEADER_SIZE <= |db| && dbsize >= Read32(db, pos + 16)
      invariant count + |ListableLists(rest)| == num == list.Length
      invariant Nodes(lists, 0) == list[..count] + Nodes(rest, pos)
      decreases dbsize
    {
      HeaderAt(db, pos, rest);
      FiltersAgree(rest[0]);
      NodesStep(list[..count], rest, pos);
      var listSize, sigSize, sigType := Read32(db, pos + 16), Read32(db, pos + 24), db[pos..pos + GUID_SIZE];
      var headerSize := Read32(db, pos + 20);
      ghost var accepted := BuildAccepts(rest[0]);
      rest := rest[1..];
      Standing(db, pos + listSize, rest);
      if sigType != CERT_X509_GUID && sigType != HASH_SHA256_GUID {
        dbsize := dbsize - listSize;
        pos := pos + listSize;
        continue;
      }
      if sigType == HASH_SHA256_GUID && sigSize != HASH_SIGNATURE_SIZE {
        dbsize := dbsize - listSize;
        pos := pos + listSize;
        continue;
      }
      assert accepted;
      ghost var written := list[..count];
      list[count] := MokListNode(sigSize, pos + LIST_HEADER_SIZE + headerSize + GUID_SIZE);
      assert list[..count + 1] == written + [list[count]];
      count := count + 1;
      dbsize := dbsize - listSize;
      pos := pos + listSize;
    }
    NoNodes(pos);
    assert list[..count] == list[..];
  }

  lemma NoNodes(pos: nat)
    ensures Nodes([], pos) == [] && ListableLists([]) == []
  {
  }

  /** Too short a request has no keys to show; otherwise count, allocate and fill. */
  method ListKeys(db: seq<byte>, ghost lists: seq<SigList>) returns (shown: bool, keys: seq<MokListNode>)
    requires db == EncodeDb(lists) && AllValid(lists) && |db| < TWO32
    ensures shown <==> |db| >= 28 + 17
    ensures keys == if shown then Nodes(lists, 0) else []
  {
    if |db| < LIST_HEADER_SIZE + SIGNATURE_DATA_SIZE {
      return false, [];
    }
    var mokNum := CountLists(db, lists);
    var list := BuildMokList(mokNum, db, lists);
    return true, list[..];
  }

  // ---- Storing ----

  /** The answer of GetVariable("MokAuth"). */
  datatype AuthRead = AuthRead(ok: bool, size: nat, hash: seq<byte>)

  /** What computing the hash of a typed password gives. */
  datatype Attempt = HashFailed | HashIs(hash: seq<byte>)

  datatype StoreStatus = Success | AuthUnreadable | PasswordHashFailed | AccessDenied | SetVariableFailed

  const MAX_ATTEMPTS := 3

  /** Whether a password is accepted within the allowed attempts; a failed hash computation ends the dialogue. */
  datatype Verdict = Accepted | HashError | Rejected

  function Dialogue(auth: AuthRead, attempts: nat -> Attempt, failCount: nat): Verdict
    requires failCount <= MAX_ATTEMPTS
    decreases MAX_ATTEMPTS - failCount
  {
    if failCount == MAX_ATTEMPTS then Rejected
    else if attempts(failCount).HashFailed? then HashError
    else if attempts(failCount).hash == auth.hash then Accepted
    else Dialogue(auth, attempts, failCount + 1)
  }

  /** A password is accepted exactly if one of the first three attempts has the stored hash and no hash computation
      failed before. */
  lemma {:induction false} DialogueAccepts(auth: AuthRead, attempts: nat -> Attempt, failCount: nat)
    requires failCount <= MAX_ATTEMPTS
    ensures Dialogue(auth, attempts, failCount) == Accepted
       <==> exists n | failCount <= n < 3 ::
              attempts(n) == HashIs(auth.hash) && forall k | failCount <= k < n :: attempts(k).HashIs?
    decreases MAX_ATTEMPTS - failCount
  {
    if failCount < MAX_ATTEMPTS {
      DialogueAccepts(auth, attempts, failCount + 1);
      if attempts(failCount).HashIs? && attempts(failCount) != HashIs(auth.hash) {
        assert forall n | failCount < n && attempts(n) == HashIs(auth.hash) ::
          (forall k | failCount <= k < n :: attempts(k).HashIs?)
          <==> forall k | failCount < k < n :: attempts(k).HashIs?;
      }
    }
  }

  predicate Authorised(authenticate: bool, auth: AuthRead, attempts: nat -> Attempt) {
    authenticate ==> auth.ok && auth.size == SHA256_DIGEST_SIZE && Dialogue(auth, attempts, 0).Accepted?
  }

  /** The password hash is unavailable although reading it reported success. */
  predicate AuthOfWrongSize(authenticate: bool, auth: AuthRead) {
    authenticate && auth.ok && auth.size != SHA256_DIGEST_SIZE
  }

  function Written(mokList: Variable, mokNew: seq<byte>): Variable {
    if mokNew == [] then Absent
    else match mokList
      case Absent => Stored(mokNew)
      case Stored(value) => Stored(value + mokNew)
  }

  class VariableStore {
    var mokList: Variable

    constructor (initial: Variable)
      ensures mokList == initial
    {
      mokList := initial;
    }

    /** setOk is the firmware's answer to SetVariable; a refused write changes nothing. */
    method StoreKeys(mokNew: seq<byte>, authenticate: bool, auth: AuthRead, attempts: nat -> Attempt, setOk: bool)
      returns (status: StoreStatus)
      modifies this
      ensures mokList ==
        if Authorised(authenticate, auth, attempts) && setOk then Written(old(mokList), mokNew) else old(mokList)
      ensures status == Success
         <==> (Authorised(authenticate, auth, attempts) && setOk) || AuthOfWrongSize(authenticate, auth)
      // What that means for the user: the list is written exactly if one of three passwords has the right hash and none
      // before it could not be hashed, and nothing changes without a right one.
      ensures authenticate && auth.ok && auth.size == 32 && setOk ==>
        (status == Success <==> exists n | 0 <= n < 3 ::
           attempts(n) == HashIs(auth.hash) && forall k | 0 <= k < n :: attempts(k).HashIs?)
      ensures authenticate && (forall n | 0 <= n < 3 :: attempts(n) != HashIs(auth.hash)) ==> mokList == old(mokList)
      ensures status == Success && !(authenticate && auth.size != 32) ==>
        mokList == if mokNew == [] then Absent
                   else Stored((if old(mokList).Absent? then [] else old(mokList).value) + mokNew)
      ensures status != Success ==> mokList == old(mokList)
    {
      DialogueAccepts(auth, attempts, 0);
      assert [] + mokNew == mokNew;
      if authenticate {
        if !auth.ok || auth.size != SHA256_DIGEST_SIZE {
          return if auth.ok then Success else AuthUnreadable;
        }
        var failCount := 0;
        while failCount < MAX_ATTEMPTS
          invariant 0 <= failCount <= MAX_ATTEMPTS
          invariant Dialogue(auth, attempts, failCount) == Dialogue(auth, attempts, 0)
        {
          var attempt := attempts(failCount);
          if attempt.HashFailed? {
            return PasswordHashFailed;
          }
          if attempt.hash != auth.hash {
            failCount := failCount + 1;
          } else {
            break;
          }
        }
        if failCount >= MAX_ATTEMPTS {
          return AccessDenied;
        }
      }
      if !setOk {
        return SetVariableFailed;
      }
      if mokNew == [] {
        mokList := Absent;
      } else {
        mokList := if mokList.Absent? then Stored(mokNew) else Stored(mokList.value + mokNew);
      }
      return Success;
    }
  }

  // ---- Enrol, then find ----

  function ListsOf(v: Variable, lists: seq<SigList>): seq<SigList> {
    if v.Absent? then [] else lists
  }

  ghost predicate Holds(v: Variable, lists: seq<SigList>) {
    v.Stored? ==> v.value == EncodeDb(lists)
  }

  lemma EncodeOne(l: SigList)
    ensures EncodeDb([l]) == Encode(l)
  {
    assert [l][1..] == [];
    assert Encode(l) + [] == Encode(l);
  }

  /** After the list for a digest has been stored, the loader finds that digest, and every other answer is as before. */
  lemma EnrolThenFind(v: Variable, lists: seq<SigList>, digest: seq<byte>, probe: seq<byte>, certType: Guid)
    requires Holds(v, lists) && AllSearchable(ListsOf(v, lists), |probe|, certType)
    requires |digest| == |probe| == SHA256_DIGEST_SIZE
    ensures var l := OneEntryList(HASH_SHA256_GUID, digest);
      var before, after := ListsOf(v, lists), ListsOf(v, lists) + [l];
      && Written(v, Encode(l)) == Stored(EncodeDb(after))
      && AllSearchable(after, |probe|, certType)
      && (Carries(after, probe, certType)
          <==> Carries(before, probe, certType) || (certType == HASH_SHA256_GUID && probe == digest))
  {
    var l := OneEntryList(HASH_SHA256_GUID, digest);
    OneEntryListValid(HASH_SHA256_GUID, digest);
    EncodeLength(l);
    EncodeOne(l);
    assert AllSearchable([l], |probe|, certType) by {
      assert forall x | x in [l] :: x == l;
    }
    LookupDistributes(ListsOf(v, lists), [l], probe, certType);
    NewListCarries(digest, probe);
    CarriesCons([l], probe, certType);
    NothingCarried(probe, certType);
    assert v.Absent? ==> EncodeDb([]) + Encode(l) == Encode(l);
  }

  /** What a lookup in MokList answers, given what the lists in it are. */
  function Answer(v: Variable, lists: seq<SigList>, probe: seq<byte>, certType: Guid): CheckStatus {
    if v.Absent? then VarNotFound else if Carries(lists, probe, certType) then DataFound else DataNotFound
  }

  /** The hash that the callback was given is found by the next lookup if the firmware stores it, and every other
      answer stays as it was. */
  method EnrolThenLookUp(store: VariableStore, digest: seq<byte>, setOk: bool, probe: seq<byte>, certType: Guid,
                         ghost lists: seq<SigList>)
    returns (status: CheckStatus)
    requires Holds(store.mokList, lists) && AllSearchable(ListsOf(store.mokList, lists), |probe|, certType)
    requires |digest| == |probe| == SHA256_DIGEST_SIZE
    modifies store
    ensures status == DataFound
      <==> Answer(old(store.mokList), lists, probe, certType) == DataFound
           || (setOk && certType == HASH_SHA256_GUID && probe == digest)
  {
    hide EncodeDb, Encode, Carries, AllSearchable, OneEntryList;
    ghost var l := OneEntryList(HASH_SHA256_GUID, digest);
    ghost var before := ListsOf(store.mokList, lists);
    EnrolThenFind(store.mokList, lists, digest, probe, certType);
    NothingCarried(probe, certType);
    NotEmpty(HASH_SHA256_GUID, digest);
    var mokbuffer := BuildList(HASH_SHA256_GUID, digest);
    var stored := store.StoreKeys(mokbuffer[..], false, AuthRead(false, 0, []), _ => HashFailed, setOk);
    status := CheckDbHash(store.mokList, probe, certType, if setOk then before + [l] else before);
  }

  lemma NotEmpty(sigType: Guid, payload: seq<byte>)
    requires |sigType| == GUID_SIZE && |payload| + LIST_HEADER_SIZE + GUID_SIZE < TWO32
    ensures Encode(OneEntryList(sigType, payload)) != []
  {
    OneEntryListValid(sigType, payload);
    EncodeLength(OneEntryList(sigType, payload));
  }

  /** After a request of size zero has been stored, there is no MokList to look anything up in. */
  method EraseThenLookUp(store: VariableStore, authenticate: bool, auth: AuthRead, attempts: nat -> Attempt,
                         setOk: bool, probe: seq<byte>, certType: Guid, ghost lists: seq<SigList>)
    returns (status: CheckStatus)
    requires Holds(store.mokList, lists) && AllSearchable(ListsOf(store.mokList, lists), |probe|, certType)
    modifies store
    ensures status == if Authorised(authenticate, auth, attempts) && setOk then VarNotFound
                      else Answer(old(store.mokList), lists, probe, certType)
  {
    hide EncodeDb, Carries, AllSearchable;
    var stored := store.StoreKeys([], authenticate, auth, attempts, setOk);
    status := CheckDbHash(store.mokList, probe, certType, lists);
  }

  lemma NewListCarries(digest: seq<byte>, probe: seq<byte>)
    requires |digest| == |probe|
    ensures ListCarries(OneEntryList(HASH_SHA256_GUID, digest), probe) <==> probe == digest
  {
    ListCarriesFront(HASH_SHA256_GUID, digest, probe);
    assert digest[..|probe|] == digest;
  }

  /** A list carries every digest that its entry begins with, whatever follows, and no other. */
  lemma ListCarriesFront(sigType: Guid, payload: seq<byte>, probe: seq<byte>)
    ensures ListCarries(OneEntryList(sigType, payload), probe)
       <==> |probe| <= |payload| && payload[..|probe|] == probe
  {
    var l := OneEntryList(sigType, payload);
    assert l.entries == [Entry(SHIM_LOCK_GUID, payload)];
    assert l.entries[0] in l.entries;
  }
}
