/** Device paths: nodes one behind the other in memory, up to an end node (section 9.3.1 of the UEFI Specification). */
module DevicePath {
  import opened Bytes

  const NODE_HEADER_SIZE := 4
  const TYPE_UNPACKED := 0x80
  const END_DEVICE_PATH_TYPE := 0x7F
  const END_ENTIRE_SUBTYPE: byte := 0xFF
  const END_INSTANCE_SUBTYPE: byte := 0x01
  const MAX_NODE_LENGTH := 0x1_0000
  const MAX_COUNT := 512

  datatype Node = Node(typ: byte, sub: byte, body: seq<byte>)

  function Length(n: Node): nat {
    NODE_HEADER_SIZE + |n.body|
  }

  /** The type without the flag that marks an unpacked node. */
  function MaskedType(typ: byte): nat {
    typ as nat % TYPE_UNPACKED
  }

  predicate IsEndType(n: Node) {
    MaskedType(n.typ) == END_DEVICE_PATH_TYPE
  }

  predicate IsEnd(n: Node) {
    IsEndType(n) && n.sub == END_ENTIRE_SUBTYPE
  }

  predicate ValidNode(n: Node) {
    Length(n) < MAX_NODE_LENGTH
  }

  predicate AllValid(ns: seq<Node>) {
    forall n | n in ns :: ValidNode(n)
  }

  /** A complete path: its last node, and no other, ends the entire path. */
  predicate Path(ns: seq<Node>) {
    && ns != [] && AllValid(ns)
    && IsEnd(ns[|ns| - 1])
    && forall i | 0 <= i < |ns| - 1 :: !IsEnd(ns[i])
  }

  /** The last node consists of a header only. */
  predicate BareEnd(ns: seq<Node>) {
    ns != [] && ns[|ns| - 1].body == []
  }

  function Encode(n: Node): (b: seq<byte>)
    ensures |b| == Length(n)
  {
    [n.typ, n.sub] + ToLE(Length(n), 2) + n.body
  }

  function EncodeAll(ns: seq<Node>): seq<byte> {
    if ns == [] then [] else Encode(ns[0]) + EncodeAll(ns[1..])
  }

  lemma {:induction false} EncodeAllConcat(a: seq<Node>, b: seq<Node>)
    ensures EncodeAll(a + b) == EncodeAll(a) + EncodeAll(b)
  {
    if a == [] {
      assert a + b == b;
    } else {
      assert (a + b)[1..] == a[1..] + b;
      EncodeAllConcat(a[1..], b);
    }
  }

  lemma EncodeOne(n: Node)
    ensures EncodeAll([n]) == Encode(n) && |Encode(n)| == Length(n)
  {
    assert [n][1..] == [];
  }

  // ---- Reading ----

  function NodeLength(mem: seq<byte>, at: nat): nat
    requires at + NODE_HEADER_SIZE <= |mem|
  {
    FromLE(mem[at + 2..at + 4])
  }

  /** From pos on the memory holds these nodes. */
  ghost predicate Stands(mem: seq<byte>, pos: nat, ns: seq<Node>) {
    && AllValid(ns)
    && pos + |EncodeAll(ns)| <= |mem|
    && mem[pos..pos + |EncodeAll(ns)|] == EncodeAll(ns)
  }

  lemma EncodeFields(n: Node)
    requires ValidNode(n)
    ensures var b := Encode(n);
      b[0] == n.typ && b[1] == n.sub && FromLE(b[2..4]) == Length(n) && b[4..] == n.body
  {
    assert Encode(n)[2..4] == ToLE(Length(n), 2);
    FromToLE(Length(n), 2);
    WordSizes();
  }

  /** What a walker standing on a node sees, and where its next step takes it. */
  lemma NodeAt(mem: seq<byte>, pos: nat, ns: seq<Node>)
    requires Stands(mem, pos, ns) && ns != []
    ensures var n := ns[0];
      && ValidNode(n)
      && pos + Length(n) <= |mem|
      && mem[pos] == n.typ && mem[pos + 1] == n.sub
      && NodeLength(mem, pos) == Length(n)
      && mem[pos..pos + Length(n)] == Encode(n)
      && Stands(mem, pos + Length(n), ns[1..])
      && |EncodeAll(ns)| == Length(n) + |EncodeAll(ns[1..])|
  {
    hide Encode, EncodeAll, FromLE, Stands;
    var n, rest := ns[0], EncodeAll(ns[1..]);
    assert n in ns;
    StandsFacts(mem, pos, ns);
    EncodeAllCons(ns);
    var mid, end := pos + Length(n), pos + |EncodeAll(ns)|;
    SliceOfSlice(mem, pos, end, 0, Length(n));
    SliceOfSlice(mem, pos, end, Length(n), |EncodeAll(ns)|);
    EncodeFields(n);
    SliceOfSlice(mem, pos, mid, 2, 4);
    assert mem[pos..mid][0] == mem[pos] && mem[pos..mid][1] == mem[pos + 1];
    assert forall x | x in ns[1..] :: x in ns;
    StandsMake(mem, mid, ns[1..]);
  }

  lemma EncodeAllCons(ns: seq<Node>)
    requires ns != []
    ensures var n, all := ns[0], EncodeAll(ns);
      && |all| == Length(n) + |EncodeAll(ns[1..])|
      && all[..Length(n)] == Encode(n) && all[Length(n)..|all|] == EncodeAll(ns[1..])
  {
  }

  lemma StandsFacts(mem: seq<byte>, pos: nat, ns: seq<Node>)
    requires Stands(mem, pos, ns)
    ensures AllValid(ns) && pos + |EncodeAll(ns)| <= |mem|
    ensures mem[pos..pos + |EncodeAll(ns)|] == EncodeAll(ns)
  {
  }

  lemma StandsMake(mem: seq<byte>, pos: nat, ns: seq<Node>)
    requires AllValid(ns) && pos + |EncodeAll(ns)| <= |mem|
    requires mem[pos..pos + |EncodeAll(ns)|] == EncodeAll(ns)
    ensures Stands(mem, pos, ns)
  {
  }

  lemma PathTail(ns: seq<Node>)
    requires Path(ns) && !IsEnd(ns[0])
    ensures Path(ns[1..])
  {
    assert forall x | x in ns[1..] :: x in ns;
    assert ns[1..][|ns| - 2] == ns[|ns| - 1];
    assert forall i | 0 <= i < |ns| - 2 :: ns[1..][i] == ns[i + 1];
  }

  lemma PathEnds(ns: seq<Node>)
    requires Path(ns) && IsEnd(ns[0])
    ensures ns == [ns[0]]
  {
  }

  /** The bytes at a place are those of one path only, so what a walker finds there is well defined. */
  lemma {:induction false} PathUnique(mem: seq<byte>, pos: nat, a: seq<Node>, b: seq<Node>)
    requires Path(a) && Path(b) && Stands(mem, pos, a) && Stands(mem, pos, b)
    ensures a == b
    decreases |a|
  {
    hide Encode, EncodeAll, Stands, Path, IsEnd, NodeLength;
    PathNonEmpty(a);
    PathNonEmpty(b);
    NodeAt(mem, pos, a);
    NodeAt(mem, pos, b);
    EncodeFields(a[0]);
    EncodeFields(b[0]);
    assert a[0] == b[0];
    if IsEnd(a[0]) {
      PathEnds(a);
      PathEnds(b);
    } else {
      PathTail(a);
      PathTail(b);
      PathUnique(mem, pos + Length(a[0]), a[1..], b[1..]);
      assert a == [a[0]] + a[1..] && b == [b[0]] + b[1..];
    }
  }

  // ---- Size ----

  /** A walk to the end node: how far it is. */
  method WalkToEnd(mem: seq<byte>, pos: nat, ghost ns: seq<Node>) returns (end: nat)
    requires Path(ns) && Stands(mem, pos, ns)
    ensures end == pos + |EncodeAll(ns[..|ns| - 1])|
    ensures Stands(mem, end, [ns[|ns| - 1]])
  {
    hide Stands, Encode, EncodeAll, Path, IsEnd;
    end := pos;
    ghost var k := 0;
    ghost var rest := ns;
    WalkStart(ns);
    NodeAt(mem, end, rest);
    while !(MaskedType(mem[end]) == END_DEVICE_PATH_TYPE && mem[end + 1] == END_ENTIRE_SUBTYPE)
      invariant Path(rest) && Stands(mem, end, rest) && rest != []
      invariant end + NODE_HEADER_SIZE <= |mem| && mem[end] == rest[0].typ && mem[end + 1] == rest[0].sub
      invariant k <= |ns| && rest == ns[k..] && end == pos + |EncodeAll(ns[..k])|
      decreases |rest|
    {
      assert !IsEnd(rest[0]) by {
        EndSeen(rest[0]);
      }
      PathTail(rest);
      NodeAt(mem, end, rest);
      WalkStep(ns, k);
      end := end + NodeLength(mem, end);
      rest := rest[1..];
      k := k + 1;
      PathNonEmpty(rest);
      NodeAt(mem, end, rest);
    }
    EndSeen(rest[0]);
    PathEnds(rest);
    assert k == |ns| - 1;
  }

  lemma EndSeen(n: Node)
    ensures IsEnd(n) <==> MaskedType(n.typ) == END_DEVICE_PATH_TYPE && n.sub == END_ENTIRE_SUBTYPE
  {
  }

  lemma PathNonEmpty(ns: seq<Node>)
    requires Path(ns)
    ensures ns != [] && IsEnd(ns[|ns| - 1]) && AllValid(ns)
  {
  }

  lemma WalkStart(ns: seq<Node>)
    requires Path(ns)
    ensures ns != [] && EncodeAll(ns[..0]) == [] && ns[0..] == ns
  {
  }

  lemma WalkStep(ns: seq<Node>, k: nat)
    requires k < |ns|
    ensures ns[k..][1..] == ns[k + 1..] && ns[k..][0] == ns[k]
    ensures |EncodeAll(ns[..k + 1])| == |EncodeAll(ns[..k])| + Length(ns[k])
  {
    assert ns[..k + 1] == ns[..k] + [ns[k]];
    EncodeAllConcat(ns[..k], [ns[k]]);
    assert [ns[k]][1..] == [];
    assert EncodeAll([ns[k]]) == Encode(ns[k]);
  }

  /** The size that the library takes a path to have: it counts a bare header for the end node. */
  function MeasuredSize(ns: seq<Node>): nat
    requires ns != []
  {
    |EncodeAll(ns[..|ns| - 1])| + NODE_HEADER_SIZE
  }

  method DevicePathSize(mem: seq<byte>, pos: nat, ghost ns: seq<Node>) returns (size: nat)
    requires Path(ns) && Stands(mem, pos, ns)
    ensures size == MeasuredSize(ns)
  {
    var end := WalkToEnd(mem, pos, ns);
    size := end - pos + NODE_HEADER_SIZE;
  }

  /** What is measured is the whole path but for what the end node holds besides its header. */
  lemma MeasuredShort(ns: seq<Node>)
    requires ns != []
    ensures MeasuredSize(ns) + |ns[|ns| - 1].body| == |EncodeAll(ns)|
    ensures MeasuredSize(ns) == |EncodeAll(ns)| <==> BareEnd(ns)
  {
    hide Encode, EncodeAll;
    var last := ns[|ns| - 1];
    assert ns == ns[..|ns| - 1] + [last];
    EncodeAllConcat(ns[..|ns| - 1], [last]);
    EncodeOne(last);
  }

  // ---- Instances ----

  /** How many nodes stand before the first node of end type. */
  function FirstEnd(ns: seq<Node>): (k: nat)
    ensures k <= |ns| && forall i | 0 <= i < k :: !IsEndType(ns[i])
    ensures k < |ns| ==> IsEndType(ns[k])
  {
    if ns == [] || IsEndType(ns[0]) then 0 else 1 + FirstEnd(ns[1..])
  }

  lemma {:induction false} FirstEndUnique(ns: seq<Node>, k: nat)
    requires k < |ns| && IsEndType(ns[k]) && forall i | 0 <= i < k :: !IsEndType(ns[i])
    ensures FirstEnd(ns) == k
  {
    if k > 0 {
      FirstEndUnique(ns[1..], k - 1);
    }
  }

  /** The instances of a path, each without its end node. */
  function Instances(ns: seq<Node>): seq<seq<Node>>
    decreases |ns|
  {
    if FirstEnd(ns) == |ns| then []
    else [ns[..FirstEnd(ns)]] + Instances(ns[FirstEnd(ns) + 1..])
  }

  /** End nodes end either one instance or the entire path. */
  predicate KnownEnds(ns: seq<Node>) {
    forall n | n in ns && IsEndType(n) :: n.sub == END_ENTIRE_SUBTYPE || n.sub == END_INSTANCE_SUBTYPE
  }

  lemma {:induction false} PathDrop(ns: seq<Node>, k: nat)
    requires Path(ns) && k < |ns|
    ensures Path(ns[k..])
  {
    assert ns[k..][|ns| - 1 - k] == ns[|ns| - 1];
    assert forall i | 0 <= i < |ns| - 1 - k :: ns[k..][i] == ns[k + i];
    assert forall x | x in ns[k..] :: x in ns;
  }

  lemma PathHasEnd(ns: seq<Node>)
    requires Path(ns)
    ensures FirstEnd(ns) < |ns|
    ensures IsEnd(ns[FirstEnd(ns)]) <==> FirstEnd(ns) == |ns| - 1
  {
  }

  /** A position, or the null pointer. */
  datatype Position = Null | Some(at: nat)

  /** Where the walk over an instance stops: at its end node, or at the node behind the 513-th. */
  function Stop(ns: seq<Node>): (k: nat)
    ensures k <= FirstEnd(ns)
  {
    if FirstEnd(ns) <= MAX_COUNT + 1 then FirstEnd(ns) else MAX_COUNT + 1
  }

  /** One instance from pos on. The node that the walk stops at is taken for the instance's end, whatever it is;
      wellFormed is the assertion that it is one. */
  method DevicePathInstance(mem: seq<byte>, pos: nat, ghost ns: seq<Node>)
    returns (next: Position, size: nat, wellFormed: bool)
    requires Path(ns) && Stands(mem, pos, ns)
    ensures var k := Stop(ns);
      && k < |ns|
      && size == |EncodeAll(ns[..k])| && pos + size <= |mem|
      && mem[pos..pos + size] == EncodeAll(ns[..k])
      && (wellFormed <==> ns[k].sub in {END_ENTIRE_SUBTYPE, END_INSTANCE_SUBTYPE})
      && next == (if ns[k].sub == END_ENTIRE_SUBTYPE then Null else Some(pos + |EncodeAll(ns[..k + 1])|))
      && (next.Some? ==> k + 1 < |ns| && Path(ns[k + 1..]) && Stands(mem, next.at, ns[k + 1..]))
  {
    hide Stands, Encode, EncodeAll, Path, IsEnd, FirstEnd, MaskedType;
    var devPath: nat := pos;
    var count := 0;
    ghost var first := FirstEnd(ns);
    InstanceStart(ns);
    var after := pos;
    while true
      invariant 0 <= count <= Stop(ns) && count < |ns|
      invariant Stands(mem, devPath, ns[count..]) && devPath == pos + |EncodeAll(ns[..count])|
      decreases first - count
    {
      NodeAt(mem, devPath, ns[count..]);
      WalkStep(ns, count);
      after := devPath + NodeLength(mem, devPath);
      InstanceNode(ns, count);
      if MaskedType(mem[devPath]) == END_DEVICE_PATH_TYPE {
        break;
      }
      if count > MAX_COUNT {
        break;
      }
      devPath := after;
      count := count + 1;
    }
    var sub := mem[devPath + 1];
    wellFormed := sub == END_ENTIRE_SUBTYPE || sub == END_INSTANCE_SUBTYPE;
    next := if sub == END_ENTIRE_SUBTYPE then Null else Some(after);
    size := devPath - pos;
    assert count == Stop(ns) && sub == ns[count].sub;
    StandsPrefix(mem, pos, ns, count);
    BehindStop(ns);
  }

  /** Unless it ends the entire path, something follows the node that the walk stops at. */
  lemma BehindStop(ns: seq<Node>)
    requires Path(ns)
    ensures Stop(ns) < |ns|
    ensures ns[Stop(ns)].sub != END_ENTIRE_SUBTYPE ==> Stop(ns) + 1 < |ns| && Path(ns[Stop(ns) + 1..])
  {
    hide FirstEnd, MaskedType, IsEndType;
    PathHasEnd(ns);
    if Stop(ns) + 1 < |ns| {
      PathDrop(ns, Stop(ns) + 1);
    }
  }

  lemma InstanceStart(ns: seq<Node>)
    requires Path(ns)
    ensures ns[0..] == ns && EncodeAll(ns[..0]) == [] && |ns| > 0 && FirstEnd(ns) < |ns|
  {
    PathHasEnd(ns);
  }

  lemma InstanceNode(ns: seq<Node>, count: nat)
    requires Path(ns) && count <= FirstEnd(ns) && count < |ns|
    ensures ns[count..][0] == ns[count]
    ensures MaskedType(ns[count].typ) == END_DEVICE_PATH_TYPE <==> count == FirstEnd(ns)
    ensures IsEndType(ns[count]) <==> count == FirstEnd(ns)
    ensures count < FirstEnd(ns) ==> count + 1 < |ns|
  {
    PathHasEnd(ns);
  }

  /** Where the first instance of a path ends. */
  lemma EndOfInstance(ns: seq<Node>)
    requires Path(ns) && KnownEnds(ns)
    ensures var k := FirstEnd(ns);
      && k < |ns|
      && (ns[k].sub == END_ENTIRE_SUBTYPE || ns[k].sub == END_INSTANCE_SUBTYPE)
      && (ns[k].sub == END_ENTIRE_SUBTYPE <==> k == |ns| - 1)
      && (k < |ns| - 1 ==> Path(ns[k + 1..]) && KnownEnds(ns[k + 1..]))
  {
    hide FirstEnd, MaskedType, IsEndType, Path;
    PathHasEnd(ns);
    var k := FirstEnd(ns);
    assert IsEndType(ns[k]) && ns[k] in ns;
    if k < |ns| - 1 {
      PathDrop(ns, k + 1);
      KnownDrop(ns, k + 1);
    }
  }

  lemma KnownDrop(ns: seq<Node>, k: nat)
    requires KnownEnds(ns) && k <= |ns|
    ensures KnownEnds(ns[k..])
  {
    assert forall x | x in ns[k..] :: x in ns;
  }

  /** The first k nodes stand where the whole path stands. */
  lemma StandsPrefix(mem: seq<byte>, pos: nat, ns: seq<Node>, k: nat)
    requires Stands(mem, pos, ns) && k <= |ns|
    ensures pos + |EncodeAll(ns[..k])| <= |mem|
    ensures mem[pos..pos + |EncodeAll(ns[..k])|] == EncodeAll(ns[..k])
  {
    hide Encode, EncodeAll, Stands;
    StandsFacts(mem, pos, ns);
    EncodeAllSplit(ns, k);
    var whole, part := EncodeAll(ns), EncodeAll(ns[..k]);
    SliceOfSlice(mem, pos, pos + |whole|, 0, |part|);
  }

  lemma EncodeAllSplit(ns: seq<Node>, k: nat)
    requires k <= |ns|
    ensures EncodeAll(ns) == EncodeAll(ns[..k]) + EncodeAll(ns[k..])
    ensures |EncodeAll(ns[..k])| <= |EncodeAll(ns)| && EncodeAll(ns)[..|EncodeAll(ns[..k])|] == EncodeAll(ns[..k])
  {
    hide Encode, EncodeAll;
    assert ns == ns[..k] + ns[k..];
    EncodeAllConcat(ns[..k], ns[k..]);
  }

  predicate ShortInstances(ns: seq<Node>) {
    forall i | 0 <= i < |Instances(ns)| :: |Instances(ns)[i]| <= 513
  }

  /** The instances as the walker tells them apart. */
  function Walked(ns: seq<Node>): seq<seq<Node>>
    decreases |ns|
  {
    if Stop(ns) >= |ns| then []
    else [ns[..Stop(ns)]]
         + if ns[Stop(ns)].sub == END_ENTIRE_SUBTYPE then [] else Walked(ns[Stop(ns) + 1..])
  }

  method DevicePathInstanceCount(mem: seq<byte>, pos: Position, ghost ns: seq<Node>) returns (count: nat)
    requires pos.Some? ==> Path(ns) && Stands(mem, pos.at, ns)
    ensures count == if pos.Null? then 0 else |Walked(ns)|
  {
    hide Stands, Path, EncodeAll, Walked, Stop;
    count := 0;
    var devicePath := pos;
    ghost var rest := if pos.Null? then [] else ns;
    NoneWalked();
    while devicePath.Some?
      invariant devicePath.Some? ==> Path(rest) && Stands(mem, devicePath.at, rest)
      invariant devicePath.Null? ==> Walked(rest) == []
      invariant (if pos.Null? then 0 else |Walked(ns)|) == count + |Walked(rest)|
      decreases |rest|, devicePath.Some?
    {
      var next, size, wellFormed := DevicePathInstance(mem, devicePath.at, rest);
      WalkedCons(rest);
      rest := if next.Some? then rest[Stop(rest) + 1..] else [];
      devicePath := next;
      count := count + 1;
    }
  }

  lemma NoneWalked()
    ensures Walked([]) == []
  {
  }

  lemma WalkedCons(ns: seq<Node>)
    requires Stop(ns) < |ns|
    ensures Walked(ns) == [ns[..Stop(ns)]]
      + if ns[Stop(ns)].sub == END_ENTIRE_SUBTYPE then [] else Walked(ns[Stop(ns) + 1..])
  {
    hide Stop;
  }

  lemma {:induction false} WalkedShort(ns: seq<Node>)
    ensures forall i | 0 <= i < |Walked(ns)| :: |Walked(ns)[i]| <= MAX_COUNT + 1
    decreases |ns|
  {
    var k := Stop(ns);
    assert k <= MAX_COUNT + 1;
    hide Walked, Stop;
    if k < |ns| {
      WalkedCons(ns);
      if ns[k].sub != END_ENTIRE_SUBTYPE {
        WalkedShort(ns[k + 1..]);
      }
    } else {
      NothingToWalk(ns);
    }
  }

  lemma NothingToWalk(ns: seq<Node>)
    requires Stop(ns) >= |ns|
    ensures Walked(ns) == []
  {
  }

  lemma {:induction false} ShortWalked(ns: seq<Node>)
    requires Path(ns) && KnownEnds(ns) && ShortInstances(ns)
    ensures Walked(ns) == Instances(ns)
    decreases |ns|
  {
    hide Path, KnownEnds, ShortInstances, Walked, Instances, FirstEnd;
    InstancesCons(ns);
    EndOfInstance(ns);
    var k := FirstEnd(ns);
    ShortCons(ns, ns[..k], ns[k + 1..]);
    assert Stop(ns) == k;
    WalkedCons(ns);
    if k < |ns| - 1 {
      ShortWalked(ns[k + 1..]);
    }
  }

  /** The walker tells the instances of a path apart correctly exactly if none of them is longer than 513 nodes. */
  lemma WalkedIff(ns: seq<Node>)
    requires Path(ns) && KnownEnds(ns)
    ensures Walked(ns) == Instances(ns) <==> ShortInstances(ns)
  {
    hide Path, KnownEnds, Walked, Instances;
    if ShortInstances(ns) {
      ShortWalked(ns);
    }
    WalkedShort(ns);
  }

  lemma NoInstances()
    ensures Instances([]) == []
  {
  }

  lemma InstancesCons(ns: seq<Node>)
    requires Path(ns)
    ensures var k := FirstEnd(ns);
      && k < |ns|
      && Instances(ns) == [ns[..k]] + Instances(ns[k + 1..])
      && (k == |ns| - 1 ==> Instances(ns[k + 1..]) == [])
  {
    hide FirstEnd, Instances, Path;
    PathHasEnd(ns);
    InstancesUnfold(ns);
    if FirstEnd(ns) == |ns| - 1 {
      assert ns[FirstEnd(ns) + 1..] == [];
      NoInstances();
    }
  }

  lemma ShortCons(ns: seq<Node>, first: seq<Node>, after: seq<Node>)
    requires ShortInstances(ns) && Instances(ns) == [first] + Instances(after)
    ensures |first| <= MAX_COUNT + 1 && ShortInstances(after)
  {
    hide Instances;
    assert Instances(ns)[0] == first;
    forall i | 0 <= i < |Instances(after)|
      ensures |Instances(after)[i]| <= MAX_COUNT + 1
    {
      assert Instances(after)[i] == Instances(ns)[i + 1];
    }
  }

  lemma InstancesUnfold(ns: seq<Node>)
    requires FirstEnd(ns) < |ns|
    ensures Instances(ns) == [ns[..FirstEnd(ns)]] + Instances(ns[FirstEnd(ns) + 1..])
  {
    hide FirstEnd;
  }
}
