/** Unpacking a device path: every node padded to the machine's alignment. */
module DevicePathUnpack {
  import opened Bytes
  import opened DevicePath

  /** How many bytes are missing up to the next multiple of align. */
  function AlignSize(size: nat, align: nat): (pad: nat)
    requires align > 0
    ensures pad < align
  {
    if size % align != 0 then align - size % align else 0
  }

  function UnpackedType(typ: byte): byte {
    (typ as nat % TYPE_UNPACKED + TYPE_UNPACKED) as byte
  }

  function Unpacked(n: Node, align: nat): Node
    requires align > 0
  {
    Node(UnpackedType(n.typ), n.sub, n.body + Zeros(AlignSize(Length(n), align)))
  }

  function UnpackAll(ns: seq<Node>, align: nat): (us: seq<Node>)
    requires align > 0
    ensures |us| == |ns| && forall i | 0 <= i < |ns| :: us[i] == Unpacked(ns[i], align)
  {
    seq(|ns|, i requires 0 <= i < |ns| => Unpacked(ns[i], align))
  }

  // ---- Alignment ----

  lemma Aligned(size: nat, align: nat)
    requires align > 0
    ensures (size + AlignSize(size, align)) % align == 0
  {
    var q, r := size / align, size % align;
    if r != 0 {
      assert align * (q + 1) == align * q + align;
      ModUnique(size + align - r, align, q + 1, 0);
    }
  }

  /** Behind whole multiples of the alignment, a size is padded as if it stood alone. */
  lemma AlignBehind(base: nat, size: nat, align: nat)
    requires align > 0 && base % align == 0
    ensures AlignSize(base + size, align) == AlignSize(size, align)
    ensures (base + size + AlignSize(size, align)) % align == 0
  {
    assert base + size == size + (base / align) * align;
    ModEqual(base + size, size, base / align, align);
    Aligned(base + size, align);
  }

  // ---- Laws ----

  /** Unpacking keeps the masked type, the subtype and the payload, and pads with fewer zeros than one alignment. */
  lemma UnpackedKeeps(n: Node, align: nat)
    requires align > 0
    ensures var u := Unpacked(n, align);
      && MaskedType(u.typ) == MaskedType(n.typ) && u.typ as nat >= TYPE_UNPACKED && u.sub == n.sub
      && n.body <= u.body && (forall i | |n.body| <= i < |u.body| :: u.body[i] == 0)
      && Length(u) % align == 0 && Length(n) <= Length(u) < Length(n) + align
      && IsEndType(u) == IsEndType(n) && IsEnd(u) == IsEnd(n)
  {
    MaskedUnpacked(n.typ as nat);
    Aligned(Length(n), align);
  }

  lemma MaskedUnpacked(t: nat)
    requires t < 0x100
    ensures (t % TYPE_UNPACKED + TYPE_UNPACKED) % TYPE_UNPACKED == t % TYPE_UNPACKED
  {
  }

  lemma UnpackedAgain(n: Node, align: nat)
    requires align > 0
    ensures Unpacked(Unpacked(n, align), align) == Unpacked(n, align)
  {
    var u := Unpacked(n, align);
    UnpackedKeeps(n, align);
    MaskedUnpacked(n.typ as nat);
    assert AlignSize(Length(u), align) == 0;
    assert u.body + Zeros(0) == u.body;
  }

  /** Unpacking an unpacked path writes the same bytes again. */
  lemma UnpackTwice(ns: seq<Node>, align: nat)
    requires align > 0
    ensures UnpackAll(UnpackAll(ns, align), align) == UnpackAll(ns, align)
  {
    hide Unpacked;
    forall i | 0 <= i < |ns|
      ensures Unpacked(Unpacked(ns[i], align), align) == Unpacked(ns[i], align)
    {
      UnpackedAgain(ns[i], align);
    }
  }

  /** A node's length field says where the next node stands exactly if the length fits it. */
  lemma StoredLengthIff(n: Node)
    ensures FromLE(Encode(n)[2..4]) == Length(n) <==> ValidNode(n)
  {
    assert Encode(n)[2..4] == ToLE(Length(n), 2);
    FromToLE(Length(n), 2);
    WordSizes();
  }

  /** If every padded length fits its field, the unpacked path is a path for every walker again. */
  lemma UnpackedIsPath(ns: seq<Node>, align: nat)
    requires align > 0 && Path(ns)
    ensures Path(UnpackAll(ns, align)) <==> AllValid(UnpackAll(ns, align))
    ensures KnownEnds(ns) ==> KnownEnds(UnpackAll(ns, align))
  {
    var us := UnpackAll(ns, align);
    forall i | 0 <= i < |ns|
      ensures IsEnd(us[i]) == IsEnd(ns[i]) && IsEndType(us[i]) == IsEndType(ns[i]) && us[i].sub == ns[i].sub
    {
      UnpackedKeeps(ns[i], align);
    }
    hide UnpackAll, IsEnd, IsEndType;
    if KnownEnds(ns) {
      forall u | u in us && IsEndType(u)
        ensures u.sub == END_ENTIRE_SUBTYPE || u.sub == END_INSTANCE_SUBTYPE
      {
        var i :| 0 <= i < |us| && us[i] == u;
        assert ns[i] in ns;
      }
    }
  }

  /** Instances stay the same, node for node. */
  lemma {:induction false} UnpackedInstances(ns: seq<Node>, align: nat)
    requires align > 0 && Path(ns)
    ensures Instances(UnpackAll(ns, align))
      == seq(|Instances(ns)|, i requires 0 <= i < |Instances(ns)| => UnpackAll(Instances(ns)[i], align))
    decreases |ns|
  {
    hide Instances, Path, UnpackAll, FirstEnd, Unpacked;
    var k, us := FirstEnd(ns), UnpackAll(ns, align);
    InstancesCons(ns);
    UnpackedFirst(ns, align);
    InstancesUnfold(us);
    var rest := ns[k + 1..];
    if k == |ns| - 1 {
      NoInstances();
      assert us[k + 1..] == [];
    } else {
      PathDrop(ns, k + 1);
      UnpackedInstances(rest, align);
    }
    assert Instances(us) == [UnpackAll(ns[..k], align)] + Instances(us[k + 1..]);
  }

  lemma UnpackedFirst(ns: seq<Node>, align: nat)
    requires align > 0 && Path(ns)
    ensures var k, us := FirstEnd(ns), UnpackAll(ns, align);
      && k < |ns| && FirstEnd(us) == k
      && us[..k] == UnpackAll(ns[..k], align) && us[k + 1..] == UnpackAll(ns[k + 1..], align)
  {
    hide UnpackAll, FirstEnd, Path, Unpacked, IsEndType;
    PathHasEnd(ns);
    var k, us := FirstEnd(ns), UnpackAll(ns, align);
    UnpackedEndTypes(ns, align);
    FirstEndUnique(us, k);
    assert us[..k] == UnpackAll(ns[..k], align);
    assert us[k + 1..] == UnpackAll(ns[k + 1..], align);
  }

  lemma UnpackedEndTypes(ns: seq<Node>, align: nat)
    requires align > 0
    ensures forall i | 0 <= i < |ns| :: IsEndType(UnpackAll(ns, align)[i]) == IsEndType(ns[i])
  {
    hide UnpackAll, Unpacked, IsEndType;
    forall i | 0 <= i < |ns|
      ensures IsEndType(UnpackAll(ns, align)[i]) == IsEndType(ns[i])
    {
      UnpackedKeeps(ns[i], align);
    }
  }

  /** Of an unpacked path that ended in a bare header before, DevicePathSize misses the padding of the end node; so it
      measures the path correctly exactly if the alignment divides the size of a header. */
  lemma UnpackedSizeIff(ns: seq<Node>, align: nat)
    requires align > 0 && BareEnd(ns)
    ensures var us := UnpackAll(ns, align);
      && MeasuredSize(us) + AlignSize(NODE_HEADER_SIZE, align) == |EncodeAll(us)|
      && (MeasuredSize(us) == |EncodeAll(us)| <==> NODE_HEADER_SIZE % align == 0)
  {
    var us, last := UnpackAll(ns, align), ns[|ns| - 1];
    assert us[|us| - 1] == Unpacked(last, align);
    hide EncodeAll, MeasuredSize;
    MeasuredShort(us);
  }

  // ---- The operation ----

  lemma EncodeUnpackedSplit(ns: seq<Node>, align: nat, k: nat)
    requires align > 0 && k < |ns|
    ensures EncodeAll(UnpackAll(ns[..k + 1], align))
      == EncodeAll(UnpackAll(ns[..k], align)) + Encode(Unpacked(ns[k], align))
    ensures |EncodeAll(UnpackAll(ns[..k + 1], align))|
      == |EncodeAll(UnpackAll(ns[..k], align))| + Length(ns[k]) + AlignSize(Length(ns[k]), align)
    ensures |EncodeAll(UnpackAll(ns[..k + 1], align))| <= |EncodeAll(UnpackAll(ns, align))|
  {
    hide Encode, EncodeAll, UnpackAll, AlignSize;
    var u := Unpacked(ns[k], align);
    var front, upto, all := UnpackAll(ns[..k], align), UnpackAll(ns[..k + 1], align), UnpackAll(ns, align);
    assert upto == front + [u];
    EncodeAllConcat(front, [u]);
    EncodeAllSplit(all, k + 1);
    assert all[..k + 1] == upto;
    EncodeOne(u);
  }

  /** The size the unpacked path will have. */
  method UnpackedSize(mem: seq<byte>, pos: nat, align: nat, ghost ns: seq<Node>) returns (size: nat)
    requires align > 0 && Path(ns) && Stands(mem, pos, ns)
    ensures size == |EncodeAll(UnpackAll(ns, align))|
  {
    hide Stands, Encode, EncodeAll, Path, IsEnd, MaskedType, UnpackAll, Unpacked, AlignSize;
    var src: nat := pos;
    size := 0;
    ghost var k := 0;
    WalkStart(ns);
    NothingUnpacked(align);
    while true
      invariant k < |ns| && Path(ns[k..]) && Stands(mem, src, ns[k..])
      invariant size == |EncodeAll(UnpackAll(ns[..k], align))| && size % align == 0
      decreases |ns| - k
    {
      NodeAt(mem, src, ns[k..]);
      WalkStep(ns, k);
      EncodeUnpackedSplit(ns, align, k);
      AlignBehind(size, Length(ns[k]), align);
      size := size + NodeLength(mem, src);
      size := size + AlignSize(size, align);
      EndSeen(ns[k]);
      if MaskedType(mem[src]) == END_DEVICE_PATH_TYPE && mem[src + 1] == END_ENTIRE_SUBTYPE {
        PathEnds(ns[k..]);
        break;
      }
      PathTail(ns[k..]);
      PathNonEmpty(ns[k + 1..]);
      src := src + NodeLength(mem, src);
      k := k + 1;
    }
    assert ns[..k + 1] == ns;
  }

  lemma NothingUnpacked(align: nat)
    requires align > 0
    ensures forall ns: seq<Node> :: EncodeAll(UnpackAll(ns[..0], align)) == []
  {
  }

  /** One node's share of the copying: its bytes, its new length, its flag. The pool memory there is still zero. */
  method CopyNode(newPath: array<byte>, dest: nat, raw: seq<byte>, align: nat, ghost n: Node) returns (size: nat)
    requires align > 0 && ValidNode(n) && raw == Encode(n)
    requires dest + Length(n) + AlignSize(Length(n), align) <= newPath.Length
    requires forall i | dest <= i < newPath.Length :: newPath[i] == 0
    modifies newPath
    ensures size == Length(n) + AlignSize(Length(n), align)
    ensures newPath[..dest] == old(newPath[..dest])
    ensures newPath[dest..dest + size] == Encode(Unpacked(n, align))
    ensures forall i | dest + size <= i < newPath.Length :: newPath[i] == 0
  {
    hide Encode;
    var length := |raw|;
    CopyMem(newPath, dest, raw);
    size := length + AlignSize(length, align);
    NodeBytes(n, align, newPath[dest..dest + size]);
    newPath[dest + 2] := (size % 0x100) as byte;
    newPath[dest + 3] := (size / 0x100 % 0x100) as byte;
    newPath[dest] := UnpackedType(newPath[dest]);
  }

  /** A node's bytes with zeros behind them, the length and the type put right, are the unpacked node's bytes. */
  lemma NodeBytes(n: Node, align: nat, s: seq<byte>)
    requires align > 0 && |s| == Length(n) + AlignSize(Length(n), align)
    requires s[..Length(n)] == Encode(n) && forall i | Length(n) <= i < |s| :: s[i] == 0
    ensures Encode(Unpacked(n, align)) == s[2 := (|s| % 0x100) as byte][3 := (|s| / 0x100 % 0x100) as byte]
                                           [0 := UnpackedType(s[0])]
  {
    var u := Unpacked(n, align);
    var t := s[2 := (|s| % 0x100) as byte][3 := (|s| / 0x100 % 0x100) as byte][0 := UnpackedType(s[0])];
    var e := Encode(n);
    LengthBytes(|s|);
    assert s[..Length(n)][0] == s[0] && s[..Length(n)][1] == s[1];
    assert e[4..] == n.body;
    assert t[4..] == s[4..] == u.body by {
      assert s[4..] == s[..Length(n)][4..] + s[Length(n)..];
      assert s[Length(n)..] == Zeros(AlignSize(Length(n), align));
    }
    assert t[..4] == [u.typ, u.sub] + ToLE(|s|, 2);
    assert t == t[..4] + t[4..];
  }

  lemma LengthBytes(v: nat)
    ensures ToLE(v, 2) == [(v % 0x100) as byte, (v / 0x100 % 0x100) as byte]
  {
    assert ToLE(v / 0x100, 1) == [(v / 0x100 % 0x100) as byte] + ToLE(v / 0x100 / 0x100, 0);
  }

  /** The unpacked copy in zeroed pool memory of exactly the size computed; room says whether the pool has it. */
  method UnpackDevicePath(mem: seq<byte>, pos: nat, align: nat, room: bool, ghost ns: seq<Node>)
    returns (newPath: array?<byte>)
    requires align > 0 && Path(ns) && Stands(mem, pos, ns)
    ensures newPath == null <==> !room
    ensures newPath != null ==> fresh(newPath) && newPath[..] == EncodeAll(UnpackAll(ns, align))
  {
    hide Stands, Encode, EncodeAll, Path, IsEnd, MaskedType, UnpackAll, Unpacked, AlignSize;
    var size := UnpackedSize(mem, pos, align, ns);
    if !room {
      return null;
    }
    newPath := new byte[size](_ => 0);
    var src: nat, dest: nat := pos, 0;
    ghost var k := 0;
    WalkStart(ns);
    NothingUnpacked(align);
    while true
      invariant k < |ns| && Path(ns[k..]) && Stands(mem, src, ns[k..])
      invariant dest == |EncodeAll(UnpackAll(ns[..k], align))| <= newPath.Length
      invariant newPath[..dest] == EncodeAll(UnpackAll(ns[..k], align))
      invariant forall i | dest <= i < newPath.Length :: newPath[i] == 0
      decreases |ns| - k
    {
      NodeAt(mem, src, ns[k..]);
      WalkStep(ns, k);
      EncodeUnpackedSplit(ns, align, k);
      size := CopyNode(newPath, dest, mem[src..src + NodeLength(mem, src)], align, ns[k]);
      assert newPath[..dest + size] == newPath[..dest] + newPath[dest..dest + size];
      dest := dest + size;
      EndSeen(ns[k]);
      if MaskedType(mem[src]) == END_DEVICE_PATH_TYPE && mem[src + 1] == END_ENTIRE_SUBTYPE {
        PathEnds(ns[k..]);
        break;
      }
      PathTail(ns[k..]);
      PathNonEmpty(ns[k + 1..]);
      src := src + NodeLength(mem, src);
      k := k + 1;
    }
    assert ns[..k + 1] == ns;
    assert newPath[..dest] == newPath[..];
  }
}
