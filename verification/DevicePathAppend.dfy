/** Appending one device path to another as further instances. */
module DevicePathAppend {
  import opened Bytes
  import opened DevicePath

  /** a's final end node made into the end of an instance, and b behind it. */
  function Append(a: seq<Node>, b: seq<Node>): seq<Node>
    requires a != []
  {
    a[..|a| - 1] + [a[|a| - 1].(sub := END_INSTANCE_SUBTYPE)] + b
  }

  // ---- Laws ----

  lemma AppendParts(a: seq<Node>, b: seq<Node>)
    requires Path(a)
    ensures var r := Append(a, b);
      && |r| == |a| + |b|
      && (forall i | 0 <= i < |a| - 1 :: r[i] == a[i])
      && r[|a| - 1] == a[|a| - 1].(sub := END_INSTANCE_SUBTYPE)
      && (forall i | 0 <= i < |b| :: r[|a| + i] == b[i])
      && r[|a|..] == b
  {
  }

  /** The result is again a path with everything the walkers need. */
  lemma AppendIsPath(a: seq<Node>, b: seq<Node>)
    requires Path(a) && Path(b)
    ensures Path(Append(a, b))
    ensures KnownEnds(a) && KnownEnds(b) ==> KnownEnds(Append(a, b))
    ensures BareEnd(Append(a, b)) <==> BareEnd(b)
  {
    AppendParts(a, b);
    var r := Append(a, b);
    hide Append;
    var last := a[|a| - 1];
    assert last in a;
    assert !IsEnd(r[|a| - 1]);
    assert r[|r| - 1] == b[|b| - 1];
    forall i | 0 <= i < |r|
      ensures i < |r| - 1 ==> !IsEnd(r[i])
      ensures r[i] in a || r[i] in b || r[i] == last.(sub := END_INSTANCE_SUBTYPE)
    {
      if i >= |a| {
        assert r[i] == b[i - |a|];
      }
    }
  }

  /** The instances of the result are a's and then b's. */
  lemma {:induction false} AppendInstances(a: seq<Node>, b: seq<Node>)
    requires Path(a)
    ensures Instances(Append(a, b)) == Instances(a) + Instances(b)
    decreases |a|
  {
    hide Instances, Path;
    InstancesCons(a);
    AppendFirst(a, b);
    var k, r := FirstEnd(a), Append(a, b);
    InstancesUnfold(r);
    var first := a[..k];
    if k == |a| - 1 {
      assert Instances(r) == [first] + Instances(b);
    } else {
      PathDrop(a, k + 1);
      AppendInstances(a[k + 1..], b);
      assert [first] + (Instances(a[k + 1..]) + Instances(b)) == [first] + Instances(a[k + 1..]) + Instances(b);
    }
  }

  /** If no instance of a or b is too long for DevicePathInstance, none of the result is. */
  lemma AppendShort(a: seq<Node>, b: seq<Node>)
    requires Path(a)
    ensures ShortInstances(Append(a, b)) <==> ShortInstances(a) && ShortInstances(b)
  {
    hide Instances, Path, Append;
    PathNonEmpty(a);
    AppendInstances(a, b);
    var x, y, r := Instances(a), Instances(b), Instances(Append(a, b));
    if ShortInstances(Append(a, b)) {
      forall i | 0 <= i < |x| ensures |x[i]| <= MAX_COUNT + 1 {
        assert r[i] == x[i];
      }
      forall i | 0 <= i < |y| ensures |y[i]| <= MAX_COUNT + 1 {
        assert r[|x| + i] == y[i];
      }
    }
  }

  /** If no instance of a is too long, the walker tells apart a's instances and then, whatever these are, those that it
      tells apart in b; so their numbers add up. */
  lemma {:induction false} AppendWalked(a: seq<Node>, b: seq<Node>)
    requires Path(a) && KnownEnds(a) && ShortInstances(a)
    ensures Walked(Append(a, b)) == Walked(a) + Walked(b)
    ensures |Walked(Append(a, b))| == |Walked(a)| + |Walked(b)|
    decreases |a|
  {
    hide Path, KnownEnds, ShortInstances, Instances, Walked, FirstEnd, Append;
    PathNonEmpty(a);
    InstancesCons(a);
    EndOfInstance(a);
    AppendFirst(a, b);
    AppendFront(a, b, FirstEnd(a));
    var k, r := FirstEnd(a), Append(a, b);
    ShortCons(a, a[..k], a[k + 1..]);
    assert Stop(a) == Stop(r) == k;
    WalkedCons(a);
    WalkedCons(r);
    if k < |a| - 1 {
      AppendWalked(a[k + 1..], b);
    }
  }

  lemma AppendFirst(a: seq<Node>, b: seq<Node>)
    requires Path(a)
    ensures var k, r := FirstEnd(a), Append(a, b);
      && k < |a| && FirstEnd(r) == k && r[..k] == a[..k] && k < |r|
      && (k == |a| - 1 ==> r[k + 1..] == b)
      && (k < |a| - 1 ==> r[k + 1..] == Append(a[k + 1..], b))
  {
    hide FirstEnd, Path, IsEndType, Append;
    PathHasEnd(a);
    AppendParts(a, b);
    var k, r := FirstEnd(a), Append(a, b);
    TurnedType(a[|a| - 1]);
    AppendFront(a, b, k);
    assert forall i | 0 <= i < k :: r[i] == a[i];
    FirstEndUnique(r, k);
    if k < |a| - 1 {
      AppendDrop(a, b, k + 1);
    }
  }

  lemma AppendFront(a: seq<Node>, b: seq<Node>, k: nat)
    requires k < |a|
    ensures k < |Append(a, b)| && Append(a, b)[..k] == a[..k]
    ensures Append(a, b)[k] == if k < |a| - 1 then a[k] else a[k].(sub := END_INSTANCE_SUBTYPE)
  {
  }

  lemma TurnedType(n: Node)
    ensures IsEndType(n.(sub := END_INSTANCE_SUBTYPE)) == IsEndType(n)
  {
  }

  lemma AppendDrop(a: seq<Node>, b: seq<Node>, k: nat)
    requires k < |a|
    ensures k <= |Append(a, b)| && Append(a, b)[k..] == Append(a[k..], b)
  {
    assert a[k..][|a| - k - 1] == a[|a| - 1];
    assert a[k..][..|a| - k - 1] == a[..|a| - 1][k..];
    assert (a[..|a| - 1] + [a[|a| - 1].(sub := END_INSTANCE_SUBTYPE)] + b)[k..]
        == a[..|a| - 1][k..] + [a[|a| - 1].(sub := END_INSTANCE_SUBTYPE)] + b;
  }

  /** Sizes add up, so the pool that AppendDevicePathInstance asks for is filled exactly. */
  lemma AppendEncoded(a: seq<Node>, b: seq<Node>)
    requires Path(a)
    ensures var last := a[|a| - 1];
      && EncodeAll(Append(a, b))
         == EncodeAll(a[..|a| - 1]) + Encode(last.(sub := END_INSTANCE_SUBTYPE)) + EncodeAll(b)
      && EncodeAll(a) == EncodeAll(a[..|a| - 1]) + Encode(last)
      && |EncodeAll(Append(a, b))| == |EncodeAll(a)| + |EncodeAll(b)|
  {
    hide Encode, EncodeAll;
    var front, last := a[..|a| - 1], a[|a| - 1];
    var turned := last.(sub := END_INSTANCE_SUBTYPE);
    EncodeOne(last);
    EncodeOne(turned);
    EncodeAllConcat(front, [last]);
    assert a == front + [last];
    EncodeAllConcat(front, [turned]);
    EncodeAllConcat(front + [turned], b);
    TurnedLength(last);
  }

  lemma TurnedLength(n: Node)
    ensures Length(n.(sub := END_INSTANCE_SUBTYPE)) == Length(n)
  {
  }

  // ---- The operations ----

  /** A copy in fresh pool memory of as much of a path as is measured: all of it but for what its end node holds
      besides a header. room says whether the pool has any memory left. */
  method DuplicateDevicePath(mem: seq<byte>, pos: nat, room: bool, ghost ns: seq<Node>) returns (copy: array?<byte>)
    requires Path(ns) && Stands(mem, pos, ns)
    ensures copy == null <==> !room
    ensures MeasuredSize(ns) <= |EncodeAll(ns)|
    ensures copy != null ==> fresh(copy) && copy[..] == EncodeAll(ns)[..MeasuredSize(ns)]
  {
    hide Path, Encode, EncodeAll, MeasuredSize;
    PathNonEmpty(ns);
    var size := DevicePathSize(mem, pos, ns);
    MeasuredShort(ns);
    if !room {
      return null;
    }
    copy := new byte[size];
    CopyMem(copy, 0, mem[pos..pos + size]);
    assert mem[pos..pos + size] == EncodeAll(ns)[..size];
  }

  /** The second path is copied behind the first one's end node, into memory for two measured paths: it fits exactly if
      that node is a bare header. */
  lemma AppendFitsIff(a: seq<Node>, b: seq<Node>)
    requires a != [] && b != []
    ensures |EncodeAll(a)| + MeasuredSize(b) <= MeasuredSize(a) + MeasuredSize(b) <==> BareEnd(a)
  {
    hide EncodeAll, MeasuredSize;
    MeasuredShort(a);
  }

  /** A new path: src's instances, if there is a src, and then those of instance, as far as they are measured. The end
      node of src must be a bare header, without which the second copy leaves the memory; and with a src the pool must
      have room, as its failure is only asserted against. */
  method AppendDevicePathInstance(mem: seq<byte>, src: Position, instance: nat, room: bool,
                                  ghost a: seq<Node>, ghost b: seq<Node>)
    returns (ptr: array?<byte>)
    requires src.Some? ==> room && Path(a) && BareEnd(a) && Stands(mem, src.at, a)
    requires Path(b) && Stands(mem, instance, b)
    ensures ptr == null <==> !room
    ensures ptr != null ==> fresh(ptr)
    ensures ptr != null && src.Null? ==>
      MeasuredSize(b) <= |EncodeAll(b)| && ptr[..] == EncodeAll(b)[..MeasuredSize(b)]
    ensures ptr != null && src.Some? ==>
      var r := Append(a, b);
      MeasuredSize(r) <= |EncodeAll(r)| && ptr[..] == EncodeAll(r)[..MeasuredSize(r)]
  {
    hide Path, Encode, EncodeAll, Stands, Append, BareEnd, MeasuredSize;
    if src.Null? {
      ptr := DuplicateDevicePath(mem, instance, room, b);
      return;
    }
    var srcSize := DevicePathSize(mem, src.at, a);
    var instanceSize := DevicePathSize(mem, instance, b);
    PathNonEmpty(a);
    PathNonEmpty(b);
    MeasuredShort(a);
    MeasuredShort(b);
    StandsFacts(mem, src.at, a);
    StandsFacts(mem, instance, b);
    ptr := new byte[srcSize + instanceSize];
    CopyMem(ptr, 0, mem[src.at..src.at + srcSize]);
    assert ptr[..srcSize] == EncodeAll(a);
    var devPath := TurnEnd(ptr, srcSize, a);
    ghost var before := ptr[..];
    CopyMem(ptr, devPath, mem[instance..instance + instanceSize]);
    assert mem[instance..instance + instanceSize] == EncodeAll(b)[..instanceSize];
    assert ptr[..] == before[..srcSize] + EncodeAll(b)[..instanceSize];
    AppendEncoded(a, b);
    AppendMeasured(a, b);
    Shortened(before[..srcSize], EncodeAll(b), instanceSize);
  }

  /** Walks to the end of the copied path, makes its end node the end of an instance, and steps over it. */
  method TurnEnd(ptr: array<byte>, size: nat, ghost a: seq<Node>) returns (next: nat)
    requires Path(a) && BareEnd(a) && size <= ptr.Length && ptr[..size] == EncodeAll(a)
    modifies ptr
    ensures next == size
    ensures ptr[..size] == EncodeAll(a[..|a| - 1]) + Encode(a[|a| - 1].(sub := END_INSTANCE_SUBTYPE))
  {
    hide Path, Encode, EncodeAll, Stands, BareEnd, NodeLength;
    PathNonEmpty(a);
    assert ptr[..][0..size] == EncodeAll(a);
    StandsMake(ptr[..], 0, a);
    var devPath := WalkToEnd(ptr[..], 0, a);
    ghost var front, last := EncodeAll(a[..|a| - 1]), a[|a| - 1];
    AppendEncoded(a, []);
    PlainEnd(a);
    Turned(last);
    ghost var copied := ptr[..size];
    NodeAt(ptr[..], devPath, [last]);
    ptr[devPath + 1] := END_INSTANCE_SUBTYPE;
    assert ptr[..size] == copied[devPath + 1 := END_INSTANCE_SUBTYPE];
    EndTurned(copied, front, Encode(last), Encode(last.(sub := END_INSTANCE_SUBTYPE)), END_INSTANCE_SUBTYPE);
    SameLength(ptr[..], devPath, front, last.(sub := END_INSTANCE_SUBTYPE), size);
    next := devPath + NodeLength(ptr[..], devPath);
  }

  lemma EndTurned(s: seq<byte>, front: seq<byte>, x: seq<byte>, y: seq<byte>, c: byte)
    requires s == front + x && |x| >= 2 && y == x[1 := c]
    ensures s[|front| + 1 := c] == front + y
  {
  }

  lemma Shortened(x: seq<byte>, y: seq<byte>, n: nat)
    requires n <= |y|
    ensures x + y[..n] == (x + y)[..|x| + n]
  {
  }

  lemma AppendMeasured(a: seq<Node>, b: seq<Node>)
    requires Path(a) && Path(b)
    ensures Append(a, b) != [] && MeasuredSize(Append(a, b)) == |EncodeAll(a)| + MeasuredSize(b)
    ensures MeasuredSize(Append(a, b)) <= |EncodeAll(Append(a, b))|
  {
    hide Encode, EncodeAll, MeasuredSize;
    AppendParts(a, b);
    var r := Append(a, b);
    assert r[|r| - 1] == b[|b| - 1];
    MeasuredShort(r);
    MeasuredShort(b);
    AppendEncoded(a, b);
  }

  lemma PlainEnd(a: seq<Node>)
    requires Path(a) && BareEnd(a)
    ensures Length(a[|a| - 1]) == NODE_HEADER_SIZE && AllValid([a[|a| - 1]])
  {
    assert a[|a| - 1] in a;
  }

  /** In a node's bytes, the subtype stands at index 1. */
  lemma Turned(n: Node)
    ensures var t := n.(sub := END_INSTANCE_SUBTYPE);
      |Encode(n)| == |Encode(t)| == Length(n) && Encode(t) == Encode(n)[1 := END_INSTANCE_SUBTYPE]
  {
    assert Encode(n)[1 := END_INSTANCE_SUBTYPE][2..] == Encode(n)[2..];
  }

  lemma SameLength(mem: seq<byte>, pos: nat, front: seq<byte>, n: Node, size: nat)
    requires ValidNode(n) && |front| == pos && size <= |mem| && mem[..size] == front + Encode(n)
    ensures pos + NODE_HEADER_SIZE <= |mem| && NodeLength(mem, pos) == Length(n)
  {
    EncodeFields(n);
    SliceOfSlice(mem, 0, size, pos + 2, pos + 4);
    assert (front + Encode(n))[pos + 2..pos + 4] == Encode(n)[2..4];
  }

  /** Every instance's bytes in turn, as a caller gets them who asks for one instance after the other. */
  method EachInstance(mem: seq<byte>, pos: Position, ghost ns: seq<Node>) returns (parts: seq<seq<byte>>)
    requires pos.Some? ==> Path(ns) && Stands(mem, pos.at, ns)
    ensures parts == if pos.Null? then [] else EncodeEach(Walked(ns))
  {
    hide Stands, Path, EncodeAll, Walked, Stop, EncodeEach;
    parts := [];
    var devicePath := pos;
    ghost var rest := if pos.Null? then [] else ns;
    NoneWalked();
    EncodeEachNone();
    while devicePath.Some?
      invariant devicePath.Some? ==> Path(rest) && Stands(mem, devicePath.at, rest)
      invariant devicePath.Null? ==> Walked(rest) == []
      invariant (if pos.Null? then [] else EncodeEach(Walked(ns))) == parts + EncodeEach(Walked(rest))
      decreases |rest|, devicePath.Some?
    {
      var at := devicePath.at;
      var next, size, wellFormed := DevicePathInstance(mem, at, rest);
      WalkedCons(rest);
      ghost var first, after := rest[..Stop(rest)], if next.Some? then rest[Stop(rest) + 1..] else [];
      EncodeEachCons(first, Walked(after));
      rest := after;
      devicePath := next;
      parts := parts + [mem[at..at + size]];
    }
  }

  function EncodeEach(instances: seq<seq<Node>>): seq<seq<byte>> {
    seq(|instances|, i requires 0 <= i < |instances| => EncodeAll(instances[i]))
  }

  lemma EncodeEachNone()
    ensures EncodeEach([]) == []
  {
  }

  lemma EncodeEachCons(first: seq<Node>, after: seq<seq<Node>>)
    ensures EncodeEach([first] + after) == [EncodeAll(first)] + EncodeEach(after)
  {
    hide EncodeAll;
  }
}
