/** Appending one device path to every instance of another. */
module DevicePathJoin {
  import opened Bytes
  import opened DevicePath
  import opened DevicePathAppend

  function EndNode(sub: byte): Node {
    Node(END_DEVICE_PATH_TYPE as byte, sub, [])
  }

  /** The bytes of an instance, of the path appended to it, and of an instance's end node. */
  function Marked(instance: seq<Node>, tail: seq<byte>): (r: seq<byte>)
    ensures |r| == |EncodeAll(instance)| + |tail| + NODE_HEADER_SIZE
  {
    EncodeAll(instance) + tail + Encode(EndNode(END_INSTANCE_SUBTYPE))
  }

  function MarkedAll(instances: seq<seq<Node>>, tail: seq<byte>): seq<byte>
    decreases |instances|
  {
    if instances == [] then []
    else MarkedAll(instances[..|instances| - 1], tail) + Marked(instances[|instances| - 1], tail)
  }

  /** What the operation writes: all of them, with the last end node made the end of the entire path. */
  function Joined(instances: seq<seq<Node>>, tail: seq<byte>): (r: seq<byte>)
    requires instances != []
    ensures |r| == |MarkedAll(instances, tail)|
  {
    var all := MarkedAll(instances, tail);
    all[..|all| - NODE_HEADER_SIZE] + Encode(EndNode(END_ENTIRE_SUBTYPE))
  }

  /** As much of a path as is measured. */
  function MeasuredBytes(ns: seq<Node>): (r: seq<byte>)
    requires Path(ns)
    ensures |r| == MeasuredSize(ns)
  {
    MeasuredShort(ns);
    EncodeAll(ns)[..MeasuredSize(ns)]
  }

  /** The memory asked for: the first path's size for each of its instances, and the second path's size once. */
  function Allocated(a: seq<Node>, b: seq<Node>): nat
    requires a != [] && b != []
  {
    hide MeasuredSize, Walked;
    Product(MeasuredSize(a), |Walked(a)|);
    MeasuredSize(a) * |Walked(a)| + MeasuredSize(b)
  }

  lemma Product(x: nat, y: nat)
    ensures x * y >= 0
  {
  }

  predicate JoinFits(a: seq<Node>, b: seq<Node>)
    requires Path(a) && Path(b)
  {
    |MarkedAll(Walked(a), MeasuredBytes(b))| <= Allocated(a, b)
  }

  // ---- The operation ----

  lemma MarkedSnoc(instances: seq<seq<Node>>, k: nat, tail: seq<byte>)
    requires k < |instances|
    ensures MarkedAll(instances[..k + 1], tail) == MarkedAll(instances[..k], tail) + Marked(instances[k], tail)
  {
    assert instances[..k + 1][..k] == instances[..k];
  }

  lemma {:induction false} MarkedGrows(instances: seq<seq<Node>>, k: nat, tail: seq<byte>)
    requires k <= |instances|
    ensures |MarkedAll(instances[..k], tail)| <= |MarkedAll(instances, tail)|
    decreases |instances| - k
  {
    hide MarkedAll, Marked;
    if k < |instances| {
      MarkedSnoc(instances, k, tail);
      MarkedGrows(instances, k + 1, tail);
    } else {
      assert instances[..k] == instances;
    }
  }

  lemma NothingMarked(instances: seq<seq<Node>>, tail: seq<byte>)
    ensures MarkedAll(instances[..0], tail) == []
  {
  }

  /** The second path is put behind every instance of the first, with its own end node and with one more behind that.
      What is written must fit into the memory, which the code takes for granted. */
  method AppendDevicePath(mem: seq<byte>, src1: Position, src2: Position, room: bool,
                          ghost a: seq<Node>, ghost b: seq<Node>)
    returns (dst: array?<byte>)
    requires src1.Some? || src2.Some?
    requires src1.Some? ==> Path(a) && Stands(mem, src1.at, a)
    requires src2.Some? ==> Path(b) && Stands(mem, src2.at, b)
    requires src1.Some? && src2.Some? ==> JoinFits(a, b)
    ensures dst == null <==> !room
    ensures dst != null ==> fresh(dst)
    ensures dst != null && src1.Null? ==> dst[..] == MeasuredBytes(b)
    ensures dst != null && src2.Null? ==> dst[..] == MeasuredBytes(a)
    ensures dst != null && src1.Some? && src2.Some? ==>
      && dst.Length == Allocated(a, b) && Walked(a) != []
      && var j := Joined(Walked(a), MeasuredBytes(b));
         |j| <= dst.Length && dst[..|j|] == j
  {
    hide Path, Stands, EncodeAll, Encode, Walked, Stop, MeasuredSize, MarkedAll, Marked;
    if src1.Null? {
      dst := DuplicateDevicePath(mem, src2.at, room, b);
      return;
    }
    if src2.Null? {
      dst := DuplicateDevicePath(mem, src1.at, room, a);
      return;
    }
    var src1Size := DevicePathSize(mem, src1.at, a);
    var src1Inst := DevicePathInstanceCount(mem, src1, a);
    var src2Size := DevicePathSize(mem, src2.at, b);
    PathNonEmpty(a);
    PathNonEmpty(b);
    MeasuredShort(b);
    StandsFacts(mem, src2.at, b);
    ghost var tail, ws := MeasuredBytes(b), Walked(a);
    var second := mem[src2.at..src2.at + src2Size];
    assert second == tail;
    assert src1Size * src1Inst >= 0 by {
      Product(src1Size, src1Inst);
    }
    if !room {
      return null;
    }
    dst := new byte[src1Size * src1Inst + src2Size];
    var dstPos: nat := 0;
    var devPath := src1;
    ghost var k, rest := 0, a;
    NothingMarked(ws, tail);
    NoneWalked();
    WalkedSome(a);
    while devPath.Some?
      invariant devPath.Some? ==> Path(rest) && Stands(mem, devPath.at, rest)
      invariant devPath.Null? ==> rest == []
      invariant k <= |ws| && ws[k..] == Walked(rest)
      invariant dstPos == |MarkedAll(ws[..k], tail)| <= dst.Length
      invariant dst[..dstPos] == MarkedAll(ws[..k], tail)
      invariant k > 0 ==> dstPos >= NODE_HEADER_SIZE
      decreases |rest|, devPath.Some?
    {
      var at := devPath.at;
      var next, size, wellFormed := DevicePathInstance(mem, at, rest);
      WalkedCons(rest);
      assert ws[k..][0] == ws[k] == rest[..Stop(rest)];
      MarkedSnoc(ws, k, tail);
      MarkedGrows(ws, k + 1, tail);
      dstPos := CopyInstance(dst, dstPos, mem[at..at + size], second, ws[k]);
      assert ws[k..][1..] == ws[k + 1..];
      k := k + 1;
      rest := if next.Some? then rest[Stop(rest) + 1..] else [];
      devPath := next;
    }
    assert k == |ws| && ws[..k] == ws;
    dstPos := dstPos - NODE_HEADER_SIZE;
    ghost var before := dst[..];
    CopyMem(dst, dstPos, Encode(EndNode(END_ENTIRE_SUBTYPE)));
    assert dst[..dstPos] == before[..dstPos] == MarkedAll(ws, tail)[..dstPos];
  }

  lemma WalkedSome(ns: seq<Node>)
    requires Path(ns)
    ensures Stop(ns) < |ns| && Walked(ns) != []
  {
    hide Stop;
    BehindStop(ns);
    WalkedCons(ns);
  }

  /** One instance, the second path and an end node, behind what is there already. */
  method CopyInstance(dst: array<byte>, dstPos: nat, instance: seq<byte>, second: seq<byte>, ghost nodes: seq<Node>)
    returns (next: nat)
    requires instance == EncodeAll(nodes)
    requires dstPos + |Marked(nodes, second)| <= dst.Length
    modifies dst
    ensures next == dstPos + |Marked(nodes, second)|
    ensures dst[..next] == old(dst[..dstPos]) + Marked(nodes, second)
  {
    hide EncodeAll, Encode;
    next := CopyBehind(dst, dstPos, instance);
    next := CopyBehind(dst, next, second);
    next := CopyBehind(dst, next, Encode(EndNode(END_INSTANCE_SUBTYPE)));
  }

  method CopyBehind(dst: array<byte>, at: nat, src: seq<byte>) returns (next: nat)
    requires at + |src| <= dst.Length
    modifies dst
    ensures next == at + |src| && dst[..next] == old(dst[..at]) + src
  {
    CopyMem(dst, at, src);
    next := at + |src|;
    assert dst[at..next] == src && dst[..at] == old(dst[..at]);
  }

  // ---- Whether it fits ----

  function SizeOf(instances: seq<seq<Node>>): nat {
    if instances == [] then 0 else |EncodeAll(instances[0])| + SizeOf(instances[1..])
  }

  lemma {:induction false} SizeSnoc(instances: seq<seq<Node>>, x: seq<Node>)
    ensures SizeOf(instances + [x]) == SizeOf(instances) + |EncodeAll(x)|
  {
    hide EncodeAll;
    if instances != [] {
      assert (instances + [x])[1..] == instances[1..] + [x];
      SizeSnoc(instances[1..], x);
    }
  }

  lemma {:induction false} MarkedSize(instances: seq<seq<Node>>, tail: seq<byte>)
    ensures |MarkedAll(instances, tail)| == SizeOf(instances) + |instances| * (|tail| + NODE_HEADER_SIZE)
    decreases |instances|
  {
    hide EncodeAll, SizeOf, Marked;
    if instances == [] {
      assert SizeOf([]) == 0 by {
        NoSize();
      }
    } else {
      var init, x := instances[..|instances| - 1], instances[|instances| - 1];
      assert instances == init + [x];
      MarkedSize(init, tail);
      SizeSnoc(init, x);
      assert |instances| * (|tail| + NODE_HEADER_SIZE)
          == |init| * (|tail| + NODE_HEADER_SIZE) + (|tail| + NODE_HEADER_SIZE);
    }
  }

  lemma NoSize()
    ensures SizeOf([]) == 0
  {
  }

  /** All end nodes consist of a header only. */
  predicate BareEnds(ns: seq<Node>) {
    forall n | n in ns && IsEndType(n) :: n.body == []
  }

  lemma {:induction false} InstanceSizes(a: seq<Node>)
    requires Path(a) && BareEnds(a)
    ensures |EncodeAll(a)| == SizeOf(Instances(a)) + |Instances(a)| * NODE_HEADER_SIZE
    ensures Instances(a) != []
    decreases |a|
  {
    hide Path, EncodeAll, Instances, FirstEnd;
    PathHasEnd(a);
    InstancesCons(a);
    var k := FirstEnd(a);
    var first, after := a[..k], a[k + 1..];
    assert a[k] in a && a[k].body == [];
    WalkStep(a, k);
    EncodeAllSplit(a, k + 1);
    assert Instances(a)[0] == first && Instances(a)[1..] == Instances(after);
    if k < |a| - 1 {
      PathDrop(a, k + 1);
      assert forall n | n in after :: n in a;
      InstanceSizes(after);
    } else {
      assert after == [];
      assert EncodeAll([]) == [] by {
        NothingEncoded();
      }
    }
  }

  lemma NothingEncoded()
    ensures EncodeAll([]) == []
  {
  }

  /** What is written fits exactly if the first path has one instance only or is at least as long as the second. */
  lemma JoinFitsIff(a: seq<Node>, b: seq<Node>)
    requires Path(a) && KnownEnds(a) && BareEnds(a) && ShortInstances(a) && Path(b)
    ensures JoinFits(a, b) <==> |Instances(a)| == 1 || MeasuredSize(b) <= MeasuredSize(a)
  {
    hide Path, EncodeAll, Instances, Walked, MarkedAll, ShortInstances, KnownEnds, MeasuredSize;
    ShortWalked(a);
    InstanceSizes(a);
    MarkedSize(Instances(a), MeasuredBytes(b));
    PathNonEmpty(a);
    PathNonEmpty(b);
    assert a[|a| - 1] in a && BareEnd(a);
    MeasuredShort(a);
    Compared(|Instances(a)|, MeasuredSize(a), MeasuredSize(b), SizeOf(Instances(a)));
  }

  lemma Compared(n: nat, x: nat, y: nat, sum: nat)
    requires n > 0 && x == sum + n * NODE_HEADER_SIZE
    ensures sum + n * (y + NODE_HEADER_SIZE) <= x * n + y <==> n == 1 || y <= x
  {
    Times(n, y, NODE_HEADER_SIZE);
    Times(x, n - 1, 1);
    Times(y, n - 1, 1);
    if y <= x {
      MulMonotone(n - 1, y, x);
    } else {
      MulMonotone(n - 1, x + 1, y);
      Times(n - 1, x, 1);
    }
  }

  lemma Times(m: nat, x: nat, y: nat)
    ensures m * (x + y) == m * x + m * y && m * x == x * m
  {
  }

  // ---- What the result is ----

  lemma {:induction false} MarkedFront(instances: seq<seq<Node>>, tail: seq<byte>)
    requires instances != []
    ensures var front := EncodeAll(instances[0]) + tail;
      && |front| + NODE_HEADER_SIZE <= |MarkedAll(instances, tail)|
      && MarkedAll(instances, tail)[..|front|] == front
    decreases |instances|
  {
    hide MarkedAll, Marked, EncodeAll;
    var k := |instances| - 1;
    assert instances[..k + 1] == instances;
    MarkedSnoc(instances, k, tail);
    var front, last := EncodeAll(instances[0]) + tail, Marked(instances[k], tail);
    if k == 0 {
      NothingMarked(instances, tail);
      MarkedStart(instances[0], tail);
      assert [] + last == last;
    } else {
      MarkedFront(instances[..k], tail);
      assert instances[..k][0] == instances[0];
      StillInFront(front, MarkedAll(instances[..k], tail), last);
    }
  }

  lemma StillInFront(front: seq<byte>, s: seq<byte>, t: seq<byte>)
    requires |front| <= |s| && s[..|front|] == front
    ensures (s + t)[..|front|] == front
  {
  }

  lemma MarkedStart(instance: seq<Node>, tail: seq<byte>)
    ensures var front := EncodeAll(instance) + tail;
      |Marked(instance, tail)| == |front| + NODE_HEADER_SIZE && Marked(instance, tail)[..|front|] == front
  {
    hide EncodeAll, Encode;
  }

  /** A walker finds the first instance with the second path behind it, and nothing of the other instances. */
  lemma JoinedPath(a: seq<Node>, b: seq<Node>)
    requires Path(a) && Path(b) && BareEnd(b)
    ensures Walked(a) != []
    ensures Path(Walked(a)[0] + b)
    ensures Stands(Joined(Walked(a), MeasuredBytes(b)), 0, Walked(a)[0] + b)
  {
    AllMeasured(b);
    hide Path, Stands, EncodeAll, Walked, Stop, Joined, MeasuredBytes;
    WalkedSome(a);
    WalkedCons(a);
    var x := a[..Stop(a)];
    assert Walked(a)[0] == x;
    FrontPath(a, Stop(a), b);
    PathNonEmpty(x + b);
    EncodeAllConcat(x, b);
    JoinedFront(Walked(a), EncodeAll(b));
    StandsMake(Joined(Walked(a), EncodeAll(b)), 0, x + b);
  }

  lemma AllMeasured(b: seq<Node>)
    requires Path(b) && BareEnd(b)
    ensures MeasuredBytes(b) == EncodeAll(b)
  {
    MeasuredShort(b);
  }

  lemma JoinedFront(instances: seq<seq<Node>>, tail: seq<byte>)
    requires instances != []
    ensures var front := EncodeAll(instances[0]) + tail;
      |front| <= |Joined(instances, tail)| && Joined(instances, tail)[0..|front|] == front
  {
    hide EncodeAll, Encode, MarkedAll;
    MarkedFront(instances, tail);
    var all, front := MarkedAll(instances, tail), EncodeAll(instances[0]) + tail;
    assert all[..|all| - NODE_HEADER_SIZE][..|front|] == front;
  }

  lemma FrontPath(a: seq<Node>, k: nat, b: seq<Node>)
    requires Path(a) && k <= FirstEnd(a) && k <= |a| && Path(b)
    ensures Path(a[..k] + b)
  {
    assert forall i | 0 <= i < k :: !IsEnd(a[i]);
    hide FirstEnd, IsEnd, ValidNode;
    assert AllValid(a[..k]) by {
      assert forall n | n in a[..k] :: n in a;
    }
    PathBehind(a[..k], b);
  }

  lemma PathBehind(x: seq<Node>, b: seq<Node>)
    requires Path(b) && AllValid(x) && forall i | 0 <= i < |x| :: !IsEnd(x[i])
    ensures Path(x + b)
  {
    hide IsEnd, ValidNode;
    var r := x + b;
    assert r[|r| - 1] == b[|b| - 1];
    forall i | 0 <= i < |r| - 1
      ensures !IsEnd(r[i])
    {
      assert r[i] == if i < |x| then x[i] else b[i - |x|];
    }
  }

  /** What is promised: b behind every instance. */
  function Promised(instances: seq<seq<Node>>, b: seq<Node>): (r: seq<Node>)
    requires instances != [] && b != []
    ensures r != []
  {
    if |instances| == 1 then instances[0] + b
    else Append(instances[0] + b, Promised(instances[1..], b))
  }

  function EachBefore(instances: seq<seq<Node>>, b: seq<Node>): seq<seq<Node>> {
    if instances == [] then [] else Instances(instances[0] + b) + EachBefore(instances[1..], b)
  }

  /** The promised path has, for every instance, the instances of that one with b behind it. */
  lemma {:induction false} PromisedInstances(instances: seq<seq<Node>>, b: seq<Node>)
    requires instances != [] && Path(b)
    requires forall x | x in instances :: Path(x + b)
    ensures Instances(Promised(instances, b)) == EachBefore(instances, b)
  {
    hide Instances, Path, Append;
    PathNonEmpty(b);
    assert instances[0] in instances;
    if |instances| == 1 {
      assert EachBefore(instances[1..], b) == [];
    } else {
      assert forall x | x in instances[1..] :: x in instances;
      AppendInstances(instances[0] + b, Promised(instances[1..], b));
      PromisedInstances(instances[1..], b);
    }
  }

  /** Put behind nodes that end no instance, a path's first instance becomes longer, and the others stay. */
  lemma InstancesBehind(x: seq<Node>, b: seq<Node>)
    requires Path(b) && forall n | n in x :: !IsEndType(n)
    ensures Instances(b) != []
    ensures Instances(x + b) == [x + Instances(b)[0]] + Instances(b)[1..]
  {
    hide Path, Instances, FirstEnd, IsEndType;
    PathHasEnd(b);
    InstancesUnfold(b);
    var k := FirstEnd(b);
    var r := x + b;
    FirstEndUnique(r, |x| + k);
    InstancesUnfold(r);
    assert r[..|x| + k] == x + b[..k];
    assert r[|x| + k + 1..] == b[k + 1..];
  }

  lemma {:induction false} WalkedPaths(a: seq<Node>, b: seq<Node>)
    requires Path(a) && Path(b)
    ensures forall x | x in Walked(a) :: Path(x + b) && forall n | n in x :: !IsEndType(n)
    decreases |a|
  {
    var k := Stop(a);
    assert forall i | 0 <= i < k :: !IsEndType(a[i]);
    hide Path, Walked, Stop, IsEndType, FirstEnd;
    WalkedSome(a);
    WalkedCons(a);
    FrontPath(a, k, b);
    BehindStop(a);
    assert forall n | n in a[..k] :: !IsEndType(n);
    if a[k].sub != END_ENTIRE_SUBTYPE {
      WalkedPaths(a[k + 1..], b);
    }
  }

  /** The operation keeps its promise exactly if the first path has one instance. */
  lemma AppendsToEachIff(a: seq<Node>, b: seq<Node>, found: seq<Node>)
    requires Path(a) && Path(b) && BareEnd(b)
    requires Walked(a) != [] && Path(found) && Stands(Joined(Walked(a), MeasuredBytes(b)), 0, found)
    ensures found == Promised(Walked(a), b) <==> |Walked(a)| == 1
  {
    hide Path, Stands, EncodeAll, Encode, Walked, MarkedAll, Joined, MeasuredBytes;
    JoinedPath(a, b);
    PathUnique(Joined(Walked(a), MeasuredBytes(b)), 0, found, Walked(a)[0] + b);
    PathNonEmpty(b);
  }
}
