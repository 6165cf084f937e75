/** Relocation tables written byte by byte, as a linker writes them (section 6.6 of the Microsoft PE/COFF
    Specification), and what relocating an image with such a table does to each of its slots. */
module RelocationTable {
  import opened Bytes
  import opened Relocation
  import opened RelocationLaws

  /** One entry: a type of four bits and an offset of twelve bits in the block's page. */
  datatype Entry = Entry(kind: nat, off: nat)

  datatype Block = Block(page: nat, entries: seq<Entry>)

  predicate ValidEntry(e: Entry) {
    e.kind < 0x10 && e.off < 0x1000
  }

  predicate ValidBlock(b: Block) {
    b.page < TWO32 && 8 + 2 * |b.entries| < TWO32 && forall e | e in b.entries :: ValidEntry(e)
  }

  // ---- The bytes ----

  /** The type stands in the upper four bits of the second byte. */
  function EntryBytes(e: Entry): (s: seq<byte>)
    requires ValidEntry(e)
    ensures |s| == 2
  {
    [(e.off % 0x100) as byte, (e.kind * 0x10 + e.off / 0x100) as byte]
  }

  function EntriesBytes(es: seq<Entry>): (s: seq<byte>)
    requires forall e | e in es :: ValidEntry(e)
    ensures |s| == 2 * |es|
  {
    if es == [] then [] else EntryBytes(es[0]) + EntriesBytes(es[1..])
  }

  function WordBytes(v: nat): (s: seq<byte>)
    ensures |s| == 4
  {
    [(v % 0x100) as byte, (v / 0x100 % 0x100) as byte, (v / 0x1_0000 % 0x100) as byte, (v / 0x100_0000 % 0x100) as byte]
  }

  /** A block: the page's address, the block's own size, and the entries. */
  function BlockBytes(b: Block): (s: seq<byte>)
    requires ValidBlock(b)
    ensures |s| == 8 + 2 * |b.entries|
  {
    WordBytes(b.page) + WordBytes(8 + 2 * |b.entries|) + EntriesBytes(b.entries)
  }

  function TableBytes(bs: seq<Block>): seq<byte>
    requires forall b | b in bs :: ValidBlock(b)
  {
    if bs == [] then [] else BlockBytes(bs[0]) + TableBytes(bs[1..])
  }

  /** The fixups that the entries ask for, in order. */
  function BlockFixes(page: nat, es: seq<Entry>): (fs: seq<Fix>)
    ensures |fs| == |es|
  {
    if es == [] then [] else [Fix(page + es[0].off, es[0].kind)] + BlockFixes(page, es[1..])
  }

  function TableFixes(bs: seq<Block>): seq<Fix> {
    if bs == [] then [] else BlockFixes(bs[0].page, bs[0].entries) + TableFixes(bs[1..])
  }

  /** Those in front of the first one of an unknown type. */
  function KnownFixes(fs: seq<Fix>): seq<Fix> {
    if fs == [] || !Supported(fs[0].kind) then [] else [fs[0]] + KnownFixes(fs[1..])
  }

  function PlanOf(fs: seq<Fix>): Plan {
    Plan(KnownFixes(fs), AllSupported(fs))
  }

  lemma {:induction false} KnownConcat(a: seq<Fix>, b: seq<Fix>)
    ensures PlanOf(a + b) == Then(PlanOf(a), PlanOf(b))
  {
    hide Supported;
    if a == [] {
      assert a + b == b;
    } else {
      assert (a + b)[1..] == a[1..] + b && (a + b)[0] == a[0];
      KnownConcat(a[1..], b);
      SupportedCons(a);
      SupportedCons(a + b);
    }
  }

  lemma SupportedCons(fs: seq<Fix>)
    requires fs != []
    ensures AllSupported(fs) <==> Supported(fs[0].kind) && AllSupported(fs[1..])
  {
    hide Supported;
    if AllSupported(fs) {
      assert forall i | 0 <= i < |fs| - 1 :: fs[1..][i] == fs[i + 1];
    }
    if Supported(fs[0].kind) && AllSupported(fs[1..]) {
      assert forall i | 1 <= i < |fs| :: fs[i] == fs[1..][i - 1];
    }
  }

  lemma {:induction false} AllKnown(fs: seq<Fix>)
    ensures AllSupported(fs) ==> KnownFixes(fs) == fs
  {
    hide Supported;
    if fs != [] {
      SupportedCons(fs);
      AllKnown(fs[1..]);
      assert [fs[0]] + fs[1..] == fs;
    }
  }

  // ---- Reading them ----

  lemma Read16Bytes(s: seq<byte>, at: nat)
    requires at + 2 <= |s|
    ensures Read16(s, at) == s[at] as nat + 0x100 * s[at + 1] as nat
  {
    var t := s[at..at + 2];
    assert FromLE(t[1..]) == t[1] as nat;
  }

  lemma Read32Bytes(s: seq<byte>, at: nat)
    requires at + 4 <= |s|
    ensures Read32(s, at) == s[at] as nat + 0x100 * s[at + 1] as nat + 0x1_0000 * s[at + 2] as nat
                             + 0x100_0000 * s[at + 3] as nat
  {
    var t := s[at..at + 4];
    assert FromLE(t) == t[0] as nat + 0x100 * FromLE(t[1..]);
    assert FromLE(t[1..]) == t[1] as nat + 0x100 * FromLE(t[2..]) by {
      assert t[1..][1..] == t[2..];
    }
    assert FromLE(t[2..]) == t[2] as nat + 0x100 * FromLE(t[3..]) by {
      assert t[2..][1..] == t[3..];
    }
    assert FromLE(t[3..]) == t[3] as nat;
  }

  /** Which bits of an entry's two bytes are the offset and which are the type. */
  lemma EntryOfBytes(img: seq<byte>, va: nat, at: nat, kind: nat, off: nat)
    requires at + 2 <= |img| && kind < 0x10 && off < 0x1000
    requires img[at] as nat == off % 0x100 && img[at + 1] as nat == kind * 0x10 + off / 0x100
    ensures EntryFix(img, va, at) == Fix(va + off, kind)
  {
    hide Read16;
    Read16Bytes(img, at);
    assert Read16(img, at) == kind * 0x1000 + off;
  }

  lemma WordRead(img: seq<byte>, at: nat, v: nat)
    requires at + 4 <= |img| && v < TWO32 && img[at..at + 4] == WordBytes(v)
    ensures Read32(img, at) == v
  {
    hide Read32;
    Read32Bytes(img, at);
    var t := img[at..at + 4];
    assert img[at] == t[0] && img[at + 1] == t[1] && img[at + 2] == t[2] && img[at + 3] == t[3];
    FourBytes(v);
  }

  lemma FourBytes(v: nat)
    requires v < TWO32
    ensures v == v % 0x100 + 0x100 * (v / 0x100 % 0x100) + 0x1_0000 * (v / 0x1_0000 % 0x100)
                 + 0x100_0000 * (v / 0x100_0000 % 0x100)
  {
    var a, b, c := v / 0x100, v / 0x1_0000, v / 0x100_0000;
    assert v == 0x100 * a + v % 0x100;
    assert a == 0x100 * b + a % 0x100;
    assert b == 0x100 * c + b % 0x100;
    assert c < 0x100;
  }

  lemma {:induction false} EntriesRead(img: seq<byte>, page: nat, at: nat, es: seq<Entry>)
    requires forall e | e in es :: ValidEntry(e)
    requires at + 2 * |es| <= |img| && img[at..at + 2 * |es|] == EntriesBytes(es)
    ensures EntriesIn(at, at + 2 * |es|, |img|)
    ensures EntriesPlan(img, page, at, at + 2 * |es|) == PlanOf(BlockFixes(page, es))
    decreases |es|
  {
    hide EntryFix, Supported;
    var end := at + 2 * |es|;
    if es != [] {
      var e, t := es[0], img[at..end];
      assert e in es && forall x | x in es[1..] :: x in es;
      assert t[0] == EntryBytes(e)[0] && t[1] == EntryBytes(e)[1] && t[2..] == EntriesBytes(es[1..]);
      assert img[at] == t[0] && img[at + 1] == t[1] && img[at + 2..end] == t[2..];
      EntryOfBytes(img, page, at, e.kind, e.off);
      EntriesRead(img, page, at + 2, es[1..]);
      var fs := BlockFixes(page, es);
      assert fs[0] == Fix(page + e.off, e.kind) && fs[1..] == BlockFixes(page, es[1..]);
      SupportedCons(fs);
    }
  }

  lemma BlockRead(img: seq<byte>, at: nat, b: Block)
    requires ValidBlock(b) && at + |BlockBytes(b)| <= |img| && img[at..at + |BlockBytes(b)|] == BlockBytes(b)
    ensures Read32(img, at) == b.page && Read32(img, at + 4) == |BlockBytes(b)|
    ensures EntriesIn(at + 8, at + |BlockBytes(b)|, |img|)
    ensures EntriesPlan(img, b.page, at + 8, at + |BlockBytes(b)|) == PlanOf(BlockFixes(b.page, b.entries))
  {
    hide Read32, WordBytes, EntriesBytes, EntriesPlan, PlanOf, BlockFixes;
    var n := |BlockBytes(b)|;
    var s := img[at..at + n];
    SliceOfSlice(img, at, at + n, 0, 4);
    SliceOfSlice(img, at, at + n, 4, 8);
    SliceOfSlice(img, at, at + n, 8, n);
    assert s[0..4] == WordBytes(b.page) && s[4..8] == WordBytes(n) && s[8..n] == EntriesBytes(b.entries);
    WordRead(img, at, b.page);
    WordRead(img, at + 4, n);
    EntriesRead(img, b.page, at + 8, b.entries);
  }

  /** The plan of a written table is made of its entries, block by block, up to the first one of an unknown type. */
  lemma {:induction false} TableRead(img: seq<byte>, at: nat, bs: seq<Block>, end: nat)
    requires forall b | b in bs :: ValidBlock(b) && b.page <= |img|
    requires |img| < TWO31 && end + 1 == at + |TableBytes(bs)|
    requires end < |img| && img[at..end + 1] == TableBytes(bs)
    ensures Table(img, at, end) && TablePlan(img, at, end) == PlanOf(TableFixes(bs))
    ensures TableEnd(img, at, end) <= if bs == [] then at else end + 1
    decreases |bs|
  {
    hide PlanOf, EntriesPlan, Read32, BlockBytes, BlockFixes, ValidBlock, Then, Table, TablePlan, TableEnd, EntriesEnd;
    if bs == [] {
      NothingPlanned();
      NothingRead(img, at, end);
    } else {
      var b, n := bs[0], |BlockBytes(bs[0])|;
      assert b in bs && forall x | x in bs[1..] :: x in bs;
      var s := img[at..end + 1];
      assert s[0..n] == BlockBytes(b) && s[n..] == TableBytes(bs[1..]);
      SliceOfSlice(img, at, end + 1, 0, n);
      SliceOfSlice(img, at, end + 1, n, |s|);
      BlockRead(img, at, b);
      SizeOfBlock(b);
      TableRead(img, at + n, bs[1..], end);
      FirstRead(img, at, at + n, b.page, end);
      KnownConcat(BlockFixes(b.page, b.entries), TableFixes(bs[1..]));
    }
  }

  lemma NothingRead(img: seq<byte>, at: nat, end: nat)
    requires at >= end
    ensures Table(img, at, end) && TablePlan(img, at, end) == Plan([], true) && TableEnd(img, at, end) == at
  {
  }

  /** A block that is accepted, and what follows it. */
  lemma FirstRead(img: seq<byte>, at: nat, next: nat, page: nat, end: nat)
    requires at + 8 <= next <= end + 1 && end < |img| < TWO31 && page <= |img| && (next - at) % 2 == 0
    requires Read32(img, at) == page && Read32(img, at + 4) == next - at
    requires Table(img, next, end) && TableEnd(img, next, end) <= end + 1
    ensures EntriesIn(at + 8, next, |img|) && Table(img, at, end) && TableEnd(img, at, end) <= end + 1
    ensures TablePlan(img, at, end) == Then(EntriesPlan(img, page, at + 8, next), TablePlan(img, next, end))
  {
    hide EntriesPlan, Then, Read32;
    assert BlockAccepted(img, at);
  }

  lemma NothingPlanned()
    ensures PlanOf([]) == Plan([], true)
  {
  }

  lemma SizeOfBlock(b: Block)
    requires ValidBlock(b)
    ensures |BlockBytes(b)| == 8 + 2 * |b.entries|
  {
  }

  // ---- Relocating with them ----

  function NumberAt(s: seq<byte>, at: nat, n: nat): nat
    requires at + n <= |s|
  {
    FromLE(s[at..at + n])
  }

  /** What becomes of a slot when an image that was linked for one address is loaded at another: types 2, 3 and 10 are
      numbers of 16, 32 and 64 bits to which the distance is added, type 1 gets the upper half of its low 32 bits. */
  predicate SlotMoved(before: seq<byte>, after: seq<byte>, f: Fix, linkedAt: nat, loadedAt: nat) {
    var d, at := loadedAt - linkedAt, f.addr;
    && |before| == |after|
    && (f.kind == 1 ==>
         at + 2 <= |after| && NumberAt(after, at, 2) == (NumberAt(before, at, 2) + d % TWO32 / TWO16) % TWO16)
    && (f.kind == 2 ==> at + 2 <= |after| && NumberAt(after, at, 2) == (NumberAt(before, at, 2) + d) % TWO16)
    && (f.kind == 3 ==> at + 4 <= |after| && NumberAt(after, at, 4) == (NumberAt(before, at, 4) + d) % TWO32)
    && (f.kind == 10 ==> at + 8 <= |after| && NumberAt(after, at, 8) == (NumberAt(before, at, 8) + d) % TWO64)
  }

  lemma SlotsMove(img: seq<byte>, fs: seq<Fix>, linkedAt: nat, loadedAt: nat, i: nat)
    requires AllInBounds(fs, |img|) && Disjoint(fs) && i < |fs|
    ensures SlotMoved(img, ApplyAll(img, fs, Adjustment(linkedAt, loadedAt)), fs[i], linkedAt, loadedAt)
  {
    hide FromLE, ToLE, ApplyAll, Disjoint, Share, Adjustment, AllInBounds, SlotMoved, SlotBytes;
    assert InBounds(fs[i], |img|) by {
      BoundsAt(fs, |img|, i);
    }
    SlotRelocated(img, fs, Adjustment(linkedAt, loadedAt), i);
    MovedSlot(img, ApplyAll(img, fs, Adjustment(linkedAt, loadedAt)), fs[i], linkedAt, loadedAt);
  }

  lemma MovedSlot(before: seq<byte>, after: seq<byte>, f: Fix, linkedAt: nat, loadedAt: nat)
    requires |before| == |after| && InBounds(f, |before|)
    requires SlotBytes(after, f)
          == ToLE(FromLE(SlotBytes(before, f)) + Share(f.kind, Adjustment(linkedAt, loadedAt)), Width(f.kind))
    ensures SlotMoved(before, after, f, linkedAt, loadedAt)
  {
    hide FromLE, ToLE, Share, Adjustment, Pow256;
    if Width(f.kind) > 0 {
      var v := FromLE(SlotBytes(before, f));
      FromToLE(v + Share(f.kind, Adjustment(linkedAt, loadedAt)), Width(f.kind));
      WordSizes();
      ShareMoves(f.kind, v, linkedAt, loadedAt);
    }
  }

  lemma ShareMoves(kind: nat, v: nat, linkedAt: nat, loadedAt: nat)
    ensures var d, share := loadedAt - linkedAt, Share(kind, Adjustment(linkedAt, loadedAt));
      && (kind == 1 ==> share == d % TWO32 / TWO16)
      && (kind == 2 ==> (v + share) % TWO16 == (v + d) % TWO16)
      && (kind == 3 ==> (v + share) % TWO32 == (v + d) % TWO32)
      && (kind == 10 ==> (v + share) % TWO64 == (v + d) % TWO64)
  {
    var d := loadedAt - linkedAt;
    ModDivides(d, TWO16);
    ModDivides(d, TWO32);
    ModAbsorbed(v, d, TWO16);
    ModAbsorbed(v, d, TWO32);
    ModAbsorbed(v, d, TWO64);
  }

  /** An image with a written table whose types are all known and whose slots are disjoint and away from the table: each
      slot moves by the distance between the two addresses, and no other byte changes. */
  method RelocateWritten(image: array<byte>, numberOfRvaAndSizes: nat, dirVA: nat, dirSize: nat, linkedAt: nat,
                         loadedAt: nat, ghost bs: seq<Block>)
    returns (status: Status)
    requires image.Length < TWO31 && linkedAt < TWO64 && loadedAt < TWO64 && numberOfRvaAndSizes > 5
    requires bs != [] && forall b | b in bs :: ValidBlock(b) && b.page <= image.Length
    requires dirSize == |TableBytes(bs)| && dirVA + dirSize <= image.Length
    requires image[dirVA..dirVA + dirSize] == TableBytes(bs)
    requires AllSupported(TableFixes(bs)) && Disjoint(TableFixes(bs))
    requires SlotsFree(TableFixes(bs), image.Length, dirVA, dirVA + dirSize)
    modifies image
    ensures status == Success
    ensures forall i | 0 <= i < |TableFixes(bs)| ::
      SlotMoved(old(image[..]), image[..], TableFixes(bs)[i], linkedAt, loadedAt)
    ensures forall k | 0 <= k < image.Length && OutsideSlots(TableFixes(bs), k) :: image[k] == old(image[k])
  {
    hide ApplyAll, Table, TablePlan, TableEnd, TableBytes, TableFixes, Disjoint, SlotMoved, Adjustment, AllSupported;
    ghost var img, fs := image[..], TableFixes(bs);
    assert img[dirVA..dirVA + dirSize] == TableBytes(bs);
    TableNotEmpty(bs);
    TableRead(img, dirVA, bs, dirVA + dirSize - 1);
    AllKnown(fs);
    assert (dirVA + dirSize - 1) % TWO32 == dirVA + dirSize - 1;
    status := RelocateCoff(image, numberOfRvaAndSizes, dirVA, dirSize, linkedAt, loadedAt);
    FreeInBounds(fs, |img|, dirVA, dirVA + dirSize);
    assert image[..] == ApplyAll(img, fs, Adjustment(linkedAt, loadedAt));
    forall i | 0 <= i < |fs|
      ensures SlotMoved(img, image[..], fs[i], linkedAt, loadedAt)
    {
      SlotsMove(img, fs, linkedAt, loadedAt, i);
    }
    forall k | 0 <= k < image.Length && OutsideSlots(fs, k)
      ensures image[..][k] == img[k]
    {
      ApplyAllOutside(img, fs, Adjustment(linkedAt, loadedAt), k);
    }
  }

  predicate OutsideSlots(fs: seq<Fix>, k: nat) {
    forall i | 0 <= i < |fs| :: !(fs[i].addr <= k < fs[i].addr + Width(fs[i].kind))
  }

  lemma TableNotEmpty(bs: seq<Block>)
    requires bs != [] && forall b | b in bs :: ValidBlock(b)
    ensures |TableBytes(bs)| >= 8
  {
    assert bs[0] in bs;
    SizeOfBlock(bs[0]);
  }
}
