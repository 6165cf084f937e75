/** Base relocation of a loaded PE image, in place (Microsoft PE/COFF Specification, section 6.6). */
module Relocation {
  import opened Bytes

  const IMAGE_DIRECTORY_ENTRY_BASERELOC := 5

  const REL_BASED_ABSOLUTE := 0
  const REL_BASED_HIGH := 1
  const REL_BASED_LOW := 2
  const REL_BASED_HIGHLOW := 3
  const REL_BASED_DIR64 := 10


  datatype Status = Success | Unsupported

  /** The loader's bounds check: an address may be at most the size. None is its null pointer. */
  datatype Address = Null | At(offset: nat)

  function ImageAddress(size: nat, address: nat): Address {
    if address > size then Null else At(address)
  }

  // ---- One fixup ----

  datatype Fix = Fix(addr: nat, kind: nat)

  predicate Supported(kind: nat) {
    kind in {REL_BASED_ABSOLUTE, REL_BASED_HIGH, REL_BASED_LOW, REL_BASED_HIGHLOW, REL_BASED_DIR64}
  }

  function Width(kind: nat): nat {
    if kind == REL_BASED_HIGH || kind == REL_BASED_LOW then 2
    else if kind == REL_BASED_HIGHLOW then 4
    else if kind == REL_BASED_DIR64 then 8
    else 0
  }

  /** The part of the 64-bit adjustment that a fixup of this kind adds. */
  function Share(kind: nat, adjust: nat): nat {
    if kind == REL_BASED_HIGH then adjust % TWO32 / TWO16
    else if kind == REL_BASED_LOW then adjust % TWO16
    else if kind == REL_BASED_HIGHLOW then adjust % TWO32
    else adjust % TWO64
  }

  predicate InBounds(f: Fix, size: nat) {
    Width(f.kind) > 0 ==> f.addr + Width(f.kind) <= size
  }

  function SlotBytes(img: seq<byte>, f: Fix): (s: seq<byte>)
    requires InBounds(f, |img|)
    ensures |s| == Width(f.kind)
  {
    if Width(f.kind) == 0 then [] else img[f.addr..f.addr + Width(f.kind)]
  }

  function ApplyFix(img: seq<byte>, f: Fix, adjust: nat): (r: seq<byte>)
    requires InBounds(f, |img|)
    ensures |r| == |img|
  {
    if Width(f.kind) == 0 then img
    else Overwrite(img, f.addr, ToLE(FromLE(SlotBytes(img, f)) + Share(f.kind, adjust), Width(f.kind)))
  }

  predicate AllInBounds(fs: seq<Fix>, size: nat) {
    forall i | 0 <= i < |fs| :: InBounds(fs[i], size)
  }

  /** The image after the fixups, first to last. */
  function ApplyAll(img: seq<byte>, fs: seq<Fix>, adjust: nat): (r: seq<byte>)
    requires AllInBounds(fs, |img|)
    ensures |r| == |img|
    decreases |fs|
  {
    if fs == [] then img else ApplyAll(ApplyFix(img, fs[0], adjust), fs[1..], adjust)
  }

  // ---- The relocation table ----

  /** What a table asks for: the fixups up to the first entry that is refused, and whether there is none. */
  datatype Plan = Plan(fixes: seq<Fix>, ok: bool)

  function Then(p: Plan, q: Plan): Plan {
    if p.ok then Plan(p.fixes + q.fixes, q.ok) else p
  }

  function EntryFix(img: seq<byte>, va: nat, at: nat): Fix
    requires at + 2 <= |img|
  {
    Fix(va + Read16(img, at) % 0x1000, Read16(img, at) / 0x1000)
  }

  /** The entries of two bytes from at on, up to the first that does not start before end, lie below limit. The last
      may reach one byte beyond end. */
  predicate EntriesIn(at: nat, end: nat, limit: nat) {
    EntriesEnd(at, end) <= limit
  }

  function EntriesEnd(at: nat, end: nat): nat {
    if at >= end then at else end + (end - at) % 2
  }

  function EntriesPlan(img: seq<byte>, va: nat, at: nat, end: nat): Plan
    requires EntriesIn(at, end, |img|)
    decreases end - at
  {
    if at >= end then Plan([], true)
    else if !Supported(EntryFix(img, va, at).kind) then Plan([], false)
    else Then(Plan([EntryFix(img, va, at)], true), EntriesPlan(img, va, at + 2, end))
  }

  /** Where the loader takes the image to end: it keeps the 32-bit size in a signed number, so the end of an image of
      2 GiB or more lies in front of it. */
  function ImageEnd(size: nat): (e: int)
    ensures e <= size
  {
    if size < TWO31 then size else size - TWO32
  }

  /** A block is refused when it leaves the image, as the loader sees it, or its page does. */
  predicate BlockAccepted(img: seq<byte>, at: nat)
    requires at + 8 <= |img|
  {
    at + Read32(img, at + 4) <= ImageEnd(|img|) && Read32(img, at) <= |img|
  }

  /** Blocks whose header and entries lie in the image follow one another up to the end of the directory; none that is
      accepted has size 0, which the loader would read over and over again. */
  predicate Table(img: seq<byte>, at: nat, end: nat)
    decreases |img| - at
  {
    at < end ==>
      && at + 8 <= |img|
      && (BlockAccepted(img, at) ==>
           var next := at + Read32(img, at + 4);
           at < next && EntriesIn(at + 8, next, |img|) && Table(img, next, end))
  }

  function TablePlan(img: seq<byte>, at: nat, end: nat): Plan
    requires Table(img, at, end)
    decreases |img| - at
  {
    if at >= end then Plan([], true)
    else if !BlockAccepted(img, at) then Plan([], false)
    else
      var next := at + Read32(img, at + 4);
      Then(EntriesPlan(img, Read32(img, at), at + 8, next), TablePlan(img, next, end))
  }

  /** Where the part of the table that is read ends. */
  function TableEnd(img: seq<byte>, at: nat, end: nat): (e: nat)
    requires Table(img, at, end)
    ensures at <= e
    ensures at < end ==> at + 8 <= e
    ensures at <= |img| ==> e <= |img|
    decreases |img| - at
  {
    if at >= end then at
    else if !BlockAccepted(img, at) then at + 8
    else
      var next := at + Read32(img, at + 4);
      var own, others := EntriesEnd(at + 8, next), TableEnd(img, next, end);
      if own > others then own else others
  }

  /** The fixups stay inside the image and away from the table that lists them. */
  predicate SlotsFree(fs: seq<Fix>, size: nat, at: nat, end: nat) {
    && AllInBounds(fs, size)
    && forall i | 0 <= i < |fs| && Width(fs[i].kind) > 0 ::
         fs[i].addr + Width(fs[i].kind) <= at || end <= fs[i].addr
  }

  // ---- Applying fixups one by one ----

  lemma {:induction false} ApplyAllConcat(img: seq<byte>, fs: seq<Fix>, gs: seq<Fix>, adjust: nat)
    requires AllInBounds(fs, |img|) && AllInBounds(gs, |img|)
    ensures AllInBounds(fs + gs, |img|)
    ensures ApplyAll(img, fs + gs, adjust) == ApplyAll(ApplyAll(img, fs, adjust), gs, adjust)
    decreases |fs|
  {
    hide ApplyFix, InBounds;
    if fs == [] {
      assert fs + gs == gs;
    } else {
      assert (fs + gs)[1..] == fs[1..] + gs;
      ApplyAllConcat(ApplyFix(img, fs[0], adjust), fs[1..], gs, adjust);
    }
  }

  predicate Agree(a: seq<byte>, b: seq<byte>, lo: nat, hi: nat)
    requires |a| == |b|
  {
    forall k | lo <= k < hi && k < |a| :: a[k] == b[k]
  }

  lemma ApplyFixOutside(img: seq<byte>, f: Fix, adjust: nat, k: nat)
    requires InBounds(f, |img|) && k < |img|
    requires !(f.addr <= k < f.addr + Width(f.kind))
    ensures ApplyFix(img, f, adjust)[k] == img[k]
  {
  }

  lemma {:induction false} ApplyAllOutside(img: seq<byte>, fs: seq<Fix>, adjust: nat, k: nat)
    requires AllInBounds(fs, |img|) && k < |img|
    requires forall i | 0 <= i < |fs| :: !(fs[i].addr <= k < fs[i].addr + Width(fs[i].kind))
    ensures ApplyAll(img, fs, adjust)[k] == img[k]
    decreases |fs|
  {
    hide ApplyFix, InBounds;
    if fs != [] {
      ApplyFixOutside(img, fs[0], adjust, k);
      ApplyAllOutside(ApplyFix(img, fs[0], adjust), fs[1..], adjust, k);
    }
  }

  lemma TableUntouched(img: seq<byte>, fs: seq<Fix>, adjust: nat, at: nat, end: nat)
    requires SlotsFree(fs, |img|, at, end)
    ensures Agree(ApplyAll(img, fs, adjust), img, at, end)
  {
    forall k | at <= k < end && k < |img|
      ensures ApplyAll(img, fs, adjust)[k] == img[k]
    {
      ApplyAllOutside(img, fs, adjust, k);
    }
  }

  lemma AgreeSlice(a: seq<byte>, b: seq<byte>, lo: nat, hi: nat, p: nat, q: nat)
    requires |a| == |b| && Agree(a, b, lo, hi) && lo <= p <= q <= hi && q <= |a|
    ensures a[p..q] == b[p..q]
  {
  }

  // ---- The relocation loops ----

  method ApplyInPlace(image: array<byte>, f: Fix, adjust: nat)
    requires InBounds(f, image.Length)
    modifies image
    ensures image[..] == ApplyFix(old(image[..]), f, adjust)
  {
    if Width(f.kind) > 0 {
      assert image[..][f.addr..f.addr + Width(f.kind)] == image[f.addr..f.addr + Width(f.kind)];
      var value := FromLE(image[f.addr..f.addr + Width(f.kind)]) + Share(f.kind, adjust);
      CopyMem(image, f.addr, ToLE(value, Width(f.kind)));
    }
  }

  lemma FirstEntry(img: seq<byte>, va: nat, at: nat, end: nat, adjust: nat, lo: nat, hi: nat, cur: seq<byte>)
    requires |cur| == |img|
    requires at < end && EntriesIn(at, end, |img|)
    requires SlotsFree(EntriesPlan(img, va, at, end).fixes, |img|, lo, hi)
    requires Supported(EntryFix(img, va, at).kind)
    ensures var f, rest := EntryFix(img, va, at), EntriesPlan(img, va, at + 2, end);
      && InBounds(f, |img|)
      && SlotsFree(rest.fixes, |img|, lo, hi)
      && AllInBounds(rest.fixes, |img|)
      && EntriesPlan(img, va, at, end).ok == rest.ok
      && Agree(ApplyFix(cur, f, adjust), cur, lo, hi)
      && ApplyAll(cur, EntriesPlan(img, va, at, end).fixes, adjust)
         == ApplyAll(ApplyFix(cur, f, adjust), rest.fixes, adjust)
  {
    var f, rest := EntryFix(img, va, at), EntriesPlan(img, va, at + 2, end);
    var fs := EntriesPlan(img, va, at, end).fixes;
    assert fs == [f] + rest.fixes;
    assert fs[0] == f && fs[1..] == rest.fixes;
    forall k | lo <= k < hi && k < |cur|
      ensures ApplyFix(cur, f, adjust)[k] == cur[k]
    {
      ApplyFixOutside(cur, f, adjust, k);
    }
    hide ApplyFix;
  }

  lemma NoEntryApplied(img: seq<byte>, va: nat, at: nat, end: nat, adjust: nat, cur: seq<byte>)
    requires EntriesIn(at, end, |img|) && |cur| == |img|
    requires at < end ==> !Supported(EntryFix(img, va, at).kind)
    ensures EntriesPlan(img, va, at, end) == Plan([], at >= end)
    ensures ApplyAll(cur, EntriesPlan(img, va, at, end).fixes, adjust) == cur
  {
  }

  /** The entries of one block. img is the image as it was when relocation started. */
  method ApplyBlock(image: array<byte>, ghost img: seq<byte>, va: nat, start: nat, end: nat, adjust: nat,
                    ghost lo: nat, ghost hi: nat)
    returns (status: Status)
    requires |img| == image.Length
    requires lo <= start && EntriesIn(start, end, hi) && hi <= |img|
    requires SlotsFree(EntriesPlan(img, va, start, end).fixes, |img|, lo, hi)
    requires Agree(image[..], img, lo, hi)
    modifies image
    ensures status.Success? <==> EntriesPlan(img, va, start, end).ok
    ensures image[..] == ApplyAll(old(image[..]), EntriesPlan(img, va, start, end).fixes, adjust)
    ensures Agree(image[..], img, lo, hi)
  {
    hide ApplyFix, ApplyAll, InBounds, Supported, FromLE, Width, SlotsFree, EntriesPlan;
    FreeInBounds(EntriesPlan(img, va, start, end).fixes, |img|, lo, hi);
    var reloc := start;
    ghost var goal := ApplyAll(image[..], EntriesPlan(img, va, start, end).fixes, adjust);
    while reloc < end
      invariant start <= reloc && EntriesIn(reloc, end, hi)
      invariant SlotsFree(EntriesPlan(img, va, reloc, end).fixes, |img|, lo, hi)
      invariant AllInBounds(EntriesPlan(img, va, reloc, end).fixes, |img|)
      invariant EntriesPlan(img, va, reloc, end).ok == EntriesPlan(img, va, start, end).ok
      invariant goal == ApplyAll(image[..], EntriesPlan(img, va, reloc, end).fixes, adjust)
      invariant Agree(image[..], img, lo, hi)
    {
      assert image[reloc..reloc + 2] == img[reloc..reloc + 2] by {
        AgreeSlice(image[..], img, lo, hi, reloc, reloc + 2);
        assert image[..][reloc..reloc + 2] == image[reloc..reloc + 2];
      }
      var entry := FromLE(image[reloc..reloc + 2]);
      var f := Fix(va + entry % 0x1000, entry / 0x1000);
      assert f == EntryFix(img, va, reloc);
      if !Supported(f.kind) {
        NoEntryApplied(img, va, reloc, end, adjust, image[..]);
        return Unsupported;
      }
      FirstEntry(img, va, reloc, end, adjust, lo, hi, image[..]);
      ApplyInPlace(image, f, adjust);
      reloc := reloc + 2;
    }
    NoEntryApplied(img, va, reloc, end, adjust, image[..]);
    return Success;
  }

  lemma FirstBlock(img: seq<byte>, at: nat, end: nat, adjust: nat, lo: nat, hi: nat, cur: seq<byte>)
    requires |cur| == |img|
    requires at < end && Table(img, at, end) && BlockAccepted(img, at)
    requires SlotsFree(TablePlan(img, at, end).fixes, |img|, lo, hi)
    ensures var next := at + Read32(img, at + 4);
      var block, rest := EntriesPlan(img, Read32(img, at), at + 8, next), TablePlan(img, next, end);
      && SlotsFree(block.fixes, |img|, lo, hi)
      && AllInBounds(block.fixes, |img|)
      && (if block.ok then
            && SlotsFree(rest.fixes, |img|, lo, hi)
            && AllInBounds(rest.fixes, |img|)
            && TablePlan(img, at, end).ok == rest.ok
            && ApplyAll(cur, TablePlan(img, at, end).fixes, adjust)
               == ApplyAll(ApplyAll(cur, block.fixes, adjust), rest.fixes, adjust)
          else TablePlan(img, at, end) == block)
  {
    hide InBounds, EntriesPlan, FromLE, ApplyAll, Width;
    var next := at + Read32(img, at + 4);
    var block, rest := EntriesPlan(img, Read32(img, at), at + 8, next), TablePlan(img, next, end);
    var fs := TablePlan(img, at, end).fixes;
    if block.ok {
      assert fs == block.fixes + rest.fixes;
      forall i | 0 <= i < |block.fixes|
        ensures block.fixes[i] == fs[i]
      {
      }
      forall i | 0 <= i < |rest.fixes|
        ensures rest.fixes[i] == fs[|block.fixes| + i]
      {
      }
      ApplyAllConcat(cur, block.fixes, rest.fixes, adjust);
    }
  }

  /** All blocks from start on, until last is reached. */
  method ApplyTable(image: array<byte>, start: nat, last: nat, adjust: nat) returns (status: Status)
    requires start <= image.Length && Table(image[..], start, last)
    requires SlotsFree(TablePlan(image[..], start, last).fixes, image.Length, start, TableEnd(image[..], start, last))
    modifies image
    ensures status.Success? <==> TablePlan(old(image[..]), start, last).ok
    ensures image[..] == ApplyAll(old(image[..]), TablePlan(old(image[..]), start, last).fixes, adjust)
    ensures Agree(image[..], old(image[..]), start, TableEnd(old(image[..]), start, last))
  {
    hide InBounds, SlotsFree, EntriesPlan, ApplyAll, FromLE, Table, TableEnd, TablePlan, BlockAccepted;
    var at := start;
    ghost var img := image[..];
    FreeInBounds(TablePlan(img, start, last).fixes, |img|, start, TableEnd(img, start, last));
    ghost var lo, hi := start, TableEnd(img, start, last);
    ghost var goal := ApplyAll(img, TablePlan(img, start, last).fixes, adjust);
    while at < last
      invariant lo <= at <= |img|
      invariant Table(img, at, last) && TableEnd(img, at, last) <= hi <= |img|
      invariant SlotsFree(TablePlan(img, at, last).fixes, |img|, lo, hi)
      invariant AllInBounds(TablePlan(img, at, last).fixes, |img|)
      invariant TablePlan(img, at, last).ok == TablePlan(img, start, last).ok
      invariant goal == ApplyAll(image[..], TablePlan(img, at, last).fixes, adjust)
      invariant Agree(image[..], img, lo, hi)
      decreases |img| - at
    {
      BlockFacts(img, at, last);
      assert image[at..at + 4] == img[at..at + 4] && image[at + 4..at + 8] == img[at + 4..at + 8] by {
        AgreeSlice(image[..], img, lo, hi, at, at + 4);
        AgreeSlice(image[..], img, lo, hi, at + 4, at + 8);
        assert image[..][at..at + 4] == image[at..at + 4] && image[..][at + 4..at + 8] == image[at + 4..at + 8];
      }
      var va, sizeOfBlock := FromLE(image[at..at + 4]), FromLE(image[at + 4..at + 8]);
      assert va == Read32(img, at) && sizeOfBlock == Read32(img, at + 4);
      var relocEnd := at + sizeOfBlock;
      if relocEnd > ImageEnd(image.Length) {
        NoFixups(img, at, last, adjust, image[..]);
        return Unsupported;
      }
      var fixupBase := ImageAddress(image.Length, va);
      if fixupBase.Null? {
        NoFixups(img, at, last, adjust, image[..]);
        return Unsupported;
      }
      FirstBlock(img, at, last, adjust, lo, hi, image[..]);
      status := ApplyBlock(image, img, va, at + 8, relocEnd, adjust, lo, hi);
      if status == Unsupported {
        return;
      }
      at := relocEnd;
    }
    NoFixups(img, at, last, adjust, image[..]);
    return Success;
  }

  lemma FreeInBounds(fs: seq<Fix>, size: nat, at: nat, end: nat)
    requires SlotsFree(fs, size, at, end)
    ensures AllInBounds(fs, size)
  {
  }

  lemma BlockFacts(img: seq<byte>, at: nat, end: nat)
    requires Table(img, at, end) && at < end
    ensures at + 8 <= TableEnd(img, at, end) && at + 8 <= |img|
    ensures var size, va := Read32(img, at + 4), Read32(img, at);
      && (BlockAccepted(img, at) <==> at + size <= ImageEnd(|img|) && va <= |img|)
      && (BlockAccepted(img, at) ==>
           && at < at + size <= |img| && Table(img, at + size, end)
           && EntriesIn(at + 8, at + size, TableEnd(img, at, end)) && EntriesIn(at + 8, at + size, |img|)
           && TableEnd(img, at + size, end) <= TableEnd(img, at, end))
  {
  }

  lemma NoFixups(img: seq<byte>, at: nat, end: nat, adjust: nat, cur: seq<byte>)
    requires Table(img, at, end) && |cur| == |img|
    requires at < end ==> !BlockAccepted(img, at)
    ensures TablePlan(img, at, end) == Plan([], at >= end)
    ensures ApplyAll(cur, TablePlan(img, at, end).fixes, adjust) == cur
  {
  }

  /** The adjustment: where the image is, minus where it was linked to be, as a 64-bit difference. */
  function Adjustment(linkedAt: nat, loadedAt: nat): (d: nat)
    ensures d < TWO64
  {
    (loadedAt - linkedAt) % TWO64
  }

  /** The two bounds checks on the relocation directory; the sum wraps at 32 bits. */
  predicate DirectoryAccepted(size: nat, dirVA: nat, dirSize: nat) {
    && ImageAddress(size, dirVA).At?
    && ImageAddress(size, (dirVA + dirSize - 1) % TWO32).At?
  }

  /** A directory that is not empty and does not wrap around is accepted exactly if its first and its last byte are at
      most at the image's size. */
  lemma DirectoryAcceptedIff(size: nat, dirVA: nat, dirSize: nat)
    requires 0 < dirVA + dirSize <= TWO32
    ensures DirectoryAccepted(size, dirVA, dirSize) <==> dirVA <= size && dirVA + dirSize <= size + 1
  {
  }

  /** The empty directory at address 0, which images without relocations have, is refused. */
  lemma NoDirectoryRefused(size: nat)
    requires size < TWO32 - 1
    ensures !DirectoryAccepted(size, 0, 0)
  {
  }

  method RelocateCoff(image: array<byte>, numberOfRvaAndSizes: nat, dirVA: nat, dirSize: nat,
                      linkedAt: nat, loadedAt: nat)
    returns (status: Status)
    requires image.Length < TWO32 && dirVA < TWO32 && dirSize < TWO32 && linkedAt < TWO64 && loadedAt < TWO64
    requires DirectoryAccepted(image.Length, dirVA, dirSize) ==>
      var last := (dirVA + dirSize - 1) % TWO32;
      && Table(image[..], dirVA, last)
      && SlotsFree(TablePlan(image[..], dirVA, last).fixes, image.Length, dirVA, TableEnd(image[..], dirVA, last))
    modifies image
    ensures numberOfRvaAndSizes <= IMAGE_DIRECTORY_ENTRY_BASERELOC || !DirectoryAccepted(image.Length, dirVA, dirSize)
      ==> status == Unsupported && image[..] == old(image[..])
    ensures numberOfRvaAndSizes > IMAGE_DIRECTORY_ENTRY_BASERELOC && DirectoryAccepted(image.Length, dirVA, dirSize)
      ==>
      var plan := TablePlan(old(image[..]), dirVA, (dirVA + dirSize - 1) % TWO32);
      && (status == Success <==> plan.ok)
      && image[..] == ApplyAll(old(image[..]), plan.fixes, Adjustment(linkedAt, loadedAt))
  {
    if numberOfRvaAndSizes <= IMAGE_DIRECTORY_ENTRY_BASERELOC {
      return Unsupported;
    }
    var relocBase := ImageAddress(image.Length, dirVA);
    var relocBaseEnd := ImageAddress(image.Length, (dirVA + dirSize - 1) % TWO32);
    if relocBase.Null? || relocBaseEnd.Null? {
      return Unsupported;
    }
    status := ApplyTable(image, relocBase.offset, relocBaseEnd.offset, Adjustment(linkedAt, loadedAt));
  }

  /** An image of 2 GiB or more is refused, and left as it is, unless its relocation table is empty. */
  lemma HugeImageRefused(img: seq<byte>, at: nat, end: nat)
    requires TWO31 <= |img| < TWO32 && Table(img, at, end)
    ensures TablePlan(img, at, end) == Plan([], at >= end)
  {
  }

  /** Below that, a block is refused exactly if it or its page leaves the image. */
  lemma SmallImageEnd(img: seq<byte>, at: nat)
    requires |img| < TWO31 && at + 8 <= |img|
    ensures BlockAccepted(img, at) <==> at + Read32(img, at + 4) <= |img| && Read32(img, at) <= |img|
  {
  }
}
