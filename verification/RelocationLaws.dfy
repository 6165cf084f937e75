/** What relocating an image means for its slots, for its other bytes, and when it is done more than once. */
module RelocationLaws {
  import opened Bytes
  import opened Relocation

  predicate Disjoint(fs: seq<Fix>) {
    forall i, j | 0 <= i < j < |fs| && Width(fs[i].kind) > 0 && Width(fs[j].kind) > 0 ::
      fs[i].addr + Width(fs[i].kind) <= fs[j].addr || fs[j].addr + Width(fs[j].kind) <= fs[i].addr
  }

  lemma SameSlot(a: seq<byte>, b: seq<byte>, f: Fix)
    requires |a| == |b| && InBounds(f, |a|)
    requires forall k | f.addr <= k < f.addr + Width(f.kind) :: a[k] == b[k]
    ensures SlotBytes(a, f) == SlotBytes(b, f)
  {
  }

  lemma SlotAfterFix(img: seq<byte>, f: Fix, adjust: nat)
    requires InBounds(f, |img|) && Width(f.kind) > 0
    ensures SlotBytes(ApplyFix(img, f, adjust), f)
         == ToLE(FromLE(SlotBytes(img, f)) + Share(f.kind, adjust), Width(f.kind))
  {
  }

  /** Each slot ends with its own share of the adjustment added, modulo its width, whatever the other fixups are. */
  lemma {:induction false} SlotRelocated(img: seq<byte>, fs: seq<Fix>, adjust: nat, i: nat)
    requires AllInBounds(fs, |img|) && Disjoint(fs) && i < |fs|
    ensures SlotBytes(ApplyAll(img, fs, adjust), fs[i])
         == ToLE(FromLE(SlotBytes(img, fs[i])) + Share(fs[i].kind, adjust), Width(fs[i].kind))
    decreases |fs|
  {
    hide ApplyFix, Share, FromLE, ToLE, SlotBytes;
    var f, first := fs[i], ApplyFix(img, fs[0], adjust);
    if Width(f.kind) == 0 {
    } else if i == 0 {
      SlotAfterFix(img, f, adjust);
      forall k | f.addr <= k < f.addr + Width(f.kind)
        ensures ApplyAll(img, fs, adjust)[k] == first[k]
      {
        ApplyAllOutside(first, fs[1..], adjust, k);
      }
      SameSlot(ApplyAll(img, fs, adjust), first, f);
    } else {
      forall k | f.addr <= k < f.addr + Width(f.kind)
        ensures first[k] == img[k]
      {
        ApplyFixOutside(img, fs[0], adjust, k);
      }
      SameSlot(first, img, f);
      assert fs[1..][i - 1] == f;
      SlotRelocated(first, fs[1..], adjust, i - 1);
    }
  }

  // ---- Arithmetic of the adjustment ----

  predicate WholeAddress(kind: nat) {
    kind in {REL_BASED_LOW, REL_BASED_HIGHLOW, REL_BASED_DIR64}
  }

  lemma ShareIsAdjustment(kind: nat, adjust: nat)
    requires WholeAddress(kind)
    ensures Pow256(Width(kind)) in {TWO16, TWO32, TWO64}
    ensures Share(kind, adjust) == adjust % Pow256(Width(kind))
  {
    WordSizes();
  }

  lemma ModDivides(a: int, m: nat)
    requires m in {TWO16, TWO32, TWO64}
    ensures a % TWO64 % m == a % m
  {
    var q := a / TWO64;
    var c := if m == TWO16 then 0x1_0000_0000_0000 else if m == TWO32 then TWO32 else 1;
    assert TWO64 == c * m;
    assert a % TWO64 == a + (-q * c) * m by {
      assert (-q * c) * m == -q * (c * m);
    }
    ModEqual(a % TWO64, a, -q * c, m);
  }

  /** A slot that held an address relative to the link base holds the same address relative to the load base. */
  lemma PointerMoves(img: seq<byte>, fs: seq<Fix>, i: nat, linkedAt: nat, loadedAt: nat, rva: nat)
    requires AllInBounds(fs, |img|) && Disjoint(fs) && i < |fs|
    requires WholeAddress(fs[i].kind)
    requires FromLE(SlotBytes(img, fs[i])) == (linkedAt + rva) % Pow256(Width(fs[i].kind))
    ensures FromLE(SlotBytes(ApplyAll(img, fs, Adjustment(linkedAt, loadedAt)), fs[i]))
         == (loadedAt + rva) % Pow256(Width(fs[i].kind))
  {
    hide FromLE, ToLE, ApplyAll, SlotBytes, Disjoint, AllInBounds;
    var kind, d := fs[i].kind, Adjustment(linkedAt, loadedAt);
    var m := Pow256(Width(kind));
    var v := (linkedAt + rva) % m;
    SlotRelocated(img, fs, d, i);
    FromToLE(v + Share(kind, d), Width(kind));
    ShareIsAdjustment(kind, d);
    MovedSum(linkedAt, loadedAt, rva, m);
  }

  lemma MovedSum(a: nat, b: nat, r: nat, m: nat)
    requires m in {TWO16, TWO32, TWO64}
    ensures ((a + r) % m + (b - a) % TWO64 % m) % m == (b + r) % m
  {
    ModDivides(b - a, m);
    var k1, k2 := (a + r) / m, (b - a) / m;
    assert (a + r) % m + (b - a) % m == (b + r) + (-k1 - k2) * m by {
      assert (-k1 - k2) * m == -(k1 * m) - k2 * m;
    }
    ModEqual((a + r) % m + (b - a) % m, b + r, -k1 - k2, m);
  }

  /** Adding two adjustments one after the other is adding their sum. */
  lemma ShareAdds(kind: nat, v: nat, d: nat, e: nat)
    requires kind == REL_BASED_ABSOLUTE || WholeAddress(kind)
    ensures ToLE(FromLE(ToLE(v + Share(kind, d), Width(kind))) + Share(kind, e), Width(kind))
         == ToLE(v + Share(kind, (d + e) % TWO64), Width(kind))
  {
    if WholeAddress(kind) {
      hide FromLE, ToLE, Share;
      var w, m := Width(kind), Pow256(Width(kind));
      ShareIsAdjustment(kind, d);
      ShareIsAdjustment(kind, e);
      ShareIsAdjustment(kind, (d + e) % TWO64);
      FromToLE(v + d % m, w);
      ToLEMod((v + d % m) % m + e % m, w);
      ToLEMod(v + (d + e) % TWO64 % m, w);
      SumTwice(v, d, e, m);
    }
  }

  lemma SumTwice(v: nat, d: nat, e: nat, m: nat)
    requires m in {TWO16, TWO32, TWO64}
    ensures ((v + d % m) % m + e % m) % m == (v + (d + e) % TWO64 % m) % m
  {
    ModDivides(d + e, m);
    ModAbsorbed(e % m, v + d % m, m);
    ModAbsorbed(v + e % m, d, m);
    ModAbsorbed(v + d, e, m);
    ModAbsorbed(v, d + e, m);
  }

  lemma ModAbsorbed(x: int, y: int, m: nat)
    requires m > 0
    ensures (x + y % m) % m == (x + y) % m
  {
    ModEqual(x + y % m, x + y, -(y / m), m);
  }

  /** The 16-bit high-half fixup loses the carry of the low halves, so it composes only when there is none. */
  lemma HighComposesIffNoCarry(v: nat, d: nat, e: nat)
    ensures ((v + Share(REL_BASED_HIGH, d)) % TWO16 + Share(REL_BASED_HIGH, e)) % TWO16
            == (v + Share(REL_BASED_HIGH, (d + e) % TWO64)) % TWO16
       <==> d % TWO16 + e % TWO16 < TWO16
  {
    var carry := (d % TWO16 + e % TWO16) / TWO16;
    HighHalfOfSum(d, e);
    assert carry == 0 <==> d % TWO16 + e % TWO16 < TWO16;
    hide Share;
    ShareOfHigh(d);
    ShareOfHigh(e);
    ShareOfHigh((d + e) % TWO64);
    CarryShows(v, d % TWO32 / TWO16, e % TWO32 / TWO16, carry);
  }

  lemma CarryShows(v: nat, dh: nat, eh: nat, carry: nat)
    requires carry <= 1
    ensures ((v + dh) % TWO16 + eh) % TWO16 == (v + (dh + eh + carry) % TWO16) % TWO16 <==> carry == 0
  {
    ModAbsorbed(eh, v + dh, TWO16);
    ModAbsorbed(v, dh + eh + carry, TWO16);
    SuccessorDiffers(v + dh + eh);
  }

  lemma ShareOfHigh(d: nat)
    ensures Share(REL_BASED_HIGH, d) == d % TWO32 / TWO16
  {
  }

  lemma SuccessorDiffers(x: nat)
    ensures x % TWO16 != (x + 1) % TWO16
  {
  }

  lemma HighHalfOfSum(d: nat, e: nat)
    ensures var carry := (d % TWO16 + e % TWO16) / TWO16;
      && 0 <= carry <= 1
      && (d + e) % TWO64 % TWO32 / TWO16 == (d % TWO32 / TWO16 + e % TWO32 / TWO16 + carry) % TWO16
  {
    var D, dh, dl := d / TWO32, d % TWO32 / TWO16, d % TWO16;
    var E, eh, el := e / TWO32, e % TWO32 / TWO16, e % TWO16;
    LowHalf(d);
    LowHalf(e);
    var carry := (dl + el) / TWO16;
    var h := dh + eh + carry;
    var l := dl + el - carry * TWO16;
    ModDivides(d + e, TWO32);
    assert d + e == (D + E + h / TWO16) * TWO32 + (h % TWO16 * TWO16 + l);
    ModUnique(d + e, TWO32, D + E + h / TWO16, h % TWO16 * TWO16 + l);
  }

  lemma LowHalf(d: nat)
    ensures d == d / TWO32 * TWO32 + d % TWO32 / TWO16 * TWO16 + d % TWO16
  {
    var r := d % TWO32;
    assert d == d / TWO32 * TWO32 + r;
    ModEqual(d, r, d / TWO32 * TWO16, TWO16);
  }

  // ---- Relocating twice ----

  predicate AllSupported(fs: seq<Fix>) {
    forall i | 0 <= i < |fs| :: Supported(fs[i].kind)
  }

  /** The low halves of two adjustments add up without a carry. */
  predicate NoCarry(d: nat, e: nat) {
    d % TWO16 + e % TWO16 < TWO16
  }

  predicate NoHigh(fs: seq<Fix>) {
    forall i | 0 <= i < |fs| :: fs[i].kind != REL_BASED_HIGH
  }

  /** A slot holds the sum after two adjustments exactly if it is no high half or there is no carry. */
  lemma ShareAddsIff(kind: nat, v: nat, d: nat, e: nat)
    requires Supported(kind)
    ensures ToLE(FromLE(ToLE(v + Share(kind, d), Width(kind))) + Share(kind, e), Width(kind))
         == ToLE(v + Share(kind, (d + e) % TWO64), Width(kind))
       <==> kind != REL_BASED_HIGH || NoCarry(d, e)
  {
    if kind == REL_BASED_HIGH {
      hide FromLE, ToLE, Share;
      var once := v + Share(kind, d);
      HighComposesIffNoCarry(v, d, e);
      WordSizes();
      FromToLE(once, 2);
      SameLowIff(once % TWO16 + Share(kind, e), v + Share(kind, (d + e) % TWO64), 2);
    } else {
      ShareAdds(kind, v, d, e);
    }
  }

  lemma SameLowIff(x: nat, y: nat, w: nat)
    ensures ToLE(x, w) == ToLE(y, w) <==> x % Pow256(w) == y % Pow256(w)
  {
    hide ToLE, FromLE;
    FromToLE(x, w);
    FromToLE(y, w);
    ToLEMod(x, w);
    ToLEMod(y, w);
  }

  lemma SlotTwiceIff(img: seq<byte>, fs: seq<Fix>, d: nat, e: nat, i: nat)
    requires AllInBounds(fs, |img|) && Disjoint(fs) && AllSupported(fs) && i < |fs|
    ensures SlotBytes(ApplyAll(ApplyAll(img, fs, d), fs, e), fs[i])
         == SlotBytes(ApplyAll(img, fs, (d + e) % TWO64), fs[i])
       <==> fs[i].kind != REL_BASED_HIGH || NoCarry(d, e)
  {
    hide ApplyAll, SlotBytes, Share, FromLE, ToLE, Disjoint, AllInBounds, NoCarry, Supported;
    SlotRelocated(img, fs, d, i);
    SlotRelocated(ApplyAll(img, fs, d), fs, e, i);
    SlotRelocated(img, fs, (d + e) % TWO64, i);
    assert InBounds(fs[i], |img|) by {
      BoundsAt(fs, |img|, i);
    }
    ShareAddsIff(fs[i].kind, FromLE(SlotBytes(img, fs[i])), d, e);
  }

  lemma BoundsAt(fs: seq<Fix>, size: nat, i: nat)
    requires AllInBounds(fs, size) && i < |fs|
    ensures InBounds(fs[i], size)
  {
  }

  lemma ByteInSlot(a: seq<byte>, b: seq<byte>, f: Fix, k: nat)
    requires |a| == |b| && InBounds(f, |a|) && SlotBytes(a, f) == SlotBytes(b, f)
    requires f.addr <= k < f.addr + Width(f.kind)
    ensures a[k] == b[k]
  {
    assert SlotBytes(a, f)[k - f.addr] == a[k];
    assert SlotBytes(b, f)[k - f.addr] == b[k];
  }

  /** Applying one adjustment after the other is applying their sum exactly if there is no high half among the slots
      or the low halves of the adjustments do not carry. */
  lemma ApplyAllTwiceIff(img: seq<byte>, fs: seq<Fix>, d: nat, e: nat)
    requires AllInBounds(fs, |img|) && Disjoint(fs) && AllSupported(fs)
    ensures ApplyAll(ApplyAll(img, fs, d), fs, e) == ApplyAll(img, fs, (d + e) % TWO64)
       <==> NoHigh(fs) || NoCarry(d, e)
  {
    hide ApplyAll, SlotBytes, Disjoint, NoCarry, AllInBounds, Supported;
    if NoHigh(fs) || NoCarry(d, e) {
      SameAfterBoth(img, fs, d, e);
    } else {
      var i :| 0 <= i < |fs| && fs[i].kind == REL_BASED_HIGH;
      SlotTwiceIff(img, fs, d, e, i);
    }
  }

  lemma SameAfterBoth(img: seq<byte>, fs: seq<Fix>, d: nat, e: nat)
    requires AllInBounds(fs, |img|) && Disjoint(fs) && AllSupported(fs)
    requires NoHigh(fs) || NoCarry(d, e)
    ensures ApplyAll(ApplyAll(img, fs, d), fs, e) == ApplyAll(img, fs, (d + e) % TWO64)
  {
    hide ApplyAll, SlotBytes, Disjoint, NoCarry, AllSupported;
    var once := ApplyAll(img, fs, d);
    var twice, sum := ApplyAll(once, fs, e), ApplyAll(img, fs, (d + e) % TWO64);
    forall k | 0 <= k < |img|
      ensures twice[k] == sum[k]
    {
      if i :| 0 <= i < |fs| && fs[i].addr <= k < fs[i].addr + Width(fs[i].kind) {
        SlotTwiceIff(img, fs, d, e, i);
        ByteInSlot(twice, sum, fs[i], k);
      } else {
        ApplyAllOutside(img, fs, d, k);
        ApplyAllOutside(once, fs, e, k);
        ApplyAllOutside(img, fs, (d + e) % TWO64, k);
      }
    }
  }

  // ---- The table survives relocation, so the relocated image can be relocated again ----

  lemma SameRead(a: seq<byte>, b: seq<byte>, lo: nat, hi: nat, at: nat)
    requires |a| == |b| && Agree(a, b, lo, hi) && lo <= at
    ensures at + 2 <= hi && at + 2 <= |a| ==> Read16(a, at) == Read16(b, at)
    ensures at + 4 <= hi && at + 4 <= |a| ==> Read32(a, at) == Read32(b, at)
  {
    if at + 2 <= hi && at + 2 <= |a| {
      AgreeSlice(a, b, lo, hi, at, at + 2);
    }
    if at + 4 <= hi && at + 4 <= |a| {
      AgreeSlice(a, b, lo, hi, at, at + 4);
    }
  }

  lemma {:induction false} EntriesUnchanged(a: seq<byte>, b: seq<byte>, va: nat, at: nat, end: nat, lo: nat, hi: nat)
    requires |a| == |b| && lo <= at && EntriesIn(at, end, hi) && EntriesIn(at, end, |a|)
    requires Agree(a, b, lo, hi)
    ensures EntriesPlan(a, va, at, end) == EntriesPlan(b, va, at, end)
    decreases end - at
  {
    if at < end {
      SameRead(a, b, lo, hi, at);
      EntriesUnchanged(a, b, va, at + 2, end, lo, hi);
    }
  }

  lemma {:induction false} TableUnchanged(a: seq<byte>, b: seq<byte>, at: nat, end: nat, lo: nat, hi: nat)
    requires |a| == |b| && lo <= at
    requires Table(a, at, end) && TableEnd(a, at, end) <= hi && Agree(a, b, lo, hi)
    ensures Table(b, at, end)
    ensures TablePlan(b, at, end) == TablePlan(a, at, end) && TableEnd(b, at, end) == TableEnd(a, at, end)
    decreases |a| - at
  {
    hide EntriesPlan, FromLE, Read16, Agree;
    if at < end {
      SameRead(a, b, lo, hi, at);
      SameRead(a, b, lo, hi, at + 4);
      if BlockAccepted(a, at) {
        var next := at + Read32(a, at + 4);
        EntriesUnchanged(a, b, Read32(a, at), at + 8, next, lo, hi);
        TableUnchanged(a, b, next, end, lo, hi);
      }
    }
  }

  lemma AdjustmentsAdd(a: nat, b: nat, c: nat)
    requires a < TWO64 && b < TWO64 && c < TWO64
    ensures (Adjustment(a, b) + Adjustment(b, c)) % TWO64 == Adjustment(a, c)
  {
    var k1, k2 := (b - a) / TWO64, (c - b) / TWO64;
    var d, e := (b - a) % TWO64, (c - b) % TWO64;
    assert d == b - a - k1 * TWO64 && e == c - b - k2 * TWO64;
    ModEqual(d + e, c - a, -k1 - k2, TWO64);
  }

  lemma {:induction false} EntriesSupported(img: seq<byte>, va: nat, at: nat, end: nat)
    requires EntriesIn(at, end, |img|)
    ensures AllSupported(EntriesPlan(img, va, at, end).fixes)
    decreases end - at
  {
    hide Supported, EntryFix;
    if at < end && Supported(EntryFix(img, va, at).kind) {
      EntriesSupported(img, va, at + 2, end);
      var rest := EntriesPlan(img, va, at + 2, end);
      assert EntriesPlan(img, va, at, end).fixes == [EntryFix(img, va, at)] + rest.fixes;
    }
  }

  /** Entries of an unknown type never get into a plan. */
  lemma {:induction false} PlanSupported(img: seq<byte>, at: nat, end: nat)
    requires Table(img, at, end)
    ensures AllSupported(TablePlan(img, at, end).fixes)
    decreases |img| - at
  {
    hide Supported, EntriesPlan, Read32;
    if at < end && BlockAccepted(img, at) {
      var next := at + Read32(img, at + 4);
      EntriesSupported(img, Read32(img, at), at + 8, next);
      PlanSupported(img, next, end);
    }
  }

  /** Moving an image from base a to b and then from b to c finds the same table each time. It leaves the image as
      moving it from a to c does exactly if the table has no high half or the low halves of the moves do not carry. */
  lemma RebaseTwiceIff(img: seq<byte>, at: nat, end: nat, a: nat, b: nat, c: nat)
    requires a < TWO64 && b < TWO64 && c < TWO64
    requires at <= |img| && Table(img, at, end)
    requires SlotsFree(TablePlan(img, at, end).fixes, |img|, at, TableEnd(img, at, end))
    requires Disjoint(TablePlan(img, at, end).fixes)
    ensures var fs := TablePlan(img, at, end).fixes;
      var moved := ApplyAll(img, fs, Adjustment(a, b));
      && Table(moved, at, end)
      && TablePlan(moved, at, end) == TablePlan(img, at, end)
      && (ApplyAll(moved, TablePlan(moved, at, end).fixes, Adjustment(b, c)) == ApplyAll(img, fs, Adjustment(a, c))
          <==> NoHigh(fs) || NoCarry(Adjustment(a, b), Adjustment(b, c)))
  {
    hide ApplyAll, Table, TablePlan, TableEnd, Adjustment, Disjoint, NoHigh, NoCarry, AllSupported;
    var fs := TablePlan(img, at, end).fixes;
    var moved := ApplyAll(img, fs, Adjustment(a, b));
    TableUntouched(img, fs, Adjustment(a, b), at, TableEnd(img, at, end));
    TableUnchanged(img, moved, at, end, at, TableEnd(img, at, end));
    PlanSupported(img, at, end);
    ApplyAllTwiceIff(img, fs, Adjustment(a, b), Adjustment(b, c));
    AdjustmentsAdd(a, b, c);
  }
}
