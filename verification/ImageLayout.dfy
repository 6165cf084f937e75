/** Laying a PE file's headers and sections out in memory. */
module ImageLayout {
  import opened Bytes
  import opened PeImage
  import opened Relocation

  /** How much of a section comes from the file. */
  function CopiedSize(s: Section): nat {
    if s.virtualSize > s.rawSize then s.rawSize else s.virtualSize
  }

  /** The loader's two bounds checks; the end address is computed in 32 bits, so an empty section at 0 is refused. */
  predicate Placeable(imageSize: nat, s: Section) {
    && ImageAddress(imageSize, s.virtualAddress).At?
    && ImageAddress(imageSize, (s.virtualAddress + CopiedSize(s) - 1) % TWO32).At?
  }

  /** The section lies inside the image and the part of it that is copied lies inside the file and is of a length that
      the loader's signed number holds. */
  predicate Fits(data: seq<byte>, imageSize: nat, s: Section) {
    && s.virtualAddress + s.virtualSize <= imageSize
    && CopiedSize(s) < TWO31
    && (s.rawSize > 0 ==> s.rawPointer + CopiedSize(s) <= |data|)
  }

  /** A section in memory: its file bytes, then zeros up to its virtual size. */
  function Contents(data: seq<byte>, s: Section): (c: seq<byte>)
    requires s.rawSize > 0 ==> s.rawPointer + CopiedSize(s) <= |data|
    ensures |c| == s.virtualSize
  {
    (if s.rawSize > 0 then data[s.rawPointer..s.rawPointer + CopiedSize(s)] else [])
    + Zeros(s.virtualSize - CopiedSize(s))
  }

  function Layout(image: seq<byte>, data: seq<byte>, sections: seq<Section>): (r: seq<byte>)
    requires forall s | s in sections :: Fits(data, |image|, s)
    ensures |r| == |image|
    decreases |sections|
  {
    if sections == [] then image
    else
      assert sections[0] in sections && Fits(data, |image|, sections[0]);
      assert forall s | s in sections[1..] :: s in sections;
      Layout(Overwrite(image, sections[0].virtualAddress, Contents(data, sections[0])), data, sections[1..])
  }

  // ---- What the bounds checks establish, and what they do not ----

  /** Every address that the loop writes for a section lies in the image: those of the copy and those of the padding. */
  predicate WritesInside(imageSize: nat, s: Section) {
    && (s.rawSize > 0 ==> s.virtualAddress + CopiedSize(s) <= imageSize)
    && (CopiedSize(s) < s.virtualSize ==> s.virtualAddress + s.virtualSize <= imageSize)
  }

  lemma WritesInsideIff(imageSize: nat, s: Section)
    requires Placeable(imageSize, s)
    ensures WritesInside(imageSize, s) <==> s.virtualAddress + s.virtualSize <= imageSize
  {
  }

  /** A copy that does not wrap around stays in the image exactly if it does not end one byte behind it: an end address
      equal to the size still passes the check. */
  lemma CopyInsideIff(imageSize: nat, s: Section)
    requires Placeable(imageSize, s) && CopiedSize(s) > 0 && s.virtualAddress + CopiedSize(s) <= TWO32
    ensures s.virtualAddress + CopiedSize(s) <= imageSize <==> s.virtualAddress + CopiedSize(s) != imageSize + 1
  {
  }

  /** Such a section: its last raw byte is copied behind the image. */
  lemma CopyLeavesImage(imageSize: nat)
    requires imageSize < TWO32 - 1
    ensures var s := Section(imageSize + 1, 0, imageSize + 1, 0);
      Placeable(imageSize, s) && s.virtualAddress + CopiedSize(s) == imageSize + 1 && !WritesInside(imageSize, s)
  {
  }

  /** The padding is not checked at all: here it reaches up to the 4 GiB border. */
  lemma PaddingLeavesImage(imageSize: nat)
    requires 0 < imageSize < TWO32
    ensures var s := Section(TWO32 - 1, 1, 0, 0);
      Placeable(imageSize, s) && s.virtualAddress + s.virtualSize == TWO32 && !WritesInside(imageSize, s)
  {
  }

  /** Of the sections that lie in the image, exactly those at address 0 with nothing to copy are refused. */
  lemma PlaceableIff(imageSize: nat, s: Section)
    requires s.virtualAddress + s.virtualSize <= imageSize < TWO32 - 1
    ensures Placeable(imageSize, s) <==> !(s.virtualAddress == 0 && CopiedSize(s) == 0)
  {
  }

  // ---- The copy loop ----

  method PlaceSection(buffer: array<byte>, data: seq<byte>, s: Section)
    requires Fits(data, buffer.Length, s)
    modifies buffer
    ensures buffer[..] == Overwrite(old(buffer[..]), s.virtualAddress, Contents(data, s))
  {
    var size := s.virtualSize;
    if size > s.rawSize {
      size := s.rawSize;
    }
    ghost var before := buffer[..];
    if s.rawSize > 0 {
      CopyMem(buffer, s.virtualAddress, data[s.rawPointer..s.rawPointer + size]);
    }
    if size < s.virtualSize {
      CopyMem(buffer, s.virtualAddress + size, Zeros(s.virtualSize - size));
    }
    ghost var after := Overwrite(before, s.virtualAddress, Contents(data, s));
    assert forall k | 0 <= k < |before| :: buffer[k] == after[k];
  }

  lemma LayoutCons(image: seq<byte>, data: seq<byte>, sections: seq<Section>, i: nat)
    requires i < |sections|
    requires forall s | s in sections[i..] :: Fits(data, |image|, s)
    ensures Fits(data, |image|, sections[i])
    ensures forall s | s in sections[i + 1..] :: Fits(data, |image|, s)
    ensures Layout(image, data, sections[i..])
         == Layout(Overwrite(image, sections[i].virtualAddress, Contents(data, sections[i])), data, sections[i + 1..])
  {
    assert sections[i..][0] == sections[i];
    assert sections[i..][1..] == sections[i + 1..];
    assert sections[i] in sections[i..];
    assert forall s | s in sections[i + 1..] :: s in sections[i..];
  }

  /** Copies the sections in table order; gives up at the first one that fails its bounds checks. */
  method CopySections(buffer: array<byte>, data: seq<byte>, sections: seq<Section>) returns (ok: bool)
    requires forall s | s in sections && Placeable(buffer.Length, s) :: Fits(data, buffer.Length, s)
    modifies buffer
    ensures ok <==> forall s | s in sections :: Placeable(buffer.Length, s)
    ensures ok ==> buffer[..] == Layout(old(buffer[..]), data, sections)
  {
    hide Overwrite, Contents, Placeable, Layout;
    var i := 0;
    ghost var placed := forall s | s in sections :: Placeable(buffer.Length, s);
    ghost var image := buffer[..];
    assert sections[0..] == sections;
    while i < |sections|
      invariant 0 <= i <= |sections|
      invariant forall s | s in sections[..i] :: Placeable(buffer.Length, s)
      invariant placed ==> forall s | s in sections[i..] :: Fits(data, buffer.Length, s)
      invariant placed ==> Layout(image, data, sections) == Layout(buffer[..], data, sections[i..])
    {
      var s := sections[i];
      assert s in sections;
      if !Placeable(buffer.Length, s) {
        return false;
      }
      if placed {
        LayoutCons(buffer[..], data, sections, i);
      }
      PlaceSection(buffer, data, s);
      assert sections[..i + 1] == sections[..i] + [s];
      i := i + 1;
    }
    assert sections[..i] == sections;
    NothingToPlace(buffer[..], data, sections);
    return true;
  }

  lemma NothingToPlace(image: seq<byte>, data: seq<byte>, sections: seq<Section>)
    ensures Layout(image, data, sections[|sections|..]) == image
  {
  }

  // ---- What the layout is ----

  predicate Apart(x: Section, y: Section) {
    x.virtualAddress + x.virtualSize <= y.virtualAddress || y.virtualAddress + y.virtualSize <= x.virtualAddress
  }

  /** Different headers occupy different addresses. */
  predicate DisjointSections(sections: seq<Section>) {
    forall x, y | x in sections && y in sections :: x == y || Apart(x, y)
  }

  predicate Covers(s: Section, k: nat) {
    s.virtualAddress <= k < s.virtualAddress + s.virtualSize
  }

  lemma {:induction false} LayoutOutside(image: seq<byte>, data: seq<byte>, sections: seq<Section>, k: nat)
    requires forall s | s in sections :: Fits(data, |image|, s)
    requires k < |image| && forall s | s in sections :: !Covers(s, k)
    ensures Layout(image, data, sections)[k] == image[k]
    decreases |sections|
  {
    hide Contents;
    if sections != [] {
      assert sections[0] in sections;
      assert forall s | s in sections[1..] :: s in sections;
      LayoutOutside(Overwrite(image, sections[0].virtualAddress, Contents(data, sections[0])), data, sections[1..], k);
    }
  }

  /** Each section's addresses hold that section's contents. */
  lemma {:induction false} LayoutInside(image: seq<byte>, data: seq<byte>, sections: seq<Section>, x: Section, k: nat)
    requires forall s | s in sections :: Fits(data, |image|, s)
    requires DisjointSections(sections) && x in sections && Covers(x, k)
    ensures Layout(image, data, sections)[k] == Contents(data, x)[k - x.virtualAddress]
    decreases |sections|
  {
    hide Contents;
    var s := sections[0];
    assert s in sections && Fits(data, |image|, s);
    var placed := Overwrite(image, s.virtualAddress, Contents(data, s));
    assert forall y | y in sections[1..] :: y in sections;
    if x in sections[1..] {
      LayoutInside(placed, data, sections[1..], x, k);
    } else {
      assert x == s;
      forall y | y in sections[1..]
        ensures !Covers(y, k)
      {
        assert y == x || Apart(x, y);
      }
      LayoutOutside(placed, data, sections[1..], k);
      assert placed[s.virtualAddress..s.virtualAddress + s.virtualSize][k - s.virtualAddress] == placed[k];
    }
  }

  /** The order of the section table does not matter. */
  lemma LayoutOrderIrrelevant(image: seq<byte>, data: seq<byte>, s: seq<Section>, t: seq<Section>)
    requires forall x | x in s :: Fits(data, |image|, x)
    requires DisjointSections(s)
    requires multiset(s) == multiset(t)
    ensures forall x | x in t :: Fits(data, |image|, x)
    ensures Layout(image, data, s) == Layout(image, data, t)
  {
    forall x
      ensures x in s <==> x in t
    {
      assert x in s <==> x in multiset(s);
      assert x in t <==> x in multiset(t);
    }
    forall k | 0 <= k < |image|
      ensures Layout(image, data, s)[k] == Layout(image, data, t)[k]
    {
      if x :| x in s && Covers(x, k) {
        LayoutInside(image, data, s, x, k);
        LayoutInside(image, data, t, x, k);
      } else {
        LayoutOutside(image, data, s, k);
        LayoutOutside(image, data, t, k);
      }
    }
  }

  /** Headers in front, then every section x: its file bytes at its address and zeros up to its virtual size. */
  lemma ImageByAddress(buffer: seq<byte>, data: seq<byte>, headers: nat, sections: seq<Section>, x: Section)
    requires headers <= |data| && headers <= |buffer|
    requires forall s | s in sections :: Fits(data, |buffer|, s) && headers <= s.virtualAddress
    requires DisjointSections(sections) && x in sections
    ensures var image := Layout(Overwrite(buffer, 0, data[..headers]), data, sections);
      var copied := x.virtualAddress + CopiedSize(x);
      && image[..headers] == data[..headers]
      && (x.rawSize > 0 ==> image[x.virtualAddress..copied] == data[x.rawPointer..x.rawPointer + CopiedSize(x)])
      && forall a | copied <= a < x.virtualAddress + x.virtualSize :: image[a] == 0
  {
    hide Layout, Contents;
    var start := Overwrite(buffer, 0, data[..headers]);
    var image := Layout(start, data, sections);
    forall k | 0 <= k < headers
      ensures image[k] == data[k]
    {
      LayoutOutside(start, data, sections, k);
      assert start[0..headers][k] == start[k];
    }
    SectionInImage(start, data, sections, x);
  }

  lemma SectionInImage(image: seq<byte>, data: seq<byte>, sections: seq<Section>, x: Section)
    requires forall s | s in sections :: Fits(data, |image|, s)
    requires DisjointSections(sections) && x in sections
    ensures var r := Layout(image, data, sections);
      var copied := x.virtualAddress + CopiedSize(x);
      && (x.rawSize > 0 ==> r[x.virtualAddress..copied] == data[x.rawPointer..x.rawPointer + CopiedSize(x)])
      && forall a | copied <= a < x.virtualAddress + x.virtualSize :: r[a] == 0
  {
    hide Layout;
    var r, c := Layout(image, data, sections), Contents(data, x);
    forall a | x.virtualAddress <= a < x.virtualAddress + x.virtualSize
      ensures r[a] == c[a - x.virtualAddress]
    {
      LayoutInside(image, data, sections, x, a);
    }
    assert r[x.virtualAddress..x.virtualAddress + x.virtualSize] == c;
    if x.rawSize > 0 {
      assert c[..CopiedSize(x)] == data[x.rawPointer..x.rawPointer + CopiedSize(x)];
      assert r[x.virtualAddress..x.virtualAddress + CopiedSize(x)] == c[..CopiedSize(x)];
    }
  }
}
