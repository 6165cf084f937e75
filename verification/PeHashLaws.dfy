/** What the PE hash covers: the whole file except the checksum, the security directory entry and the certificate
    table; and its independence of the order of the section table. */
module PeHashLaws {
  import opened Bytes
  import opened PeImage
  import opened SectionSort
  import opened PeHash

  function NonEmpty(s: seq<Section>): seq<Section>
    decreases |s|
  {
    if s == [] then []
    else NonEmpty(s[..|s| - 1]) + (if s[|s| - 1].rawSize > 0 then [s[|s| - 1]] else [])
  }

  lemma {:induction false} NonEmptyCounts(s: seq<Section>, x: Section)
    ensures multiset(NonEmpty(s))[x] == if x.rawSize > 0 then multiset(s)[x] else 0
    decreases |s|
  {
    if s != [] {
      var init, y := s[..|s| - 1], s[|s| - 1];
      assert s == init + [y];
      NonEmptyCounts(init, x);
      hide NonEmpty;
      NonEmptySnoc(init, y);
      CountSnoc(init, y, x);
      CountSnoc(NonEmpty(init), y, x);
    }
  }

  lemma NonEmptySnoc(s: seq<Section>, y: Section)
    ensures NonEmpty(s + [y]) == if y.rawSize > 0 then NonEmpty(s) + [y] else NonEmpty(s)
  {
    assert (s + [y])[..|s|] == s;
  }

  lemma CountSnoc(s: seq<Section>, y: Section, x: Section)
    ensures multiset(s + [y])[x] == multiset(s)[x] + if x == y then 1 else 0
  {
  }

  lemma NonEmptyPermuted(s: seq<Section>, t: seq<Section>)
    requires multiset(s) == multiset(t)
    ensures multiset(NonEmpty(s)) == multiset(NonEmpty(t))
  {
    forall x: Section
      ensures multiset(NonEmpty(s))[x] == multiset(NonEmpty(t))[x]
    {
      NonEmptyCounts(s, x);
      NonEmptyCounts(t, x);
    }
  }

  lemma NonEmptyMember(s: seq<Section>, x: Section)
    ensures x in NonEmpty(s) <==> x in s && x.rawSize > 0
  {
    NonEmptyCounts(s, x);
    assert x in NonEmpty(s) <==> x in multiset(NonEmpty(s));
    assert x in s <==> x in multiset(s);
  }

  lemma {:induction false} NonEmptySorted(s: seq<Section>)
    requires Sorted(s)
    ensures Sorted(NonEmpty(s))
    decreases |s|
  {
    if s != [] {
      var init, x := s[..|s| - 1], s[|s| - 1];
      NonEmptySorted(init);
      forall i | 0 <= i < |NonEmpty(init)|
        ensures NonEmpty(init)[i].rawPointer <= x.rawPointer
      {
        NonEmptyMember(init, NonEmpty(init)[i]);
      }
    }
  }

  lemma SectionBytesSnoc(data: seq<byte>, s: seq<Section>, x: Section)
    requires Hashable(data, s + [x])
    ensures Hashable(data, s) && RawInFile(data, x) && !BeyondFile(data, x)
    ensures SectionBytes(data, s + [x]) == SectionBytes(data, s) + RawBytes(data, x)
  {
    assert (s + [x])[..|s|] == s;
    assert x in s + [x];
    assert forall y | y in s :: y in s + [x];
  }

  lemma HashableNonEmpty(data: seq<byte>, s: seq<Section>)
    requires Hashable(data, s)
    ensures Hashable(data, NonEmpty(s))
  {
    forall x | x in NonEmpty(s)
      ensures x in s
    {
      NonEmptyMember(s, x);
    }
  }

  lemma {:induction false} EmptySectionsAddNothing(data: seq<byte>, s: seq<Section>)
    requires Hashable(data, s)
    ensures Hashable(data, NonEmpty(s))
    ensures SectionBytes(data, NonEmpty(s)) == SectionBytes(data, s)
    decreases |s|
  {
    hide Hashable, SectionBytes;
    HashableNonEmpty(data, s);
    if s != [] {
      var init, x := s[..|s| - 1], s[|s| - 1];
      assert s == init + [x];
      SectionBytesSnoc(data, init, x);
      EmptySectionsAddNothing(data, init);
      if x.rawSize > 0 {
        SectionBytesSnoc(data, NonEmpty(init), x);
      } else {
        assert NonEmpty(s) == NonEmpty(init);
      }
    }
  }

  // ---- Order of the section table ----

  predicate OnePerPointer(m: multiset<Section>) {
    forall x, y | x in m && y in m && x.rawPointer == y.rawPointer :: x == y
  }

  lemma LastIsGreatest(s: seq<Section>, x: Section)
    requires Sorted(s) && x in multiset(s)
    ensures s != [] && x.rawPointer <= s[|s| - 1].rawPointer
  {
    assert x in s;
  }

  lemma SameLast(s: seq<Section>, t: seq<Section>)
    requires Sorted(s) && Sorted(t) && s != [] && t != []
    requires multiset(s) == multiset(t) && OnePerPointer(multiset(s))
    ensures s[|s| - 1] == t[|t| - 1]
  {
    var x, y := s[|s| - 1], t[|t| - 1];
    assert x in multiset(s) && y in multiset(t);
    LastIsGreatest(t, x);
    LastIsGreatest(s, y);
  }

  lemma InitOfSorted(s: seq<Section>)
    requires s != [] && Sorted(s)
    ensures Sorted(s[..|s| - 1])
    ensures multiset(s[..|s| - 1]) == multiset(s) - multiset{s[|s| - 1]}
    ensures OnePerPointer(multiset(s)) ==> OnePerPointer(multiset(s[..|s| - 1]))
  {
    assert s == s[..|s| - 1] + [s[|s| - 1]];
    assert forall x | x in multiset(s[..|s| - 1]) :: x in multiset(s);
  }

  lemma {:induction false} SortedUnique(s: seq<Section>, t: seq<Section>)
    requires Sorted(s) && Sorted(t)
    requires multiset(s) == multiset(t) && OnePerPointer(multiset(s))
    ensures s == t
    decreases |s|
  {
    hide Sorted, OnePerPointer;
    assert |s| == |multiset(s)| && |t| == |multiset(t)|;
    if s != [] {
      SameLast(s, t);
      InitOfSorted(s);
      InitOfSorted(t);
      SortedUnique(s[..|s| - 1], t[..|t| - 1]);
      assert s == s[..|s| - 1] + [s[|s| - 1]] && t == t[..|t| - 1] + [t[|t| - 1]];
    }
  }

  lemma HashablePermuted(data: seq<byte>, s: seq<Section>, t: seq<Section>)
    requires multiset(s) == multiset(t) && Hashable(data, s)
    ensures Hashable(data, t)
  {
    SameMembers(s, t);
  }

  /** Two section tables with the same headers, no two of which put data at one place, feed the same bytes. */
  lemma SectionOrderIrrelevant(data: seq<byte>, s: seq<Section>, t: seq<Section>)
    requires multiset(s) == multiset(t) && OnePerPointer(multiset(NonEmpty(s)))
    requires Hashable(data, s)
    ensures Hashable(data, Sort(s)) && Hashable(data, Sort(t))
    ensures SectionBytes(data, Sort(s)) == SectionBytes(data, Sort(t))
  {
    SortSorts(s);
    SortSorts(t);
    HashablePermuted(data, s, Sort(s));
    HashablePermuted(data, s, Sort(t));
    NonEmptySorted(Sort(s));
    NonEmptySorted(Sort(t));
    NonEmptyPermuted(s, Sort(s));
    NonEmptyPermuted(s, Sort(t));
    SortedUnique(NonEmpty(Sort(s)), NonEmpty(Sort(t)));
    EmptySectionsAddNothing(data, Sort(s));
    EmptySectionsAddNothing(data, Sort(t));
  }

  // ---- Coverage ----

  /** The headers, in this order, cover the file from start on without gap or overlap. */
  predicate Tiles(order: seq<Section>, start: nat)
    decreases |order|
  {
    order != [] ==>
      && Tiles(order[..|order| - 1], start)
      && order[|order| - 1].rawPointer == start + Sum(order[..|order| - 1])
  }

  lemma {:induction false} TilesBelow(order: seq<Section>, start: nat, x: Section)
    requires Tiles(order, start) && x in order
    ensures start <= x.rawPointer && x.rawPointer + x.rawSize <= start + Sum(order)
    decreases |order|
  {
    var init, last := order[..|order| - 1], order[|order| - 1];
    assert order == init + [last];
    if x != last {
      TilesBelow(init, start, x);
    }
  }

  lemma {:induction false} TilesSorted(order: seq<Section>, start: nat)
    requires Tiles(order, start)
    requires forall x | x in order :: x.rawSize > 0
    ensures Sorted(order) && OnePerPointer(multiset(order))
    decreases |order|
  {
    if order != [] {
      var init, last := order[..|order| - 1], order[|order| - 1];
      assert order == init + [last];
      TilesSorted(init, start);
      forall x | x in init
        ensures x.rawPointer < last.rawPointer
      {
        TilesBelow(init, start, x);
      }
      hide Tiles;
      SortedSnoc(init, last);
      OnePerPointerSnoc(init, last);
    }
  }

  lemma SortedSnoc(s: seq<Section>, x: Section)
    requires Sorted(s) && forall y | y in s :: y.rawPointer < x.rawPointer
    ensures Sorted(s + [x])
  {
    forall i, j | 0 <= i < j < |s + [x]|
      ensures (s + [x])[i].rawPointer <= (s + [x])[j].rawPointer
    {
      assert (s + [x])[i] == s[i] && s[i] in s;
    }
  }

  lemma OnePerPointerSnoc(s: seq<Section>, x: Section)
    requires OnePerPointer(multiset(s)) && forall y | y in s :: y.rawPointer < x.rawPointer
    ensures OnePerPointer(multiset(s + [x]))
  {
    forall y, z | y in multiset(s + [x]) && z in multiset(s + [x]) && y.rawPointer == z.rawPointer
      ensures y == z
    {
      MemberSnoc(s, x, y);
      MemberSnoc(s, x, z);
    }
  }

  lemma MemberSnoc(s: seq<Section>, x: Section, y: Section)
    ensures y in multiset(s + [x]) <==> y in multiset(s) || y == x
    ensures y in multiset(s) <==> y in s
  {
  }

  lemma TileAppended(data: seq<byte>, order: seq<Section>, k: nat, start: nat, end: nat)
    requires k < |order| && start <= end == order[k].rawPointer && end + order[k].rawSize <= |data|
    requires Hashable(data, order[..k]) && SectionBytes(data, order[..k]) == data[start..end]
    ensures Hashable(data, order[..k + 1])
    ensures SectionBytes(data, order[..k + 1]) == data[start..end + order[k].rawSize]
  {
    hide SectionBytes;
    HashableSnoc(data, order, k);
    assert data[start..end] + data[end..end + order[k].rawSize] == data[start..end + order[k].rawSize];
  }

  lemma {:induction false} TiledBytes(data: seq<byte>, order: seq<Section>, start: nat)
    requires Tiles(order, start) && start + Sum(order) <= |data|
    ensures Hashable(data, order)
    ensures SectionBytes(data, order) == data[start..start + Sum(order)]
    decreases |order|
  {
    if order != [] {
      var k := |order| - 1;
      assert Sum(order) == Sum(order[..k]) + order[k].rawSize;
      assert Tiles(order[..k], start) && order[k].rawPointer == start + Sum(order[..k]);
      hide Tiles, Sum, SectionBytes, Hashable;
      TiledBytes(data, order[..k], start);
      TileAppended(data, order, k, start, start + Sum(order[..k]));
      assert order[..k + 1] == order;
    }
  }

  lemma {:induction false} SumNonEmpty(s: seq<Section>)
    ensures Sum(NonEmpty(s)) == Sum(s)
    decreases |s|
  {
    if s != [] {
      var init, x := s[..|s| - 1], s[|s| - 1];
      SumNonEmpty(init);
      if x.rawSize > 0 {
        assert NonEmpty(s)[..|NonEmpty(init)|] == NonEmpty(init);
      } else {
        assert NonEmpty(s) == NonEmpty(init);
      }
    }
  }

  /** A well-formed signed image: the sections with data follow the headers in some order without gaps, and the
      certificate table is the end of the file. */
  ghost predicate WellFormed(data: seq<byte>, c: Context, table: seq<Section>, order: seq<Section>) {
    && |data| < TWO32
    && c.pe + SECURITY_DIRECTORY + DATA_DIRECTORY_SIZE <= c.sizeOfHeaders
    && multiset(order) == multiset(NonEmpty(table))
    && Tiles(order, c.sizeOfHeaders)
    && c.sizeOfHeaders + Sum(order) <= c.secVA
    && c.secVA + c.secSize == |data|
  }

  function FileMinusRegions(data: seq<byte>, c: Context): seq<byte>
    requires c.pe + SECURITY_DIRECTORY + DATA_DIRECTORY_SIZE <= c.secVA <= |data|
  {
    data[..c.pe + CHECKSUM]
    + data[c.pe + CHECKSUM + CHECKSUM_SIZE..c.pe + SECURITY_DIRECTORY]
    + data[c.pe + SECURITY_DIRECTORY + DATA_DIRECTORY_SIZE..c.secVA]
  }

  lemma OrderIsSorted(table: seq<Section>, order: seq<Section>, start: nat)
    requires multiset(order) == multiset(NonEmpty(table)) && Tiles(order, start)
    ensures NonEmpty(Sort(table)) == order
    ensures Sum(table) == Sum(order)
  {
    forall x | x in order
      ensures x.rawSize > 0
    {
      assert x in multiset(order);
      assert x in NonEmpty(table);
      NonEmptyMember(table, x);
    }
    TilesSorted(order, start);
    SortSorts(table);
    NonEmptySorted(Sort(table));
    NonEmptyPermuted(table, Sort(table));
    SortedUnique(order, NonEmpty(Sort(table)));
    SumNonEmpty(Sort(table));
    SumSort(table);
  }

  lemma HashableTable(data: seq<byte>, table: seq<Section>, order: seq<Section>)
    requires multiset(order) == multiset(NonEmpty(table)) && Hashable(data, order)
    ensures Hashable(data, table)
  {
    forall x | x in table
      ensures RawInFile(data, x) && !BeyondFile(data, x)
    {
      if x.rawSize > 0 {
        NonEmptyMember(table, x);
        assert x in multiset(order);
        assert x in order;
      }
    }
  }

  lemma WellFormedAccepted(data: seq<byte>, c: Context, table: seq<Section>, order: seq<Section>)
    requires WellFormed(data, c, table, order)
    ensures Readable(data, c, table) && Accepted(data, table)
    ensures Hashable(data, Sort(table)) && Hashable(data, order)
    ensures SectionBytes(data, Sort(table)) == data[c.sizeOfHeaders..c.sizeOfHeaders + Sum(order)]
    ensures RawTotal(table) == Sum(order)
  {
    hide Sort, NonEmpty, SectionBytes, Tiles, RawTotal, Sum, RawInFile, BeyondFile;
    OrderIsSorted(table, order, c.sizeOfHeaders);
    RawTotalIsSum(table);
    TiledBytes(data, order, c.sizeOfHeaders);
    HashableTable(data, table, order);
    SortSorts(table);
    HashablePermuted(data, table, Sort(table));
    EmptySectionsAddNothing(data, Sort(table));
  }

  lemma Pieces(data: seq<byte>, a: nat, b: nat, c: nat, d: nat)
    requires a <= b <= c <= d <= |data|
    ensures data[a..b] + data[b..c] + data[c..d] == data[a..d]
  {
  }

  /** The bytes fed to both digests are the file, in order, without its three exempt regions. */
  lemma HashCoversFile(data: seq<byte>, c: Context, table: seq<Section>, order: seq<Section>)
    requires WellFormed(data, c, table, order)
    ensures Readable(data, c, table) && Accepted(data, table)
    ensures HashInput(data, c, table) == FileMinusRegions(data, c)
  {
    hide Sort, NonEmpty, SectionBytes, Tiles, RawTotal, Sum, Accepted;
    WellFormedAccepted(data, c, table, order);
    var hashed := c.sizeOfHeaders + Sum(order);
    var h := c.pe + SECURITY_DIRECTORY + DATA_DIRECTORY_SIZE;
    var tail := TailBytes(data, hashed, c.secSize);
    assert tail == data[hashed..c.secVA];
    Pieces(data, h, c.sizeOfHeaders, hashed, c.secVA);
    var first := data[..c.pe + CHECKSUM] + data[c.pe + CHECKSUM + CHECKSUM_SIZE..c.pe + SECURITY_DIRECTORY];
    Regroup(first, data[h..c.sizeOfHeaders], data[c.sizeOfHeaders..hashed], tail);
  }

  lemma Regroup(a: seq<byte>, b: seq<byte>, c: seq<byte>, d: seq<byte>)
    ensures (a + b) + c + d == a + (b + c + d)
  {
  }
}
