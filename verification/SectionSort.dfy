/** The insertion sort that brings section headers into file order. */
module SectionSort {
  import opened PeImage

  predicate Sorted(s: seq<Section>) {
    forall i, j | 0 <= i < j < |s| :: s[i].rawPointer <= s[j].rawPointer
  }

  /** x goes after every header that does not lie beyond it, coming from the right. */
  function Insert(s: seq<Section>, x: Section): (r: seq<Section>)
    ensures |r| == |s| + 1
    decreases |s|
  {
    if s != [] && x.rawPointer < s[|s| - 1].rawPointer
    then Insert(s[..|s| - 1], x) + [s[|s| - 1]]
    else s + [x]
  }

  function Sort(s: seq<Section>): (r: seq<Section>)
    ensures |r| == |s|
    decreases |s|
  {
    if s == [] then [] else Insert(Sort(s[..|s| - 1]), s[|s| - 1])
  }

  lemma {:induction false} InsertMembers(s: seq<Section>, x: Section)
    ensures multiset(Insert(s, x)) == multiset(s) + multiset{x}
    decreases |s|
  {
    if s != [] && x.rawPointer < s[|s| - 1].rawPointer {
      InsertMembers(s[..|s| - 1], x);
      assert s == s[..|s| - 1] + [s[|s| - 1]];
    }
  }

  lemma {:induction false} InsertBounded(s: seq<Section>, x: Section, bound: nat)
    requires x.rawPointer <= bound
    requires forall i | 0 <= i < |s| :: s[i].rawPointer <= bound
    ensures forall i | 0 <= i < |Insert(s, x)| :: Insert(s, x)[i].rawPointer <= bound
    decreases |s|
  {
    if s != [] && x.rawPointer < s[|s| - 1].rawPointer {
      InsertBounded(s[..|s| - 1], x, bound);
    }
  }

  lemma {:induction false} InsertSorts(s: seq<Section>, x: Section)
    requires Sorted(s)
    ensures Sorted(Insert(s, x))
    decreases |s|
  {
    if s != [] && x.rawPointer < s[|s| - 1].rawPointer {
      InsertSorts(s[..|s| - 1], x);
      InsertBounded(s[..|s| - 1], x, s[|s| - 1].rawPointer);
    }
  }

  lemma {:induction false} SortSorts(s: seq<Section>)
    ensures multiset(Sort(s)) == multiset(s)
    ensures Sorted(Sort(s))
    decreases |s|
  {
    if s != [] {
      SortSorts(s[..|s| - 1]);
      InsertMembers(Sort(s[..|s| - 1]), s[|s| - 1]);
      InsertSorts(Sort(s[..|s| - 1]), s[|s| - 1]);
      assert s == s[..|s| - 1] + [s[|s| - 1]];
    }
  }

  // ---- Stability ----

  function WithPointer(s: seq<Section>, p: nat): seq<Section>
    decreases |s|
  {
    if s == [] then []
    else WithPointer(s[..|s| - 1], p) + (if s[|s| - 1].rawPointer == p then [s[|s| - 1]] else [])
  }

  lemma WithPointerSnoc(s: seq<Section>, x: Section, p: nat)
    ensures WithPointer(s + [x], p) == WithPointer(s, p) + (if x.rawPointer == p then [x] else [])
  {
    assert (s + [x])[..|s|] == s;
  }

  lemma {:induction false} InsertStable(s: seq<Section>, x: Section, p: nat)
    requires Sorted(s)
    ensures WithPointer(Insert(s, x), p) == WithPointer(s, p) + (if x.rawPointer == p then [x] else [])
    decreases |s|
  {
    if s != [] && x.rawPointer < s[|s| - 1].rawPointer {
      var init, last := s[..|s| - 1], s[|s| - 1];
      assert s == init + [last];
      InsertStable(init, x, p);
      WithPointerSnoc(Insert(init, x), last, p);
      WithPointerSnoc(init, last, p);
    } else {
      WithPointerSnoc(s, x, p);
    }
  }

  /** Headers with the same raw pointer keep their table order. */
  lemma {:induction false} SortStable(s: seq<Section>, p: nat)
    ensures WithPointer(Sort(s), p) == WithPointer(s, p)
    decreases |s|
  {
    if s != [] {
      var init, last := s[..|s| - 1], s[|s| - 1];
      SortStable(init, p);
      SortSorts(init);
      InsertStable(Sort(init), last, p);
    }
  }

  // ---- The loop ----

  lemma {:induction false} InsertSplit(s: seq<Section>, pos: nat, x: Section)
    requires pos <= |s|
    requires forall k | pos <= k < |s| :: x.rawPointer < s[k].rawPointer
    requires pos > 0 ==> s[pos - 1].rawPointer <= x.rawPointer
    ensures Insert(s, x) == s[..pos] + [x] + s[pos..]
    decreases |s|
  {
    if pos < |s| {
      var init := s[..|s| - 1];
      InsertSplit(init, pos, x);
      assert init[..pos] == s[..pos];
      assert init[pos..] + [s[|s| - 1]] == s[pos..];
    } else {
      assert s[..pos] == s;
    }
  }

  /** Puts a header into its place among the index headers already copied, moving the later ones up. */
  method InsertHeader(headers: array<Section>, index: nat, section: Section)
    requires index < headers.Length
    modifies headers
    ensures headers[..index + 1] == Insert(old(headers[..index]), section)
  {
    hide Insert;
    ghost var s := headers[..index];
    var pos := index;
    while pos > 0 && section.rawPointer < headers[pos - 1].rawPointer
      invariant pos <= index
      invariant forall k | 0 <= k < pos :: headers[k] == s[k]
      invariant forall k | pos <= k < index :: headers[k + 1] == s[k] && section.rawPointer < s[k].rawPointer
    {
      assert headers[pos - 1] == s[pos - 1];
      headers[pos] := headers[pos - 1];
      pos := pos - 1;
    }
    headers[pos] := section;
    InsertSplit(s, pos, section);
    ghost var h := headers[..index + 1];
    assert forall j | pos < j <= index :: h[j] == s[j - 1];
    Shifted(h, s, pos, section);
  }

  lemma Shifted(h: seq<Section>, s: seq<Section>, pos: nat, x: Section)
    requires pos <= |s| && |h| == |s| + 1
    requires (forall k | 0 <= k < pos :: h[k] == s[k]) && h[pos] == x && forall j | pos < j <= |s| :: h[j] == s[j - 1]
    ensures h == s[..pos] + [x] + s[pos..]
  {
    var r := s[..pos] + [x] + s[pos..];
    forall k | 0 <= k < |h|
      ensures h[k] == r[k]
    {
    }
  }

  method SortHeaders(table: seq<Section>) returns (headers: array<Section>)
    ensures fresh(headers) && headers[..] == Sort(table)
  {
    headers := new Section[|table|](_ => Section(0, 0, 0, 0));
    var index := 0;
    assert Sort([]) == [];
    while index < |table|
      invariant 0 <= index <= |table| == headers.Length
      invariant headers[..index] == Sort(table[..index])
    {
      InsertHeader(headers, index, table[index]);
      assert table[..index + 1][..index] == table[..index];
      index := index + 1;
    }
    assert table[..index] == table;
    assert headers[..] == headers[..index];
  }
}
