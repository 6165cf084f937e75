/** Printing into a pool string that grows: characters pass through a small staging buffer that is emptied into the
    pool whenever it is full. */
module PoolPrint {
  import opened Bytes
  import opened Text

  const PRINT_STRING_LEN := 200
  const BUFFER_END := PRINT_STRING_LEN - 1

  // ---- What is put, and what is kept of it ----

  /** A newline is preceded by a carriage return. */
  function Expand(c: CHAR16): (s: String)
    requires c != NUL
  {
    if c == NEWLINE then [CARRIAGE_RETURN, c] else [c]
  }

  function ExpandAll(s: String): (t: String) {
    if s == [] then [] else Expand(s[0]) + ExpandAll(s[1..])
  }

  predicate IsTail(t: seq<CHAR16>, s: seq<CHAR16>) {
    |t| <= |s| && s[|s| - |t|..] == t
  }

  /** after is what is left of before with put behind it: all of it if intact, and the end of it in any case. */
  predicate Kept(before: seq<CHAR16>, put: seq<CHAR16>, after: seq<CHAR16>, intact: bool) {
    IsTail(after, before + put) && (intact ==> after == before + put)
  }

  lemma KeptNothing(before: seq<CHAR16>)
    ensures Kept(before, [], before, true)
  {
    assert before + [] == before;
  }

  lemma KeptTwice(a: seq<CHAR16>, s: seq<CHAR16>, b: seq<CHAR16>, i: bool, t: seq<CHAR16>, c: seq<CHAR16>, j: bool)
    requires Kept(a, s, b, i) && Kept(b, t, c, j)
    ensures Kept(a, s + t, c, i && j)
  {
    var whole := a + (s + t);
    assert whole == (a + s) + t;
    assert whole[|whole| - |b + t|..] == b + t;
    assert whole[|whole| - |c|..] == (b + t)[|b + t| - |c|..];
  }

  lemma {:induction false} ExpandAllConcat(s: String, t: String)
    ensures ExpandAll(s + t) == ExpandAll(s) + ExpandAll(t)
  {
    if s == [] {
      assert s + t == t;
    } else {
      assert (s + t)[1..] == s[1..] + t;
      ExpandAllConcat(s[1..], t);
    }
  }

  lemma ExpandAllSnoc(s: String, c: CHAR16)
    requires c != NUL
    ensures ExpandAll(s + [c]) == ExpandAll(s) + Expand(c)
  {
    ExpandAllConcat(s, [c]);
    assert [c][1..] == [];
  }

  /** In the expanded text no newline stands without its carriage return. */
  lemma {:induction false} NewlinesReturned(s: String)
    ensures forall i | 0 <= i < |ExpandAll(s)| && ExpandAll(s)[i] == NEWLINE ::
      i > 0 && ExpandAll(s)[i - 1] == CARRIAGE_RETURN
  {
    if s != [] {
      NewlinesReturned(s[1..]);
      var e, t := Expand(s[0]), ExpandAll(s[1..]);
      forall i | 0 <= i < |e + t| && (e + t)[i] == NEWLINE
        ensures i > 0 && (e + t)[i - 1] == CARRIAGE_RETURN
      {
        if i >= |e| {
          assert t[i - |e|] == NEWLINE;
        }
      }
    }
  }

  /** Nothing else is added: without its carriage returns the expanded text is the text without its own. */
  lemma {:induction false} OnlyReturnsAdded(s: String)
    ensures Contracted(ExpandAll(s)) == Contracted(s)
  {
    if s != [] {
      OnlyReturnsAdded(s[1..]);
      ContractedConcat(Expand(s[0]), ExpandAll(s[1..]));
      assert Contracted(Expand(s[0])) == if s[0] == CARRIAGE_RETURN then [] else [s[0]] by {
        ContractedConcat([CARRIAGE_RETURN], [s[0]]);
        assert [CARRIAGE_RETURN] + [s[0]] == [CARRIAGE_RETURN, s[0]];
      }
    }
  }

  /** The text without its carriage returns. */
  function Contracted(s: seq<CHAR16>): seq<CHAR16> {
    if s == [] then [] else (if s[0] == CARRIAGE_RETURN then [] else [s[0]]) + Contracted(s[1..])
  }

  lemma {:induction false} ContractedConcat(e: seq<CHAR16>, t: seq<CHAR16>)
    ensures Contracted(e + t) == Contracted(e) + Contracted(t)
  {
    if e == [] {
      assert e + t == t;
    } else {
      assert (e + t)[1..] == e[1..] + t;
      ContractedConcat(e[1..], t);
    }
  }

  // ---- Items ----

  /** What stands in an item's field width if the format gives none. */
  const NO_FIELD_WIDTH := 0xFFFF_FFFF_FFFF_FFFF

  datatype Item = Item(text: String, width: nat, fieldWidth: nat, pad: CHAR16, padBefore: bool)

  predicate ValidItem(item: Item) {
    item.pad != NUL && |item.text| < NO_FIELD_WIDTH
  }

  function Max(a: nat, b: nat): nat {
    if a < b then b else a
  }

  /** How much of the text is shown. */
  function Shown(item: Item): (n: nat)
    ensures n <= |item.text|
  {
    if |item.text| < item.fieldWidth then |item.text| else item.fieldWidth
  }

  function Field(item: Item): nat {
    if item.fieldWidth == NO_FIELD_WIDTH then Shown(item) else item.fieldWidth
  }

  /** Spaces that fill the field up. */
  function Gap(item: Item): nat {
    var width := Max(item.width, Shown(item));
    if width < Field(item) then Field(item) - width else 0
  }

  function Run(c: CHAR16, n: nat): (s: String)
    requires c != NUL
    ensures |s| == n && forall i | 0 <= i < n :: s[i] == c
  {
    seq(n, _ => c)
  }

  function ItemText(item: Item): (s: String)
    requires ValidItem(item)
  {
    var width := Max(item.width, Shown(item));
    (if item.padBefore then Run(SPACE, Gap(item)) else [])
    + Run(item.pad, width - Shown(item)) + item.text[..Shown(item)]
    + (if item.padBefore then [] else Run(SPACE, Gap(item)))
  }

  /** The item behind a text, part by part in the order of printing. */
  lemma ItemParts(item: Item, text: String)
    requires ValidItem(item)
    ensures var n := Shown(item);
      text + ItemText(item)
      == text + Run(SPACE, if item.padBefore then Gap(item) else 0) + Run(item.pad, Max(item.width, n) - n)
         + item.text[..n] + Run(SPACE, if item.padBefore then 0 else Gap(item))
  {
    assert Run(SPACE, 0) == [];
  }

  /** An item is as wide as its width, its field and its shown text demand, and the padding up to the width always
      stands in front: only the spaces up to the field width may follow the text. */
  lemma ItemLayout(item: Item)
    requires ValidItem(item)
    ensures var t, n, width := ItemText(item), Shown(item), Max(item.width, Shown(item));
      var at := (if item.padBefore then Gap(item) else 0) + (width - n);
      && |t| == Max(width, Field(item))
      && at + n <= |t| && t[at..at + n] == item.text[..n]
      && (forall i | at - (width - n) <= i < at :: t[i] == item.pad)
      && (forall i | 0 <= i < |t| && !(at - (width - n) <= i < at + n) :: t[i] == SPACE)
  {
    var t, n, width := ItemText(item), Shown(item), Max(item.width, Shown(item));
    var at := (if item.padBefore then Gap(item) else 0) + (width - n);
    assert t[at..at + n] == item.text[..n];
  }

  /** Asking for the left does not bring the text to the left of a width larger than the text. */
  lemma LeftOnlyIff(item: Item)
    requires ValidItem(item) && item.text != [] && item.fieldWidth > 0 && item.text[0] !in {item.pad, SPACE}
    ensures ItemText(item)[..1] == item.text[..1] <==>
      item.width <= Shown(item) && (item.padBefore ==> Field(item) <= Shown(item))
  {
    ItemLayout(item);
    var t, n, width := ItemText(item), Shown(item), Max(item.width, Shown(item));
    var at := (if item.padBefore then Gap(item) else 0) + (width - n);
    assert t[at] == t[at..at + n][0] == item.text[0];
    assert t[..1] == [t[0]] && item.text[..1] == [item.text[0]];
  }

  // ---- The pool string ----

  function Flattened(texts: seq<String>): String {
    if texts == [] then [] else Flattened(texts[..|texts| - 1]) + texts[|texts| - 1]
  }

  lemma NothingFlattened(texts: seq<String>)
    ensures Flattened(texts[..0]) == []
  {
  }

  lemma FlattenedStep(texts: seq<String>, n: nat, before: String)
    requires n < |texts|
    ensures before + Flattened(texts[..n + 1]) == before + Flattened(texts[..n]) + texts[n]
  {
    assert texts[..n + 1][..n] == texts[..n];
  }

  /** A string in pool memory, the part of it in use, and its capacity. Whether the pool has room for the i-th
      request is given in advance. */
  class PoolString {
    var str: array?<CHAR16>
    var len: nat
    var maxlen: nat
    var asked: nat
    const room: nat -> bool

    constructor (room: nat -> bool)
      ensures Valid() && Contents() == [] && str == null && this.room == room && asked == 0
    {
      str, len, maxlen, asked, this.room := null, 0, 0, 0, room;
    }

    ghost predicate Valid()
      reads this, Storage()
    {
      && (str == null ==> len == 0 && maxlen == 0)
      && (str != null ==>
           && str.Length == maxlen && len < maxlen && str[len] == NUL
           && forall i | 0 <= i < len :: str[i] != NUL)
    }

    ghost function Storage(): set<object>
      reads this
    {
      if str == null then {} else {str}
    }

    /** The text up to the terminator. */
    ghost function Contents(): (s: String)
      reads this, Storage()
      requires Valid()
    {
      if str == null then [] else str[..len]
    }

    /** No request from the first-th to before the last-th fails. */
    ghost predicate Granted(first: nat, last: nat) {
      forall i | first <= i < last :: room(i)
    }

    /** New memory for the pool string with its text copied over; the old memory is gone in any case. */
    method Reallocate(size: nat)
      requires Valid() && len < size
      modifies this
      ensures asked == old(asked) + 1 && len == old(len) && maxlen == old(maxlen)
      ensures str == null <==> !room(old(asked))
      ensures str != null ==> fresh(str) && str.Length == size && str[..len] == old(Contents())
    {
      var granted := room(asked);
      asked := asked + 1;
      if !granted {
        str := null;
        return;
      }
      var grown := new CHAR16[size];
      if str != null {
        CopyMem(grown, 0, str[..len]);
      }
      str := grown;
    }

    /** Appends what fits below maxlen and terminates the string. */
    method SPrint(text: String)
      requires str == null ==> len == 0 && maxlen == 0
      requires str != null ==> len <= maxlen <= str.Length
      modifies this`len, Storage()
      ensures len == if old(len) + |text| <= maxlen then old(len) + |text| else maxlen
      ensures str != null && maxlen > 0 ==>
        var all := old(str[..len]) + text;
        var shown := if len < maxlen then len else maxlen - 1;
        && str[..shown] == all[..shown] && str[shown] == NUL
        && forall i | len < i < str.Length :: str[i] == old(str[i])
    {
      hide Overwrite;
      var n := |text|;
      if len + n > maxlen {
        n := maxlen - len;
      }
      if str != null {
        CopyMem(str, len, text[..n]);
        assert str[..len + n] == old(str[..len]) + text[..n];
      }
      len := len + n;
      if len < maxlen {
        str[len] := NUL;
      } else if maxlen != 0 {
        str[maxlen - 1] := NUL;
      }
    }

    /** A caller's buffer shows total: its first maxlen - 1 characters, terminated, although len counts one more. */
    ghost predicate Shows(total: seq<CHAR16>)
      reads this, Storage()
    {
      && str != null && maxlen <= str.Length
      && len == (if |total| < maxlen then |total| else maxlen)
      && (maxlen > 0 ==>
           var shown := if |total| < maxlen then |total| else maxlen - 1;
           str[..shown] == total[..shown] && str[shown] == NUL)
    }

    method SPrintMore(text: String, ghost total: String)
      requires Shows(total)
      modifies this`len, str
      ensures Shows(total + text)
    {
      ghost var was, more := str[..len], total + text;
      SPrint(text);
      if |total| < maxlen {
        assert was == total;
      } else if maxlen > 0 {
        assert was[..maxlen - 1] == total[..maxlen - 1];
        assert (was + text)[..maxlen - 1] == more[..maxlen - 1];
      }
    }

    /** Printing into a buffer of fixed size: however the text is cut into strings, the buffer shows the same. */
    method SPrintAll(texts: seq<String>, ghost before: String)
      requires Shows(before)
      modifies this`len, str
      ensures Shows(before + Flattened(texts))
      ensures maxlen > 0 ==> (str[..len] == before + Flattened(texts) <==> |before + Flattened(texts)| < maxlen)
    {
      hide Flattened;
      NothingFlattened(texts);
      for n := 0 to |texts|
        invariant Shows(before + Flattened(texts[..n]))
      {
        SPrintMore(texts[n], before + Flattened(texts[..n]));
        FlattenedStep(texts, n, before);
      }
      assert texts[..|texts|] == texts;
    }

    /** Appends a string, growing the pool memory first if it and its terminator do not fit. */
    method Append(text: String)
      requires Valid()
      modifies this, Storage()
      ensures Valid() && fresh(Storage() - old(Storage()))
      ensures asked == old(asked) + (if old(len) + |text| + 1 > old(maxlen) then 1 else 0)
      ensures Contents() == if Granted(old(asked), asked) then old(Contents()) + text else []
      ensures !Granted(old(asked), asked) ==> str == null
      ensures Granted(old(asked), asked) ==> str != null
    {
      var newlen := len + |text| + 1;
      if newlen > maxlen {
        newlen := newlen + PRINT_STRING_LEN;
        Reallocate(newlen);
        maxlen := newlen;
        if str == null {
          len := 0;
          maxlen := 0;
        }
      }
      assert str != null ==> str[..len] == old(Contents());
      SPrint(text);
      assert str != null ==> str[..len] == old(Contents()) + text;
      if str != null {
        forall i | 0 <= i < len
          ensures str[i] != NUL
        {
          assert str[i] == (old(Contents()) + text)[i];
        }
      }
    }
  }

  // ---- The print state ----

  /** A moment in the printing: what the output and the counters were. */
  datatype Origin = Origin(output: seq<CHAR16>, len: nat, asked: nat)

  class PrintState {
    const pool: PoolString
    const buffer: array<CHAR16>
    var pos: nat
    var len: nat

    constructor (pool: PoolString)
      requires pool.Valid()
      ensures Valid() && this.pool == pool && fresh(buffer) && len == 0 && Output() == pool.Contents()
    {
      this.pool := pool;
      buffer := new CHAR16[PRINT_STRING_LEN];
      pos, len := 0, 0;
      new;
      assert pool.Contents() + buffer[..0] == pool.Contents();
    }

    /** There is always room left in the staging buffer for a character and a terminator. */
    ghost predicate Valid()
      reads this, buffer, pool, pool.Storage()
    {
      && pool.Valid() && buffer.Length == PRINT_STRING_LEN && pos < BUFFER_END
      && pool.str != buffer
      && forall i | 0 <= i < pos :: buffer[i] != NUL
    }

    ghost function Footprint(): set<object>
      reads this, pool
    {
      {this, buffer, pool} + pool.Storage()
    }

    /** Everything put so far that is not lost: the pool string and the staging buffer behind it. */
    ghost function Output(): seq<CHAR16>
      reads this, buffer, pool, pool.Storage()
      requires Valid()
    {
      pool.Contents() + buffer[..pos]
    }

    /** Empties the staging buffer into the pool string. Only a failed allocation loses anything, and it loses
        everything. */
    method Flush()
      requires pool.Valid() && buffer.Length == PRINT_STRING_LEN && pos <= BUFFER_END && pool.str != buffer
      requires forall i | 0 <= i < pos :: buffer[i] != NUL
      modifies this`pos, buffer, pool, pool.Storage()
      ensures Valid() && fresh(pool.Storage() - old(pool.Storage())) && pos == 0
      ensures pool.asked >= old(pool.asked)
      ensures var all := old(pool.Contents() + buffer[..pos]);
        && Output() == pool.Contents() == (if pool.Granted(old(pool.asked), pool.asked) then all else [])
        && (Output() == all <==> pool.Granted(old(pool.asked), pool.asked) || all == [])
      ensures pool.str == null <==> !pool.Granted(old(pool.asked), pool.asked)
    {
      ghost var staged := buffer[..pos];
      buffer[pos] := NUL;
      var text := Up(buffer, pos);
      assert text == staged;
      pool.Append(text);
      pos := 0;
      assert pool.Contents() + buffer[..0] == pool.Contents();
    }

    /** The string at the front of the staging buffer, as its reader finds it: up to the first terminator. */
    static method Up(a: array<CHAR16>, ghost end: nat) returns (s: String)
      requires end < a.Length && a[end] == NUL && forall i | 0 <= i < end :: a[i] != NUL
      ensures s == a[..end]
    {
      var n := 0;
      while a[n] != NUL
        invariant 0 <= n <= end
        decreases end - n
      {
        n := n + 1;
      }
      s := a[..n];
    }

    /** Stores one character and flushes when the buffer's last place is reached. */
    method Store(c: CHAR16)
      requires Valid() && c != NUL
      modifies Footprint()
      ensures Valid() && fresh(pool.Storage() - old(pool.Storage()))
      ensures len == old(len) + 1 && pool.asked >= old(pool.asked)
      ensures Kept(old(Output()), [c], Output(), pool.Granted(old(pool.asked), pool.asked))
    {
      buffer[pos] := c;
      assert buffer[..pos + 1] == old(buffer[..pos]) + [c];
      pos := pos + 1;
      len := len + 1;
      assert pool.Contents() + buffer[..pos] == old(Output()) + [c];
      if pos >= BUFFER_END {
        Flush();
      }
    }

    method PutExpanded(c: CHAR16)
      requires Valid() && c != NUL
      modifies Footprint()
      ensures Valid() && fresh(pool.Storage() - old(pool.Storage()))
      ensures len == old(len) + |Expand(c)| && pool.asked >= old(pool.asked)
      ensures Kept(old(Output()), Expand(c), Output(), pool.Granted(old(pool.asked), pool.asked))
    {
      if c == NEWLINE {
        Store(CARRIAGE_RETURN);
        ghost var mid, asked := Output(), pool.asked;
        Store(c);
        KeptTwice(old(Output()), [CARRIAGE_RETURN], mid, pool.Granted(old(pool.asked), asked),
                  [c], Output(), pool.Granted(asked, pool.asked));
        assert [CARRIAGE_RETURN] + [c] == Expand(c);
      } else {
        Store(c);
      }
    }

    /** Since the origin this text has been put: it has been counted, and it is all there unless an allocation has
        failed. */
    ghost predicate HasPut(from: Origin, text: String)
      reads this, buffer, pool, pool.Storage()
      requires Valid()
    {
      && from.asked <= pool.asked
      && len == from.len + |ExpandAll(text)|
      && Kept(from.output, ExpandAll(text), Output(), pool.Granted(from.asked, pool.asked))
    }

    ghost function Here(): Origin
      reads this, buffer, pool, pool.Storage()
      requires Valid()
    {
      Origin(Output(), len, pool.asked)
    }

    lemma NothingPutYet()
      requires Valid()
      ensures HasPut(Here(), [])
    {
      KeptNothing(Output());
    }

    /** A newline is put with a carriage return in front. */
    method Put(c: CHAR16, ghost from: Origin, ghost text: String)
      requires Valid() && c != NUL && HasPut(from, text)
      modifies Footprint()
      ensures Valid() && fresh(pool.Storage() - old(pool.Storage()))
      ensures HasPut(from, text + [c])
    {
      hide Kept, ExpandAll, Expand;
      ghost var mid, asked := Output(), pool.asked;
      PutExpanded(c);
      KeptTwice(from.output, ExpandAll(text), mid, pool.Granted(from.asked, asked),
                Expand(c), Output(), pool.Granted(asked, pool.asked));
      ExpandAllSnoc(text, c);
    }

    /** Puts the same character n times. */
    method PutRun(c: CHAR16, n: nat, ghost from: Origin, ghost text: String)
      requires Valid() && c != NUL && HasPut(from, text)
      modifies Footprint()
      ensures Valid() && fresh(pool.Storage() - old(pool.Storage()))
      ensures HasPut(from, text + Run(c, n))
    {
      hide HasPut;
      assert text + Run(c, 0) == text;
      var i := 0;
      while i < n
        invariant 0 <= i <= n
        invariant Valid() && fresh(pool.Storage() - old(pool.Storage()))
        invariant HasPut(from, text + Run(c, i))
      {
        Put(c, from, text + Run(c, i));
        assert text + Run(c, i) + [c] == text + Run(c, i + 1);
        i := i + 1;
      }
    }

    method PutString(s: String, ghost from: Origin, ghost text: String)
      requires Valid() && HasPut(from, text)
      modifies Footprint()
      ensures Valid() && fresh(pool.Storage() - old(pool.Storage()))
      ensures HasPut(from, text + s)
    {
      hide HasPut;
      assert text + s[..0] == text;
      var i := 0;
      while i < |s|
        invariant 0 <= i <= |s|
        invariant Valid() && fresh(pool.Storage() - old(pool.Storage()))
        invariant HasPut(from, text + s[..i])
      {
        Put(s[i], from, text + s[..i]);
        assert text + s[..i] + [s[i]] == text + s[..i + 1];
        i := i + 1;
      }
      assert s[..i] == s;
    }

    /** Puts an item with its padding. */
    method PutItem(item: Item, ghost from: Origin, ghost text: String)
      requires Valid() && ValidItem(item) && HasPut(from, text)
      modifies Footprint()
      ensures Valid() && fresh(pool.Storage() - old(pool.Storage()))
      ensures HasPut(from, text + ItemText(item))
    {
      hide HasPut, Valid, ItemText, Run;
      var n := ShownLength(item);
      var fieldWidth := if item.fieldWidth == NO_FIELD_WIDTH then n else item.fieldWidth;
      var width := if n > item.width then n else item.width;
      var gap := if width < fieldWidth then fieldWidth - width else 0;
      var lead, trail := if item.padBefore then gap else 0, if item.padBefore then 0 else gap;
      PutRun(SPACE, lead, from, text);
      PutRun(item.pad, width - n, from, text + Run(SPACE, lead));
      PutString(item.text[..n], from, text + Run(SPACE, lead) + Run(item.pad, width - n));
      PutRun(SPACE, trail, from, text + Run(SPACE, lead) + Run(item.pad, width - n) + item.text[..n]);
      ItemParts(item, text);
    }

    /** How many characters there are up to the terminator or the field width. */
    static method ShownLength(item: Item) returns (n: nat)
      ensures n == Shown(item)
    {
      n := 0;
      while n < item.fieldWidth
        invariant 0 <= n <= |item.text| && n <= item.fieldWidth
      {
        if At(item.text, n) == NUL {
          break;
        }
        n := n + 1;
      }
    }
  }
}
