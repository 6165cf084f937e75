/** Bytes and little-endian numbers, as every structure in the firmware's memory lays them out. */
module Bytes {

  newtype byte = x: int | 0 <= x < 0x100

  const TWO16 := 0x1_0000
  const TWO31 := 0x8000_0000
  const TWO32 := 0x1_0000_0000
  const TWO63 := 0x8000_0000_0000_0000
  const TWO64 := 0x1_0000_0000_0000_0000

  function Pow256(n: nat): (p: nat)
    ensures p > 0
  {
    if n == 0 then 1 else 0x100 * Pow256(n - 1)
  }

  /** The number that a run of bytes stands for, least significant byte first. */
  function FromLE(s: seq<byte>): (v: nat) {
    if s == [] then 0 else s[0] as nat + 0x100 * FromLE(s[1..])
  }

  /** The n bytes of v, least significant first; higher bytes of v are cut off. */
  function ToLE(v: nat, n: nat): (s: seq<byte>)
    ensures |s| == n
    decreases n
  {
    if n == 0 then [] else [(v % 0x100) as byte] + ToLE(v / 0x100, n - 1)
  }

  function Read16(s: seq<byte>, at: nat): nat
    requires at + 2 <= |s|
  {
    FromLE(s[at..at + 2])
  }

  function Read32(s: seq<byte>, at: nat): nat
    requires at + 4 <= |s|
  {
    FromLE(s[at..at + 4])
  }

  lemma {:induction false} FromLEBound(s: seq<byte>)
    ensures FromLE(s) < Pow256(|s|)
  {
    if s != [] {
      FromLEBound(s[1..]);
    }
  }

  lemma ModMul(v: nat, m: nat)
    requires m > 0
    ensures v % (0x100 * m) == v % 0x100 + 0x100 * (v / 0x100 % m)
  {
    var q, r := v / 0x100, v % 0x100;
    var a, b := q / m, q % m;
    assert v == 0x100 * (a * m + b) + r;
    assert v == (0x100 * m) * a + (0x100 * b + r) by {
      assert 0x100 * (a * m) == (0x100 * m) * a;
    }
    assert 0 <= 0x100 * b + r < 0x100 * m;
    ModUnique(v, 0x100 * m, a, 0x100 * b + r);
  }

  lemma ModUnique(v: int, d: nat, q: int, r: nat)
    requires 0 <= r < d && v == d * q + r
    ensures v % d == r && v / d == q
  {
    var q', r' := v / d, v % d;
    assert v == d * q' + r';
    assert d * q + r == d * q' + r';
    assert d * (q' + 1) == d * q' + d;
    assert d * (q + 1) == d * q + d;
    if q > q' {
      MulMonotone(d, q' + 1, q);
    } else if q < q' {
      MulMonotone(d, q + 1, q');
    }
  }

  lemma ModEqual(x: int, y: int, k: int, m: nat)
    requires m > 0 && x == y + k * m
    ensures x % m == y % m
  {
    var q, r := y / m, y % m;
    assert x == m * (q + k) + r by {
      assert m * (q + k) == m * q + k * m;
    }
    ModUnique(x, m, q + k, r);
  }

  lemma MulMonotone(d: nat, a: int, b: int)
    requires a <= b
    ensures d * a <= d * b
  {
  }

  lemma {:induction false} FromToLE(v: nat, n: nat)
    ensures FromLE(ToLE(v, n)) == v % Pow256(n)
    decreases n
  {
    if n > 0 {
      FromToLE(v / 0x100, n - 1);
      assert ToLE(v, n)[1..] == ToLE(v / 0x100, n - 1);
      ModMul(v, Pow256(n - 1));
    }
  }

  lemma {:induction false} ToFromLE(s: seq<byte>)
    ensures ToLE(FromLE(s), |s|) == s
  {
    if s != [] {
      ToFromLE(s[1..]);
      assert FromLE(s) % 0x100 == s[0] as nat;
      assert FromLE(s) / 0x100 == FromLE(s[1..]);
    }
  }

  /** ToLE only sees its number modulo the width. */
  lemma {:induction false} ToLEMod(v: nat, n: nat)
    ensures ToLE(v % Pow256(n), n) == ToLE(v, n)
    decreases n
  {
    var t := ToLE(v, n);
    FromToLE(v, n);
    ToFromLE(t);
  }

  lemma WordSizes()
    ensures Pow256(2) == 0x1_0000 && Pow256(4) == 0x1_0000_0000 && Pow256(8) == 0x1_0000_0000_0000_0000
  {
    assert Pow256(1) == 0x100;
    assert Pow256(2) == 0x1_0000;
    assert Pow256(3) == 0x100_0000;
    assert Pow256(4) == 0x1_0000_0000;
    assert Pow256(5) == 0x100_0000_0000;
    assert Pow256(6) == 0x1_0000_0000_0000;
    assert Pow256(7) == 0x100_0000_0000_0000;
  }

  function Zeros(n: nat): (z: seq<byte>)
    ensures |z| == n && forall i | 0 <= i < n :: z[i] == 0
  {
    seq(n, _ => 0)
  }

  lemma SliceOfSlice(s: seq<byte>, pos: nat, end: nat, i: nat, j: nat)
    requires pos <= end <= |s| && i <= j && pos + j <= end
    ensures s[pos..end][i..j] == s[pos + i..pos + j]
  {
    var a, b := s[pos..end][i..j], s[pos + i..pos + j];
    assert |a| == |b| && forall k | 0 <= k < |a| :: a[k] == b[k];
  }

  /** s with the bytes from at on overwritten by t. */
  function Overwrite<T>(s: seq<T>, at: nat, t: seq<T>): (r: seq<T>)
    requires at + |t| <= |s|
    ensures |r| == |s|
    ensures r[at..at + |t|] == t
    ensures forall k | 0 <= k < |s| && !(at <= k < at + |t|) :: r[k] == s[k]
  {
    s[..at] + t + s[at + |t|..]
  }

  method CopyMem<T>(dest: array<T>, at: nat, src: seq<T>)
    requires at + |src| <= dest.Length
    modifies dest
    ensures dest[..] == Overwrite(old(dest[..]), at, src)
  {
    var k := 0;
    while k < |src|
      invariant 0 <= k <= |src|
      invariant dest[at..at + k] == src[..k]
      invariant dest[..at] == old(dest[..at])
      invariant dest[at + k..] == old(dest[at + k..])
    {
      dest[at + k] := src[k];
      k := k + 1;
    }
    assert dest[..] == dest[..at] + dest[at..at + k] + dest[at + k..];
  }
}
