/** Bytes in memory and the little-endian integers the i386 kernel keeps in them. */
module Bytes {
  type byte = x: int | 0 <= x < 256

  const U16_END: int := 0x1_0000
  const U32_END: int := 0x1_0000_0000
  const U64_END: int := 0x1_0000_0000_0000_0000

  function Min(a: int, b: int): int {
    if a < b then a else b
  }

  function Max(a: int, b: int): int {
    if a < b then b else a
  }

  /** `memset(s, 0, n)`. */
  function Zeros(n: nat): (s: seq<byte>)
    ensures |s| == n && forall i :: 0 <= i < n ==> s[i] == 0
  {
    seq(n, _ => 0)
  }

  /** `*(u16 *)(s + at)`. */
  function U16(s: seq<byte>, at: nat): (v: nat)
    requires at + 2 <= |s|
    ensures v < U16_END
  {
    s[at] as int + 0x100 * s[at + 1] as int
  }

  /** `*(u32 *)(s + at)`. */
  function U32(s: seq<byte>, at: nat): (v: nat)
    requires at + 4 <= |s|
    ensures v < U32_END
  {
    s[at] as int + 0x100 * s[at + 1] as int + 0x1_0000 * s[at + 2] as int + 0x100_0000 * s[at + 3] as int
  }

  function FromU16(v: nat): (s: seq<byte>)
    requires v < U16_END
    ensures |s| == 2 && U16(s, 0) == v
  {
    [v % 0x100, v / 0x100]
  }

  function FromU32(v: nat): (s: seq<byte>)
    requires v < U32_END
    ensures |s| == 4 && U32(s, 0) == v
  {
    ByteDigits(v);
    [v % 0x100, v / 0x100 % 0x100, v / 0x1_0000 % 0x100, v / 0x100_0000]
  }

  lemma ByteDigits(v: nat)
    requires v < U32_END
    ensures v == v % 0x100 + 0x100 * (v / 0x100 % 0x100) + 0x1_0000 * (v / 0x1_0000 % 0x100)
            + 0x100_0000 * (v / 0x100_0000)
    ensures v / 0x100_0000 < 0x100
  {
    var a := v / 0x100;
    var b := a / 0x100;
    var c := b / 0x100;
    assert v / 0x1_0000 == b && v / 0x100_0000 == c;
  }

  /** `memcpy(s + at, d, |d|)`. */
  function Splice<T>(s: seq<T>, at: nat, d: seq<T>): (r: seq<T>)
    requires at + |d| <= |s|
    ensures |r| == |s|
    ensures forall k :: 0 <= k < |s| ==> r[k] == if at <= k < at + |d| then d[k - at] else s[k]
  {
    s[..at] + d + s[at + |d|..]
  }

  /** A word written with memcpy reads back, and words outside the range are untouched. */
  lemma SpliceU32(s: seq<byte>, at: nat, d: seq<byte>, k: nat)
    requires at + |d| <= |s| && k + 4 <= |s|
    ensures at <= k && k + 4 <= at + |d| ==> U32(Splice(s, at, d), k) == U32(d, k - at)
    ensures k + 4 <= at || at + |d| <= k ==> U32(Splice(s, at, d), k) == U32(s, k)
  {
  }

  lemma SpliceU16(s: seq<byte>, at: nat, d: seq<byte>, k: nat)
    requires at + |d| <= |s| && k + 2 <= |s|
    ensures at <= k && k + 2 <= at + |d| ==> U16(Splice(s, at, d), k) == U16(d, k - at)
    ensures k + 2 <= at || at + |d| <= k ==> U16(Splice(s, at, d), k) == U16(s, k)
  {
  }

  lemma SliceU32(s: seq<byte>, lo: nat, hi: nat, k: nat)
    requires lo <= hi <= |s| && lo + k + 4 <= hi
    ensures U32(s[lo..hi], k) == U32(s, lo + k)
  {
  }

  /** Two ways of cutting a sequence at the same place give the same parts. */
  lemma CutAt<T>(a: seq<T>, b: seq<T>, c: seq<T>, d: seq<T>)
    requires a + b == c + d && |a| == |c|
    ensures a == c && b == d
  {
    assert a == (a + b)[..|a|] && b == (a + b)[|a|..];
    assert c == (c + d)[..|c|] && d == (c + d)[|c|..];
  }

  lemma SliceJoin<T>(s: seq<T>, a: nat, b: nat, c: nat)
    requires a <= b <= c <= |s|
    ensures s[a..b] + s[b..c] == s[a..c]
  {
  }

  lemma PrefixJoin<T>(s: seq<T>, k: nat, n: nat)
    requires k + n <= |s|
    ensures s[..k] + s[k..][..n] == s[..k + n]
  {
  }
}
