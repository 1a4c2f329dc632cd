/** The functions of sections 3.2 and 4 of FIPS 180-4, bit by bit. */
module Sha1Bits {
  import opened Sha1

  /** Bit i of a word, the least significant one being bit 0. */
  function BitOf(x: bv32, i: bv6): bv32
    requires i < 32
  {
    (x >> i) & 1
  }

  /** Bit i moves to bit i + n, around the word. */
  lemma RotlBit(x: bv32, n: bv6, i: bv6)
    requires 0 < n < 32 && i < 32
    ensures BitOf(Rotl(x, n), if i + n < 32 then i + n else i + n - 32) == BitOf(x, i)
  {
    hide Rotl, BitOf;
    if i + n < 32 { RotlUp(x, n, i); } else { RotlAround(x, n, i); }
  }

  lemma RotlUp(x: bv32, n: bv6, i: bv6)
    requires 0 < n < 32 && i < 32 && i + n < 32
    ensures BitOf(Rotl(x, n), i + n) == BitOf(x, i)
  {
    OrShift(x << n, x >> (32 - n), i + n);
    ShiftedOut(x, n, i + n);
    ShiftedUp(x, n, i);
  }

  lemma RotlAround(x: bv32, n: bv6, i: bv6)
    requires 0 < n < 32 && i < 32 && i + n >= 32
    ensures BitOf(Rotl(x, n), i + n - 32) == BitOf(x, i)
  {
    OrShift(x << n, x >> (32 - n), i + n - 32);
    ShiftedIn(x, n, i + n - 32);
    ShiftedDown(x, 32 - n, i);
  }

  lemma OrShift(a: bv32, b: bv32, j: bv6)
    requires j < 32
    ensures (a | b) >> j == (a >> j) | (b >> j)
  {
  }

  lemma ShiftedUp(x: bv32, n: bv6, i: bv6)
    requires n < 32 && i < 32 && i + n < 32
    ensures ((x << n) >> (i + n)) & 1 == (x >> i) & 1
  {
  }

  lemma ShiftedDown(x: bv32, n: bv6, i: bv6)
    requires n <= i < 32
    ensures ((x >> n) >> (i - n)) & 1 == (x >> i) & 1
  {
  }

  lemma ShiftedOut(x: bv32, n: bv6, j: bv6)
    requires 0 < n <= j < 32
    ensures (x >> (32 - n)) >> j == 0
  {
  }

  lemma ShiftedIn(x: bv32, n: bv6, j: bv6)
    requires j < n < 32
    ensures ((x << n) >> j) & 1 == 0
  {
  }

  /** Rounds 0 to 19: the bits of y where x has one, and those of z where it has none. */
  lemma ChooseBits(t: nat, x: bv32, y: bv32, z: bv32)
    requires t < 20
    ensures F(t, x, y, z) == (x & y) | (!x & z)
  {
    hide Ch, Maj, Parity;
    ChIs(x, y, z);
  }

  lemma ChIs(x: bv32, y: bv32, z: bv32)
    ensures Ch(x, y, z) == (x & y) | (!x & z)
  {
  }

  /** Rounds 40 to 59: the bits that two of the three have. */
  lemma MajorityBits(t: nat, x: bv32, y: bv32, z: bv32)
    requires 40 <= t < 60
    ensures F(t, x, y, z) == (x & y) | (x & z) | (y & z)
  {
    hide Ch, Maj, Parity;
    MajIs(x, y, z);
  }

  lemma MajIs(x: bv32, y: bv32, z: bv32)
    ensures Maj(x, y, z) == (x & y) | (x & z) | (y & z)
  {
  }

  /** The other rounds: the bits that one of the three has alone, or all of them. */
  lemma OddBits(t: nat, x: bv32, y: bv32, z: bv32)
    requires 20 <= t < 40 || 60 <= t < 80
    ensures F(t, x, y, z) == (x & !y & !z) | (!x & y & !z) | (!x & !y & z) | (x & y & z)
  {
    hide Ch, Maj, Parity;
    ParityIs(x, y, z);
  }

  lemma ParityIs(x: bv32, y: bv32, z: bv32)
    ensures Parity(x, y, z) == (x & !y & !z) | (!x & y & !z) | (!x & !y & z) | (x & y & z)
  {
  }

  /** The constants are the roots of 2, 3, 5 and 10, times 2^30 and cut. */
  lemma ConstantRoots(t: nat)
    requires t < 80
    ensures var k, n := K(t) as int, if t < 20 then 2 else if t < 40 then 3 else if t < 60 then 5 else 10;
            k * k <= n * 0x1000_0000_0000_0000 < (k + 1) * (k + 1)
  {
  }

  /** Words are written and read most significant byte first. */
  lemma WordRoundTrip(w: bv32)
    ensures |WordBytes(w)| == 4 && WordAt(WordBytes(w), 0) == w
    ensures WordBytes(w)[0] == (w >> 24) as bv8 && WordBytes(w)[3] == (w & 0xFF) as bv8
  {
  }

  lemma LengthRoundTrip(v: bv64)
    ensures WordAt(BigEndian(v), 0) == (v >> 32) as bv32 && WordAt(BigEndian(v), 4) == (v & 0xFFFF_FFFF) as bv32
  {
  }

}
