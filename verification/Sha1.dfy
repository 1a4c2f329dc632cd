/** userland/libc/tb/sha1.c against FIPS 180-4. */
module Sha1 {
  const BLOCK_BYTES: nat := 64

  type Bytes = seq<bv8>

  /** The hash value of section 5.3.1, the five words of the running hash. */
  datatype Hash = Hash(a: bv32, b: bv32, c: bv32, d: bv32, e: bv32)

  const H0 := Hash(0x67452301, 0xefcdab89, 0x98badcfe, 0x10325476, 0xc3d2e1f0)

  // FIPS 180-4.

  /** The big-endian word at place p (section 3.1). */
  function WordAt(s: Bytes, p: nat): bv32
    requires p + 4 <= |s|
  {
    (s[p] as bv32 << 24) | (s[p + 1] as bv32 << 16) | (s[p + 2] as bv32 << 8) | (s[p + 3] as bv32)
  }

  function Rotl(value: bv32, shift: bv6): bv32
    requires 0 < shift < 32
  {
    (value << shift) | (value >> (32 - shift))
  }

  function Ch(x: bv32, y: bv32, z: bv32): bv32 {
    (x & y) ^ (!x & z)
  }

  function Parity(x: bv32, y: bv32, z: bv32): bv32 {
    x ^ y ^ z
  }

  function Maj(x: bv32, y: bv32, z: bv32): bv32 {
    (x & y) ^ (x & z) ^ (y & z)
  }

  /** f_t and K_t of sections 4.1.1 and 4.2.1. */
  function F(t: nat, x: bv32, y: bv32, z: bv32): bv32
    requires t < 80
  {
    if t < 20 then Ch(x, y, z) else if 40 <= t < 60 then Maj(x, y, z) else Parity(x, y, z)
  }

  function K(t: nat): bv32
    requires t < 80
  {
    if t < 20 then 0x5a827999 else if t < 40 then 0x6ed9eba1 else if t < 60 then 0x8f1bbcdc else 0xca62c1d6
  }

  /** The message schedule W_t of section 6.1.2. */
  function Schedule(block: Bytes, t: nat): bv32
    requires |block| == BLOCK_BYTES && t < 80
  {
    if t < 16 then WordAt(block, 4 * t)
    else Rotl(Schedule(block, t - 3) ^ Schedule(block, t - 8) ^ Schedule(block, t - 14) ^ Schedule(block, t - 16), 1)
  }

  function Round(t: nat, s: Hash, w: bv32): Hash
    requires t < 80
  {
    Hash(Temporary(t, s, w), s.a, Rotl(s.b, 30), s.c, s.d)
  }

  /** The T of a round. */
  function Temporary(t: nat, s: Hash, w: bv32): bv32
    requires t < 80
  {
    Rotl(s.a, 5) + F(t, s.b, s.c, s.d) + s.e + K(t) + w
  }

  /** The working variables after t rounds. */
  function Rounds(block: Bytes, h: Hash, t: nat): Hash
    requires |block| == BLOCK_BYTES && t <= 80
  {
    if t == 0 then h else Round(t - 1, Rounds(block, h, t - 1), Schedule(block, t - 1))
  }

  function Compress(h: Hash, block: Bytes): Hash
    requires |block| == BLOCK_BYTES
  {
    Sum(Rounds(block, h, 80), h)
  }

  function Sum(s: Hash, h: Hash): Hash {
    Hash(s.a + h.a, s.b + h.b, s.c + h.c, s.d + h.d, s.e + h.e)
  }

  /** The hash of whole blocks, one after the other. */
  function HashBlocks(h: Hash, s: Bytes): Hash
    requires |s| % BLOCK_BYTES == 0
    decreases |s|
  {
    if s == [] then h else HashBlocks(Compress(h, s[..BLOCK_BYTES]), s[BLOCK_BYTES..])
  }

  /** Messages SHA-1 is defined for: fewer than 2^64 bits. */
  predicate Hashable(n: nat) {
    8 * n < 0x1_0000_0000_0000_0000
  }

  /** The number of bits of n bytes, as a 64-bit word. */
  function BitLength(n: nat): bv64
    requires Hashable(n)
  {
    (8 * n) as bv64
  }

  /** A 64-bit word, most significant byte first. */
  function BigEndian(v: bv64): (s: Bytes)
    ensures |s| == 8
  {
    [(v >> 56) as bv8, ((v >> 48) & 0xFF) as bv8, ((v >> 40) & 0xFF) as bv8, ((v >> 32) & 0xFF) as bv8,
     ((v >> 24) & 0xFF) as bv8, ((v >> 16) & 0xFF) as bv8, ((v >> 8) & 0xFF) as bv8, (v & 0xFF) as bv8]
  }

  function Zeros(n: nat): (s: Bytes)
    ensures |s| == n
  {
    seq(n, _ => 0)
  }

  /** How many zero bytes the padding of section 5.1.1 has. */
  function ZeroBytes(n: nat): nat {
    (119 - n % BLOCK_BYTES) % BLOCK_BYTES
  }

  /** It is the smallest number that makes message, end bit and zeros 448 modulo 512 bits. */
  lemma ZeroBytesLeast(n: nat)
    ensures (8 * n + 8 + 8 * ZeroBytes(n)) % 512 == 448
    ensures forall z :: 0 <= z < ZeroBytes(n) ==> (8 * n + 8 + 8 * z) % 512 != 448
  {
    var q, r := n / BLOCK_BYTES, n % BLOCK_BYTES;
    assert n == BLOCK_BYTES * q + r;
  }

  lemma PaddedLength(n: nat)
    ensures (n + 1 + ZeroBytes(n) + 8) % BLOCK_BYTES == 0
    ensures ZeroBytes(n) == if n % BLOCK_BYTES < 56 then 55 - n % BLOCK_BYTES else 119 - n % BLOCK_BYTES
  {
    var q, r := n / BLOCK_BYTES, n % BLOCK_BYTES;
    assert n == BLOCK_BYTES * q + r;
  }

  /** The padded message of section 5.1.1. */
  function Padded(m: Bytes): (s: Bytes)
    requires Hashable(|m|)
    ensures |s| % BLOCK_BYTES == 0
  {
    PaddedLength(|m|);
    m + [0x80] + Zeros(ZeroBytes(|m|)) + BigEndian(BitLength(|m|))
  }

  function WordBytes(w: bv32): Bytes {
    [(w >> 24) as bv8, ((w >> 16) & 0xFF) as bv8, ((w >> 8) & 0xFF) as bv8, (w & 0xFF) as bv8]
  }

  function Digest(h: Hash): Bytes {
    WordBytes(h.a) + WordBytes(h.b) + WordBytes(h.c) + WordBytes(h.d) + WordBytes(h.e)
  }

  /** SHA-1 of a message, in one go. */
  function Sha1Of(m: Bytes): Bytes
    requires Hashable(|m|)
  {
    Digest(HashBlocks(H0, Padded(m)))
  }

  // The code.

  /** `*(uint32_t *)(s + p)`. */
  function Load(s: Bytes, p: nat): bv32
    requires p + 4 <= |s|
  {
    (s[p] as bv32) | (s[p + 1] as bv32 << 8) | (s[p + 2] as bv32 << 16) | (s[p + 3] as bv32 << 24)
  }

  function Store(w: bv32): (s: Bytes)
    ensures |s| == 4
  {
    [(w & 0xFF) as bv8, ((w >> 8) & 0xFF) as bv8, ((w >> 16) & 0xFF) as bv8, (w >> 24) as bv8]
  }

  /** reverse_32. */
  function Reverse32(v: bv32): bv32 {
    ((v & 0x0000_00FF) << 24) | ((v & 0x0000_FF00) << 8) | ((v & 0x00FF_0000) >> 8) | ((v & 0xFF00_0000) >> 24)
  }

  lemma ReverseLoad(s: Bytes, p: nat)
    requires p + 4 <= |s|
    ensures Reverse32(Load(s, p)) == WordAt(s, p)
  {
    ReverseWord(s[p] as bv32, s[p + 1] as bv32, s[p + 2] as bv32, s[p + 3] as bv32);
  }

  lemma ReverseWord(a: bv32, b: bv32, c: bv32, d: bv32)
    requires a < 256 && b < 256 && c < 256 && d < 256
    ensures Reverse32(a | (b << 8) | (c << 16) | (d << 24)) == (a << 24) | (b << 16) | (c << 8) | d
  {
  }

  lemma StoreReverse(w: bv32)
    ensures Store(Reverse32(w)) == WordBytes(w)
  {
  }

  /** `block[at..at + |d|] = d`. */
  function Put(s: Bytes, at: nat, d: Bytes): (r: Bytes)
    requires at + |d| <= |s|
    ensures |r| == |s|
  {
    s[..at] + d + s[at + |d|..]
  }

  /** add_block. */
  method AddBlock(h: Hash, block: Bytes) returns (h': Hash)
    requires |block| == BLOCK_BYTES
    ensures h' == Compress(h, block)
  {
    hide *;
    var w := Expand(block);
    h' := Mix(h, block, w);
  }

  /** The sixteen words of a block. */
  method FirstWords(block: Bytes) returns (w: seq<bv32>)
    requires |block| == BLOCK_BYTES
    ensures |w| == 16 && forall k :: 0 <= k < 16 ==> w[k] == Schedule(block, k)
  {
    hide WordAt, Load, Reverse32, Schedule;
    w := [];
    for i := 0 to 16
      invariant |w| == i && forall k :: 0 <= k < i ==> w[k] == Schedule(block, k)
    {
      ReverseLoad(block, 4 * i);
      EarlyWord(block, i);
      w := w + [Reverse32(Load(block, 4 * i))];
    }
  }

  /** The rest of the schedule. */
  method Expand(block: Bytes) returns (w: seq<bv32>)
    requires |block| == BLOCK_BYTES
    ensures |w| == 80 && forall k :: 0 <= k < 80 ==> w[k] == Schedule(block, k)
  {
    hide Rotl, Schedule;
    w := FirstWords(block);
    for t := 16 to 80
      invariant |w| == t && forall k :: 0 <= k < t ==> w[k] == Schedule(block, k)
    {
      var next := Rotl(w[t - 3] ^ w[t - 8] ^ w[t - 14] ^ w[t - 16], 1);
      LateWord(block, t, w[t - 3], w[t - 8], w[t - 14], w[t - 16], next);
      w := w + [next];
    }
  }

  lemma EarlyWord(block: Bytes, t: nat)
    requires |block| == BLOCK_BYTES && t < 16
    ensures Schedule(block, t) == WordAt(block, 4 * t)
  {
  }

  lemma LateWord(block: Bytes, t: nat, a: bv32, b: bv32, c: bv32, d: bv32, next: bv32)
    requires |block| == BLOCK_BYTES && 16 <= t < 80 && next == Rotl(a ^ b ^ c ^ d, 1)
    requires a == Schedule(block, t - 3) && b == Schedule(block, t - 8)
    requires c == Schedule(block, t - 14) && d == Schedule(block, t - 16)
    ensures Schedule(block, t) == next
  {
    hide Rotl, WordAt;
  }

  lemma NoRounds(block: Bytes, h: Hash)
    requires |block| == BLOCK_BYTES
    ensures Rounds(block, h, 0) == h
  {
  }

  lemma OneRound(block: Bytes, h: Hash, t: nat)
    requires |block| == BLOCK_BYTES && t < 80
    ensures Rounds(block, h, t + 1) == Round(t, Rounds(block, h, t), Schedule(block, t))
  {
  }

  lemma AllRounds(block: Bytes, h: Hash, n: nat)
    requires |block| == BLOCK_BYTES && n == 80
    ensures Compress(h, block) == Sum(Rounds(block, h, n), h)
  {
    hide Rounds, Sum;
  }

  /** The rounds of add_block. */
  method Mix(h: Hash, ghost block: Bytes, w: seq<bv32>) returns (h': Hash)
    requires |block| == BLOCK_BYTES && |w| == 80 && forall k :: 0 <= k < 80 ==> w[k] == Schedule(block, k)
    ensures h' == Compress(h, block)
  {
    hide Rotl, Temporary, Sum, Schedule, Rounds, Compress;
    var a, b, c, d, e := h.a, h.b, h.c, h.d, h.e;
    NoRounds(block, h);
    var t := 0;
    while t < 80
      invariant t <= 80 && Hash(a, b, c, d, e) == Rounds(block, h, t)
    {
      OneRound(block, h, t);
      var next := Temporary(t, Hash(a, b, c, d, e), w[t]);
      e := d;
      d := c;
      c := Rotl(b, 30);
      b := a;
      a := next;
      t := t + 1;
    }
    AllRounds(block, h, t);
    h' := Sum(Hash(a, b, c, d, e), h);
  }

  /** Hashing more blocks continues where the earlier ones left off. */
  lemma {:induction false} HashJoin(h: Hash, s: Bytes, t: Bytes)
    requires |s| % BLOCK_BYTES == 0 && |t| % BLOCK_BYTES == 0
    ensures |s + t| % BLOCK_BYTES == 0 && HashBlocks(h, s + t) == HashBlocks(HashBlocks(h, s), t)
    decreases |s|
  {
    hide Compress;
    if s == [] {
      assert s + t == t;
    } else {
      HashJoin(Compress(h, s[..BLOCK_BYTES]), s[BLOCK_BYTES..], t);
      assert (s + t)[..BLOCK_BYTES] == s[..BLOCK_BYTES];
      assert (s + t)[BLOCK_BYTES..] == s[BLOCK_BYTES..] + t;
    }
  }

  lemma HashOne(h: Hash, block: Bytes)
    requires |block| == BLOCK_BYTES
    ensures HashBlocks(h, block) == Compress(h, block)
  {
    hide Compress;
    assert block[..BLOCK_BYTES] == block && block[BLOCK_BYTES..] == [];
  }

  /** The last one or two blocks: what is left of the message, padded. */
  ghost function Tail(rest: Bytes, bits: bv64): (s: Bytes)
    requires |rest| < BLOCK_BYTES
    ensures |s| == if |rest| < 56 then BLOCK_BYTES else 2 * BLOCK_BYTES
  {
    PaddedLength(|rest|);
    rest + [0x80] + Zeros(ZeroBytes(|rest|)) + BigEndian(bits)
  }

  lemma PaddedTail(m: Bytes, whole: Bytes, rest: Bytes)
    requires m == whole + rest && |whole| % BLOCK_BYTES == 0 && |rest| < BLOCK_BYTES && Hashable(|m|)
    ensures Padded(m) == whole + Tail(rest, BitLength(|m|))
  {
    hide ZeroBytes, BigEndian, Zeros, BitLength;
    SameRest(|whole|, |rest|);
    PaddedLength(|m|);
    PaddedLength(|rest|);
  }

  lemma SameRest(whole: nat, rest: nat)
    requires whole % BLOCK_BYTES == 0 && rest < BLOCK_BYTES
    ensures (whole + rest) % BLOCK_BYTES == rest && rest % BLOCK_BYTES == rest
  {
  }

  /** pad_sha1_message: the `active` bytes in the block m, the end bit, zeros, and the length l in bits. */
  method PadMessage(m: Bytes, l: bv64, active: nat) returns (block: Bytes)
    requires |m| == BLOCK_BYTES && active < BLOCK_BYTES
    ensures |block| == 2 * BLOCK_BYTES && Tail(m[..active], l) <= block
  {
    hide BigEndian, Reverse32, Store, ZeroBytes, Tail, Put;
    var at;
    block, at := PadZeros(m, active);
    var high, low := Store(Reverse32((l >> 32) as bv32)), Store(Reverse32((l & 0xFFFF_FFFF) as bv32));
    PutPrefix(block, at, high);
    block := Put(block, at, high);
    PutPrefix(block, at + 4, low);
    block := Put(block, at + 4, low);
    assert block[..at + 8] == m[..active] + [0x80] + Zeros(at - active - 1) + (high + low);
    TailIs(m[..active], l, at, high, low);
  }

  /** pad_sha1_message up to the place of the length. */
  method PadZeros(m: Bytes, active: nat) returns (block: Bytes, at: nat)
    requires |m| == BLOCK_BYTES && active < BLOCK_BYTES
    ensures |block| == 2 * BLOCK_BYTES && at == if active < 56 then 56 else 120
    ensures block[..at] == m[..active] + [0x80] + Zeros(at - active - 1)
  {
    hide Put, Zeros;
    block := Zeros(2 * BLOCK_BYTES);
    block := Put(block, 0, m[..active]);
    block := block[active := 1 << 7];
    ghost var pre := m[..active] + [0x80];
    StartBlock(m, active);
    var rest := (8 * active + 1) % 512;
    var k := if rest < 448 then 448 - rest else 512 - rest + 448;
    LengthPlace(active);
    PutZeros(pre, 2 * BLOCK_BYTES - |pre|, active + 2, k / 8);
    block := Put(block, active + 2, Zeros(k / 8));
    at := active + k / 8 + 1;
    ZerosPrefix(pre, 2 * BLOCK_BYTES - |pre|, at);
  }

  lemma LengthPlace(active: nat)
    requires active < BLOCK_BYTES
    ensures
      var rest := (8 * active + 1) % 512;
      var k := if rest < 448 then 448 - rest else 512 - rest + 448;
      k >= 0 && active + k / 8 + 1 == if active < 56 then 56 else 120
  {
    assert (8 * active + 1) % 512 == 8 * active + 1;
  }

  lemma StartBlock(m: Bytes, active: nat)
    requires |m| == BLOCK_BYTES && active < BLOCK_BYTES
    ensures Put(Zeros(2 * BLOCK_BYTES), 0, m[..active])[active := 1 << 7]
            == m[..active] + [0x80] + Zeros(2 * BLOCK_BYTES - active - 1)
  {
    var end: bv8 := 1 << 7;
    assert end == 0x80;
  }

  lemma PutZeros(pre: Bytes, n: nat, at: nat, k: nat)
    requires |pre| <= at && at + k <= |pre| + n
    ensures Put(pre + Zeros(n), at, Zeros(k)) == pre + Zeros(n)
  {
  }

  lemma ZerosPrefix(pre: Bytes, n: nat, at: nat)
    requires |pre| <= at <= |pre| + n
    ensures (pre + Zeros(n))[..at] == pre + Zeros(at - |pre|)
  {
  }

  lemma TailIs(rest: Bytes, l: bv64, at: nat, high: Bytes, low: Bytes)
    requires |rest| < BLOCK_BYTES && at == (if |rest| < 56 then 56 else 120)
    requires high == Store(Reverse32((l >> 32) as bv32)) && low == Store(Reverse32((l & 0xFFFF_FFFF) as bv32))
    ensures Tail(rest, l) == rest + [0x80] + Zeros(at - |rest| - 1) + (high + low)
  {
    hide BigEndian, Reverse32, Store, ZeroBytes;
    LengthBytes(l);
    PaddedLength(|rest|);
  }

  /** The length as the two reversed words the code stores. */
  lemma LengthBytes(l: bv64)
    ensures BigEndian(l) == Store(Reverse32((l >> 32) as bv32)) + Store(Reverse32((l & 0xFFFF_FFFF) as bv32))
  {
    StoreReverse((l >> 32) as bv32);
    StoreReverse((l & 0xFFFF_FFFF) as bv32);
  }

  /** The context has taken in m: whole blocks hashed, the rest waiting in the block. */
  ghost predicate Absorbed(m: Bytes, h: Hash, block: Bytes, active: nat) {
    && active < BLOCK_BYTES == |block| && active <= |m| && (|m| - active) % BLOCK_BYTES == 0
    && block[..active] == m[|m| - active..]
    && h == HashBlocks(H0, m[..|m| - active])
  }

  lemma AbsorbPart(m: Bytes, h: Hash, block: Bytes, active: nat, data: Bytes, block': Bytes)
    requires Absorbed(m, h, block, active) && active + |data| < BLOCK_BYTES && |block'| == BLOCK_BYTES
    requires block'[..active + |data|] == block[..active] + data
    ensures Absorbed(m + data, h, block', active + |data|)
  {
    hide HashBlocks;
    assert (m + data)[..|m| - active] == m[..|m| - active];
    assert (m + data)[|m| - active..] == m[|m| - active..] + data;
  }

  lemma AbsorbBlock(m: Bytes, h: Hash, block: Bytes, active: nat, data: Bytes, block': Bytes)
    requires Absorbed(m, h, block, active) && active + |data| == BLOCK_BYTES && block' == block[..active] + data
    ensures Absorbed(m + data, Compress(h, block'), Zeros(BLOCK_BYTES), 0)
  {
    hide HashBlocks, Compress;
    var whole := m[..|m| - active];
    assert (m + data)[..|m + data|] == whole + block';
    HashJoin(H0, whole, block');
    HashOne(h, block');
    assert (m + data)[|m + data|..] == [];
  }

  /** Hashing the tail gives the hash of the whole padded message. */
  ghost predicate Ended(m: Bytes, h: Hash, tail: Bytes) {
    Hashable(|m|) && |tail| % BLOCK_BYTES == 0 && HashBlocks(H0, Padded(m)) == HashBlocks(h, tail)
  }

  /** SHA1_Final of what has been taken in. */
  lemma Finished(m: Bytes, h: Hash, block: Bytes, active: nat, tail: Bytes, bits: bv64)
    requires |tail| == BLOCK_BYTES || |tail| == 2 * BLOCK_BYTES
    requires Absorbed(m, h, block, active) && Hashable(|m|) && bits == BitLength(|m|)
             && tail == Tail(block[..active], bits)
    ensures Ended(m, h, tail)
  {
    hide HashBlocks, Tail, Padded, BitLength;
    var whole := m[..|m| - active];
    assert m == whole + block[..active];
    PaddedTail(m, whole, block[..active]);
    HashJoin(H0, whole, tail);
  }

  lemma HashTwo(h: Hash, s: Bytes)
    requires |s| == 2 * BLOCK_BYTES
    ensures HashBlocks(h, s) == Compress(Compress(h, s[..BLOCK_BYTES]), s[BLOCK_BYTES..])
  {
    hide HashBlocks, Compress;
    assert s == s[..BLOCK_BYTES] + s[BLOCK_BYTES..];
    HashJoin(h, s[..BLOCK_BYTES], s[BLOCK_BYTES..]);
    HashOne(h, s[..BLOCK_BYTES]);
    HashOne(HashBlocks(h, s[..BLOCK_BYTES]), s[BLOCK_BYTES..]);
  }

  /** The end of SHA1_Final: every word reversed and copied out. */
  method Output(h: Hash) returns (h': Hash, digest: Bytes)
    ensures digest == Digest(h)
  {
    hide Reverse32, WordBytes, Store;
    StoreReverse(h.a);
    StoreReverse(h.b);
    StoreReverse(h.c);
    StoreReverse(h.d);
    StoreReverse(h.e);
    h' := Hash(Reverse32(h.a), Reverse32(h.b), Reverse32(h.c), Reverse32(h.d), Reverse32(h.e));
    digest := Store(h'.a) + Store(h'.b) + Store(h'.c) + Store(h'.d) + Store(h'.e);
  }

  class Context {
    var h: Hash
    var block: Bytes
    var activeLen: nat
    var len: nat
    /** All the bytes given to SHA1_Update. */
    ghost var message: Bytes

    ghost predicate Valid()
      reads this
    {
      len == |message| && Absorbed(message, h, block, activeLen)
    }

    /** SHA1_Init. */
    constructor ()
      ensures Valid() && message == []
    {
      h, block, activeLen, len, message := H0, Zeros(BLOCK_BYTES), 0, 0, [];
    }

    /** SHA1_Update: however the message is cut, the context has taken in all of it. */
    method Update(data: Bytes)
      requires Valid()
      modifies this
      ensures Valid() && message == old(message) + data
    {
      hide HashBlocks, Compress, Absorbed, Put;
      var done := 0;
      AbsorbedSizes(message, h, block, activeLen);
      assert data[..0] == [];
      while done < |data|
        invariant done <= |data| && Valid() && message == old(message) + data[..done]
      {
        AbsorbedSizes(message, h, block, activeLen);
        var left := |data| - done;
        var writeLen := if activeLen + left > BLOCK_BYTES then BLOCK_BYTES - activeLen else left;
        var chunk := data[done..done + writeLen];
        assert data[..done + writeLen] == data[..done] + chunk;
        var filled := Put(block, activeLen, chunk);
        PutPrefix(block, activeLen, chunk);
        len := len + writeLen;
        if activeLen + writeLen != BLOCK_BYTES {
          AbsorbPart(message, h, block, activeLen, chunk, filled);
          block, activeLen := filled, activeLen + writeLen;
          message := message + chunk;
          assert data[..done + writeLen] == data;
          return;
        }
        AbsorbBlock(message, h, block, activeLen, chunk, filled);
        h := AddBlock(h, filled);
        block, activeLen := Zeros(BLOCK_BYTES), 0;
        message := message + chunk;
        done := done + writeLen;
      }
      assert data[..done] == data;
    }

    /** SHA1_Final: the digest of everything, in one or two more blocks. */
    method Final() returns (digest: Bytes)
      requires Valid() && Hashable(|message|)
      modifies `h
      ensures digest == Sha1Of(message)
    {
      hide HashBlocks, Compress, Absorbed, Tail, Padded, Digest, BitLength;
      AbsorbedSizes(message, h, block, activeLen);
      var padded := PadMessage(block, BitLength(len), activeLen);
      ghost var tail := Tail(block[..activeLen], BitLength(len));
      Finished(message, h, block, activeLen, tail, BitLength(len));
      ghost var h0 := h;
      h := AddBlock(h, padded[..BLOCK_BYTES]);
      if (activeLen * 8 + 1) % 512 >= 448 {
        h := AddBlock(h, padded[BLOCK_BYTES..]);
        assert tail == padded;
        HashTwo(h0, tail);
      } else {
        assert tail == padded[..BLOCK_BYTES];
        HashOne(h0, tail);
      }
      h, digest := Output(h);
    }
  }

  lemma AbsorbedSizes(m: Bytes, h: Hash, block: Bytes, active: nat)
    requires Absorbed(m, h, block, active)
    ensures active < BLOCK_BYTES == |block|
  {
  }

  lemma PutPrefix(s: Bytes, at: nat, d: Bytes)
    requires at + |d| <= |s|
    ensures Put(s, at, d)[..at + |d|] == s[..at] + d && (at + |d| == |s| ==> Put(s, at, d) == s[..at] + d)
  {
  }

  function Joined(pieces: seq<Bytes>): Bytes {
    if pieces == [] then [] else Joined(pieces[..|pieces| - 1]) + pieces[|pieces| - 1]
  }

  /** Any way of handing a message to SHA1_Update piece by piece gives the digest of the whole. */
  method HashPieces(pieces: seq<Bytes>) returns (digest: Bytes)
    requires Hashable(|Joined(pieces)|)
    ensures digest == Sha1Of(Joined(pieces))
  {
    hide Sha1Of;
    var ctx := new Context();
    for i := 0 to |pieces|
      invariant fresh(ctx) && ctx.Valid() && ctx.message == Joined(pieces[..i])
    {
      ctx.Update(pieces[i]);
      assert pieces[..i + 1][..i] == pieces[..i];
    }
    assert pieces[..|pieces|] == pieces;
    digest := ctx.Final();
  }
}
