/** The steps of write_inode on the disk: growing the file, writing its data, writing its inode. */
module Ext2Write {
  import opened Bytes
  import opened Division
  import opened BlockCaches
  import opened Ext2Layout
  import opened Ext2Map
  import opened Ext2Alloc
  import opened Ext2Grow
  import opened Ext2File

  // Growing.

  /** blocks[k..] are allocated but not yet part of any file. */
  ghost predicate Waiting(d: Disk, g: Geometry, owner: Owners, blocks: seq<nat>, k: nat)
    requires g.blocksPerGroup > 0
  {
    forall j :: k <= j < |blocks| ==>
        blocks[j] !in owner && blocks[j] in d && blocks[j] < TotalBlocks(g) && Marked(d, g, blocks[j])
  }

  /** File n has gone from u to r blocks, the first u where they were. */
  ghost predicate Grown(d: Disk, d': Disk, g: Geometry, owner: Owners, owner': Owners, n: nat, h: seq<byte>,
          h': seq<byte>, u: nat, r: nat) {
    && GeometryOk(g) && |h| >= INODE_T && SameFields(h, h')
    && LayoutOk(d', g, owner') && Grew(d, d', g, owner, owner', n)
    && MapOk(d', g, owner', n, h', r) && SameBelow(g, d, h, d', h', u)
  }

  /** Indirect blocks needed on the way from i to r blocks. */
  function TotalOverhead(g: Geometry, i: nat, r: nat): nat
    requires GeometryOk(g)
    decreases r - i
  {
    if i >= r then 0 else Overhead(g, i) + TotalOverhead(g, i + 1, r)
  }

  lemma EffectGrew(d: Disk, d': Disk, g: Geometry, owner: Owners, blocks: seq<nat>, n: nat)
    requires LayoutOk(d, g, owner) && Effect(d, d', g, owner, blocks)
    ensures Grew(d, d', g, owner, owner, n)
  {
    hide Marked, InodeTable, BitmapBlock, GeometryOk;
  }

  lemma EffectWaiting(d: Disk, d': Disk, g: Geometry, owner: Owners, blocks: seq<nat>)
    requires LayoutOk(d, g, owner) && Effect(d, d', g, owner, blocks) && Fresh(d, g, blocks)
    ensures Waiting(d', g, owner, blocks, 0)
  {
    hide InodeTable, BitmapBlock, GeometryOk, MarkedAt;
    forall j | 0 <= j < |blocks|
      ensures blocks[j] !in owner && blocks[j] in d' && blocks[j] < TotalBlocks(g) && Marked(d', g, blocks[j])
    {
      assert blocks[j] in blocks;
      assert blocks[j] in Free(d, g);
    }
  }

  lemma EffectFree(d: Disk, d': Disk, g: Geometry, owner: Owners, blocks: seq<nat>)
    requires Effect(d, d', g, owner, blocks) && Fresh(d, g, blocks)
    ensures |Free(d', g)| + |blocks| == |Free(d, g)|
  {
    hide LayoutOk, OnlyBitmaps, Marked;
    LayoutRange(d', g, owner);
    DistinctCount(blocks);
    assert Elements(blocks) <= Free(d, g);
    assert Free(d', g) == Free(d, g) - Elements(blocks);
  }

  /** The reserved blocks are still waiting after one of them has found its place. */
  lemma WaitingKept(d: Disk, d': Disk, g: Geometry, owner: Owners, owner': Owners, n: nat, h: seq<byte>, h': seq<byte>,
          i: nat, blocks: seq<nat>, k: nat)
    requires g.blocksPerGroup > 0 && k < |blocks| && Increasing(blocks) && Waiting(d, g, owner, blocks, k)
    requires Placed(d, d', g, owner, owner', n, h, h', i, blocks[k])
    ensures Waiting(d', g, owner', blocks, k + 1)
  {
    hide LayoutOk, MapOk, BlockOf, Marked, SameBelow, GeometryOk, InodeTable;
    forall j | k + 1 <= j < |blocks|
      ensures blocks[j] !in owner' && blocks[j] in d' && blocks[j] < TotalBlocks(g) && Marked(d', g, blocks[j])
    {
      assert blocks[j] != blocks[k];
    }
  }

  lemma GrownStart(d: Disk, d1: Disk, g: Geometry, owner: Owners, blocks: seq<nat>, n: nat, h: seq<byte>, u: nat)
    requires LayoutOk(d, g, owner) && Effect(d, d1, g, owner, blocks) && MapOk(d, g, owner, n, h, u)
    ensures Grown(d, d1, g, owner, owner, n, h, h, u, u)
  {
    hide LayoutOk, Effect, MapOk, Grew, BlockOf;
    Sized(d, g, owner);
    EffectLayout(d, d1, g, owner, blocks);
    EffectGrew(d, d1, g, owner, blocks, n);
    EffectKeepsMap(d, d1, g, owner, blocks, n, h, u);
    MapLength(d, g, owner, n, h, u);
  }

  lemma GrownMore(d: Disk, d1: Disk, d2: Disk, g: Geometry, owner: Owners, owner1: Owners, owner2: Owners, n: nat,
          h: seq<byte>, h1: seq<byte>, h2: seq<byte>, u: nat, i: nat, b: nat)
    requires Grown(d, d1, g, owner, owner1, n, h, h1, u, i) && Placed(d1, d2, g, owner1, owner2, n, h1, h2, i, b)
             && u <= i
    ensures Grown(d, d2, g, owner, owner2, n, h, h2, u, i + 1)
  {
    hide LayoutOk, MapOk, BlockOf, Marked, GeometryOk, Grew;
    LayoutRange(d2, g, owner2);
    GrewTwice(d, d1, d2, g, owner, owner1, owner2, n);
  }

  lemma GrownFacts(d: Disk, d': Disk, g: Geometry, owner: Owners, owner': Owners, n: nat, h: seq<byte>, h': seq<byte>,
          u: nat, r: nat)
    requires Grown(d, d', g, owner, owner', n, h, h', u, r)
    ensures GeometryOk(g) && LayoutOk(d', g, owner') && MapOk(d', g, owner', n, h', r) && |h'| == |h| >= INODE_T
            && SameFields(h, h')
    ensures Grew(d, d', g, owner, owner', n) && SameBelow(g, d, h, d', h', u)
  {
  }

  lemma WaitingCanPlace(d: Disk, g: Geometry, owner: Owners, n: nat, h: seq<byte>, i: nat, blocks: seq<nat>, k: nat)
    requires LayoutOk(d, g, owner) && MapOk(d, g, owner, n, h, i) && i < MaxBlocks(g)
    requires Waiting(d, g, owner, blocks, k) && k < |blocks|
    ensures CanPlace(d, g, owner, n, h, i, blocks[k])
  {
    hide LayoutOk, MapOk, Marked, GeometryOk, MaxBlocks;
  }

  lemma FreshIncreasing(d: Disk, g: Geometry, blocks: seq<nat>)
    requires g.blocksPerGroup > 0 && Fresh(d, g, blocks)
    ensures Increasing(blocks)
  {
  }

  // Writing the data.

  /** Only data blocks of file n differ. */
  ghost predicate OnlyData(d: Disk, d': Disk, owner: Owners, n: nat) {
    && d'.Keys == d.Keys
    && forall b :: b in d && !(b in owner && owner[b].Data? && owner[b].file == n) ==> d'[b] == d[b]
  }

  /** The bytes of the file's first r blocks are those before, with `data` laid over them at `offset`. */
  ghost predicate Overwritten(d: Disk, d': Disk, g: Geometry, h: seq<byte>, r: nat, offset: nat, data: seq<byte>)
    requires GeometryOk(g) && |h| >= INODE_T
  {
    forall k :: 0 <= k && Div(k, g.blockSize) < r ==>
                  ByteAt(d', g, h, k) == if offset <= k < offset + |data| then data[k - offset] else ByteAt(d, g, h, k)
  }

  /** A chunk written into block i of the file: its bytes change there and nowhere else. */
  lemma ChunkWritten(d: Disk, d': Disk, g: Geometry, owner: Owners, n: nat, h: seq<byte>, r: nat, pos: nat,
          chunk: seq<byte>, unallocated: nat)
    requires LayoutOk(d, g, owner) && CountersOk(d, g, unallocated) && MapOk(d, g, owner, n, h, r)
    requires Div(pos, g.blockSize) < r && Mod(pos, g.blockSize) + |chunk| <= g.blockSize
    requires var b := BlockOf(d, g, h, Div(pos, g.blockSize));
             b in d && |d[b]| == g.blockSize && d' == d[b := Splice(d[b], Mod(pos, g.blockSize), chunk)]
    ensures LayoutOk(d', g, owner) && CountersOk(d', g, unallocated)
    ensures MapOk(d', g, owner, n, h, r) && OnlyData(d, d', owner, n)
    ensures Overwritten(d, d', g, h, r, pos, chunk)
  {
    hide LayoutOk, CountersOk, MapOk, BlockOf, ByteAt, Overwritten;
    var i := Div(pos, g.blockSize);
    Sized(d, g, owner);
    MapOkFields(d, g, owner, n, h, r, i);
    MapLength(d, g, owner, n, h, r);
    var b := BlockOf(d, g, h, i);
    PlainWrite(d, d', g, owner, b, d'[b], unallocated);
    DataWriteMap(d, d', g, owner, n, h, r, i, d'[b]);
    DataWriteBytes(d, d', g, owner, n, h, r, pos, chunk);
  }

  /** Writing data moves no block of the file. */
  lemma DataWriteMap(d: Disk, d': Disk, g: Geometry, owner: Owners, n: nat, h: seq<byte>, r: nat, i: nat, y: seq<byte>)
    requires GeometryOk(g) && MapOk(d, g, owner, n, h, r) && i < r && d' == d[BlockOf(d, g, h, i) := y]
    ensures MapOk(d', g, owner, n, h, r) && SameBelow(g, d, h, d', h, r)
  {
    hide GeometryOk;
    MapOkFields(d, g, owner, n, h, r, i);
    forall k | 0 <= k < r ensures BlockOf(d', g, h, k) == BlockOf(d, g, h, k) {
      MapOkFields(d, g, owner, n, h, r, k);
    }
    forall j | 0 <= j && 12 + Capacity(g) + j * Capacity(g) < r
      ensures Ptr(d', Double(h), 4 * j) == Ptr(d, Double(h), 4 * j)
    {
      MulLe(0, j, Capacity(g));
      assert Owned(owner, Double(h), DoubleOf(n));
    }
  }

  lemma DataWriteBytes(d: Disk, d': Disk, g: Geometry, owner: Owners, n: nat, h: seq<byte>, r: nat, pos: nat,
          chunk: seq<byte>)
    requires GeometryOk(g) && MapOk(d, g, owner, n, h, r) && SameBelow(g, d, h, d', h, r) && |h| >= INODE_T
    requires Div(pos, g.blockSize) < r && Mod(pos, g.blockSize) + |chunk| <= g.blockSize
    requires var b := BlockOf(d, g, h, Div(pos, g.blockSize));
             b in d && |d[b]| == g.blockSize && d' == d[b := Splice(d[b], Mod(pos, g.blockSize), chunk)]
    ensures Overwritten(d, d', g, h, r, pos, chunk)
  {
    hide MapOk, BlockOf, GeometryOk, Div, Mod;
    forall k | 0 <= k && Div(k, g.blockSize) < r
      ensures ByteAt(d', g, h, k) == if pos <= k < pos + |chunk| then chunk[k - pos] else ByteAt(d, g, h, k)
    {
      MapOkFields(d, g, owner, n, h, r, Div(k, g.blockSize));
      MapOkFields(d, g, owner, n, h, r, Div(pos, g.blockSize));
      WithinBlock(k, pos, g.blockSize, |chunk|);
    }
  }

  /** A position is in the chunk exactly when it is in its block and at its place there. */
  lemma WithinBlock(k: nat, pos: nat, size: nat, len: nat)
    requires size > 0 && Mod(pos, size) + len <= size
    ensures pos <= k < pos + len <==>
              Div(k, size) == Div(pos, size) && Mod(pos, size) <= Mod(k, size) < Mod(pos, size) + len
    ensures pos <= k < pos + len ==> k - pos == Mod(k, size) - Mod(pos, size)
  {
    DivMod(k, size);
    DivMod(pos, size);
    if pos <= k < pos + len { SameBlock(pos, size, k - pos); }
  }

  lemma OverwrittenTwice(d: Disk, d1: Disk, d2: Disk, g: Geometry, h: seq<byte>, r: nat, offset: nat, a: seq<byte>,
          b: seq<byte>)
    requires GeometryOk(g) && |h| >= INODE_T
    requires Overwritten(d, d1, g, h, r, offset, a) && Overwritten(d1, d2, g, h, r, offset + |a|, b)
    ensures Overwritten(d, d2, g, h, r, offset, a + b)
  {
    hide ByteAt, GeometryOk;
  }

  lemma OnlyDataTwice(d: Disk, d1: Disk, d2: Disk, owner: Owners, n: nat)
    requires OnlyData(d, d1, owner, n) && OnlyData(d1, d2, owner, n)
    ensures OnlyData(d, d2, owner, n)
  {
  }

  lemma OverwrittenStart(d: Disk, g: Geometry, h: seq<byte>, r: nat, offset: nat, owner: Owners, n: nat)
    requires GeometryOk(g) && |h| >= INODE_T
    ensures Overwritten(d, d, g, h, r, offset, []) && OnlyData(d, d, owner, n)
  {
  }

  // Writing the inode.

  /** The inode as write_inode leaves it: new size and sector count. */
  function Resized(h: seq<byte>, sectors: nat, fsize: nat): (h': seq<byte>)
    requires |h| >= INODE_T && sectors < U32_END && fsize < U64_END
    ensures |h'| == |h|
  {
    SetU32(SetU32(SetU32(h, 28, sectors), 4, fsize % U32_END), 108, fsize / U32_END)
  }

  lemma ResizedFields(h: seq<byte>, sectors: nat, fsize: nat)
    requires |h| >= INODE_T && sectors < U32_END && fsize < U64_END
    ensures
      var h' := Resized(h, sectors, fsize);
      && Size(h') == fsize && Sectors(h') == sectors && Single(h') == Single(h) && Double(h') == Double(h)
      && forall i :: 0 <= i < 12 ==> Direct(h', i) == Direct(h, i)
  {
    hide U32, SetU32;
    var h1 := SetU32(h, 28, sectors);
    var h2 := SetU32(h1, 4, fsize % U32_END);
    forall k | k == 4 || k == 28 || k == 108 || 40 <= k <= 92
      ensures U32(Resized(h, sectors, fsize), k) ==
              if k == 4 then fsize % U32_END else if k == 28 then sectors
              else if k == 108 then fsize / U32_END else U32(h, k)
    {
      SetU32Field(h, 28, sectors, k);
      SetU32Field(h1, 4, fsize % U32_END, k);
      SetU32Field(h2, 108, fsize / U32_END, k);
    }
  }

  /** The block map does not depend on size or sector count. */
  lemma ResizedMap(d: Disk, g: Geometry, owner: Owners, n: nat, h: seq<byte>, sectors: nat, fsize: nat, r: nat)
    requires GeometryOk(g) && |h| >= INODE_T && sectors < U32_END && fsize < U64_END
    ensures forall i :: 0 <= i ==> BlockOf(d, g, Resized(h, sectors, fsize), i) == BlockOf(d, g, h, i)
    ensures MapOk(d, g, owner, n, h, r) ==> MapOk(d, g, owner, n, Resized(h, sectors, fsize), r)
  {
    ResizedFields(h, sectors, fsize);
    hide Size, Sectors, Direct, Single, Double, Resized, GeometryOk;
    forall i | 0 <= i ensures BlockOf(d, g, Resized(h, sectors, fsize), i) == BlockOf(d, g, h, i) {}
  }

  /** d' is d with the inode buffer h written to inode n's place. */
  ghost predicate InodeWritten(d: Disk, d': Disk, g: Geometry, n: nat, h: seq<byte>)
    requires GeometryOk(g) && n >= 1
  {
    var b := InodeBlock(d, g, n);
    && |h| == g.inodeSize && b in d && InodeOffset(g, n) + g.inodeSize <= |d[b]|
    && d' == d[b := Splice(d[b], InodeOffset(g, n), h)]
  }

  /** Writing an inode disturbs no metadata. */
  lemma InodeWriteLayout(d: Disk, d': Disk, g: Geometry, owner: Owners, n: nat, h: seq<byte>, unallocated: nat)
    requires LayoutOk(d, g, owner) && CountersOk(d, g, unallocated) && InodeNumber(g, n) && InodeWritten(d, d', g, n, h)
    ensures LayoutOk(d', g, owner) && CountersOk(d', g, unallocated)
    ensures forall k :: 0 <= k < g.groups ==> InodeTable(d', g, k) == InodeTable(d, g, k)
  {
    hide LayoutOk, CountersOk, GeometryOk, Splice;
    Sized(d, g, owner);
    InodeBlockOwned(d, g, owner, n);
    PlainWrite(d, d', g, owner, InodeBlock(d, g, n), d'[InodeBlock(d, g, n)], unallocated);
  }

  /** The written inode reads back, and every other inode is as it was. */
  lemma InodeWriteHeaders(d: Disk, d': Disk, g: Geometry, owner: Owners, n: nat, h: seq<byte>, m: nat, unallocated: nat)
    requires LayoutOk(d, g, owner) && CountersOk(d, g, unallocated) && InodeNumber(g, n) && InodeNumber(g, m)
             && InodeWritten(d, d', g, n, h)
    ensures Header(d', g, m) == if m == n then h[..INODE_T] else Header(d, g, m)
  {
    hide LayoutOk, CountersOk, GeometryOk, InodeTable;
    Sized(d, g, owner);
    InodeBlockOwned(d, g, owner, n);
    InodeBlockOwned(d, g, owner, m);
    InodeWriteLayout(d, d', g, owner, n, h, unallocated);
    InodeBlockOwned(d', g, owner, m);
    InodeSizeAtLeast(g);
    if m != n && InodeBlock(d, g, m) == InodeBlock(d, g, n) {
      InodesApart(g, n, m);
    }
  }

  lemma InodeSizeAtLeast(g: Geometry)
    requires GeometryOk(g)
    ensures g.inodeSize >= INODE_T
  {
  }

  /** Writing inode n leaves the files of other inodes alone. */
  lemma InodeWriteOthers(d: Disk, d': Disk, g: Geometry, owner: Owners, n: nat, h: seq<byte>, m: nat, unallocated: nat)
    requires LayoutOk(d, g, owner) && CountersOk(d, g, unallocated) && InodeNumber(g, n) && InodeWritten(d, d', g, n, h)
    requires FileOk(d, g, owner, m) && m != n
    ensures FileOk(d', g, owner, m) && Contents(d', g, m) == Contents(d, g, m)
  {
    hide LayoutOk, CountersOk, FileOk, Contents, Header, GeometryOk;
    FileNumber(d, g, owner, m);
    InodeWriteHeaders(d, d', g, owner, n, h, m, unallocated);
    InodeBlockOwned(d, g, owner, n);
    LayoutRange(d, g, owner);
    FileSame(d, d', g, owner, owner, m);
  }

  // The whole of write_inode.

  /** c' is c with `data` written at `offset`. Bytes between the old end and `offset` are not promised:
      new blocks keep what was on them. */
  ghost predicate WrittenAt(c: seq<byte>, c': seq<byte>, offset: nat, data: seq<byte>) {
    && |c'| == Max(|c|, offset + |data|)
    && c'[offset..offset + |data|] == data
    && forall k :: 0 <= k < |c| && !(offset <= k < offset + |data|) ==> c'[k] == c[k]
  }

  /** One write_inode: the disk before, with the file grown, with the data written and with the inode written;
      the owners before and after; the inode n with its header before and after growing, its blocks before and
      after, what is written where, and the new sector count and size. */
  datatype FileWrite = FileWrite(
    before: Disk, grown: Disk, filled: Disk, after: Disk,
    owner: Owners, owner': Owners,
    n: nat, h: seq<byte>, h': seq<byte>, u: nat, r: nat,
    offset: nat, data: seq<byte>, sectors: nat, size: nat)

  ghost predicate Steps(g: Geometry, x: FileWrite) {
    && LayoutOk(x.before, g, x.owner) && InodeNumber(g, x.n)
    && |x.h| == g.inodeSize && x.h[..INODE_T] == Header(x.before, g, x.n)
    && Grown(x.before, x.grown, g, x.owner, x.owner', x.n, x.h, x.h', x.u, x.r)
    && LayoutOk(x.filled, g, x.owner') && MapOk(x.filled, g, x.owner', x.n, x.h', x.r)
    && OnlyData(x.grown, x.filled, x.owner', x.n) && Overwritten(x.grown, x.filled, g, x.h', x.r, x.offset, x.data)
    && x.sectors < U32_END && x.size < U64_END
    && InodeWritten(x.filled, x.after, g, x.n, Resized(x.h', x.sectors, x.size))
  }

  /** Bytes the file had are still there once it has grown. */
  lemma GrownBytes(d: Disk, d': Disk, g: Geometry, owner: Owners, owner': Owners, n: nat, h: seq<byte>, h': seq<byte>,
          u: nat, r: nat, k: nat)
    requires LayoutOk(d, g, owner) && MapOk(d, g, owner, n, h, u) && Grown(d, d', g, owner, owner', n, h, h', u, r)
             && Div(k, g.blockSize) < u
    ensures ByteAt(d', g, h', k) == ByteAt(d, g, h, k)
  {
    hide LayoutOk, MapOk, BlockOf, GeometryOk, Marked, InodeTable;
    MapOkFields(d, g, owner, n, h, u, Div(k, g.blockSize));
  }

  /** Writing the inode leaves the file's blocks as they were. */
  lemma InodeWriteBytes(d: Disk, d': Disk, g: Geometry, owner: Owners, n: nat, h: seq<byte>, h': seq<byte>, r: nat,
          k: nat)
    requires LayoutOk(d, g, owner) && MapOk(d, g, owner, n, h, r) && InodeNumber(g, n) && InodeWritten(d, d', g, n, h')
    ensures MapOk(d', g, owner, n, h, r)
    ensures Div(k, g.blockSize) < r ==> ByteAt(d', g, h, k) == ByteAt(d, g, h, k)
  {
    hide LayoutOk, MapOk, BlockOf, ByteAt, GeometryOk, Splice, Header;
    Sized(d, g, owner);
    InodeBlockOwned(d, g, owner, n);
    LayoutRange(d, g, owner);
    MapLength(d, g, owner, n, h, r);
    MapOkSame(d, d', g, owner, owner, n, h, r);
    if Div(k, g.blockSize) < r { BytesSame(d, d', g, owner, n, h, r, k); }
  }

  lemma StepsHeader(g: Geometry, x: FileWrite, unallocated: nat)
    requires Steps(g, x) && CountersOk(x.filled, g, unallocated)
    ensures Header(x.after, g, x.n) == Resized(x.h', x.sectors, x.size)[..INODE_T]
    ensures Size(Header(x.after, g, x.n)) == x.size && Sectors(Header(x.after, g, x.n)) == x.sectors
    ensures MapOk(x.after, g, x.owner', x.n, Header(x.after, g, x.n), x.r)
    ensures forall k :: 0 <= k ==> ByteAt(x.after, g, Header(x.after, g, x.n), k) == ByteAt(x.after, g, x.h', k)
  {
    hide LayoutOk, MapOk, Grown, OnlyData, Overwritten, Header, Size, Sectors, Resized, BlockOf, GeometryOk,
      CountersOk, InodeWritten;
    var FileWrite(d, d1, d2, d3, owner, owner', n, h, h', u, r, offset, data, sectors, fsize) := x;
    GrownFacts(d, d1, g, owner, owner', n, h, h', u, r);
    var hf := Resized(h', sectors, fsize);
    InodeWriteHeaders(d2, d3, g, owner', n, hf, n, unallocated);
    InodeWriteBytes(d2, d3, g, owner', n, h', hf, r, 0);
    ResizedFields(h', sectors, fsize);
    ResizedMap(d3, g, owner', n, h', sectors, fsize, r);
    PrefixFields(hf, Header(d3, g, n));
    PrefixMap(d3, g, owner', n, hf, Header(d3, g, n), r);
  }

  /** Byte k of the file afterwards. */
  lemma StepsByte(g: Geometry, x: FileWrite, k: nat)
    requires Steps(g, x)
    requires MapOk(x.before, g, x.owner, x.n, x.h, x.u) && x.u <= x.r && Div(k, g.blockSize) < x.r
    ensures x.offset <= k < x.offset + |x.data| ==> ByteAt(x.after, g, x.h', k) == x.data[k - x.offset]
    ensures !(x.offset <= k < x.offset + |x.data|) && Div(k, g.blockSize) < x.u ==>
            ByteAt(x.after, g, x.h', k) == ByteAt(x.before, g, x.h, k)
  {
    hide LayoutOk, MapOk, Grown, Header, Resized, ByteAt, BlockOf, GeometryOk, InodeWritten;
    var FileWrite(d, d1, d2, d3, owner, owner', n, h, h', u, r, offset, data, sectors, fsize) := x;
    GrownFacts(d, d1, g, owner, owner', n, h, h', u, r);
    InodeWriteBytes(d2, d3, g, owner', n, h', Resized(h', sectors, fsize), r, k);
    if Div(k, g.blockSize) < u { GrownBytes(d, d1, g, owner, owner', n, h, h', u, r, k); }
  }

  lemma SectorsCount(g: Geometry, r: nat)
    requires GeometryOk(g)
    ensures g.blockSize / SECTOR_SIZE > 0 && r * (g.blockSize / SECTOR_SIZE) >= 0
    ensures Div(r * (g.blockSize / SECTOR_SIZE), g.blockSize / SECTOR_SIZE) == r
  {
    MulLe(0, r, g.blockSize / SECTOR_SIZE);
    DivModUnique(r, g.blockSize / SECTOR_SIZE, 0);
  }

  /** The file is well-formed again. */
  lemma StepsFileOk(g: Geometry, x: FileWrite, unallocated: nat)
    requires Steps(g, x) && CountersOk(x.filled, g, unallocated)
    requires x.r == BlocksRequired(x.size, g.blockSize) && x.sectors == x.r * (g.blockSize / SECTOR_SIZE)
    ensures FileOk(x.after, g, x.owner', x.n)
  {
    hide LayoutOk, MapOk, Grown, OnlyData, Overwritten, Header, Size, Sectors, Resized, BlockOf, ByteAt, CountersOk,
      InodeWritten;
    StepsHeader(g, x, unallocated);
    Sized(x.before, g, x.owner);
    SectorsCount(g, x.r);
  }

  /** The file holds the data where it was put, and its earlier bytes elsewhere. */
  lemma StepsContents(g: Geometry, x: FileWrite, unallocated: nat)
    requires Steps(g, x) && CountersOk(x.filled, g, unallocated)
    requires FileOk(x.before, g, x.owner, x.n) && x.u == BlocksUsed(g, Header(x.before, g, x.n)) && x.u <= x.r
    requires x.r == BlocksRequired(x.size, g.blockSize)
             && x.size == Max(Size(Header(x.before, g, x.n)), x.offset + |x.data|)
    ensures WrittenAt(Contents(x.before, g, x.n), Contents(x.after, g, x.n), x.offset, x.data)
  {
    hide LayoutOk, MapOk, Grown, OnlyData, Overwritten, Header, Size, Sectors, Resized, BlockOf, ByteAt, CountersOk,
      InodeWritten, GeometryOk, BlocksRequired;
    var FileWrite(d, d1, d2, d3, owner, owner', n, h, h', u, r, offset, data, sectors, fsize) := x;
    StepsHeader(g, x, unallocated);
    Sized(d, g, owner);
    InodeSizeAtLeast(g);
    var h0 := Header(d, g, n);
    PrefixMap(d, g, owner, n, h, h0, u);
    var c, c' := Contents(d, g, n), Contents(d3, g, n);
    forall k | 0 <= k < fsize
      ensures offset <= k < offset + |data| ==> c'[k] == data[k - offset]
      ensures k < |c| && !(offset <= k < offset + |data|) ==> c'[k] == c[k]
    {
      ByteInBlock(g, fsize, k);
      StepsByte(g, x, k);
      if k < |c| {
        ByteInBlock(g, Size(h0), k);
        PrefixByte(d, g, h, h0, k);
      }
    }
  }

  lemma PrefixByte(d: Disk, g: Geometry, h: seq<byte>, h0: seq<byte>, k: nat)
    requires GeometryOk(g) && |h| >= INODE_T && |h0| == INODE_T && h[..INODE_T] == h0
    ensures ByteAt(d, g, h, k) == ByteAt(d, g, h0, k)
  {
    hide BlockOf, GeometryOk;
    PrefixMap(d, g, map[], 0, h, h0, 0);
  }

  /** Writing data leaves other inodes and other files alone. */
  lemma DataOthers(d: Disk, d': Disk, g: Geometry, owner: Owners, n: nat, m: nat)
    requires LayoutOk(d, g, owner) && LayoutOk(d', g, owner) && OnlyData(d, d', owner, n) && InodeNumber(g, m)
    ensures HeaderSame(d, d', g, m)
    ensures FileOk(d, g, owner, m) && m != n ==> FileOk(d', g, owner, m) && Contents(d', g, m) == Contents(d, g, m)
  {
    hide LayoutOk, FileOk, Contents, GeometryOk, InodeTable, Slot;
    Sized(d, g, owner);
    InodeBlockOwned(d, g, owner, m);
    LayoutRange(d, g, owner);
    DataTables(d, d', g, owner, n);
    if FileOk(d, g, owner, m) && m != n { FileSame(d, d', g, owner, owner, m); }
  }

  lemma DataTables(d: Disk, d': Disk, g: Geometry, owner: Owners, n: nat)
    requires LayoutOk(d, g, owner) && OnlyData(d, d', owner, n)
    ensures forall k :: 0 <= k < g.groups ==> InodeTable(d', g, k) == InodeTable(d, g, k)
  {
    assert d'[DescBlock(g)] == d[DescBlock(g)];
  }

  /** No other file notices. */
  lemma StepsOthers(g: Geometry, x: FileWrite, unallocated: nat, m: nat)
    requires Steps(g, x) && CountersOk(x.filled, g, unallocated)
    requires InodeNumber(g, m) && m != x.n
    ensures Header(x.after, g, m) == Header(x.before, g, m)
    ensures FileOk(x.before, g, x.owner, m) ==>
            FileOk(x.after, g, x.owner', m) && Contents(x.after, g, m) == Contents(x.before, g, m)
  {
    hide LayoutOk, MapOk, Grown, OnlyData, Overwritten, Header, Resized, CountersOk, InodeWritten, GeometryOk, FileOk,
      Contents, Grew;
    var FileWrite(d, d1, d2, d3, owner, owner', n, h, h', u, r, offset, data, sectors, fsize) := x;
    GrownFacts(d, d1, g, owner, owner', n, h, h', u, r);
    GrewHeader(d, d1, g, owner, owner', n, m);
    DataOthers(d1, d2, g, owner', n, m);
    InodeWriteHeaders(d2, d3, g, owner', n, Resized(h', sectors, fsize), m, unallocated);
    if FileOk(d, g, owner, m) {
      GrewOthers(d, d1, g, owner, owner', n, m);
      DataOthers(d1, d2, g, owner', n, m);
      InodeWriteOthers(d2, d3, g, owner', n, Resized(h', sectors, fsize), m, unallocated);
    }
  }

  /** Nothing to allocate: the file keeps its blocks. */
  lemma GrownNone(d: Disk, g: Geometry, owner: Owners, n: nat, h: seq<byte>, u: nat)
    requires LayoutOk(d, g, owner) && MapOk(d, g, owner, n, h, u)
    ensures Grown(d, d, g, owner, owner, n, h, h, u, u)
  {
    hide LayoutOk, MapOk, Marked, InodeTable, BlockOf, GeometryOk;
    Sized(d, g, owner);
    LayoutRange(d, g, owner);
    MapLength(d, g, owner, n, h, u);
  }

  /** What write_inode needs to bring file n to `end` bytes: blocks get_block can reach, a sector count
      and a size that fit their fields, and free blocks for the data and the indirect blocks. */
  ghost predicate RoomFor(d: Disk, g: Geometry, n: nat, end: nat) {
    GeometryOk(g) && n >= 1
    && var h := Header(d, g, n);
       var fsize := Max(Size(h), end);
       var u, r := BlocksUsed(g, h), BlocksRequired(fsize, g.blockSize);
       && fsize < U64_END && r <= MaxBlocks(g) && 0 <= r * (g.blockSize / SECTOR_SIZE) < U32_END
       && r - u + TotalOverhead(g, u, r) <= |Free(d, g)|
  }

  /** Every other file is as it was. */
  ghost predicate OthersSame(d: Disk, d': Disk, g: Geometry, owner: Owners, owner': Owners, n: nat) {
    GeometryOk(g)
    && forall m :: InodeNumber(g, m) && m != n ==>
                     && Header(d', g, m) == Header(d, g, m)
                     && (FileOk(d, g, owner, m) ==> FileOk(d', g, owner', m) && Contents(d', g, m) == Contents(d, g, m))
  }

  lemma StepsAll(g: Geometry, x: FileWrite, unallocated: nat)
    requires Steps(g, x) && CountersOk(x.filled, g, unallocated)
    ensures OthersSame(x.before, x.after, g, x.owner, x.owner', x.n)
    ensures LayoutOk(x.after, g, x.owner') && CountersOk(x.after, g, unallocated)
  {
    hide LayoutOk, MapOk, Grown, OnlyData, Overwritten, Header, Resized, CountersOk, InodeWritten, GeometryOk, FileOk,
      Contents;
    var FileWrite(d, d1, d2, d3, owner, owner', n, h, h', u, r, offset, data, sectors, fsize) := x;
    GrownFacts(d, d1, g, owner, owner', n, h, h', u, r);
    InodeWriteLayout(d2, d3, g, owner', n, Resized(h', sectors, fsize), unallocated);
    forall m | InodeNumber(g, m) && m != n
      ensures Header(d3, g, m) == Header(d, g, m)
      ensures FileOk(d, g, owner, m) ==> FileOk(d3, g, owner', m) && Contents(d3, g, m) == Contents(d, g, m)
    {
      StepsOthers(g, x, unallocated, m);
    }
  }

  /** The header cache survives: it never holds the inode that was written. */
  lemma OthersLast(d: Disk, d': Disk, g: Geometry, owner: Owners, owner': Owners, n: nat, last: int, bytes: seq<byte>)
    requires OthersSame(d, d', g, owner, owner', n) && LastOk(d, g, last, bytes)
    ensures LastOk(d', g, if last == n then -1 else last, bytes)
  {
    hide Header, FileOk, Contents, GeometryOk;
  }

  /** What write_inode has read from the header. */
  lemma WritePlan(d: Disk, g: Geometry, owner: Owners, n: nat, h: seq<byte>, end: nat)
    requires FileOk(d, g, owner, n) && RoomFor(d, g, n, end) && |h| >= INODE_T && h[..INODE_T] == Header(d, g, n)
    ensures BlocksUsed(g, h) == BlocksUsed(g, Header(d, g, n)) && Size(h) == Size(Header(d, g, n))
            && MapOk(d, g, owner, n, h, BlocksUsed(g, h))
    ensures
      var fsize := Max(Size(h), end);
      var u, r := BlocksUsed(g, h), BlocksRequired(fsize, g.blockSize);
      && u <= r && fsize < U64_END && r <= MaxBlocks(g) && 0 <= r * (g.blockSize / SECTOR_SIZE) < U32_END
      && r - u + TotalOverhead(g, u, r) <= |Free(d, g)| && BlocksRequired(end, g.blockSize) <= r
  {
    hide MapOk, Header, Size, Sectors, BlocksRequired, MaxBlocks, Free, TotalOverhead;
    PrefixFields(h, Header(d, g, n));
    PrefixMap(d, g, owner, n, h, Header(d, g, n), BlocksUsed(g, Header(d, g, n)));
    RequiredMonotone(Size(h), Max(Size(h), end), g.blockSize);
    RequiredMonotone(end, Max(Size(h), end), g.blockSize);
  }
}
