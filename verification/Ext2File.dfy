/** A file of the disk: its inode, its bytes, and what leaves them alone. */
module Ext2File {
  import opened Bytes
  import opened Division
  import opened BlockCaches
  import opened Ext2Layout
  import opened Ext2Map
  import opened Ext2Alloc
  import opened Ext2Grow

  /** The inode_t of inode n. */
  function Header(d: Disk, g: Geometry, n: nat): (h: seq<byte>)
    requires GeometryOk(g) && n >= 1
    ensures |h| == INODE_T
  {
    var b, at := InodeBlock(d, g, n), InodeOffset(g, n);
    if b in d && at + INODE_T <= |d[b]| then d[b][at..at + INODE_T] else seq(INODE_T, _ => 0)
  }

  /** Byte k of the file with inode h; a block pointer of 0 is a hole. */
  function ByteAt(d: Disk, g: Geometry, h: seq<byte>, k: nat): byte
    requires GeometryOk(g) && |h| >= INODE_T
  {
    var b, at := BlockOf(d, g, h, Div(k, g.blockSize)), Mod(k, g.blockSize);
    if b in d && at < |d[b]| then d[b][at] else 0
  }

  /** What the file holds. */
  function Contents(d: Disk, g: Geometry, n: nat): (s: seq<byte>)
    requires GeometryOk(g) && n >= 1
    ensures |s| == Size(Header(d, g, n))
    ensures forall k :: 0 <= k < |s| ==> s[k] == ByteAt(d, g, Header(d, g, n), k)
  {
    seq(Size(Header(d, g, n)), k requires 0 <= k => ByteAt(d, g, Header(d, g, n), k))
  }

  /** num_disk_sectors / (block_byte_size / SECTOR_SIZE). */
  function BlocksUsed(g: Geometry, h: seq<byte>): nat
    requires GeometryOk(g) && |h| >= INODE_T
  {
    Div(Sectors(h), g.blockSize / SECTOR_SIZE)
  }

  /** Inode n holds exactly the blocks its size asks for, all its own. */
  ghost predicate FileOk(d: Disk, g: Geometry, owner: Owners, n: nat) {
    && GeometryOk(g) && InodeNumber(g, n)
    && var h := Header(d, g, n);
       && BlocksUsed(g, h) == BlocksRequired(Size(h), g.blockSize)
       && MapOk(d, g, owner, n, h, BlocksUsed(g, h))
  }

  /** get_block can follow the pointers to block i. */
  ghost predicate Reaches(d: Disk, g: Geometry, h: seq<byte>, i: nat)
    requires GeometryOk(g)
  {
    var c := Capacity(g);
    && |h| >= INODE_T && i < MaxBlocks(g)
    && (12 <= i < 12 + c ==> Single(h) in d)
    && (12 + c <= i ==> Double(h) in d && Ptr(d, Double(h), 4 * Div(i - 12 - c, c)) in d)
  }

  /** Every block of the file can be reached and is a hole or a block of the disk. */
  ghost predicate Readable(d: Disk, g: Geometry, h: seq<byte>)
    requires GeometryOk(g) && |h| >= INODE_T
  {
    forall i :: 0 <= i < BlocksRequired(Size(h), g.blockSize) ==>
                  Reaches(d, g, h, i) && (BlockOf(d, g, h, i) == 0 || BlockOf(d, g, h, i) in d)
  }

  lemma MapReaches(d: Disk, g: Geometry, owner: Owners, n: nat, h: seq<byte>, u: nat, i: nat)
    requires LayoutOk(d, g, owner) && MapOk(d, g, owner, n, h, u) && i < u
    ensures Reaches(d, g, h, i) && BlockOf(d, g, h, i) in d && Owned(owner, BlockOf(d, g, h, i), Data(n, i))
  {
    hide LayoutOk, MapOk, Ptr, GeometryOk;
    Sized(d, g, owner);
    MapOkFields(d, g, owner, n, h, u, i);
    MapLength(d, g, owner, n, h, u);
    LayoutRange(d, g, owner);
    CapacityFacts(g);
  }

  /** A well-formed file can be read. */
  lemma FileReadable(d: Disk, g: Geometry, owner: Owners, n: nat)
    requires LayoutOk(d, g, owner) && FileOk(d, g, owner, n)
    ensures Readable(d, g, Header(d, g, n))
  {
    hide LayoutOk, MapOk, Reaches, BlockOf;
    var h := Header(d, g, n);
    forall i | 0 <= i < BlocksRequired(Size(h), g.blockSize)
      ensures Reaches(d, g, h, i) && (BlockOf(d, g, h, i) == 0 || BlockOf(d, g, h, i) in d)
    {
      MapReaches(d, g, owner, n, h, BlocksUsed(g, h), i);
    }
  }

  /** The bytes of one block, or zeros for a hole, are the bytes of the file there. */
  lemma ChunkBytes(d: Disk, g: Geometry, h: seq<byte>, pos: nat, chunk: seq<byte>)
    requires GeometryOk(g) && |h| >= INODE_T && BlocksSized(d, g) && 0 !in d
             && Mod(pos, g.blockSize) + |chunk| <= g.blockSize
    requires
      var b, at := BlockOf(d, g, h, Div(pos, g.blockSize)), Mod(pos, g.blockSize);
      if b == 0 then forall t :: 0 <= t < |chunk| ==> chunk[t] == 0 else b in d && chunk == d[b][at..at + |chunk|]
    ensures forall t :: 0 <= t < |chunk| ==> chunk[t] == ByteAt(d, g, h, pos + t)
  {
    hide BlockOf, GeometryOk;
    forall t | 0 <= t < |chunk| ensures chunk[t] == ByteAt(d, g, h, pos + t) {
      SameBlock(pos, g.blockSize, t);
    }
  }

  /** Byte k of a well-formed file lies in one of its blocks. */
  lemma ByteInBlock(g: Geometry, size: nat, k: nat)
    requires GeometryOk(g) && k < size
    ensures Div(k, g.blockSize) < BlocksRequired(size, g.blockSize)
  {
    DivMod(k, g.blockSize);
    RequiredCovers(size, g.blockSize, Div(k, g.blockSize));
  }

  /** The inode is where it was, unchanged. */
  ghost predicate HeaderSame(d: Disk, d': Disk, g: Geometry, n: nat)
    requires GeometryOk(g) && n >= 1
  {
    Header(d', g, n) == Header(d, g, n)
  }

  lemma BytesSame(d: Disk, d': Disk, g: Geometry, owner: Owners, n: nat, h: seq<byte>, u: nat, k: nat)
    requires GeometryOk(g) && MapOk(d, g, owner, n, h, u) && FileBlocksSame(d, d', owner, n) && Div(k, g.blockSize) < u
    ensures ByteAt(d', g, h, k) == ByteAt(d, g, h, k)
  {
    var i := Div(k, g.blockSize);
    BlockOfSame(d, d', g, owner, n, h, u, i);
    MapOkFields(d, g, owner, n, h, u, i);
  }

  /** Whatever leaves a file's inode and blocks alone leaves the file alone. */
  lemma FileSame(d: Disk, d': Disk, g: Geometry, owner: Owners, owner': Owners, n: nat)
    requires FileOk(d, g, owner, n) && HeaderSame(d, d', g, n) && FileBlocksSame(d, d', owner, n)
             && OwnerGrows(owner, owner')
    ensures FileOk(d', g, owner', n) && Contents(d', g, n) == Contents(d, g, n)
  {
    var h := Header(d, g, n);
    MapOkSame(d, d', g, owner, owner', n, h, BlocksUsed(g, h));
    forall k | 0 <= k < Size(h) ensures ByteAt(d', g, h, k) == ByteAt(d, g, h, k) {
      ByteInBlock(g, Size(h), k);
      BytesSame(d, d', g, owner, n, h, BlocksUsed(g, h), k);
    }
  }

  lemma TableOwned(d: Disk, g: Geometry, owner: Owners, k: nat, t: nat)
    requires LayoutOk(d, g, owner) && k < g.groups && t < TableLength(g)
    ensures var b := InodeTable(d, g, k) + t; Owned(owner, b, Table(k, t)) && b in d && |d[b]| == g.blockSize
  {
    assert Owned(owner, InodeTable(d, g, k) + t, Table(k, t));
  }

  /** The block of the inode table that holds inode n. */
  lemma InodeBlockOwned(d: Disk, g: Geometry, owner: Owners, n: nat)
    requires LayoutOk(d, g, owner) && InodeNumber(g, n)
    ensures Owned(owner, InodeBlock(d, g, n), Table(Div(n - 1, g.inodesPerGroup), Div(Slot(g, n), g.blockSize)))
    ensures InodeBlock(d, g, n) in d && |d[InodeBlock(d, g, n)]| == g.blockSize
    ensures InodeOffset(g, n) + g.inodeSize <= g.blockSize
    ensures Header(d, g, n) == d[InodeBlock(d, g, n)][InodeOffset(g, n)..InodeOffset(g, n) + INODE_T]
  {
    hide LayoutOk, InodeTable, TableLength;
    Sized(d, g, owner);
    InodeFits(g, n);
    TableOwned(d, g, owner, Div(n - 1, g.inodesPerGroup), Div(Slot(g, n), g.blockSize));
  }

  /** Growing a file moves no inode. */
  lemma GrewHeader(d: Disk, d': Disk, g: Geometry, owner: Owners, owner': Owners, n: nat, m: nat)
    requires LayoutOk(d, g, owner) && Grew(d, d', g, owner, owner', n) && InodeNumber(g, m)
    ensures HeaderSame(d, d', g, m)
  {
    hide LayoutOk;
    InodeBlockOwned(d, g, owner, m);
  }

  lemma GrewOthers(d: Disk, d': Disk, g: Geometry, owner: Owners, owner': Owners, n: nat, m: nat)
    requires LayoutOk(d, g, owner) && Grew(d, d', g, owner, owner', n) && FileOk(d, g, owner, m) && m != n
    ensures FileOk(d', g, owner', m) && Contents(d', g, m) == Contents(d, g, m)
  {
    hide FileOk, LayoutOk, Contents;
    FileNumber(d, g, owner, m);
    GrewHeader(d, d', g, owner, owner', n, m);
    FileSame(d, d', g, owner, owner', m);
  }

  lemma FileNumber(d: Disk, g: Geometry, owner: Owners, n: nat)
    requires FileOk(d, g, owner, n)
    ensures GeometryOk(g) && InodeNumber(g, n)
  {
  }

  /** A buffer that starts with the inode stands for it. */
  lemma PrefixFields(h: seq<byte>, h0: seq<byte>)
    requires |h| >= INODE_T && |h0| == INODE_T && h[..INODE_T] == h0
    ensures Size(h) == Size(h0) && Sectors(h) == Sectors(h0) && Single(h) == Single(h0) && Double(h) == Double(h0)
    ensures forall i :: 0 <= i < 12 ==> Direct(h, i) == Direct(h0, i)
  {
    hide U32;
    SliceU32(h, 0, INODE_T, 4);
    SliceU32(h, 0, INODE_T, 28);
    SliceU32(h, 0, INODE_T, 88);
    SliceU32(h, 0, INODE_T, 92);
    SliceU32(h, 0, INODE_T, 108);
    forall i | 0 <= i < 12 ensures Direct(h, i) == Direct(h0, i) {
      SliceU32(h, 0, INODE_T, 40 + 4 * i);
    }
  }

  lemma PrefixMap(d: Disk, g: Geometry, owner: Owners, n: nat, h: seq<byte>, h0: seq<byte>, u: nat)
    requires GeometryOk(g) && |h| >= INODE_T && |h0| == INODE_T && h[..INODE_T] == h0
    ensures forall i :: 0 <= i ==> BlockOf(d, g, h, i) == BlockOf(d, g, h0, i)
    ensures MapOk(d, g, owner, n, h, u) == MapOk(d, g, owner, n, h0, u)
    ensures BlocksUsed(g, h) == BlocksUsed(g, h0)
  {
    PrefixFields(h, h0);
    hide Size, Sectors, Direct, Single, Double;
    forall i | 0 <= i ensures BlockOf(d, g, h, i) == BlockOf(d, g, h0, i) {}
  }

  /** The header cache holds the inode it names. */
  ghost predicate LastOk(d: Disk, g: Geometry, last: int, bytes: seq<byte>) {
    GeometryOk(g) && last >= -1 && (last != -1 ==> last >= 1 && InodeNumber(g, last) && bytes == Header(d, g, last))
  }

  lemma HeaderRead(d: Disk, g: Geometry, owner: Owners, n: nat, h: seq<byte>)
    requires LayoutOk(d, g, owner) && InodeNumber(g, n) && InodeBlock(d, g, n) in d
             && InodeOffset(g, n) + g.inodeSize <= |d[InodeBlock(d, g, n)]|
    requires h == d[InodeBlock(d, g, n)][InodeOffset(g, n)..InodeOffset(g, n) + g.inodeSize]
    ensures |h| == g.inodeSize >= INODE_T && h[..INODE_T] == Header(d, g, n)
  {
    hide LayoutOk;
    Sized(d, g, owner);
    InodeBlockOwned(d, g, owner, n);
  }

  /** The u64 arithmetic that cuts a read to the end of the file; past the end it cuts nothing. */
  function ClipSize(fsize: nat, size: nat, offset: nat): (r: nat)
    requires size + offset < U64_END && fsize < U64_END
    ensures offset <= fsize ==> r == Min(size, fsize - offset)
    ensures offset > fsize ==> r == size
  {
    if size > (fsize - offset) % U64_END then size - (size + offset - fsize) else size
  }

  lemma ContentsSize(d: Disk, g: Geometry, n: nat)
    requires GeometryOk(g) && n >= 1
    ensures |Contents(d, g, n)| == Size(Header(d, g, n)) < U64_END
  {
  }

  /** A position inside the file leads to a block that can be read. */
  lemma ReadReaches(d: Disk, g: Geometry, n: nat, h: seq<byte>, pos: nat)
    requires GeometryOk(g) && n >= 1 && |h| >= INODE_T && h[..INODE_T] == Header(d, g, n)
    requires Readable(d, g, Header(d, g, n)) && pos < |Contents(d, g, n)|
    ensures var i := Div(pos, g.blockSize);
            Reaches(d, g, h, i) && (BlockOf(d, g, h, i) == 0 || BlockOf(d, g, h, i) in d)
  {
    hide GeometryOk, Header, BlockOf, Size, Single, Double, Ptr, Capacity, MaxBlocks, U32;
    var h0 := Header(d, g, n);
    PrefixFields(h, h0);
    PrefixMap(d, g, map[], n, h, h0, 0);
    ByteInBlock(g, Size(h0), pos);
    assert Reaches(d, g, h0, Div(pos, g.blockSize));
  }

  /** A chunk of file bytes extends what has been read. */
  lemma ReadMore(d: Disk, g: Geometry, n: nat, h: seq<byte>, offset: nat, data: seq<byte>, chunk: seq<byte>)
    requires GeometryOk(g) && n >= 1 && |h| >= INODE_T && h[..INODE_T] == Header(d, g, n)
    requires offset + |data| + |chunk| <= |Contents(d, g, n)|
    requires data == Contents(d, g, n)[offset..offset + |data|]
    requires forall t :: 0 <= t < |chunk| ==> chunk[t] == ByteAt(d, g, h, offset + |data| + t)
    ensures data + chunk == Contents(d, g, n)[offset..offset + |data + chunk|]
  {
    hide GeometryOk, Header, BlockOf;
    var c, at := Contents(d, g, n), offset + |data|;
    PrefixMap(d, g, map[], n, h, Header(d, g, n), 0);
    assert chunk == c[at..at + |chunk|];
    assert c[offset..at + |chunk|] == c[offset..at] + c[at..at + |chunk|];
  }
}
