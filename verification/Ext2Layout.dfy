/** Where an ext2 file system keeps things, as functions of the disk's blocks: group descriptors,
    block bitmaps, inode tables and the block map of an inode. */
module Ext2Layout {
  import opened Bits
  import opened Bytes
  import opened Division
  import opened BlockCaches

  const SECTOR_SIZE: nat := 512
  /** sizeof(inode_t) and sizeof(bgdt_t). */
  const INODE_T: nat := 120
  const BGDT_T: nat := 32

  datatype Geometry = Geometry(blockSize: nat, blocksPerGroup: nat, inodesPerGroup: nat, groups: nat, inodeSize: nat)

  predicate GeometryOk(g: Geometry) {
    && g.blockSize >= 1024 && g.blockSize % 1024 == 0
    && g.blocksPerGroup > 0 && g.blocksPerGroup % 8 == 0 && g.blocksPerGroup / 8 <= g.blockSize
    && g.inodesPerGroup > 0 && g.inodeSize >= 128 && Mod(g.blockSize, g.inodeSize) == 0
    && g.groups * BGDT_T <= g.blockSize && g.groups * g.blocksPerGroup <= U32_END
  }

  /** INDIRECT_BLOCK_CAPACITY. */
  function Capacity(g: Geometry): nat {
    g.blockSize / 4
  }

  function TotalBlocks(g: Geometry): nat {
    g.groups * g.blocksPerGroup
  }

  function DescBlock(g: Geometry): nat {
    if g.blockSize == 1024 then 2 else 1
  }

  /** `*(u32 *)` in a block; 0 where there is none. */
  function Ptr(d: Disk, b: nat, at: nat): (v: nat)
    ensures v < U32_END
  {
    if b in d && at + 4 <= |d[b]| then U32(d[b], at) else 0
  }

  /** block_usage_bitmap and starting_inode_table of group k. */
  function BitmapBlock(d: Disk, g: Geometry, k: nat): nat {
    Ptr(d, DescBlock(g), BGDT_T * k)
  }

  function InodeTable(d: Disk, g: Geometry, k: nat): nat {
    Ptr(d, DescBlock(g), BGDT_T * k + 8)
  }

  /** Bit p of a bitmap block. */
  predicate BitAt(bitmap: seq<byte>, p: nat) {
    BitIn(bitmap, p / 8, p % 8)
  }

  predicate MarkedAt(d: Disk, g: Geometry, k: nat, p: nat) {
    BitmapBlock(d, g, k) in d && BitAt(d[BitmapBlock(d, g, k)], p)
  }

  /** Block b is in use according to its group's bitmap. */
  predicate Marked(d: Disk, g: Geometry, b: nat)
    requires g.blocksPerGroup > 0
  {
    MarkedAt(d, g, Div(b, g.blocksPerGroup), Mod(b, g.blocksPerGroup))
  }

  // The fields of an inode_t.

  function Size(h: seq<byte>): nat
    requires |h| >= INODE_T
  {
    U32(h, 4) + U32_END * U32(h, 108)
  }

  function Sectors(h: seq<byte>): nat
    requires |h| >= INODE_T
  {
    U32(h, 28)
  }

  function Direct(h: seq<byte>, i: nat): nat
    requires |h| >= INODE_T && i < 12
  {
    U32(h, 40 + 4 * i)
  }

  function Single(h: seq<byte>): nat
    requires |h| >= INODE_T
  {
    U32(h, 88)
  }

  function Double(h: seq<byte>): nat
    requires |h| >= INODE_T
  {
    U32(h, 92)
  }

  /** The number of block i of the file with inode h, through the indirect blocks. */
  function BlockOf(d: Disk, g: Geometry, h: seq<byte>, i: nat): nat
    requires GeometryOk(g) && |h| >= INODE_T
  {
    var c := Capacity(g);
    if i < 12 then Direct(h, i)
    else if i - 12 < c then Ptr(d, Single(h), 4 * (i - 12))
    else
      var j := i - 12 - c;
      Ptr(d, Ptr(d, Double(h), 4 * Div(j, c)), 4 * Mod(j, c))
  }

  /** Blocks get_block can reach. */
  function MaxBlocks(g: Geometry): nat {
    12 + Capacity(g) * Capacity(g)
  }

  // Inodes in their tables.

  predicate InodeNumber(g: Geometry, n: nat)
    requires g.inodesPerGroup > 0
  {
    1 <= n && Div(n - 1, g.inodesPerGroup) < g.groups
  }

  /** Byte offset of inode n in the inode table of its group. */
  function Slot(g: Geometry, n: nat): nat
    requires g.inodesPerGroup > 0 && n >= 1
  {
    MulLe(0, Mod(n - 1, g.inodesPerGroup), g.inodeSize);
    Mod(n - 1, g.inodesPerGroup) * g.inodeSize
  }

  function TableLength(g: Geometry): nat
    requires g.blockSize > 0
  {
    MulLe(0, g.inodesPerGroup, g.inodeSize);
    BlocksRequired(g.inodesPerGroup * g.inodeSize, g.blockSize)
  }

  function InodeBlock(d: Disk, g: Geometry, n: nat): nat
    requires GeometryOk(g) && n >= 1
  {
    InodeTable(d, g, Div(n - 1, g.inodesPerGroup)) + Div(Slot(g, n), g.blockSize)
  }

  function InodeOffset(g: Geometry, n: nat): nat
    requires GeometryOk(g) && n >= 1
  {
    Mod(Slot(g, n), g.blockSize)
  }

  /** What a block is used for. */
  datatype Role = Desc | Bitmap(group: nat) | Table(group: nat, at: nat)
                | Data(file: nat, index: nat) | SingleOf(file: nat) | DoubleOf(file: nat) | InnerOf(file: nat, at: nat)

  type Owners = map<nat, Role>

  predicate Owned(owner: Owners, b: nat, r: Role) {
    b in owner && owner[b] == r
  }

  /** Role r belongs to file n. */
  predicate Of(r: Role, n: nat) {
    match r
    case Data(f, _) => f == n
    case SingleOf(f) => f == n
    case DoubleOf(f) => f == n
    case InnerOf(f, _) => f == n
    case _ => false
  }

  ghost predicate BlocksSized(d: Disk, g: Geometry) {
    forall b :: b in d ==> |d[b]| == g.blockSize
  }

  /** Metadata is where the descriptors say, each block has one use, every used block is marked in its
      bitmap, and every unmarked one exists. */
  ghost predicate LayoutOk(d: Disk, g: Geometry, owner: Owners) {
    && GeometryOk(g) && BlocksSized(d, g)
    && Owned(owner, DescBlock(g), Desc)
    && (forall k :: 0 <= k < g.groups ==> Owned(owner, BitmapBlock(d, g, k), Bitmap(k)))
    && (forall k, t :: 0 <= k < g.groups && 0 <= t < TableLength(g) ==>
       Owned(owner, InodeTable(d, g, k) + t, Table(k, t)))
    && (forall b :: b in owner ==> b in d && b < TotalBlocks(g) && Marked(d, g, b))
    && (forall b :: 0 <= b < TotalBlocks(g) && !Marked(d, g, b) ==> b in d)
  }

  /** The first u blocks of the file are its own, reached through indirect blocks that are its own. */
  ghost predicate MapOk(d: Disk, g: Geometry, owner: Owners, n: nat, h: seq<byte>, u: nat)
    requires GeometryOk(g)
  {
    var c := Capacity(g);
    && |h| >= INODE_T && u <= MaxBlocks(g)
    && (forall i :: 0 <= i < u ==> Owned(owner, BlockOf(d, g, h, i), Data(n, i)))
    && (u > 12 ==> Owned(owner, Single(h), SingleOf(n)))
    && (u > 12 + c ==> Owned(owner, Double(h), DoubleOf(n)))
    && (forall j :: 0 <= j && 12 + c + j * c < u ==> Owned(owner, Ptr(d, Double(h), 4 * j), InnerOf(n, j)))
  }

  /** An inode lies inside one block of its table. */
  lemma InodeFits(g: Geometry, n: nat)
    requires GeometryOk(g) && n >= 1
    ensures InodeOffset(g, n) + g.inodeSize <= g.blockSize
    ensures Div(Slot(g, n), g.blockSize) < TableLength(g)
  {
    RecordFits(Mod(n - 1, g.inodesPerGroup), g.inodeSize, g.blockSize);
    RecordInTable(Mod(n - 1, g.inodesPerGroup), g.inodesPerGroup, g.inodeSize, g.blockSize);
  }

  /** Two inodes in the same block of the same table do not overlap. */
  lemma InodesApart(g: Geometry, n: nat, n': nat)
    requires GeometryOk(g) && 1 <= n && 1 <= n' && n != n'
    requires Div(n - 1, g.inodesPerGroup) == Div(n' - 1, g.inodesPerGroup)
    requires Div(Slot(g, n), g.blockSize) == Div(Slot(g, n'), g.blockSize)
    ensures InodeOffset(g, n) + g.inodeSize <= InodeOffset(g, n')
            || InodeOffset(g, n') + g.inodeSize <= InodeOffset(g, n)
  {
    var s, s' := Mod(n - 1, g.inodesPerGroup), Mod(n' - 1, g.inodesPerGroup);
    if s == s' {
      DivModInjective(n - 1, n' - 1, g.inodesPerGroup);
    } else {
      RecordsApart(Min(s, s'), Max(s, s'), g.inodeSize, g.blockSize);
    }
  }
}
