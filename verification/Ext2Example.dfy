/** A small disk as ext2 lays it out, with its root directory. With 4 KiB blocks it meets every invariant
    of the file system; with 1 KiB blocks the first allocation takes the root directory's block. */
module Ext2Example {
  import opened Bits
  import opened Bytes
  import opened Division
  import opened BlockCaches
  import opened Ext2Layout
  import opened Ext2Map
  import opened Ext2Alloc
  import opened Ext2File
  import opened Ext2FirstBlock
  import Ext2Write
  import opened Ext2Fs
  import opened Ext2Directory
  import Dir = Directory

  /** s_first_data_block: 1 with 1 KiB blocks, 0 with 4 KiB blocks. */
  type First = f: nat | f <= 1

  const ROOT := 2

  function BlockSize(f: First): nat {
    if f == 1 then 1024 else 4096
  }

  /** One group of 16 blocks, 8 inodes. */
  function Geo(f: First): Geometry {
    Geometry(BlockSize(f), 16, 8, 1, 128)
  }

  /** The group descriptor: block bitmap, inode table, and 10 free blocks. */
  function DescBytes(f: First): (s: seq<byte>)
    ensures |s| == BlockSize(f) && s[0] == f + 2 && s[8] == f + 4 && s[12] == 10
    ensures forall i :: 0 <= i < |s| && i != 0 && i != 8 && i != 12 ==> s[i] == 0
  {
    Zeros(BlockSize(f))[0 := f + 2][8 := f + 4][12 := 10]
  }

  /** Six blocks are in use: superblock, descriptors, two bitmaps, inode table and root directory. */
  function BitmapBytes(f: First): (s: seq<byte>)
    ensures |s| == BlockSize(f) && s[0] == 0x3F && forall i :: 0 < i < |s| ==> s[i] == 0
  {
    Zeros(BlockSize(f))[0 := 0x3F]
  }

  /** Inode 2 is the root directory, of one block; the others are unused. */
  function TableBytes(f: First): (s: seq<byte>)
    ensures |s| == BlockSize(f) && s[133] == BlockSize(f) / 256 && s[156] == BlockSize(f) / 512 && s[168] == f + 5
    ensures forall i :: 0 <= i < |s| && i != 133 && i != 156 && i != 168 ==> s[i] == 0
  {
    Zeros(BlockSize(f))[133 := BlockSize(f) / 256][156 := BlockSize(f) / 512][168 := f + 5]
  }

  /** "." and "..", which fill the root directory's block. */
  function RootRecords(f: First): (q: seq<Dir.Record>)
    ensures |q| == 2 && Dir.AllOk(q) && q[0].Size() == 12 && q[1].Size() == BlockSize(f) - 12
  {
    [Dir.Record(ROOT, 2, [0x2E], Zeros(3)), Dir.Record(ROOT, 2, [0x2E, 0x2E], Zeros(BlockSize(f) - 22))]
  }

  function RootBytes(f: First): (s: seq<byte>)
    ensures |s| == BlockSize(f)
  {
    var q := RootRecords(f);
    Dir.EncodeTwo(q[0], q[1]);
    assert q == [q[0], q[1]];
    Dir.Encode(q)
  }

  function Block(f: First, b: nat): (s: seq<byte>)
    ensures |s| == BlockSize(f)
  {
    if b == f + 1 then DescBytes(f)
    else if b == f + 2 then BitmapBytes(f)
    else if b == f + 4 then TableBytes(f)
    else if b == f + 5 then RootBytes(f)
    else Zeros(BlockSize(f))
  }

  function Formatted(f: First): (d: Disk) {
    map b: nat | 0 < b < 16 + f :: Block(f, b)
  }

  lemma FormattedBlock(f: First, b: nat)
    ensures b in Formatted(f) <==> 0 < b < 16 + f
    ensures 0 < b < 16 + f ==> Formatted(f)[b] == Block(f, b)
  {
  }

  /** The uses of the blocks; `root` says whether the root directory's block is among them. */
  function Roles(f: First, root: bool): Owners {
    var meta: Owners := map[f + 1 := Desc, f + 2 := Bitmap(0), f + 4 := Table(0, 0)];
    if root then meta[f + 5 := Data(ROOT, 0)] else meta
  }

  lemma GeoOk(f: First)
    ensures GeometryOk(Geo(f)) && TableLength(Geo(f)) == 1 && DescBlock(Geo(f)) == f + 1
  {
    DivModUnique(if f == 1 then 8 else 32, 128, 0);
    if f == 1 { DivModUnique(1, 1024, 0); } else { DivModUnique(0, 4096, 1024); }
  }

  lemma Places(f: First)
    ensures DescBlock(Geo(f)) == f + 1
    ensures BitmapBlock(Formatted(f), Geo(f), 0) == f + 2 && InodeTable(Formatted(f), Geo(f), 0) == f + 4
    ensures Count(Formatted(f), Geo(f), 0) == 10
  {
    hide Formatted;
    FormattedBlock(f, f + 1);
  }

  lemma Marks(f: First, b: nat)
    requires b < 16
    ensures Marked(Formatted(f), Geo(f), b) == (b < 6)
  {
    hide Formatted, BitmapBlock;
    Places(f);
    FormattedBlock(f, f + 2);
    DivModUnique(0, 16, b);
    if b < 8 {
      LowBits(b);
    } else {
      NoBit(b % 8);
    }
  }

  lemma LowBits(c: nat)
    requires c < 8
    ensures Bit(0x3F, c) == (c < 6)
  {
    if c == 0 {} else if c == 1 {} else if c == 2 {} else if c == 3 {} else if c == 4 {} else if c == 5 {}
    else if c == 6 {} else {}
  }

  /** The layout invariant holds; on the 1 KiB disk only without the root directory. */
  lemma FormattedLayout(f: First)
    ensures LayoutOk(Formatted(f), Geo(f), Roles(f, f == 0))
  {
    hide Marked, BitmapBlock, InodeTable, TableLength, Formatted, Block;
    GeoOk(f);
    Places(f);
    forall b: nat ensures b in Formatted(f) <==> 0 < b < 16 + f
      ensures 0 < b < 16 + f ==> Formatted(f)[b] == Block(f, b) {
      FormattedBlock(f, b);
    }
    forall b | 0 <= b < 16 ensures Marked(Formatted(f), Geo(f), b) == (b < 6) { Marks(f, b); }
  }

  lemma FormattedCounters(f: First)
    ensures CountersOk(Formatted(f), Geo(f), 10)
  {
    hide Marked, MarkedAt, Formatted, Count;
    Places(f);
    var rest: set<nat> := {6, 7, 8, 9, 10, 11, 12, 13, 14, 15};
    forall b | 0 <= b < 16 ensures Marked(Formatted(f), Geo(f), b) == MarkedAt(Formatted(f), Geo(f), 0, b) == (b < 6) {
      Marks(f, b);
      InFirst(f, b);
    }
    SubsetSize(Free(Formatted(f), Geo(f)), rest);
    SubsetSize(FreeIn(Formatted(f), Geo(f), 0), rest);
  }

  lemma InFirst(f: First, b: nat)
    requires b < 16
    ensures Marked(Formatted(f), Geo(f), b) == MarkedAt(Formatted(f), Geo(f), 0, b)
  {
    hide MarkedAt, Formatted;
    DivModUnique(0, 16, b);
  }

  /** Inode n's header: the root directory's names one block, the others are zero. */
  lemma HeaderIs(f: First, n: nat)
    requires 1 <= n <= 8 && GeometryOk(Geo(f))
    ensures var h := Header(Formatted(f), Geo(f), n);
            forall i :: 0 <= i < INODE_T ==> h[i] == TableBytes(f)[128 * (n - 1) + i]
  {
    hide Formatted, InodeTable, Div, Mod, TableBytes;
    DivModUnique(0, 8, n - 1);
    Places(f);
    FormattedBlock(f, f + 4);
    MulLe(n - 1, 7, 128);
    DivModUnique(0, BlockSize(f), (n - 1) * 128);
  }

  lemma RootHeader(f: First)
    requires GeometryOk(Geo(f))
    ensures var h := Header(Formatted(f), Geo(f), ROOT);
            Size(h) == BlockSize(f) && Sectors(h) == BlockSize(f) / SECTOR_SIZE && Direct(h, 0) == f + 5
  {
    hide Header, GeometryOk;
    HeaderIs(f, ROOT);
  }

  lemma OtherHeader(f: First, n: nat)
    requires 1 <= n <= 8 && n != ROOT && GeometryOk(Geo(f))
    ensures var h := Header(Formatted(f), Geo(f), n); Size(h) == 0 && Sectors(h) == 0
  {
    hide Header, GeometryOk;
    HeaderIs(f, n);
  }

  /** Every invariant the operations ask for holds of the disk with 4 KiB blocks: the root directory holds its
      two records and all other files are empty. */
  lemma FormattedFiles(n: nat)
    requires 1 <= n <= 8
    ensures LayoutOk(Formatted(0), Geo(0), Roles(0, true)) && CountersOk(Formatted(0), Geo(0), 10)
    ensures FileOk(Formatted(0), Geo(0), Roles(0, true), n)
    ensures n != ROOT ==> Contents(Formatted(0), Geo(0), n) == []
    ensures n == ROOT ==> DirectoryOk(Formatted(0), Geo(0), Roles(0, true), n)
                          && Records(Formatted(0), Geo(0), Roles(0, true), n) == RootRecords(0)
  {
    hide LayoutOk, CountersOk, Formatted, Header, GeometryOk;
    FormattedLayout(0);
    FormattedCounters(0);
    GeoOk(0);
    DivModUnique(0, 8, n - 1);
    if n == ROOT {
      RootHeader(0);
      DivModUnique(1, 8, 0);
      DivModUnique(1, 4096, 0);
      RootContents();
      NowRecords(Formatted(0), Geo(0), Roles(0, true), n, RootRecords(0));
    } else {
      OtherHeader(0, n);
    }
  }

  lemma RootContents()
    requires GeometryOk(Geo(0))
    ensures Contents(Formatted(0), Geo(0), ROOT) == RootBytes(0)
  {
    hide Formatted, Header, GeometryOk, RootBytes;
    RootHeader(0);
    FormattedBlock(0, 5);
    forall k: nat | k < 4096 ensures ByteAt(Formatted(0), Geo(0), Header(Formatted(0), Geo(0), ROOT), k)
        == RootBytes(0)[k] {
      DivModUnique(0, 4096, k);
    }
  }

  /** The disk with 1 KiB blocks: get_free_blocks can be called, its first block is the root directory's,
      and the disk's own bitmap has that block in use. */
  lemma RootHandedOut(entries: seq<nat>)
    requires Fresh(Formatted(1), Geo(1), entries) && SkipsNone(Formatted(1), Geo(1), entries) && entries != []
    ensures LayoutOk(Formatted(1), Geo(1), Roles(1, false)) && CountersOk(Formatted(1), Geo(1), 10)
    ensures entries[0] == 6 == BlockOf(Formatted(1), Geo(1), Header(Formatted(1), Geo(1), ROOT), 0)
    ensures InUse(Formatted(1), Geo(1), 1, 6)
  {
    hide LayoutOk, CountersOk, Formatted, Header, Marked;
    FormattedLayout(1);
    FormattedCounters(1);
    GeoOk(1);
    RootHeader(1);
    Marks(1, 6);
    assert entries[0] in Free(Formatted(1), Geo(1));
    Marks(1, entries[0]);
    assert 6 in Free(Formatted(1), Geo(1));
    LowestInUse(Formatted(1), Geo(1), 1, entries);
  }

  /** Mounting the disk with 4 KiB blocks, entering the name "a" for inode 3 into its root directory and
      looking "." and "a" up. */
  method EnterAndFind() returns (dot: nat, a: nat)
    ensures dot == ROOT && a == 3
  {
    hide LayoutOk, CountersOk, FileOk, Contents, Formatted, Roles, GeometryOk, BlockCache.Valid, Dir.Tiled, Dir.Decode,
      Dir.EntryAdded, Dir.Visible, Dir.Lookup, Dir.Find, MustAppend, Ext2Write.RoomFor, RootRecords;
    var cache := new BlockCache(4096, Mounted());
    assert cache.Logical() == Formatted(0);
    var fs := new Ext2(Geo(0), cache, 10, Roles(0, true));
    FormattedFiles(ROOT);
    GeoOk(0);
    RootNames();
    dot := GetInodeInDirectory(fs, ROOT, [0x2E]);
    var k := CreateEntry(fs, ROOT, 3, 1, [0x61], []);
    ghost var q' := Records(fs.Blocks(), fs.geo, fs.owner, ROOT);
    Dir.EntryAddedLookup(RootRecords(0), q', k, 3, 1, [0x61], 4096, [0x61]);
    a := GetInodeInDirectory(fs, ROOT, [0x61]);
  }

  /** The device: the logical disk and block 0. */
  function Mounted(): (d: Disk)
    ensures 0 in d && (forall b :: b in d ==> |d[b]| == 4096) && d - {0} == Formatted(0)
  {
    Formatted(0)[0 := Zeros(4096)]
  }

  lemma RootNames()
    ensures
      var q := RootRecords(0);
      && Dir.Lookup(Dir.Visible(q), [0x2E]) == ROOT && Dir.Find(Dir.Visible(q), [0x61]) == |Dir.Visible(q)|
      && (forall k :: Dir.Reached(q, k)) && !MustAppend(q, Dir.Real(1), 4096)
  {
    var q := RootRecords(0);
    Dir.VisibleIs(q, 2);
    assert Dir.Visible(q) == q;
    Dir.FindIs(q, [0x2E], 0);
    Dir.FindIs(q, [0x61], 2);
    assert Dir.Start(q, 1) == 12;
    DivModUnique(0, 4096, 12);
    assert Dir.Fits(q, 1, Dir.Real(1), 4096);
  }
}
