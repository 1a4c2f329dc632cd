/** kernel/fs/ext2.c on top of its block cache: block allocation, the block map, and files. */
module Ext2Fs {
  import opened Bits
  import opened Bytes
  import opened Division
  import opened BlockCaches
  import opened Ext2Layout
  import opened Ext2Map
  import opened Ext2Alloc
  import opened Ext2Grow
  import opened Ext2File
  import opened Ext2Write
  import opened Ext2Free

  class Ext2 {
    const geo: Geometry
    const cache: BlockCache
    /** superblock->num_blocks_unallocated. */
    var unallocated: nat
    /** ext2_last_inode_read and ext2_last_inode: the last inode read, or -1. */
    var lastRead: int
    var lastInode: seq<byte>
    /** What every used block is used for. */
    ghost var owner: Owners

    ghost function Blocks(): Disk
      reads this, cache
    {
      cache.Logical()
    }

    ghost predicate CacheOk()
      reads this, cache
    {
      cache.Valid() && cache.blockSize == geo.blockSize && 0 in cache.device
    }

    ghost predicate Ready()
      reads this, cache
    {
      CacheOk() && LayoutOk(Blocks(), geo, owner) && CountersOk(Blocks(), geo, unallocated)
    }

    constructor (g: Geometry, c: BlockCache, free: nat, ghost roles: Owners)
      ensures geo == g && cache == c && unallocated == free && owner == roles && lastRead == -1
    {
      geo, cache, unallocated, owner := g, c, free, roles;
      lastRead, lastInode := -1, [];
    }

    /** ext2_read_block. */
    method ReadBlock(b: nat, size: nat, offset: nat) returns (out: seq<byte>)
      requires CacheOk() && b in Blocks() && offset + size <= geo.blockSize
      modifies cache
      ensures CacheOk() && Blocks() == old(Blocks())
      ensures |Blocks()[b]| == geo.blockSize && out == Blocks()[b][offset..offset + size]
    {
      ghost var at;
      out, at := cache.Read(b, size, offset);
      cache.SeenSized(b);
    }

    /** ext2_write_block. */
    method WriteBlock(b: nat, data: seq<byte>, offset: nat)
      requires CacheOk() && b in Blocks() && |Blocks()[b]| == geo.blockSize && offset + |data| <= geo.blockSize
      modifies cache
      ensures CacheOk() && Blocks() == old(Blocks())[b := Splice(old(Blocks())[b], offset, data)]
    {
      cache.Write(b, data, offset);
    }

    /** get_group_descriptor: the count and the bitmap's place. */
    method GetGroupDescriptor(k: nat) returns (desc: seq<byte>)
      requires CacheOk() && LayoutOk(Blocks(), geo, owner) && k < geo.groups
      modifies cache
      ensures CacheOk() && Blocks() == old(Blocks())
      ensures desc == Blocks()[DescBlock(geo)][BGDT_T * k..BGDT_T * k + BGDT_T]
      ensures U32(desc, 0) == BitmapBlock(Blocks(), geo, k) && U32(desc, 8) == InodeTable(Blocks(), geo, k)
      ensures U16(desc, 12) == Count(Blocks(), geo, k)
    {
      hide LayoutOk, BlockCache.Logical, BlockCache.Valid;
      DescriptorRoom(Blocks(), geo, owner, k);
      desc := ReadBlock(DescBlock(geo), BGDT_T, BGDT_T * k);
      DescriptorFields(Blocks(), geo, owner, k, desc);
    }

    /** The part of get_free_blocks that writes group k's bitmap and descriptor back. */
    method TakeBlocks(k: nat, desc: seq<byte>, bm': seq<byte>, ghost need: nat, ghost entries: seq<nat>)
      requires Ready() && k < geo.groups && entries != []
      requires desc == Blocks()[DescBlock(geo)][BGDT_T * k..BGDT_T * k + BGDT_T] && Count(Blocks(), geo, k) > 0
      requires Scanned(GroupBits(Blocks(), geo, k), bm', Base(geo, k), need, entries, geo.blocksPerGroup)
      modifies cache, `unallocated
      ensures Ready() && Effect(old(Blocks()), Blocks(), geo, owner, entries) && cache.superblockChanged
      ensures |entries| < need ==> FreeIn(Blocks(), geo, k) == {}
    {
      hide LayoutOk, CountersOk, Scanned, Effect, FreeIn, Base, GroupBits, Count, BitmapBlock, InodeTable,
        BlockCache.Logical, BlockCache.Valid;
      ghost var d := Blocks();
      DescriptorFields(d, geo, owner, k, desc);
      ScannedLength(d, geo, owner, k, bm', Base(geo, k), need, entries, geo.blocksPerGroup);
      WriteBlock(U32(desc, 0), bm', 0);
      ghost var d1 := Blocks();
      assert d1[DescBlock(geo)] == d[DescBlock(geo)];
      WriteBlock(DescBlock(geo), Splice(desc, 12, FromU16(U16(desc, 12) - 1)), BGDT_T * k);
      WrittenBack(d, d1, Blocks(), geo, owner, k, desc, bm', need, entries, unallocated);
      EffectLayout(d, Blocks(), geo, owner, entries);
      unallocated := unallocated - 1;
      cache.MarkSuperblock();
    }

    /** What get_free_blocks does with one group: takes up to `need` of its free blocks. */
    method AllocateInGroup(k: nat, need: nat) returns (entries: seq<nat>)
      requires Ready() && k < geo.groups && need > 0
      modifies cache, `unallocated
      ensures Ready() && Effect(old(Blocks()), Blocks(), geo, owner, entries)
      ensures TakenFrom(old(Blocks()), geo, k, entries) && GroupSkipsNone(old(Blocks()), geo, k, entries)
              && |entries| <= need
      ensures |entries| < need ==> FreeIn(Blocks(), geo, k) == {}
    {
      hide LayoutOk, CountersOk, Scanned, Effect, FreeIn, Base, GroupBits, GroupSkipsNone, Count, BitmapBlock,
        InodeTable, BlockCache.Logical, BlockCache.Valid;
      ghost var d := Blocks();
      var desc := GetGroupDescriptor(k);
      DescriptorFields(d, geo, owner, k, desc);
      if U16(desc, 12) == 0 {
        NoneTaken(d, geo, owner, k, unallocated);
        return [];
      }
      var bm := ReadBlock(U32(desc, 0), geo.blocksPerGroup / 8, 0);
      BitmapRead(d, geo, owner, k, bm);
      var bm';
      bm', entries := ScanBitmap(bm, k * geo.blocksPerGroup, need);
      ScanTaken(d, geo, owner, k, bm', need, entries);
      ScanSkipsNone(d, geo, owner, k, bm', need, entries);
      if entries != [] {
        TakeBlocks(k, desc, bm', need, entries);
      } else {
        ScanEmpty(d, geo, owner, k, bm', need);
      }
    }

    /** get_free_blocks with allocate set: the lowest blocks that were free, now marked and nothing else.
        All that were asked for, if that many are free. */
    method GetFreeBlocks(n: nat) returns (entries: seq<nat>)
      requires Ready()
      modifies cache, `unallocated
      ensures Ready() && Effect(old(Blocks()), Blocks(), geo, owner, entries)
      ensures Fresh(old(Blocks()), geo, entries) && SkipsNone(old(Blocks()), geo, entries) && |entries| <= n
      ensures n <= |Free(old(Blocks()), geo)| ==> |entries| == n
    {
      hide LayoutOk, CountersOk, Effect, Fresh, SkipsNone, GroupSkipsNone, FreeIn, Free, Base, BlockCache.Logical,
        BlockCache.Valid;
      ghost var d := Blocks();
      entries := [];
      StartAllocation(d, geo, owner);
      if n > unallocated {
        TooMany(d, geo, unallocated, n);
        return;
      }
      var k := 0;
      while k < geo.groups && |entries| < n
        invariant 0 <= k <= geo.groups && |entries| <= n
        invariant Ready() && Effect(d, Blocks(), geo, owner, entries) && Fresh(d, geo, entries)
                  && SkipsNone(d, geo, entries)
        invariant Before(geo, k, entries)
        invariant |entries| < n ==> ExhaustedBelow(Blocks(), geo, k)
      {
        ghost var d1 := Blocks();
        var found := AllocateInGroup(k, n - |entries|);
        ContinueAllocation(d, d1, Blocks(), geo, owner, k, entries, found);
        ContinueSkipsNone(d, d1, geo, owner, k, entries, found);
        if |entries + found| < n { Exhausted(d1, Blocks(), geo, owner, k, found); }
        entries := entries + found;
        k := k + 1;
      }
      if |entries| < n { AllTaken(d, Blocks(), geo, owner, entries); }
    }

    /** get_free_block. */
    method GetFreeBlock() returns (b: int)
      requires Ready()
      modifies cache, `unallocated
      ensures Ready() && -1 <= b
      ensures b >= 0 ==> Effect(old(Blocks()), Blocks(), geo, owner, [b]) && Fresh(old(Blocks()), geo, [b])
      ensures b == -1 ==> Effect(old(Blocks()), Blocks(), geo, owner, []) && Free(old(Blocks()), geo) == {}
    {
      hide LayoutOk, CountersOk, Effect, Fresh, Free, BlockCache.Logical, BlockCache.Valid;
      var entry := GetFreeBlocks(1);
      if |entry| == 0 {
        assert entry == [];
        return -1;
      }
      assert entry == [entry[0]];
      return entry[0];
    }

    /** write_to_block_bitmap with value 0: exactly this block becomes free. The counters stay upper
        bounds if and only if the group's 16-bit count does not wrap. */
    method ClearBlockBitmap(b: nat)
      requires Ready() && Releasable(Blocks(), geo, owner, b)
      modifies cache, `unallocated, `owner
      ensures CacheOk() && owner == old(owner) - {b} && Released(old(Blocks()), Blocks(), geo, old(owner), b)
      ensures cache.superblockChanged
      ensures Ready() <==> old(Count(Blocks(), geo, Div(b, geo.blocksPerGroup))) + 1 < U16_END
    {
      hide LayoutOk, CountersOk, Released, Base, GroupBits, Count, BitmapBlock, InodeTable, BlockCache.Logical,
        BlockCache.Valid, GeometryOk, Div, Mod, ClearBit, Bit, U16, U32, FromU16, Releasable;
      ghost var d := Blocks();
      ReleasableRange(d, geo, owner, b);
      Sized(d, geo, owner);
      GeometryDivides(geo);
      var k, p := Div(b, geo.blocksPerGroup), Mod(b, geo.blocksPerGroup);
      GroupOf(geo, b);
      var desc := GetGroupDescriptor(k);
      DescriptorFields(d, geo, owner, k, desc);
      var bitmap := ReadBlock(U32(desc, 0), geo.blocksPerGroup / 8, 0);
      BitmapRead(d, geo, owner, k, bitmap);
      BitAtClear(bitmap, p / 8, p % 8, 0);
      bitmap := bitmap[p / 8 := ClearBit(bitmap[p / 8], p % 8)];
      assert bitmap == Without(GroupBits(d, geo, k), p);
      GiveBack(k, p, desc, bitmap);
    }

    /** The two writes of write_to_block_bitmap. */
    method GiveBack(k: nat, ghost p: nat, desc: seq<byte>, bitmap: seq<byte>)
      requires Ready() && k < geo.groups && p < geo.blocksPerGroup && Releasable(Blocks(), geo, owner, Base(geo, k) + p)
      requires desc == Blocks()[DescBlock(geo)][BGDT_T * k..BGDT_T * k + BGDT_T]
      requires p / 8 < |GroupBits(Blocks(), geo, k)| && bitmap == Without(GroupBits(Blocks(), geo, k), p)
      modifies cache, `unallocated, `owner
      ensures var b := Base(geo, k) + p;
              CacheOk() && owner == old(owner) - {b} && Released(old(Blocks()), Blocks(), geo, old(owner), b)
      ensures cache.superblockChanged && (Ready() <==> old(Count(Blocks(), geo, k)) + 1 < U16_END)
    {
      hide LayoutOk, CountersOk, Released, Base, GroupBits, Without, Count, BitmapBlock, InodeTable,
        BlockCache.Logical, BlockCache.Valid, GeometryOk, U16, U32, FromU16, Releasable;
      ghost var d := Blocks();
      DescriptorFields(d, geo, owner, k, desc);
      BitmapLength(d, geo, owner, k, p);
      WriteBlock(U32(desc, 0), bitmap, 0);
      ghost var d1 := Blocks();
      assert d1[DescBlock(geo)] == d[DescBlock(geo)];
      var v := (U16(desc, 12) + 1) % U16_END;
      WriteBlock(DescBlock(geo), Splice(desc, 12, FromU16(v)), BGDT_T * k);
      ReleasedBack(d, d1, Blocks(), geo, owner, k, p, desc, v);
      ReleasableRange(d, geo, owner, Base(geo, k) + p);
      ReleasedCountersExact(d, Blocks(), geo, owner, k, p, v, unallocated);
      unallocated := unallocated + 1;
      owner := owner - {Base(geo, k) + p};
      cache.MarkSuperblock();
    }

    /** ext2_block_containing_inode. */
    method BlockContainingInode(n: nat) returns (block: nat, offset: nat)
      requires CacheOk() && LayoutOk(Blocks(), geo, owner) && InodeNumber(geo, n)
      modifies cache
      ensures CacheOk() && Blocks() == old(Blocks())
      ensures block == InodeBlock(Blocks(), geo, n) && offset == InodeOffset(geo, n)
      ensures block in Blocks() && |Blocks()[block]| == geo.blockSize && offset + geo.inodeSize <= geo.blockSize
    {
      hide LayoutOk, InodeTable, BlockCache.Logical, BlockCache.Valid, GeometryOk;
      Sized(Blocks(), geo, owner);
      var desc := GetGroupDescriptor(Div(n - 1, geo.inodesPerGroup));
      DescriptorFields(Blocks(), geo, owner, Div(n - 1, geo.inodesPerGroup), desc);
      InodeBlockOwned(Blocks(), geo, owner, n);
      var full := Slot(geo, n);
      block := U32(desc, 8) + Div(full, geo.blockSize);
      offset := Mod(full, geo.blockSize);
    }

    /** ext2_get_inode_header: only the inode_t at its start is promised. */
    method GetInodeHeader(n: nat) returns (h: seq<byte>)
      requires CacheOk() && LayoutOk(Blocks(), geo, owner) && InodeNumber(geo, n)
      requires LastOk(Blocks(), geo, lastRead, lastInode)
      modifies cache, `lastRead, `lastInode
      ensures CacheOk() && Blocks() == old(Blocks()) && LastOk(Blocks(), geo, lastRead, lastInode)
      ensures |h| == geo.inodeSize >= INODE_T && h[..INODE_T] == Header(Blocks(), geo, n)
    {
      hide LayoutOk, Header, BlockCache.Logical, BlockCache.Valid;
      Sized(Blocks(), geo, owner);
      if lastRead == n {
        h := lastInode + seq(geo.inodeSize - INODE_T, _ => 0);
        return;
      }
      var block, offset := BlockContainingInode(n);
      h := ReadBlock(block, geo.inodeSize, offset);
      HeaderRead(Blocks(), geo, owner, n, h);
      lastInode := h[..INODE_T];
      lastRead := n;
    }

    /** get_singly_block_index. */
    method GetSinglyBlockIndex(b: nat, i: nat) returns (v: nat)
      requires CacheOk() && b in Blocks() && 4 * i + 4 <= geo.blockSize
      modifies cache
      ensures CacheOk() && Blocks() == old(Blocks()) && v == Ptr(Blocks(), b, 4 * i)
    {
      hide BlockCache.Logical, BlockCache.Valid;
      var block := ReadBlock(b, geo.blockSize, 0);
      assert block == Blocks()[b];
      v := U32(block, 4 * i);
    }

    /** get_block, where the pointers lead to block i. */
    method GetBlock(h: seq<byte>, i: nat) returns (b: nat)
      requires CacheOk() && GeometryOk(geo) && Reaches(Blocks(), geo, h, i)
      modifies cache
      ensures CacheOk() && Blocks() == old(Blocks()) && b == BlockOf(Blocks(), geo, h, i)
    {
      hide Ptr, BlockCache.Logical, BlockCache.Valid, GeometryOk;
      CapacityFacts(geo);
      if i < 12 { return Direct(h, i); }
      var j, c := i - 12, geo.blockSize / 4;
      if j < c {
        b := GetSinglyBlockIndex(Single(h), j);
        return;
      }
      j := j - c;
      InnerOfIndex(geo, j);
      var inner := GetSinglyBlockIndex(Double(h), Div(j, c));
      b := GetSinglyBlockIndex(inner, Mod(j, c));
    }

    /** One block's share of a read: what the file holds there, zeros for a hole. */
    method ReadChunk(h: seq<byte>, i: nat, offset: nat, len: nat, ghost pos: nat) returns (chunk: seq<byte>)
      requires CacheOk() && GeometryOk(geo) && BlocksSized(Blocks(), geo) && Reaches(Blocks(), geo, h, i)
      requires BlockOf(Blocks(), geo, h, i) == 0 || BlockOf(Blocks(), geo, h, i) in Blocks()
      requires Div(pos, geo.blockSize) == i && Mod(pos, geo.blockSize) == offset && offset + len <= geo.blockSize
      modifies cache
      ensures CacheOk() && Blocks() == old(Blocks()) && |chunk| == len
      ensures forall t :: 0 <= t < len ==> chunk[t] == ByteAt(Blocks(), geo, h, pos + t)
    {
      hide Ptr, BlockOf, ByteAt, BlockCache.Valid, GeometryOk;
      var b := GetBlock(h, i);
      if b == 0 {
        chunk := seq(len, _ => 0);
      } else {
        chunk := ReadBlock(b, len, offset);
      }
      ChunkBytes(Blocks(), geo, h, pos, chunk);
    }

    /** read_inode: the part of the file from `offset` on, up to `size` bytes, and the file's size. */
    method ReadInode(n: nat, size: nat, offset: nat) returns (data: seq<byte>, fsize: nat)
      requires CacheOk() && LayoutOk(Blocks(), geo, owner) && InodeNumber(geo, n)
      requires LastOk(Blocks(), geo, lastRead, lastInode) && Readable(Blocks(), geo, Header(Blocks(), geo, n))
      requires size + offset < U64_END
      modifies cache, `lastRead, `lastInode
      ensures CacheOk() && Blocks() == old(Blocks()) && LastOk(Blocks(), geo, lastRead, lastInode)
      ensures fsize == |Contents(Blocks(), geo, n)|
      ensures data == if offset <= fsize then Contents(Blocks(), geo, n)[offset..Min(offset + size, fsize)] else []
    {
      hide LayoutOk, Readable, Header, Contents, ByteAt, LastOk, BlockCache.Logical, BlockCache.Valid;
      Sized(Blocks(), geo, owner);
      var h := GetInodeHeader(n);
      PrefixFields(h, Header(Blocks(), geo, n));
      ContentsSize(Blocks(), geo, n);
      fsize := Size(h);
      data := [];
      var left := ClipSize(fsize, size, offset);
      if left == 0 || offset > fsize { return; }
      data := ReadFrom(n, h, left, offset);
    }

    /** The loop of read_inode. */
    method ReadFrom(ghost n: nat, h: seq<byte>, size: nat, offset: nat) returns (data: seq<byte>)
      requires CacheOk() && LayoutOk(Blocks(), geo, owner) && InodeNumber(geo, n)
      requires |h| >= INODE_T && h[..INODE_T] == Header(Blocks(), geo, n)
               && Readable(Blocks(), geo, Header(Blocks(), geo, n))
      requires offset + size <= |Contents(Blocks(), geo, n)|
      modifies cache
      ensures CacheOk() && Blocks() == old(Blocks())
      ensures data == Contents(Blocks(), geo, n)[offset..offset + size]
    {
      hide LayoutOk, Readable, Header, Contents, ByteAt, Reaches, BlockOf, BlockCache.Logical, BlockCache.Valid,
        GeometryOk;
      ghost var d := Blocks();
      Sized(d, geo, owner);
      var i, o := Div(offset, geo.blockSize), Mod(offset, geo.blockSize);
      data := [];
      while |data| < size
        invariant CacheOk() && Blocks() == d && |data| <= size
        invariant data == Contents(d, geo, n)[offset..offset + |data|]
        invariant |data| < size ==> Div(offset + |data|, geo.blockSize) == i && Mod(offset + |data|, geo.blockSize) == o
      {
        var left := size - |data|;
        var len := if left + o > geo.blockSize then geo.blockSize - o else left;
        ReadReaches(d, geo, n, h, offset + |data|);
        var chunk := ReadChunk(h, i, o, len, offset + |data|);
        ReadMore(d, geo, n, h, offset, data, chunk);
        NextBlock(offset + |data|, geo.blockSize);
        data := data + chunk;
        i, o := i + 1, 0;
      }
    }

    /** write_to_indirect_block. */
    method WriteToIndirectBlock(b: nat, index: nat, v: nat)
      requires CacheOk() && GeometryOk(geo) && b in Blocks() && |Blocks()[b]| == geo.blockSize && v < U32_END
      modifies cache
      ensures CacheOk()
      ensures Capacity(geo) > 0 && 4 * Mod(index, Capacity(geo)) + 4 <= geo.blockSize
      ensures Blocks() == SetPtr(old(Blocks()), b, 4 * Mod(index, Capacity(geo)), v)
    {
      hide BlockCache.Logical, BlockCache.Valid, GeometryOk;
      CapacityFacts(geo);
      WriteBlock(b, FromU32(v), 4 * Mod(index, geo.blockSize / 4));
    }

    /** ext2_allocate_block in the singly indirect range. */
    method AllocateSingle(h: seq<byte>, index: nat, block: nat, ghost n: nat) returns (ok: bool, h': seq<byte>)
      requires Ready() && CanPlace(Blocks(), geo, owner, n, h, index, block) && 12 <= index < 12 + Capacity(geo)
      modifies cache, `unallocated, `owner
      ensures Ready() && (Overhead(geo, index) <= |Free(old(Blocks()), geo)| ==> ok)
      ensures ok ==> Placed(old(Blocks()), Blocks(), geo, old(owner), owner, n, h, h', index, block)
      ensures ok ==> |Free(Blocks(), geo)| + Overhead(geo, index) == |Free(old(Blocks()), geo)|
    {
      hide LayoutOk, CountersOk, MapOk, CanPlace, Attached, Placed, Effect, Fresh, Free, BlockCache.Logical,
        BlockCache.Valid, GeometryOk, Single, Owned;
      ghost var d, roles := Blocks(), owner;
      CanPlaceFacts(d, geo, owner, n, h, index, block);
      CapacityFacts(geo);
      h' := h;
      if index == 12 {
        var s := GetFreeBlock();
        if s == -1 { return false, h; }
        SingleAttached(d, Blocks(), geo, owner, n, h, s);
        h' := SetU32(h, 88, s);
        owner := owner[s := SingleOf(n)];
        AttachedOwned(d, Blocks(), geo, roles, owner, n, h, h', 12);
        StillCanPlace(d, Blocks(), geo, roles, owner, n, h, h', 12, block);
      } else {
        MapOkFields(d, geo, owner, n, h, index, 12);
      }
      ghost var d1, roles1 := Blocks(), owner;
      CanPlaceFacts(d1, geo, owner, n, h', index, block);
      LayoutRange(d1, geo, owner);
      WriteToIndirectBlock(Single(h'), index - 12, block);
      SinglePlaced(d1, Blocks(), geo, owner, n, h', index, block, unallocated);
      owner := owner[block := Data(n, index)];
      PlacedOwned(d1, Blocks(), geo, roles1, owner, n, h', h', index, block);
      if index == 12 { AttachedThenPlaced(d, d1, Blocks(), geo, roles, roles1, owner, n, h, h', h', 12, block); }
      return true, h';
    }

    /** index == 0 of the doubly indirect range of ext2_allocate_block: the doubly indirect block. */
    method AttachDoubleBlock(h: seq<byte>, index: nat, ghost block: nat, ghost n: nat) returns (ok: bool, h': seq<byte>)
      requires Ready() && CanPlace(Blocks(), geo, owner, n, h, index, block) && 12 + Capacity(geo) <= index
      modifies cache, `unallocated, `owner
      ensures Ready() && ((if index == 12 + Capacity(geo) then 1 else 0) <= |Free(old(Blocks()), geo)| ==> ok)
      ensures ok ==> Attached(old(Blocks()), Blocks(), geo, old(owner), owner, n, h, h', index)
      ensures ok ==> CanPlace(Blocks(), geo, owner, n, h', index, block) && Owned(owner, Double(h'), DoubleOf(n))
      ensures ok ==>
                |Free(Blocks(), geo)| + (if index == 12 + Capacity(geo) then 1 else 0) == |Free(old(Blocks()), geo)|
    {
      hide LayoutOk, CountersOk, MapOk, CanPlace, Attached, Placed, Effect, Fresh, Free, BlockCache.Logical,
        BlockCache.Valid, GeometryOk;
      ghost var d, roles := Blocks(), owner;
      CanPlaceFacts(d, geo, owner, n, h, index, block);
      CapacityFacts(geo);
      if index == 12 + geo.blockSize / 4 {
        var s := GetFreeBlock();
        if s == -1 { return false, h; }
        DoubleAttached(d, Blocks(), geo, owner, n, h, s);
        h' := SetU32(h, 92, s);
        owner := owner[s := DoubleOf(n)];
        AttachedOwned(d, Blocks(), geo, roles, owner, n, h, h', index);
        StillCanPlace(d, Blocks(), geo, roles, owner, n, h, h', index, block);
      } else {
        h' := h;
        AttachedSame(d, geo, owner, n, h, index, block);
        MapOkFields(d, geo, owner, n, h, index, 12 + Capacity(geo));
      }
      ok := true;
    }

    /** The start of an inner block's range: a free block becomes inner block j. */
    method NewInnerBlock(h: seq<byte>, j: nat, ghost index: nat, ghost block: nat, ghost n: nat)
      returns (ok: bool, v: nat)
      requires Ready() && CanPlace(Blocks(), geo, owner, n, h, index, block) && Owned(owner, Double(h), DoubleOf(n))
      requires j < Capacity(geo) && j * Capacity(geo) >= 0 && index == 12 + Capacity(geo) + j * Capacity(geo)
      modifies cache, `unallocated, `owner
      ensures Ready() && (1 <= |Free(old(Blocks()), geo)| ==> ok)
      ensures ok ==> Attached(old(Blocks()), Blocks(), geo, old(owner), owner, n, h, h, index)
      ensures ok ==> CanPlace(Blocks(), geo, owner, n, h, index, block) && Owned(owner, Double(h), DoubleOf(n))
      ensures ok ==> v == Ptr(Blocks(), Double(h), 4 * j) && Owned(owner, v, InnerOf(n, j))
      ensures ok ==> |Free(Blocks(), geo)| + 1 == |Free(old(Blocks()), geo)|
    {
      hide LayoutOk, CountersOk, MapOk, CanPlace, Attached, Effect, Fresh, Free, Ptr, BlockCache.Logical,
        BlockCache.Valid, GeometryOk, MaxBlocks;
      ghost var d, roles := Blocks(), owner;
      CanPlaceFacts(d, geo, owner, n, h, index, block);
      CapacityFacts(geo);
      LayoutRange(d, geo, owner);
      var s := GetFreeBlock();
      if s == -1 { return false, 0; }
      ghost var d1 := Blocks();
      FreshSmall(d, geo, owner, s);
      Sized(d1, geo, owner);
      LayoutRange(d1, geo, owner);
      ModSmall(j, Capacity(geo));
      WriteToIndirectBlock(Double(h), j, s);
      InnerAttached(d, d1, Blocks(), geo, owner, n, h, j, s, unallocated);
      owner := owner[s := InnerOf(n, j)];
      AttachedOwned(d, Blocks(), geo, roles, owner, n, h, h, index);
      StillCanPlace(d, Blocks(), geo, roles, owner, n, h, h, index, block);
      return true, s;
    }

    /** The inner block of ext2_allocate_block for this index. */
    method InnerBlock(h: seq<byte>, index: nat, ghost block: nat, ghost n: nat) returns (ok: bool, v: nat)
      requires Ready() && CanPlace(Blocks(), geo, owner, n, h, index, block) && 12 + Capacity(geo) <= index
               && Capacity(geo) > 0
      requires Owned(owner, Double(h), DoubleOf(n))
      modifies cache, `unallocated, `owner
      ensures Ready() && (InnerOverhead(geo, index) <= |Free(old(Blocks()), geo)| ==> ok)
      ensures ok ==> Attached(old(Blocks()), Blocks(), geo, old(owner), owner, n, h, h, index)
      ensures ok ==> CanPlace(Blocks(), geo, owner, n, h, index, block) && Owned(owner, Double(h), DoubleOf(n))
      ensures ok ==> v == Ptr(Blocks(), Double(h), 4 * InnerIndex(geo, index))
      ensures ok ==> Owned(owner, v, InnerOf(n, InnerIndex(geo, index)))
      ensures ok ==> |Free(Blocks(), geo)| + InnerOverhead(geo, index) == |Free(old(Blocks()), geo)|
    {
      hide LayoutOk, CountersOk, MapOk, CanPlace, Attached, Free, Ptr, BlockCache.Logical, BlockCache.Valid,
        GeometryOk, MaxBlocks, Div, Mod;
      ghost var d := Blocks();
      CanPlaceFacts(d, geo, owner, n, h, index, block);
      CapacityFacts(geo);
      LayoutRange(d, geo, owner);
      var c := geo.blockSize / 4;
      var j := Div(index - 12 - c, c);
      if Mod(index - 12 - c, c) == 0 {
        InnerStart(geo, index);
        ok, v := NewInnerBlock(h, j, index, block, n);
      } else {
        AttachedSame(d, geo, owner, n, h, index, block);
        InnerThere(d, geo, owner, n, h, index);
        InnerOfIndexBelow(geo, index);
        v := GetSinglyBlockIndex(Double(h), j);
        ok := true;
      }
    }

    /** ext2_allocate_block in the doubly indirect range. */
    method AllocateDouble(h: seq<byte>, index: nat, block: nat, ghost n: nat) returns (ok: bool, h': seq<byte>)
      requires Ready() && CanPlace(Blocks(), geo, owner, n, h, index, block) && 12 + Capacity(geo) <= index
      modifies cache, `unallocated, `owner
      ensures Ready() && (Overhead(geo, index) <= |Free(old(Blocks()), geo)| ==> ok)
      ensures ok ==> Placed(old(Blocks()), Blocks(), geo, old(owner), owner, n, h, h', index, block)
      ensures ok ==> |Free(Blocks(), geo)| + Overhead(geo, index) == |Free(old(Blocks()), geo)|
    {
      hide LayoutOk, CountersOk, MapOk, CanPlace, Attached, Placed, Free, Ptr, BlockCache.Logical, BlockCache.Valid,
        GeometryOk, MaxBlocks, InnerIndex, InnerOverhead;
      ghost var d, roles := Blocks(), owner;
      CanPlaceFacts(d, geo, owner, n, h, index, block);
      CapacityFacts(geo);
      OverheadSplits(geo, index);
      ok, h' := AttachDoubleBlock(h, index, block, n);
      if !ok { return; }
      ghost var d1, roles1 := Blocks(), owner;
      AttachedOwned(d, d1, geo, roles, roles1, n, h, h', index);
      var v;
      ok, v := InnerBlock(h', index, block, n);
      if !ok { return; }
      ghost var d2, roles2 := Blocks(), owner;
      AttachedTwice(d, d1, d2, geo, roles, roles1, roles2, n, h, h', h', index);
      PlaceInInner(h', index, block, v, n);
      AttachedThenPlaced(d, d2, Blocks(), geo, roles, roles2, owner, n, h, h', h', index, block);
    }

    /** The last write of ext2_allocate_block: the block's number into its inner block. */
    method PlaceInInner(h: seq<byte>, index: nat, block: nat, v: nat, ghost n: nat)
      requires Ready() && CanPlace(Blocks(), geo, owner, n, h, index, block) && 12 + Capacity(geo) <= index
               && Capacity(geo) > 0
      requires Owned(owner, Double(h), DoubleOf(n))
      requires v == Ptr(Blocks(), Double(h), 4 * InnerIndex(geo, index))
               && Owned(owner, v, InnerOf(n, InnerIndex(geo, index)))
      modifies cache, `owner
      ensures Ready() && Free(Blocks(), geo) == Free(old(Blocks()), geo)
      ensures Placed(old(Blocks()), Blocks(), geo, old(owner), owner, n, h, h, index, block)
    {
      hide LayoutOk, CountersOk, MapOk, CanPlace, Placed, Free, Ptr, BlockCache.Logical, BlockCache.Valid, GeometryOk,
        MaxBlocks, Div, Mod;
      ghost var d, roles := Blocks(), owner;
      CanPlaceFacts(d, geo, owner, n, h, index, block);
      CapacityFacts(geo);
      LayoutRange(d, geo, owner);
      WriteToIndirectBlock(v, index - 12 - geo.blockSize / 4, block);
      DoublePlaced(d, Blocks(), geo, owner, n, h, index, block, v, unallocated);
      owner := owner[block := Data(n, index)];
      PlacedOwned(d, Blocks(), geo, roles, owner, n, h, h, index, block);
    }

    /** ext2_allocate_block: block number `block` becomes block `index` of file n. It fails only when
        it finds no free block for the indirect blocks it needs. */
    method AllocateBlock(h: seq<byte>, index: nat, block: nat, ghost n: nat) returns (ok: bool, h': seq<byte>)
      requires Ready() && CanPlace(Blocks(), geo, owner, n, h, index, block)
      modifies cache, `unallocated, `owner
      ensures Ready() && (Overhead(geo, index) <= |Free(old(Blocks()), geo)| ==> ok)
      ensures ok ==> Placed(old(Blocks()), Blocks(), geo, old(owner), owner, n, h, h', index, block)
      ensures ok ==> |Free(Blocks(), geo)| + Overhead(geo, index) == |Free(old(Blocks()), geo)|
    {
      hide LayoutOk, CountersOk, MapOk, CanPlace, Placed, Free, BlockCache.Logical, BlockCache.Valid, GeometryOk,
        MaxBlocks;
      CanPlaceFacts(Blocks(), geo, owner, n, h, index, block);
      CapacityFacts(geo);
      if index < 12 {
        DirectPlaced(Blocks(), geo, owner, n, h, index, block);
        h' := SetU32(h, 40 + 4 * index, block);
        ghost var roles := owner;
        owner := owner[block := Data(n, index)];
        PlacedOwned(Blocks(), Blocks(), geo, roles, owner, n, h, h', index, block);
        ok := true;
      } else if index - 12 < geo.blockSize / 4 {
        ok, h' := AllocateSingle(h, index, block, n);
      } else {
        ok, h' := AllocateDouble(h, index, block, n);
      }
    }

    /** The part of write_inode that takes the file from u to r blocks. */
    method GrowTo(h: seq<byte>, u: nat, r: nat, ghost n: nat) returns (h': seq<byte>)
      requires Ready() && MapOk(Blocks(), geo, owner, n, h, u) && u <= r <= MaxBlocks(geo)
      requires r - u + TotalOverhead(geo, u, r) <= |Free(Blocks(), geo)|
      modifies cache, `unallocated, `owner
      ensures Ready() && Grown(old(Blocks()), Blocks(), geo, old(owner), owner, n, h, h', u, r)
    {
      hide LayoutOk, CountersOk, MapOk, CanPlace, Placed, Grown, Effect, Fresh, Increasing, Free, Waiting, Overhead,
        BlockCache.Logical, BlockCache.Valid, GeometryOk, MaxBlocks;
      ghost var d, roles := Blocks(), owner;
      Sized(d, geo, owner);
      StartAllocation(d, geo, owner);
      var blocks := GetFreeBlocks(r - u);
      FreshIncreasing(d, geo, blocks);
      GrownStart(d, Blocks(), geo, owner, blocks, n, h, u);
      EffectWaiting(d, Blocks(), geo, owner, blocks);
      EffectFree(d, Blocks(), geo, owner, blocks);
      h' := h;
      var i := u;
      while i < r
        invariant u <= i <= r && Ready()
        invariant Grown(d, Blocks(), geo, roles, owner, n, h, h', u, i)
        invariant Waiting(Blocks(), geo, owner, blocks, i - u)
        invariant TotalOverhead(geo, i, r) <= |Free(Blocks(), geo)|
      {
        h' := PlaceNext(h', i, blocks, i - u, n, d, roles, h, u);
        i := i + 1;
      }
    }

    /** One turn of the allocation loop of write_inode. */
    method PlaceNext(h1: seq<byte>, i: nat, blocks: seq<nat>, k: nat, ghost n: nat, ghost d: Disk, ghost roles: Owners,
            ghost h: seq<byte>, ghost u: nat) returns (h': seq<byte>)
      requires Ready() && Grown(d, Blocks(), geo, roles, owner, n, h, h1, u, i) && u <= i < MaxBlocks(geo)
      requires Waiting(Blocks(), geo, owner, blocks, k) && k < |blocks| && Increasing(blocks)
      requires Overhead(geo, i) <= |Free(Blocks(), geo)|
      modifies cache, `unallocated, `owner
      ensures Ready() && Grown(d, Blocks(), geo, roles, owner, n, h, h', u, i + 1)
      ensures Waiting(Blocks(), geo, owner, blocks, k + 1)
      ensures |Free(Blocks(), geo)| + Overhead(geo, i) == |Free(old(Blocks()), geo)|
    {
      hide LayoutOk, CountersOk, MapOk, CanPlace, Placed, Grown, Increasing, Free, Waiting, Overhead,
        BlockCache.Logical, BlockCache.Valid, GeometryOk, MaxBlocks;
      ghost var d1, roles1 := Blocks(), owner;
      GrownFacts(d, d1, geo, roles, roles1, n, h, h1, u, i);
      WaitingCanPlace(d1, geo, owner, n, h1, i, blocks, k);
      var ok;
      ok, h' := AllocateBlock(h1, i, blocks[k], n);
      GrownMore(d, d1, Blocks(), geo, roles, roles1, owner, n, h, h1, h', u, i, blocks[k]);
      WaitingKept(d1, Blocks(), geo, roles1, owner, n, h1, h', i, blocks, k);
    }

    /** One turn of the data loop of write_inode. */
    method WriteChunk(h: seq<byte>, i: nat, o: nat, chunk: seq<byte>, ghost n: nat, ghost r: nat, ghost pos: nat)
      requires Ready() && MapOk(Blocks(), geo, owner, n, h, r) && i == Div(pos, geo.blockSize) < r
      requires o == Mod(pos, geo.blockSize) && o + |chunk| <= geo.blockSize
      modifies cache
      ensures Ready() && MapOk(Blocks(), geo, owner, n, h, r) && OnlyData(old(Blocks()), Blocks(), owner, n)
      ensures |h| >= INODE_T && Overwritten(old(Blocks()), Blocks(), geo, h, r, pos, chunk)
    {
      hide LayoutOk, CountersOk, MapOk, Overwritten, OnlyData, Reaches, BlockOf, BlockCache.Logical, BlockCache.Valid,
        GeometryOk;
      ghost var d := Blocks();
      Sized(d, geo, owner);
      MapReaches(d, geo, owner, n, h, r, i);
      MapLength(d, geo, owner, n, h, r);
      var b := GetBlock(h, i);
      WriteBlock(b, chunk, o);
      ChunkWritten(d, Blocks(), geo, owner, n, h, r, pos, chunk, unallocated);
    }

    /** The data loop of write_inode. get_block finds every block: none of them is 0. */
    method WriteData(h: seq<byte>, data: seq<byte>, offset: nat, ghost n: nat, ghost r: nat) returns (done: nat)
      requires Ready() && MapOk(Blocks(), geo, owner, n, h, r) && |h| >= INODE_T
      requires BlocksRequired(offset + |data|, geo.blockSize) <= r
      modifies cache
      ensures Ready() && MapOk(Blocks(), geo, owner, n, h, r) && OnlyData(old(Blocks()), Blocks(), owner, n)
      ensures Overwritten(old(Blocks()), Blocks(), geo, h, r, offset, data) && done == |data|
    {
      hide LayoutOk, CountersOk, MapOk, Overwritten, OnlyData, BlockCache.Logical, BlockCache.Valid, GeometryOk,
        BlocksRequired, Div, Mod;
      ghost var d := Blocks();
      Sized(d, geo, owner);
      OverwrittenStart(d, geo, h, r, offset, owner, n);
      var i, o := Div(offset, geo.blockSize), Mod(offset, geo.blockSize);
      done := 0;
      assert data[..0] == [];
      while done < |data|
        invariant 0 <= done <= |data| && Ready() && MapOk(Blocks(), geo, owner, n, h, r)
        invariant OnlyData(d, Blocks(), owner, n) && Overwritten(d, Blocks(), geo, h, r, offset, data[..done])
        invariant done < |data| ==> Div(offset + done, geo.blockSize) == i && Mod(offset + done, geo.blockSize) == o
      {
        var left := |data| - done;
        var len := if left + o > geo.blockSize then geo.blockSize - o else left;
        ByteInBlock(geo, offset + |data|, offset + done);
        ghost var d1 := Blocks();
        WriteChunk(h, i, o, data[done..done + len], n, r, offset + done);
        OnlyDataTwice(d, d1, Blocks(), owner, n);
        OverwrittenTwice(d, d1, Blocks(), geo, h, r, offset, data[..done], data[done..done + len]);
        assert data[..done + len] == data[..done] + data[done..done + len];
        NextBlock(offset + done, geo.blockSize);
        i, o, done := i + 1, 0, done + len;
      }
      assert data[..done] == data;
    }

    /** ext2_write_inode. */
    method WriteInodeHeader(n: nat, h: seq<byte>)
      requires Ready() && InodeNumber(geo, n) && |h| == geo.inodeSize
      modifies cache, `lastRead
      ensures CacheOk() && LayoutOk(old(Blocks()), geo, owner) && InodeWritten(old(Blocks()), Blocks(), geo, n, h)
      ensures lastRead == if old(lastRead) == n then -1 else old(lastRead)
    {
      hide LayoutOk, CountersOk, InodeBlock, InodeOffset, BlockCache.Logical, BlockCache.Valid, GeometryOk;
      Sized(Blocks(), geo, owner);
      if lastRead == n { lastRead := -1; }
      var block, offset := BlockContainingInode(n);
      WriteBlock(block, h, offset);
    }

    /** write_inode once the new size is known: grow the file, write the data, write the inode. */
    method WriteSteps(n: nat, h: seq<byte>, u: nat, r: nat, fsize: nat, data: seq<byte>, offset: nat)
      returns (written: nat, ghost x: FileWrite)
      requires Ready() && InodeNumber(geo, n) && |h| == geo.inodeSize && h[..INODE_T] == Header(Blocks(), geo, n)
      requires MapOk(Blocks(), geo, owner, n, h, u) && u <= r <= MaxBlocks(geo) && fsize < U64_END
      requires 0 <= r * (geo.blockSize / SECTOR_SIZE) < U32_END && BlocksRequired(offset + |data|, geo.blockSize) <= r
      requires r - u + TotalOverhead(geo, u, r) <= |Free(Blocks(), geo)|
      modifies cache, `unallocated, `owner, `lastRead
      ensures written == |data| && CacheOk() && LayoutOk(x.filled, geo, owner) && CountersOk(x.filled, geo, unallocated)
      ensures x == FileWrite(old(Blocks()), x.grown, x.filled, Blocks(), old(owner), owner, n, h, x.h', u, r,
                             offset, data, r * (geo.blockSize / SECTOR_SIZE), fsize)
      ensures Steps(geo, x)
      ensures lastRead == if old(lastRead) == n then -1 else old(lastRead)
    {
      hide LayoutOk, CountersOk, MapOk, Grown, Overwritten, OnlyData, Header, Resized, InodeWritten, Free, MaxBlocks,
        BlocksRequired, BlockCache.Logical, BlockCache.Valid, GeometryOk;
      ghost var d := Blocks();
      Sized(d, geo, owner);
      var inode := h;
      if r > u {
        inode := GrowTo(h, u, r, n);
      } else {
        GrownNone(d, geo, owner, n, h, u);
      }
      ghost var d1 := Blocks();
      GrownFacts(d, d1, geo, old(owner), owner, n, h, inode, u, r);
      written := WriteData(inode, data, offset, n, r);
      ghost var d2 := Blocks();
      var sectors := r * (geo.blockSize / SECTOR_SIZE);
      WriteInodeHeader(n, Resized(inode, sectors, fsize));
      x := FileWrite(d, d1, d2, Blocks(), old(owner), owner, n, h, inode, u, r, offset, data, sectors, fsize);
    }

    /** write_inode: `data` lands at `offset`, or at the end when appending; every other byte the file had
        is kept, and no other file changes. The device is up to date afterwards. */
    method WriteInode(n: nat, data: seq<byte>, offset: nat, append: bool, superblock: seq<byte>) returns (written: nat)
      requires Ready() && FileOk(Blocks(), geo, owner, n) && LastOk(Blocks(), geo, lastRead, lastInode)
      requires RoomFor(Blocks(), geo, n, (if append then |Contents(Blocks(), geo, n)| else offset) + |data|)
      requires |superblock| <= geo.blockSize
      modifies cache, `unallocated, `owner, `lastRead, `lastInode
      ensures Ready() && FileOk(Blocks(), geo, owner, n) && LastOk(Blocks(), geo, lastRead, lastInode)
      ensures written == |data|
      ensures WrittenAt(old(Contents(Blocks(), geo, n)), Contents(Blocks(), geo, n),
              if append then old(|Contents(Blocks(), geo, n)|) else offset, data)
      ensures OthersSame(old(Blocks()), Blocks(), geo, old(owner), owner, n)
      ensures forall b :: b in cache.device && b != 0 ==> cache.device[b] == Blocks()[b]
    {
      hide LayoutOk, CountersOk, FileOk, RoomFor, LastOk, MapOk, Steps, OthersSame, WrittenAt, Contents, Header, Free,
        MaxBlocks, BlocksRequired, BlockCache.Valid, BlockCache.Logical, GeometryOk;
      ghost var d, roles := Blocks(), owner;
      Sized(d, geo, owner);
      FileNumber(d, geo, owner, n);
      ContentsSize(d, geo, n);
      var h := GetInodeHeader(n);
      PrefixFields(h, Header(d, geo, n));
      var at := if append then Size(h) else offset;
      WritePlan(d, geo, owner, n, h, at + |data|);
      var fsize := Max(Size(h), at + |data|);
      var u, r := BlocksUsed(geo, h), BlocksRequired(fsize, geo.blockSize);
      ghost var last := lastRead;
      ghost var x;
      written, x := WriteSteps(n, h, u, r, fsize, data, at);
      StepsAll(geo, x, unallocated);
      StepsFileOk(geo, x, unallocated);
      StepsContents(geo, x, unallocated);
      OthersLast(d, Blocks(), geo, roles, owner, n, last, lastInode);
      cache.Flush(superblock);
    }
  }
}
