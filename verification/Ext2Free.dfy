/** Giving a block back: write_to_block_bitmap with value 0, and who notices. */
module Ext2Free {
  import opened Bits
  import opened Bytes
  import opened Division
  import opened BlockCaches
  import opened Ext2Layout
  import opened Ext2Map
  import opened Ext2Alloc
  import opened Ext2Grow
  import opened Ext2File

  /** Exactly block b has lost its mark. */
  ghost predicate MarkCleared(d: Disk, d': Disk, g: Geometry, b: nat)
    requires g.blocksPerGroup > 0
  {
    forall x :: 0 <= x < TotalBlocks(g) ==> Marked(d', g, x) == (Marked(d, g, x) && x != b)
  }

  /** Block b is no metadata: a file's, or nobody's. */
  predicate Releasable(d: Disk, g: Geometry, owner: Owners, b: nat) {
    b < TotalBlocks(g) && b in d && (b in owner ==> !owner[b].Desc? && !owner[b].Bitmap? && !owner[b].Table?)
  }

  /** Block b given back: it is free, nobody's, and nothing else has moved. */
  ghost predicate Released(d: Disk, d': Disk, g: Geometry, owner: Owners, b: nat) {
    LayoutOk(d', g, owner - {b}) && OnlyBitmaps(d, d', g, owner) && MarkCleared(d, d', g, b)
  }

  /** The bitmap of group k with bit p cleared. */
  ghost function Without(bm: seq<byte>, p: nat): seq<byte>
    requires p / 8 < |bm|
  {
    BitAtClear(bm, p / 8, p % 8, 0);
    bm[p / 8 := ClearBit(bm[p / 8], p % 8)]
  }

  lemma WithoutMarks(d: Disk, d1: Disk, g: Geometry, owner: Owners, k: nat, p: nat, x: nat)
    requires LayoutOk(d, g, owner) && k < g.groups && p < g.blocksPerGroup && x < TotalBlocks(g)
    requires BitmapBlock(d, g, k) in d && p / 8 < |GroupBits(d, g, k)|
    requires d1 == WithBitmap(d, g, k, Without(GroupBits(d, g, k), p))
    ensures Marked(d1, g, x) == (Marked(d, g, x) && x != Base(g, k) + p)
  {
    hide MarkedAt, BitmapBlock, InodeTable, TableLength;
    var bm := GroupBits(d, g, k);
    var j, q := Div(x, g.blocksPerGroup), Mod(x, g.blocksPerGroup);
    DivBelow(x, g.blocksPerGroup, g.groups);
    DivMod(x, g.blocksPerGroup);
    WithBitmapKeeps(d, g, owner, k, Without(bm, p));
    InGroup(g, k, Base(g, k) + p);
    if j == k {
      BitAtClear(bm, p / 8, p % 8, q);
      GroupBitsMark(d, g, k, q);
    }
  }

  lemma BitmapRelease(d: Disk, d1: Disk, g: Geometry, owner: Owners, k: nat, p: nat)
    requires LayoutOk(d, g, owner) && k < g.groups && p < g.blocksPerGroup && Releasable(d, g, owner, Base(g, k) + p)
    requires BitmapBlock(d, g, k) in d && p / 8 < |GroupBits(d, g, k)|
    requires d1 == WithBitmap(d, g, k, Without(GroupBits(d, g, k), p))
    ensures Released(d, d1, g, owner, Base(g, k) + p)
    ensures forall j :: 0 <= j < g.groups ==> Count(d1, g, j) == Count(d, g, j)
  {
    hide LayoutOk, MarkedAt, OnlyBitmaps;
    Sized(d, g, owner);
    WithBitmapKeeps(d, g, owner, k, Without(GroupBits(d, g, k), p));
    forall x | 0 <= x < TotalBlocks(g) ensures Marked(d1, g, x) == (Marked(d, g, x) && x != Base(g, k) + p) {
      WithoutMarks(d, d1, g, owner, k, p, x);
    }
    ReleasedLayout(d, d1, g, owner, Base(g, k) + p);
  }

  lemma ReleasedLayout(d: Disk, d': Disk, g: Geometry, owner: Owners, b: nat)
    requires LayoutOk(d, g, owner) && Releasable(d, g, owner, b) && OnlyBitmaps(d, d', g, owner)
             && MarkCleared(d, d', g, b)
    ensures LayoutOk(d', g, owner - {b})
  {
    hide Marked, BitmapBlock, InodeTable;
    forall k, t | 0 <= k < g.groups && 0 <= t < TableLength(g)
      ensures Owned(owner - {b}, InodeTable(d', g, k) + t, Table(k, t))
    {
      assert Owned(owner, InodeTable(d, g, k) + t, Table(k, t));
    }
    forall k | 0 <= k < g.groups ensures Owned(owner - {b}, BitmapBlock(d', g, k), Bitmap(k)) {
      assert Owned(owner, BitmapBlock(d, g, k), Bitmap(k));
    }
  }

  /** Rewriting a count afterwards keeps the block released. */
  lemma ReleasedCount(d: Disk, d1: Disk, d': Disk, g: Geometry, owner: Owners, k: nat, v: nat, b: nat)
    requires Released(d, d1, g, owner, b) && k < g.groups && v < U16_END && d' == WithCount(d1, g, k, v)
    ensures Released(d, d', g, owner, b)
    ensures forall j :: 0 <= j < g.groups ==> Count(d', g, j) == if j == k then v else Count(d1, g, j)
  {
    hide Marked, BitmapBlock, InodeTable, TableLength;
    CountEffect(d1, g, owner - {b}, k, v);
    WithCountKeeps(d1, g, owner - {b}, k, v);
  }

  /** One more block may be free, in one group, and the counters say so. */
  lemma ReleasedCounters(d: Disk, d': Disk, g: Geometry, owner: Owners, k: nat, p: nat, unallocated: nat)
    requires Released(d, d', g, owner, Base(g, k) + p) && k < g.groups && p < g.blocksPerGroup
             && CountersOk(d, g, unallocated)
    requires forall j :: 0 <= j < g.groups ==> Count(d', g, j) == if j == k then Count(d, g, k) + 1 else Count(d, g, j)
    ensures CountersOk(d', g, unallocated + 1)
  {
    hide LayoutOk, OnlyBitmaps, MarkedAt, Count;
    Sized(d', g, owner - {Base(g, k) + p});
    var b := Base(g, k) + p;
    assert Free(d', g) <= Free(d, g) + {b};
    SubsetSize(Free(d', g), Free(d, g) + {b});
    forall j | 0 <= j < g.groups ensures |FreeIn(d', g, j)| <= Count(d', g, j) {
      ReleasedGroup(d, d', g, owner, k, p, j);
      SubsetSize(FreeIn(d', g, j), FreeIn(d, g, j) + if j == k then {p} else {});
    }
  }

  lemma ReleasedGroup(d: Disk, d': Disk, g: Geometry, owner: Owners, k: nat, p: nat, j: nat)
    requires Released(d, d', g, owner, Base(g, k) + p) && k < g.groups && p < g.blocksPerGroup && j < g.groups
    ensures FreeIn(d', g, j) <= FreeIn(d, g, j) + if j == k then {p} else {}
  {
    hide LayoutOk, OnlyBitmaps, Base;
    Sized(d', g, owner - {Base(g, k) + p});
    forall q: nat | q in FreeIn(d', g, j) ensures q in FreeIn(d, g, j) || (j == k && q == p) {
      MarkedIn(d, g, j, q);
      MarkedIn(d', g, j, q);
      InGroup(g, j, Base(g, j) + q);
      InGroup(g, k, Base(g, k) + p);
    }
  }

  lemma GroupOf(g: Geometry, b: nat)
    requires g.blocksPerGroup > 0 && b < TotalBlocks(g)
    ensures Div(b, g.blocksPerGroup) < g.groups && b == Base(g, Div(b, g.blocksPerGroup)) + Mod(b, g.blocksPerGroup)
  {
    DivBelow(b, g.blocksPerGroup, g.groups);
    DivMod(b, g.blocksPerGroup);
  }

  lemma BitmapLength(d: Disk, g: Geometry, owner: Owners, k: nat, p: nat)
    requires LayoutOk(d, g, owner) && k < g.groups && BitmapBlock(d, g, k) in d
             && g.blocksPerGroup / 8 <= |d[BitmapBlock(d, g, k)]|
    requires p / 8 < |GroupBits(d, g, k)|
    ensures |Without(GroupBits(d, g, k), p)| == g.blocksPerGroup / 8
  {
    hide LayoutOk, BitmapBlock;
  }

  lemma ReleasableRange(d: Disk, g: Geometry, owner: Owners, b: nat)
    requires Releasable(d, g, owner, b)
    ensures b < TotalBlocks(g)
  {
  }

  lemma GeometryDivides(g: Geometry)
    requires GeometryOk(g)
    ensures g.blocksPerGroup > 0 && g.blocksPerGroup % 8 == 0
  {
  }

  /** The two writes of write_to_block_bitmap: v is the new count. */
  lemma ReleasedBack(d: Disk, d1: Disk, d': Disk, g: Geometry, owner: Owners, k: nat, p: nat, desc: seq<byte>, v: nat)
    requires LayoutOk(d, g, owner) && k < g.groups && p < g.blocksPerGroup && v < U16_END
    requires Releasable(d, g, owner, Base(g, k) + p)
    requires desc == d[DescBlock(g)][BGDT_T * k..BGDT_T * k + BGDT_T]
    requires p / 8 < |GroupBits(d, g, k)|
    requires var b := BitmapBlock(d, g, k); d1 == d[b := Splice(d[b], 0, Without(GroupBits(d, g, k), p))]
    requires var b := DescBlock(g);
             d' == d1[b := Splice(d1[b], BGDT_T * k, Splice(desc, 12, FromU16(v)))]
    ensures Released(d, d', g, owner, Base(g, k) + p) && LayoutOk(d', g, owner - {Base(g, k) + p})
    ensures forall j :: 0 <= j < g.groups ==> Count(d', g, j) == if j == k then v else Count(d, g, j)
  {
    hide LayoutOk, Base, GroupBits, Without, Released, Releasable, Count, BitmapBlock, Splice, WithCount, GeometryOk,
      FromU16;
    DescriptorFields(d, g, owner, k, desc);
    assert d1[DescBlock(g)] == d[DescBlock(g)];
    CountWritten(d1, d', g, k, desc, v);
    BitmapRelease(d, d1, g, owner, k, p);
    ReleasedCount(d, d1, d', g, owner, k, v, Base(g, k) + p);
    ReleasedKeeps(d, d', g, owner, Base(g, k) + p);
  }

  /** The counters stay upper bounds if and only if the new count did not wrap. */
  lemma ReleasedCountersExact(d: Disk, d': Disk, g: Geometry, owner: Owners, k: nat, p: nat, v: nat, unallocated: nat)
    requires Released(d, d', g, owner, Base(g, k) + p) && k < g.groups && p < g.blocksPerGroup
    requires Base(g, k) + p < TotalBlocks(g) && CountersOk(d, g, unallocated) && v == (Count(d, g, k) + 1) % U16_END
    requires forall j :: 0 <= j < g.groups ==> Count(d', g, j) == if j == k then v else Count(d, g, j)
    ensures CountersOk(d', g, unallocated + 1) <==> Count(d, g, k) + 1 < U16_END
  {
    hide Released, CountersOk, Base, Count;
    CountRange(d, g, k);
    if v != 0 {
      ReleasedCounters(d, d', g, owner, k, p, unallocated);
    } else {
      ReleasedWraps(d, d', g, owner, k, p, unallocated + 1);
    }
  }

  /** A count of 0 is no bound on a group that has just been given a block. */
  lemma ReleasedWraps(d: Disk, d': Disk, g: Geometry, owner: Owners, k: nat, p: nat, unallocated: nat)
    requires Released(d, d', g, owner, Base(g, k) + p) && k < g.groups && p < g.blocksPerGroup && Count(d', g, k) == 0
    requires Base(g, k) + p < TotalBlocks(g)
    ensures g.blocksPerGroup > 0 && !CountersOk(d', g, unallocated)
  {
    hide LayoutOk, OnlyBitmaps, Base, Count;
    Sized(d', g, owner - {Base(g, k) + p});
    MarkedIn(d', g, k, p);
    InGroup(g, k, Base(g, k) + p);
    assert p in FreeIn(d', g, k);
  }

  lemma ReleasedKeeps(d: Disk, d': Disk, g: Geometry, owner: Owners, b: nat)
    requires Released(d, d', g, owner, b)
    ensures LayoutOk(d', g, owner - {b})
  {
  }

  /** A file that does not use block b does not notice. */
  lemma ReleasedOthers(d: Disk, d': Disk, g: Geometry, owner: Owners, b: nat, m: nat)
    requires LayoutOk(d, g, owner) && Released(d, d', g, owner, b) && FileOk(d, g, owner, m)
             && (b in owner ==> !Of(owner[b], m))
    ensures FileOk(d', g, owner - {b}, m) && Contents(d', g, m) == Contents(d, g, m)
  {
    hide LayoutOk, FileOk, Contents, MarkCleared, InodeTable, BitmapBlock;
    FileNumber(d, g, owner, m);
    LayoutRange(d, g, owner);
    InodeBlockOwned(d, g, owner, m);
    var own := map x | x in owner && Of(owner[x], m) :: owner[x];
    FileOwn(d, g, owner, own, m);
    FileSame(d, d', g, own, owner - {b}, m);
  }

  /** A file is well-formed on the strength of its own blocks alone. */
  lemma FileOwn(d: Disk, g: Geometry, owner: Owners, own: Owners, m: nat)
    requires FileOk(d, g, owner, m) && own == map x | x in owner && Of(owner[x], m) :: owner[x]
    ensures FileOk(d, g, own, m)
  {
    hide BlockOf, Header, BlocksRequired, BlocksUsed;
  }

  /** Blocks handed out are no file's and no metadata: an allocation is never of a block in use. */
  lemma NeverTwice(d: Disk, g: Geometry, owner: Owners, entries: seq<nat>, m: nat, i: nat)
    requires LayoutOk(d, g, owner) && Fresh(d, g, entries) && FileOk(d, g, owner, m)
             && i < BlocksUsed(g, Header(d, g, m))
    ensures forall a, b :: 0 <= a < b < |entries| ==> entries[a] != entries[b]
    ensures forall x :: x in entries ==> x !in owner
    ensures BlockOf(d, g, Header(d, g, m), i) !in entries
  {
    hide LayoutOk, MapOk, Header, BlockOf, BlocksUsed, BlocksRequired;
    LayoutRange(d, g, owner);
    MapOkFields(d, g, owner, m, Header(d, g, m), BlocksUsed(g, Header(d, g, m)), i);
  }

  /** No two files share a block, and no file uses a block twice. */
  lemma FilesApart(d: Disk, g: Geometry, owner: Owners, m: nat, i: nat, n: nat, j: nat)
    requires FileOk(d, g, owner, m) && i < BlocksUsed(g, Header(d, g, m))
    requires FileOk(d, g, owner, n) && j < BlocksUsed(g, Header(d, g, n))
    ensures BlockOf(d, g, Header(d, g, m), i) == BlockOf(d, g, Header(d, g, n), j) ==> m == n && i == j
  {
    hide MapOk, Header, BlockOf, BlocksUsed, BlocksRequired;
    MapOkFields(d, g, owner, m, Header(d, g, m), BlocksUsed(g, Header(d, g, m)), i);
    MapOkFields(d, g, owner, n, Header(d, g, n), BlocksUsed(g, Header(d, g, n)), j);
  }

  /** What a call does to the bitmaps: get_free_blocks takes, write_to_block_bitmap with value 0 gives back,
      every other write leaves the marks alone. */
  datatype Event = Took(blocks: seq<nat>) | Gave(block: nat) | Kept

  ghost predicate Happens(d: Disk, d': Disk, g: Geometry, e: Event)
    requires g.blocksPerGroup > 0
  {
    match e
    case Took(blocks) => Fresh(d, g, blocks) && MarksAdded(d, d', g, blocks)
    case Gave(b) => MarkCleared(d, d', g, b)
    case Kept => MarksAdded(d, d', g, [])
  }

  /** The disks of a run, one before and after every event. */
  ghost predicate History(disks: seq<Disk>, events: seq<Event>, g: Geometry)
    requires g.blocksPerGroup > 0
  {
    |disks| == |events| + 1 && forall k :: 0 <= k < |events| ==> Happens(disks[k], disks[k + 1], g, events[k])
  }

  /** Block x was handed out by event i and has not been given back before event n. */
  predicate Live(events: seq<Event>, n: nat, i: nat, x: nat)
    requires n <= |events|
  {
    i < n && events[i].Took? && x in events[i].blocks && forall k :: i < k < n ==> events[k] != Gave(x)
  }

  /** get_free_blocks and write_to_block_bitmap are such events. */
  lemma CallsHappen(d: Disk, d': Disk, g: Geometry, owner: Owners, entries: seq<nat>, b: nat)
    requires g.blocksPerGroup > 0
    ensures Effect(d, d', g, owner, entries) && Fresh(d, g, entries) ==> Happens(d, d', g, Took(entries))
    ensures Released(d, d', g, owner, b) ==> Happens(d, d', g, Gave(b))
  {
    hide LayoutOk, OnlyBitmaps, MarksAdded, MarkCleared, Fresh;
  }

  /** A live block is marked. */
  lemma {:induction false} LiveMarked(disks: seq<Disk>, events: seq<Event>, g: Geometry, n: nat, i: nat, x: nat)
    requires g.blocksPerGroup > 0 && History(disks, events, g) && n <= |events| && Live(events, n, i, x)
    ensures x < TotalBlocks(g) && Marked(disks[n], g, x)
    decreases n
  {
    hide Marked;
    assert Happens(disks[n - 1], disks[n], g, events[n - 1]);
    if i < n - 1 { LiveMarked(disks, events, g, n - 1, i, x); }
  }

  /** Over every run live allocations are pairwise disjoint: a block in two of them is in one. */
  lemma LiveApart(disks: seq<Disk>, events: seq<Event>, g: Geometry, n: nat, i: nat, j: nat, x: nat)
    requires g.blocksPerGroup > 0 && History(disks, events, g) && n <= |events|
    requires Live(events, n, i, x) && Live(events, n, j, x) && i <= j
    ensures i == j
  {
    hide Marked;
    assert Happens(disks[j], disks[j + 1], g, events[j]);
    if i < j { LiveMarked(disks, events, g, j, i, x); }
  }
}
