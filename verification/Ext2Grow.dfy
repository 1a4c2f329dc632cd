/** What giving a file more blocks may and may not change on the disk. */
module Ext2Grow {
  import opened Bytes
  import opened Division
  import opened BlockCaches
  import opened Ext2Layout
  import opened Ext2Map
  import opened Ext2Alloc

  /** Blocks in this role keep their contents while file n grows. */
  predicate Untouched(r: Role, n: nat) {
    match r
    case Desc => false
    case Bitmap(_) => false
    case Table(_, _) => true
    case Data(_, _) => true
    case _ => !Of(r, n)
  }

  /** File n has grown: inode tables, all data and the indirect blocks of other files are as before, what
      was marked is marked, and every newly used block is the file's own. */
  ghost predicate Grew(d: Disk, d': Disk, g: Geometry, owner: Owners, owner': Owners, n: nat)
    requires g.blocksPerGroup > 0
  {
    && d'.Keys == d.Keys
    && (forall b :: b in owner && Untouched(owner[b], n) ==> b in d && d'[b] == d[b])
    && (forall k :: 0 <= k < g.groups ==> InodeTable(d', g, k) == InodeTable(d, g, k))
    && (forall b :: 0 <= b < TotalBlocks(g) && Marked(d, g, b) ==> Marked(d', g, b))
    && OwnerGrows(owner, owner')
    && (forall b :: b in owner' && b !in owner ==> Of(owner'[b], n))
  }

  lemma GrewTwice(d: Disk, d1: Disk, d2: Disk, g: Geometry, owner: Owners, owner1: Owners, owner2: Owners, n: nat)
    requires g.blocksPerGroup > 0 && Grew(d, d1, g, owner, owner1, n) && Grew(d1, d2, g, owner1, owner2, n)
    ensures Grew(d, d2, g, owner, owner2, n)
  {
    hide Marked, InodeTable;
  }

  /** The newly used blocks are the given one and blocks that were free. */
  ghost predicate Claimed(d: Disk, g: Geometry, owner: Owners, owner': Owners, block: nat)
    requires g.blocksPerGroup > 0
  {
    forall b :: b in owner' && b !in owner ==> b == block || !Marked(d, g, b)
  }

  /** An allocated block takes its role. */
  lemma Claim(d: Disk, d': Disk, g: Geometry, owner: Owners, s: nat, r: Role, n: nat)
    requires LayoutOk(d, g, owner) && Effect(d, d', g, owner, [s]) && Fresh(d, g, [s]) && Of(r, n)
    ensures s !in owner && s in d' && s < TotalBlocks(g)
    ensures LayoutOk(d', g, owner[s := r]) && Grew(d, d', g, owner, owner[s := r], n)
    ensures |Free(d', g)| + 1 == |Free(d, g)|
  {
    hide Marked, InodeTable, BitmapBlock, GeometryOk, Free;
    LayoutRange(d, g, owner);
    ClaimFree(d, d', g, s);
    FreshThere(d, g, owner, s);
    ClaimLayout(d', g, owner, s, r);
  }

  lemma FreshThere(d: Disk, g: Geometry, owner: Owners, s: nat)
    requires LayoutOk(d, g, owner) && Fresh(d, g, [s])
    ensures s !in owner && s in d
  {
    hide Marked, InodeTable, BitmapBlock;
    assert s in [s];
  }

  lemma ClaimFree(d: Disk, d': Disk, g: Geometry, s: nat)
    requires g.blocksPerGroup > 0 && MarksAdded(d, d', g, [s]) && Fresh(d, g, [s])
    ensures s < TotalBlocks(g) && !Marked(d, g, s) && Marked(d', g, s)
    ensures |Free(d', g)| + 1 == |Free(d, g)|
  {
    assert s in [s];
    assert Free(d', g) == Free(d, g) - {s};
  }

  lemma ClaimLayout(d: Disk, g: Geometry, owner: Owners, s: nat, r: Role)
    requires LayoutOk(d, g, owner) && s in d && s < TotalBlocks(g) && Marked(d, g, s) && s !in owner
    ensures LayoutOk(d, g, owner[s := r])
  {
    hide Marked, InodeTable, BitmapBlock, GeometryOk;
  }

  /** The block is neither a bitmap nor the descriptor table. */
  predicate Plain(owner: Owners, x: nat) {
    x in owner && !owner[x].Desc? && !owner[x].Bitmap?
  }

  /** A write into such a block changes neither marks nor counts. */
  lemma PlainWrite(d: Disk, d': Disk, g: Geometry, owner: Owners, x: nat, y: seq<byte>, unallocated: nat)
    requires LayoutOk(d, g, owner) && CountersOk(d, g, unallocated)
    requires Plain(owner, x) && |y| == g.blockSize && d' == d[x := y]
    ensures LayoutOk(d', g, owner) && CountersOk(d', g, unallocated) && Free(d', g) == Free(d, g)
    ensures forall k :: 0 <= k < g.groups ==> InodeTable(d', g, k) == InodeTable(d, g, k)
    ensures forall b :: 0 <= b < TotalBlocks(g) ==> Marked(d', g, b) == Marked(d, g, b)
  {
    PlainWriteMarks(d, d', g, owner, x, y);
    PlainWriteLayout(d, d', g, owner, x, y);
    assert Free(d', g) == Free(d, g);
    forall k | 0 <= k < g.groups ensures |FreeIn(d', g, k)| <= Count(d', g, k) {
      assert FreeIn(d', g, k) == FreeIn(d, g, k);
    }
  }

  lemma PlainWriteMarks(d: Disk, d': Disk, g: Geometry, owner: Owners, x: nat, y: seq<byte>)
    requires LayoutOk(d, g, owner) && Plain(owner, x) && d' == d[x := y]
    ensures x != DescBlock(g)
    ensures forall k :: 0 <= k < g.groups ==> InodeTable(d', g, k) == InodeTable(d, g, k)
    ensures forall k :: 0 <= k < g.groups ==> BitmapBlock(d', g, k) == BitmapBlock(d, g, k)
    ensures forall k, p :: 0 <= k < g.groups && 0 <= p ==> MarkedAt(d', g, k, p) == MarkedAt(d, g, k, p)
    ensures forall b :: 0 <= b < TotalBlocks(g) ==> Marked(d', g, b) == Marked(d, g, b)
  {
    hide Marked, TableLength, Div, Mod;
    forall k | 0 <= k < g.groups ensures BitmapBlock(d, g, k) != x {
      assert Owned(owner, BitmapBlock(d, g, k), Bitmap(k));
    }
    forall b | 0 <= b < TotalBlocks(g) ensures Marked(d', g, b) == Marked(d, g, b) {
      MarkedSame(d, d', g, b);
    }
  }

  lemma MarkedSame(d: Disk, d': Disk, g: Geometry, b: nat)
    requires g.blocksPerGroup > 0 && b < TotalBlocks(g)
    requires forall k, p :: 0 <= k < g.groups && 0 <= p ==> MarkedAt(d', g, k, p) == MarkedAt(d, g, k, p)
    ensures Marked(d', g, b) == Marked(d, g, b)
  {
    hide MarkedAt;
    DivBelow(b, g.blocksPerGroup, g.groups);
  }

  lemma PlainWriteLayout(d: Disk, d': Disk, g: Geometry, owner: Owners, x: nat, y: seq<byte>)
    requires LayoutOk(d, g, owner) && Plain(owner, x) && |y| == g.blockSize && d' == d[x := y]
    ensures LayoutOk(d', g, owner)
  {
    PlainWriteMarks(d, d', g, owner, x, y);
    forall k, t | 0 <= k < g.groups && 0 <= t < TableLength(g)
      ensures Owned(owner, InodeTable(d', g, k) + t, Table(k, t)) {
      assert Owned(owner, InodeTable(d, g, k) + t, Table(k, t));
    }
  }

  /** A pointer written into one of the file's own indirect blocks. */
  lemma PtrWriteGrew(d: Disk, d': Disk, g: Geometry, owner: Owners, x: nat, y: seq<byte>, n: nat)
    requires LayoutOk(d, g, owner) && x in owner && Of(owner[x], n) && !owner[x].Data? && d' == d[x := y]
    ensures Grew(d, d', g, owner, owner, n)
  {
    PlainWriteMarks(d, d', g, owner, x, y);
  }

  /** Of the inode only block pointers have changed. */
  predicate SameFields(h: seq<byte>, h': seq<byte>) {
    |h'| == |h| && forall k :: 0 <= k < |h| && (k < 40 || 96 <= k) ==> h'[k] == h[k]
  }

  /** The i-th block of file n is now b: the map below i is as it was, and the file system is in order. */
  ghost predicate Placed(d: Disk, d': Disk, g: Geometry, owner: Owners, owner': Owners, n: nat, h: seq<byte>,
          h': seq<byte>, i: nat, b: nat) {
    && GeometryOk(g) && |h| >= INODE_T && SameFields(h, h')
    && LayoutOk(d', g, owner') && Grew(d, d', g, owner, owner', n) && Claimed(d, g, owner, owner', b)
    && Owned(owner', b, Data(n, i))
    && MapOk(d', g, owner', n, h', i + 1) && BlockOf(d', g, h', i) == b && SameBelow(g, d, h, d', h', i)
  }

  /** The file has an extra indirect block, not yet holding pointers. */
  ghost predicate Attached(d: Disk, d': Disk, g: Geometry, owner: Owners, owner': Owners, n: nat, h: seq<byte>,
          h': seq<byte>, i: nat) {
    && GeometryOk(g) && |h| >= INODE_T && SameFields(h, h')
    && LayoutOk(d', g, owner') && Grew(d, d', g, owner, owner', n)
    && (forall b :: b in owner' && b !in owner ==> !Marked(d, g, b))
    && MapOk(d', g, owner', n, h', i) && SameBelow(g, d, h, d', h', i)
  }

  lemma AttachedThenPlaced(d: Disk, d1: Disk, d2: Disk, g: Geometry, owner: Owners, owner1: Owners, owner2: Owners,
          n: nat, h: seq<byte>, h1: seq<byte>, h2: seq<byte>, i: nat, b: nat)
    requires LayoutOk(d, g, owner) && LayoutOk(d2, g, owner2)
    requires Attached(d, d1, g, owner, owner1, n, h, h1, i) && Placed(d1, d2, g, owner1, owner2, n, h1, h2, i, b)
    ensures Placed(d, d2, g, owner, owner2, n, h, h2, i, b)
  {
    hide LayoutOk, MapOk, Marked, BlockOf;
    LayoutRange(d2, g, owner2);
    GrewTwice(d, d1, d2, g, owner, owner1, owner2, n);
    ClaimedTwice(d, d1, d2, g, owner, owner1, owner2, n, b);
  }

  lemma ClaimedTwice(d: Disk, d1: Disk, d2: Disk, g: Geometry, owner: Owners, owner1: Owners, owner2: Owners, n: nat,
          block: nat)
    requires g.blocksPerGroup > 0 && Grew(d, d1, g, owner, owner1, n) && Claimed(d1, g, owner1, owner2, block)
    requires forall b :: b in owner1 && b !in owner ==> !Marked(d, g, b)
    requires forall b :: b in owner2 ==> b < TotalBlocks(g)
    ensures Claimed(d, g, owner, owner2, block)
  {
    hide Marked, InodeTable;
  }

  lemma AttachedTwice(d: Disk, d1: Disk, d2: Disk, g: Geometry, owner: Owners, owner1: Owners, owner2: Owners, n: nat,
          h: seq<byte>, h1: seq<byte>, h2: seq<byte>, i: nat)
    requires LayoutOk(d2, g, owner2)
    requires Attached(d, d1, g, owner, owner1, n, h, h1, i) && Attached(d1, d2, g, owner1, owner2, n, h1, h2, i)
    ensures Attached(d, d2, g, owner, owner2, n, h, h2, i)
  {
    hide LayoutOk, MapOk, Marked, BlockOf;
    LayoutRange(d2, g, owner2);
    GrewTwice(d, d1, d2, g, owner, owner1, owner2, n);
  }

  lemma LayoutRange(d: Disk, g: Geometry, owner: Owners)
    requires LayoutOk(d, g, owner)
    ensures g.blocksPerGroup > 0 && forall b :: b in owner ==>
            b < TotalBlocks(g) && b < U32_END && b in d && Marked(d, g, b)
  {
  }

  /** Allocating elsewhere leaves the file's map alone. */
  lemma EffectKeepsMap(d: Disk, d': Disk, g: Geometry, owner: Owners, entries: seq<nat>, n: nat, h: seq<byte>, u: nat)
    requires LayoutOk(d, g, owner) && Effect(d, d', g, owner, entries) && MapOk(d, g, owner, n, h, u)
    ensures MapOk(d', g, owner, n, h, u) && SameBelow(g, d, h, d', h, u)
  {
    MapOkSame(d, d', g, owner, owner, n, h, u);
  }

  lemma SetPtrField(h: seq<byte>, at: nat, v: nat)
    requires 40 <= at && at + 4 <= 96 <= |h| && v < U32_END
    ensures SameFields(h, SetU32(h, at, v))
  {
  }

  /** index == 0 of the singly indirect range: a free block becomes the indirect block. */
  lemma SingleAttached(d: Disk, d': Disk, g: Geometry, owner: Owners, n: nat, h: seq<byte>, s: nat)
    requires LayoutOk(d, g, owner) && MapOk(d, g, owner, n, h, 12) && Effect(d, d', g, owner, [s]) && Fresh(d, g, [s])
    ensures s < U32_END && |Free(d', g)| + 1 == |Free(d, g)|
    ensures
      var h', owner' := SetU32(h, 88, s), owner[s := SingleOf(n)];
      Attached(d, d', g, owner, owner', n, h, h', 12) && Single(h') == s && Owned(owner', s, SingleOf(n))
  {
    hide LayoutOk, Effect, Fresh, Free, MapOk, Grew, BlockOf, Marked;
    Sized(d, g, owner);
    Claim(d, d', g, owner, s, SingleOf(n), n);
    LayoutRange(d', g, owner[s := SingleOf(n)]);
    EffectKeepsMap(d, d', g, owner, [s], n, h, 12);
    AttachSingle(d', g, owner, n, h, s);
    SetPtrField(h, 88, s);
    WasFree(d, g, s);
  }

  lemma WasFree(d: Disk, g: Geometry, s: nat)
    requires g.blocksPerGroup > 0 && Fresh(d, g, [s])
    ensures !Marked(d, g, s)
  {
    assert s in [s];
  }

  lemma DoubleAttached(d: Disk, d': Disk, g: Geometry, owner: Owners, n: nat, h: seq<byte>, s: nat)
    requires LayoutOk(d, g, owner) && MapOk(d, g, owner, n, h, 12 + Capacity(g))
    requires Effect(d, d', g, owner, [s]) && Fresh(d, g, [s])
    ensures s < U32_END && |Free(d', g)| + 1 == |Free(d, g)|
    ensures
      var h', owner' := SetU32(h, 92, s), owner[s := DoubleOf(n)];
      Attached(d, d', g, owner, owner', n, h, h', 12 + Capacity(g)) && Double(h') == s && Owned(owner', s, DoubleOf(n))
  {
    hide LayoutOk, Effect, Fresh, Free, MapOk, Grew, BlockOf, Marked;
    Sized(d, g, owner);
    Claim(d, d', g, owner, s, DoubleOf(n), n);
    LayoutRange(d', g, owner[s := DoubleOf(n)]);
    EffectKeepsMap(d, d', g, owner, [s], n, h, 12 + Capacity(g));
    AttachDouble(d', g, owner, n, h, s);
    SetPtrField(h, 92, s);
    WasFree(d, g, s);
  }

  /** A free block becomes inner block j: its pointer goes into the doubly indirect block. */
  lemma InnerAttached(d: Disk, d1: Disk, d': Disk, g: Geometry, owner: Owners, n: nat, h: seq<byte>, j: nat, v: nat,
          unallocated: nat)
    requires LayoutOk(d, g, owner) && j < Capacity(g) && Effect(d, d1, g, owner, [v]) && Fresh(d, g, [v])
    requires j * Capacity(g) >= 0 && MapOk(d, g, owner, n, h, 12 + Capacity(g) + j * Capacity(g))
    requires Owned(owner, Double(h), DoubleOf(n)) && CountersOk(d1, g, unallocated)
    requires Double(h) in d1 && 4 * j + 4 <= |d1[Double(h)]| && v < U32_END && d' == SetPtr(d1, Double(h), 4 * j, v)
    ensures |Free(d', g)| + 1 == |Free(d, g)| && CountersOk(d', g, unallocated)
    ensures
      var owner' := owner[v := InnerOf(n, j)];
      && Attached(d, d', g, owner, owner', n, h, h, 12 + Capacity(g) + j * Capacity(g))
      && Ptr(d', Double(h), 4 * j) == v && Owned(owner', v, InnerOf(n, j)) && Owned(owner', Double(h), DoubleOf(n))
  {
    hide LayoutOk, Effect, Fresh, Free, MapOk, Grew, BlockOf, Marked, CountersOk;
    var u, owner' := 12 + Capacity(g) + j * Capacity(g), owner[v := InnerOf(n, j)];
    Claim(d, d1, g, owner, v, InnerOf(n, j), n);
    EffectKeepsMap(d, d1, g, owner, [v], n, h, u);
    Sized(d1, g, owner');
    AttachInner(d1, g, owner, n, h, j, v);
    PlainWrite(d1, d', g, owner', Double(h), d'[Double(h)], unallocated);
    PtrWriteGrew(d1, d', g, owner', Double(h), d'[Double(h)], n);
    GrewTwice(d, d1, d', g, owner, owner', owner', n);
    WasFree(d, g, v);
  }

  lemma Sized(d: Disk, g: Geometry, owner: Owners)
    requires LayoutOk(d, g, owner)
    ensures GeometryOk(g) && BlocksSized(d, g)
  {
  }

  /** The blocks of the file's inode and the block map, given what ext2_allocate_block was handed. */
  ghost predicate CanPlace(d: Disk, g: Geometry, owner: Owners, n: nat, h: seq<byte>, i: nat, b: nat) {
    && LayoutOk(d, g, owner) && MapOk(d, g, owner, n, h, i) && i < MaxBlocks(g)
    && b !in owner && b in d && b < TotalBlocks(g) && Marked(d, g, b)
  }

  /** Once b has its role everything still holds. */
  lemma PlacedLayout(d: Disk, d': Disk, g: Geometry, owner: Owners, n: nat, i: nat, b: nat)
    requires LayoutOk(d', g, owner) && Grew(d, d', g, owner, owner, n)
    requires b !in owner && b in d && b < TotalBlocks(g) && Marked(d, g, b)
    ensures LayoutOk(d', g, owner[b := Data(n, i)]) && Grew(d, d', g, owner, owner[b := Data(n, i)], n)
    ensures Claimed(d, g, owner, owner[b := Data(n, i)], b)
  {
    hide Marked, InodeTable, LayoutOk;
    ClaimLayout(d', g, owner, b, Data(n, i));
  }

  lemma GrewSame(d: Disk, g: Geometry, owner: Owners, n: nat)
    requires LayoutOk(d, g, owner)
    ensures Grew(d, d, g, owner, owner, n)
  {
  }

  lemma DirectPlaced(d: Disk, g: Geometry, owner: Owners, n: nat, h: seq<byte>, i: nat, b: nat)
    requires CanPlace(d, g, owner, n, h, i, b) && i < 12
    ensures b < U32_END && Placed(d, d, g, owner, owner[b := Data(n, i)], n, h, SetU32(h, 40 + 4 * i, b), i, b)
  {
    hide LayoutOk, MapOk, Grew, BlockOf, Marked, Claimed;
    Sized(d, g, owner);
    GrewSame(d, g, owner, n);
    PlacedLayout(d, d, g, owner, n, i, b);
    LayoutRange(d, g, owner[b := Data(n, i)]);
    GrowDirect(d, g, owner, n, h, i, b);
    SetPtrField(h, 40 + 4 * i, b);
  }

  lemma SinglePlaced(d: Disk, d': Disk, g: Geometry, owner: Owners, n: nat, h: seq<byte>, i: nat, b: nat,
          unallocated: nat)
    requires CanPlace(d, g, owner, n, h, i, b) && 12 <= i < 12 + Capacity(g) && Owned(owner, Single(h), SingleOf(n))
    requires CountersOk(d, g, unallocated) && b < U32_END
    requires Single(h) in d && 4 * (i - 12) + 4 <= |d[Single(h)]| && d' == SetPtr(d, Single(h), 4 * (i - 12), b)
    ensures Placed(d, d', g, owner, owner[b := Data(n, i)], n, h, h, i, b)
    ensures CountersOk(d', g, unallocated) && Free(d', g) == Free(d, g)
  {
    hide LayoutOk, MapOk, Grew, BlockOf, Marked, Claimed, CountersOk, Free;
    Sized(d, g, owner);
    GrowSingle(d, g, owner, n, h, i, b);
    PlainWrite(d, d', g, owner, Single(h), d'[Single(h)], unallocated);
    PtrWriteGrew(d, d', g, owner, Single(h), d'[Single(h)], n);
    PlacedLayout(d, d', g, owner, n, i, b);
  }

  lemma DoublePlaced(d: Disk, d': Disk, g: Geometry, owner: Owners, n: nat, h: seq<byte>, i: nat, b: nat, v: nat,
          unallocated: nat)
    requires CanPlace(d, g, owner, n, h, i, b) && 12 + Capacity(g) <= i && Capacity(g) > 0
             && Owned(owner, Double(h), DoubleOf(n))
    requires CountersOk(d, g, unallocated) && b < U32_END
    requires var j := Div(i - 12 - Capacity(g), Capacity(g));
             v == Ptr(d, Double(h), 4 * j) && Owned(owner, v, InnerOf(n, j))
    requires var at := 4 * Mod(i - 12 - Capacity(g), Capacity(g));
             v in d && at + 4 <= |d[v]| && d' == SetPtr(d, v, at, b)
    ensures Placed(d, d', g, owner, owner[b := Data(n, i)], n, h, h, i, b)
    ensures CountersOk(d', g, unallocated) && Free(d', g) == Free(d, g)
  {
    hide LayoutOk, MapOk, Grew, BlockOf, Marked, Claimed, CountersOk, Free;
    Sized(d, g, owner);
    GrowDouble(d, g, owner, n, h, i, b, v);
    PlainWrite(d, d', g, owner, v, d'[v], unallocated);
    PtrWriteGrew(d, d', g, owner, v, d'[v], n);
    PlacedLayout(d, d', g, owner, n, i, b);
  }

  /** A new indirect block never is the block that waits to be placed. */
  lemma StillCanPlace(d: Disk, d': Disk, g: Geometry, owner: Owners, owner': Owners, n: nat, h: seq<byte>,
          h': seq<byte>, i: nat, b: nat)
    requires CanPlace(d, g, owner, n, h, i, b) && Attached(d, d', g, owner, owner', n, h, h', i)
    ensures CanPlace(d', g, owner', n, h', i, b)
  {
    hide LayoutOk, MapOk, BlockOf, Marked, SameBelow, GeometryOk;
  }

  /** Indirect blocks ext2_allocate_block has to allocate before it can place block i. */
  function Overhead(g: Geometry, i: nat): nat
    requires GeometryOk(g)
  {
    CapacityFacts(g);
    var c := Capacity(g);
    (if i == 12 || i == 12 + c then 1 else 0) + (if i >= 12 + c && Mod(i - 12 - c, c) == 0 then 1 else 0)
  }

  /** The inner block of doubly indirect index i, and whether i is the first under it. */
  function InnerIndex(g: Geometry, i: nat): nat
    requires Capacity(g) > 0 && 12 + Capacity(g) <= i
  {
    Div(i - 12 - Capacity(g), Capacity(g))
  }

  function InnerOverhead(g: Geometry, i: nat): nat
    requires Capacity(g) > 0 && 12 + Capacity(g) <= i
  {
    if Mod(i - 12 - Capacity(g), Capacity(g)) == 0 then 1 else 0
  }

  lemma OverheadSplits(g: Geometry, i: nat)
    requires GeometryOk(g) && Capacity(g) > 0 && 12 + Capacity(g) <= i
    ensures Overhead(g, i) == (if i == 12 + Capacity(g) then 1 else 0) + InnerOverhead(g, i)
  {
    CapacityFacts(g);
  }

  /** The first index of an inner block. */
  lemma InnerStart(g: Geometry, i: nat)
    requires GeometryOk(g) && 12 + Capacity(g) <= i < MaxBlocks(g) && Capacity(g) > 0
             && Mod(i - 12 - Capacity(g), Capacity(g)) == 0
    ensures var j := Div(i - 12 - Capacity(g), Capacity(g));
            j < Capacity(g) && j * Capacity(g) >= 0 && i == 12 + Capacity(g) + j * Capacity(g)
  {
    var c := Capacity(g);
    DivMod(i - 12 - c, c);
    DivBelow(i - 12 - c, c, c);
  }

  lemma AttachedOwned(d: Disk, d': Disk, g: Geometry, owner: Owners, owner': Owners, n: nat, h: seq<byte>,
          h': seq<byte>, i: nat)
    requires Attached(d, d', g, owner, owner', n, h, h', i)
    ensures LayoutOk(d', g, owner') && MapOk(d', g, owner', n, h', i) && |h'| == |h| && OwnerGrows(owner, owner')
  {
  }

  lemma PlacedOwned(d: Disk, d': Disk, g: Geometry, owner: Owners, owner': Owners, n: nat, h: seq<byte>, h': seq<byte>,
          i: nat, b: nat)
    requires Placed(d, d', g, owner, owner', n, h, h', i, b)
    ensures LayoutOk(d', g, owner') && MapOk(d', g, owner', n, h', i + 1) && |h'| == |h|
  {
  }

  lemma CanPlaceFacts(d: Disk, g: Geometry, owner: Owners, n: nat, h: seq<byte>, i: nat, b: nat)
    requires CanPlace(d, g, owner, n, h, i, b)
    ensures GeometryOk(g) && BlocksSized(d, g) && LayoutOk(d, g, owner) && MapOk(d, g, owner, n, h, i)
    ensures |h| >= INODE_T && i < MaxBlocks(g) && b < U32_END
  {
  }

  lemma AttachedSame(d: Disk, g: Geometry, owner: Owners, n: nat, h: seq<byte>, i: nat, b: nat)
    requires CanPlace(d, g, owner, n, h, i, b)
    ensures Attached(d, d, g, owner, owner, n, h, h, i)
  {
    hide LayoutOk, MapOk, Grew, BlockOf, Marked;
    CanPlaceFacts(d, g, owner, n, h, i, b);
    GrewSame(d, g, owner, n);
  }

  lemma InnerOfIndexBelow(g: Geometry, i: nat)
    requires GeometryOk(g) && 12 + Capacity(g) <= i < MaxBlocks(g) && Capacity(g) > 0
    ensures Div(i - 12 - Capacity(g), Capacity(g)) < Capacity(g)
            && 4 * Div(i - 12 - Capacity(g), Capacity(g)) + 4 <= g.blockSize
  {
    CapacityFacts(g);
    DivBelow(i - 12 - Capacity(g), Capacity(g), Capacity(g));
  }

  lemma ModSmall(x: nat, m: nat)
    requires x < m
    ensures Mod(x, m) == x
  {
  }

  lemma FreshSmall(d: Disk, g: Geometry, owner: Owners, s: nat)
    requires LayoutOk(d, g, owner) && Fresh(d, g, [s])
    ensures s < U32_END && s < TotalBlocks(g)
  {
    assert s in [s];
  }

  /** Past the start of its range the inner block is there already. */
  lemma InnerThere(d: Disk, g: Geometry, owner: Owners, n: nat, h: seq<byte>, i: nat)
    requires GeometryOk(g) && MapOk(d, g, owner, n, h, i) && 12 + Capacity(g) <= i && Capacity(g) > 0
    requires Mod(i - 12 - Capacity(g), Capacity(g)) != 0
    ensures var j := Div(i - 12 - Capacity(g), Capacity(g)); Owned(owner, Ptr(d, Double(h), 4 * j), InnerOf(n, j))
  {
    DivMod(i - 12 - Capacity(g), Capacity(g));
    var j := Div(i - 12 - Capacity(g), Capacity(g));
    MulLe(0, j, Capacity(g));
    assert 12 + Capacity(g) + j * Capacity(g) < i;
  }
}
