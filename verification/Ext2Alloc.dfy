/** Block bitmaps: scanning one for free blocks, and what marking blocks does to the disk. */
module Ext2Alloc {
  import opened Bits
  import opened Bytes
  import opened Division
  import opened BlockCaches
  import opened Ext2Layout

  /** The number of the first block of group k. */
  function Base(g: Geometry, k: nat): nat {
    MulLe(0, k, g.blocksPerGroup);
    k * g.blocksPerGroup
  }

  /** Strictly increasing, hence pairwise distinct. */
  ghost predicate Increasing(s: seq<nat>) {
    forall a, b :: 0 <= a < b < |s| ==> s[a] < s[b]
  }

  lemma BitAtSet(bm: seq<byte>, index: nat, offset: nat, q: nat)
    requires index < |bm| && offset < 8
    ensures SetBit(bm[index], offset) < 256
    ensures BitAt(bm[index := SetBit(bm[index], offset)], q) == (BitAt(bm, q) || q == 8 * index + offset)
  {
    hide Bit, SetBit;
    assert Ones(8) == 255;
    BitFits(bm[index], offset, 8);
    SetBitIn(bm, index, offset, q / 8, q % 8);
  }

  lemma BitAtClear(bm: seq<byte>, index: nat, offset: nat, q: nat)
    requires index < |bm| && offset < 8
    ensures ClearBit(bm[index], offset) < 256
    ensures BitAt(bm[index := ClearBit(bm[index], offset)], q) == (BitAt(bm, q) && q != 8 * index + offset)
  {
    hide Bit, ClearBit;
    assert Ones(8) == 255;
    BitFits(bm[index], offset, 8);
    ClearBitIn(bm, index, offset, q / 8, q % 8);
  }

  lemma FullByte(bm: seq<byte>, index: nat, q: nat)
    requires index < |bm| && bm[index] == 255 && 8 * index <= q < 8 * index + 8
    ensures BitAt(bm, q)
  {
    assert Ones(8) == 255;
    OnesBit(8, q % 8);
  }

  /** The bits before `pos` have been scanned: clear ones were taken, in order, while any were needed. */
  ghost predicate Scanned(bm: seq<byte>, bm': seq<byte>, base: nat, need: nat, entries: seq<nat>, pos: nat) {
    && |bm'| == |bm| && |entries| <= need
    && Increasing(entries)
    && (forall k :: 0 <= k < |entries| ==> base <= entries[k] < base + pos)
    && (forall q :: 0 <= q && BitAt(bm, q) ==> base + q !in entries)
    && (forall q :: 0 <= q ==> BitAt(bm', q) == (BitAt(bm, q) || base + q in entries))
    && (|entries| < need ==> forall q :: 0 <= q < pos ==> BitAt(bm', q))
    && (forall q, k :: 0 <= q && 0 <= k < |entries| && base + q < entries[k] ==> BitAt(bm', q))
  }

  lemma ScanTake(bm: seq<byte>, bm': seq<byte>, base: nat, need: nat, entries: seq<nat>, index: nat, offset: nat)
    requires index < |bm| && offset < 8 && Scanned(bm, bm', base, need, entries, 8 * index + offset)
    requires !BitAt(bm', 8 * index + offset) && |entries| < need
    ensures SetBit(bm'[index], offset) < 256
    ensures Scanned(bm, bm'[index := SetBit(bm'[index], offset)], base, need, entries + [base + 8 * index + offset],
            8 * index + offset + 1)
  {
    var pos, e := 8 * index + offset, base + 8 * index + offset;
    BitAtSet(bm', index, offset, pos);
    var bm'' := bm'[index := SetBit(bm'[index], offset)];
    forall q | 0 <= q ensures BitAt(bm'', q) == (BitAt(bm, q) || base + q in entries + [e]) {
      BitAtSet(bm', index, offset, q);
    }
  }

  lemma ScanSkip(bm: seq<byte>, bm': seq<byte>, base: nat, need: nat, entries: seq<nat>, pos: nat, pos': nat)
    requires Scanned(bm, bm', base, need, entries, pos) && pos <= pos'
    requires |entries| < need ==> forall q :: pos <= q < pos' ==> BitAt(bm', q)
    ensures Scanned(bm, bm', base, need, entries, pos')
  {
  }

  /** One bit: taken if it is clear. */
  method ScanBit(bm: seq<byte>, before: seq<byte>, base: nat, need: nat, found: seq<nat>, index: nat, offset: nat)
    returns (bm': seq<byte>, entries: seq<nat>)
    requires index < |bm| && offset < 8 && |found| < need && Scanned(bm, before, base, need, found, 8 * index + offset)
    ensures Scanned(bm, bm', base, need, entries, 8 * index + offset + 1)
  {
    assert |before| == |bm| && BitAt(before, 8 * index + offset) == Bit(before[index], offset);
    hide Scanned;
    if Bit(before[index], offset) {
      ScanSkip(bm, before, base, need, found, 8 * index + offset, 8 * index + offset + 1);
      return before, found;
    }
    ScanTake(bm, before, base, need, found, index, offset);
    var block := base + 8 * index + offset;
    return before[index := SetBit(before[index], offset)], found + [block];
  }

  /** The loop over the bits of one byte in get_free_blocks. */
  method ScanByte(bm: seq<byte>, before: seq<byte>, base: nat, need: nat, found: seq<nat>, index: nat)
    returns (bm': seq<byte>, entries: seq<nat>)
    requires index < |bm| && Scanned(bm, before, base, need, found, 8 * index)
    ensures Scanned(bm, bm', base, need, entries, 8 * index + 8)
  {
    bm', entries := before, found;
    var offset := 0;
    while offset < 8 && |entries| < need
      invariant 0 <= offset <= 8 && Scanned(bm, bm', base, need, entries, 8 * index + offset)
    {
      bm', entries := ScanBit(bm, bm', base, need, entries, index, offset);
      offset := offset + 1;
    }
    ScanSkip(bm, bm', base, need, entries, 8 * index + offset, 8 * index + 8);
  }

  /** The loop over one group's bitmap in get_free_blocks: up to `need` free blocks, lowest first. */
  method ScanBitmap(bm: seq<byte>, base: nat, need: nat) returns (bm': seq<byte>, entries: seq<nat>)
    ensures Scanned(bm, bm', base, need, entries, 8 * |bm|)
  {
    bm', entries := bm, [];
    var index := 0;
    while index < |bm| && |entries| < need
      invariant 0 <= index <= |bm| && Scanned(bm, bm', base, need, entries, 8 * index)
    {
      if bm'[index] == 0xFF {
        forall q | 8 * index <= q < 8 * index + 8 ensures BitAt(bm', q) { FullByte(bm', index, q); }
        ScanSkip(bm, bm', base, need, entries, 8 * index, 8 * index + 8);
      } else {
        bm', entries := ScanByte(bm, bm', base, need, entries, index);
      }
      index := index + 1;
    }
    ScanSkip(bm, bm', base, need, entries, 8 * index, 8 * |bm|);
  }

  /** num_unallocated_blocks_in_group. */
  function Count(d: Disk, g: Geometry, k: nat): nat {
    if DescBlock(g) in d && BGDT_T * k + 14 <= |d[DescBlock(g)]| then U16(d[DescBlock(g)], BGDT_T * k + 12) else 0
  }

  ghost function FreeIn(d: Disk, g: Geometry, k: nat): set<nat> {
    set p: nat | p < g.blocksPerGroup && !MarkedAt(d, g, k, p)
  }

  ghost function Free(d: Disk, g: Geometry): set<nat>
    requires g.blocksPerGroup > 0
  {
    set b: nat | b < TotalBlocks(g) && !Marked(d, g, b)
  }

  /** The free counters, which lose one per group and call however many blocks are taken, never
      fall below the truth. */
  ghost predicate CountersOk(d: Disk, g: Geometry, unallocated: nat)
    requires g.blocksPerGroup > 0
  {
    && |Free(d, g)| <= unallocated
    && forall k :: 0 <= k < g.groups ==> |FreeIn(d, g, k)| <= Count(d, g, k)
  }

  /** The bitmap of group k written back. */
  function WithBitmap(d: Disk, g: Geometry, k: nat, bm: seq<byte>): Disk
    requires BitmapBlock(d, g, k) in d && |bm| <= |d[BitmapBlock(d, g, k)]|
  {
    var b := BitmapBlock(d, g, k);
    d[b := Splice(d[b], 0, bm)]
  }

  /** The descriptor of group k written back with another free count. */
  function WithCount(d: Disk, g: Geometry, k: nat, v: nat): Disk
    requires DescBlock(g) in d && BGDT_T * k + BGDT_T <= |d[DescBlock(g)]| && v < U16_END
  {
    var b := DescBlock(g);
    d[b := Splice(d[b], BGDT_T * k + 12, FromU16(v))]
  }

  /** write_group_descriptor writes the whole structure; only the count differs. */
  lemma DescriptorWrite(s: seq<byte>, at: nat, v: nat)
    requires at + BGDT_T <= |s| && v < U16_END
    ensures Splice(s, at, Splice(s[at..at + BGDT_T], 12, FromU16(v))) == Splice(s, at + 12, FromU16(v))
  {
  }

  /** Only the free counts in the descriptors and the bitmaps may differ. */
  ghost predicate OnlyBitmaps(d: Disk, d': Disk, g: Geometry, owner: Owners) {
    && d'.Keys == d.Keys && BlocksSized(d', g)
    && (forall b :: b in d && !(b in owner && (owner[b].Desc? || owner[b].Bitmap?)) ==> d'[b] == d[b])
    && (forall k :: 0 <= k < g.groups ==> BitmapBlock(d', g, k) == BitmapBlock(d, g, k))
    && (forall k :: 0 <= k < g.groups ==> InodeTable(d', g, k) == InodeTable(d, g, k))
  }

  lemma OnlyBitmapsTwice(d: Disk, d': Disk, d'': Disk, g: Geometry, owner: Owners)
    requires OnlyBitmaps(d, d', g, owner) && OnlyBitmaps(d', d'', g, owner)
    ensures OnlyBitmaps(d, d'', g, owner)
  {
  }

  /** Rewriting one free count leaves the other fields of every descriptor. */
  lemma WithCountFields(d: Disk, g: Geometry, k: nat, v: nat, j: nat)
    requires DescBlock(g) in d && BGDT_T * k + BGDT_T <= |d[DescBlock(g)]| && v < U16_END
    requires BGDT_T * j + BGDT_T <= |d[DescBlock(g)]|
    ensures
      var d' := WithCount(d, g, k, v);
      && BitmapBlock(d', g, j) == BitmapBlock(d, g, j) && InodeTable(d', g, j) == InodeTable(d, g, j)
      && Count(d', g, j) == if j == k then v else Count(d, g, j)
  {
    var s, at := d[DescBlock(g)], BGDT_T * k + 12;
    SpliceU32(s, at, FromU16(v), BGDT_T * j);
    SpliceU32(s, at, FromU16(v), BGDT_T * j + 8);
    SpliceU16(s, at, FromU16(v), BGDT_T * j + 12);
  }

  lemma WithCountKeeps(d: Disk, g: Geometry, owner: Owners, k: nat, v: nat)
    requires LayoutOk(d, g, owner) && k < g.groups && v < U16_END
    ensures
      var d' := WithCount(d, g, k, v);
      && OnlyBitmaps(d, d', g, owner)
      && (forall j, p :: 0 <= j < g.groups && 0 <= p ==> MarkedAt(d', g, j, p) == MarkedAt(d, g, j, p))
      && (forall j :: 0 <= j < g.groups ==> Count(d', g, j) == if j == k then v else Count(d, g, j))
  {
    var d' := WithCount(d, g, k, v);
    forall j | 0 <= j < g.groups
      ensures BitmapBlock(d', g, j) == BitmapBlock(d, g, j) && InodeTable(d', g, j) == InodeTable(d, g, j)
      ensures Count(d', g, j) == if j == k then v else Count(d, g, j)
      ensures BitmapBlock(d, g, j) != DescBlock(g)
    {
      WithCountFields(d, g, k, v, j);
      assert Owned(owner, BitmapBlock(d, g, j), Bitmap(j));
    }
  }

  lemma WithBitmapKeeps(d: Disk, g: Geometry, owner: Owners, k: nat, bm: seq<byte>)
    requires LayoutOk(d, g, owner) && k < g.groups && |bm| == g.blocksPerGroup / 8
    ensures
      var d' := WithBitmap(d, g, k, bm);
      && OnlyBitmaps(d, d', g, owner)
      && (forall p :: 0 <= p < g.blocksPerGroup ==> MarkedAt(d', g, k, p) == BitAt(bm, p))
      && (forall j, p :: 0 <= j < g.groups && j != k && 0 <= p ==> MarkedAt(d', g, j, p) == MarkedAt(d, g, j, p))
      && (forall j :: 0 <= j < g.groups ==> Count(d', g, j) == Count(d, g, j))
  {
    hide BitAt, WithBitmap, MarkedAt, LayoutOk, BitmapBlock, InodeTable, Count;
    BitmapFacts(d, g, owner, k);
    var d', b := WithBitmap(d, g, k, bm), BitmapBlock(d, g, k);
    WithBitmapDisk(d, g, k, bm);
    SameDescriptors(d, d', g);
    WithBitmapOnly(d, d', g, owner, k, bm);
    forall p | 0 <= p < g.blocksPerGroup ensures MarkedAt(d', g, k, p) == BitAt(bm, p) {
      BitAtFront(d[b], bm, p);
      MarkIs(d', g, k, p);
    }
    forall j, p | 0 <= j < g.groups && j != k && 0 <= p ensures MarkedAt(d', g, j, p) == MarkedAt(d, g, j, p) {
      BitmapsApart(d, g, owner, j, k);
      MarkIs(d, g, j, p);
      MarkIs(d', g, j, p);
    }
  }

  lemma BitmapFacts(d: Disk, g: Geometry, owner: Owners, k: nat)
    requires LayoutOk(d, g, owner) && k < g.groups
    ensures var b := BitmapBlock(d, g, k);
            b in d && b != DescBlock(g) && b in owner && owner[b].Bitmap? && |d[b]| == g.blockSize
            && g.blocksPerGroup / 8 <= g.blockSize && g.blocksPerGroup % 8 == 0 && BlocksSized(d, g)
               && DescBlock(g) in d
  {
    assert Owned(owner, BitmapBlock(d, g, k), Bitmap(k));
  }

  lemma BitmapsApart(d: Disk, g: Geometry, owner: Owners, j: nat, k: nat)
    requires LayoutOk(d, g, owner) && j < g.groups && k < g.groups && j != k
    ensures BitmapBlock(d, g, j) != BitmapBlock(d, g, k)
  {
    assert Owned(owner, BitmapBlock(d, g, j), Bitmap(j)) && Owned(owner, BitmapBlock(d, g, k), Bitmap(k));
  }

  lemma WithBitmapDisk(d: Disk, g: Geometry, k: nat, bm: seq<byte>)
    requires BitmapBlock(d, g, k) in d && |bm| <= |d[BitmapBlock(d, g, k)]|
    ensures var b := BitmapBlock(d, g, k); WithBitmap(d, g, k, bm) == d[b := Splice(d[b], 0, bm)]
  {
  }

  lemma SameDescriptors(d: Disk, d': Disk, g: Geometry)
    requires DescBlock(g) in d && DescBlock(g) in d' && d'[DescBlock(g)] == d[DescBlock(g)]
    ensures forall j :: BitmapBlock(d', g, j) == BitmapBlock(d, g, j) && InodeTable(d', g, j) == InodeTable(d, g, j)
    ensures forall j :: Count(d', g, j) == Count(d, g, j)
  {
  }

  lemma WithBitmapOnly(d: Disk, d': Disk, g: Geometry, owner: Owners, k: nat, bm: seq<byte>)
    requires var b := BitmapBlock(d, g, k);
             b in d && b in owner && owner[b].Bitmap? && |bm| <= |d[b]| && d' == d[b := Splice(d[b], 0, bm)]
    requires BlocksSized(d, g)
    requires forall j :: BitmapBlock(d', g, j) == BitmapBlock(d, g, j) && InodeTable(d', g, j) == InodeTable(d, g, j)
    ensures OnlyBitmaps(d, d', g, owner)
  {
    hide BitmapBlock, InodeTable;
  }

  lemma MarkIs(d: Disk, g: Geometry, k: nat, p: nat)
    ensures MarkedAt(d, g, k, p) == (BitmapBlock(d, g, k) in d && BitAt(d[BitmapBlock(d, g, k)], p))
  {
  }

  lemma BitAtFront(s: seq<byte>, bm: seq<byte>, p: nat)
    requires |bm| <= |s| && p / 8 < |bm|
    ensures BitAt(Splice(s, 0, bm), p) == BitAt(bm, p)
  {
  }

  /** Exactly the listed blocks have become marked. */
  ghost predicate MarksAdded(d: Disk, d': Disk, g: Geometry, entries: seq<nat>)
    requires g.blocksPerGroup > 0
  {
    forall b :: 0 <= b < TotalBlocks(g) ==> Marked(d', g, b) == (Marked(d, g, b) || b in entries)
  }

  lemma MarksAddedTwice(d: Disk, d': Disk, d'': Disk, g: Geometry, a: seq<nat>, b: seq<nat>)
    requires g.blocksPerGroup > 0 && MarksAdded(d, d', g, a) && MarksAdded(d', d'', g, b)
    ensures MarksAdded(d, d'', g, a + b)
  {
  }

  /** Marking more blocks keeps the layout. */
  lemma LayoutKept(d: Disk, d': Disk, g: Geometry, owner: Owners, entries: seq<nat>)
    requires LayoutOk(d, g, owner) && OnlyBitmaps(d, d', g, owner) && MarksAdded(d, d', g, entries)
    ensures LayoutOk(d', g, owner)
  {
    hide Marked, BitmapBlock, InodeTable, TableLength;
    forall k | 0 <= k < g.groups ensures Owned(owner, BitmapBlock(d', g, k), Bitmap(k)) {
      assert Owned(owner, BitmapBlock(d, g, k), Bitmap(k));
    }
    forall k, t | 0 <= k < g.groups && 0 <= t < TableLength(g)
      ensures Owned(owner, InodeTable(d', g, k) + t, Table(k, t)) {
      assert Owned(owner, InodeTable(d, g, k) + t, Table(k, t));
    }
  }

  lemma SmallerSet<T>(a: set<T>, b: set<T>, x: T)
    requires a <= b && x in b && x !in a
    ensures |a| + 1 <= |b|
  {
    assert a <= b - {x};
    SubsetSize(a, b - {x});
  }

  lemma {:induction false} SubsetSize<T>(a: set<T>, b: set<T>)
    requires a <= b
    ensures |a| <= |b|
  {
    if a != {} {
      var x :| x in a;
      SubsetSize(a - {x}, b - {x});
    }
  }

  /** Block e of the scan of group k belongs to that group. */
  lemma InGroup(g: Geometry, k: nat, e: nat)
    requires g.blocksPerGroup > 0 && k < g.groups && Base(g, k) <= e < Base(g, k) + g.blocksPerGroup
    ensures Div(e, g.blocksPerGroup) == k && Mod(e, g.blocksPerGroup) == e - Base(g, k) && e < TotalBlocks(g)
  {
    DivModUnique(k, g.blocksPerGroup, e - Base(g, k));
    MulLe(k + 1, g.groups, g.blocksPerGroup);
  }

  /** The bitmap of group k as get_free_blocks reads it. */
  ghost function GroupBits(d: Disk, g: Geometry, k: nat): seq<byte>
    requires BitmapBlock(d, g, k) in d && g.blocksPerGroup / 8 <= |d[BitmapBlock(d, g, k)]|
  {
    d[BitmapBlock(d, g, k)][..g.blocksPerGroup / 8]
  }

  lemma GroupBitsMark(d: Disk, g: Geometry, k: nat, p: nat)
    requires g.blocksPerGroup % 8 == 0 && p < g.blocksPerGroup
    requires BitmapBlock(d, g, k) in d && g.blocksPerGroup / 8 <= |d[BitmapBlock(d, g, k)]|
    ensures BitAt(GroupBits(d, g, k), p) == MarkedAt(d, g, k, p)
  {
    assert p / 8 < g.blocksPerGroup / 8;
  }

  /** What an allocation does to the disk: the entries are marked, nothing else has moved. */
  ghost predicate Effect(d: Disk, d': Disk, g: Geometry, owner: Owners, entries: seq<nat>) {
    LayoutOk(d', g, owner) && OnlyBitmaps(d, d', g, owner) && MarksAdded(d, d', g, entries)
  }

  lemma EffectLayout(d: Disk, d': Disk, g: Geometry, owner: Owners, entries: seq<nat>)
    requires Effect(d, d', g, owner, entries)
    ensures LayoutOk(d', g, owner)
  {
  }

  lemma EffectTwice(d: Disk, d': Disk, d'': Disk, g: Geometry, owner: Owners, a: seq<nat>, b: seq<nat>)
    requires Effect(d, d', g, owner, a) && Effect(d', d'', g, owner, b)
    ensures Effect(d, d'', g, owner, a + b)
  {
    OnlyBitmapsTwice(d, d', d'', g, owner);
    MarksAddedTwice(d, d', d'', g, a, b);
  }

  /** The marks of group k are the old ones and the entries; other groups keep theirs. */
  ghost predicate GroupMarks(d: Disk, d': Disk, g: Geometry, k: nat, entries: seq<nat>) {
    && (forall p: nat :: p < g.blocksPerGroup ==>
          MarkedAt(d', g, k, p) == (MarkedAt(d, g, k, p) || Base(g, k) + p in entries))
    && (forall j, p :: 0 <= j < g.groups && j != k && 0 <= p ==> MarkedAt(d', g, j, p) == MarkedAt(d, g, j, p))
    && (forall x :: x in entries ==> Base(g, k) <= x < Base(g, k) + g.blocksPerGroup)
  }

  lemma BitmapGroupMarks(d: Disk, d': Disk, g: Geometry, k: nat, bm: seq<byte>, bm': seq<byte>, need: nat,
          entries: seq<nat>)
    requires Scanned(bm, bm', Base(g, k), need, entries, g.blocksPerGroup)
    requires forall p: nat :: p < g.blocksPerGroup ==> BitAt(bm, p) == MarkedAt(d, g, k, p)
    requires forall p: nat :: p < g.blocksPerGroup ==> MarkedAt(d', g, k, p) == BitAt(bm', p)
    requires forall j, p :: 0 <= j < g.groups && j != k && 0 <= p ==> MarkedAt(d', g, j, p) == MarkedAt(d, g, j, p)
    ensures GroupMarks(d, d', g, k, entries)
  {
    hide Base, BitAt, MarkedAt;
  }

  lemma MarkOf(d: Disk, d': Disk, g: Geometry, k: nat, entries: seq<nat>, b: nat)
    requires g.blocksPerGroup > 0 && k < g.groups && b < TotalBlocks(g) && GroupMarks(d, d', g, k, entries)
    ensures Marked(d', g, b) == (Marked(d, g, b) || b in entries)
  {
    hide BitAt, MarkedAt;
    DivBelow(b, g.blocksPerGroup, g.groups);
    DivMod(b, g.blocksPerGroup);
    if b in entries { InGroup(g, k, b); }
  }

  /** Writing back the scanned bitmap marks exactly the entries. */
  lemma BitmapEffect(d: Disk, d': Disk, g: Geometry, owner: Owners, k: nat, bm': seq<byte>, need: nat,
          entries: seq<nat>)
    requires LayoutOk(d, g, owner) && k < g.groups
    requires Scanned(GroupBits(d, g, k), bm', Base(g, k), need, entries, g.blocksPerGroup)
    requires d' == WithBitmap(d, g, k, bm')
    ensures Effect(d, d', g, owner, entries)
  {
    ScannedLength(d, g, owner, k, bm', Base(g, k), need, entries, g.blocksPerGroup);
    WithBitmapKeeps(d, g, owner, k, bm');
    forall p: nat | p < g.blocksPerGroup ensures BitAt(GroupBits(d, g, k), p) == MarkedAt(d, g, k, p) {
      GroupBitsMark(d, g, k, p);
    }
    hide Scanned, WithBitmap, GroupMarks, OnlyBitmaps;
    BitmapGroupMarks(d, d', g, k, GroupBits(d, g, k), bm', need, entries);
    forall b | 0 <= b < TotalBlocks(g) ensures Marked(d', g, b) == (Marked(d, g, b) || b in entries) {
      MarkOf(d, d', g, k, entries, b);
    }
    LayoutKept(d, d', g, owner, entries);
    hide LayoutOk;
  }

  /** Rewriting a free count marks nothing. */
  lemma CountEffect(d: Disk, g: Geometry, owner: Owners, k: nat, v: nat)
    requires LayoutOk(d, g, owner) && k < g.groups && v < U16_END
    ensures Effect(d, WithCount(d, g, k, v), g, owner, [])
  {
    var d' := WithCount(d, g, k, v);
    WithCountKeeps(d, g, owner, k, v);
    forall b | 0 <= b < TotalBlocks(g) ensures Marked(d', g, b) == Marked(d, g, b) {
      DivBelow(b, g.blocksPerGroup, g.groups);
    }
    LayoutKept(d, d', g, owner, []);
  }

  lemma MarkedIn(d: Disk, g: Geometry, k: nat, p: nat)
    requires g.blocksPerGroup > 0 && k < g.groups && p < g.blocksPerGroup
    ensures Base(g, k) + p < TotalBlocks(g)
    ensures Marked(d, g, Base(g, k) + p) == MarkedAt(d, g, k, p)
  {
    MulLe(0, k, g.blocksPerGroup);
    InGroup(g, k, Base(g, k) + p);
  }

  lemma FreeShrinks(d: Disk, d': Disk, g: Geometry, entries: seq<nat>, e: nat)
    requires g.blocksPerGroup > 0 && MarksAdded(d, d', g, entries) && e in entries && e in Free(d, g)
    ensures |Free(d', g)| + 1 <= |Free(d, g)|
  {
    forall b | b in Free(d', g) ensures b in Free(d, g) && b != e {}
    SmallerSet(Free(d', g), Free(d, g), e);
  }

  lemma FreeInShrinks(d: Disk, d': Disk, g: Geometry, k: nat, entries: seq<nat>, e: nat)
    requires g.blocksPerGroup > 0 && k < g.groups && MarksAdded(d, d', g, entries) && e in entries
    requires Base(g, k) <= e < Base(g, k) + g.blocksPerGroup && !Marked(d, g, e)
    ensures |FreeIn(d', g, k)| + 1 <= |FreeIn(d, g, k)|
  {
    InGroup(g, k, e);
    forall p: nat | p in FreeIn(d', g, k) ensures p in FreeIn(d, g, k) {
      MarkedIn(d, g, k, p);
      MarkedIn(d', g, k, p);
    }
    SmallerSet(FreeIn(d', g, k), FreeIn(d, g, k), e - Base(g, k));
  }

  lemma CountAfter(d: Disk, d1: Disk, d': Disk, g: Geometry, owner: Owners, k: nat, v: nat, entries: seq<nat>)
    requires Effect(d, d1, g, owner, entries) && k < g.groups && v < U16_END && d' == WithCount(d1, g, k, v)
    ensures Effect(d, d', g, owner, entries)
  {
    CountEffect(d1, g, owner, k, v);
    EffectTwice(d, d1, d', g, owner, entries, []);
    assert entries + [] == entries;
  }

  /** d' is d with the entries of a scan of group k taken: bitmap and descriptor written back. */
  ghost predicate Takes(d: Disk, d1: Disk, d': Disk, g: Geometry, k: nat, bm': seq<byte>, need: nat,
          entries: seq<nat>) {
    && k < g.groups && Count(d, g, k) > 0
    && BitmapBlock(d, g, k) in d && g.blocksPerGroup / 8 <= |d[BitmapBlock(d, g, k)]|
    && Scanned(GroupBits(d, g, k), bm', Base(g, k), need, entries, g.blocksPerGroup)
    && d1 == WithBitmap(d, g, k, bm')
    && DescBlock(g) in d1 && BGDT_T * k + BGDT_T <= |d1[DescBlock(g)]|
    && d' == WithCount(d1, g, k, Count(d, g, k) - 1)
  }

  lemma CountRange(d: Disk, g: Geometry, k: nat)
    ensures Count(d, g, k) < U16_END
  {
  }

  lemma TakesEffect(d: Disk, d1: Disk, d': Disk, g: Geometry, owner: Owners, k: nat, bm': seq<byte>, need: nat,
          entries: seq<nat>)
    requires LayoutOk(d, g, owner) && Takes(d, d1, d', g, k, bm', need, entries)
    ensures Effect(d, d', g, owner, entries)
  {
    hide LayoutOk, Effect, Scanned, Base, GroupBits, Count, BitmapBlock, WithBitmap, WithCount;
    CountRange(d, g, k);
    BitmapEffect(d, d1, g, owner, k, bm', need, entries);
    CountAfter(d, d1, d', g, owner, k, Count(d, g, k) - 1, entries);
  }

  /** A scan that came back short has left nothing free in the group. */
  lemma TakesAll(d: Disk, d1: Disk, d': Disk, g: Geometry, owner: Owners, k: nat, bm': seq<byte>, need: nat,
          entries: seq<nat>)
    requires LayoutOk(d, g, owner) && Takes(d, d1, d', g, k, bm', need, entries) && Effect(d, d', g, owner, entries)
    requires |entries| < need
    ensures FreeIn(d', g, k) == {}
  {
    forall p: nat | p < g.blocksPerGroup ensures MarkedAt(d', g, k, p) {
      MarkedIn(d', g, k, p);
      MarkedIn(d, g, k, p);
      GroupBitsMark(d, g, k, p);
    }
  }

  lemma TakesCounts(d: Disk, d1: Disk, d': Disk, g: Geometry, owner: Owners, k: nat, bm': seq<byte>, need: nat,
          entries: seq<nat>, j: nat)
    requires LayoutOk(d, g, owner) && Takes(d, d1, d', g, k, bm', need, entries) && j < g.groups
    ensures Count(d', g, j) == if j == k then Count(d, g, k) - 1 else Count(d, g, j)
  {
    WithBitmapKeeps(d, g, owner, k, bm');
    WithCountFields(d1, g, k, Count(d, g, k) - 1, j);
  }

  /** In a group the entries do not touch the same blocks stay free. */
  lemma FreeInSame(d: Disk, d': Disk, g: Geometry, k: nat, entries: seq<nat>)
    requires g.blocksPerGroup > 0 && k < g.groups && MarksAdded(d, d', g, entries)
    requires forall e :: e in entries ==> Div(e, g.blocksPerGroup) != k
    ensures FreeIn(d', g, k) == FreeIn(d, g, k)
  {
    forall p: nat | p < g.blocksPerGroup ensures MarkedAt(d', g, k, p) == MarkedAt(d, g, k, p) {
      MarkedIn(d, g, k, p);
      MarkedIn(d', g, k, p);
      InGroup(g, k, Base(g, k) + p);
    }
  }

  /** The counters after taking at least one block of group k still bound the free blocks. */
  lemma CountersAfter(d: Disk, d': Disk, g: Geometry, k: nat, entries: seq<nat>, unallocated: nat)
    requires g.blocksPerGroup > 0 && k < g.groups && MarksAdded(d, d', g, entries) && CountersOk(d, g, unallocated)
    requires Base(g, k) >= 0 && entries != []
    requires forall x :: x in entries ==> Base(g, k) <= x < Base(g, k) + g.blocksPerGroup
    requires !Marked(d, g, entries[0])
    requires forall j :: 0 <= j < g.groups ==> Count(d', g, j) == if j == k then Count(d, g, k) - 1 else Count(d, g, j)
    ensures unallocated > 0 && CountersOk(d', g, unallocated - 1)
  {
    var e := entries[0];
    assert e in entries;
    InGroup(g, k, e);
    FreeShrinks(d, d', g, entries, e);
    forall x | x in entries ensures Div(x, g.blocksPerGroup) == k { InGroup(g, k, x); }
    forall j | 0 <= j < g.groups ensures |FreeIn(d', g, j)| <= Count(d', g, j) {
      if j == k { FreeInShrinks(d, d', g, k, entries, e); } else { FreeInSame(d, d', g, j, entries); }
    }
  }

  /** All blocks of a scan lie in its group and were free. */
  lemma ScannedIn(d: Disk, d1: Disk, d': Disk, g: Geometry, k: nat, bm': seq<byte>, need: nat, entries: seq<nat>,
          x: nat)
    requires GeometryOk(g) && Takes(d, d1, d', g, k, bm', need, entries) && x in entries
    ensures Base(g, k) <= x < Base(g, k) + g.blocksPerGroup
    ensures x < TotalBlocks(g) && !Marked(d, g, x)
  {
    InGroup(g, k, x);
    GroupBitsMark(d, g, k, x - Base(g, k));
  }

  lemma TakesCounters(d: Disk, d1: Disk, d': Disk, g: Geometry, owner: Owners, k: nat, bm': seq<byte>, need: nat,
          entries: seq<nat>, unallocated: nat)
    requires LayoutOk(d, g, owner) && Takes(d, d1, d', g, k, bm', need, entries) && Effect(d, d', g, owner, entries)
    requires CountersOk(d, g, unallocated) && entries != []
    ensures unallocated > 0 && CountersOk(d', g, unallocated - 1)
  {
    forall x | x in entries
      ensures Base(g, k) <= x < Base(g, k) + g.blocksPerGroup && !Marked(d, g, x)
    {
      ScannedIn(d, d1, d', g, k, bm', need, entries, x);
    }
    forall j | 0 <= j < g.groups ensures Count(d', g, j) == if j == k then Count(d, g, k) - 1 else Count(d, g, j) {
      TakesCounts(d, d1, d', g, owner, k, bm', need, entries, j);
    }
    CountersAfter(d, d', g, k, entries, unallocated);
  }

  lemma DescriptorRoom(d: Disk, g: Geometry, owner: Owners, k: nat)
    requires LayoutOk(d, g, owner) && k < g.groups
    ensures DescBlock(g) in d && BGDT_T * k + BGDT_T <= g.blockSize
  {
  }

  /** The fields get_free_blocks uses of a descriptor it has read. */
  lemma DescriptorFields(d: Disk, g: Geometry, owner: Owners, k: nat, desc: seq<byte>)
    requires LayoutOk(d, g, owner) && k < g.groups
    requires desc == d[DescBlock(g)][BGDT_T * k..BGDT_T * k + BGDT_T]
    ensures |desc| == BGDT_T && BGDT_T * k + BGDT_T <= g.blockSize && DescBlock(g) in d
            && |d[DescBlock(g)]| == g.blockSize
    ensures U32(desc, 0) == BitmapBlock(d, g, k) && U32(desc, 8) == InodeTable(d, g, k)
            && U16(desc, 12) == Count(d, g, k)
    ensures g.blocksPerGroup / 8 <= g.blockSize
    ensures BitmapBlock(d, g, k) in d && BitmapBlock(d, g, k) != DescBlock(g)
            && |d[BitmapBlock(d, g, k)]| == g.blockSize
  {
    var s := d[DescBlock(g)];
    SliceU32(s, BGDT_T * k, BGDT_T * k + BGDT_T, 0);
    SliceU32(s, BGDT_T * k, BGDT_T * k + BGDT_T, 8);
    assert Owned(owner, BitmapBlock(d, g, k), Bitmap(k));
  }

  lemma ScannedLength(d: Disk, g: Geometry, owner: Owners, k: nat, bm': seq<byte>, base: nat, need: nat,
          entries: seq<nat>, pos: nat)
    requires LayoutOk(d, g, owner) && k < g.groups && Scanned(GroupBits(d, g, k), bm', base, need, entries, pos)
    ensures |bm'| == g.blocksPerGroup / 8 <= g.blockSize
  {
  }

  /** write_group_descriptor with only the count changed. */
  lemma CountWritten(d: Disk, d': Disk, g: Geometry, k: nat, desc: seq<byte>, v: nat)
    requires DescBlock(g) in d && BGDT_T * k + BGDT_T <= |d[DescBlock(g)]| && v < U16_END
    requires desc == d[DescBlock(g)][BGDT_T * k..BGDT_T * k + BGDT_T]
    requires d' == d[DescBlock(g) := Splice(d[DescBlock(g)], BGDT_T * k, Splice(desc, 12, FromU16(v)))]
    ensures d' == WithCount(d, g, k, v)
  {
    DescriptorWrite(d[DescBlock(g)], BGDT_T * k, v);
  }

  /** Everything get_free_blocks needs to know about having taken blocks of group k. */
  lemma TakesDone(d: Disk, d1: Disk, d': Disk, g: Geometry, owner: Owners, k: nat, bm': seq<byte>, need: nat,
          entries: seq<nat>, unallocated: nat)
    requires LayoutOk(d, g, owner) && CountersOk(d, g, unallocated) && Takes(d, d1, d', g, k, bm', need, entries)
             && entries != []
    ensures Effect(d, d', g, owner, entries) && unallocated > 0 && CountersOk(d', g, unallocated - 1)
    ensures |entries| < need ==> FreeIn(d', g, k) == {}
  {
    TakesEffect(d, d1, d', g, owner, k, bm', need, entries);
    TakesCounters(d, d1, d', g, owner, k, bm', need, entries, unallocated);
    if |entries| < need { TakesAll(d, d1, d', g, owner, k, bm', need, entries); }
  }

  /** The two writes at the end of get_free_blocks' work on group k. */
  lemma WrittenBack(d: Disk, d1: Disk, d': Disk, g: Geometry, owner: Owners, k: nat, desc: seq<byte>, bm': seq<byte>,
          need: nat, entries: seq<nat>, unallocated: nat)
    requires LayoutOk(d, g, owner) && CountersOk(d, g, unallocated) && k < g.groups && Count(d, g, k) > 0
             && entries != []
    requires desc == d[DescBlock(g)][BGDT_T * k..BGDT_T * k + BGDT_T]
    requires Scanned(GroupBits(d, g, k), bm', Base(g, k), need, entries, g.blocksPerGroup)
    requires var b := BitmapBlock(d, g, k); d1 == d[b := Splice(d[b], 0, bm')]
    requires var b := DescBlock(g);
             d' == d1[b := Splice(d1[b], BGDT_T * k, Splice(desc, 12, FromU16(Count(d, g, k) - 1)))]
    ensures Effect(d, d', g, owner, entries) && unallocated > 0 && CountersOk(d', g, unallocated - 1)
    ensures |entries| < need ==> FreeIn(d', g, k) == {}
  {
    hide LayoutOk, CountersOk, Scanned, Effect, FreeIn, Base, GroupBits, Count, BitmapBlock, WithCount, Splice,
      FromU16, U16;
    DescriptorFields(d, g, owner, k, desc);
    CountRange(d, g, k);
    assert d1[DescBlock(g)] == d[DescBlock(g)];
    CountWritten(d1, d', g, k, desc, Count(d, g, k) - 1);
    TakesDone(d, d1, d', g, owner, k, bm', need, entries, unallocated);
  }

  /** The entries are distinct blocks of group k, free before. */
  ghost predicate TakenFrom(d: Disk, g: Geometry, k: nat, entries: seq<nat>)
    requires g.blocksPerGroup > 0
  {
    && Increasing(entries)
    && forall x :: x in entries ==>
       Base(g, k) <= x < Base(g, k) + g.blocksPerGroup && x < TotalBlocks(g) && !Marked(d, g, x)
  }

  lemma NoEffect(d: Disk, g: Geometry, owner: Owners)
    requires LayoutOk(d, g, owner)
    ensures Effect(d, d, g, owner, [])
  {
  }

  /** A group whose count is 0 has no free block, since counts are never too low. */
  lemma NoneTaken(d: Disk, g: Geometry, owner: Owners, k: nat, unallocated: nat)
    requires LayoutOk(d, g, owner) && CountersOk(d, g, unallocated) && k < g.groups && Count(d, g, k) == 0
    ensures Effect(d, d, g, owner, []) && TakenFrom(d, g, k, []) && GroupSkipsNone(d, g, k, []) && FreeIn(d, g, k) == {}
  {
    NoEffect(d, g, owner);
    assert |FreeIn(d, g, k)| == 0;
  }

  lemma BitmapRead(d: Disk, g: Geometry, owner: Owners, k: nat, bm: seq<byte>)
    requires LayoutOk(d, g, owner) && k < g.groups && BitmapBlock(d, g, k) in d
    requires g.blocksPerGroup / 8 <= |d[BitmapBlock(d, g, k)]| && bm == d[BitmapBlock(d, g, k)][0..g.blocksPerGroup / 8]
    ensures bm == GroupBits(d, g, k) && 8 * |bm| == g.blocksPerGroup && k * g.blocksPerGroup == Base(g, k)
  {
  }

  lemma GroupReady(d: Disk, g: Geometry, owner: Owners, k: nat)
    requires LayoutOk(d, g, owner) && k < g.groups
    ensures g.blocksPerGroup > 0 && g.blocksPerGroup % 8 == 0
    ensures BitmapBlock(d, g, k) in d && g.blocksPerGroup / 8 <= |d[BitmapBlock(d, g, k)]|
  {
    assert Owned(owner, BitmapBlock(d, g, k), Bitmap(k));
  }

  lemma ScanTakenOne(d: Disk, g: Geometry, owner: Owners, k: nat, bm': seq<byte>, need: nat, entries: seq<nat>, x: nat)
    requires LayoutOk(d, g, owner) && k < g.groups && x in entries
    requires Scanned(GroupBits(d, g, k), bm', Base(g, k), need, entries, g.blocksPerGroup)
    ensures Base(g, k) <= x < Base(g, k) + g.blocksPerGroup && x < TotalBlocks(g) && !Marked(d, g, x)
  {
    hide LayoutOk, Base, GroupBits, BitAt, MarkedAt, BitmapBlock;
    GroupReady(d, g, owner, k);
    InGroup(g, k, x);
    GroupBitsMark(d, g, k, x - Base(g, k));
  }

  lemma ScanTaken(d: Disk, g: Geometry, owner: Owners, k: nat, bm': seq<byte>, need: nat, entries: seq<nat>)
    requires LayoutOk(d, g, owner) && k < g.groups
    requires Scanned(GroupBits(d, g, k), bm', Base(g, k), need, entries, g.blocksPerGroup)
    ensures TakenFrom(d, g, k, entries) && |entries| <= need
  {
    hide LayoutOk, Base, GroupBits;
    forall x | x in entries
      ensures Base(g, k) <= x < Base(g, k) + g.blocksPerGroup && x < TotalBlocks(g) && !Marked(d, g, x)
    {
      ScanTakenOne(d, g, owner, k, bm', need, entries, x);
    }
  }

  /** No free block of the group lies below a taken one, unless it is taken itself. */
  ghost predicate GroupSkipsNone(d: Disk, g: Geometry, k: nat, entries: seq<nat>)
    requires g.blocksPerGroup > 0
  {
    forall x: nat, i :: 0 <= i < |entries| && Base(g, k) <= x < entries[i] && !Marked(d, g, x) ==> x in entries
  }

  lemma ScanSkipsNone(d: Disk, g: Geometry, owner: Owners, k: nat, bm': seq<byte>, need: nat, entries: seq<nat>)
    requires LayoutOk(d, g, owner) && k < g.groups
    requires Scanned(GroupBits(d, g, k), bm', Base(g, k), need, entries, g.blocksPerGroup)
    ensures GroupSkipsNone(d, g, k, entries)
  {
    hide LayoutOk, Base, GroupBits, BitAt;
    forall x: nat, i | 0 <= i < |entries| && Base(g, k) <= x < entries[i] && !Marked(d, g, x) ensures x in entries {
      ScanTakenOne(d, g, owner, k, bm', need, entries, entries[i]);
      ScanSkipOne(d, g, owner, k, x);
      assert BitAt(bm', x - Base(g, k));
    }
  }

  lemma ScanSkipOne(d: Disk, g: Geometry, owner: Owners, k: nat, x: nat)
    requires LayoutOk(d, g, owner) && k < g.groups && Base(g, k) <= x < Base(g, k) + g.blocksPerGroup
             && !Marked(d, g, x)
    ensures !BitAt(GroupBits(d, g, k), x - Base(g, k))
  {
    hide LayoutOk, Base, GroupBits, BitAt, MarkedAt, BitmapBlock;
    GroupReady(d, g, owner, k);
    InGroup(g, k, x);
    GroupBitsMark(d, g, k, x - Base(g, k));
  }

  /** A scan that found nothing changed nothing and saw only marked blocks. */
  lemma ScanEmpty(d: Disk, g: Geometry, owner: Owners, k: nat, bm': seq<byte>, need: nat)
    requires LayoutOk(d, g, owner) && k < g.groups && need > 0
    requires Scanned(GroupBits(d, g, k), bm', Base(g, k), need, [], g.blocksPerGroup)
    ensures Effect(d, d, g, owner, []) && FreeIn(d, g, k) == {}
  {
    NoEffect(d, g, owner);
    forall p: nat | p < g.blocksPerGroup ensures MarkedAt(d, g, k, p) {
      GroupBitsMark(d, g, k, p);
      assert BitAt(bm', p);
    }
  }

  /** Distinct blocks, all free on d. */
  ghost predicate Fresh(d: Disk, g: Geometry, entries: seq<nat>)
    requires g.blocksPerGroup > 0
  {
    && Increasing(entries)
    && forall x :: x in entries ==> x in Free(d, g)
  }

  /** The entries are the lowest free blocks: none below a taken one is left out. */
  ghost predicate SkipsNone(d: Disk, g: Geometry, entries: seq<nat>)
    requires g.blocksPerGroup > 0
  {
    forall x: nat, i :: 0 <= i < |entries| && x in Free(d, g) && x < entries[i] ==> x in entries
  }

  lemma ContinueSkipsNone(d: Disk, d1: Disk, g: Geometry, owner: Owners, k: nat, entries: seq<nat>, found: seq<nat>)
    requires g.blocksPerGroup > 0 && k < g.groups
    requires Effect(d, d1, g, owner, entries) && SkipsNone(d, g, entries) && ExhaustedBelow(d1, g, k)
    requires GroupSkipsNone(d1, g, k, found) && TakenFrom(d1, g, k, found)
    ensures SkipsNone(d, g, entries + found)
  {
    hide LayoutOk, OnlyBitmaps, Base, MarkedAt;
    var all := entries + found;
    forall x: nat, i | 0 <= i < |all| && x in Free(d, g) && x < all[i] ensures x in all {
      if i >= |entries| && x !in entries {
        assert all[i] == found[i - |entries|] && all[i] in found;
        BelowIsTaken(d1, g, k, x);
      }
    }
  }

  /** A block that is still unmarked lies in no exhausted group. */
  lemma BelowIsTaken(d: Disk, g: Geometry, k: nat, x: nat)
    requires g.blocksPerGroup > 0 && ExhaustedBelow(d, g, k) && k < g.groups && x < TotalBlocks(g) && !Marked(d, g, x)
    ensures Base(g, k) <= x
  {
    hide MarkedAt;
    var j, p := Div(x, g.blocksPerGroup), Mod(x, g.blocksPerGroup);
    DivMod(x, g.blocksPerGroup);
    assert p in FreeIn(d, g, j);
    MulLe(k, j, g.blocksPerGroup);
  }

  /** All entries belong to groups below k. */
  ghost predicate Before(g: Geometry, k: nat, entries: seq<nat>) {
    forall x :: x in entries ==> x < Base(g, k)
  }

  ghost predicate ExhaustedBelow(d: Disk, g: Geometry, k: nat) {
    forall j :: 0 <= j < k ==> FreeIn(d, g, j) == {}
  }

  lemma StartAllocation(d: Disk, g: Geometry, owner: Owners)
    requires LayoutOk(d, g, owner)
    ensures g.blocksPerGroup > 0 && Effect(d, d, g, owner, []) && Fresh(d, g, []) && SkipsNone(d, g, [])
  {
    NoEffect(d, g, owner);
  }

  /** The first gate of get_free_blocks never refuses blocks that exist. */
  lemma TooMany(d: Disk, g: Geometry, unallocated: nat, n: nat)
    requires g.blocksPerGroup > 0 && CountersOk(d, g, unallocated) && n > unallocated
    ensures n > |Free(d, g)|
  {
  }

  lemma BaseNext(g: Geometry, k: nat)
    ensures Base(g, k + 1) == Base(g, k) + g.blocksPerGroup
  {
    assert (k + 1) * g.blocksPerGroup == k * g.blocksPerGroup + g.blocksPerGroup;
  }

  lemma ContinueAllocation(d: Disk, d1: Disk, d2: Disk, g: Geometry, owner: Owners, k: nat, entries: seq<nat>,
          found: seq<nat>)
    requires Effect(d, d1, g, owner, entries) && Effect(d1, d2, g, owner, found)
    requires Fresh(d, g, entries) && TakenFrom(d1, g, k, found) && Before(g, k, entries)
    ensures Effect(d, d2, g, owner, entries + found)
    ensures Fresh(d, g, entries + found) && Before(g, k + 1, entries + found)
  {
    EffectTwice(d, d1, d2, g, owner, entries, found);
    StillIncreasing(d, d1, d2, g, owner, k, entries, found);
  }

  lemma StillIncreasing(d: Disk, d1: Disk, d2: Disk, g: Geometry, owner: Owners, k: nat, entries: seq<nat>,
          found: seq<nat>)
    requires Effect(d, d1, g, owner, entries)
    requires Fresh(d, g, entries) && TakenFrom(d1, g, k, found) && Before(g, k, entries)
    ensures Fresh(d, g, entries + found) && Before(g, k + 1, entries + found)
  {
    hide LayoutOk, OnlyBitmaps, Base, Marked;
    BaseNext(g, k);
    var all := entries + found;
    forall a, b | 0 <= a < b < |all| ensures all[a] < all[b] {
      if a < |entries| <= b { assert all[a] in entries && all[b] in found; }
    }
    forall x | x in all ensures x in Free(d, g) && x < Base(g, k + 1) {
      if x !in entries { assert x in found; }
    }
  }

  /** Taking blocks never makes a group's blocks free again. */
  lemma Exhausted(d1: Disk, d2: Disk, g: Geometry, owner: Owners, k: nat, found: seq<nat>)
    requires Effect(d1, d2, g, owner, found) && ExhaustedBelow(d1, g, k) && FreeIn(d2, g, k) == {} && k < g.groups
    ensures ExhaustedBelow(d2, g, k + 1)
  {
    forall j | 0 <= j < k ensures FreeIn(d2, g, j) == {} {
      forall p: nat | p < g.blocksPerGroup ensures MarkedAt(d2, g, j, p) {
        assert p !in FreeIn(d1, g, j);
        MarkedIn(d1, g, j, p);
        MarkedIn(d2, g, j, p);
      }
    }
  }

  /** Every group scanned and still not enough: then all free blocks have been taken. */
  lemma AllTaken(d: Disk, d2: Disk, g: Geometry, owner: Owners, entries: seq<nat>)
    requires Effect(d, d2, g, owner, entries) && Fresh(d, g, entries) && ExhaustedBelow(d2, g, g.groups)
    ensures |Free(d, g)| == |entries|
  {
    forall b: nat | b < TotalBlocks(g) && !Marked(d, g, b) ensures b in entries {
      DivBelow(b, g.blocksPerGroup, g.groups);
      var j, p := Div(b, g.blocksPerGroup), Mod(b, g.blocksPerGroup);
      assert p !in FreeIn(d2, g, j);
    }
    assert Free(d, g) == Elements(entries);
    DistinctCount(entries);
  }

  ghost function Elements(s: seq<nat>): set<nat> {
    set x | x in s
  }

  lemma {:induction false} DistinctCount(s: seq<nat>)
    requires Increasing(s)
    ensures |Elements(s)| == |s|
  {
    if s != [] {
      var init, last := s[..|s| - 1], s[|s| - 1];
      DistinctCount(init);
      assert s == init + [last];
      assert Elements(s) == Elements(init) + {last};
      assert last !in Elements(init);
    }
  }
}
