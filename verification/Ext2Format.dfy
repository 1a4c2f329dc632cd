/** The on-disk structures of ext2, field after field as the disk has them, and what the file system's accessors
    make of them. */
module Ext2Format {
  import Bits
  import opened Bytes
  import opened Division
  import opened BlockCaches
  import opened Ext2Layout
  import opened Ext2Alloc
  import opened Ext2File

  // Little-endian words, one after the other.

  predicate Words32(s: seq<nat>) {
    forall k :: 0 <= k < |s| ==> s[k] < U32_END
  }

  function Packed32(s: seq<nat>): (r: seq<byte>)
    requires Words32(s)
    ensures |r| == 4 * |s|
  {
    if s == [] then [] else Packed32(s[..|s| - 1]) + FromU32(s[|s| - 1])
  }

  lemma {:induction false} WordAt(a: seq<byte>, s: seq<nat>, b: seq<byte>, k: nat)
    requires Words32(s) && k < |s|
    ensures U32(a + Packed32(s) + b, |a| + 4 * k) == s[k]
    decreases |s|
  {
    var init, last := s[..|s| - 1], FromU32(s[|s| - 1]);
    if k == |s| - 1 {
      var t := a + Packed32(init);
      WordThere(t, last, b);
      assert a + Packed32(s) + b == t + last + b;
    } else {
      WordAt(a, init, last + b, k);
      assert a + Packed32(s) + b == a + Packed32(init) + (last + b);
    }
  }

  lemma WordThere(a: seq<byte>, w: seq<byte>, b: seq<byte>)
    requires |w| == 4
    ensures U32(a + w + b, |a|) == U32(w, 0)
  {
  }

  // struct INode.

  /** inode_t. `times` are the four times, `owner` type, permissions and user, `links` group and hard links. */
  datatype INode = INode(owner: nat, lowSize: nat, times: seq<nat>, links: nat, sectors: nat, flags: nat,
                         osSpecific: nat, pointers: seq<nat>, single: nat, double: nat, triple: nat,
                         generation: nat, attributes: nat, upperSize: nat, fragment: nat, osSpecific2: nat)

  function Fields(i: INode): seq<nat> {
    [i.owner, i.lowSize] + i.times + [i.links, i.sectors, i.flags, i.osSpecific] + i.pointers
    + [i.single, i.double, i.triple, i.generation, i.attributes, i.upperSize, i.fragment, i.osSpecific2]
  }

  predicate InodeOk(i: INode) {
    |i.times| == 4 && |i.pointers| == 12 && Words32(Fields(i))
  }

  /** The accessors read the fields they are named after, and the structure is 120 bytes long. */
  lemma InodeFields(i: INode, behind: seq<byte>)
    requires InodeOk(i)
    ensures
      var h := Packed32(Fields(i)) + behind;
      && |Packed32(Fields(i))| == INODE_T == 120 && |h| >= INODE_T
      && Size(h) == i.lowSize + U32_END * i.upperSize && Sectors(h) == i.sectors
      && (forall k :: 0 <= k < 12 ==> Direct(h, k) == i.pointers[k])
      && Single(h) == i.single && Double(h) == i.double
  {
    hide U32, Packed32;
    var f := Fields(i);
    var h := Packed32(f) + behind;
    assert [] + Packed32(f) + behind == h;
    WordAt([], f, behind, 1);
    WordAt([], f, behind, 7);
    WordAt([], f, behind, 22);
    WordAt([], f, behind, 23);
    WordAt([], f, behind, 27);
    forall k | 0 <= k < 12 ensures Direct(h, k) == i.pointers[k] {
      WordAt([], f, behind, 10 + k);
      assert f[10 + k] == i.pointers[k];
    }
  }

  // struct BlockGroupDescriptorTable.

  /** bgdt_t: three block numbers, the two counts in one word, and what is behind them. */
  datatype Descriptor = Descriptor(blockBitmap: nat, inodeBitmap: nat, inodeTable: nat, freeBlocks: nat,
          freeInodes: nat,
                                   rest: seq<nat>)

  predicate DescriptorOk(x: Descriptor) {
    && x.freeBlocks < U16_END && x.freeInodes < U16_END && |x.rest| == 4
    && Words32([x.blockBitmap, x.inodeBitmap, x.inodeTable]) && Words32(x.rest)
  }

  function DescriptorBytes(x: Descriptor): (s: seq<byte>)
    requires DescriptorOk(x)
    ensures |s| == 32
  {
    Packed32([x.blockBitmap, x.inodeBitmap, x.inodeTable]) + (FromU16(x.freeBlocks) + FromU16(x.freeInodes))
        + Packed32(x.rest)
  }

  /** A descriptor at its place in the table, which starts at block 2 with 1 KiB blocks and at block 1 otherwise. */
  lemma DescriptorAt(d: Disk, g: Geometry, k: nat, x: Descriptor, before: seq<byte>, behind: seq<byte>)
    requires DescriptorOk(x) && |before| == 32 * k
    requires var b := if g.blockSize == 1024 then 2 else 1; b in d && d[b] == before + DescriptorBytes(x) + behind
    ensures BitmapBlock(d, g, k) == x.blockBitmap && InodeTable(d, g, k) == x.inodeTable
            && Count(d, g, k) == x.freeBlocks
  {
    hide U32, U16, Packed32, FromU16;
    var w := [x.blockBitmap, x.inodeBitmap, x.inodeTable];
    var counts := FromU16(x.freeBlocks) + FromU16(x.freeInodes);
    var tail := Packed32(x.rest) + behind;
    var s := before + DescriptorBytes(x) + behind;
    assert s == before + Packed32(w) + (counts + tail);
    WordAt(before, w, counts + tail, 0);
    WordAt(before, w, counts + tail, 2);
    HalfThere(before + Packed32(w), FromU16(x.freeBlocks), FromU16(x.freeInodes) + tail);
    assert s == before + Packed32(w) + FromU16(x.freeBlocks) + (FromU16(x.freeInodes) + tail);
  }

  lemma HalfThere(a: seq<byte>, w: seq<byte>, b: seq<byte>)
    requires |w| == 2
    ensures U16(a + w + b, |a|) == U16(w, 0)
  {
  }

  // Places.

  /** Inode n is entry (n - 1) mod inodes per group of the table of its group, as a byte address. */
  lemma InodeAddress(d: Disk, g: Geometry, k: nat, i: nat)
    requires GeometryOk(g) && i < g.inodesPerGroup
    ensures
      var n := k * g.inodesPerGroup + i + 1;
      && n >= 1 && InodeOffset(g, n) < g.blockSize
      && InodeBlock(d, g, n) * g.blockSize + InodeOffset(g, n) == InodeTable(d, g, k) * g.blockSize + i * g.inodeSize
  {
    hide InodeTable;
    MulLe(0, k, g.inodesPerGroup);
    MulLe(0, i, g.inodeSize);
    DivModUnique(k, g.inodesPerGroup, i);
    var slot := i * g.inodeSize;
    DivMod(slot, g.blockSize);
    var t, q, b := InodeTable(d, g, k), Div(slot, g.blockSize), g.blockSize;
    assert (t + q) * b == t * b + q * b;
  }

  /** The block map: twelve pointers in the inode, then a block of them, then a block of blocks of them. */
  lemma MapPlaces(d: Disk, g: Geometry, h: seq<byte>, i: nat, j: nat)
    requires GeometryOk(g) && |h| >= INODE_T && i < g.blockSize / 4 && j < g.blockSize / 4
    ensures i < 12 ==> BlockOf(d, g, h, i) == Direct(h, i)
    ensures BlockOf(d, g, h, 12 + i) == Ptr(d, Single(h), 4 * i)
    ensures
      var c := g.blockSize / 4;
      j * c >= 0 && BlockOf(d, g, h, 12 + c + j * c + i) == Ptr(d, Ptr(d, Double(h), 4 * j), 4 * i)
  {
    hide Ptr, Direct, Single, Double;
    var c := g.blockSize / 4;
    MulLe(0, j, c);
    DivModUnique(j, c, i);
  }

  /** Byte r of block q of a file; a block that is not there reads as zeros. */
  lemma BytePlace(d: Disk, g: Geometry, h: seq<byte>, q: nat, r: nat)
    requires GeometryOk(g) && |h| >= INODE_T && r < g.blockSize
    ensures
      var b := BlockOf(d, g, h, q);
      && q * g.blockSize >= 0
      && (b == 0 ==> 0 !in d ==> ByteAt(d, g, h, q * g.blockSize + r) == 0)
      && (b in d && |d[b]| == g.blockSize && b != 0 ==> ByteAt(d, g, h, q * g.blockSize + r) == d[b][r])
  {
    hide BlockOf;
    MulLe(0, q, g.blockSize);
    DivModUnique(q, g.blockSize, r);
  }

  /** Bit p of a block bitmap is bit p mod 8 of byte p / 8, the least significant first. */
  lemma BitPlace(s: seq<byte>, p: nat)
    requires p / 8 < |s|
    ensures BitAt(s, p) <==> s[p / 8] / Bits.Pow2(p % 8) % 2 == 1
  {
    Bits.BitValue(s[p / 8], p % 8);
  }
}
