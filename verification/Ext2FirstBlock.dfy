/** s_first_data_block: what the bits of a block bitmap mean on an ext2 disk, and what get_free_blocks
    makes of them. The code reads bit p of group k as block k * blocks_per_group + p and never looks at
    the field, which is 1 on disks with 1 KiB blocks and 0 on all others. */
module Ext2FirstBlock {
  import opened Bytes
  import opened Division
  import opened BlockCaches
  import opened Ext2Layout
  import opened Ext2Alloc

  /** Block b is in use on a disk whose bitmaps start at block `first`: the blocks below it are reserved. */
  predicate InUse(d: Disk, g: Geometry, first: nat, b: nat)
    requires g.blocksPerGroup > 0
  {
    b < first || MarkedAt(d, g, Div(b - first, g.blocksPerGroup), Mod(b - first, g.blocksPerGroup))
  }

  /** The lowest block the code finds free is in use or reserved on every disk that starts later. */
  lemma LowestInUse(d: Disk, g: Geometry, first: nat, entries: seq<nat>)
    requires g.blocksPerGroup > 0 && Fresh(d, g, entries) && SkipsNone(d, g, entries) && entries != [] && first > 0
    ensures InUse(d, g, first, entries[0])
  {
    hide MarkedAt;
    var x := entries[0];
    assert x in Free(d, g);
    if x >= first {
      assert x - first !in entries;
      assert x - first !in Free(d, g);
    }
  }

  /** Blocks handed out are free in the bitmap's own meaning if and only if the first data block is 0. */
  lemma FreeBlocksExact(d: Disk, g: Geometry, first: nat, entries: seq<nat>)
    requires g.blocksPerGroup > 0 && Fresh(d, g, entries) && SkipsNone(d, g, entries) && entries != []
    ensures (forall x :: x in entries ==> !InUse(d, g, first, x)) <==> first == 0
  {
    hide MarkedAt;
    if first > 0 {
      LowestInUse(d, g, first, entries);
      assert entries[0] in entries;
    } else {
      forall x | x in entries ensures !InUse(d, g, first, x) {
        assert x in Free(d, g);
      }
    }
  }
}
