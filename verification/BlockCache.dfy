/** The write-back block cache of kernel/fs/ext2.c: four entries over a block device. */
module BlockCaches {
  import opened Bytes

  /** Blocks by number. The device is assumed to keep what is written to it. */
  type Disk = map<nat, seq<byte>>

  datatype Entry = Entry(used: bool, lastUse: nat, block: nat, bytes: seq<byte>, dirty: bool)

  const ENTRIES: nat := 4
  /** 2 * SECTOR_SIZE: the bytes of the superblock, and their place on the device. */
  const SUPERBLOCK: nat := 1024

  predicate Caches(e: Entry, block: nat) {
    e.used && e.block == block
  }

  /** Two used entries never hold the same block. */
  ghost predicate Distinct(cache: seq<Entry>) {
    forall i, j :: 0 <= i < j < |cache| && cache[i].used ==> !Caches(cache[j], cache[i].block)
  }

  /** The contents a reader must see: the device overlaid by the cache. Block 0 is left out: the
      superblock is written to it behind the cache's back. */
  ghost function Overlay(cache: seq<Entry>, device: Disk): (d: Disk)
    ensures d.Keys == device.Keys - {0}
  {
    map b | b in device && b != 0 :: Seen(cache, device, b)
  }

  ghost function Seen(cache: seq<Entry>, device: Disk, b: nat): seq<byte>
    requires b in device
  {
    if exists i :: 0 <= i < |cache| && Caches(cache[i], b)
    then (var i :| 0 <= i < |cache| && Caches(cache[i], b); cache[i].bytes)
    else device[b]
  }

  lemma SeenHit(cache: seq<Entry>, device: Disk, i: nat)
    requires Distinct(cache) && i < |cache| && cache[i].used && cache[i].block in device
    ensures Seen(cache, device, cache[i].block) == cache[i].bytes
  {
    var b := cache[i].block;
    var j :| 0 <= j < |cache| && Caches(cache[j], b) && Seen(cache, device, b) == cache[j].bytes;
    if j != i { assert Caches(cache[i], b); }
  }

  /** Entry `i` alone holds what differs between two caches; all other blocks look the same. */
  lemma SeenElsewhere(cache: seq<Entry>, device: Disk, i: nat, e: Entry, device': Disk, b: nat)
    requires i < |cache| && Distinct(cache) && Distinct(cache[i := e])
    requires b in device && b in device' && device[b] == device'[b]
    requires !Caches(cache[i], b) && !Caches(e, b)
    ensures Seen(cache[i := e], device', b) == Seen(cache, device, b)
  {
    var cache' := cache[i := e];
    if k :| 0 <= k < |cache| && Caches(cache[k], b) {
      assert cache'[k] == cache[k];
      SeenHit(cache, device, k);
      SeenHit(cache', device', k);
    } else {
      forall k | 0 <= k < |cache'| ensures !Caches(cache'[k], b) {
        assert !Caches(cache[k], b);
      }
    }
  }

  class BlockCache {
    const blockSize: nat
    var cache: seq<Entry>
    var device: Disk
    var superblockChanged: bool
    /** timer_get_uptime(). */
    var uptime: nat

    ghost predicate Valid()
      reads this
    {
      && |cache| == ENTRIES && blockSize > 0
      && (forall b :: b in device ==> |device[b]| == blockSize)
      && Distinct(cache)
      && forall i :: 0 <= i < |cache| ==> EntryOk(cache[i])
    }

    /** A used entry holds a block of the device, and holds it unchanged unless it is dirty. */
    ghost predicate EntryOk(e: Entry)
      reads this
    {
      && |e.bytes| == blockSize
      && (e.used ==> e.block in device && (!e.dirty && e.block != 0 ==> e.bytes == device[e.block]))
    }

    ghost function Logical(): (d: Disk)
      reads this
      ensures d.Keys == device.Keys - {0}
    {
      Overlay(cache, device)
    }

    /** parse_superblock and ext2_mount: four unused entries over the disk. */
    constructor (size: nat, disk: Disk)
      requires size > 0 && forall b :: b in disk ==> |disk[b]| == size
      ensures Valid() && blockSize == size && device == disk && !superblockChanged
      ensures forall b :: b in disk && b != 0 ==> Logical()[b] == disk[b]
      ensures forall b :: !Pending(b)
    {
      blockSize, device, superblockChanged, uptime := size, disk, false, 0;
      cache := seq(ENTRIES, _ => Entry(false, 0, 0, seq(size, _ => 0), false));
    }

    /** timer_get_uptime: any time from the last reading on. */
    method Uptime() returns (now: nat)
      modifies `uptime
      ensures old(uptime) <= now == uptime
    {
      var passed: int := *;
      if passed > 0 { uptime := uptime + passed; }
      now := uptime;
    }

    /** The block that holds byte 1024 of the device. */
    function MountBlock(): nat {
      if blockSize == SUPERBLOCK then 1 else 0
    }

    /** The superblock as parse_superblock reads it. */
    function MountBytes(): (s: seq<byte>)
      requires blockSize > 0 && blockSize % SUPERBLOCK == 0 && MountBlock() in device
               && |device[MountBlock()]| == blockSize
      reads this
      ensures |s| == SUPERBLOCK
    {
      var at := if blockSize == SUPERBLOCK then 0 else SUPERBLOCK;
      device[MountBlock()][at..at + SUPERBLOCK]
    }

    /** superblock_changed = 1. */
    method MarkSuperblock()
      requires Valid()
      modifies `superblockChanged
      ensures Valid() && Logical() == old(Logical()) && superblockChanged
    {
      superblockChanged := true;
    }

    /** The entry holding `block`, or the last unused entry, or neither. */
    method Find(block: nat) returns (hit: int, free: int)
      requires Valid()
      ensures -1 <= hit < |cache| && -1 <= free < |cache|
      ensures hit >= 0 ==> Caches(cache[hit], block)
      ensures hit < 0 ==> forall i :: 0 <= i < |cache| ==> !Caches(cache[i], block)
      ensures hit < 0 && free >= 0 ==> !cache[free].used
      ensures hit < 0 ==> forall i :: free < i < |cache| ==> cache[i].used
    {
      hit, free := -1, -1;
      for i := 0 to |cache|
        invariant -1 <= free < i && (free >= 0 ==> !cache[free].used)
        invariant forall k :: 0 <= k < i ==> !Caches(cache[k], block)
        invariant forall k :: free < k < i ==> cache[k].used
      {
        if !cache[i].used {
          free := i;
        } else if cache[i].block == block {
          return i, free;
        }
      }
    }

    /** The least recently used entry, the first of those if there are several. */
    method Oldest() returns (at: nat)
      requires Valid()
      ensures at < |cache|
      ensures forall k :: 0 <= k < |cache| && cache[k].lastUse < U32_END - 1 ==> cache[at].lastUse <= cache[k].lastUse
      ensures forall k :: 0 <= k < at ==> cache[at].lastUse < cache[k].lastUse
    {
      var least := U32_END - 1;
      at := 0;
      for i := 0 to |cache|
        invariant at < |cache| && least <= U32_END - 1
        invariant least < U32_END - 1 ==> cache[at].lastUse == least
        invariant forall k :: 0 <= k < i ==> least <= cache[k].lastUse || cache[k].lastUse >= U32_END - 1
        invariant least == U32_END - 1 ==> at == 0 && forall k :: 0 <= k < i ==> cache[k].lastUse >= U32_END - 1
        invariant forall k :: 0 <= k < at ==> least < cache[k].lastUse
      {
        if cache[i].lastUse < least {
          least := cache[i].lastUse;
          at := i;
        }
      }
    }

    /** Writes a dirty entry back and loads `block` into its place: nothing logical changes. */
    method Replace(at: nat, block: nat, now: nat)
      requires Valid() && at < |cache| && block in device
      requires forall i :: 0 <= i < |cache| ==> !Caches(cache[i], block)
      modifies `cache, `device
      ensures Valid() && device.Keys == old(device.Keys)
      ensures Logical() == old(Logical())
      ensures cache == old(cache)[at := Entry(true, now, block, cache[at].bytes, false)]
    {
      var c := cache[at];
      if c.used && c.dirty {
        device := device[c.block := c.bytes];
      }
      cache := cache[at := Entry(true, now, block, device[block], false)];
      ghost var was, dev := old(cache), old(device);
      forall b | b in device && b != 0 ensures Seen(cache, device, b) == Seen(was, dev, b) {
        if b == block {
          SeenHit(cache, device, at);
          assert Seen(was, dev, b) == dev[b];
        } else if c.used && b == c.block {
          SeenHit(was, dev, at);
          assert forall k :: 0 <= k < |cache| ==> !Caches(cache[k], b);
        } else {
          SeenElsewhere(was, dev, at, cache[at], device, b);
        }
      }
    }

    /** cached_read_block: the bytes a reader must see, whatever has to be evicted for them. Entry `at` holds the
        block afterwards, used just now. It is the one that held it before, or an unused one, or else the one
        whose last use is longest ago; no other entry changes. */
    method Read(block: nat, size: nat, offset: nat) returns (out: seq<byte>, ghost at: nat)
      requires Valid() && block in device && offset + size <= blockSize
      modifies `cache, `device, `uptime
      ensures Valid() && device.Keys == old(device.Keys)
      ensures Logical() == old(Logical())
      ensures |out| == size
      ensures block != 0 ==> out == Logical()[block][offset..offset + size]
      ensures at < |cache| == |old(cache)| && Caches(cache[at], block) && cache[at].lastUse == uptime >= old(uptime)
      ensures forall k :: 0 <= k < |cache| && k != at ==> cache[k] == old(cache)[k]
      ensures !Caches(old(cache)[at], block) ==>
                && (forall k :: 0 <= k < |cache| ==> !Caches(old(cache)[k], block))
                && (old(cache)[at].used ==>
                      forall k :: 0 <= k < |cache| ==>
                                    && old(cache)[k].used
                                    && (old(cache)[k].lastUse < U32_END - 1 ==>
                                          old(cache)[at].lastUse <= old(cache)[k].lastUse))
      decreases if exists i :: 0 <= i < |cache| && Caches(cache[i], block) then 0 else 1
    {
      var hit, free := Find(block);
      if hit >= 0 {
        SeenHit(cache, device, hit);
        var now := Uptime();
        Touch(hit, now);
        SeenHit(cache, device, hit);
        return cache[hit].bytes[offset..offset + size], hit;
      }
      if free < 0 { free := Oldest(); }
      var now := Uptime();
      Replace(free, block, now);
      out, at := Read(block, size, offset);
      assert at == free;
    }

    /** Only the time of last use changes. */
    method Touch(at: nat, now: nat)
      requires Valid() && at < |cache|
      modifies `cache
      ensures Valid() && Logical() == old(Logical())
      ensures cache == old(cache)[at := old(cache)[at].(lastUse := now)]
    {
      ghost var was := cache;
      cache := cache[at := cache[at].(lastUse := now)];
      forall b | b in device && b != 0 ensures Seen(cache, device, b) == Seen(was, device, b) {
        if Caches(was[at], b) {
          SeenHit(was, device, at);
          SeenHit(cache, device, at);
        } else {
          SeenElsewhere(was, device, at, cache[at], device, b);
        }
      }
    }

    /** ext2_write_block: exactly the given bytes of the block change. */
    method Write(block: nat, data: seq<byte>, offset: nat)
      requires Valid() && block in device && offset + |data| <= blockSize
      modifies `cache, `device
      ensures Valid() && device.Keys == old(device.Keys)
      ensures block != 0 ==> Logical() == old(Logical())[block := Splice(old(Logical())[block], offset, data)]
      ensures block == 0 ==> Logical() == old(Logical())
    {
      var hit, free := Find(block);
      if hit >= 0 {
        WriteHit(hit, data, offset);
      } else {
        WriteThrough(block, data, offset);
      }
    }

    method WriteHit(at: nat, data: seq<byte>, offset: nat)
      requires Valid() && at < |cache| && cache[at].used && offset + |data| <= blockSize
      modifies `cache
      ensures Valid()
      ensures var block := old(cache[at].block);
              Logical() == if block == 0 then old(Logical())
                           else old(Logical())[block := Splice(old(Logical())[block], offset, data)]
    {
      ghost var was := cache;
      cache := cache[at := cache[at].(bytes := Splice(cache[at].bytes, offset, data), dirty := true)];
      SeenHit(was, device, at);
      SeenHit(cache, device, at);
      forall b | b in device && b != 0 && b != was[at].block ensures Seen(cache, device, b) == Seen(was, device, b) {
        SeenElsewhere(was, device, at, cache[at], device, b);
      }
    }

    method WriteThrough(block: nat, data: seq<byte>, offset: nat)
      requires Valid() && block in device && offset + |data| <= blockSize
      requires forall i :: 0 <= i < |cache| ==> !Caches(cache[i], block)
      modifies `device
      ensures Valid() && device.Keys == old(device.Keys)
      ensures Logical() == if block == 0 then old(Logical())
                           else old(Logical())[block := Splice(old(Logical())[block], offset, data)]
    {
      device := device[block := Splice(device[block], offset, data)];
      assert forall i :: 0 <= i < |cache| ==> EntryOk(cache[i]);
    }

    /** Writes one dirty entry to the device and marks it clean. */
    method WriteBack(at: nat)
      requires Valid() && at < |cache| && cache[at].used
      modifies `cache, `device
      ensures Valid() && device.Keys == old(device.Keys)
      ensures Logical() == old(Logical())
      ensures cache == old(cache)[at := old(cache)[at].(dirty := false)]
      ensures device == old(device)[old(cache)[at].block := old(cache)[at].bytes]
    {
      ghost var was, dev := cache, device;
      device := device[cache[at].block := cache[at].bytes];
      cache := cache[at := cache[at].(dirty := false)];
      SeenHit(was, dev, at);
      SeenHit(cache, device, at);
      forall b | b in device && b != 0 && b != was[at].block ensures Seen(cache, device, b) == Seen(was, dev, b) {
        SeenElsewhere(was, dev, at, cache[at], device, b);
      }
    }

    method WriteSuperblock(superblock: seq<byte>)
      requires Valid() && 0 in device && |superblock| <= blockSize
      modifies `device, `superblockChanged
      ensures Valid() && device == old(device)[0 := Splice(old(device)[0], 0, superblock)]
      ensures Logical() == old(Logical()) && !superblockChanged
    {
      device := device[0 := Splice(device[0], 0, superblock)];
      superblockChanged := false;
      assert forall i :: 0 <= i < |cache| ==> EntryOk(cache[i]);
    }

    lemma SeenSized(b: nat)
      requires Valid() && b in Logical()
      ensures |Logical()[b]| == blockSize
    {
      if k :| 0 <= k < |cache| && Caches(cache[k], b) {
        assert EntryOk(cache[k]);
        SeenHit(cache, device, k);
      }
    }

    /** With no dirty entry left the device already holds what readers see. */
    lemma DeviceIsCurrent()
      requires Valid() && forall i :: 0 <= i < |cache| && cache[i].used ==> !cache[i].dirty
      ensures forall b :: b in device && b != 0 ==> device[b] == Logical()[b]
    {
      forall b | b in device && b != 0 ensures device[b] == Seen(cache, device, b) {
        if k :| 0 <= k < |cache| && Caches(cache[k], b) {
          assert EntryOk(cache[k]);
          SeenHit(cache, device, k);
        }
      }
    }

    /** The cache has something to write to this block. */
    predicate Pending(b: nat)
      reads this
    {
      exists i :: 0 <= i < |cache| && Caches(cache[i], b) && cache[i].dirty
    }

    /** ext2_flush_writes: afterwards the device holds everything. `superblock` is the in-memory copy. It goes to
        byte 0, and what a mount reads stays as it was. */
    method Flush(superblock: seq<byte>)
      requires Valid() && 0 in device && |superblock| <= blockSize
      modifies `cache, `device, `superblockChanged
      ensures Valid() && device.Keys == old(device.Keys)
      ensures Logical() == old(Logical())
      ensures forall b :: b in device && b != 0 ==> device[b] == Logical()[b]
      ensures forall i :: 0 <= i < |cache| && cache[i].used ==> !cache[i].dirty
      ensures old(superblockChanged) ==> superblock <= device[0]
      ensures |superblock| <= SUPERBLOCK && blockSize % SUPERBLOCK == 0 && MountBlock() in device ==>
                (!old(Pending(MountBlock())) ==> MountBytes() == old(MountBytes()))
      ensures !superblockChanged
    {
      for i := 0 to ENTRIES
        invariant Valid() && device.Keys == old(device.Keys) && Logical() == old(Logical())
        invariant superblockChanged == old(superblockChanged)
        invariant !old(Pending(MountBlock())) && MountBlock() in device ==>
                    !Pending(MountBlock()) && device[MountBlock()] == old(device)[MountBlock()]
        invariant forall k :: 0 <= k < i && cache[k].used ==> !cache[k].dirty
      {
        if cache[i].used && cache[i].dirty {
          ghost var was := cache;
          assert Caches(was[i], was[i].block);
          WriteBack(i);
          assert forall k :: 0 <= k < |cache| && cache[k].dirty ==> cache[k] == was[k];
        }
      }
      DeviceIsCurrent();
      if superblockChanged {
        WriteSuperblock(superblock);
      }
    }
  }

  /** A changed superblock is flushed, and the next mount reads the old one. */
  method MountReadsOld(superblock: seq<byte>) returns (flushed: seq<byte>, read: seq<byte>)
    requires |superblock| == SUPERBLOCK
    ensures flushed == superblock && read == Zeros(SUPERBLOCK)
  {
    var cache := new BlockCache(4 * SUPERBLOCK, map[0 := Zeros(4 * SUPERBLOCK)]);
    assert !cache.Pending(0);
    cache.MarkSuperblock();
    ghost var before := cache.MountBytes();
    assert before == Zeros(SUPERBLOCK);
    cache.Flush(superblock);
    flushed, read := cache.device[0][..SUPERBLOCK], cache.MountBytes();
  }
}
