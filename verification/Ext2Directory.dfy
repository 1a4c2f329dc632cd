/** The directory operations of kernel/fs/ext2.c on the file system itself. */
module Ext2Directory {
  import opened Bytes
  import opened Division
  import opened BlockCaches
  import opened Ext2Layout
  import opened Ext2Map
  import opened Ext2Alloc
  import opened Ext2File
  import opened Ext2Write
  import opened Ext2Fs
  import opened OpenInodes
  import Dir = Directory

  const EXT2_ROOT_INODE: nat := 2

  datatype UnlinkError = None | NoEntry | NotPermitted

  /** Inode n is a well-formed file that holds a directory. */
  ghost predicate DirectoryOk(d: Disk, g: Geometry, owner: Owners, n: nat) {
    FileOk(d, g, owner, n) && Dir.Tiled(Contents(d, g, n), 0)
  }

  /** Its records. */
  ghost function Records(d: Disk, g: Geometry, owner: Owners, n: nat): seq<Dir.Record>
    requires DirectoryOk(d, g, owner, n)
  {
    Dir.Decode(Contents(d, g, n), 0)
  }

  /** Writing inside a file needs no new blocks. */
  lemma RoomInside(d: Disk, g: Geometry, owner: Owners, n: nat, end: nat)
    requires LayoutOk(d, g, owner) && FileOk(d, g, owner, n) && end <= |Contents(d, g, n)|
    ensures RoomFor(d, g, n, end)
  {
    hide LayoutOk, Header, Size, Sectors, BlocksRequired, MaxBlocks, Free, BlockOf;
    var h := Header(d, g, n);
    ContentsSize(d, g, n);
    SectorsRoom(g, h);
  }

  lemma SectorsRoom(g: Geometry, h: seq<byte>)
    requires GeometryOk(g) && |h| >= INODE_T
    ensures 0 <= BlocksUsed(g, h) * (g.blockSize / SECTOR_SIZE) < U32_END
  {
    var m := g.blockSize / SECTOR_SIZE;
    DivMod(Sectors(h), m);
    MulLe(0, Div(Sectors(h), m), m);
  }

  lemma OthersTwice(d: Disk, d1: Disk, d2: Disk, g: Geometry, o: Owners, o1: Owners, o2: Owners, n: nat)
    requires OthersSame(d, d1, g, o, o1, n) && OthersSame(d1, d2, g, o1, o2, n)
    ensures OthersSame(d, d2, g, o, o2, n)
  {
    hide Header, FileOk, Contents;
    forall m | InodeNumber(g, m) && m != n
      ensures Header(d2, g, m) == Header(d, g, m)
      ensures FileOk(d, g, o, m) ==> FileOk(d2, g, o2, m) && Contents(d2, g, m) == Contents(d, g, m)
    {
      assert Header(d1, g, m) == Header(d, g, m);
    }
  }

  /** A write inside the file, and one at its end. */
  lemma WrittenInside(c: seq<byte>, c': seq<byte>, offset: nat, data: seq<byte>)
    requires WrittenAt(c, c', offset, data) && offset <= |c|
    ensures offset + |data| <= |c| ==> c' == Splice(c, offset, data)
    ensures offset == |c| ==> c' == c + data
  {
    forall k | offset <= k < offset + |data| ensures c'[k] == data[k - offset] {
      assert c'[offset..offset + |data|][k - offset] == data[k - offset];
    }
  }

  /** read_inode of a whole file: its size first, then its bytes. */
  method ReadWhole(fs: Ext2, n: nat) returns (data: seq<byte>)
    requires fs.Ready() && FileOk(fs.Blocks(), fs.geo, fs.owner, n)
    requires LastOk(fs.Blocks(), fs.geo, fs.lastRead, fs.lastInode)
    modifies fs`lastRead, fs`lastInode, fs.cache
    ensures fs.Ready() && fs.Blocks() == old(fs.Blocks())
    ensures LastOk(fs.Blocks(), fs.geo, fs.lastRead, fs.lastInode)
    ensures data == Contents(fs.Blocks(), fs.geo, n)
  {
    hide LayoutOk, CountersOk, FileOk, Contents, Readable, LastOk, Header, BlockCache.Valid, BlockCache.Logical,
      GeometryOk;
    FileNumber(fs.Blocks(), fs.geo, fs.owner, n);
    FileReadable(fs.Blocks(), fs.geo, fs.owner, n);
    ContentsSize(fs.Blocks(), fs.geo, n);
    var none, size := fs.ReadInode(n, 0, 0);
    var fsize;
    data, fsize := fs.ReadInode(n, size, 0);
    assert data == Contents(fs.Blocks(), fs.geo, n)[0..size];
  }

  /** ext2_get_inode_in_directory: what the name is bound to, 0 if nothing; the empty name is the directory. */
  method GetInodeInDirectory(fs: Ext2, dir: nat, name: seq<byte>) returns (inode: nat)
    requires fs.Ready() && DirectoryOk(fs.Blocks(), fs.geo, fs.owner, dir)
    requires LastOk(fs.Blocks(), fs.geo, fs.lastRead, fs.lastInode)
    modifies fs`lastRead, fs`lastInode, fs.cache
    ensures fs.Ready() && fs.Blocks() == old(fs.Blocks())
    ensures LastOk(fs.Blocks(), fs.geo, fs.lastRead, fs.lastInode)
    ensures inode == if name == [] then dir
                     else Dir.Lookup(Dir.Visible(Records(fs.Blocks(), fs.geo, fs.owner, dir)), name)
  {
    hide LayoutOk, CountersOk, FileOk, Contents, LastOk, BlockCache.Valid, BlockCache.Logical, GeometryOk, Dir.Tiled,
      Dir.Decode, Dir.Lookup, Dir.Visible;
    if name == [] { return dir; }
    FileNumber(fs.Blocks(), fs.geo, fs.owner, dir);
    var data := ReadWhole(fs, dir);
    inode := Dir.Search(data, name);
  }

  /** One write_inode into a directory, at a place inside or at the end of the file. */
  method WriteDirectory(fs: Ext2, dir: nat, data: seq<byte>, offset: nat, superblock: seq<byte>)
    requires fs.Ready() && FileOk(fs.Blocks(), fs.geo, fs.owner, dir)
    requires LastOk(fs.Blocks(), fs.geo, fs.lastRead, fs.lastInode) && |superblock| <= fs.geo.blockSize
    requires var size := |Contents(fs.Blocks(), fs.geo, dir)|;
             offset + |data| <= size || (offset == size && RoomFor(fs.Blocks(), fs.geo, dir, size + |data|))
    modifies fs, fs.cache
    ensures fs.Ready() && FileOk(fs.Blocks(), fs.geo, fs.owner, dir)
    ensures LastOk(fs.Blocks(), fs.geo, fs.lastRead, fs.lastInode)
    ensures OthersSame(old(fs.Blocks()), fs.Blocks(), fs.geo, old(fs.owner), fs.owner, dir)
    ensures
      var c := old(Contents(fs.Blocks(), fs.geo, dir));
      Contents(fs.Blocks(), fs.geo, dir) == if offset + |data| <= |c| then Splice(c, offset, data) else c + data
  {
    hide LayoutOk, CountersOk, FileOk, Contents, LastOk, RoomFor, OthersSame, WrittenAt, BlockCache.Valid,
      BlockCache.Logical, GeometryOk;
    FileNumber(fs.Blocks(), fs.geo, fs.owner, dir);
    ghost var c := Contents(fs.Blocks(), fs.geo, dir);
    if offset + |data| <= |c| { RoomInside(fs.Blocks(), fs.geo, fs.owner, dir, offset + |data|); }
    var written := fs.WriteInode(dir, data, offset, false, superblock);
    WrittenInside(c, Contents(fs.Blocks(), fs.geo, dir), offset, data);
  }

  /** The two writes of ext2_create_entry into a record with room. */
  method SplitRecord(fs: Ext2, dir: nat, header: seq<byte>, offset: nat, record: seq<byte>, offset': nat,
          superblock: seq<byte>)
    requires fs.Ready() && FileOk(fs.Blocks(), fs.geo, fs.owner, dir)
    requires LastOk(fs.Blocks(), fs.geo, fs.lastRead, fs.lastInode) && |superblock| <= fs.geo.blockSize
    requires var size := |Contents(fs.Blocks(), fs.geo, dir)|; offset + |header| <= size && offset' + |record| <= size
    modifies fs, fs.cache
    ensures fs.Ready() && FileOk(fs.Blocks(), fs.geo, fs.owner, dir)
    ensures LastOk(fs.Blocks(), fs.geo, fs.lastRead, fs.lastInode)
    ensures OthersSame(old(fs.Blocks()), fs.Blocks(), fs.geo, old(fs.owner), fs.owner, dir)
    ensures Contents(fs.Blocks(), fs.geo, dir)
            == Splice(Splice(old(Contents(fs.Blocks(), fs.geo, dir)), offset, header), offset', record)
  {
    hide LayoutOk, CountersOk, FileOk, Contents, LastOk, RoomFor, OthersSame, BlockCache.Valid, BlockCache.Logical,
      GeometryOk, Splice;
    ghost var d, roles := fs.Blocks(), fs.owner;
    WriteDirectory(fs, dir, header, offset, superblock);
    ghost var d1, roles1 := fs.Blocks(), fs.owner;
    WriteDirectory(fs, dir, record, offset', superblock);
    OthersTwice(d, d1, fs.Blocks(), fs.geo, roles, roles1, fs.owner, dir);
  }

  /** The directory with its new record, as bytes and as records. */
  lemma NowRecords(d: Disk, g: Geometry, owner: Owners, n: nat, q: seq<Dir.Record>)
    requires FileOk(d, g, owner, n) && Dir.AllOk(q) && Contents(d, g, n) == Dir.Encode(q)
    ensures DirectoryOk(d, g, owner, n) && Records(d, g, owner, n) == q
  {
    hide FileOk, Contents, Dir.Encode, Dir.Tiled, Dir.Decode;
    Dir.DecodeEncode([], q);
    assert [] + Dir.Encode(q) == Dir.Encode(q);
  }

  /** No record has room for `need` bytes, so that ext2_create_entry must append a block. */
  ghost predicate MustAppend(q: seq<Dir.Record>, need: nat, block: nat)
    requires block > 0
  {
    forall k :: 0 <= k < |q| ==> !Dir.Fits(q, k, need, block)
  }

  lemma NoFit(q: seq<Dir.Record>, k: nat, need: nat, block: nat)
    requires block > 0 && Dir.FirstFit(q, k, need, block) && k >= |q|
    ensures MustAppend(q, need, block)
  {
  }

  lemma BlockAtLeast(g: Geometry)
    requires GeometryOk(g)
    ensures g.blockSize >= 1024
  {
  }

  /** The writes of ext2_create_entry, once it has its place. */
  method PutRecord(fs: Ext2, dir: nat, data: seq<byte>, found: bool, offset: nat, padding: nat, inode: nat, kind: byte,
          name: seq<byte>, superblock: seq<byte>,
                   ghost q: seq<Dir.Record>, ghost q': seq<Dir.Record>, ghost k: nat)
    requires fs.Ready() && FileOk(fs.Blocks(), fs.geo, fs.owner, dir) && data == Contents(fs.Blocks(), fs.geo, dir)
    requires LastOk(fs.Blocks(), fs.geo, fs.lastRead, fs.lastInode) && |superblock| <= fs.geo.blockSize
    requires Dir.Tiled(data, 0) && q == Dir.Decode(data, 0)
             && Dir.EntryWritten(q, q', k, inode, kind, name, fs.geo.blockSize)
    requires found == (k < |q|) && offset == Dir.Start(q, k)
    requires padding == if found then q[k].Size() - Dir.Real(|q[k].name|) else fs.geo.blockSize
    requires !found ==> RoomFor(fs.Blocks(), fs.geo, dir, |data| + fs.geo.blockSize)
    modifies fs, fs.cache
    ensures fs.Ready() && FileOk(fs.Blocks(), fs.geo, fs.owner, dir)
    ensures LastOk(fs.Blocks(), fs.geo, fs.lastRead, fs.lastInode)
    ensures OthersSame(old(fs.Blocks()), fs.Blocks(), fs.geo, old(fs.owner), fs.owner, dir)
    ensures Dir.AllOk(q') && Contents(fs.Blocks(), fs.geo, dir) == Dir.Encode(q')
  {
    hide LayoutOk, CountersOk, FileOk, Contents, LastOk, RoomFor, OthersSame, BlockCache.Valid, BlockCache.Logical,
      GeometryOk, Dir.Tiled, Dir.Decode, Dir.Encode, Dir.AllOk, Dir.NewBytes, Dir.HeaderBytes, Dir.Real, Dir.Start,
      Splice, U16, U32;
    FileNumber(fs.Blocks(), fs.geo, fs.owner, dir);
    Dir.SeenAll(data, q);
    if found {
      Dir.Seen(data, q, k);
      var used := Dir.Real(data[offset + 6]);
      SplitRecord(fs, dir, Dir.HeaderBytes(U32(data, offset), used, data[offset + 6], data[offset + 7]), offset,
                  Dir.NewBytes(inode, kind, name, padding), offset + used, superblock);
    } else {
      WriteDirectory(fs, dir, Dir.NewBytes(inode, kind, name, padding), offset, superblock);
    }
  }

  /** ext2_create_entry: splits the first record with room, or appends a block, which must fit a record's
      16-bit size. The directory gains one record and keeps the others. `name` are the bytes that
      name_length, of 8 bits, counts. */
  method CreateEntry(fs: Ext2, dir: nat, inode: nat, kind: byte, name: seq<byte>, superblock: seq<byte>)
    returns (ghost k: nat)
    requires fs.Ready() && DirectoryOk(fs.Blocks(), fs.geo, fs.owner, dir)
    requires LastOk(fs.Blocks(), fs.geo, fs.lastRead, fs.lastInode) && |superblock| <= fs.geo.blockSize
    requires 0 < inode < U32_END && |name| < 256 && GeometryOk(fs.geo)
    requires MustAppend(Records(fs.Blocks(), fs.geo, fs.owner, dir), Dir.Real(|name|), fs.geo.blockSize) ==>
               && fs.geo.blockSize < U16_END
               && RoomFor(fs.Blocks(), fs.geo, dir, |Contents(fs.Blocks(), fs.geo, dir)| + fs.geo.blockSize)
    modifies fs, fs.cache
    ensures fs.Ready() && DirectoryOk(fs.Blocks(), fs.geo, fs.owner, dir)
    ensures LastOk(fs.Blocks(), fs.geo, fs.lastRead, fs.lastInode)
    ensures OthersSame(old(fs.Blocks()), fs.Blocks(), fs.geo, old(fs.owner), fs.owner, dir)
    ensures
      var q, q' := old(Records(fs.Blocks(), fs.geo, fs.owner, dir)), Records(fs.Blocks(), fs.geo, fs.owner, dir);
      var at := if k < |q| then k + 1 else |q|;
      && Dir.EntryAdded(q, q', k, inode, kind, name, fs.geo.blockSize) && Dir.OneMore(q, q', at)
      && Dir.RecordSays(Contents(fs.Blocks(), fs.geo, dir), q', at, inode, kind, name)
  {
    hide LayoutOk, CountersOk, FileOk, Contents, LastOk, RoomFor, OthersSame, BlockCache.Valid, BlockCache.Logical,
      GeometryOk, Dir.Tiled, Dir.Decode, Dir.Encode, Dir.EntryAdded, Dir.OneMore, Dir.RecordSays, Dir.EntryWritten,
          Dir.FirstFit, MustAppend,
      Dir.AllOk, Dir.Real, Dir.Start, Splice;
    BlockAtLeast(fs.geo);
    FileNumber(fs.Blocks(), fs.geo, fs.owner, dir);
    ghost var q := Records(fs.Blocks(), fs.geo, fs.owner, dir);
    var data := ReadWhole(fs, dir);
    var found, offset, padding;
    found, offset, padding, k := Dir.FindFreePosition(data, Dir.Real(|name|), fs.geo.blockSize);
    if !found { NoFit(q, k, Dir.Real(|name|), fs.geo.blockSize); }
    ghost var q' := Dir.EntryAddedBytes(q, k, inode, kind, name, fs.geo.blockSize);
    PutRecord(fs, dir, data, found, offset, padding, inode, kind, name, superblock, q, q', k);
    NowRecords(fs.Blocks(), fs.geo, fs.owner, dir, q');
    Dir.EntryAddedRecord(Contents(fs.Blocks(), fs.geo, dir), q, q', k, inode, kind, name, fs.geo.blockSize);
  }

  /** What is left of a name in the 8-bit name_length of a record. */
  function Stored(name: seq<byte>): (r: seq<byte>)
    ensures |r| == |name| % 256 && r <= name && (r == name <==> |name| < 256)
  {
    name[..|name| % 256]
  }

  /** The entry ext2_create_file and ext2_create_directory make: the length of the name goes into 8 bits. */
  method EnterName(fs: Ext2, dir: nat, inode: nat, kind: byte, name: seq<byte>, superblock: seq<byte>)
    returns (ghost k: nat)
    requires fs.Ready() && DirectoryOk(fs.Blocks(), fs.geo, fs.owner, dir)
    requires LastOk(fs.Blocks(), fs.geo, fs.lastRead, fs.lastInode) && |superblock| <= fs.geo.blockSize
    requires 0 < inode < U32_END && GeometryOk(fs.geo)
    requires MustAppend(Records(fs.Blocks(), fs.geo, fs.owner, dir), Dir.Real(|Stored(name)|), fs.geo.blockSize) ==>
               && fs.geo.blockSize < U16_END
               && RoomFor(fs.Blocks(), fs.geo, dir, |Contents(fs.Blocks(), fs.geo, dir)| + fs.geo.blockSize)
    modifies fs, fs.cache
    ensures fs.Ready() && DirectoryOk(fs.Blocks(), fs.geo, fs.owner, dir)
    ensures LastOk(fs.Blocks(), fs.geo, fs.lastRead, fs.lastInode)
    ensures OthersSame(old(fs.Blocks()), fs.Blocks(), fs.geo, old(fs.owner), fs.owner, dir)
    ensures
      var q, q' := old(Records(fs.Blocks(), fs.geo, fs.owner, dir)), Records(fs.Blocks(), fs.geo, fs.owner, dir);
      var at := if k < |q| then k + 1 else |q|;
      && Dir.EntryAdded(q, q', k, inode, kind, Stored(name), fs.geo.blockSize) && Dir.OneMore(q, q', at)
      && Dir.RecordSays(Contents(fs.Blocks(), fs.geo, dir), q', at, inode, kind, Stored(name))
  {
    k := CreateEntry(fs, dir, inode, kind, Stored(name), superblock);
  }

  /** A free name is bound by it if and only if it is shorter than 256 bytes and a lookup comes that far. */
  lemma NameEntered(q: seq<Dir.Record>, q': seq<Dir.Record>, k: nat, inode: nat, kind: byte, name: seq<byte>,
          block: nat)
    requires Dir.EntryAdded(q, q', k, inode, kind, Stored(name), block) && inode > 0
    requires Dir.Find(Dir.Visible(q), name) == |Dir.Visible(q)|
             && Dir.Find(Dir.Visible(q), Stored(name)) == |Dir.Visible(q)|
    ensures Dir.Lookup(Dir.Visible(q'), name) == inode <==> |name| < 256 && Dir.Reached(q, k)
  {
    hide Dir.Find, Dir.Visible, Dir.Reached, Dir.EntryAdded;
    Dir.EntryAddedLookup(q, q', k, inode, kind, Stored(name), block, name);
  }

  /** The middle of ext2_unlink: takes the first record for the inode out of the directory, unless it is
      the first record of all. The directory is the one without that record if and only if the record
      before it can hold both sizes. */
  method TakeRecord(fs: Ext2, dir: nat, inode: nat, superblock: seq<byte>) returns (ok: bool)
    requires fs.Ready() && DirectoryOk(fs.Blocks(), fs.geo, fs.owner, dir)
    requires LastOk(fs.Blocks(), fs.geo, fs.lastRead, fs.lastInode) && |superblock| <= fs.geo.blockSize
    requires Records(fs.Blocks(), fs.geo, fs.owner, dir) != []
    modifies fs, fs.cache
    ensures fs.Ready() && FileOk(fs.Blocks(), fs.geo, fs.owner, dir)
    ensures LastOk(fs.Blocks(), fs.geo, fs.lastRead, fs.lastInode)
    ensures OthersSame(old(fs.Blocks()), fs.Blocks(), fs.geo, old(fs.owner), fs.owner, dir)
    ensures
      var q := old(Records(fs.Blocks(), fs.geo, fs.owner, dir));
      var k := Dir.FindInode(q, inode);
      && ok == (0 < k < |q|)
      && (ok ==> Dir.TakenOut(old(Contents(fs.Blocks(), fs.geo, dir)), q, k - 1, Contents(fs.Blocks(), fs.geo, dir)))
      && (!ok ==> fs.Blocks() == old(fs.Blocks()) && fs.owner == old(fs.owner))
  {
    hide LayoutOk, CountersOk, FileOk, Contents, LastOk, RoomFor, OthersSame, BlockCache.Valid, BlockCache.Logical,
      GeometryOk, Dir.Tiled, Dir.Decode, Dir.Encode, Dir.TakenOut, Dir.FindInode, Splice, Dir.Start, Dir.Record.Ok,
      Dir.Record.Size;
    FileNumber(fs.Blocks(), fs.geo, fs.owner, dir);
    ghost var q := Records(fs.Blocks(), fs.geo, fs.owner, dir);
    OthersNone(fs.Blocks(), fs.geo, fs.owner, dir);
    var data := ReadWhole(fs, dir);
    NotEmpty(data, q);
    var r := Dir.RemoveRecord(data, inode);
    if r == Dir.NotFound { return false; }
    MergeLength(data, q, Dir.FindInode(q, inode) - 1, r.bytes);
    WriteDirectory(fs, dir, r.bytes, 0, superblock);
    SpliceWhole(data, r.bytes);
    return true;
  }

  lemma MergeLength(s: seq<byte>, q: seq<Dir.Record>, k: nat, t: seq<byte>)
    requires k + 1 < |q| && Dir.TakenOut(s, q, k, t)
    ensures |t| == |s|
  {
    hide Dir.MergeAt, Dir.Holds;
  }

  lemma NotEmpty(s: seq<byte>, q: seq<Dir.Record>)
    requires Dir.Tiled(s, 0) && q == Dir.Decode(s, 0) && q != []
    ensures s != []
  {
    Dir.Seen(s, q, 0);
  }

  /** The rest of ext2_unlink, once the inode is known. */
  method UnlinkInode(fs: Ext2, files: OpenList, dir: nat, inode: nat, superblock: seq<byte>) returns (ok: bool)
    requires fs.Ready() && DirectoryOk(fs.Blocks(), fs.geo, fs.owner, dir) && files.Valid()
    requires LastOk(fs.Blocks(), fs.geo, fs.lastRead, fs.lastInode) && |superblock| <= fs.geo.blockSize
    requires Records(fs.Blocks(), fs.geo, fs.owner, dir) != []
    modifies fs, fs.cache, files, files.list
    ensures fs.Ready() && FileOk(fs.Blocks(), fs.geo, fs.owner, dir) && files.Valid()
    ensures LastOk(fs.Blocks(), fs.geo, fs.lastRead, fs.lastInode)
    ensures OthersSame(old(fs.Blocks()), fs.Blocks(), fs.geo, old(fs.owner), fs.owner, dir)
    ensures
      var q := old(Records(fs.Blocks(), fs.geo, fs.owner, dir));
      var k := Dir.FindInode(q, inode);
      && ok == (0 < k < |q|)
      && (ok ==>
            && Dir.TakenOut(old(Contents(fs.Blocks(), fs.geo, dir)), q, k - 1, Contents(fs.Blocks(), fs.geo, dir))
            && files.View() == Unlinked(old(files.View()), inode)
            && files.removals == old(files.removals) + if UnlinkRemoves(old(files.View()), inode) then [inode] else [])
      && (!ok ==>
            && fs.Blocks() == old(fs.Blocks()) && fs.owner == old(fs.owner)
            && files.View() == old(files.View()) && files.removals == old(files.removals))
  {
    hide LayoutOk, CountersOk, FileOk, Contents, LastOk, RoomFor, OthersSame, BlockCache.Valid, BlockCache.Logical,
      GeometryOk, Dir.Tiled, Dir.Decode, Dir.TakenOut, Dir.FindInode, Splice, OpenList.Valid, OpenList.View,
      Unlinked, UnlinkRemoves;
    ok := TakeRecord(fs, dir, inode, superblock);
    if !ok { return; }
    files.RemovePossiblyOpenInode(inode);
    fs.cache.Flush(superblock);
  }

  /** ext2_unlink, its path taken apart: looks the name up, takes out the first record for its inode and
      leaves the inode to the list of open inodes. */
  method Unlink(fs: Ext2, files: OpenList, dir: nat, name: seq<byte>, superblock: seq<byte>)
    returns (error: UnlinkError)
    requires fs.Ready() && DirectoryOk(fs.Blocks(), fs.geo, fs.owner, dir) && name != [] && files.Valid()
    requires LastOk(fs.Blocks(), fs.geo, fs.lastRead, fs.lastInode) && |superblock| <= fs.geo.blockSize
    modifies fs, fs.cache, files, files.list
    ensures fs.Ready() && FileOk(fs.Blocks(), fs.geo, fs.owner, dir) && files.Valid()
    ensures LastOk(fs.Blocks(), fs.geo, fs.lastRead, fs.lastInode)
    ensures OthersSame(old(fs.Blocks()), fs.Blocks(), fs.geo, old(fs.owner), fs.owner, dir)
    ensures
      var q := old(Records(fs.Blocks(), fs.geo, fs.owner, dir));
      var inode := Dir.Lookup(Dir.Visible(q), name);
      var k := Dir.FindInode(q, inode);
      && error == (if inode == 0 then NoEntry
                   else if inode == 2 then NotPermitted
                   else if k == 0 then NoEntry else None)
      && (error == None ==>
            && 0 < k < |q|
            && Dir.TakenOut(old(Contents(fs.Blocks(), fs.geo, dir)), q, k - 1, Contents(fs.Blocks(), fs.geo, dir))
            && files.View() == Unlinked(old(files.View()), inode)
            && files.removals == old(files.removals) + if UnlinkRemoves(old(files.View()), inode) then [inode] else [])
      && (error != None ==>
            && fs.Blocks() == old(fs.Blocks()) && fs.owner == old(fs.owner)
            && files.View() == old(files.View()) && files.removals == old(files.removals))
  {
    hide LayoutOk, CountersOk, FileOk, Contents, LastOk, RoomFor, OthersSame, BlockCache.Valid, BlockCache.Logical,
      GeometryOk, Dir.Tiled, Dir.Decode, Dir.Encode, Dir.TakenOut, Dir.Visible, Dir.Find, Dir.Lookup, Dir.FindInode,
      Splice, OpenList.Valid, OpenList.View, Unlinked, UnlinkRemoves;
    FileNumber(fs.Blocks(), fs.geo, fs.owner, dir);
    ghost var d, roles, q := fs.Blocks(), fs.owner, Records(fs.Blocks(), fs.geo, fs.owner, dir);
    FoundInode(q, name);
    OthersNone(d, fs.geo, roles, dir);
    var inode := GetInodeInDirectory(fs, dir, name);
    if inode == 0 { return NoEntry; }
    if inode == EXT2_ROOT_INODE { return NotPermitted; }
    var ok := UnlinkInode(fs, files, dir, inode, superblock);
    return if ok then None else NoEntry;
  }

  lemma SpliceWhole(s: seq<byte>, t: seq<byte>)
    requires |s| == |t|
    ensures Splice(s, 0, t) == t
  {
  }

  lemma OthersNone(d: Disk, g: Geometry, owner: Owners, n: nat)
    requires GeometryOk(g)
    ensures OthersSame(d, d, g, owner, owner, n)
  {
  }

  /** A bound name has a record, and so has its inode. */
  lemma FoundInode(q: seq<Dir.Record>, name: seq<byte>)
    ensures var inode := Dir.Lookup(Dir.Visible(q), name); inode != 0 ==> Dir.FindInode(q, inode) < |q|
  {
  }
}
