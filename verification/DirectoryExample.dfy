/** Directories on which ext2_unlink and ext2_create_entry do something else than their names say. */
module DirectoryExample {
  import opened Bytes
  import opened Division
  import opened Directory

  const DOT: seq<byte> := [0x2E]
  const A: seq<byte> := [0x61]
  const B: seq<byte> := [0x62]

  /** A record with a name of one byte. */
  function Entry(inode: nat, name: seq<byte>, size: nat): (r: Record)
    requires |name| <= 1 && 12 <= size < U16_END && inode < U32_END
    ensures r.Ok() && r.Size() == size
  {
    Record(inode, 1, name, Zeros(size - HEADER - |name|))
  }

  /** ".", "a" and "b", the last two for inode 7. */
  const LINKED: seq<Record> := [Entry(5, DOT, 12), Entry(7, A, 12), Entry(7, B, 1000)]

  /** Unlinking "b" takes "a" out and leaves "b". */
  lemma LinkTaken()
    ensures AllOk(LINKED) && DistinctNames(Visible(LINKED)) && Lookup(Visible(LINKED), B) == 7
            && FindInode(LINKED, 7) == 1
    ensures Lookup(Visible(Removed(LINKED, 0)), B) == 7 && Lookup(Visible(Removed(LINKED, 0)), A) == 0
  {
    hide Removed, Find, FindInode, Visible;
    VisibleIs(LINKED, 3);
    FindIs(LINKED, A, 1);
    FindIs(LINKED, B, 2);
    FindInodeIs(LINKED, 7, 1);
    RemovedLookup(LINKED, 0, A);
    RemovedLookup(LINKED, 0, B);
  }

  /** Two blocks of 1024 bytes, one record each. */
  const TWO_BLOCKS: seq<Record> := [Entry(5, DOT, 1024), Entry(7, A, 1024)]

  /** Unlinking "a" makes one record of both blocks. */
  lemma MergeCrosses()
    ensures AllOk(TWO_BLOCKS) && Blocked(TWO_BLOCKS, 1024)
    ensures AllOk(Removed(TWO_BLOCKS, 0)) && !Blocked(Removed(TWO_BLOCKS, 0), 1024)
  {
    var q := TWO_BLOCKS;
    DivModUnique(0, 1024, 0);
    DivModUnique(0, 1024, 1023);
    DivModUnique(1, 1024, 0);
    DivModUnique(1, 1024, 1023);
    assert Start(q, 0) == 0 && Start(q, 1) == 1024;
    RemovedBlocked(q, 0, 1024);
  }

  /** "." and a record that is not in use, as other implementations leave them. */
  const UNUSED: seq<Record> := [Entry(5, DOT, 12), Entry(0, [], 1012)]

  /** A new entry goes behind the unused record, where no lookup comes. */
  lemma EntryHidden(q': seq<Record>)
    requires q' == Added(UNUSED, 1, 9, 1, A, 1024)
    ensures AllOk(UNUSED) && EntryAdded(UNUSED, q', 1, 9, 1, A, 1024)
    ensures q'[2].inode == 9 && q'[2].name == A && Lookup(Visible(q'), A) == 0
  {
    assert Start(UNUSED, 1) == 12;
    DivModUnique(0, 1024, 12);
    assert !Fits(UNUSED, 0, 12, 1024) && Fits(UNUSED, 1, 12, 1024);
    VisibleIs(UNUSED, 1);
    FindIs(Visible(UNUSED), A, 1);
    EntryAddedLookup(UNUSED, q', 1, 9, 1, A, 1024, A);
  }

  /** Two long records, as merges across blocks make them. */
  const LONG: seq<Record> := [Entry(5, DOT, 40000), Entry(7, A, 30000)]

  /** Unlinking "a" wraps the size and the directory is no chain of records any more. */
  lemma SizeWraps(t: seq<byte>)
    requires AllOk(LONG) && MergeWritten(Encode(LONG), LONG, 0, t)
    ensures Holds(Encode(LONG), LONG) && FindInode(LONG, 7) == 1 && !Tiled(t, 0)
  {
    hide MergeWritten, FindInode, Tiled, Decode, Encode;
    DecodeEncode([], LONG);
    assert [] + Encode(LONG) == Encode(LONG);
    FindInodeIs(LONG, 7, 1);
    WrapBreaks(Encode(LONG), LONG, 0, t);
  }
}
