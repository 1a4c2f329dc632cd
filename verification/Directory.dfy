/** Directory files of kernel/fs/ext2.c: a chain of records whose sizes tile the file, read as a
    list of names bound to inodes. */
module Directory {
  import opened Bytes
  import opened Division

  /** sizeof(direntry_header_t). */
  const HEADER: nat := 8

  /** The bytes of a header and a name of length n, rounded up to 4. */
  function Real(n: nat): (r: nat)
    ensures r % 4 == 0 && HEADER + n <= r < HEADER + n + 4
  {
    if (HEADER + n) % 4 == 0 then HEADER + n else HEADER + n + (4 - (HEADER + n) % 4)
  }

  /** A directory record; `tail` are the bytes between the name and the next record. */
  datatype Record = Record(inode: nat, kind: byte, name: seq<byte>, tail: seq<byte>) {
    function Size(): nat {
      HEADER + |name| + |tail|
    }

    predicate Ok() {
      inode < U32_END && |name| < 256 && Real(|name|) <= Size() < U16_END
    }
  }

  predicate AllOk(q: seq<Record>) {
    forall k :: 0 <= k < |q| ==> q[k].Ok()
  }

  /** direntry_header_t in memory. */
  function HeaderBytes(inode: nat, size: nat, nameLength: byte, kind: byte): (s: seq<byte>)
    requires inode < U32_END && size < U16_END
    ensures |s| == HEADER && U32(s, 0) == inode && U16(s, 4) == size && s[6] == nameLength && s[7] == kind
  {
    FromU32(inode) + FromU16(size) + [nameLength, kind]
  }

  function RecordBytes(r: Record): (s: seq<byte>)
    requires r.Ok()
    ensures |s| == r.Size()
  {
    HeaderBytes(r.inode, r.Size(), |r.name|, r.kind) + r.name + r.tail
  }

  /** The directory file that holds these records. */
  function Encode(q: seq<Record>): seq<byte>
    requires AllOk(q)
  {
    if q == [] then [] else RecordBytes(q[0]) + Encode(q[1..])
  }

  /** Where record k starts. */
  function Start(q: seq<Record>, k: nat): nat
    requires k <= |q|
  {
    if k == 0 then 0 else Start(q, k - 1) + q[k - 1].Size()
  }

  // Reading records out of bytes.

  predicate RecordAt(s: seq<byte>, p: nat) {
    && p + HEADER <= |s| && Real(s[p + 6]) <= U16(s, p + 4) && p + U16(s, p + 4) <= |s|
  }

  /** From p on, the records tile s exactly. */
  predicate Tiled(s: seq<byte>, p: nat)
    decreases |s| - p
  {
    p == |s| || (RecordAt(s, p) && Tiled(s, p + U16(s, p + 4)))
  }

  function ReadRecord(s: seq<byte>, p: nat): (r: Record)
    requires RecordAt(s, p)
    ensures r.Ok() && r.Size() == U16(s, p + 4)
  {
    var n: nat := s[p + 6];
    Record(U32(s, p), s[p + 7], s[p + HEADER..p + HEADER + n], s[p + HEADER + n..p + U16(s, p + 4)])
  }

  function Decode(s: seq<byte>, p: nat): (q: seq<Record>)
    requires Tiled(s, p)
    ensures AllOk(q)
    decreases |s| - p
  {
    if p == |s| then [] else [ReadRecord(s, p)] + Decode(s, p + U16(s, p + 4))
  }

  /** The fields of a record's bytes, wherever they stand. */
  lemma FieldsAt(a: seq<byte>, r: Record, b: seq<byte>)
    requires r.Ok()
    ensures var s, p := a + RecordBytes(r) + b, |a|; RecordAt(s, p) && ReadRecord(s, p) == r
  {
    hide Real, U32, U16, HeaderBytes;
    var s, p := a + RecordBytes(r) + b, |a|;
    var h := HeaderBytes(r.inode, r.Size(), |r.name|, r.kind);
    PartsAt(a, h, r.name, r.tail, b, s);
    HeaderFields(s, p, h);
  }

  lemma PartsAt(a: seq<byte>, h: seq<byte>, name: seq<byte>, tail: seq<byte>, b: seq<byte>, s: seq<byte>)
    requires |h| == HEADER && s == a + (h + name + tail) + b
    ensures
      var p := |a|;
      && |s| == p + HEADER + |name| + |tail| + |b| && (forall k :: 0 <= k < HEADER ==> s[p + k] == h[k])
      && s[p + HEADER..p + HEADER + |name|] == name
      && s[p + HEADER + |name|..p + HEADER + |name| + |tail|] == tail
  {
  }

  lemma HeaderFields(s: seq<byte>, p: nat, h: seq<byte>)
    requires |h| == HEADER && p + HEADER <= |s| && forall k :: 0 <= k < HEADER ==> s[p + k] == h[k]
    ensures U32(s, p) == U32(h, 0) && U16(s, p + 4) == U16(h, 4) && s[p + 6] == h[6] && s[p + 7] == h[7]
  {
    assert s[p + 0] == h[0] && s[p + 1] == h[1] && s[p + 2] == h[2] && s[p + 3] == h[3];
    assert s[p + 4] == h[4] && s[p + 5] == h[5];
  }

  /** The bytes of a well-formed record are those it is read from. */
  lemma ReadBytes(s: seq<byte>, p: nat)
    requires RecordAt(s, p)
    ensures RecordBytes(ReadRecord(s, p)) == s[p..p + U16(s, p + 4)]
  {
    var r := ReadRecord(s, p);
    var h := HeaderBytes(r.inode, r.Size(), |r.name|, r.kind);
    SameHeader(h, s[p..p + HEADER]);
    var z := U16(s, p + 4);
    assert s[p..p + z] == s[p..p + HEADER] + r.name + r.tail;
  }

  lemma SameHeader(a: seq<byte>, b: seq<byte>)
    requires |a| == |b| == HEADER && U32(a, 0) == U32(b, 0) && U16(a, 4) == U16(b, 4) && a[6] == b[6] && a[7] == b[7]
    ensures a == b
  {
    Digit(a[0], b[0], a[1] as int + 0x100 * (a[2] as int + 0x100 * a[3] as int),
        b[1] as int + 0x100 * (b[2] as int + 0x100 * b[3] as int));
    Digit(a[1], b[1], a[2] as int + 0x100 * a[3] as int, b[2] as int + 0x100 * b[3] as int);
    Digit(a[2], b[2], a[3], b[3]);
    Digit(a[4], b[4], a[5], b[5]);
  }

  lemma Digit(a: byte, b: byte, x: int, y: int)
    requires a as int + 0x100 * x == b as int + 0x100 * y
    ensures a == b && x == y
  {
    assert a as int - b as int == 0x100 * (y - x);
  }

  /** Decoding what was encoded. */
  lemma {:induction false} DecodeEncode(a: seq<byte>, q: seq<Record>)
    requires AllOk(q)
    ensures Tiled(a + Encode(q), |a|) && Decode(a + Encode(q), |a|) == q
    decreases |q|
  {
    hide U32, U16, RecordBytes, ReadRecord, RecordAt, Real, Record.Ok, Record.Size;
    var s := a + Encode(q);
    if q != [] {
      OkSize(q[0]);
      FieldsAt(a, q[0], Encode(q[1..]));
      assert s == a + RecordBytes(q[0]) + Encode(q[1..]);
      DecodeEncode(a + RecordBytes(q[0]), q[1..]);
    }
  }

  /** Encoding what was decoded. */
  lemma {:induction false} EncodeDecode(s: seq<byte>, p: nat)
    requires Tiled(s, p)
    ensures p <= |s| && Encode(Decode(s, p)) == s[p..]
    decreases |s| - p
  {
    if p != |s| {
      var z := U16(s, p + 4);
      EncodeDecode(s, p + z);
      ReadBytes(s, p);
      var q := Decode(s, p);
      assert q[1..] == Decode(s, p + z);
      assert s[p..] == s[p..p + z] + s[p + z..];
    }
  }

  lemma {:induction false} EncodeJoin(a: seq<Record>, b: seq<Record>)
    requires AllOk(a) && AllOk(b)
    ensures Encode(a + b) == Encode(a) + Encode(b)
  {
    hide RecordBytes, Record.Ok;
    if a == [] {
      assert a + b == b;
    } else {
      EncodeJoin(a[1..], b);
      assert (a + b)[1..] == a[1..] + b;
    }
  }

  lemma {:induction false} StartLength(q: seq<Record>, k: nat)
    requires AllOk(q) && k <= |q|
    ensures |Encode(q[..k])| == Start(q, k)
  {
    if k > 0 {
      StartLength(q, k - 1);
      assert q[..k] == q[..k - 1] + [q[k - 1]];
      EncodeJoin(q[..k - 1], [q[k - 1]]);
      assert Encode([q[k - 1]]) == RecordBytes(q[k - 1]);
    }
  }

  /** The file around record k. */
  lemma Around(q: seq<Record>, k: nat)
    requires AllOk(q) && k < |q|
    ensures Encode(q) == Encode(q[..k]) + RecordBytes(q[k]) + Encode(q[k + 1..])
    ensures |Encode(q[..k])| == Start(q, k)
  {
    hide RecordBytes, Record.Ok, Record.Size, Real, Start;
    assert q == q[..k] + q[k..];
    EncodeJoin(q[..k], q[k..]);
    assert q[k..][1..] == q[k + 1..];
    StartLength(q, k);
  }

  /** Record k read where it starts. */
  lemma RecordOf(q: seq<Record>, k: nat)
    requires AllOk(q) && k < |q|
    ensures var s, p := Encode(q), Start(q, k);
            RecordAt(s, p) && ReadRecord(s, p) == q[k] && Start(q, k + 1) == p + U16(s, p + 4)
  {
    Around(q, k);
    FieldsAt(Encode(q[..k]), q[k], Encode(q[k + 1..]));
  }

  lemma StartEnd(q: seq<Record>)
    requires AllOk(q)
    ensures Start(q, |q|) == |Encode(q)|
  {
    StartLength(q, |q|);
    assert q[..|q|] == q;
  }

  /** What a scan of the file sees at record k. */
  lemma Seen(s: seq<byte>, q: seq<Record>, k: nat)
    requires Tiled(s, 0) && q == Decode(s, 0) && k < |q|
    ensures
      var p, n := Start(q, k), |q[k].name|;
      && p + HEADER <= |s| && U32(s, p) == q[k].inode && s[p + 6] == n && s[p + 7] == q[k].kind
      && Real(n) <= U16(s, p + 4) == q[k].Size() && p + U16(s, p + 4) <= |s|
      && s[p + HEADER..p + HEADER + n] == q[k].name && Start(q, k + 1) == p + U16(s, p + 4)
  {
    hide Tiled, Decode, Encode, RecordBytes, U32, U16, Real, Start;
    EncodeDecode(s, 0);
    RecordOf(q, k);
  }

  /** As far as ext2_unlink looks. */
  lemma Stepped(s: seq<byte>, q: seq<Record>, k: nat)
    requires Tiled(s, 0) && q == Decode(s, 0) && k < |q|
    ensures var p := Start(q, k);
            && p + HEADER <= |s| && U32(s, p) == q[k].inode
            && HEADER <= U16(s, p + 4) && Start(q, k + 1) == p + U16(s, p + 4) <= |s|
  {
    hide Tiled, Decode, U32, U16, Start;
    Seen(s, q, k);
  }

  lemma SeenAll(s: seq<byte>, q: seq<Record>)
    requires Tiled(s, 0) && q == Decode(s, 0)
    ensures Encode(q) == s && Start(q, |q|) == |s| && Start(q, 0) == 0
  {
    EncodeDecode(s, 0);
    StartEnd(q);
  }

  // Lookup.

  /** The records a lookup comes to: those before the first one with inode 0. */
  function Visible(q: seq<Record>): (v: seq<Record>)
    ensures v <= q && (forall j :: 0 <= j < |v| ==> v[j].inode != 0) && (|v| < |q| ==> q[|v|].inode == 0)
  {
    if q == [] || q[0].inode == 0 then [] else [q[0]] + Visible(q[1..])
  }

  lemma VisibleIs(q: seq<Record>, n: nat)
    requires n <= |q| && (forall j :: 0 <= j < n ==> q[j].inode != 0) && (n < |q| ==> q[n].inode == 0)
    ensures Visible(q) == q[..n]
  {
    hide Visible;
    assert Visible(q) == q[..|Visible(q)|];
  }

  /** The first record with this name; |q| if there is none. */
  function Find(q: seq<Record>, name: seq<byte>): (k: nat)
    ensures k <= |q| && (k < |q| ==> q[k].name == name)
    ensures forall j :: 0 <= j < k ==> q[j].name != name
  {
    if q == [] || q[0].name == name then 0 else 1 + Find(q[1..], name)
  }

  /** What the name is bound to; 0 if it is not. */
  function Lookup(q: seq<Record>, name: seq<byte>): nat {
    if Find(q, name) < |q| then q[Find(q, name)].inode else 0
  }

  lemma FindIs(q: seq<Record>, name: seq<byte>, k: nat)
    requires k <= |q| && (k < |q| ==> q[k].name == name) && forall j :: 0 <= j < k ==> q[j].name != name
    ensures Find(q, name) == k
  {
  }

  /** No two records share a name. */
  ghost predicate DistinctNames(q: seq<Record>) {
    forall i, j :: 0 <= i < j < |q| ==> q[i].name != q[j].name
  }

  /** ext2_get_inode_in_directory on the directory's bytes, for a name that is not empty: it stops at the
      first record with inode 0. */
  method Search(s: seq<byte>, name: seq<byte>) returns (inode: nat)
    requires Tiled(s, 0) && name != []
    ensures inode == Lookup(Visible(Decode(s, 0)), name)
  {
    hide Tiled, Decode, Encode, Start, Find, Visible, U32, U16, Real, Record.Size, Record.Ok;
    ghost var q := Decode(s, 0);
    ghost var v, k := Visible(q), 0;
    SeenAll(s, q);
    var p := 0;
    while p + HEADER <= |s| && U32(s, p) != 0
      invariant k <= |v| && p == Start(q, k)
      invariant forall j :: 0 <= j < k ==> v[j].name != name
      decreases |v| - k
    {
      if k == |q| { assert false; }
      Seen(s, q, k);
      assert k < |v| && v[k] == q[k];
      var size, n: nat := U16(s, p + 4), s[p + 6];
      if size == 0 { break; }
      if n != 0 && |name| == n && s[p + HEADER..p + HEADER + n] == name {
        FindIs(v, name, k);
        return U32(s, p);
      }
      p := p + size;
      k := k + 1;
    }
    if k < |q| { Seen(s, q, k); }
    assert v == q[..|v|];
    FindIs(v, name, |v|);
    return 0;
  }

  // Adding a record.

  /** Record k has room for `need` bytes behind its name, and passes the block test. */
  predicate Fits(q: seq<Record>, k: nat, need: nat, block: nat)
    requires k < |q| && block > 0
  {
    q[k].Size() - Real(|q[k].name|) >= need && Mod(Start(q, k), block) + need <= block
  }

  /** Where records keep to their blocks, room is all that counts. */
  lemma FitsExact(q: seq<Record>, k: nat, need: nat, block: nat)
    requires AllOk(q) && k < |q| && block > 0 && InBlock(q, k, block)
    ensures Fits(q, k, need, block) <==> Real(|q[k].name|) + need <= q[k].Size()
  {
    hide Real, Start;
    var p, e := Start(q, k), Start(q, k) + q[k].Size() - 1;
    DivMod(p, block);
    DivMod(e, block);
  }

  /** Record k is the first that fits; k == |q| says that none does. */
  ghost predicate FirstFit(q: seq<Record>, k: nat, need: nat, block: nat)
    requires block > 0
  {
    k <= |q| && (forall j :: 0 <= j < k ==> !Fits(q, j, need, block)) && (k < |q| ==> Fits(q, k, need, block))
  }

  /** find_free_position: the first record that fits, or the end of the file and a whole block. */
  method FindFreePosition(s: seq<byte>, need: nat, block: nat)
    returns (found: bool, offset: nat, padding: nat, ghost k: nat)
    requires Tiled(s, 0) && block > 0
    ensures FirstFit(Decode(s, 0), k, need, block) && offset == Start(Decode(s, 0), k) && found == (k < |Decode(s, 0)|)
    ensures found ==> padding == Decode(s, 0)[k].Size() - Real(|Decode(s, 0)[k].name|)
    ensures found ==> offset + padding <= |s| && padding >= need && Mod(offset, block) + need <= block
    ensures !found ==> offset == |s| && padding == block
  {
    hide Tiled, Decode, Encode, Start, U32, U16, Real, Record.Size, Record.Ok, Mod;
    ghost var q := Decode(s, 0);
    SeenAll(s, q);
    k := 0;
    var pos := 0;
    while pos < |s|
      invariant k <= |q| && pos == Start(q, k)
      invariant forall j :: 0 <= j < k ==> !Fits(q, j, need, block)
      decreases |q| - k
    {
      if k == |q| { assert false; }
      Seen(s, q, k);
      var size := U16(s, pos + 4);
      if size == 0 { break; }
      padding := size - Real(s[pos + 6]);
      if padding >= need && Mod(pos, block) + need <= block {
        return true, pos, padding, k;
      }
      pos := pos + size;
      k := k + 1;
    }
    if k < |q| { Seen(s, q, k); }
    return false, |s|, block, k;
  }

  /** A new record of the given size, zeros behind its name. */
  function Fresh(inode: nat, kind: byte, name: seq<byte>, size: nat): Record
    requires HEADER + |name| <= size
  {
    Record(inode, kind, name, Zeros(size - HEADER - |name|))
  }

  /** A record cut down to its name. */
  function Shrunk(r: Record): Record
    requires r.Ok()
  {
    r.(tail := r.tail[..Real(|r.name|) - HEADER - |r.name|])
  }

  /** The directory after ext2_create_entry has used record k, or the end. */
  function Added(q: seq<Record>, k: nat, inode: nat, kind: byte, name: seq<byte>, block: nat): seq<Record>
    requires AllOk(q) && k <= |q| && HEADER + |name| <= block
    requires k < |q| ==> q[k].Size() - Real(|q[k].name|) >= Real(|name|)
  {
    if k < |q| then
      q[..k] + [Shrunk(q[k]), Fresh(inode, kind, name, q[k].Size() - Real(|q[k].name|))] + q[k + 1..]
    else
      q + [Fresh(inode, kind, name, block)]
  }

  /** The bytes ext2_create_entry writes for the new record. */
  function NewBytes(inode: nat, kind: byte, name: seq<byte>, size: nat): (s: seq<byte>)
    requires inode < U32_END && |name| < 256 && HEADER + |name| <= size < U16_END
    ensures |s| == size
  {
    Splice(Splice(Zeros(size), 0, HeaderBytes(inode, size, |name|, kind)), HEADER, name)
  }

  lemma NewBytesAre(inode: nat, kind: byte, name: seq<byte>, size: nat)
    requires 0 < inode < U32_END && |name| < 256 && Real(|name|) <= size < U16_END
    ensures NewBytes(inode, kind, name, size) == RecordBytes(Fresh(inode, kind, name, size))
  {
  }

  /** The two writes into record k: its header with the smaller size, then the new record. */
  lemma SplitWrites(a: seq<byte>, r: Record, b: seq<byte>, n: Record)
    requires r.Ok() && n.Ok() && n.Size() == r.Size() - Real(|r.name|)
    ensures
      var s, z := a + RecordBytes(r) + b, Real(|r.name|);
      Splice(Splice(s, |a|, HeaderBytes(r.inode, z, |r.name|, r.kind)), |a| + z, RecordBytes(n))
      == a + (RecordBytes(Shrunk(r)) + RecordBytes(n)) + b
  {
    var s, z := a + RecordBytes(r) + b, Real(|r.name|);
    var h := HeaderBytes(r.inode, z, |r.name|, r.kind);
    var s1 := Splice(s, |a|, h);
    var s2 := Splice(s1, |a| + z, RecordBytes(n));
    var t := a + (RecordBytes(Shrunk(r)) + RecordBytes(n)) + b;
    assert |t| == |s2|;
    forall i | 0 <= i < |t| ensures s2[i] == t[i] {
      SplitByte(a, r, b, n, i);
    }
  }

  lemma SplitByte(a: seq<byte>, r: Record, b: seq<byte>, n: Record, i: nat)
    requires r.Ok() && n.Ok() && n.Size() == r.Size() - Real(|r.name|) && i < |a| + r.Size() + |b|
    ensures
      var s, z := a + RecordBytes(r) + b, Real(|r.name|);
      Splice(Splice(s, |a|, HeaderBytes(r.inode, z, |r.name|, r.kind)), |a| + z, RecordBytes(n))[i]
      == (a + (RecordBytes(Shrunk(r)) + RecordBytes(n)) + b)[i]
  {
    hide Real, HeaderBytes, Shrunk;
    var z := Real(|r.name|);
    ShrunkOk(r);
    ShrunkTail(r);
    if |a| + HEADER <= i < |a| + z {
      var j := i - |a| - HEADER;
      assert RecordBytes(r)[HEADER + j] == (r.name + r.tail)[j];
      assert RecordBytes(Shrunk(r))[HEADER + j] == (r.name + Shrunk(r).tail)[j];
    }
  }

  lemma AddedBytes(q: seq<Record>, k: nat, inode: nat, kind: byte, name: seq<byte>, block: nat)
    requires AllOk(q) && k <= |q| && 0 < inode < U32_END && |name| < 256 && Real(|name|) <= block
    requires k < |q| ==> q[k].Size() - Real(|q[k].name|) >= Real(|name|)
    requires k == |q| ==> block < U16_END
    ensures AllOk(Added(q, k, inode, kind, name, block))
    ensures
      var q' := Added(q, k, inode, kind, name, block);
      if k < |q| then
        var r, p, size := q[k], Start(q, k), q[k].Size() - Real(|q[k].name|);
        && p + q[k].Size() <= |Encode(q)|
        && Encode(q') == Splice(Splice(Encode(q), p, HeaderBytes(r.inode, Real(|r.name|), |r.name|, r.kind)),
                                p + Real(|r.name|), NewBytes(inode, kind, name, size))
      else
        Encode(q') == Encode(q) + NewBytes(inode, kind, name, block)
  {
    hide Encode, RecordBytes, NewBytes, HeaderBytes, Splice, Record.Ok;
    if k < |q| {
      AddedInside(q, k, inode, kind, name, block);
    } else {
      AddedBehind(q, inode, kind, name, block);
    }
  }

  /** q' is q with a record added by ext2_create_entry. */
  ghost predicate EntryAdded(q: seq<Record>, q': seq<Record>, k: nat, inode: nat, kind: byte, name: seq<byte>,
          block: nat) {
    && AllOk(q) && block > 0 && HEADER + |name| <= block
    && FirstFit(q, k, Real(|name|), block) && q' == Added(q, k, inode, kind, name, block)
  }

  /** q' is q after the writes of ext2_create_entry: a split of record k, or a block behind the last one. */
  ghost predicate EntryWritten(q: seq<Record>, q': seq<Record>, k: nat, inode: nat, kind: byte, name: seq<byte>,
          block: nat) {
    && AllOk(q) && AllOk(q') && k <= |q| && inode < U32_END && |name| < 256
    && if k < |q| then
         var r, p, size := q[k], Start(q, k), q[k].Size() - Real(|q[k].name|);
         && p + q[k].Size() <= |Encode(q)| && HEADER + |name| <= size < U16_END
         && Encode(q') == Splice(Splice(Encode(q), p, HeaderBytes(r.inode, Real(|r.name|), |r.name|, r.kind)),
                                 p + Real(|r.name|), NewBytes(inode, kind, name, size))
       else
         HEADER + |name| <= block < U16_END && Encode(q') == Encode(q) + NewBytes(inode, kind, name, block)
  }

  lemma EntryAddedBytes(q: seq<Record>, k: nat, inode: nat, kind: byte, name: seq<byte>, block: nat)
    returns (q': seq<Record>)
    requires AllOk(q) && 0 < inode < U32_END && |name| < 256 && 0 < block && Real(|name|) <= block
    requires k >= |q| ==> block < U16_END
    requires FirstFit(q, k, Real(|name|), block)
    ensures EntryAdded(q, q', k, inode, kind, name, block) && AllOk(q')
            && EntryWritten(q, q', k, inode, kind, name, block)
  {
    hide Encode, NewBytes, HeaderBytes, Splice, Added, Start;
    AddedBytes(q, k, inode, kind, name, block);
    q' := Added(q, k, inode, kind, name, block);
  }

  /** Record `at` of the directory s is for these, as its bytes say. */
  ghost predicate RecordSays(s: seq<byte>, q: seq<Record>, at: nat, inode: nat, kind: byte, name: seq<byte>) {
    && at < |q| && q[at].inode == inode && q[at].kind == kind && q[at].name == name
    && var p := Start(q, at);
       && p + 8 + |name| <= |s| && U32(s, p) == inode && s[p + 6] as int == |name| && s[p + 7] == kind
       && s[p + 8..p + 8 + |name|] == name
  }

  /** Besides record `at`, q' has the records of q in order, each for the same inode, kind and name. */
  ghost predicate OneMore(q: seq<Record>, q': seq<Record>, at: nat) {
    && |q'| == |q| + 1 && at <= |q|
    && forall j :: 0 <= j < |q| ==>
                     var r := q'[if j < at then j else j + 1];
                     r.inode == q[j].inode && r.kind == q[j].kind && r.name == q[j].name
  }

  /** The new record is behind record k, or the last one; it is what was asked for, and the others are kept. */
  lemma EntryAddedRecord(s: seq<byte>, q: seq<Record>, q': seq<Record>, k: nat, inode: nat, kind: byte, name: seq<byte>,
          block: nat)
    requires EntryAdded(q, q', k, inode, kind, name, block) && Tiled(s, 0) && q' == Decode(s, 0)
    ensures var at := if k < |q| then k + 1 else |q|;
            RecordSays(s, q', at, inode, kind, name) && OneMore(q, q', at)
  {
    hide Tiled, Decode, U32, U16, Start, Real;
    var at := if k < |q| then k + 1 else |q|;
    Seen(s, q', at);
    forall j | 0 <= j < |q|
      ensures var r := q'[if j < at then j else j + 1];
              r.inode == q[j].inode && r.kind == q[j].kind && r.name == q[j].name
    {
      if j > k { assert q'[j + 1] == q[j]; }
    }
  }

  /** No record with inode 0 comes before the one put behind record k, or at the end. */
  predicate Reached(q: seq<Record>, k: nat) {
    forall j :: 0 <= j <= k && j < |q| ==> q[j].inode != 0
  }

  /** A name that was free is bound to its inode if and only if no record with inode 0 comes before it; no
      other binding changes. */
  lemma EntryAddedLookup(q: seq<Record>, q': seq<Record>, k: nat, inode: nat, kind: byte, name: seq<byte>, block: nat,
          m: seq<byte>)
    requires EntryAdded(q, q', k, inode, kind, name, block) && inode > 0 && Find(Visible(q), name) == |Visible(q)|
    ensures Lookup(Visible(q'), m) == if m == name && Reached(q, k) then inode else Lookup(Visible(q), m)
    ensures DistinctNames(Visible(q)) ==> DistinctNames(Visible(q'))
  {
    hide Added, Lookup, Find, Real, Visible;
    var at := if k < |q| then k + 1 else k;
    AddedInserts(q, k, inode, kind, name, block);
    InsertedVisible(q, q', at, inode, name);
    assert Reached(q, k) <==> at <= |Visible(q)| by {
      if at <= |Visible(q)| { assert forall j :: 0 <= j <= k && j < |q| ==> q[j] == Visible(q)[j]; }
    }
    if at <= |Visible(q)| {
      InsertedLookup(Visible(q), Visible(q'), at, inode, name, m);
    } else {
      SameLookup(Visible(q), Visible(q'), m);
      SameLookup(Visible(q), Visible(q'), name);
    }
  }

  /** A record inserted among the visible ones is visible; behind them it changes nothing. */
  lemma InsertedVisible(q: seq<Record>, q': seq<Record>, at: nat, inode: nat, name: seq<byte>)
    requires Inserted(q, q', at, inode, name) && inode > 0
    ensures at <= |Visible(q)| ==> Inserted(Visible(q), Visible(q'), at, inode, name)
    ensures at > |Visible(q)| ==> SameBindings(Visible(q), Visible(q'))
  {
    hide Visible;
    var v := Visible(q);
    var n := if at <= |v| then |v| + 1 else |v|;
    forall j | 0 <= j < n ensures q'[j].inode != 0 {
      if j < at {
        assert v[j] == q[j];
      } else if j > at {
        assert v[j - 1] == q[j - 1] && q'[j - 1 + 1].inode == q[j - 1].inode;
      }
    }
    if n < |q'| && at <= |v| { assert q'[|v| + 1].inode == q[|v|].inode; }
    VisibleIs(q', n);
  }

  ghost predicate SameBindings(q: seq<Record>, q': seq<Record>) {
    |q| == |q'| && forall j :: 0 <= j < |q| ==> q'[j].name == q[j].name && q'[j].inode == q[j].inode
  }

  lemma SameLookup(q: seq<Record>, q': seq<Record>, m: seq<byte>)
    requires SameBindings(q, q')
    ensures Lookup(q', m) == Lookup(q, m) && Find(q', m) == Find(q, m)
  {
    hide Find;
    FindIs(q', m, Find(q, m));
  }

  /** A directory of whole blocks whose records lie in one block each stays so. */
  lemma EntryAddedBlocked(q: seq<Record>, q': seq<Record>, k: nat, inode: nat, kind: byte, name: seq<byte>, block: nat)
    requires EntryAdded(q, q', k, inode, kind, name, block) && AllOk(q') && Real(|name|) <= block
    requires Blocked(q, block) && Mod(Start(q, |q|), block) == 0
    ensures Blocked(q', block) && Mod(Start(q', |q'|), block) == 0
  {
    hide Added, Blocked, Start, Real;
    AddedBlocked(q, k, inode, kind, name, block);
  }

  lemma AddedBehind(q: seq<Record>, inode: nat, kind: byte, name: seq<byte>, block: nat)
    requires AllOk(q) && 0 < inode < U32_END && |name| < 256 && Real(|name|) <= block < U16_END
    ensures AllOk(Added(q, |q|, inode, kind, name, block))
    ensures Encode(Added(q, |q|, inode, kind, name, block)) == Encode(q) + NewBytes(inode, kind, name, block)
  {
    hide Encode, RecordBytes, NewBytes, Real;
    var n := Fresh(inode, kind, name, block);
    NewBytesAre(inode, kind, name, block);
    EncodeJoin(q, [n]);
    EncodeOne(n);
  }

  lemma ShrunkTail(r: Record)
    requires r.Ok()
    ensures Shrunk(r).name == r.name && Shrunk(r).inode == r.inode && Shrunk(r).kind == r.kind
            && Shrunk(r).tail <= r.tail
  {
  }

  lemma ShrunkOk(r: Record)
    requires r.Ok()
    ensures Shrunk(r).Ok() && Shrunk(r).Size() == Real(|r.name|)
  {
  }

  lemma AddedInside(q: seq<Record>, k: nat, inode: nat, kind: byte, name: seq<byte>, block: nat)
    requires AllOk(q) && k < |q| && 0 < inode < U32_END && |name| < 256 && HEADER + |name| <= block
    requires q[k].Size() - Real(|q[k].name|) >= Real(|name|)
    ensures AllOk(Added(q, k, inode, kind, name, block))
    ensures
      var r, p, size := q[k], Start(q, k), q[k].Size() - Real(|q[k].name|);
      && p + q[k].Size() <= |Encode(q)|
      && Encode(Added(q, k, inode, kind, name, block))
         == Splice(Splice(Encode(q), p, HeaderBytes(r.inode, Real(|r.name|), |r.name|, r.kind)),
                   p + Real(|r.name|), NewBytes(inode, kind, name, size))
  {
    hide Encode, RecordBytes, NewBytes, HeaderBytes, Splice, Real, Start, Shrunk;
    var r, n := q[k], Fresh(inode, kind, name, q[k].Size() - Real(|q[k].name|));
    ShrunkOk(r);
    NewBytesAre(inode, kind, name, n.Size());
    Around(q, k);
    SplitWrites(Encode(q[..k]), r, Encode(q[k + 1..]), n);
    EncodeJoin(q[..k] + [Shrunk(r), n], q[k + 1..]);
    EncodeJoin(q[..k], [Shrunk(r), n]);
    EncodeTwo(Shrunk(r), n);
  }

  lemma EncodeOne(r: Record)
    requires r.Ok()
    ensures Encode([r]) == RecordBytes(r)
  {
  }

  lemma EncodeTwo(a: Record, b: Record)
    requires a.Ok() && b.Ok()
    ensures Encode([a, b]) == RecordBytes(a) + RecordBytes(b)
  {
    assert [a, b][1..] == [b];
    EncodeOne(b);
  }

  /** q' holds the bindings of q, in order, and one more at place `at`. */
  ghost predicate Inserted(q: seq<Record>, q': seq<Record>, at: nat, inode: nat, name: seq<byte>) {
    && |q'| == |q| + 1 && at <= |q| && q'[at].name == name && q'[at].inode == inode
    && (forall j :: 0 <= j < at ==> q'[j].name == q[j].name && q'[j].inode == q[j].inode)
    && (forall j :: at <= j < |q| ==> q'[j + 1].name == q[j].name && q'[j + 1].inode == q[j].inode)
  }

  lemma AddedInserts(q: seq<Record>, k: nat, inode: nat, kind: byte, name: seq<byte>, block: nat)
    requires AllOk(q) && k <= |q| && HEADER + |name| <= block
    requires k < |q| ==> q[k].Size() - Real(|q[k].name|) >= Real(|name|)
    ensures Inserted(q, Added(q, k, inode, kind, name, block), if k < |q| then k + 1 else k, inode, name)
  {
    hide Record.Ok, Real;
    if k < |q| {
      var q' := Added(q, k, inode, kind, name, block);
      forall j | k + 1 <= j < |q| ensures q'[j + 1] == q[j] {}
    }
  }

  lemma InsertedLookup(q: seq<Record>, q': seq<Record>, at: nat, inode: nat, name: seq<byte>, m: seq<byte>)
    requires Inserted(q, q', at, inode, name) && Find(q, name) == |q|
    ensures Lookup(q', m) == if m == name then inode else Lookup(q, m)
    ensures DistinctNames(q) ==> DistinctNames(q')
  {
    hide Find;
    forall j | 0 <= j < |q'| && j != at ensures q'[j].name == q[if j < at then j else j - 1].name {
      if j > at { assert q'[j - 1 + 1].name == q[j - 1].name; }
    }
    if m == name { FindIs(q', m, at); } else { InsertedOther(q, q', at, inode, name, m); }
  }

  // Removing a record.

  /** Record k takes over the bytes of record k + 1, which are zeroed. */
  function Merged(r: Record, next: Record): Record {
    r.(tail := r.tail + Zeros(next.Size()))
  }

  function Removed(q: seq<Record>, k: nat): seq<Record>
    requires k + 1 < |q|
  {
    q[..k] + [Merged(q[k], q[k + 1])] + q[k + 2..]
  }

  /** The first record for this inode; |q| if there is none. */
  function FindInode(q: seq<Record>, inode: nat): (k: nat)
    ensures k <= |q| && (k < |q| ==> q[k].inode == inode)
    ensures forall j :: 0 <= j < k ==> q[j].inode != inode
  {
    if q == [] || q[0].inode == inode then 0 else 1 + FindInode(q[1..], inode)
  }

  lemma FindInodeIs(q: seq<Record>, inode: nat, k: nat)
    requires k <= |q| && (k < |q| ==> q[k].inode == inode) && forall j :: 0 <= j < k ==> q[j].inode != inode
    ensures FindInode(q, inode) == k
  {
  }

  lemma MergeWrites(a: seq<byte>, r: Record, n: Record, b: seq<byte>)
    requires r.Ok() && n.Ok() && r.Size() + n.Size() < U16_END
    ensures
      var s := a + (RecordBytes(r) + RecordBytes(n)) + b;
      Splice(Splice(s, |a| + 4, FromU16(r.Size() + n.Size())), |a| + r.Size(), Zeros(n.Size()))
          == a + RecordBytes(Merged(r, n)) + b
  {
    var s := a + (RecordBytes(r) + RecordBytes(n)) + b;
    var t := Splice(Splice(s, |a| + 4, FromU16(r.Size() + n.Size())), |a| + r.Size(), Zeros(n.Size()));
    var u := a + RecordBytes(Merged(r, n)) + b;
    assert |t| == |u|;
    forall i | 0 <= i < |t| ensures t[i] == u[i] { MergeByte(a, r, n, b, i); }
  }

  lemma MergeByte(a: seq<byte>, r: Record, n: Record, b: seq<byte>, i: nat)
    requires r.Ok() && n.Ok() && r.Size() + n.Size() < U16_END && i < |a| + r.Size() + n.Size() + |b|
    ensures
      var s := a + (RecordBytes(r) + RecordBytes(n)) + b;
      Splice(Splice(s, |a| + 4, FromU16(r.Size() + n.Size())), |a| + r.Size(), Zeros(n.Size()))[i]
          == (a + RecordBytes(Merged(r, n)) + b)[i]
  {
  }

  lemma RemovedBytes(q: seq<Record>, k: nat)
    requires AllOk(q) && k + 1 < |q| && q[k].Size() + q[k + 1].Size() < U16_END
    ensures AllOk(Removed(q, k)) && Start(q, k + 1) + q[k + 1].Size() <= |Encode(q)|
            && Start(q, k) + HEADER <= Start(q, k + 1)
    ensures
      Encode(Removed(q, k))
      == Splice(Splice(Encode(q), Start(q, k) + 4, FromU16(q[k].Size() + q[k + 1].Size())), Start(q, k + 1),
          Zeros(q[k + 1].Size()))
  {
    hide Encode, RecordBytes, Splice, FromU16;
    Around(q, k);
    Around(q, k + 1);
    var a, b := Encode(q[..k]), Encode(q[k + 2..]);
    assert q[..k + 1] == q[..k] + [q[k]];
    EncodeJoin(q[..k], [q[k]]);
    EncodeOne(q[k]);
    assert Encode(q) == a + (RecordBytes(q[k]) + RecordBytes(q[k + 1])) + b;
    MergeWrites(a, q[k], q[k + 1], b);
    var r := Merged(q[k], q[k + 1]);
    EncodeJoin(q[..k] + [r], q[k + 2..]);
    EncodeJoin(q[..k], [r]);
    EncodeOne(r);
  }

  /** With distinct names, exactly the removed record's name loses its binding. */
  lemma RemovedLookup(q: seq<Record>, k: nat, m: seq<byte>)
    requires k + 1 < |Visible(q)| && DistinctNames(Visible(q))
    ensures Lookup(Visible(Removed(q, k)), m) == if m == q[k + 1].name then 0 else Lookup(Visible(q), m)
    ensures DistinctNames(Visible(Removed(q, k)))
  {
    hide Removed, Find, Visible;
    var q', v := Removed(q, k), Visible(q);
    RemovedInserts(q, k);
    assert forall j :: 0 <= j < k + 2 ==> v[j] == q[j];
    var v' := Visible(q');
    assert forall j :: 0 <= j < k + 1 ==> q'[j].inode == v[j].inode;
    InsertedVisible(q', q, k + 1, q[k + 1].inode, q[k + 1].name);
    DeletedLookup(v, v', k + 1, m);
  }

  lemma RemovedInserts(q: seq<Record>, k: nat)
    requires k + 1 < |q|
    ensures Inserted(Removed(q, k), q, k + 1, q[k + 1].inode, q[k + 1].name)
  {
    var q' := Removed(q, k);
    forall j | k + 1 <= j < |q'| ensures q'[j] == q[j + 1] {}
  }

  lemma DeletedLookup(q: seq<Record>, q': seq<Record>, at: nat, m: seq<byte>)
    requires at < |q| && Inserted(q', q, at, q[at].inode, q[at].name) && DistinctNames(q)
    ensures Lookup(q', m) == if m == q[at].name then 0 else Lookup(q, m)
    ensures DistinctNames(q')
  {
    hide Find;
    forall j | 0 <= j < |q'| ensures q'[j].name == q[if j < at then j else j + 1].name != q[at].name {}
    if m == q[at].name {
      FindIs(q', m, |q'|);
    } else {
      InsertedOther(q', q, at, q[at].inode, q[at].name, m);
    }
  }

  /** Inserting a record does not change what another name is bound to. */
  lemma InsertedOther(q: seq<Record>, q': seq<Record>, at: nat, inode: nat, name: seq<byte>, m: seq<byte>)
    requires Inserted(q, q', at, inode, name) && m != name
    ensures Lookup(q', m) == Lookup(q, m)
  {
    hide Find;
    var f := Find(q, m);
    forall j | 0 <= j < |q'| && j != at ensures q'[j].name == q[if j < at then j else j - 1].name {
      if j > at { assert q'[j - 1 + 1].name == q[j - 1].name; }
    }
    FindIs(q', m, if f < at then f else f + 1);
  }

  /** The writes of ext2_unlink: the sizes are added in 16 bits, the removed record is cleared. */
  function MergeAt(s: seq<byte>, current: nat, next: nat): (r: seq<byte>)
    requires current + HEADER <= next && next + HEADER <= |s| && next + U16(s, next + 4) <= |s|
    ensures |r| == |s|
  {
    var size := U16(s, next + 4);
    Splice(Splice(s, current + 4, FromU16((U16(s, current + 4) + size) % U16_END)), next, Zeros(size))
  }

  /** t is s after ext2_unlink has merged record k + 1 into record k. */
  ghost predicate MergeWritten(s: seq<byte>, q: seq<Record>, k: nat, t: seq<byte>)
    requires k + 1 < |q|
  {
    var c, n := Start(q, k), Start(q, k + 1);
    c + HEADER <= n && n + HEADER <= |s| && n + U16(s, n + 4) <= |s| && t == MergeAt(s, c, n)
  }

  /** That is the directory without record k + 1 if and only if the two sizes together fit 16 bits. */
  ghost predicate TakenOut(s: seq<byte>, q: seq<Record>, k: nat, t: seq<byte>)
    requires k + 1 < |q|
  {
    && MergeWritten(s, q, k, t)
    && (Holds(t, Removed(q, k)) <==> q[k].Size() + q[k + 1].Size() < U16_END)
  }

  lemma MergePlaces(s: seq<byte>, q: seq<Record>, k: nat, c: nat, n: nat)
    requires Tiled(s, 0) && q == Decode(s, 0) && k + 1 < |q| && c == Start(q, k) && n == Start(q, k + 1)
    ensures c + HEADER <= n && n + HEADER <= |s| && U16(s, c + 4) == q[k].Size() && U16(s, n + 4) == q[k + 1].Size()
    ensures n + U16(s, n + 4) <= |s|
  {
    hide Tiled, Decode, Encode, Start, U32, U16, Real, Record.Ok, Record.Size;
    Seen(s, q, k);
    Seen(s, q, k + 1);
  }

  /** Sizes that fit 16 bits together make one record. */
  lemma MergeHolds(s: seq<byte>, q: seq<Record>, k: nat, c: nat, n: nat)
    requires Tiled(s, 0) && q == Decode(s, 0) && k + 1 < |q| && c == Start(q, k) && n == Start(q, k + 1)
    requires q[k].Size() + q[k + 1].Size() < U16_END
    ensures c + HEADER <= n && n + HEADER <= |s| && n + U16(s, n + 4) <= |s| && Holds(MergeAt(s, c, n), Removed(q, k))
  {
    hide Tiled, Decode, Encode, Start, U32, U16, Real, Record.Ok, Record.Size, Splice, Removed, FromU16, Zeros;
    MergePlaces(s, q, k, c, n);
    SeenAll(s, q);
    RemovedBytes(q, k);
    DecodeEncode([], Removed(q, k));
    assert [] + Encode(Removed(q, k)) == Encode(Removed(q, k));
  }

  /** The merged record is the two sizes together if and only if they fit 16 bits. */
  lemma MergeAtIs(s: seq<byte>, q: seq<Record>, k: nat, c: nat, n: nat)
    requires Tiled(s, 0) && q == Decode(s, 0) && k + 1 < |q| && c == Start(q, k) && n == Start(q, k + 1)
    ensures c + HEADER <= n && n + HEADER <= |s| && n + U16(s, n + 4) <= |s| && TakenOut(s, q, k, MergeAt(s, c, n))
  {
    hide Tiled, Decode, Encode, Start, U32, U16, Real, Record.Ok, Holds, MergeAt;
    MergePlaces(s, q, k, c, n);
    if q[k].Size() + q[k + 1].Size() < U16_END {
      MergeHolds(s, q, k, c, n);
    } else {
      assert Removed(q, k)[k].Size() == q[k].Size() + q[k + 1].Size();
      TooLong(MergeAt(s, c, n), Removed(q, k), k);
    }
  }

  /** The bytes tile into exactly these records. */
  ghost predicate Holds(s: seq<byte>, q: seq<Record>) {
    Tiled(s, 0) && Decode(s, 0) == q
  }

  lemma TooLong(s: seq<byte>, q: seq<Record>, k: nat)
    requires k < |q| && q[k].Size() >= U16_END
    ensures !Holds(s, q)
  {
    hide Tiled, Decode;
    assert !q[k].Ok();
  }

  /** From 0 on, bytes that agree with s below record k tile up to it. */
  lemma {:induction false} TiledUpTo(s: seq<byte>, q: seq<Record>, k: nat, t: seq<byte>)
    requires Tiled(s, 0) && q == Decode(s, 0) && k < |q| && Tiled(t, 0)
    requires Start(q, k) <= |s| == |t| && forall i :: 0 <= i < Start(q, k) ==> t[i] == s[i]
    ensures Start(q, k) < |t| && Tiled(t, Start(q, k))
    decreases k
  {
    hide Decode, Real, U16;
    Seen(s, q, k);
    if k > 0 {
      Seen(s, q, k - 1);
      TiledUpTo(s, q, k - 1, t);
      SameSize(s, t, Start(q, k - 1));
    }
  }

  lemma SameSize(s: seq<byte>, t: seq<byte>, p: nat)
    requires p + HEADER <= |s| && p + HEADER <= |t| && forall i :: p <= i < p + HEADER ==> t[i] == s[i]
    ensures U16(t, p + 4) == U16(s, p + 4)
  {
  }

  /** A size that wraps where zeros follow the name leaves a file that is no chain of records at all. */
  lemma WrapBreaks(s: seq<byte>, q: seq<Record>, k: nat, t: seq<byte>)
    requires Tiled(s, 0) && q == Decode(s, 0) && k + 1 < |q| && MergeWritten(s, q, k, t)
    requires q[k].Size() + q[k + 1].Size() >= U16_END && forall x :: x in q[k].tail ==> x == 0
    ensures !Tiled(t, 0)
  {
    hide Decode, Real, U16;
    var c, n := Start(q, k), Start(q, k + 1);
    MergePlaces(s, q, k, c, n);
    WrappedNext(s, q, k, t, c, n);
    if Tiled(t, 0) { TiledUpTo(s, q, k, t); }
  }

  /** The wrapped size of record k leads into the zeros behind its name. */
  lemma WrappedNext(s: seq<byte>, q: seq<Record>, k: nat, t: seq<byte>, c: nat, n: nat)
    requires Tiled(s, 0) && q == Decode(s, 0) && k + 1 < |q| && c == Start(q, k) && n == Start(q, k + 1)
    requires MergeWritten(s, q, k, t)
    requires q[k].Size() + q[k + 1].Size() >= U16_END && forall x :: x in q[k].tail ==> x == 0
    ensures c < |t| && (RecordAt(t, c) ==> c + U16(t, c + 4) < |t| && !RecordAt(t, c + U16(t, c + 4)))
  {
    hide Tiled, Decode, Encode, Start, U32, U16, Real, MergeAt, Record.Ok;
    MergePlaces(s, q, k, c, n);
    TailAt(s, q, k);
    assert q[k].Ok() && q[k + 1].Ok();
    OkSize(q[k]);
    OkSize(q[k + 1]);
    MergedBytes(s, t, c, n);
    var w := U16(t, c + 4);
    if RecordAt(t, c) {
      assert t[c + 6] == s[c + 6];
      assert t[c + w + 4] == 0 && t[c + w + 5] == 0;
      NoSize(t, c + w);
    }
  }

  lemma OkSize(r: Record)
    requires r.Ok()
    ensures HEADER <= r.Size() < U16_END
  {
  }

  lemma NoSize(t: seq<byte>, p: nat)
    requires p + HEADER <= |t| && t[p + 4] == 0 && t[p + 5] == 0
    ensures !RecordAt(t, p)
  {
  }

  /** The bytes of a merge whose size wraps. */
  lemma MergedBytes(s: seq<byte>, t: seq<byte>, c: nat, n: nat)
    requires c + HEADER <= n && n + HEADER <= |s| && n + U16(s, n + 4) <= |s| && t == MergeAt(s, c, n)
    requires U16(s, c + 4) + U16(s, n + 4) >= U16_END
    ensures |t| == |s| && U16(t, c + 4) == U16(s, c + 4) + U16(s, n + 4) - U16_END
    ensures forall i :: 0 <= i < n && i != c + 4 && i != c + 5 ==> t[i] == s[i]
    ensures forall i :: n <= i < n + U16(s, n + 4) ==> t[i] == 0
  {
    hide U16, FromU16, Zeros;
    var size := U16(s, n + 4);
    var w := U16(s, c + 4) + size - U16_END;
    var s1 := Splice(s, c + 4, FromU16(w));
    SpliceU16(s, c + 4, FromU16(w), c + 4);
    SpliceU16(s1, n, Zeros(size), c + 4);
  }

  lemma TailAt(s: seq<byte>, q: seq<Record>, k: nat)
    requires Tiled(s, 0) && q == Decode(s, 0) && k < |q|
    ensures var c, n := Start(q, k), |q[k].name|;
            && Start(q, k + 1) == c + q[k].Size() <= |s| && s[c + 6] == n
            && forall i :: c + HEADER + n <= i < Start(q, k + 1) ==> s[i] in q[k].tail
  {
    hide Tiled, Decode, Encode, Start, U32, U16, Real;
    EncodeDecode(s, 0);
    RecordOf(q, k);
    var c, n := Start(q, k), |q[k].name|;
    assert q[k].tail == s[c + HEADER + n..c + U16(s, c + 4)];
    forall i | c + HEADER + n <= i < Start(q, k + 1) ensures s[i] in q[k].tail {
      assert q[k].tail[i - (c + HEADER + n)] == s[i];
    }
  }

  datatype Unlinked = NotFound | Done(bytes: seq<byte>)

  /** The loop of ext2_unlink over the directory's bytes. */
  method RemoveRecord(s: seq<byte>, inode: nat) returns (r: Unlinked)
    requires Tiled(s, 0) && s != []
    ensures
      var q := Decode(s, 0);
      var k := FindInode(q, inode);
      if 0 < k < |q| then
        r.Done? && TakenOut(s, q, k - 1, r.bytes)
      else r == NotFound
  {
    hide Tiled, Decode, Encode, Start, FindInode, U32, U16, Real, Record.Size, Record.Ok, MergeAt, Removed, AllOk,
      TakenOut;
    ghost var q := Decode(s, 0);
    SeenAll(s, q);
    if q == [] { assert false; }
    Stepped(s, q, 0);
    if U32(s, 0) == inode {
      FindInodeIs(q, inode, 0);
      return NotFound;
    }
    ghost var k := 0;
    var current, left := 0, |s|;
    while true
      invariant k < |q| && current == Start(q, k) && left == |s| - current
      invariant forall j :: 0 <= j <= k ==> q[j].inode != inode
      decreases |q| - k
    {
      Stepped(s, q, k);
      var size := U16(s, current + 4);
      left := left - size;
      if left < HEADER {
        if k + 1 < |q| { Stepped(s, q, k + 1); }
        FindInodeIs(q, inode, |q|);
        return NotFound;
      }
      var next := current + size;
      if k + 1 == |q| { assert false; }
      Stepped(s, q, k + 1);
      if U32(s, next) == inode {
        FindInodeIs(q, inode, k + 1);
        MergeAtIs(s, q, k, current, next);
        return Done(MergeAt(s, current, next));
      }
      current := next;
      k := k + 1;
    }
  }

  /** Unlinking a name goes by its inode. It unbinds that name, and that name only, exactly when no
      earlier record, "." included, is for the same inode; the very first record is never taken out. */
  lemma UnlinkExact(q: seq<Record>, name: seq<byte>)
    requires AllOk(q) && DistinctNames(Visible(q)) && Find(Visible(q), name) < |Visible(q)|
    ensures
      var i, k := Find(Visible(q), name), FindInode(q, Lookup(Visible(q), name));
      && k <= i
      && (0 < k ==> (Lookup(Visible(Removed(q, k - 1)), name) == 0 <==> k == i))
      && (0 < k && k == i ==> forall m :: m != name ==> Lookup(Visible(Removed(q, k - 1)), m) == Lookup(Visible(q), m))
  {
    hide Visible, Removed;
    var v := Visible(q);
    var i, k := Find(v, name), FindInode(q, Lookup(v, name));
    assert v[i] == q[i];
    if 0 < k {
      assert v[k] == q[k];
      RemovedLookup(q, k - 1, name);
      forall m | m != name && k == i ensures Lookup(Visible(Removed(q, k - 1)), m) == Lookup(v, m) {
        RemovedLookup(q, k - 1, m);
      }
    }
  }

  // Records and blocks.

  /** Record k lies in one block. */
  predicate InBlock(q: seq<Record>, k: nat, block: nat)
    requires k < |q| && block > 0 && q[k].Size() > 0
  {
    Div(Start(q, k), block) == Div(Start(q, k) + q[k].Size() - 1, block)
  }

  predicate Blocked(q: seq<Record>, block: nat)
    requires block > 0 && AllOk(q)
  {
    forall k :: 0 <= k < |q| ==> InBlock(q, k, block)
  }

  lemma {:induction false} StartSame(q: seq<Record>, q': seq<Record>, k: nat)
    requires k <= |q| && k <= |q'| && forall j :: 0 <= j < k ==> q[j].Size() == q'[j].Size()
    ensures Start(q, k) == Start(q', k)
  {
    if k > 0 { StartSame(q, q', k - 1); }
  }

  lemma {:induction false} StartShift(q: seq<Record>, q': seq<Record>, a: nat, b: nat, n: nat)
    requires a + n <= |q| && b + n <= |q'| && Start(q, a) == Start(q', b) && q[a..a + n] == q'[b..b + n]
    ensures Start(q, a + n) == Start(q', b + n)
  {
    if n > 0 {
      assert q[a..a + n - 1] == q[a..a + n][..n - 1];
      assert q'[b..b + n - 1] == q'[b..b + n][..n - 1];
      StartShift(q, q', a, b, n - 1);
      assert q[a + n - 1] == q[a..a + n][n - 1];
      assert q'[b + n - 1] == q'[b..b + n][n - 1];
    }
  }

  /** Two neighbouring pieces of one block make one piece exactly when the second does not start a block. */
  lemma JoinInBlock(p: nat, x: nat, y: nat, block: nat)
    requires block > 0 && x > 0 && y > 0
    requires Div(p, block) == Div(p + x - 1, block) && Div(p + x, block) == Div(p + x + y - 1, block)
    ensures Div(p, block) == Div(p + x + y - 1, block) <==> Mod(p + x, block) != 0
  {
    DivMod(p + x - 1, block);
    DivMod(p + x, block);
    if Mod(p + x, block) != 0 {
      DivModUnique(Div(p + x, block), block, Mod(p + x, block) - 1);
    } else if Div(p + x - 1, block) == Div(p + x, block) {
      assert false;
    }
  }

  /** Part of a piece of one block is in one block. */
  lemma PartInBlock(p: nat, p': nat, e': nat, e: nat, block: nat)
    requires block > 0 && p <= p' <= e' <= e && Div(p, block) == Div(e, block)
    ensures Div(p', block) == Div(e', block)
  {
    DivMonotone(p, p', block);
    DivMonotone(p', e', block);
    DivMonotone(e', e, block);
  }

  /** Records after unlink lie in one block each exactly when the removed record did not start a block. */
  lemma RemovedBlocked(q: seq<Record>, k: nat, block: nat)
    requires AllOk(q) && k + 1 < |q| && q[k].Size() + q[k + 1].Size() < U16_END && block > 0 && Blocked(q, block)
    requires AllOk(Removed(q, k))
    ensures Blocked(Removed(q, k), block) <==> Mod(Start(q, k + 1), block) != 0
  {
    var q' := Removed(q, k);
    StartSame(q, q', k);
    assert InBlock(q, k, block) && InBlock(q, k + 1, block);
    JoinInBlock(Start(q, k), q[k].Size(), q[k + 1].Size(), block);
    assert q'[k] == Merged(q[k], q[k + 1]);
    if Mod(Start(q, k + 1), block) != 0 {
      forall j | 0 <= j < |q'| ensures InBlock(q', j, block) { RemovedInBlock(q, k, block, j); }
    } else {
      assert !InBlock(q', k, block);
    }
  }

  /** A record that has not moved is still in its block. */
  lemma StaysInBlock(q: seq<Record>, a: nat, q': seq<Record>, b: nat, block: nat)
    requires a < |q| && b < |q'| && block > 0 && q[a].Size() == q'[b].Size() > 0 && Start(q, a) == Start(q', b)
             && InBlock(q, a, block)
    ensures InBlock(q', b, block)
  {
  }

  /** Records behind the merged one start where they did. */
  lemma RemovedStarts(q: seq<Record>, k: nat, j: nat)
    requires k + 1 < |q| && k < j < |q|
    ensures Start(Removed(q, k), k) == Start(q, k) && Start(Removed(q, k), j) == Start(q, j + 1)
  {
    var q' := Removed(q, k);
    StartSame(q, q', k);
    assert q'[k] == Merged(q[k], q[k + 1]);
    assert Start(q', k + 1) == Start(q, k + 2);
    assert q'[k + 1..j] == q[k + 2..j + 1];
    StartShift(q', q, k + 1, k + 2, j - k - 1);
  }

  lemma RemovedInBlock(q: seq<Record>, k: nat, block: nat, j: nat)
    requires AllOk(q) && k + 1 < |q| && AllOk(Removed(q, k)) && block > 0 && Blocked(q, block) && j + 1 < |q|
    requires Div(Start(q, k), block) == Div(Start(q, k) + q[k].Size() + q[k + 1].Size() - 1, block)
    ensures InBlock(Removed(q, k), j, block)
  {
    hide Div, Real, Start, Record.Ok;
    var q' := Removed(q, k);
    if j < k {
      assert q'[j] == q[j];
      StartSame(q, q', j);
      StaysInBlock(q, j, q', j, block);
    } else if j == k {
      StartSame(q, q', k);
      assert q'[k] == Merged(q[k], q[k + 1]);
    } else {
      assert q'[j] == q[j + 1];
      RemovedStarts(q, k, j);
      StaysInBlock(q, j + 1, q', j, block);
    }
  }

  /** Adding a record keeps every record in one block, given a file of whole blocks. */
  lemma AddedBlocked(q: seq<Record>, k: nat, inode: nat, kind: byte, name: seq<byte>, block: nat)
    requires AllOk(q) && k <= |q| && Real(|name|) <= block && Blocked(q, block) && Mod(Start(q, |q|), block) == 0
    requires k < |q| ==> q[k].Size() - Real(|q[k].name|) >= Real(|name|)
    requires AllOk(Added(q, k, inode, kind, name, block))
    ensures Blocked(Added(q, k, inode, kind, name, block), block)
    ensures var q' := Added(q, k, inode, kind, name, block); Mod(Start(q', |q'|), block) == 0
  {
    hide Div, Mod, Real, Start, InBlock, Record.Ok;
    var q' := Added(q, k, inode, kind, name, block);
    forall j | 0 <= j < |q'| ensures InBlock(q', j, block) { AddedInBlock(q, k, inode, kind, name, block, j); }
    if k < |q| {
      AddedStarts(q, k, inode, kind, name, block, |q|);
    } else {
      AddedEnd(q, inode, kind, name, block);
    }
  }

  lemma AddedEnd(q: seq<Record>, inode: nat, kind: byte, name: seq<byte>, block: nat)
    requires AllOk(q) && Real(|name|) <= block && block > 0 && Mod(Start(q, |q|), block) == 0
    ensures Mod(Start(Added(q, |q|, inode, kind, name, block), |q| + 1), block) == 0
  {
    hide Div, Mod, Real, Record.Ok;
    StartSame(q, Added(q, |q|, inode, kind, name, block), |q|);
    NextBlock(Start(q, |q|), block);
  }

  /** Records behind the split one start where they did. */
  lemma AddedStarts(q: seq<Record>, k: nat, inode: nat, kind: byte, name: seq<byte>, block: nat, j: nat)
    requires AllOk(q) && k < j <= |q| && HEADER + |name| <= block && q[k].Size() - Real(|q[k].name|) >= Real(|name|)
    ensures var q' := Added(q, k, inode, kind, name, block);
            Start(q', j + 1) == Start(q, j) && Start(q', k) == Start(q, k)
  {
    hide Real, Record.Ok, Shrunk;
    var q' := Added(q, k, inode, kind, name, block);
    StartSame(q, q', k);
    ShrunkOk(q[k]);
    assert Start(q', k + 2) == Start(q, k + 1) by {
      assert q'[k] == Shrunk(q[k]);
      assert Start(q', k + 1) == Start(q', k) + Real(|q[k].name|);
    }
    assert q'[k + 2..j + 1] == q[k + 1..j];
    StartShift(q', q, k + 2, k + 1, j - k - 1);
  }

  lemma AddedInBlock(q: seq<Record>, k: nat, inode: nat, kind: byte, name: seq<byte>, block: nat, j: nat)
    requires AllOk(q) && k <= |q| && Real(|name|) <= block && Blocked(q, block) && Mod(Start(q, |q|), block) == 0
    requires k < |q| ==> q[k].Size() - Real(|q[k].name|) >= Real(|name|)
    requires AllOk(Added(q, k, inode, kind, name, block)) && j <= |q|
    ensures InBlock(Added(q, k, inode, kind, name, block), j, block)
  {
    hide Div, Mod, Real, Start, Record.Ok, Shrunk, Fresh;
    var q' := Added(q, k, inode, kind, name, block);
    if j < k {
      assert q'[j] == q[j];
      StartSame(q, q', j);
      StaysInBlock(q, j, q', j, block);
    } else if k == |q| {
      AddedEndInBlock(q, inode, kind, name, block);
    } else if j <= k + 1 {
      SplitInBlock(q, k, inode, kind, name, block);
    } else {
      assert q'[j] == q[j - 1];
      AddedStarts(q, k, inode, kind, name, block, j - 1);
      StaysInBlock(q, j - 1, q', j, block);
    }
  }

  lemma AddedEndInBlock(q: seq<Record>, inode: nat, kind: byte, name: seq<byte>, block: nat)
    requires AllOk(q) && HEADER + |name| <= block && Mod(Start(q, |q|), block) == 0
    requires AllOk(Added(q, |q|, inode, kind, name, block))
    ensures InBlock(Added(q, |q|, inode, kind, name, block), |q|, block)
  {
    hide Div, Mod, Real, Record.Ok;
    StartSame(q, Added(q, |q|, inode, kind, name, block), |q|);
    SameBlock(Start(q, |q|), block, block - 1);
  }

  lemma SplitInBlock(q: seq<Record>, k: nat, inode: nat, kind: byte, name: seq<byte>, block: nat)
    requires AllOk(q) && k < |q| && HEADER + |name| <= block && block > 0 && InBlock(q, k, block)
    requires q[k].Size() - Real(|q[k].name|) >= Real(|name|)
    requires AllOk(Added(q, k, inode, kind, name, block))
    ensures InBlock(Added(q, k, inode, kind, name, block), k, block)
            && InBlock(Added(q, k, inode, kind, name, block), k + 1, block)
  {
    hide Div, Mod, Real;
    var q' := Added(q, k, inode, kind, name, block);
    StartSame(q, q', k);
    ShrunkOk(q[k]);
    var p, e, z := Start(q, k), Start(q, k) + q[k].Size() - 1, Real(|q[k].name|);
    assert q'[k] == Shrunk(q[k]) && Start(q', k + 1) == p + z;
    PartInBlock(p, p, p + z - 1, e, block);
    PartInBlock(p, p + z, e, e, block);
  }
}
