/** The block map of an inode: how ext2_allocate_block extends it and get_block reads it back. */
module Ext2Map {
  import opened Bytes
  import opened Division
  import opened BlockCaches
  import opened Ext2Layout

  /** `*(u32 *)(h + at) = v`. */
  function SetU32(h: seq<byte>, at: nat, v: nat): (r: seq<byte>)
    requires at + 4 <= |h| && v < U32_END
    ensures |r| == |h|
  {
    Splice(h, at, FromU32(v))
  }

  lemma SetU32Field(h: seq<byte>, at: nat, v: nat, k: nat)
    requires at + 4 <= |h| && v < U32_END && k + 4 <= |h|
    ensures k == at ==> U32(SetU32(h, at, v), k) == v
    ensures k + 4 <= at || at + 4 <= k ==> U32(SetU32(h, at, v), k) == U32(h, k)
  {
    SpliceU32(h, at, FromU32(v), k);
  }

  /** write_to_indirect_block. */
  function SetPtr(d: Disk, b: nat, at: nat, v: nat): (r: Disk)
    requires b in d && at + 4 <= |d[b]| && v < U32_END
    ensures r.Keys == d.Keys && |r[b]| == |d[b]|
  {
    d[b := SetU32(d[b], at, v)]
  }

  lemma SetPtrAt(d: Disk, b: nat, at: nat, v: nat, b': nat, at': nat)
    requires b in d && at + 4 <= |d[b]| && v < U32_END
    ensures b' == b && at' == at ==> Ptr(SetPtr(d, b, at, v), b', at') == v
    ensures b' != b || at' + 4 <= at || at + 4 <= at' ==> Ptr(SetPtr(d, b, at, v), b', at') == Ptr(d, b', at')
  {
    if b' == b && at' + 4 <= |d[b]| { SetU32Field(d[b], at, v, at'); }
  }

  /** The first i blocks are still found in the same places. */
  ghost predicate SameBelow(g: Geometry, d: Disk, h: seq<byte>, d': Disk, h': seq<byte>, i: nat)
    requires GeometryOk(g) && |h| >= INODE_T && |h'| >= INODE_T
  {
    forall k :: 0 <= k < i ==> BlockOf(d', g, h', k) == BlockOf(d, g, h, k)
  }

  lemma QuarterOf(b: nat)
    requires b >= 1024 && b % 1024 == 0
    ensures b / 4 >= 256 && b == 4 * (b / 4)
  {
    assert b == 1024 * (b / 1024);
  }

  lemma CapacityFacts(g: Geometry)
    requires GeometryOk(g)
    ensures Capacity(g) >= 256 && g.blockSize == 4 * Capacity(g)
  {
    QuarterOf(g.blockSize);
  }

  /** The inner block of a doubly indirect index is among those already attached. */
  lemma InnerOfIndex(g: Geometry, j: nat)
    requires GeometryOk(g)
    ensures 0 <= Div(j, Capacity(g)) * Capacity(g) <= j
    ensures 4 * Mod(j, Capacity(g)) + 4 <= g.blockSize
    ensures j < Capacity(g) * Capacity(g) ==> 4 * Div(j, Capacity(g)) + 4 <= g.blockSize
  {
    var c := Capacity(g);
    CapacityFacts(g);
    DivMod(j, c);
    DivBelow(j, c, c);
    MulLe(0, Div(j, c), c);
  }

  lemma MapOkFields(d: Disk, g: Geometry, owner: Owners, n: nat, h: seq<byte>, u: nat, i: nat)
    requires GeometryOk(g) && MapOk(d, g, owner, n, h, u) && i < u
    ensures Owned(owner, BlockOf(d, g, h, i), Data(n, i))
    ensures i >= 12 ==> Owned(owner, Single(h), SingleOf(n))
    ensures i >= 12 + Capacity(g) ==>
              var j := Div(i - 12 - Capacity(g), Capacity(g));
              Owned(owner, Double(h), DoubleOf(n)) && Owned(owner, Ptr(d, Double(h), 4 * j), InnerOf(n, j))
  {
    if i >= 12 + Capacity(g) { InnerOfIndex(g, i - 12 - Capacity(g)); }
  }

  lemma MapLength(d: Disk, g: Geometry, owner: Owners, n: nat, h: seq<byte>, u: nat)
    requires GeometryOk(g) && MapOk(d, g, owner, n, h, u)
    ensures |h| >= INODE_T && u <= MaxBlocks(g)
  {
  }

  // ext2_allocate_block, case by case. The new block b becomes block i of file n.

  lemma GrowDirect(d: Disk, g: Geometry, owner: Owners, n: nat, h: seq<byte>, i: nat, b: nat)
    requires GeometryOk(g) && MapOk(d, g, owner, n, h, i) && i < 12 && b !in owner && b < U32_END
    ensures
      var h' := SetU32(h, 40 + 4 * i, b);
      && MapOk(d, g, owner[b := Data(n, i)], n, h', i + 1)
      && BlockOf(d, g, h', i) == b && SameBelow(g, d, h, d, h', i)
  {
    CapacityFacts(g);
    var h', owner' := SetU32(h, 40 + 4 * i, b), owner[b := Data(n, i)];
    forall k | 0 <= k <= i ensures BlockOf(d, g, h', k) == if k == i then b else BlockOf(d, g, h, k) {
      SetU32Field(h, 40 + 4 * i, b, 40 + 4 * k);
    }
    forall k | 0 <= k < i + 1 ensures Owned(owner', BlockOf(d, g, h', k), Data(n, k)) {
      if k < i { MapOkFields(d, g, owner, n, h, i, k); }
    }
    MulLe(256, Capacity(g), Capacity(g));
    NoInner(g, i + 1);
  }

  /** Below the doubly indirect range there are no inner blocks. */
  lemma NoInner(g: Geometry, u: nat)
    requires GeometryOk(g) && u <= 12 + Capacity(g)
    ensures forall j :: 0 <= j ==> !(12 + Capacity(g) + j * Capacity(g) < u)
  {
    forall j | 0 <= j ensures j * Capacity(g) >= 0 { MulLe(0, j, Capacity(g)); }
  }

  /** The first indirect block: its pointer in the inode, before it holds any. */
  lemma AttachSingle(d: Disk, g: Geometry, owner: Owners, n: nat, h: seq<byte>, s: nat)
    requires GeometryOk(g) && MapOk(d, g, owner, n, h, 12) && s !in owner && s < U32_END
    ensures
      var h' := SetU32(h, 88, s);
      MapOk(d, g, owner[s := SingleOf(n)], n, h', 12) && Single(h') == s && SameBelow(g, d, h, d, h', 12)
  {
    var h', owner' := SetU32(h, 88, s), owner[s := SingleOf(n)];
    SetU32Field(h, 88, s, 88);
    forall k | 0 <= k < 12 ensures BlockOf(d, g, h', k) == BlockOf(d, g, h, k)
        && Owned(owner', BlockOf(d, g, h', k), Data(n, k)) {
      SetU32Field(h, 88, s, 40 + 4 * k);
      MapOkFields(d, g, owner, n, h, 12, k);
    }
    NoInner(g, 12);
  }

  lemma GrowSingle(d: Disk, g: Geometry, owner: Owners, n: nat, h: seq<byte>, i: nat, b: nat)
    requires GeometryOk(g) && BlocksSized(d, g) && MapOk(d, g, owner, n, h, i) && 12 <= i < 12 + Capacity(g)
    requires Owned(owner, Single(h), SingleOf(n)) && Single(h) in d && b !in owner && b < U32_END
    ensures
      var d' := SetPtr(d, Single(h), 4 * (i - 12), b);
      && MapOk(d', g, owner[b := Data(n, i)], n, h, i + 1)
      && BlockOf(d', g, h, i) == b && SameBelow(g, d, h, d', h, i)
  {
    CapacityFacts(g);
    var d', owner' := SetPtr(d, Single(h), 4 * (i - 12), b), owner[b := Data(n, i)];
    forall k | 0 <= k <= i
      ensures BlockOf(d', g, h, k) == if k == i then b else BlockOf(d, g, h, k)
      ensures Owned(owner', BlockOf(d', g, h, k), Data(n, k))
    {
      if k >= 12 { SetPtrAt(d, Single(h), 4 * (i - 12), b, Single(h), 4 * (k - 12)); }
      if k < i { MapOkFields(d, g, owner, n, h, i, k); }
    }
    MulLe(256, Capacity(g), Capacity(g));
    NoInner(g, i + 1);
  }

  /** The doubly indirect block: its pointer in the inode, before it holds any. */
  lemma AttachDouble(d: Disk, g: Geometry, owner: Owners, n: nat, h: seq<byte>, s: nat)
    requires GeometryOk(g) && MapOk(d, g, owner, n, h, 12 + Capacity(g)) && s !in owner && s < U32_END
    ensures
      var h' := SetU32(h, 92, s);
      && MapOk(d, g, owner[s := DoubleOf(n)], n, h', 12 + Capacity(g)) && Double(h') == s
      && SameBelow(g, d, h, d, h', 12 + Capacity(g))
  {
    CapacityFacts(g);
    var u := 12 + Capacity(g);
    var h', owner' := SetU32(h, 92, s), owner[s := DoubleOf(n)];
    SetU32Field(h, 92, s, 92);
    SetU32Field(h, 92, s, 88);
    forall k | 0 <= k < u ensures BlockOf(d, g, h', k) == BlockOf(d, g, h, k)
        && Owned(owner', BlockOf(d, g, h', k), Data(n, k)) {
      if k < 12 { SetU32Field(h, 92, s, 40 + 4 * k); }
      MapOkFields(d, g, owner, n, h, u, k);
    }
    MapOkFields(d, g, owner, n, h, u, 12);
    NoInner(g, u);
  }

  /** The next inner block: its pointer in the doubly indirect block, before it holds any. */
  lemma AttachInner(d: Disk, g: Geometry, owner: Owners, n: nat, h: seq<byte>, j: nat, v: nat)
    requires GeometryOk(g) && BlocksSized(d, g) && j < Capacity(g)
    requires j * Capacity(g) >= 0 && MapOk(d, g, owner, n, h, 12 + Capacity(g) + j * Capacity(g))
    requires Owned(owner, Double(h), DoubleOf(n)) && Double(h) in d && v !in owner && v < U32_END
    ensures
      var u := 12 + Capacity(g) + j * Capacity(g);
      var d' := SetPtr(d, Double(h), 4 * j, v);
      && MapOk(d', g, owner[v := InnerOf(n, j)], n, h, u) && Ptr(d', Double(h), 4 * j) == v
      && SameBelow(g, d, h, d', h, u)
  {
    CapacityFacts(g);
    var c, u := Capacity(g), 12 + Capacity(g) + j * Capacity(g);
    var d', owner' := SetPtr(d, Double(h), 4 * j, v), owner[v := InnerOf(n, j)];
    MapOkFields(d, g, owner, n, h, u, 12);
    SetPtrAt(d, Double(h), 4 * j, v, Double(h), 4 * j);
    forall i | 0 <= i && 12 + c + i * c < u
      ensures i < j && Ptr(d', Double(h), 4 * i) == Ptr(d, Double(h), 4 * i)
      ensures Owned(owner', Ptr(d', Double(h), 4 * i), InnerOf(n, i))
    {
      if i >= j { MulLe(j, i, c); }
      SetPtrAt(d, Double(h), 4 * j, v, Double(h), 4 * i);
    }
    forall k | 0 <= k < u
      ensures BlockOf(d', g, h, k) == BlockOf(d, g, h, k) && Owned(owner', BlockOf(d', g, h, k), Data(n, k))
    {
      MapOkFields(d, g, owner, n, h, u, k);
      UnderOther(d, g, owner, n, h, u, k, Double(h), j, v);
    }
  }

  /** Changing pointer j of the doubly indirect block moves no block found through an earlier one. */
  lemma UnderOther(d: Disk, g: Geometry, owner: Owners, n: nat, h: seq<byte>, u: nat, k: nat, b: nat, j: nat, v: nat)
    requires GeometryOk(g) && BlocksSized(d, g) && MapOk(d, g, owner, n, h, u) && k < u
    requires b == Double(h) && Owned(owner, b, DoubleOf(n)) && b in d && j < Capacity(g) && v < U32_END
    requires j * Capacity(g) >= 0 && u == 12 + Capacity(g) + j * Capacity(g)
    ensures 4 * j + 4 <= |d[b]| && BlockOf(SetPtr(d, b, 4 * j, v), g, h, k) == BlockOf(d, g, h, k)
  {
    CapacityFacts(g);
    MapOkFields(d, g, owner, n, h, u, k);
    var c := Capacity(g);
    if 12 <= k < 12 + c {
      SetPtrAt(d, b, 4 * j, v, Single(h), 4 * (k - 12));
    } else if k >= 12 + c {
      var i := k - 12 - c;
      DivBelow(i, c, j);
      SetPtrAt(d, b, 4 * j, v, b, 4 * Div(i, c));
      SetPtrAt(d, b, 4 * j, v, Ptr(d, b, 4 * Div(i, c)), 4 * Mod(i, c));
    }
  }

  lemma GrowDouble(d: Disk, g: Geometry, owner: Owners, n: nat, h: seq<byte>, i: nat, b: nat, v: nat)
    requires GeometryOk(g) && BlocksSized(d, g) && MapOk(d, g, owner, n, h, i) && 12 + Capacity(g) <= i < MaxBlocks(g)
    requires Owned(owner, Double(h), DoubleOf(n)) && b !in owner && b < U32_END
    requires var j := Div(i - 12 - Capacity(g), Capacity(g));
             v == Ptr(d, Double(h), 4 * j) && Owned(owner, v, InnerOf(n, j)) && v in d
    ensures
      4 * Mod(i - 12 - Capacity(g), Capacity(g)) + 4 <= |d[v]|
    ensures
      var d' := SetPtr(d, v, 4 * Mod(i - 12 - Capacity(g), Capacity(g)), b);
      && MapOk(d', g, owner[b := Data(n, i)], n, h, i + 1)
      && BlockOf(d', g, h, i) == b && SameBelow(g, d, h, d', h, i)
  {
    CapacityFacts(g);
    var c := Capacity(g);
    var m := i - 12 - c;
    var j, at := Div(m, c), 4 * Mod(m, c);
    InnerOfIndex(g, m);
    var d', owner' := SetPtr(d, v, at, b), owner[b := Data(n, i)];
    forall t: nat ensures Ptr(d', Double(h), t) == Ptr(d, Double(h), t) {
      SetPtrAt(d, v, at, b, Double(h), t);
    }
    forall t | 0 <= t && 12 + c + t * c < i + 1 ensures Owned(owner', Ptr(d', Double(h), 4 * t), InnerOf(n, t)) {
      DivBelow(m, c, t);
      if t < j { MulLe(t + 1, j, c); assert (t + 1) * c == t * c + c; assert 12 + c + t * c < i; }
    }
    forall k | 0 <= k <= i
      ensures BlockOf(d', g, h, k) == if k == i then b else BlockOf(d, g, h, k)
      ensures Owned(owner', BlockOf(d', g, h, k), Data(n, k))
    {
      if k == i {
        SetPtrAt(d, v, at, b, v, at);
      } else {
        MapOkFields(d, g, owner, n, h, i, k);
        BesideInner(d, g, owner, n, h, i, k, v, b);
      }
    }
    MapOkFields(d, g, owner, n, h, i, 12);
  }

  /** Writing word m of the current inner block moves no earlier block. */
  lemma BesideInner(d: Disk, g: Geometry, owner: Owners, n: nat, h: seq<byte>, i: nat, k: nat, v: nat, b: nat)
    requires GeometryOk(g) && BlocksSized(d, g) && MapOk(d, g, owner, n, h, i) && k < i && 12 + Capacity(g) <= i
    requires Owned(owner, v, InnerOf(n, Div(i - 12 - Capacity(g), Capacity(g)))) && v in d && b < U32_END
    ensures 4 * Mod(i - 12 - Capacity(g), Capacity(g)) + 4 <= |d[v]|
    ensures BlockOf(SetPtr(d, v, 4 * Mod(i - 12 - Capacity(g), Capacity(g)), b), g, h, k) == BlockOf(d, g, h, k)
  {
    CapacityFacts(g);
    var c := Capacity(g);
    var m := i - 12 - c;
    InnerOfIndex(g, m);
    var at := 4 * Mod(m, c);
    MapOkFields(d, g, owner, n, h, i, k);
    if 12 <= k < 12 + c {
      SetPtrAt(d, v, at, b, Single(h), 4 * (k - 12));
    } else if k >= 12 + c {
      var p := k - 12 - c;
      SetPtrAt(d, v, at, b, Double(h), 4 * Div(p, c));
      var inner := Ptr(d, Double(h), 4 * Div(p, c));
      if inner == v && Mod(p, c) == Mod(m, c) { DivModInjective(p, m, c); }
      SetPtrAt(d, v, at, b, inner, 4 * Mod(p, c));
    }
  }

  /** Nothing that belongs to file n has changed. */
  ghost predicate FileBlocksSame(d: Disk, d': Disk, owner: Owners, n: nat) {
    forall b :: b in owner && Of(owner[b], n) ==> b in d && b in d' && d'[b] == d[b]
  }

  ghost predicate OwnerGrows(owner: Owners, owner': Owners) {
    forall b :: b in owner ==> b in owner' && owner'[b] == owner[b]
  }

  lemma BlockOfSame(d: Disk, d': Disk, g: Geometry, owner: Owners, n: nat, h: seq<byte>, u: nat, i: nat)
    requires GeometryOk(g) && MapOk(d, g, owner, n, h, u) && i < u && FileBlocksSame(d, d', owner, n)
    ensures BlockOf(d', g, h, i) == BlockOf(d, g, h, i)
  {
    MapOkFields(d, g, owner, n, h, u, i);
  }

  /** A file's map survives whatever leaves its own blocks alone. */
  lemma MapOkSame(d: Disk, d': Disk, g: Geometry, owner: Owners, owner': Owners, n: nat, h: seq<byte>, u: nat)
    requires GeometryOk(g) && MapOk(d, g, owner, n, h, u) && FileBlocksSame(d, d', owner, n)
             && OwnerGrows(owner, owner')
    ensures MapOk(d', g, owner', n, h, u) && SameBelow(g, d, h, d', h, u)
  {
    forall i | 0 <= i < u
      ensures BlockOf(d', g, h, i) == BlockOf(d, g, h, i) && Owned(owner', BlockOf(d', g, h, i), Data(n, i))
    {
      BlockOfSame(d, d', g, owner, n, h, u, i);
    }
    forall j | 0 <= j && 12 + Capacity(g) + j * Capacity(g) < u
      ensures Owned(owner', Ptr(d', Double(h), 4 * j), InnerOf(n, j))
    {
      MulLe(0, j, Capacity(g));
      assert Owned(owner, Double(h), DoubleOf(n));
      assert Owned(owner, Ptr(d, Double(h), 4 * j), InnerOf(n, j));
    }
  }
}
