/** The list of kernel/kmalloc.c as a value: address-ordered entries inside the regions ksbrk gave out. */
module HeapList {
  import opened Bytes

  /** sizeof(MallocHeader). */
  const HEADER: nat := 20

  /** One list entry: a header at `addr` and `size` bytes behind it. `last` is IS_FINAL. */
  datatype Entry = Entry(addr: nat, size: nat, free: bool, last: bool, region: nat)

  datatype Region = Region(lo: nat, hi: nat)

  function End(e: Entry): nat {
    e.addr + HEADER + e.size
  }

  function Payload(e: Entry): nat {
    e.addr + HEADER
  }

  /** Entry b comes behind entry a, and in a later region if a closes its own. */
  predicate Behind(a: Entry, b: Entry) {
    End(a) <= b.addr && a.region <= b.region && (a.last ==> a.region < b.region)
  }

  /** Entries do not overlap, follow one another in memory, and an IS_FINAL one closes its region. */
  ghost predicate Ordered(q: seq<Entry>) {
    forall i, j :: 0 <= i < j < |q| ==> Behind(q[i], q[j])
  }

  /** The entry lies inside its region; an allocated entry is never the last of its region. */
  predicate InRegion(e: Entry, regions: seq<Region>) {
    && e.addr > 0 && (e.last ==> e.free) && e.region < |regions|
    && regions[e.region].lo <= e.addr && End(e) <= regions[e.region].hi
  }

  ghost predicate Placed(q: seq<Entry>, regions: seq<Region>) {
    forall i :: 0 <= i < |q| ==> InRegion(q[i], regions)
  }

  /** Entry i is followed by another of the same region. */
  ghost predicate Joined(q: seq<Entry>, i: nat) {
    i + 1 < |q| && q[i].region == q[i + 1].region
  }

  ghost predicate Chained(q: seq<Entry>) {
    forall i: nat {:trigger Joined(q, i)} :: i < |q| && !q[i].last ==> Joined(q, i)
  }

  ghost predicate Apart(regions: seq<Region>, brk: nat) {
    && (forall a, b :: 0 <= a < b < |regions| ==> regions[a].hi <= regions[b].lo)
    && (forall a :: 0 <= a < |regions| ==> regions[a].lo <= regions[a].hi <= brk)
  }

  ghost predicate HeapOk(q: seq<Entry>, regions: seq<Region>, brk: nat) {
    && q != [] && Ordered(q) && Placed(q, regions) && Chained(q) && Apart(regions, brk)
    && q[|q| - 1].region == |regions| - 1
  }

  /** The last entry of the list is free. */
  lemma LastFree(q: seq<Entry>, regions: seq<Region>, brk: nat)
    requires HeapOk(q, regions, brk)
    ensures q[|q| - 1].last && q[|q| - 1].free && End(q[|q| - 1]) <= brk
  {
    var k: nat := |q| - 1;
    assert q[k].last || Joined(q, k);
  }

  // The live allocations.

  ghost function Live(q: seq<Entry>): map<nat, nat> {
    if q == [] then map[]
    else if q[0].free then Live(q[1..])
    else Live(q[1..])[Payload(q[0]) := q[0].size]
  }

  /** p is the payload of the allocated entry i. */
  ghost predicate Holds(q: seq<Entry>, i: nat, p: nat) {
    i < |q| && !q[i].free && Payload(q[i]) == p
  }

  lemma {:induction false} LiveHas(q: seq<Entry>, i: nat)
    requires Ordered(q) && i < |q| && !q[i].free
    ensures Payload(q[i]) in Live(q) && Live(q)[Payload(q[i])] == q[i].size
  {
    if i > 0 { LiveHas(q[1..], i - 1); }
  }

  lemma {:induction false} LiveFind(q: seq<Entry>, p: nat) returns (i: nat)
    requires Ordered(q) && p in Live(q)
    ensures Holds(q, i, p) && Live(q)[p] == q[i].size
  {
    if !q[0].free && p == Payload(q[0]) {
      i := 0;
    } else {
      var j := LiveFind(q[1..], p);
      i := j + 1;
    }
  }

  /** Live payloads overlap neither each other nor any header of the list. */
  lemma LiveApart(q: seq<Entry>, p: nat, i: nat)
    requires Ordered(q) && p in Live(q) && i < |q|
    ensures p + Live(q)[p] <= q[i].addr || Payload(q[i]) <= p
    ensures forall p' :: p' in Live(q) && p' != p ==> p + Live(q)[p] <= p' || p' + Live(q)[p'] <= p
  {
    var k := LiveFind(q, p);
    forall p' | p' in Live(q) && p' != p ensures p + Live(q)[p] <= p' || p' + Live(q)[p'] <= p {
      var k' := LiveFind(q, p');
    }
  }

  // merge_headers.

  predicate CanMerge(q: seq<Entry>, k: nat) {
    k + 1 < |q| && q[k].free && !q[k].last && q[k + 1].free
  }

  /** Entry k swallows the next one, whose header is lost. */
  function Merged(q: seq<Entry>, k: nat): seq<Entry>
    requires k + 1 < |q|
  {
    q[..k] + [q[k].(size := q[k].size + q[k + 1].size, last := q[k + 1].last)] + q[k + 2..]
  }

  /** Where entry i of the merged list came from. */
  lemma MergedAt(q: seq<Entry>, k: nat, i: nat)
    requires k + 1 < |q| && i < |q| - 1
    ensures |Merged(q, k)| == |q| - 1
    ensures Merged(q, k)[i] == if i < k then q[i]
                               else if i == k then q[k].(size := q[k].size + q[k + 1].size, last := q[k + 1].last)
                               else q[i + 1]
  {
  }

  lemma OrderedAt(q: seq<Entry>, i: nat, j: nat)
    requires Ordered(q) && i < j < |q|
    ensures Behind(q[i], q[j])
  {
  }

  lemma MergedPair(q: seq<Entry>, k: nat, i: nat, j: nat)
    requires Ordered(q) && CanMerge(q, k) && Joined(q, k) && i < j < |q| - 1
    ensures Behind(Merged(q, k)[i], Merged(q, k)[j])
  {
    hide Merged, Ordered;
    MergedAt(q, k, i);
    MergedAt(q, k, j);
    OrderedAt(q, k, k + 1);
    OrderedAt(q, if i < k then i else i + 1, if j <= k then j else j + 1);
    if i < k && j == k { OrderedAt(q, i, k); }
  }

  lemma MergedOne(q: seq<Entry>, regions: seq<Region>, k: nat, i: nat)
    requires Ordered(q) && Placed(q, regions) && Chained(q) && CanMerge(q, k) && i < |q| - 1
    ensures InRegion(Merged(q, k)[i], regions) && (!Merged(q, k)[i].last ==> Joined(Merged(q, k), i))
  {
    hide Merged, Ordered;
    MergedAt(q, k, i);
    if i + 1 < |q| - 1 { MergedAt(q, k, i + 1); }
    assert q[k].last || Joined(q, k);
    OrderedAt(q, k, k + 1);
    var o := if i < k then i else i + 1;
    assert q[o].last || Joined(q, o);
  }

  lemma MergedOk(q: seq<Entry>, regions: seq<Region>, brk: nat, k: nat)
    requires HeapOk(q, regions, brk) && CanMerge(q, k)
    ensures HeapOk(Merged(q, k), regions, brk)
  {
    hide Merged, Behind, InRegion, Joined, Apart;
    var q' := Merged(q, k);
    MergedAt(q, k, |q| - 2);
    assert q[k].last || Joined(q, k);
    forall i, j | 0 <= i < j < |q'| ensures Behind(q'[i], q'[j]) { MergedPair(q, k, i, j); }
    forall i | 0 <= i < |q'| ensures InRegion(q'[i], regions) && (!q'[i].last ==> Joined(q', i)) {
      MergedOne(q, regions, k, i);
    }
    JoinedSame(q, k);
  }

  lemma JoinedSame(q: seq<Entry>, k: nat)
    requires Joined(q, k)
    ensures q[k].region == q[k + 1].region
  {
  }

  lemma MergedLive(q: seq<Entry>, k: nat)
    requires Ordered(q) && CanMerge(q, k) && Ordered(Merged(q, k))
    ensures Live(Merged(q, k)) == Live(q)
  {
    hide Merged, Ordered, Live;
    var q' := Merged(q, k);
    MergedAt(q, k, 0);
    forall p | p in Live(q) ensures p in Live(q') && Live(q')[p] == Live(q)[p] {
      var i := LiveFind(q, p);
      var i' := if i < k then i else i - 1;
      MergedAt(q, k, i');
      LiveHas(q', i');
    }
    forall p | p in Live(q') ensures p in Live(q) {
      var i := LiveFind(q', p);
      MergedAt(q, k, i);
      LiveHas(q, if i < k then i else i + 1);
    }
  }

  // int_kmalloc.

  /** Entry k is cut: n bytes are allocated, the rest stays free behind a new header. */
  function Split(q: seq<Entry>, k: nat, n: nat): seq<Entry>
    requires k < |q| && n + HEADER <= q[k].size
  {
    q[..k] + [q[k].(size := n, free := false, last := false),
              Entry(q[k].addr + HEADER + n, q[k].size - n - HEADER, q[k].free, q[k].last, q[k].region)] + q[k + 1..]
  }

  lemma SplitAt(q: seq<Entry>, k: nat, n: nat, i: nat)
    requires k < |q| && n + HEADER <= q[k].size && i <= |q|
    ensures |Split(q, k, n)| == |q| + 1
    ensures Split(q, k, n)[i] ==
            if i < k then q[i]
            else if i == k then q[k].(size := n, free := false, last := false)
            else if i == k + 1 then
              Entry(q[k].addr + HEADER + n, q[k].size - n - HEADER, q[k].free, q[k].last, q[k].region)
            else q[i - 1]
  {
  }

  lemma SplitPair(q: seq<Entry>, k: nat, n: nat, i: nat, j: nat)
    requires Ordered(q) && k < |q| && n + HEADER <= q[k].size && i < j <= |q|
    ensures Behind(Split(q, k, n)[i], Split(q, k, n)[j])
  {
    hide Split, Ordered;
    SplitAt(q, k, n, i);
    SplitAt(q, k, n, j);
    var a, b := if i <= k then i else i - 1, if j <= k then j else j - 1;
    if a < b { OrderedAt(q, a, b); }
  }

  lemma SplitOne(q: seq<Entry>, regions: seq<Region>, k: nat, n: nat, i: nat)
    requires Placed(q, regions) && Chained(q) && k < |q| && n + HEADER <= q[k].size && q[k].free && i <= |q|
    ensures InRegion(Split(q, k, n)[i], regions) && (!Split(q, k, n)[i].last ==> Joined(Split(q, k, n), i))
  {
    hide Split;
    SplitAt(q, k, n, i);
    if i < |q| { SplitAt(q, k, n, i + 1); }
    var o := if i <= k then i else i - 1;
    assert q[o].last || Joined(q, o);
  }

  lemma SplitOk(q: seq<Entry>, regions: seq<Region>, brk: nat, k: nat, n: nat)
    requires HeapOk(q, regions, brk) && k < |q| && n + HEADER <= q[k].size && q[k].free
    ensures HeapOk(Split(q, k, n), regions, brk)
  {
    hide Split, Behind, InRegion, Joined, Apart;
    var q' := Split(q, k, n);
    SplitAt(q, k, n, |q|);
    forall i, j | 0 <= i < j < |q'| ensures Behind(q'[i], q'[j]) { SplitPair(q, k, n, i, j); }
    forall i | 0 <= i < |q'| ensures InRegion(q'[i], regions) && (!q'[i].last ==> Joined(q', i)) {
      SplitOne(q, regions, k, n, i);
    }
  }

  lemma SplitLive(q: seq<Entry>, k: nat, n: nat)
    requires Ordered(q) && k < |q| && n + HEADER <= q[k].size && q[k].free && Ordered(Split(q, k, n))
    ensures Payload(q[k]) !in Live(q) && Live(Split(q, k, n)) == Live(q)[Payload(q[k]) := n]
  {
    hide Split, Live;
    var q', p0 := Split(q, k, n), Payload(q[k]);
    SplitAt(q, k, n, 0);
    if p0 in Live(q) {
      var i := LiveFind(q, p0);
      assert false;
    }
    forall p | p in Live(q) || p == p0 ensures p in Live(q') && Live(q')[p] == if p == p0 then n else Live(q)[p] {
      if p == p0 {
        SplitAt(q, k, n, k);
        LiveHas(q', k);
      } else {
        var i := LiveFind(q, p);
        var i' := if i < k then i else i + 1;
        SplitAt(q, k, n, i');
        LiveHas(q', i');
      }
    }
    forall p | p in Live(q') ensures p in Live(q) || p == p0 {
      var i := LiveFind(q', p);
      SplitAt(q, k, n, i);
      if i != k { LiveHas(q, if i < k then i else i - 1); }
    }
  }

  // Changing one entry in place.

  /** kfree and the shrinking branch of krealloc. */
  lemma ChangedOk(q: seq<Entry>, regions: seq<Region>, brk: nat, k: nat, size: nat, free: bool)
    requires HeapOk(q, regions, brk) && k < |q| && size <= q[k].size && !q[k].last
    ensures HeapOk(q[k := q[k].(size := size, free := free)], regions, brk)
  {
    hide Apart;
    var q' := q[k := q[k].(size := size, free := free)];
    forall i, j | 0 <= i < j < |q'| ensures Behind(q'[i], q'[j]) { assert Behind(q[i], q[j]); }
    forall i | 0 <= i < |q'| ensures InRegion(q'[i], regions) { assert InRegion(q[i], regions); }
    forall i | 0 <= i < |q'| && !q'[i].last ensures Joined(q', i) { assert Joined(q, i); }
  }

  lemma ChangedLive(q: seq<Entry>, k: nat, size: nat, free: bool)
    requires Ordered(q) && k < |q| && !q[k].free && Ordered(q[k := q[k].(size := size, free := free)])
    ensures Live(q[k := q[k].(size := size, free := free)])
            == if free then Live(q) - {Payload(q[k])} else Live(q)[Payload(q[k]) := size]
  {
    hide Live;
    var q', p0 := q[k := q[k].(size := size, free := free)], Payload(q[k]);
    LiveHas(q, k);
    if !free { LiveHas(q', k); }
    forall p | p in Live(q) && p != p0 ensures p in Live(q') && Live(q')[p] == Live(q)[p] {
      var i := LiveFind(q, p);
      LiveHas(q', i);
    }
    forall p | p in Live(q') && p != p0 ensures p in Live(q) {
      var i := LiveFind(q', p);
      LiveHas(q, i);
    }
    if free && p0 in Live(q') {
      var i := LiveFind(q', p0);
      assert false;
    }
  }

  // add_heap_memory.

  /** The last entry grows into the region that follows it directly. */
  function Extended(q: seq<Entry>, more: nat): seq<Entry>
    requires q != []
  {
    q[|q| - 1 := q[|q| - 1].(size := q[|q| - 1].size + more)]
  }

  function Stretched(regions: seq<Region>, hi: nat): seq<Region>
    requires regions != []
  {
    regions[|regions| - 1 := regions[|regions| - 1].(hi := hi)]
  }

  lemma StretchedApart(regions: seq<Region>, brk: nat, hi: nat)
    requires Apart(regions, brk) && regions != [] && brk <= hi
    ensures Apart(Stretched(regions, hi), hi)
  {
  }

  lemma ExtendedOne(q: seq<Entry>, regions: seq<Region>, brk: nat, more: nat, hi: nat, i: nat)
    requires HeapOk(q, regions, brk) && i < |q| && brk <= hi && End(q[|q| - 1]) + more <= hi
    ensures InRegion(Extended(q, more)[i], Stretched(regions, hi))
            && (!Extended(q, more)[i].last ==> Joined(Extended(q, more), i))
  {
    hide Ordered;
    assert InRegion(q[i], regions);
    assert q[i].last || Joined(q, i);
  }

  lemma ExtendedOk(q: seq<Entry>, regions: seq<Region>, brk: nat, p: nat, size: nat)
    requires HeapOk(q, regions, brk) && brk <= p && size >= HEADER && End(q[|q| - 1]) == p
    ensures HeapOk(Extended(q, size - HEADER), Stretched(regions, p + size), p + size)
  {
    hide Apart, InRegion, Joined, End;
    var q' := Extended(q, size - HEADER);
    StretchedApart(regions, brk, p + size);
    forall i, j | 0 <= i < j < |q'| ensures Behind(q'[i], q'[j]) { assert Behind(q[i], q[j]); }
    forall i: nat | i < |q'| ensures InRegion(q'[i], Stretched(regions, p + size)) && (!q'[i].last ==> Joined(q', i)) {
      ExtendedOne(q, regions, brk, size - HEADER, p + size, i);
    }
  }

  lemma ExtendedLive(q: seq<Entry>, more: nat)
    requires Ordered(q) && q != [] && q[|q| - 1].free && Ordered(Extended(q, more))
    ensures Live(Extended(q, more)) == Live(q)
  {
    hide Live;
    var q' := Extended(q, more);
    forall p | p in Live(q) ensures p in Live(q') && Live(q')[p] == Live(q)[p] {
      var i := LiveFind(q, p);
      LiveHas(q', i);
    }
    forall p | p in Live(q') ensures p in Live(q) {
      var i := LiveFind(q', p);
      LiveHas(q, i);
    }
  }

  /** A new region with one free entry. */
  function Grown(q: seq<Entry>, regions: seq<Region>, p: nat, size: nat): seq<Entry>
    requires size >= HEADER
  {
    q + [Entry(p, size - HEADER, true, true, |regions|)]
  }

  lemma GrownOk(q: seq<Entry>, regions: seq<Region>, brk: nat, p: nat, size: nat)
    requires HeapOk(q, regions, brk) || (q == [] && regions == [])
    requires brk <= p && 0 < p && size >= HEADER
    ensures HeapOk(Grown(q, regions, p, size), regions + [Region(p, p + size)], p + size)
  {
    var q', regions' := Grown(q, regions, p, size), regions + [Region(p, p + size)];
    forall i, j | 0 <= i < j < |q'| ensures Behind(q'[i], q'[j]) {
      if j == |q| { assert InRegion(q[i], regions); } else { assert Behind(q[i], q[j]); }
    }
    forall i | 0 <= i < |q'| ensures InRegion(q'[i], regions') {
      if i < |q| { assert InRegion(q[i], regions); }
    }
    forall i | 0 <= i < |q'| && !q'[i].last ensures Joined(q', i) { assert Joined(q, i); }
  }

  lemma {:induction false} LiveFreeEnd(q: seq<Entry>, e: Entry)
    requires e.free
    ensures Live(q + [e]) == Live(q)
  {
    if q != [] {
      LiveFreeEnd(q[1..], e);
      assert (q + [e])[1..] == q[1..] + [e];
    }
  }

  // What the list accounts for.

  /** The bytes of all entries and their headers. */
  ghost function Total(q: seq<Entry>): nat {
    if q == [] then 0 else Total(q[..|q| - 1]) + 20 + q[|q| - 1].size
  }

  lemma {:induction false} TotalJoin(a: seq<Entry>, b: seq<Entry>)
    ensures Total(a + b) == Total(a) + Total(b)
    decreases |b|
  {
    if b == [] {
      assert a + b == a;
    } else {
      TotalJoin(a, b[..|b| - 1]);
      assert (a + b)[..|a + b| - 1] == a + b[..|b| - 1];
    }
  }

  lemma TotalOne(e: Entry)
    ensures Total([e]) == 20 + e.size
  {
    assert [e][..0] == [];
  }

  /** The entries around a part of the list. */
  lemma TotalAround(a: seq<Entry>, b: seq<Entry>, c: seq<Entry>)
    ensures Total(a + b + c) == Total(a) + Total(b) + Total(c)
  {
    TotalJoin(a + b, c);
    TotalJoin(a, b);
  }

  lemma TotalTwo(a: Entry, b: Entry)
    ensures Total([a, b]) == 40 + a.size + b.size
  {
    TotalJoin([a], [b]);
    TotalOne(a);
    TotalOne(b);
    assert [a] + [b] == [a, b];
  }

  /** Merging loses the 20 bytes of the header that is swallowed; cutting and giving back lose nothing. */
  lemma MergedTotal(q: seq<Entry>, k: nat)
    requires k + 1 < |q|
    ensures Total(Merged(q, k)) + 20 == Total(q)
  {
    hide Total;
    var e := q[k].(size := q[k].size + q[k + 1].size, last := q[k + 1].last);
    TotalAround(q[..k], [e], q[k + 2..]);
    TotalAround(q[..k], [q[k], q[k + 1]], q[k + 2..]);
    TotalOne(e);
    TotalTwo(q[k], q[k + 1]);
    assert q[..k] + [q[k], q[k + 1]] + q[k + 2..] == q;
  }

  lemma SplitTotal(q: seq<Entry>, k: nat, n: nat)
    requires k < |q| && n + HEADER <= q[k].size
    ensures Total(Split(q, k, n)) == Total(q)
  {
    hide Total;
    var a := q[k].(size := n, free := false, last := false);
    var b := Entry(q[k].addr + HEADER + n, q[k].size - n - HEADER, q[k].free, q[k].last, q[k].region);
    TotalAround(q[..k], [a, b], q[k + 1..]);
    TotalAround(q[..k], [q[k]], q[k + 1..]);
    TotalTwo(a, b);
    TotalOne(q[k]);
    assert q[..k] + [q[k]] + q[k + 1..] == q;
  }

  /** New memory behind the last entry loses 20 bytes as well, new memory elsewhere none. */
  lemma GrownTotal(q: seq<Entry>, regions: seq<Region>, p: nat, size: nat)
    requires size >= 20
    ensures Total(Grown(q, regions, p, size)) == Total(q) + size
    ensures q != [] ==> Total(Extended(q, size - 20)) + 20 == Total(q) + size
  {
    hide Total;
    var e := Entry(p, size - HEADER, true, true, |regions|);
    TotalJoin(q, [e]);
    TotalOne(e);
    if q != [] {
      var init, last := q[..|q| - 1], q[|q| - 1];
      var more := last.(size := last.size + (size - 20));
      TotalJoin(init, [last]);
      TotalJoin(init, [more]);
      TotalOne(last);
      TotalOne(more);
      assert init + [last] == q && init + [more] == Extended(q, size - 20);
    }
  }

  /** Cutting n bytes off a free entry, freeing them and merging leaves the entry 20 bytes smaller: a heap is
      used up by allocating and freeing. */
  lemma AllocateThenFree(q: seq<Entry>, k: nat, n: nat)
    requires k < |q| && q[k].free && n + 20 <= q[k].size
    ensures
      var cut := Split(q, k, n);
      var freed := cut[k := cut[k].(free := true)];
      CanMerge(freed, k) && Merged(freed, k) == q[k := q[k].(size := q[k].size - 20)]
  {
  }
}
