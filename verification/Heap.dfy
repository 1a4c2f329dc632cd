/** kernel/kmalloc.c: the kernel heap. */
module Heap {
  import opened Bytes
  import opened HeapList

  const NEW_ALLOC_SIZE: nat := 0x40000
  const PAGE: nat := 0x1000

  /** A MallocHeader in memory. Its magic number is there exactly when the address is in the map. */
  datatype Header = Header(size: nat, free: bool, last: bool, next: nat)

  /** The header of entry i of the list. */
  function HeaderOf(q: seq<Entry>, i: nat): Header
    requires i < |q|
  {
    Header(q[i].size, q[i].free, q[i].last, if i + 1 < |q| then q[i + 1].addr else 0)
  }

  ghost predicate Linked(hdr: map<nat, Header>, q: seq<Entry>, i: nat) {
    i < |q| && q[i].addr in hdr && hdr[q[i].addr] == HeaderOf(q, i)
  }

  ghost predicate AllLinked(hdr: map<nat, Header>, q: seq<Entry>) {
    forall i: nat {:trigger Linked(hdr, q, i)} :: i < |q| ==> Linked(hdr, q, i)
  }

  lemma LinkedMerge(hdr: map<nat, Header>, q: seq<Entry>, k: nat)
    requires Ordered(q) && AllLinked(hdr, q) && k + 1 < |q| && q[k].free
    ensures AllLinked(hdr[q[k].addr :=
            Header(q[k].size + q[k + 1].size, true, q[k + 1].last, HeaderOf(q, k + 1).next)], Merged(q, k))
  {
    hide Merged, Ordered;
    var q', a := Merged(q, k), q[k].addr;
    var hdr' := hdr[a := Header(q[k].size + q[k + 1].size, true, q[k + 1].last, HeaderOf(q, k + 1).next)];
    MergedAt(q, k, 0);
    forall i: nat | i < |q'| ensures Linked(hdr', q', i) {
      var o := if i <= k then i else i + 1;
      assert Linked(hdr, q, o);
      MergedAt(q, k, i);
      if i + 1 < |q'| { MergedAt(q, k, i + 1); }
      if o < k { OrderedAt(q, o, k); }
      if k < o { OrderedAt(q, k, o); }
    }
  }

  lemma LinkedSplit(hdr: map<nat, Header>, q: seq<Entry>, k: nat, n: nat)
    requires Ordered(q) && AllLinked(hdr, q) && k < |q| && n + HEADER <= q[k].size
    ensures
      var a, b := q[k].addr, q[k].addr + HEADER + n;
      AllLinked(hdr[b := Header(q[k].size - n - HEADER, q[k].free, q[k].last, HeaderOf(q, k).next)][a :=
          Header(n, false, false, b)], Split(q, k, n))
  {
    hide Split, Ordered;
    var a, b := q[k].addr, q[k].addr + HEADER + n;
    var hdr' := hdr[b := Header(q[k].size - n - HEADER, q[k].free, q[k].last, HeaderOf(q, k).next)][a :=
        Header(n, false, false, b)];
    var q' := Split(q, k, n);
    SplitAt(q, k, n, 0);
    forall i: nat | i < |q'| ensures Linked(hdr', q', i) {
      var o := if i <= k then i else i - 1;
      assert Linked(hdr, q, o);
      SplitAt(q, k, n, i);
      if i + 1 < |q'| { SplitAt(q, k, n, i + 1); }
      if o < k { OrderedAt(q, o, k); }
      if k < o { OrderedAt(q, k, o); }
    }
  }

  lemma LinkedChange(hdr: map<nat, Header>, q: seq<Entry>, k: nat, e: Entry)
    requires Ordered(q) && AllLinked(hdr, q) && k < |q| && e.addr == q[k].addr
    ensures AllLinked(hdr[e.addr := Header(e.size, e.free, e.last, HeaderOf(q, k).next)], q[k := e])
  {
    hide Ordered;
    var q', hdr' := q[k := e], hdr[e.addr := Header(e.size, e.free, e.last, HeaderOf(q, k).next)];
    forall i: nat | i < |q'| ensures Linked(hdr', q', i) {
      assert Linked(hdr, q, i);
      if i < k { OrderedAt(q, i, k); }
      if k < i { OrderedAt(q, k, i); }
    }
  }

  lemma LinkedGrow(hdr: map<nat, Header>, q: seq<Entry>, e: Entry)
    requires Ordered(q + [e]) && AllLinked(hdr, q) && q != []
    ensures
      var z := q[|q| - 1];
      AllLinked(hdr[e.addr := Header(e.size, e.free, e.last, 0)][z.addr := Header(z.size, z.free, z.last, e.addr)],
          q + [e])
  {
    hide Ordered;
    var q', z := q + [e], q[|q| - 1];
    var hdr' := hdr[e.addr := Header(e.size, e.free, e.last, 0)][z.addr := Header(z.size, z.free, z.last, e.addr)];
    OrderedAt(q', |q| - 1, |q|);
    forall i: nat | i < |q'| ensures Linked(hdr', q', i) {
      if i < |q| {
        assert Linked(hdr, q, i);
        OrderedAt(q', i, |q|);
        if i < |q| - 1 { OrderedAt(q', i, |q| - 1); }
      }
    }
  }

  // Bytes of memory.

  /** Every byte of a live allocation is what it was. */
  ghost predicate Kept(mem: map<nat, byte>, mem': map<nat, byte>, live: map<nat, nat>) {
    forall p, x :: p in live && p <= x < p + live[p] ==> (x in mem <==> x in mem') && (x in mem ==> mem'[x] == mem[x])
  }

  /** The n bytes at a are overwritten, by a header or by random bytes. */
  function Over(mem: map<nat, byte>, a: nat, n: nat): map<nat, byte> {
    map x | x in mem && !(a <= x < a + n) :: mem[x]
  }

  lemma OverHeader(mem: map<nat, byte>, q: seq<Entry>, i: nat)
    requires Ordered(q) && i < |q|
    ensures Kept(mem, Over(mem, q[i].addr, HEADER), Live(q))
  {
    hide Ordered, Live;
    var mem' := Over(mem, q[i].addr, HEADER);
    forall p, x | p in Live(q) && p <= x < p + Live(q)[p]
      ensures (x in mem <==> x in mem') && (x in mem ==> mem'[x] == mem[x]) {
      LiveApart(q, p, i);
    }
  }

  /** A payload overwritten changes no other payload. */
  lemma OverPayload(mem: map<nat, byte>, q: seq<Entry>, p: nat)
    requires Ordered(q) && p in Live(q)
    ensures Kept(mem, Over(mem, p, Live(q)[p]), Live(q) - {p})
  {
    hide Ordered, Live;
    var k := LiveFind(q, p);
    LiveApart(q, p, k);
  }

  lemma KeptTwice(m: map<nat, byte>, m1: map<nat, byte>, m2: map<nat, byte>, live: map<nat, nat>)
    requires Kept(m, m1, live) && Kept(m1, m2, live)
    ensures Kept(m, m2, live)
  {
  }

  function DeltaPage(a: nat): (r: nat)
    ensures 0 < r <= PAGE && (a + r) % PAGE == 0
  {
    PAGE - a % PAGE
  }

  /** The most add_heap_memory asks for: a request this size must not overflow a size_t. */
  predicate Requestable(s: nat) {
    Max(s + HEADER, NEW_ALLOC_SIZE) + PAGE + NEW_ALLOC_SIZE < U32_END
  }

  /** What add_heap_memory asks ksbrk for. */
  function AllocationSize(s: nat): (size: nat)
    ensures size % 0x1000 == 0
    ensures Max(s + HEADER, 0x40000) + 0x40000 < size <= Max(s + HEADER, 0x40000) + 0x41000
  {
    var least := Max(s + HEADER, NEW_ALLOC_SIZE);
    least + DeltaPage(least) + NEW_ALLOC_SIZE
  }

  /** An answer of ksbrk: no memory, or memory some way behind everything given out before. */
  datatype Grant = Refused | Given(gap: nat)

  class KernelHeap {
    var head: nat
    var final: nat
    var hdr: map<nat, Header>
    /** The bytes of memory whose values are known. */
    var mem: map<nat, byte>
    /** The end of what ksbrk has given out, how often it has been called, and what it will answer. */
    var brk: nat
    var calls: nat
    const supply: nat -> Grant
    ghost var q: seq<Entry>
    ghost var regions: seq<Region>

    ghost predicate Valid()
      reads this
    {
      && 0 < brk <= U32_END
      && if head == 0 then final == 0 && q == [] && regions == []
         else HeapOk(q, regions, brk) && AllLinked(hdr, q) && head == q[0].addr && final == q[|q| - 1].addr
    }

    /** The allocations in use: address and size. */
    ghost function Allocated(): map<nat, nat>
      reads this
    {
      Live(q)
    }

    /** The last entry could hold s bytes and a header. */
    ghost predicate Room(s: nat)
      reads this
    {
      q != [] && q[|q| - 1].size >= s + HEADER
    }

    /** Call k of ksbrk, were it made now, would get `size` bytes. */
    predicate Grants(k: nat, size: nat)
      reads this
    {
      supply(k).Given? && brk + supply(k).gap + size <= U32_END
    }

    /** The heap is unset, init_heap will be refused its memory, and add_heap_memory will then be given some. */
    predicate WillFault(s: nat)
      reads this
    {
      head == 0 && !Grants(calls, NEW_ALLOC_SIZE) && Grants(calls + 1, AllocationSize(s))
    }

    constructor (start: nat, answers: nat -> Grant)
      requires 0 < start <= U32_END
      ensures Valid() && Allocated() == map[] && head == 0 && brk == start && calls == 0 && supply == answers
    {
      head, final, hdr, mem, brk, calls, supply := 0, 0, map[], map[], start, 0, answers;
      q, regions := [], [];
    }

    /** ksbrk: some address at or above everything given out before, or 0. */
    method Ksbrk(size: nat) returns (p: nat)
      requires brk > 0
      modifies `brk, `calls
      ensures calls == old(calls) + 1 && (p != 0 <==> old(Grants(calls, size)))
      ensures p == 0 ==> brk == old(brk)
      ensures p != 0 ==> old(brk) <= p && brk == p + size && brk <= U32_END
    {
      var answer := supply(calls);
      calls := calls + 1;
      if answer.Refused? || brk + answer.gap + size > U32_END { return 0; }
      p := brk + answer.gap;
      brk := p + size;
    }

    /** init_heap. */
    method InitHeap() returns (ok: bool)
      requires Valid() && head == 0
      modifies this
      ensures Valid() && ok == (head != 0) && Allocated() == map[] && Kept(old(mem), mem, Allocated())
      ensures calls == old(calls) + 1 && (ok <==> old(Grants(calls, NEW_ALLOC_SIZE))) && (!ok ==> brk == old(brk))
    {
      head := Ksbrk(NEW_ALLOC_SIZE);
      if head == 0 { return false; }
      GrownOk(q, regions, old(brk), head, NEW_ALLOC_SIZE);
      LiveFreeEnd(q, Entry(head, NEW_ALLOC_SIZE - HEADER, true, true, 0));
      hdr := hdr[head := Header(NEW_ALLOC_SIZE - HEADER, true, true, 0)];
      final := head;
      mem := Over(mem, head, HEADER);
      q, regions := Grown(q, regions, head, NEW_ALLOC_SIZE), regions + [Region(head, head + NEW_ALLOC_SIZE)];
      assert q == [Entry(head, NEW_ALLOC_SIZE - HEADER, true, true, 0)];
      return true;
    }

    /** add_heap_memory grows the last entry when the new region follows it directly. */
    method ExtendFinal(size: nat, p: nat, ghost before: nat)
      requires before <= p && brk == p + size <= U32_END && before > 0 && head != 0 && size >= HEADER
      requires HeapOk(q, regions, before) && AllLinked(hdr, q) && head == q[0].addr && final == q[|q| - 1].addr
      requires p == End(q[|q| - 1])
      modifies this
      ensures Valid() && head == old(head) && Allocated() == old(Allocated()) && Kept(old(mem), mem, Allocated())
      ensures |q| == |old(q)| && q[|q| - 1].size == old(q[|q| - 1].size) + size - HEADER
    {
      hide HeapOk, AllLinked, Ordered, Live, Kept;
      HeapFacts(q, regions, before);
      ExtendedOk(q, regions, before, p, size);
      HeapFacts(Extended(q, size - HEADER), Stretched(regions, p + size), brk);
      LastLinked(hdr, q);
      LastFree(q, regions, before);
      ExtendedLive(q, size - HEADER);
      var old_header := hdr[final];
      ghost var e := q[|q| - 1].(size := q[|q| - 1].size + size - HEADER);
      LinkedChange(hdr, q, |q| - 1, e);
      OverHeader(mem, q, |q| - 1);
      hdr := hdr[final := old_header.(size := old_header.size + (size - HEADER))];
      mem := Over(mem, final, HEADER);
      q, regions := Extended(q, size - HEADER), Stretched(regions, p + size);
    }

    /** add_heap_memory links a new region behind the list. */
    method LinkRegion(size: nat, p: nat, ghost before: nat)
      requires before <= p && brk == p + size <= U32_END && before > 0 && head != 0 && size >= HEADER
      requires HeapOk(q, regions, before) && AllLinked(hdr, q) && head == q[0].addr && final == q[|q| - 1].addr
      modifies this
      ensures Valid() && head == old(head) && Allocated() == old(Allocated()) && Kept(old(mem), mem, Allocated())
      ensures q != [] && q[|q| - 1].size == size - HEADER
    {
      hide HeapOk, AllLinked, Ordered, Live, Kept;
      ghost var q' := Grown(q, regions, p, size);
      HeapFacts(q, regions, before);
      GrownOk(q, regions, before, p, size);
      HeapFacts(q', regions + [Region(p, p + size)], brk);
      LiveFreeEnd(q, Entry(p, size - HEADER, true, true, |regions|));
      LastLinked(hdr, q);
      OrderedAt(q', |q| - 1, |q|);
      LinkedGrow(hdr, q, Entry(p, size - HEADER, true, true, |regions|));
      OverHeader(mem, q', |q|);
      OverHeader(Over(mem, p, HEADER), q', |q| - 1);
      ghost var m1, m2 := Over(mem, p, HEADER), Over(Over(mem, p, HEADER), final, HEADER);
      KeptTwice(mem, m1, m2, Live(q'));
      hdr := hdr[p := Header(size - HEADER, true, true, 0)];
      hdr := hdr[final := hdr[final].(next := p)];
      mem := Over(Over(mem, p, HEADER), final, HEADER);
      final := p;
      q, regions := q', regions + [Region(p, p + size)];
    }

    /** add_heap_memory: on success the last entry holds what was asked for. It reads final->flags as soon as
        it has memory, and `fault` says that final was NULL then. */
    method AddHeapMemory(minDesired: nat) returns (ok: bool, fault: bool)
      requires Valid() && Requestable(minDesired)
      modifies this
      ensures Valid() && head == old(head) && Allocated() == old(Allocated()) && Kept(old(mem), mem, Allocated())
      ensures fault <==> old(head == 0 && Grants(calls, AllocationSize(minDesired)))
      ensures ok <==> old(head != 0 && Grants(calls, AllocationSize(minDesired)))
      ensures ok ==> Room(minDesired)
    {
      hide HeapOk, AllLinked, Ordered, Live, Kept, AllocationSize;
      KeptSame(mem, Allocated());
      var size := AllocationSize(minDesired);
      ghost var before := brk;
      var p := Ksbrk(size);
      if p == 0 { return false, false; }
      if final == 0 {
        if head != 0 { HeapFacts(q, regions, before); AddressesPositive(q, regions, before); }
        return false, true;
      }
      HeapFacts(q, regions, before);
      LastLinked(hdr, q);
      LastFree(q, regions, before);
      if hdr[final].free && p == final + HEADER + hdr[final].size {
        ExtendFinal(size, p, before);
      } else {
        LinkRegion(size, p, before);
      }
      return true, false;
    }

    /** merge_headers: swallows the next entry if both are free and of one region. */
    method MergeHeaders(b: nat, ghost k: nat) returns (merged: bool)
      requires Valid() && head != 0 && k < |q| && b == q[k].addr
      modifies `hdr, `final, `q, `mem
      ensures Valid() && Allocated() == old(Allocated()) && Kept(old(mem), mem, Allocated())
      ensures merged == CanMerge(old(q), k) && q == if merged then Merged(old(q), k) else old(q)
    {
      hide HeapOk, AllLinked, Ordered, Live, Merged;
      LinkedAt(hdr, q, k);
      var h := hdr[b];
      if !h.free || h.last { return false; }
      NotLast(q, regions, brk, k);
      LinkedAt(hdr, q, k + 1);
      var n := h.next;
      if !hdr[n].free { return false; }
      MergedOk(q, regions, brk, k);
      HeapFacts(q, regions, brk);
      HeapFacts(Merged(q, k), regions, brk);
      MergedLive(q, k);
      LinkedMerge(hdr, q, k);
      MergedAt(q, k, k);
      OverHeader(mem, Merged(q, k), k);
      MergedEnds(q, regions, brk, k);
      hdr := hdr[b := Header(h.size + hdr[n].size, h.free, hdr[n].last, hdr[n].next)];
      mem := Over(mem, b, HEADER);
      if n == final { final := b; }
      q := Merged(q, k);
      return true;
    }

    /** The merging loop of find_free_entry: entry k swallows all it can; the last entry never shrinks. */
    method MergeAll(p: nat, ghost k: nat, ghost s: nat)
      requires Valid() && head != 0 && k < |q| && p == q[k].addr && q[k].free
      modifies `hdr, `final, `q, `mem
      ensures Valid() && Allocated() == old(Allocated()) && Kept(old(mem), mem, Allocated())
      ensures k < |q| && p == q[k].addr && q[k].free && (old(Room(s)) ==> Room(s)) && |q| <= old(|q|)
      ensures q[..k] == old(q)[..k] && !CanMerge(q, k)
    {
      hide HeapOk, AllLinked, Ordered, Live, Merged, Kept;
      KeptSame(mem, Live(q));
      while true
        invariant Valid() && Allocated() == old(Allocated()) && Kept(old(mem), mem, Allocated())
        invariant k < |q| && p == q[k].addr && q[k].free && (old(Room(s)) ==> Room(s)) && |q| <= old(|q|)
        invariant q[..k] == old(q)[..k]
        decreases |q|
      {
        ghost var q1, m1 := q, mem;
        var more := MergeHeaders(p, k);
        KeptTwice(old(mem), m1, mem, Allocated());
        if !more { break; }
        MergedAt(q1, k, k);
        MergedAt(q1, k, |q1| - 2);
        MergedPrefix(q1, k);
      }
    }

    /** find_free_entry: the first free entry with room, merging on the way: every free entry before it has
        swallowed all it could and is still too small. It does not fail if the last entry has room. */
    method FindFreeEntry(size: nat) returns (p: nat, ghost k: nat)
      requires Valid() && Requestable(size)
      modifies this
      ensures Valid() && Allocated() == old(Allocated()) && Kept(old(mem), mem, Allocated())
      ensures p != 0 ==> head != 0 && k < |q| && p == q[k].addr && q[k].free && q[k].size >= size + HEADER
      ensures p == 0 && head != 0 ==> k == |q|
      ensures head != 0 ==> Passed(q, k, size + HEADER)
      ensures old(Room(size)) ==> p != 0
      ensures old(head) != 0 ==> head != 0 && calls == old(calls) && brk == old(brk)
      ensures old(head) == 0 ==> calls == old(calls) + 1 && (head != 0 <==> old(Grants(calls, NEW_ALLOC_SIZE)))
      ensures head == 0 ==> p == 0 && brk == old(brk)
    {
      hide HeapOk, AllLinked, Ordered, Live, Kept, Passed;
      k := 0;
      KeptSame(mem, Live(q));
      if head == 0 {
        LiveEmpty();
        var ok := InitHeap();
        if !ok { return 0, 0; }
      }
      HeapFacts(q, regions, brk);
      NonePassed(q, size + HEADER);
      p := head;
      while p != 0
        invariant Valid() && head != 0 && Allocated() == old(Allocated()) && Kept(old(mem), mem, Allocated())
        invariant k <= |q| && p == if k < |q| then q[k].addr else 0
        invariant Passed(q, k, size + HEADER)
        invariant old(Room(size)) ==> Room(size) && k < |q|
        invariant old(head) != 0 ==> calls == old(calls) && brk == old(brk)
        invariant old(head) == 0 ==> calls == old(calls) + 1 && old(Grants(calls, NEW_ALLOC_SIZE))
        decreases |q| - k
      {
        ghost var q1 := q;
        LinkedAt(hdr, q, k);
        HeapFacts(q, regions, brk);
        LastFree(q, regions, brk);
        AddressesPositive(q, regions, brk);
        if hdr[p].free {
          if hdr[p].size < size + HEADER {
            ghost var m1 := mem;
            MergeAll(p, k, size);
            KeptTwice(old(mem), m1, mem, Allocated());
            LinkedAt(hdr, q, k);
            AddressesPositive(q, regions, brk);
            PassedKept(q1, q, k, size + HEADER);
            if hdr[p].size >= size + HEADER { return; }
          } else {
            return;
          }
        }
        PassedOne(q, k, size + HEADER);
        p, k := hdr[p].next, k + 1;
      }
      AddressesPositive(q, regions, brk);
    }

    /** The cut of int_kmalloc: n bytes of entry k, the rest behind a new header, which may swallow the
        next entry. */
    method Cut(freeEntry: nat, n: nat, ghost k: nat) returns (rc: nat)
      requires Valid() && head != 0 && k < |q| && freeEntry == q[k].addr && q[k].free && q[k].size >= n + HEADER
      modifies `hdr, `final, `q, `mem
      ensures Valid() && rc == freeEntry + HEADER && rc !in old(Allocated()) && Allocated() == old(Allocated())[rc := n]
      ensures Kept(old(mem), mem, Allocated())
    {
      hide HeapOk, AllLinked, Ordered, Live, Split, Kept;
      LinkedAt(hdr, q, k);
      HeapFacts(q, regions, brk);
      SplitOk(q, regions, brk, k, n);
      HeapFacts(Split(q, k, n), regions, brk);
      SplitLive(q, k, n);
      LinkedSplit(hdr, q, k, n);
      SplitEnds(q, regions, brk, k, n);
      rc := freeEntry + HEADER;
      var newEntry, h := rc + n, hdr[freeEntry];
      ghost var m0, m1 := mem, Over(mem, newEntry, HEADER);
      ghost var m2 := Over(m1, freeEntry, HEADER);
      OverHeader(m0, Split(q, k, n), k + 1);
      OverHeader(m1, Split(q, k, n), k);
      KeptTwice(m0, m1, m2, Live(Split(q, k, n)));
      hdr := hdr[newEntry := Header(h.size - n - HEADER, h.free, h.last, h.next)];
      if freeEntry == final { final := newEntry; }
      // merge_headers does not look at the entry being cut, so its header can be rewritten first.
      hdr := hdr[freeEntry := Header(n, false, false, newEntry)];
      mem := Over(Over(mem, newEntry, HEADER), freeEntry, HEADER);
      q := Split(q, k, n);
      var merged := MergeHeaders(newEntry, k + 1);
      KeptTwice(m0, m2, mem, Allocated());
    }

    /** int_kmalloc: a new allocation beside those there are, or 0 when ksbrk gives no memory. Once
        add_heap_memory succeeds the second try always finds an entry. `fault` says that it went on with an
        unset heap and read through a NULL pointer, which stops the kernel. */
    method IntKmalloc(s: nat) returns (rc: nat, fault: bool)
      requires Valid() && Requestable(s)
      modifies this
      ensures Valid() && Kept(old(mem), mem, old(Allocated()))
      ensures rc != 0 ==> rc !in old(Allocated()) && Allocated() == old(Allocated())[rc := s]
      ensures rc == 0 ==> Allocated() == old(Allocated())
      ensures old(Room(s)) ==> rc != 0
      ensures (fault <==> old(WillFault(s))) && (fault ==> rc == 0)
      decreases if Room(s) then 0 else 1, 0
    {
      hide HeapOk, AllLinked, Ordered, Live, Kept, Passed, AllocationSize;
      ghost var live := Allocated();
      var freeEntry, k := FindFreeEntry(s);
      if freeEntry == 0 {
        ghost var m1 := mem;
        var ok;
        ok, fault := AddHeapMemory(s);
        KeptTwice(old(mem), m1, mem, live);
        if !ok { return 0, fault; }
        ghost var m2 := mem;
        rc, fault := Kmalloc(s);
        KeptTwice(old(mem), m2, mem, live);
        return;
      }
      ghost var m1 := mem;
      rc := Cut(freeEntry, s, k);
      KeptLess(m1, mem, Allocated(), live, rc, s);
      KeptTwice(old(mem), m1, mem, live);
      fault := false;
    }

    /** kmalloc: the same, with the new bytes set at random. */
    method Kmalloc(s: nat) returns (rc: nat, fault: bool)
      requires Valid() && Requestable(s)
      modifies this
      ensures Valid() && Kept(old(mem), mem, old(Allocated()))
      ensures rc != 0 ==> rc !in old(Allocated()) && Allocated() == old(Allocated())[rc := s]
      ensures rc == 0 ==> Allocated() == old(Allocated())
      ensures old(Room(s)) ==> rc != 0
      ensures (fault <==> old(WillFault(s))) && (fault ==> rc == 0)
      decreases if Room(s) then 0 else 1, 1
    {
      hide HeapOk, AllLinked, Ordered, Live, Kept, AllocationSize;
      ghost var live := Allocated();
      rc, fault := IntKmalloc(s);
      if rc == 0 { return; }
      ghost var m1 := mem;
      OrderedHeap(q, regions, brk);
      OverPayload(mem, q, rc);
      mem := Over(mem, rc, s);
      assert Allocated() - {rc} == live;
      KeptTwice(old(mem), m1, mem, live);
    }

    /** kfree: exactly this allocation ends. */
    method Kfree(p: nat)
      requires Valid() && (p == 0 || p in Allocated())
      modifies this
      ensures Valid() && Allocated() == old(Allocated()) - {p} && Kept(old(mem), mem, Allocated())
    {
      hide HeapOk, AllLinked, Ordered, Live, Kept;
      KeptSame(mem, Live(q));
      if p == 0 {
        NoneAtZero(q, regions, brk, head);
        assert Allocated() - {0} == Allocated();
        return;
      }
      LiveEmpty();
      HeapFacts(q, regions, brk);
      ghost var k := LiveFind(q, p);
      LinkedAt(hdr, q, k);
      var h := p - HEADER;
      OverPayload(mem, q, p);
      ghost var m0, m1 := mem, Over(mem, p, hdr[h].size);
      mem := Over(mem, p, hdr[h].size);
      SetEntry(h, hdr[h].size, true, k);
      KeptTwice(m0, m1, mem, Allocated());
      ghost var m2 := mem;
      var merged := MergeHeaders(h, k);
      KeptTwice(m0, m2, mem, Allocated());
    }

    /** Rewrites the header of an allocated entry: a smaller size, or free. */
    method SetEntry(h: nat, size: nat, free: bool, ghost k: nat)
      requires Valid() && head != 0 && k < |q| && h == q[k].addr && !q[k].free && size <= q[k].size
      modifies `hdr, `q, `mem
      ensures Valid() && |q| == |old(q)| && q[k] == old(q[k]).(size := size, free := free)
      ensures Allocated() == if free then old(Allocated()) - {h + HEADER} else old(Allocated())[h + HEADER := size]
      ensures Kept(old(mem), mem, Allocated())
    {
      hide HeapOk, AllLinked, Ordered, Live, Kept;
      ghost var q' := q[k := q[k].(size := size, free := free)];
      LinkedAt(hdr, q, k);
      HeapFacts(q, regions, brk);
      AllocatedNotLast(q, regions, brk, k);
      ChangedOk(q, regions, brk, k, size, free);
      HeapFacts(q', regions, brk);
      ChangedLive(q, k, size, free);
      LinkedChange(hdr, q, k, q'[k]);
      OverHeader(mem, q', k);
      hdr := hdr[h := hdr[h].(size := size, free := free)];
      mem := Over(mem, h, HEADER);
      q := q';
    }

    /** krealloc: the allocation has its new size, here or elsewhere, and the bytes both sizes share. If no
        memory is to be had nothing changes. */
    method Krealloc(ptr: nat, size: nat) returns (rc: nat, fault: bool)
      requires Valid() && Requestable(size) && (ptr == 0 || ptr in Allocated())
      modifies this
      ensures Valid() && Kept(old(mem), mem, old(Allocated()) - {ptr})
      ensures rc == 0 ==> Allocated() == old(Allocated()) && Kept(old(mem), mem, old(Allocated()))
      ensures rc != 0 ==> rc !in old(Allocated()) - {ptr} && Allocated() == (old(Allocated()) - {ptr})[rc := size]
      ensures rc != 0 && ptr != 0 ==> Copied(old(mem), ptr, mem, rc, Min(old(Allocated())[ptr], size))
      ensures (fault <==> ptr == 0 && old(WillFault(size))) && (fault ==> rc == 0)
    {
      hide HeapOk, AllLinked, Ordered, Live, Kept, Copied;
      ghost var live := Allocated();
      KeptSame(mem, live);
      if ptr == 0 {
        NoneAtZero(q, regions, brk, head);
        rc, fault := Kmalloc(size);
        assert live - {ptr} == live;
        return;
      }
      LiveEmpty();
      HeapFacts(q, regions, brk);
      fault := false;
      ghost var k := LiveFind(q, ptr);
      LinkedAt(hdr, q, k);
      var l := hdr[ptr - HEADER].size;
      if l >= size {
        if l > size { SetEntry(ptr - HEADER, size, false, k); }
        rc := ptr;
        Shrunk(old(mem), mem, live, Allocated(), ptr, size);
        return;
      }
      rc, fault := Kmalloc(size);
      KeptFewer(old(mem), mem, live, ptr);
      if rc == 0 { return; }
      MoveTo(rc, ptr, l, live, old(mem));
    }

    /** The copying end of krealloc. */
    method MoveTo(rc: nat, ptr: nat, l: nat, ghost live: map<nat, nat>, ghost m0: map<nat, byte>)
      requires Valid() && ptr in live && rc !in live && live[ptr] == l && rc in Allocated() && l <= Allocated()[rc]
               && ptr != 0
      requires Allocated() == live[rc := Allocated()[rc]] && Kept(m0, mem, live)
      modifies this
      ensures Valid() && Kept(m0, mem, live - {ptr}) && Allocated() == (live - {ptr})[rc := old(Allocated())[rc]]
      ensures Copied(m0, ptr, mem, rc, l)
    {
      hide HeapOk, AllLinked, Ordered, Live, Kept, Copied, Memcpy;
      ghost var m1: map<nat, byte>, all: map<nat, nat> := mem, Allocated();
      LiveEmpty();
      HeapFacts(q, regions, brk);
      KeptFewer(m0, m1, live, ptr);
      MemcpyKeeps(m1, q, rc, ptr, l);
      mem := Memcpy(mem, rc, ptr, l);
      ghost var m2 := mem;
      assert all - {rc} == live;
      KeptFewer(m1, m2, live, ptr);
      KeptTwice(m0, m1, m2, live - {ptr});
      CopiedFrom(m0, m1, m2, live, ptr, rc, l);
      Kfree(ptr);
      assert Allocated() == (live - {ptr})[rc := all[rc]];
      KeptPart(m2, mem, Allocated(), live - {ptr});
      KeptTwice(m0, m2, mem, live - {ptr});
      CopiedKept(m0, ptr, m2, mem, Allocated(), rc, l);
    }
  }

  /** The first request of all, with ksbrk refusing once and then giving: int_kmalloc faults. */
  method FirstRequestFaults() returns (fault: bool)
    ensures fault
  {
    var heap := new KernelHeap(0x1000, k => if k == 0 then Refused else Given(0));
    var rc;
    rc, fault := heap.Kmalloc(1);
  }

  /** Entries 0 to k are allocated, or free, as large as they can get, and still below `need`. */
  ghost predicate Passed(q: seq<Entry>, k: nat, need: nat) {
    k <= |q| && forall i :: 0 <= i < k && q[i].free ==> q[i].size < need && !CanMerge(q, i)
  }

  lemma NonePassed(q: seq<Entry>, need: nat)
    ensures Passed(q, 0, need)
  {
  }

  lemma PassedKept(q: seq<Entry>, q': seq<Entry>, k: nat, need: nat)
    requires Passed(q, k, need) && k < |q| && k < |q'| && q[..k] == q'[..k] && q[k].free && q'[k].free
    ensures Passed(q', k, need)
  {
    forall i | 0 <= i < k && q'[i].free ensures q'[i].size < need && !CanMerge(q', i) {
      assert q[i] == q[..k][i] == q'[..k][i] == q'[i];
      if i + 1 < k { assert q[i + 1] == q[..k][i + 1] == q'[..k][i + 1] == q'[i + 1]; }
    }
  }

  lemma PassedOne(q: seq<Entry>, k: nat, need: nat)
    requires Passed(q, k, need) && k < |q| && (q[k].free ==> q[k].size < need && !CanMerge(q, k))
    ensures Passed(q, k + 1, need)
  {
  }

  lemma MergedPrefix(q: seq<Entry>, k: nat)
    requires k + 1 < |q|
    ensures Merged(q, k)[..k] == q[..k]
  {
  }

  /** The n bytes at `to` are those that were at `from`, as far as those are known. */
  ghost predicate Copied(m: map<nat, byte>, from: nat, m': map<nat, byte>, to: nat, n: nat) {
    forall y :: y in m && from <= y < from + n ==> to + (y - from) in m' && m'[to + (y - from)] == m[y]
  }

  /** The n bytes at `from`, moved to `to`. */
  function Moved(mem: map<nat, byte>, to: nat, from: nat, n: nat): map<nat, byte> {
    if n == 0 then map[]
    else
      var m := Moved(mem, to, from, n - 1);
      if from + n - 1 in mem then m[to + n - 1 := mem[from + n - 1]] else m
  }

  /** memcpy. */
  function Memcpy(mem: map<nat, byte>, to: nat, from: nat, n: nat): map<nat, byte> {
    Over(mem, to, n) + Moved(mem, to, from, n)
  }

  lemma {:induction false} MovedAt(mem: map<nat, byte>, to: nat, from: nat, n: nat)
    ensures forall x :: x in Moved(mem, to, from, n) ==> to <= x < to + n
    ensures Copied(mem, from, Moved(mem, to, from, n), to, n)
  {
    if n > 0 { MovedAt(mem, to, from, n - 1); }
  }

  lemma MemcpyKeeps(mem: map<nat, byte>, q: seq<Entry>, rc: nat, ptr: nat, l: nat)
    requires Ordered(q) && rc in Live(q) && l <= Live(q)[rc]
    ensures Kept(mem, Memcpy(mem, rc, ptr, l), Live(q) - {rc}) && Copied(mem, ptr, Memcpy(mem, rc, ptr, l), rc, l)
  {
    hide Ordered, Live, Moved;
    var k := LiveFind(q, rc);
    LiveApart(q, rc, k);
    MovedAt(mem, rc, ptr, l);
  }

  lemma CopiedFrom(m0: map<nat, byte>, m1: map<nat, byte>, m2: map<nat, byte>, live: map<nat, nat>, ptr: nat, rc: nat,
          l: nat)
    requires Kept(m0, m1, live) && ptr in live && l <= live[ptr] && Copied(m1, ptr, m2, rc, l)
    ensures Copied(m0, ptr, m2, rc, l)
  {
    forall y | y in m0 && ptr <= y < ptr + l ensures rc + (y - ptr) in m2 && m2[rc + (y - ptr)] == m0[y] {
      assert y in m1;
    }
  }

  lemma CopiedKept(m: map<nat, byte>, ptr: nat, m1: map<nat, byte>, m2: map<nat, byte>, live: map<nat, nat>, rc: nat,
          l: nat)
    requires Copied(m, ptr, m1, rc, l) && Kept(m1, m2, live) && rc in live && l <= live[rc]
    ensures Copied(m, ptr, m2, rc, l)
  {
    forall y | y in m && ptr <= y < ptr + l ensures rc + (y - ptr) in m2 && m2[rc + (y - ptr)] == m[y] {
      assert rc + (y - ptr) in m1;
    }
  }

  lemma KeptFewer(m: map<nat, byte>, m': map<nat, byte>, live: map<nat, nat>, p: nat)
    requires Kept(m, m', live)
    ensures Kept(m, m', live - {p})
  {
  }

  lemma KeptPart(m: map<nat, byte>, m': map<nat, byte>, live: map<nat, nat>, part: map<nat, nat>)
    requires Kept(m, m', live) && forall p :: p in part ==> p in live && part[p] <= live[p]
    ensures Kept(m, m', part)
  {
  }

  lemma KeptLess(m: map<nat, byte>, m': map<nat, byte>, all: map<nat, nat>, live: map<nat, nat>, p: nat, n: nat)
    requires Kept(m, m', all) && all == live[p := n] && p !in live
    ensures Kept(m, m', live)
  {
    KeptPart(m, m', all, live);
  }

  /** The shrinking branch of krealloc. */
  lemma Shrunk(m: map<nat, byte>, m': map<nat, byte>, live: map<nat, nat>, live': map<nat, nat>, ptr: nat, size: nat)
    requires Kept(m, m', live') && ptr in live && size <= live[ptr] && live' == live[ptr := size]
    ensures Kept(m, m', live - {ptr}) && live' == (live - {ptr})[ptr := size] && Copied(m, ptr, m', ptr, size)
  {
    KeptPart(m, m', live', live - {ptr});
  }

  lemma NoneAtZero(q: seq<Entry>, regions: seq<Region>, brk: nat, head: nat)
    requires if head == 0 then q == [] else HeapOk(q, regions, brk)
    ensures 0 !in Live(q)
  {
    if 0 in Live(q) {
      var i := LiveFind(q, 0);
      assert false;
    }
  }

  lemma OrderedHeap(q: seq<Entry>, regions: seq<Region>, brk: nat)
    requires q == [] || HeapOk(q, regions, brk)
    ensures Ordered(q)
  {
  }

  lemma AllocatedNotLast(q: seq<Entry>, regions: seq<Region>, brk: nat, k: nat)
    requires HeapOk(q, regions, brk) && k < |q| && !q[k].free
    ensures !q[k].last
  {
    assert InRegion(q[k], regions);
  }

  /** The ends of the list after a cut. */
  lemma SplitEnds(q: seq<Entry>, regions: seq<Region>, brk: nat, k: nat, n: nat)
    requires HeapOk(q, regions, brk) && k < |q| && n + HEADER <= q[k].size
    ensures |Split(q, k, n)| == |q| + 1 && Split(q, k, n)[0].addr == q[0].addr
    ensures Split(q, k, n)[k].addr == q[k].addr && Split(q, k, n)[k + 1].addr == q[k].addr + HEADER + n
    ensures q[k].addr == q[|q| - 1].addr <==> k + 1 == |q|
    ensures Split(q, k, n)[|q|].addr == if k + 1 == |q| then q[k].addr + HEADER + n else q[|q| - 1].addr
  {
    SplitAt(q, k, n, 0);
    SplitAt(q, k, n, k);
    SplitAt(q, k, n, k + 1);
    SplitAt(q, k, n, |q|);
    if k + 1 < |q| { OrderedAt(q, k, |q| - 1); }
  }

  lemma KeptSame(mem: map<nat, byte>, live: map<nat, nat>)
    ensures Kept(mem, mem, live)
  {
  }

  lemma LiveEmpty()
    ensures Live([]) == map[]
  {
  }

  lemma AddressesPositive(q: seq<Entry>, regions: seq<Region>, brk: nat)
    requires HeapOk(q, regions, brk)
    ensures forall i :: 0 <= i < |q| ==> q[i].addr > 0
  {
  }

  lemma LinkedAt(hdr: map<nat, Header>, q: seq<Entry>, k: nat)
    requires AllLinked(hdr, q) && k < |q|
    ensures Linked(hdr, q, k)
  {
  }

  /** Every entry without IS_FINAL has a successor. */
  lemma NotLast(q: seq<Entry>, regions: seq<Region>, brk: nat, k: nat)
    requires HeapOk(q, regions, brk) && k < |q| && !q[k].last
    ensures k + 1 < |q|
  {
    assert Joined(q, k);
  }

  /** The ends of the merged list; entry k + 1 is the end exactly if its address is. */
  lemma MergedEnds(q: seq<Entry>, regions: seq<Region>, brk: nat, k: nat)
    requires HeapOk(q, regions, brk) && CanMerge(q, k)
    ensures |Merged(q, k)| == |q| - 1 && Merged(q, k)[0].addr == q[0].addr
    ensures q[k + 1].addr == q[|q| - 1].addr <==> k + 2 == |q|
    ensures Merged(q, k)[|q| - 2].addr == if k + 2 == |q| then q[k].addr else q[|q| - 1].addr
  {
    MergedAt(q, k, 0);
    MergedAt(q, k, |q| - 2);
    if k + 2 < |q| { OrderedAt(q, k + 1, |q| - 1); }
  }

  lemma HeapFacts(q: seq<Entry>, regions: seq<Region>, brk: nat)
    requires HeapOk(q, regions, brk)
    ensures q != [] && regions != [] && Ordered(q) && q[0].addr > 0 && q[|q| - 1].region == |regions| - 1
  {
    assert InRegion(q[0], regions);
  }

  lemma LastLinked(hdr: map<nat, Header>, q: seq<Entry>)
    requires AllLinked(hdr, q) && q != []
    ensures Linked(hdr, q, |q| - 1)
  {
    var k: nat := |q| - 1;
    assert Linked(hdr, q, k);
  }
}
