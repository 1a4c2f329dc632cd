/** Open files shared by descriptor tables: kernel/fs/vfs.c, and fork and exit of kernel/sched/scheduler.c. */
module Descriptors {
  import opened Relists

  type Pid = nat
  type File = nat

  /** free_process closes the slots below this one. */
  const CLOSED_SLOTS: nat := 100

  datatype Outcome = Slot(n: nat) | BadDescriptor | TooMany | Invalid

  type Tables = map<Pid, Table<File>>

  /** The slots of all processes that hold the file. */
  ghost function Holders(tables: Tables, f: File): set<(Pid, nat)> {
    set p, i | p in tables && i in tables[p].slots && tables[p].slots[i] == f :: (p, i)
  }

  /** The slots of one table, from `lo` up to `hi`, that hold the file. */
  ghost function SlotsOf(t: Table<File>, f: File, lo: nat, hi: nat): set<nat> {
    set i | i in t.slots && lo <= i < hi && t.slots[i] == f
  }

  ghost function Pairs(p: Pid, s: set<nat>): set<(Pid, nat)> {
    set i | i in s :: (p, i)
  }

  lemma HolderIs(tables: Tables, f: File, x: (Pid, nat))
    ensures x in Holders(tables, f) <==> x.0 in tables && x.1 in tables[x.0].slots && tables[x.0].slots[x.1] == f
  {
    var (p, i) := x;
    assert x == (p, i);
  }

  lemma {:induction false} PairsCount(p: Pid, s: set<nat>)
    ensures |Pairs(p, s)| == |s|
  {
    if s != {} {
      var x :| x in s;
      PairsCount(p, s - {x});
      assert Pairs(p, s) == Pairs(p, s - {x}) + {(p, x)};
    }
  }

  lemma HoldersPut(tables: Tables, p: Pid, t': Table<File>, i: nat, f: File, g: File)
    requires p in tables && i !in tables[p].slots && t'.slots == tables[p].slots[i := f]
    ensures |Holders(tables[p := t'], g)| == |Holders(tables, g)| + if g == f then 1 else 0
  {
    hide Holders;
    var h, h' := Holders(tables, g), Holders(tables[p := t'], g);
    var more := if g == f then {(p, i)} else {};
    HolderIs(tables, g, (p, i));
    forall x ensures x in h' <==> x in h + more {
      HolderIs(tables, g, x);
      HolderIs(tables[p := t'], g, x);
    }
    assert h' == h + more;
  }

  lemma HoldersTake(tables: Tables, p: Pid, t': Table<File>, i: nat, g: File)
    requires p in tables && i in tables[p].slots && t'.slots == tables[p].slots - {i}
    ensures |Holders(tables[p := t'], g)| == |Holders(tables, g)| - if g == tables[p].slots[i] then 1 else 0
  {
    hide Holders;
    var t := tables[p];
    HoldersPut(tables[p := t'], p, t, i, t.slots[i], g);
    assert t'.slots[i := t.slots[i]] == t.slots;
    assert tables[p := t'][p := t] == tables;
  }

  lemma HoldersNew(tables: Tables, r: Pid, t: Table<File>, g: File)
    requires r !in tables && t.Ok()
    ensures |Holders(tables[r := t], g)| == |Holders(tables, g)| + |SlotsOf(t, g, 0, t.capacity)|
  {
    hide Holders;
    var s := SlotsOf(t, g, 0, t.capacity);
    var h, h', more := Holders(tables, g), Holders(tables[r := t], g), Pairs(r, s);
    PairsCount(r, s);
    forall x ensures x in h' <==> x in h + more {
      HolderIs(tables, g, x);
      HolderIs(tables[r := t], g, x);
      assert x == (x.0, x.1);
    }
    assert h' == h + more;
    forall x | x in h ensures x !in more { HolderIs(tables, g, x); }
  }

  lemma HoldersDrop(tables: Tables, p: Pid, g: File)
    requires p in tables && tables[p].Ok()
    ensures |Holders(tables - {p}, g)| + |SlotsOf(tables[p], g, 0, tables[p].capacity)| == |Holders(tables, g)|
  {
    hide Holders, SlotsOf;
    HoldersNew(tables - {p}, p, tables[p], g);
    assert (tables - {p})[p := tables[p]] == tables;
  }

  lemma SlotsMore(t: Table<File>, f: File, i: nat)
    ensures |SlotsOf(t, f, 0, i + 1)| == |SlotsOf(t, f, 0, i)| + if i in t.slots && t.slots[i] == f then 1 else 0
  {
    assert SlotsOf(t, f, 0, i + 1) == SlotsOf(t, f, 0, i) + if i in t.slots && t.slots[i] == f then {i} else {};
  }

  ghost function Times(s: seq<File>, f: File): nat {
    multiset(s)[f]
  }

  lemma TimesMore(s: seq<File>, f: File, g: File)
    ensures Times(s + [f], g) == Times(s, g) + if f == g then 1 else 0
  {
  }

  /** Every reference is a slot that holds the file, or leaked; the close hook has run for exactly the
      files without references, once. */
  ghost predicate Accounted(tables: Tables, refs: map<File, nat>, closed: seq<File>, leaked: map<File, nat>) {
    && (forall p :: p in tables ==> tables[p].Ok())
    && (forall p, i :: p in tables && i in tables[p].slots ==> tables[p].slots[i] in refs)
    && leaked.Keys == refs.Keys
    && (forall f :: f in refs ==> refs[f] == |Holders(tables, f)| + leaked[f])
    && (forall f :: Times(closed, f) == if f in refs && refs[f] == 0 then 1 else 0)
  }

  /** A file that was never opened is in no slot. */
  lemma NoHolder(tables: Tables, refs: map<File, nat>, closed: seq<File>, leaked: map<File, nat>, f: File)
    requires Accounted(tables, refs, closed, leaked) && f !in refs
    ensures |Holders(tables, f)| == 0
  {
    hide Holders, Times;
    forall x ensures x !in Holders(tables, f) { HolderIs(tables, f, x); }
    assert Holders(tables, f) == {};
  }

  lemma FirstReference(tables: Tables, refs: map<File, nat>, closed: seq<File>, leaked: map<File, nat>, p: Pid, i: nat,
          f: File)
    requires Accounted(tables, refs, closed, leaked) && p in tables && f !in refs && i == Lowest(tables[p], 0)
    ensures LowestFree(tables[p], i)
    ensures Accounted(tables[p := WithEntry(tables[p], i, f)], refs[f := 1], closed, leaked[f := 0])
  {
    hide Holders, Times;
    var tables' := tables[p := WithEntry(tables[p], i, f)];
    NoHolder(tables, refs, closed, leaked, f);
    forall g ensures |Holders(tables', g)| == |Holders(tables, g)| + if g == f then 1 else 0 {
      HoldersPut(tables, p, tables'[p], i, f, g);
    }
  }

  /** refs' counts the slots of one table once more. */
  ghost predicate Counted(refs: map<File, nat>, refs': map<File, nat>, t: Table<File>) {
    refs'.Keys == refs.Keys && forall f :: f in refs ==> refs'[f] == refs[f] + |SlotsOf(t, f, 0, t.capacity)|
  }

  /** No table holds a file whose close hook has run: counting a table's slots revives no file. */
  lemma CountedAlive(tables: Tables, refs: map<File, nat>, closed: seq<File>, leaked: map<File, nat>, p: Pid,
          refs': map<File, nat>)
    requires Accounted(tables, refs, closed, leaked) && p in tables && Counted(refs, refs', tables[p])
    ensures forall f :: f in refs ==> (refs'[f] == 0 <==> refs[f] == 0)
  {
    hide Holders, Times;
    forall f | f in refs && refs[f] == 0 ensures SlotsOf(tables[p], f, 0, tables[p].capacity) == {} {
      forall i | i in tables[p].slots ensures tables[p].slots[i] != f { HolderIs(tables, tables[p].slots[i], (p, i)); }
    }
  }

  /** The counted slots belong to a new table. */
  lemma SharedTable(tables: Tables, refs: map<File, nat>, closed: seq<File>, leaked: map<File, nat>, p: Pid, r: Pid,
          refs': map<File, nat>)
    requires Accounted(tables, refs, closed, leaked) && p in tables && r !in tables && Counted(refs, refs', tables[p])
    ensures Accounted(tables[r := tables[p]], refs', closed, leaked)
  {
    hide Holders, Times, SlotsOf;
    CountedAlive(tables, refs, closed, leaked, p, refs');
    forall g { HoldersNew(tables, r, tables[p], g); }
  }

  /** The counted slots belong to no table. */
  lemma LostTable(tables: Tables, refs: map<File, nat>, closed: seq<File>, leaked: map<File, nat>, p: Pid,
          refs': map<File, nat>, leaked': map<File, nat>)
    requires Accounted(tables, refs, closed, leaked) && p in tables
    requires Counted(refs, refs', tables[p]) && Counted(leaked, leaked', tables[p])
    ensures Accounted(tables, refs', closed, leaked')
  {
    hide Holders, Times, SlotsOf;
    CountedAlive(tables, refs, closed, leaked, p, refs');
  }

  lemma TableFacts(tables: Tables, refs: map<File, nat>, closed: seq<File>, leaked: map<File, nat>, p: Pid)
    requires Accounted(tables, refs, closed, leaked) && p in tables
    ensures tables[p].Ok() && leaked.Keys == refs.Keys
    ensures forall i :: i in tables[p].slots ==> tables[p].slots[i] in refs
  {
  }

  class Vfs {
    /** file_descriptors of every process. */
    var tables: Tables
    /** reference_count of every file opened so far. */
    var refs: map<File, nat>
    /** The files whose close hook has run, in order. */
    var closed: seq<File>
    /** References that no slot stands for any more. */
    ghost var leaked: map<File, nat>

    ghost predicate Valid()
      reads this
    {
      Accounted(tables, refs, closed, leaked)
    }

    constructor (p: Pid)
      ensures Valid() && tables == map[p := Table(map[], 64)] && refs == map[] && closed == []
    {
      tables, refs, closed, leaked := map[p := Table(map[], 64)], map[], [], map[];
    }

    /** get_vfs_fd succeeds. */
    predicate Has(p: Pid, fd: int)
      requires p in tables
      reads this
    {
      0 <= fd && fd in tables[p].slots
    }

    lemma HeldHasReference(p: Pid, i: nat)
      requires Valid() && p in tables && i in tables[p].slots
      ensures tables[p].slots[i] in refs && refs[tables[p].slots[i]] > 0
    {
      hide Holders, Times;
      HolderIs(tables, tables[p].slots[i], (p, i));
    }

    /** vfs_create_fd for a file that was not open, with memory for the slot. */
    method CreateFd(p: Pid, f: File) returns (index: nat)
      requires Valid() && p in tables && f !in refs
      modifies this
      ensures Valid() && LowestFree(old(tables)[p], index)
              && tables == old(tables)[p := WithEntry(old(tables)[p], index, f)]
      ensures refs == old(refs)[f := 1] && closed == old(closed) && leaked == old(leaked)[f := 0]
    {
      hide Accounted;
      var t := tables[p];
      index := Lowest(t, 0);
      FirstReference(tables, refs, closed, leaked, p, index, f);
      refs := refs[f := 1];
      leaked := leaked[f := 0];
      tables := tables[p := WithEntry(t, index, f)];
    }

    /** vfs_dup: the lowest free slot holds the file as well. */
    method Dup(p: Pid, fd: int, memory: bool) returns (r: Outcome)
      requires Valid() && p in tables
      modifies this
      ensures Valid() && closed == old(closed) && leaked == old(leaked)
      ensures !old(Has(p, fd)) ==> r == BadDescriptor
      ensures old(Has(p, fd)) ==> (r == TooMany <==> !memory && LowestFree(old(tables)[p], old(tables)[p].capacity))
      ensures old(Has(p, fd)) && r != TooMany ==>
                && r.Slot? && LowestFree(old(tables)[p], r.n)
                && var f := old(tables)[p].slots[fd];
                   tables == old(tables)[p := WithEntry(old(tables)[p], r.n, f)]
                       && refs == old(refs)[f := old(refs)[f] + 1]
      ensures !r.Slot? ==> tables == old(tables) && refs == old(refs)
    {
      hide Holders, Times;
      if !Has(p, fd) { return BadDescriptor; }
      var t, f := tables[p], tables[p].slots[fd];
      var index := Lowest(t, 0);
      if index == t.capacity && !memory { return TooMany; }
      forall g ensures |Holders(tables[p := WithEntry(t, index, f)], g)| == |Holders(tables, g)|
          + if g == f then 1 else 0 {
        HoldersPut(tables, p, WithEntry(t, index, f), index, f, g);
      }
      HeldHasReference(p, fd);
      tables := tables[p := WithEntry(t, index, f)];
      refs := refs[f := refs[f] + 1];
      return Slot(index);
    }

    /** vfs_close_process: the slot is empty, and the last reference runs the close hook. */
    method CloseProcess(p: Pid, fd: int) returns (ok: bool)
      requires Valid() && p in tables
      modifies this
      ensures Valid() && ok == old(Has(p, fd)) && leaked == old(leaked)
      ensures !ok ==> tables == old(tables) && refs == old(refs) && closed == old(closed)
      ensures ok ==>
                var f, t := old(tables)[p].slots[fd], old(tables)[p];
                && old(refs)[f] > 0 && tables == old(tables)[p := t.(slots := t.slots - {fd})]
                && refs == old(refs)[f := old(refs)[f] - 1]
                && closed == old(closed) + if refs[f] == 0 then [f] else []
    {
      hide Holders, Times;
      if !Has(p, fd) { return false; }
      var t, f := tables[p], tables[p].slots[fd];
      HeldHasReference(p, fd);
      var t' := t.(slots := t.slots - {fd});
      forall g ensures |Holders(tables[p := t'], g)| == |Holders(tables, g)| - if g == f then 1 else 0 {
        HoldersTake(tables, p, t', fd, g);
      }
      refs := refs[f := refs[f] - 1];
      tables := tables[p := t'];
      if refs[f] == 0 {
        forall g ensures Times(closed + [f], g) == Times(closed, g)
            + if f == g then 1 else 0 { TimesMore(closed, f, g); }
        closed := closed + [f];
      }
      return true;
    }

    /** vfs_dup2: closes the new slot and puts the file there. It asserts that the old descriptor is open
        and that the table has the new slot. */
    method Dup2(p: Pid, orgFd: nat, newFd: nat) returns (r: Outcome)
      requires Valid() && p in tables && (orgFd != newFd ==> Has(p, orgFd) && newFd < tables[p].capacity)
      modifies this
      ensures Valid() && leaked == old(leaked)
      ensures orgFd == newFd ==> r == Invalid && tables == old(tables) && refs == old(refs) && closed == old(closed)
      ensures orgFd != newFd ==>
                var t := old(tables)[p];
                && r == Slot(1) && tables == old(tables)[p := t.(slots := t.slots[newFd := t.slots[orgFd]])]
                && closed == old(closed)
                   + (if newFd in t.slots && t.slots[newFd] != t.slots[orgFd] && old(refs)[t.slots[newFd]] == 1
                      then [t.slots[newFd]] else [])
    {
      hide Holders, Times, Vfs.Valid;
      if orgFd == newFd { return Invalid; }
      ghost var t0 := tables[p];
      if newFd in t0.slots { HeldHasReference(p, newFd); }
      HeldHasReference(p, orgFd);
      if newFd in t0.slots && t0.slots[newFd] == t0.slots[orgFd] { SharedTwice(p, orgFd, newFd); }
      var done := CloseProcess(p, newFd);
      SetSlot(p, orgFd, newFd);
      assert tables[p].slots == t0.slots[newFd := t0.slots[orgFd]];
      return Slot(1);
    }

    /** The second half of vfs_dup2: an empty slot gets the file of another. */
    method SetSlot(p: Pid, orgFd: nat, newFd: nat)
      requires Valid() && p in tables && orgFd in tables[p].slots && newFd !in tables[p].slots
               && newFd < tables[p].capacity
      modifies this
      ensures Valid() && leaked == old(leaked) && closed == old(closed)
      ensures var t := old(tables)[p];
              tables == old(tables)[p := t.(slots := t.slots[newFd := t.slots[orgFd]])]
    {
      hide Holders, Times;
      var t := tables[p];
      var f := t.slots[orgFd];
      HeldHasReference(p, orgFd);
      var t' := t.(slots := t.slots[newFd := f]);
      forall g ensures |Holders(tables[p := t'], g)| == |Holders(tables, g)| + if g == f then 1 else 0 {
        HoldersPut(tables, p, t', newFd, f, g);
      }
      tables := tables[p := t'];
      refs := refs[f := refs[f] + 1];
    }

    /** Two slots of one file are two references. */
    lemma SharedTwice(p: Pid, i: nat, j: nat)
      requires Valid() && p in tables && i != j && i in tables[p].slots && j in tables[p].slots
               && tables[p].slots[i] == tables[p].slots[j]
      ensures refs[tables[p].slots[i]] >= 2
    {
      hide Holders, Times;
      var h := Holders(tables, tables[p].slots[i]);
      HolderIs(tables, tables[p].slots[i], (p, i));
      HolderIs(tables, tables[p].slots[i], (p, j));
      assert {(p, i), (p, j)} <= h;
      assert |h| >= 2 by {
        assert |h - {(p, i), (p, j)}| == |h| - 2;
      }
    }

    /** The loop of create_process: one more reference for every slot of the child's table. */
    method CountSlots(t: Table<File>)
      requires t.Ok() && forall i :: i in t.slots ==> t.slots[i] in refs
      modifies `refs
      ensures Counted(old(refs), refs, t)
    {
      var i := 0;
      assert forall f :: SlotsOf(t, f, 0, 0) == {};
      while i < t.capacity
        invariant 0 <= i <= t.capacity && refs.Keys == old(refs.Keys)
        invariant forall f :: f in refs ==> refs[f] == old(refs)[f] + |SlotsOf(t, f, 0, i)|
      {
        forall f | f in refs ensures |SlotsOf(t, f, 0, i + 1)| == |SlotsOf(t, f, 0, i)|
            + if i in t.slots && t.slots[i] == f then 1 else 0 {
          SlotsMore(t, f, i);
        }
        if i in t.slots {
          refs := refs[t.slots[i] := refs[t.slots[i]] + 1];
        }
        i := i + 1;
      }
    }

    /** The descriptors in create_process. When clone_directory fails after they have been counted, the
        child's references stay behind. */
    method Fork(p: Pid, r: Pid, memory: bool, directory: bool) returns (ok: bool)
      requires Valid() && p in tables && r !in tables
      modifies this
      ensures Valid() && closed == old(closed) && ok == (memory && directory)
      ensures ok ==> tables == old(tables)[r := old(tables)[p]] && leaked == old(leaked)
      ensures !ok ==> tables == old(tables)
      ensures !memory ==> refs == old(refs) && leaked == old(leaked)
      ensures leaked.Keys == old(leaked.Keys) && refs.Keys == old(refs.Keys)
      ensures memory && !directory ==>
                forall f :: f in leaked ==>
                              leaked[f] == old(leaked)[f] + |SlotsOf(old(tables)[p], f, 0, old(tables)[p].capacity)|
    {
      hide Holders, Times, SlotsOf, Accounted;
      if !memory { return false; }
      var t := tables[p];
      TableFacts(tables, refs, closed, leaked, p);
      CountSlots(t);
      if !directory {
        leaked := map f | f in leaked :: leaked[f] + |SlotsOf(t, f, 0, t.capacity)|;
        LostTable(tables, old(refs), closed, old(leaked), p, refs, leaked);
        return false;
      }
      SharedTable(tables, old(refs), closed, leaked, p, r, refs);
      tables := tables[r := t];
      return true;
    }

    /** free_process: closes slots 0 to 99 and drops the table. */
    method FreeProcess(p: Pid)
      requires Valid() && p in tables
      modifies this
      ensures Valid() && tables == old(tables) - {p}
      ensures leaked.Keys == old(leaked.Keys)
      ensures forall f :: f in leaked ==>
              leaked[f] == old(leaked)[f] + |SlotsOf(old(tables)[p], f, CLOSED_SLOTS, old(tables)[p].capacity)|
    {
      hide Holders, Times, SlotsOf, Vfs.Valid;
      ghost var t0 := tables[p];
      for i := 0 to CLOSED_SLOTS
        invariant Valid() && p in tables && leaked == old(leaked) && tables == old(tables)[p := tables[p]]
        invariant tables[p].capacity == t0.capacity && tables[p].slots == From(t0.slots, i)
      {
        var done := CloseProcess(p, i);
      }
      ghost var t := tables[p];
      forall f ensures SlotsOf(t, f, 0, t.capacity) == SlotsOf(t0, f, CLOSED_SLOTS, t0.capacity) {
        FromSlots(t0, t, CLOSED_SLOTS, f);
      }
      RelistFree(p);
    }

    /** relist_free at exit: what the table still holds is leaked. */
    method RelistFree(p: Pid)
      requires Valid() && p in tables
      modifies `tables, `leaked
      ensures Valid() && tables == old(tables) - {p} && leaked.Keys == old(leaked.Keys)
      ensures forall f :: f in leaked ==>
              leaked[f] == old(leaked)[f] + |SlotsOf(old(tables)[p], f, 0, old(tables)[p].capacity)|
    {
      hide Holders, Times, SlotsOf;
      ghost var t := tables[p];
      forall f ensures |Holders(tables - {p}, f)| + |SlotsOf(t, f, 0, t.capacity)| == |Holders(tables, f)| {
        HoldersDrop(tables, p, f);
      }
      leaked := map f | f in leaked :: leaked[f] + |SlotsOf(t, f, 0, t.capacity)|;
      tables := tables - {p};
    }
  }

  ghost function From(slots: map<nat, File>, i: nat): map<nat, File> {
    map k | k in slots && k >= i :: slots[k]
  }

  lemma FromSlots(t0: Table<File>, t: Table<File>, lo: nat, f: File)
    requires t.capacity == t0.capacity && t.slots == From(t0.slots, lo)
    ensures SlotsOf(t, f, 0, t.capacity) == SlotsOf(t0, f, lo, t0.capacity)
  {
  }

  /** A failed fork leaks nothing exactly when the parent had nothing open; an exit leaks nothing exactly when
      no slot from 100 on was in use. */
  lemma LeakExact(t: Table<File>, files: set<File>, lo: nat)
    requires t.Ok() && forall i :: i in t.slots ==> t.slots[i] in files
    ensures (forall f :: f in files ==> |SlotsOf(t, f, lo, t.capacity)| == 0) <==> (forall i :: i in t.slots ==> i < lo)
  {
    if i :| i in t.slots && i >= lo {
      assert i in SlotsOf(t, t.slots[i], lo, t.capacity);
      assert |SlotsOf(t, t.slots[i], lo, t.capacity)| != 0;
    } else {
      forall f | f in files ensures SlotsOf(t, f, lo, t.capacity) == {} {}
    }
  }

  /** A fork that fails for lack of page tables: a file open once has two references, and one slot. */
  method LeakAtFork(p: Pid, child: Pid, f: File) returns (vfs: Vfs, ok: bool)
    requires p != child
    ensures vfs.Valid() && !ok && vfs.tables == map[p := Table(map[0 := f], 64)]
    ensures f in vfs.refs && vfs.refs[f] == 2 && |Holders(vfs.tables, f)| == 1
  {
    hide Holders, SlotsOf, Accounted;
    vfs := new Vfs(p);
    ghost var t := vfs.tables[p];
    var index := vfs.CreateFd(p, f);
    assert 0 !in t.slots && index == 0;
    ok := vfs.Fork(p, child, true, false);
    OneSlot(vfs.tables, p, f);
    LeakedReferences(vfs.tables, vfs.refs, vfs.closed, vfs.leaked, f);
  }

  lemma LeakedReferences(tables: Tables, refs: map<File, nat>, closed: seq<File>, leaked: map<File, nat>, f: File)
    requires Accounted(tables, refs, closed, leaked) && f in leaked
    ensures f in refs && refs[f] == |Holders(tables, f)| + leaked[f]
    ensures refs[f] > 0 ==> f !in closed
  {
    hide Holders;
  }

  lemma OneSlot(tables: Tables, p: Pid, f: File)
    requires tables == map[p := Table(map[0 := f], 64)]
    ensures |Holders(tables, f)| == 1 && |SlotsOf(tables[p], f, 0, 64)| == 1
  {
    assert Holders(tables, f) == {(p, 0)};
    assert SlotsOf(tables[p], f, 0, 64) == {0};
  }

  /** An exit with slot 100 in use: its file keeps a reference in no slot and is never closed. */
  method LeakAtExit(p: Pid) returns (vfs: Vfs)
    ensures vfs.Valid() && vfs.tables == map[] && |Holders(vfs.tables, 100)| == 0
    ensures 100 in vfs.refs && vfs.refs[100] == 1 && 100 !in vfs.closed
  {
    hide Holders, SlotsOf, Accounted;
    vfs := new Vfs(p);
    for f := 0 to 101
      invariant vfs.Valid() && vfs.tables.Keys == {p} && fresh(vfs)
      invariant forall i :: i in vfs.tables[p].slots <==> 0 <= i < f
      invariant forall i :: i in vfs.tables[p].slots ==> vfs.tables[p].slots[i] == i
      invariant forall g :: g in vfs.refs <==> 0 <= g < f
      invariant f > 100 ==> 100 in vfs.leaked && vfs.leaked[100] == 0
    {
      ghost var t := vfs.tables[p];
      var index := vfs.CreateFd(p, f);
      assert f !in t.slots && index == f;
    }
    ghost var t := vfs.tables[p];
    TableFacts(vfs.tables, vfs.refs, vfs.closed, vfs.leaked, p);
    LastSlot(t);
    vfs.FreeProcess(p);
    NoTable(CLOSED_SLOTS);
    LeakedReferences(vfs.tables, vfs.refs, vfs.closed, vfs.leaked, CLOSED_SLOTS);
  }

  lemma LastSlot(t: Table<File>)
    requires t.Ok() && CLOSED_SLOTS in t.slots && forall i :: i in t.slots ==> t.slots[i] == i
    ensures |SlotsOf(t, CLOSED_SLOTS, CLOSED_SLOTS, t.capacity)| == 1
  {
    assert SlotsOf(t, CLOSED_SLOTS, CLOSED_SLOTS, t.capacity) == {CLOSED_SLOTS};
  }

  lemma NoTable(f: File)
    ensures |Holders(map[], f)| == 0
  {
    assert Holders(map[], f) == {};
  }
}
