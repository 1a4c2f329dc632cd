/** The list of open inodes of kernel/fs/ext2.c, which puts off remove_inode until the last close. */
module OpenInodes {

  class OpenFile {
    var inodeNum: nat
    var references: nat
    var isRemoved: bool
    var next: OpenFile?
    var prev: OpenFile?

    constructor (n: nat, following: OpenFile?)
      ensures inodeNum == n && references == 0 && !isRemoved && next == following && prev == null
    {
      inodeNum, references, isRemoved, next, prev := n, 0, false, following, null;
    }
  }

  /** What is known of an open inode: how often it is open, and whether it has been unlinked. */
  datatype Open = Open(references: nat, removed: bool)

  type Opens = map<nat, Open>

  datatype Entry = Entry(inode: nat, open: Open)

  ghost predicate Distinct(q: seq<Entry>) {
    forall i, j :: 0 <= i < j < |q| ==> q[i].inode != q[j].inode
  }

  ghost function ToMap(q: seq<Entry>): Opens {
    if q == [] then map[] else ToMap(q[1..])[q[0].inode := q[0].open]
  }

  lemma {:induction false} ToMapAt(q: seq<Entry>, k: nat)
    requires Distinct(q) && k < |q|
    ensures q[k].inode in ToMap(q) && ToMap(q)[q[k].inode] == q[k].open
  {
    if k > 0 { ToMapAt(q[1..], k - 1); }
  }

  lemma {:induction false} ToMapNone(q: seq<Entry>, n: nat)
    requires forall i :: 0 <= i < |q| ==> q[i].inode != n
    ensures n !in ToMap(q)
  {
    if q != [] { ToMapNone(q[1..], n); }
  }

  lemma {:induction false} ToMapUpdate(q: seq<Entry>, k: nat, open: Open)
    requires Distinct(q) && k < |q|
    ensures ToMap(q[k := Entry(q[k].inode, open)]) == ToMap(q)[q[k].inode := open]
  {
    var q' := q[k := Entry(q[k].inode, open)];
    if k > 0 {
      ToMapUpdate(q[1..], k - 1, open);
      assert q'[1..] == q[1..][k - 1 := Entry(q[k].inode, open)];
    }
  }

  function Without<T>(q: seq<T>, k: nat): seq<T>
    requires k < |q|
  {
    q[..k] + q[k + 1..]
  }

  lemma {:induction false} ToMapWithout(q: seq<Entry>, k: nat)
    requires Distinct(q) && k < |q|
    ensures ToMap(Without(q, k)) == ToMap(q) - {q[k].inode}
  {
    if k == 0 {
      ToMapNone(q[1..], q[0].inode);
      assert Without(q, 0) == q[1..];
    } else {
      ToMapWithout(q[1..], k - 1);
      assert Without(q, k)[1..] == Without(q[1..], k - 1);
    }
  }

  lemma DistinctWithout(q: seq<Entry>, k: nat)
    requires Distinct(q) && k < |q|
    ensures Distinct(Without(q, k))
  {
  }

  class OpenList {
    var filesHead: OpenFile?
    /** The calls of remove_inode so far. */
    var removals: seq<nat>
    /** The nodes in list order, and what they hold. */
    ghost var list: seq<OpenFile>
    ghost var entries: seq<Entry>

    /** Node i holds entry i and is linked to its neighbours. */
    ghost predicate Linked(i: nat)
      requires i < |list| == |entries|
      reads `list, `entries, list
    {
      && list[i].inodeNum == entries[i].inode && list[i].references == entries[i].open.references > 0
      && list[i].isRemoved == entries[i].open.removed
      && list[i].next == (if i + 1 < |list| then list[i + 1] else null)
      && list[i].prev == (if i > 0 then list[i - 1] else null)
    }

    ghost predicate Valid()
      reads `filesHead, `list, `entries, list
    {
      && |list| == |entries| && Distinct(entries)
      && filesHead == (if list == [] then null else list[0])
      && forall i :: 0 <= i < |list| ==> Linked(i)
    }

    /** One entry per open inode. */
    ghost function View(): Opens
      reads `entries
    {
      ToMap(entries)
    }

    constructor ()
      ensures Valid() && View() == map[] && removals == []
    {
      filesHead, removals, list, entries := null, [], [], [];
    }

    /** Different places hold different nodes. */
    lemma Apart(i: nat, j: nat)
      requires Valid() && i < |list| && j < |list| && i != j
      ensures list[i] != list[j]
    {
      assert Linked(i) && Linked(j);
    }

    /** The search loop of the three operations. */
    method Find(n: nat) returns (ptr: OpenFile?, ghost k: nat)
      requires Valid()
      ensures k <= |list| && ptr == (if k < |list| then list[k] else null)
      ensures ptr != null ==> entries[k].inode == n && n in View() && View()[n] == entries[k].open && Linked(k)
      ensures ptr == null ==> n !in View() && forall i :: 0 <= i < |entries| ==> entries[i].inode != n
    {
      ptr, k := filesHead, 0;
      while ptr != null
        invariant k <= |list| && ptr == (if k < |list| then list[k] else null)
        invariant forall i :: 0 <= i < k ==> entries[i].inode != n
        decreases |list| - k
      {
        assert Linked(k);
        if ptr.inodeNum == n {
          ToMapAt(entries, k);
          return;
        }
        ptr, k := ptr.next, k + 1;
      }
      ToMapNone(entries, n);
    }

    /** A new node at the head of the list. */
    method Prepend(n: nat)
      requires Valid() && forall i :: 0 <= i < |entries| ==> entries[i].inode != n
      modifies this, list
      ensures Valid() && removals == old(removals) && entries == [Entry(n, Open(1, false))] + old(entries)
      ensures |list| == |old(list)| + 1 && list[1..] == old(list) && fresh(list[0])
    {
      var ptr := new OpenFile(n, filesHead);
      if ptr.next != null {
        assert Linked(0);
        ptr.prev := ptr.next.prev;
        ptr.next.prev := ptr;
        // The head has no predecessor, so there is no third link to set.
        if ptr.prev != null { assert false; }
      }
      filesHead := ptr;
      ptr.references := ptr.references + 1;
      ghost var before := list;
      assert forall i :: 0 <= i < |list| ==> old(Linked(i));
      assert forall i :: 0 < i < |list| ==> list[i] != list[0] by {
        forall i | 0 < i < |list| ensures list[i] != list[0] { assert old(Linked(i)) && old(Linked(0)); }
      }
      list, entries := [ptr] + list, [Entry(n, Open(1, false))] + entries;
      forall i | 0 <= i < |list| ensures Linked(i) {
        if i > 0 { assert old(Linked(i - 1)) && list[i] == before[i - 1]; }
      }
    }

    /** Changes what one node holds, apart from its inode number. */
    method Set(ptr: OpenFile, ghost k: nat, references: nat, removed: bool)
      requires Valid() && k < |list| && ptr == list[k] && references > 0
      modifies this`entries, ptr`references, ptr`isRemoved
      ensures Valid() && View() == old(View())[old(entries[k].inode) := Open(references, removed)]
    {
      ToMapUpdate(entries, k, Open(references, removed));
      assert Linked(k);
      assert forall i :: 0 <= i < |list| ==> Linked(i);
      forall i | 0 <= i < |list| && i != k ensures list[i] != ptr { Apart(i, k); }
      ptr.references, ptr.isRemoved := references, removed;
      entries := entries[k := Entry(entries[k].inode, Open(references, removed))];
      forall i | 0 <= i < |list| ensures Linked(i) { assert old(Linked(i)); }
    }

    /** add_open_inode; `memory` says whether kmalloc succeeds. */
    method AddOpenInode(n: nat, memory: bool) returns (ok: bool)
      requires Valid()
      modifies this, list
      ensures Valid() && removals == old(removals)
      ensures list == old(list) || (|list| == |old(list)| + 1 && list[1..] == old(list) && fresh(list[0]))
      ensures ok == (n in old(View()) || memory)
      ensures View() == if ok then Opened(old(View()), n) else old(View())
    {
      var ptr, k := Find(n);
      if ptr != null {
        Set(ptr, k, ptr.references + 1, ptr.isRemoved);
      } else {
        if !memory { return false; }
        Prepend(n);
        assert entries[1..] == old(entries);
      }
      ok := true;
    }

    /** remove_possibly_open_inode. */
    method RemovePossiblyOpenInode(n: nat)
      requires Valid()
      modifies this, list
      ensures Valid() && list == old(list)
      ensures View() == Unlinked(old(View()), n)
      ensures removals == old(removals) + if UnlinkRemoves(old(View()), n) then [n] else []
    {
      var ptr, k := Find(n);
      if ptr == null {
        removals := removals + [n];
        return;
      }
      Set(ptr, k, ptr.references, true);
    }

    /** Takes a node out of the list. */
    method Detach(ptr: OpenFile, ghost k: nat)
      requires Valid() && k < |list| && ptr == list[k]
      modifies this, list
      ensures Valid() && list == Without(old(list), k)
      ensures removals == old(removals) && View() == old(View()) - {old(entries[k].inode)}
      ensures ptr.isRemoved == old(ptr.isRemoved)
    {
      hide ToMap, Distinct;
      ToMapWithout(entries, k);
      DistinctWithout(entries, k);
      ghost var before, held := list, entries;
      Unhook(ptr, k);
      list, entries := Without(list, k), Without(entries, k);
      forall i | 0 <= i < |list| ensures Linked(i) {
        var o := if i < k then i else i + 1;
        assert old(Linked(o)) && old(Linked(k)) && list[i] == before[o] && entries[i] == held[o];
      }
      assert before != [] ==> old(Linked(0));
    }

    /** The pointer updates of deref_open_inode. */
    method Unhook(ptr: OpenFile, ghost k: nat)
      requires Valid() && k < |list| && ptr == list[k]
      modifies `filesHead, list
      ensures filesHead == if k == 0 then old(ptr.next) else old(filesHead)
      ensures forall i :: 0 <= i < |list| ==> Unhooked(list[i], if i == k - 1 then old(ptr.next) else old(list[i].next),
                                                       if i == k + 1 then old(ptr.prev) else old(list[i].prev))
    {
      assert Linked(k);
      if k > 0 {
        assert Linked(k - 1);
        forall i | 0 <= i < |list| && i != k - 1 ensures list[i] != list[k - 1] { Apart(i, k - 1); }
      }
      if k + 1 < |list| {
        forall i | 0 <= i < |list| && i != k + 1 ensures list[i] != list[k + 1] { Apart(i, k + 1); }
      }
      if k > 0 { Apart(0, k); }
      if ptr.prev != null { ptr.prev.next := ptr.next; }
      if ptr.next != null { ptr.next.prev := ptr.prev; }
      if filesHead == ptr { filesHead := ptr.next; }
    }

    /** The node has these links and otherwise what it had. */
    twostate predicate Unhooked(f: OpenFile, next: OpenFile?, prev: OpenFile?)
      reads f
    {
      f.next == next && f.prev == prev && f.inodeNum == old(f.inodeNum) && f.references == old(f.references)
          && f.isRemoved == old(f.isRemoved)
    }

    /** deref_open_inode. */
    method DerefOpenInode(n: nat) returns (last: bool)
      requires Valid()
      modifies this, list
      ensures Valid() && forall x :: x in list ==> x in old(list)
      ensures last == (n !in View())
      ensures View() == Closed(old(View()), n)
      ensures removals == old(removals) + if CloseRemoves(old(View()), n) then [n] else []
    {
      var ptr, k := Find(n);
      if ptr == null { return true; }
      if ptr.references > 1 {
        Set(ptr, k, ptr.references - 1, ptr.isRemoved);
        return false;
      }
      Detach(ptr, k);
      if ptr.isRemoved { removals := removals + [n]; }
      return true;
    }
  }

  function Opened(v: Opens, n: nat): Opens {
    v[n := if n in v then Open(v[n].references + 1, v[n].removed) else Open(1, false)]
  }

  function Unlinked(v: Opens, n: nat): Opens {
    if n in v then v[n := Open(v[n].references, true)] else v
  }

  predicate UnlinkRemoves(v: Opens, n: nat) {
    n !in v
  }

  function Closed(v: Opens, n: nat): Opens {
    if n !in v then v
    else if v[n].references <= 1 then v - {n}
    else v[n := Open(v[n].references - 1, v[n].removed)]
  }

  predicate CloseRemoves(v: Opens, n: nat) {
    n in v && v[n].references <= 1 && v[n].removed
  }

  // Whole runs.

  datatype Event = OpenIt(n: nat) | CloseIt(n: nat) | UnlinkIt(n: nat)
  datatype State = State(opens: Opens, removals: seq<nat>)

  function Step(s: State, e: Event): State {
    match e
    case OpenIt(n) => State(Opened(s.opens, n), s.removals)
    case CloseIt(n) => State(Closed(s.opens, n), s.removals + if CloseRemoves(s.opens, n) then [n] else [])
    case UnlinkIt(n) => State(Unlinked(s.opens, n), s.removals + if UnlinkRemoves(s.opens, n) then [n] else [])
  }

  function Run(events: seq<Event>): State {
    if events == [] then State(map[], []) else Step(Run(events[..|events| - 1]), events[|events| - 1])
  }

  function Times(s: seq<nat>, n: nat): nat {
    multiset(s)[n]
  }

  /** How often inode n was unlinked. */
  function Unlinks(events: seq<Event>, n: nat): nat {
    if events == [] then 0
    else Unlinks(events[..|events| - 1], n) + if events[|events| - 1] == UnlinkIt(n) then 1 else 0
  }

  function Pending(v: Opens, n: nat): nat {
    if n in v && v[n].removed then 1 else 0
  }

  /** How often inode n was unlinked while open and already unlinked. */
  function Repeated(events: seq<Event>, n: nat): nat {
    if events == [] then 0
    else
      var init, e := events[..|events| - 1], events[|events| - 1];
      Repeated(init, n) + if e == UnlinkIt(n) then Pending(Run(init).opens, n) else 0
  }

  /** Opens of inode n that have not been closed. A close of an inode that is not open counts for nothing. */
  function Held(events: seq<Event>, n: nat): nat {
    if events == [] then 0
    else
      var h, e := Held(events[..|events| - 1], n), events[|events| - 1];
      if e == OpenIt(n) then h + 1 else if e == CloseIt(n) && h > 0 then h - 1 else h
  }

  lemma TimesJoin(s: seq<nat>, t: seq<nat>, n: nat)
    ensures Times(s + t, n) == Times(s, n) + Times(t, n)
  {
  }

  /** Over every run an inode has an entry exactly while it is open, with the right count. */
  lemma {:induction false} HeldExact(events: seq<Event>, n: nat)
    ensures var v := Run(events).opens; Held(events, n) == if n in v then v[n].references else 0
    ensures forall m :: m in Run(events).opens ==> Run(events).opens[m].references > 0
  {
    if events != [] {
      HeldExact(events[..|events| - 1], n);
    }
  }

  /** Over every run, each unlink leads to one remove_inode, now or at the last close, except that
      unlinks repeated while the first is pending are lost. */
  lemma {:induction false} RemovalsExact(events: seq<Event>, n: nat)
    ensures Times(Run(events).removals, n) + Pending(Run(events).opens, n) + Repeated(events, n) == Unlinks(events, n)
  {
    if events != [] {
      var init, e := events[..|events| - 1], events[|events| - 1];
      RemovalsExact(init, n);
      TimesJoin(Run(init).removals, [e.n], n);
      assert Run(init).removals + [] == Run(init).removals;
    }
  }

  /** Every removal promised is made, exactly, once nothing is open, if and only if no unlink was repeated. */
  lemma RemovedOnceEach(events: seq<Event>, n: nat)
    requires Held(events, n) == 0
    ensures Times(Run(events).removals, n) == Unlinks(events, n) <==> Repeated(events, n) == 0
  {
    HeldExact(events, n);
    RemovalsExact(events, n);
  }

  /** remove_inode is never called for an inode that is open. */
  lemma NeverWhileOpen(events: seq<Event>, e: Event)
    requires Run(events + [e]).removals != Run(events).removals
    ensures Run(events + [e]).removals == Run(events).removals + [e.n] && Held(events + [e], e.n) == 0
  {
    assert (events + [e])[..|events + [e]| - 1] == events;
    HeldExact(events + [e], e.n);
    assert Run(events).removals + [] == Run(events).removals;
  }

  /** Two names of one open inode, unlinked one after the other: only one remove_inode follows. */
  lemma SecondUnlinkLost()
    ensures var run := [OpenIt(7), UnlinkIt(7), UnlinkIt(7), CloseIt(7)];
            Unlinks(run, 7) == 2 && Run(run).removals == [7] && Held(run, 7) == 0
  {
    var run := [OpenIt(7), UnlinkIt(7), UnlinkIt(7), CloseIt(7)];
    var r3, r2, r1 := run[..3], run[..2], run[..1];
    assert r3[..2] == r2 && r2[..1] == r1 && r1[..0] == [];
    assert Run(r1) == State(map[7 := Open(1, false)], []);
    assert Run(r2) == State(map[7 := Open(1, true)], []);
    assert Run(r3) == State(map[7 := Open(1, true)], []);
    assert Unlinks(r1, 7) == 0 && Unlinks(r2, 7) == 1 && Unlinks(r3, 7) == 2;
    assert Held(r1, 7) == 1 && Held(r2, 7) == 1 && Held(r3, 7) == 1;
  }
}
