/** kernel/lib/relist.c: a table of slots with a bitmap of those in use. */
module Relists {
  import opened Bits

  /** The table as a value: what is in which slot, and how many slots there are. */
  datatype Table<T> = Table(slots: map<nat, T>, capacity: nat) {
    ghost predicate Ok() {
      forall i :: i in slots ==> i < capacity
    }
  }

  /** i is the lowest slot not in use; it may be the first one beyond the capacity. */
  ghost predicate LowestFree<T>(t: Table<T>, i: nat) {
    i !in t.slots && i <= t.capacity && forall k :: 0 <= k < i ==> k in t.slots
  }

  /** The slot relist_find_free_entry looks for, from slot i on. */
  function Lowest<T>(t: Table<T>, i: nat): (r: nat)
    requires i <= t.capacity
    ensures i <= r <= t.capacity && forall k :: i <= k < r ==> k in t.slots
    ensures r < t.capacity ==> r !in t.slots
    decreases t.capacity - i
  {
    if i == t.capacity || i !in t.slots then i else Lowest(t, i + 1)
  }

  /** The table with a value in slot i, a word longer if it had no such slot. */
  function WithEntry<T>(t: Table<T>, i: nat, value: T): Table<T> {
    Table(t.slots[i := value], if i < t.capacity then t.capacity else t.capacity + 64)
  }

  predicate InUse(words: seq<nat>, i: nat) {
    BitIn(words, i / 64, i % 64)
  }

  class Relist<T(0)> {
    var bitmap: seq<nat>
    var entries: seq<T>

    ghost predicate Valid()
      reads this
    {
      |entries| == 64 * |bitmap|
    }

    ghost function View(): Table<T>
      requires Valid()
      reads this
    {
      Table(map i: nat | i < |entries| && InUse(bitmap, i) :: entries[i], |entries|)
    }

    /** relist_init; `memory` says whether both allocations succeed. */
    constructor (memory: bool)
      ensures Valid() && View().slots == map[] && View().capacity == if memory then 64 else 0
    {
      var unset: T := *;
      bitmap := if memory then [0] else [];
      entries := if memory then seq(64, _ => unset) else [];
      new;
      forall i: nat | i < |entries| ensures !InUse(bitmap, i) { NoBit(i); }
    }

    /** relist_clone; `memory` says whether both allocations succeed. A failure leaves no slots. */
    constructor Clone(list: Relist<T>, memory: bool)
      requires list.Valid()
      ensures Valid() && View() == if memory then list.View() else Table(map[], 0)
    {
      bitmap := if memory then list.bitmap else [];
      entries := if memory then list.entries else [];
    }

    /** relist_find_free_entry: the lowest slot not in use, if there is one. */
    method FindFreeEntry() returns (ok: bool, entry: nat)
      requires Valid()
      ensures ok ==> entry < View().capacity && LowestFree(View(), entry)
      ensures !ok ==> entry == 0 && LowestFree(View(), View().capacity)
    {
      for i := 0 to |bitmap|
        invariant forall k :: 0 <= k < 64 * i ==> InUse(bitmap, k)
      {
        if bitmap[i] == 0xFFFF_FFFF_FFFF_FFFF {
          FullWords();
          forall k | 64 * i <= k < 64 * i + 64 ensures InUse(bitmap, k) { OnesBit(64, k % 64); }
        } else {
          for c := 0 to 64
            invariant forall k :: 0 <= k < 64 * i + c ==> InUse(bitmap, k)
          {
            if !Bit(bitmap[i], c) { return true, 64 * i + c; }
          }
        }
      }
      return false, 0;
    }

    /** relist_add: the lowest free slot, growing the table by a word when there is none. `memory` says
        whether the table can grow. */
    method Add(value: T, memory: bool) returns (ok: bool, index: nat)
      requires Valid()
      modifies this
      ensures Valid() && ok == (memory || !LowestFree(old(View()), old(View()).capacity))
      ensures ok ==> LowestFree(old(View()), index) && View() == WithEntry(old(View()), index, value)
      ensures !ok ==> View() == old(View())
    {
      var found, entry := FindFreeEntry();
      if !found {
        if !memory { return false, 0; }
        var unset: T := *;
        entry := |entries|;
        bitmap := bitmap + [0];
        entries := entries + seq(64, _ => unset);
        NoBit(0);
        forall k: nat | old(|entries|) <= k < |entries| ensures !InUse(bitmap, k) { NoBit(k % 64); }
      }
      entries := entries[entry := value];
      ghost var before := bitmap;
      bitmap := bitmap[entry / 64 := SetBit(bitmap[entry / 64], entry % 64)];
      forall k: nat ensures InUse(bitmap, k) == (InUse(before, k) || k == entry) {
        SetBitIn(before, entry / 64, entry % 64, k / 64, k % 64);
      }
      return true, entry;
    }

    /** relist_remove of a slot in use; it asserts that it is. */
    method Remove(index: nat)
      requires Valid() && index in View().slots
      modifies this
      ensures Valid() && View() == old(View()).(slots := old(View()).slots - {index})
    {
      ghost var before := bitmap;
      bitmap := bitmap[index / 64 := ClearBit(bitmap[index / 64], index % 64)];
      forall k: nat ensures InUse(bitmap, k) == (InUse(before, k) && k != index) {
        ClearBitIn(before, index / 64, index % 64, k / 64, k % 64);
      }
    }

    /** relist_set of a slot of the table; it asserts that it is one. */
    method Set(index: nat, value: T)
      requires Valid() && index < View().capacity
      modifies this
      ensures Valid() && View() == old(View()).(slots := old(View()).slots[index := value])
    {
      ghost var before := bitmap;
      bitmap := bitmap[index / 64 := SetBit(bitmap[index / 64], index % 64)];
      entries := entries[index := value];
      forall k: nat ensures InUse(bitmap, k) == (InUse(before, k) || k == index) {
        SetBitIn(before, index / 64, index % 64, k / 64, k % 64);
      }
    }

    /** relist_get. */
    method Get(index: nat) returns (found: bool, out: T, end: bool)
      requires Valid()
      ensures end == (index >= View().capacity) && found == (index in View().slots)
      ensures found ==> out == View().slots[index]
    {
      out := *;
      if index >= 64 * |bitmap| { return false, out, true; }
      if !Bit(bitmap[index / 64], index % 64) { return false, out, false; }
      return true, entries[index], false;
    }
  }
}
