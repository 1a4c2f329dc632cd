/** userland/libc/stdlib/qsort.c: exchange sort whose inner loop always scans the whole array. */
module Sorting {

  /** x may stand before y: the comparator does not put y first. */
  predicate Before<T>(compar: (T, T) -> int, x: T, y: T) {
    compar(y, x) >= 0
  }

  /** The comparator orders totally, equal elements allowed. */
  ghost predicate TotalPreorder<T(!new)>(compar: (T, T) -> int) {
    && (forall x, y :: Before(compar, x, y) || Before(compar, y, x))
    && (forall x, y, z :: Before(compar, x, y) && Before(compar, y, z) ==> Before(compar, x, z))
  }

  ghost predicate Sorted<T>(compar: (T, T) -> int, s: seq<T>) {
    forall i, j :: 0 <= i <= j < |s| ==> Before(compar, s[i], s[j])
  }

  /** No element before place n comes behind x. */
  ghost predicate AllBefore<T>(compar: (T, T) -> int, s: seq<T>, n: nat, x: T) {
    n <= |s| && forall k :: 0 <= k < n ==> Before(compar, s[k], x)
  }

  function Swapped<T>(s: seq<T>, i: nat, j: nat): seq<T>
    requires i < |s| && j < |s|
  {
    s[i := s[j]][j := s[i]]
  }

  lemma SwappedSame<T>(s: seq<T>, i: nat, j: nat)
    requires i < |s| && j < |s|
    ensures multiset(Swapped(s, i, j)) == multiset(s)
  {
  }

  /** One turn of the inner loop: the prefix stays sorted and element i takes the greater of the two. */
  lemma Exchange<T(!new)>(compar: (T, T) -> int, s: seq<T>, i: nat, j: nat)
    requires TotalPreorder(compar) && i < |s| && j < |s| && Sorted(compar, s[..i]) && AllBefore(compar, s, j, s[i])
    ensures var s' := if compar(s[i], s[j]) < 0 then Swapped(s, i, j) else s;
            Sorted(compar, s'[..i]) && AllBefore(compar, s', j + 1, s'[i])
  {
    if compar(s[i], s[j]) < 0 {
      var s' := Swapped(s, i, j);
      assert Before(compar, s[i], s[j]);
      forall k | 0 <= k < j + 1 ensures Before(compar, s'[k], s'[i]) {
        if k != i && k != j { assert Before(compar, s[k], s[i]); }
      }
      forall a, b | 0 <= a <= b < i ensures Before(compar, s'[a], s'[b]) {
        assert Before(compar, s[..i][a], s[..i][b]);
        if a != j && b == j { assert Before(compar, s[a], s[i]); }
        if a == j && b != j { assert Before(compar, s[..i][j], s[..i][b]); }
      }
    }
  }

  /** qsort: for every comparator a permutation, and for every total preorder a sorted one. */
  method Qsort<T(!new)>(a: array<T>, compar: (T, T) -> int)
    modifies a
    ensures multiset(a[..]) == multiset(old(a[..]))
    ensures TotalPreorder(compar) ==> Sorted(compar, a[..])
  {
    if a.Length == 0 { return; }
    for i := 1 to a.Length
      invariant multiset(a[..]) == multiset(old(a[..]))
      invariant TotalPreorder(compar) ==>
                Sorted(compar, a[..][..i]) && (i > 1 ==> AllBefore(compar, a[..], a.Length, a[i - 1]))
    {
      for j := 0 to a.Length
        invariant multiset(a[..]) == multiset(old(a[..]))
        invariant TotalPreorder(compar) ==> Sorted(compar, a[..][..i]) && AllBefore(compar, a[..], j, a[i])
      {
        ghost var s := a[..];
        if TotalPreorder(compar) { Exchange(compar, s, i, j); }
        if compar(a[i], a[j]) < 0 {
          SwappedSame(s, i, j);
          a[i], a[j] := a[j], a[i];
          assert a[..] == Swapped(s, i, j);
        }
      }
      if TotalPreorder(compar) { OneMore(compar, a[..], i); }
    }
    assert a[..][..a.Length] == a[..];
  }

  lemma OneMore<T(!new)>(compar: (T, T) -> int, s: seq<T>, i: nat)
    requires TotalPreorder(compar) && i < |s| && Sorted(compar, s[..i]) && AllBefore(compar, s, |s|, s[i])
    ensures Sorted(compar, s[..i + 1])
  {
    var t := s[..i + 1];
    forall a, b | 0 <= a <= b < |t| ensures Before(compar, t[a], t[b]) {
      if b < i { assert Before(compar, s[..i][a], s[..i][b]); }
    }
  }
}
