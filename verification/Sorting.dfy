/** In-place sorting of a slice by a strict order, as `sort.Slice` is used by the keepers. */
module Sorting {

  /** A strict weak order: what `sort.Slice` needs of its comparison. */
  ghost predicate StrictWeakOrder<T(!new)>(less: (T, T) -> bool) {
    && (forall x, y :: less(x, y) ==> !less(y, x))
    && (forall x, y, z :: less(x, y) && !less(z, y) ==> less(x, z))
  }

  ghost predicate SortedBy<T>(s: seq<T>, less: (T, T) -> bool) {
    forall i, j :: 0 <= i < j < |s| ==> !less(s[j], s[i])
  }

  /** Exchanges two elements and nothing else. */
  method Swap<T>(a: array<T>, i: nat, j: nat)
    requires i < a.Length && j < a.Length
    modifies a
    ensures a[..] == old(a[..])[i := old(a[j])][j := old(a[i])]
    ensures multiset(a[..]) == multiset(old(a[..]))
  {
    a[i], a[j] := a[j], a[i];
  }

  /** Moves the element at `n` down to its place among the first `n`, which are already sorted. */
  method Insert<T(!new)>(a: array<T>, n: nat, less: (T, T) -> bool)
    requires StrictWeakOrder(less)
    requires n < a.Length && SortedBy(a[..n], less)
    modifies a
    ensures SortedBy(a[..n + 1], less)
    ensures a[n + 1..] == old(a[n + 1..])
    ensures multiset(a[..]) == multiset(old(a[..]))
  {
    var j := n;
    while j > 0 && less(a[j], a[j - 1])
      invariant 0 <= j <= n
      invariant forall p, q :: 0 <= p < q <= n && q != j ==> !less(a[q], a[p])
      invariant a[n + 1..] == old(a[n + 1..])
      invariant multiset(a[..]) == multiset(old(a[..]))
    {
      label before:
      Swap(a, j, j - 1);
      assert a[j] == old@before(a[j - 1]) && a[j - 1] == old@before(a[j]);
      assert forall k :: 0 <= k < a.Length && k != j && k != j - 1 ==> a[k] == old@before(a[k]);
      j := j - 1;
    }
    assert forall p :: 0 <= p < j ==> !less(a[j], a[p]);
  }

  /** Sorts the slice: the same elements, in an order no later element contradicts. */
  method Sort<T(!new)>(a: array<T>, less: (T, T) -> bool)
    requires StrictWeakOrder(less)
    modifies a
    ensures SortedBy(a[..], less)
    ensures multiset(a[..]) == multiset(old(a[..]))
  {
    for n := 0 to a.Length
      invariant SortedBy(a[..n], less)
      invariant multiset(a[..]) == multiset(old(a[..]))
    {
      Insert(a, n, less);
    }
    assert a[..] == a[..a.Length];
  }
}
