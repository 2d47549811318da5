/** Sums over finite sets and sequences. */
module Sums {

  // ----- sets

  ghost function SumSet<T(!new)>(s: set<T>, f: T -> int): int {
    if s == {} then 0
    else
      var x :| x in s;
      f(x) + SumSet(s - {x}, f)
  }

  /** The sum does not depend on which element is taken first. */
  lemma {:induction false} SumRemove<T(!new)>(s: set<T>, f: T -> int, x: T)
    requires x in s
    ensures SumSet(s, f) == f(x) + SumSet(s - {x}, f)
    decreases |s|
  {
    var y :| y in s && SumSet(s, f) == f(y) + SumSet(s - {y}, f);
    if y != x {
      SumRemove(s - {y}, f, x);
      SumRemove(s - {x}, f, y);
      assert s - {y} - {x} == s - {x} - {y};
    }
  }

  lemma SumAdd<T(!new)>(s: set<T>, f: T -> int, x: T)
    requires x !in s
    ensures SumSet(s + {x}, f) == SumSet(s, f) + f(x)
  {
    SumRemove(s + {x}, f, x);
    assert s + {x} - {x} == s;
  }

  lemma {:induction false} SumAgree<T(!new)>(s: set<T>, f: T -> int, g: T -> int)
    requires forall x :: x in s ==> f(x) == g(x)
    ensures SumSet(s, f) == SumSet(s, g)
    decreases |s|
  {
    if s != {} {
      var x :| x in s;
      SumRemove(s, f, x);
      SumRemove(s, g, x);
      SumAgree(s - {x}, f, g);
    }
  }

  lemma {:induction false} SumNonNegative<T(!new)>(s: set<T>, f: T -> int)
    requires forall x :: x in s ==> f(x) >= 0
    ensures SumSet(s, f) >= 0
    decreases |s|
  {
    if s != {} {
      var x :| x in s;
      SumRemove(s, f, x);
      SumNonNegative(s - {x}, f);
    }
  }

  lemma {:induction false} SumUnion<T(!new)>(s: set<T>, t: set<T>, f: T -> int)
    requires s !! t
    ensures SumSet(s + t, f) == SumSet(s, f) + SumSet(t, f)
    decreases |t|
  {
    if t == {} {
      assert s + t == s;
    } else {
      var x :| x in t;
      SumUnion(s, t - {x}, f);
      SumRemove(t, f, x);
      SumRemove(s + t, f, x);
      assert s + t - {x} == s + (t - {x});
    }
  }

  lemma SumSubset<T(!new)>(s: set<T>, t: set<T>, f: T -> int)
    requires s <= t
    requires forall x :: x in t ==> f(x) >= 0
    ensures SumSet(s, f) <= SumSet(t, f)
  {
    SumUnion(s, t - s, f);
    assert s + (t - s) == t;
    SumNonNegative(t - s, f);
  }

  ghost function Image<T(!new), U>(s: set<T>, h: T -> U): set<U> {
    set x | x in s :: h(x)
  }

  /** Renaming the elements one to one keeps the sum. */
  lemma {:induction false} SumImage<T(!new), U(!new)>(s: set<T>, h: T -> U, f: U -> int, g: T -> int)
    requires forall x, y :: x in s && y in s && h(x) == h(y) ==> x == y
    requires forall x :: x in s ==> f(h(x)) == g(x)
    ensures SumSet(Image(s, h), f) == SumSet(s, g)
    decreases |s|
  {
    if s == {} {
      assert Image(s, h) == {};
    } else {
      var x :| x in s;
      SumImage(s - {x}, h, f, g);
      SumRemove(s, g, x);
      assert Image(s, h) == Image(s - {x}, h) + {h(x)};
      SumAdd(Image(s - {x}, h), f, h(x));
    }
  }

  /** One element of a non-negative sum never exceeds the sum. */
  lemma SumAtLeastElement<T(!new)>(s: set<T>, f: T -> int, x: T)
    requires x in s
    requires forall y :: y in s ==> f(y) >= 0
    ensures f(x) <= SumSet(s, f)
  {
    SumRemove(s, f, x);
    SumNonNegative(s - {x}, f);
  }

  // ----- sequences

  ghost function SumSeq<T>(s: seq<T>, f: T -> int): int {
    if s == [] then 0 else SumSeq(s[..|s| - 1], f) + f(s[|s| - 1])
  }

  lemma SumSeqAppend<T>(s: seq<T>, f: T -> int, x: T)
    ensures SumSeq(s + [x], f) == SumSeq(s, f) + f(x)
  {
  }

  lemma {:induction false} SumSeqConcat<T>(s: seq<T>, t: seq<T>, f: T -> int)
    ensures SumSeq(s + t, f) == SumSeq(s, f) + SumSeq(t, f)
    decreases |t|
  {
    if t == [] {
      assert s + t == s;
    } else {
      var t', x := t[..|t| - 1], t[|t| - 1];
      assert s + t == (s + t') + [x];
      SumSeqAppend(s + t', f, x);
      SumSeqConcat(s, t', f);
    }
  }

  lemma {:induction false} SumSeqPointwise<T>(s: seq<T>, f: T -> int, g: T -> int)
    requires forall i :: 0 <= i < |s| ==> f(s[i]) <= g(s[i])
    ensures SumSeq(s, f) <= SumSeq(s, g)
  {
    if s != [] {
      SumSeqPointwise(s[..|s| - 1], f, g);
    }
  }

  lemma {:induction false} SumSeqNonNegative<T>(s: seq<T>, f: T -> int)
    requires forall i :: 0 <= i < |s| ==> f(s[i]) >= 0
    ensures SumSeq(s, f) >= 0
  {
    if s != [] {
      SumSeqNonNegative(s[..|s| - 1], f);
    }
  }

  /** The sum splits at any position around one element. */
  lemma SumSeqAt<T>(s: seq<T>, f: T -> int, i: nat)
    requires i < |s|
    ensures SumSeq(s, f) == SumSeq(s[..i], f) + f(s[i]) + SumSeq(s[i + 1..], f)
  {
    assert s == (s[..i] + [s[i]]) + s[i + 1..];
    SumSeqConcat(s[..i] + [s[i]], s[i + 1..], f);
    SumSeqAppend(s[..i], f, s[i]);
  }

  /** A sum depends only on which elements occur and how often. */
  lemma {:induction false} SumSeqPermutation<T>(s: seq<T>, t: seq<T>, f: T -> int)
    requires multiset(s) == multiset(t)
    ensures SumSeq(s, f) == SumSeq(t, f)
    decreases |s|
  {
    if s == [] {
      assert |multiset(t)| == |t|;
      assert t == [];
    } else {
      var n := |s| - 1;
      var x := s[n];
      assert x in multiset(t);
      var i :| 0 <= i < |t| && t[i] == x;
      var t' := t[..i] + t[i + 1..];
      assert t == t[..i] + [x] + t[i + 1..];
      assert s == s[..n] + [x];
      assert multiset(t') == multiset(t) - multiset{x};
      assert multiset(s[..n]) == multiset(s) - multiset{x};
      SumSeqPermutation(s[..n], t', f);
      SumSeqAt(t, f, i);
      SumSeqConcat(t[..i], t[i + 1..], f);
    }
  }

  ghost predicate Distinct<T>(s: seq<T>) {
    forall i, j :: 0 <= i < j < |s| ==> s[i] != s[j]
  }

  lemma DistinctConcat<T>(a: seq<T>, b: seq<T>)
    requires Distinct(a) && Distinct(b) && forall x :: x in a ==> x !in b
    ensures Distinct(a + b)
  {
    forall i, j | 0 <= i < j < |a + b| ensures (a + b)[i] != (a + b)[j] {
      if i < |a| <= j {
        assert a[i] in a && b[j - |a|] in b;
      }
    }
  }

  ghost function Elements<T>(s: seq<T>): set<T> {
    set x | x in s
  }

  /** Listing a set without repetition turns a set sum into a sequence sum. */
  lemma {:induction false} SumListing<T(!new)>(s: seq<T>, f: T -> int)
    requires Distinct(s)
    ensures SumSeq(s, f) == SumSet(Elements(s), f)
  {
    if s == [] {
      assert Elements(s) == {};
    } else {
      var n := |s| - 1;
      SumListing(s[..n], f);
      assert Elements(s) == Elements(s[..n]) + {s[n]};
      SumAdd(Elements(s[..n]), f, s[n]);
    }
  }

  // ----- cardinalities

  lemma {:induction false} ListingCard<T>(s: seq<T>)
    requires Distinct(s)
    ensures |Elements(s)| == |s|
  {
    if s == [] {
      assert Elements(s) == {};
    } else {
      var n := |s| - 1;
      ListingCard(s[..n]);
      assert Elements(s) == Elements(s[..n]) + {s[n]};
    }
  }
}
