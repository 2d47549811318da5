/** Price aggregation of x/oracle: the stake-weighted median that is published, the count
    median that outliers are measured against, and the quorum test. */
module OracleAggregate {
  import opened Bytes
  import opened Dec
  import opened Sums
  import opened Sorting

  /** One validator's price with its stake. */
  datatype WeightedPrice = WeightedPrice(price: Dec, weight: nat, valoper: Addr)

  // ----- what the medians are

  function Weight(e: WeightedPrice): int { e.weight }

  function UpTo(p: Dec): WeightedPrice -> int {
    (e: WeightedPrice) => if e.price <= p then e.weight else 0
  }

  function Under(p: Dec): WeightedPrice -> int {
    (e: WeightedPrice) => if e.price < p then e.weight else 0
  }

  function Within(lo: Dec, hi: Dec): WeightedPrice -> int {
    (e: WeightedPrice) => if lo <= e.price <= hi then e.weight else 0
  }

  ghost function TotalWeight(es: seq<WeightedPrice>): int { SumSeq(es, Weight) }

  /** Stake of the submissions at or below `p`. */
  ghost function WeightUpTo(es: seq<WeightedPrice>, p: Dec): int { SumSeq(es, UpTo(p)) }

  /** Stake of the submissions strictly below `p`. */
  ghost function WeightUnder(es: seq<WeightedPrice>, p: Dec): int { SumSeq(es, Under(p)) }

  ghost function WeightWithin(es: seq<WeightedPrice>, lo: Dec, hi: Dec): int { SumSeq(es, Within(lo, hi)) }

  ghost predicate Submitted(es: seq<WeightedPrice>, p: Dec) {
    exists i :: 0 <= i < |es| && es[i].price == p
  }

  /** `p` is the least submitted price whose at-or-below stake reaches half the total, rounded down. */
  ghost predicate IsStakeMedian(es: seq<WeightedPrice>, p: Dec) {
    && Submitted(es, p)
    && TotalWeight(es) / 2 <= WeightUpTo(es, p)
    && (forall i :: 0 <= i < |es| && es[i].price < p ==> WeightUpTo(es, es[i].price) < TotalWeight(es) / 2)
  }

  function AtMost(p: Dec): Dec -> int {
    (q: Dec) => if q <= p then 1 else 0
  }

  ghost function CountUpTo(ps: seq<Dec>, p: Dec): int { SumSeq(ps, AtMost(p)) }

  /** `p` is the least price that at least half of the prices do not exceed. */
  ghost predicate IsCountMedian(ps: seq<Dec>, p: Dec) {
    && p in ps
    && |ps| <= 2 * CountUpTo(ps, p)
    && (forall i :: 0 <= i < |ps| && ps[i] < p ==> 2 * CountUpTo(ps, ps[i]) < |ps|)
  }

  // ----- the code

  predicate EntryBefore(a: WeightedPrice, b: WeightedPrice) {
    if a.price == b.price then Less(a.valoper, b.valoper) else a.price < b.price
  }

  predicate PriceBefore(a: Dec, b: Dec) { a < b }

  lemma EntryOrder()
    ensures StrictWeakOrder(EntryBefore)
  {
    forall x, y | EntryBefore(x, y) ensures !EntryBefore(y, x) {
      if EntryBefore(y, x) {
        LessTransitive(x.valoper, y.valoper, x.valoper);
        LessIrreflexive(x.valoper);
      }
    }
    forall x, y, z | EntryBefore(x, y) && !EntryBefore(z, y) ensures EntryBefore(x, z) {
      if x.price == y.price == z.price && y.valoper != z.valoper {
        LessTotal(z.valoper, y.valoper);
        LessTransitive(x.valoper, y.valoper, z.valoper);
      }
    }
  }

  /** Sorts the entries in place, then walks up the accumulated stake. */
  method WeightedMedian(entries: array<WeightedPrice>) returns (median: Dec)
    modifies entries
    ensures multiset(entries[..]) == multiset(old(entries[..]))
    ensures entries.Length == 0 ==> median == 0
    ensures entries.Length > 0 ==> IsStakeMedian(old(entries[..]), median)
  {
    EntryOrder();
    Sort(entries, EntryBefore);
    ghost var s := entries[..];
    var total := 0;
    for i := 0 to entries.Length
      invariant total == SumSeq(s[..i], Weight)
      invariant entries[..] == s && multiset(s) == multiset(old(entries[..]))
    {
      SumSeqAppend(s[..i], Weight, s[i]);
      assert s[..i + 1] == s[..i] + [s[i]];
      total := total + entries[i].weight;
    }
    assert s[..|s|] == s;
    var half := total / 2;
    var cum := 0;
    for i := 0 to entries.Length
      invariant cum == SumSeq(s[..i], Weight)
      invariant i > 0 ==> cum < half
      invariant entries[..] == s && multiset(s) == multiset(old(entries[..]))
    {
      SumSeqAppend(s[..i], Weight, s[i]);
      assert s[..i + 1] == s[..i] + [s[i]];
      cum := cum + entries[i].weight;
      if cum >= half {
        ScanFindsMedian(s, i);
        StakeMedianPermutes(s, old(entries[..]), s[i].price);
        return entries[i].price;
      }
    }
    SumSeqNonNegative(s, Weight);
    return 0;
  }

  /** Sorts the prices in place and takes the lower middle one. */
  method UnweightedMedian(prices: array<Dec>) returns (median: Dec)
    modifies prices
    ensures multiset(prices[..]) == multiset(old(prices[..]))
    ensures prices.Length == 0 ==> median == 0
    ensures prices.Length > 0 ==> IsCountMedian(old(prices[..]), median)
  {
    Sort(prices, PriceBefore);
    var n := prices.Length;
    if n == 0 {
      return 0;
    }
    MiddleIsCountMedian(prices[..]);
    CountMedianPermutes(prices[..], old(prices[..]), prices[(n - 1) / 2]);
    return prices[(n - 1) / 2];
  }

  predicate QuorumMet(submittedPower: int, totalPower: nat, quorumFraction: Dec) {
    totalPower != 0 && Quo(FromInt(submittedPower), FromInt(totalPower)) >= quorumFraction
  }

  // ----- the scan finds the median

  ghost predicate PriceSorted(s: seq<WeightedPrice>) {
    forall i, j :: 0 <= i < j < |s| ==> s[i].price <= s[j].price
  }

  /** The first position of a price-sorted list whose running stake reaches half is the median. */
  lemma ScanFindsMedian(s: seq<WeightedPrice>, i: nat)
    requires i < |s| && SortedBy(s, EntryBefore)
    requires SumSeq(s[..i + 1], Weight) >= TotalWeight(s) / 2
    requires i > 0 ==> SumSeq(s[..i], Weight) < TotalWeight(s) / 2
    ensures IsStakeMedian(s, s[i].price)
  {
    assert PriceSorted(s) by {
      forall i, j | 0 <= i < j < |s| ensures s[i].price <= s[j].price {
        assert !EntryBefore(s[j], s[i]);
      }
    }
    PrefixReaches(s, i);
    forall j | 0 <= j < |s| && s[j].price < s[i].price
      ensures WeightUpTo(s, s[j].price) < TotalWeight(s) / 2
    {
      PrefixBounds(s, i, s[j].price);
    }
  }

  lemma PrefixReaches(s: seq<WeightedPrice>, i: nat)
    requires i < |s| && PriceSorted(s)
    ensures WeightUpTo(s, s[i].price) >= SumSeq(s[..i + 1], Weight)
  {
    var p := s[i].price;
    assert s == s[..i + 1] + s[i + 1..];
    SumSeqConcat(s[..i + 1], s[i + 1..], UpTo(p));
    SumSeqPointwise(s[..i + 1], Weight, UpTo(p));
    SumSeqNonNegative(s[i + 1..], UpTo(p));
  }

  lemma PrefixBounds(s: seq<WeightedPrice>, i: nat, q: Dec)
    requires i < |s| && PriceSorted(s) && q < s[i].price
    ensures WeightUpTo(s, q) <= SumSeq(s[..i], Weight)
  {
    assert s == s[..i] + s[i..];
    SumSeqConcat(s[..i], s[i..], UpTo(q));
    SumSeqPointwise(s[..i], UpTo(q), Weight);
    SumSeqPointwise(s[i..], UpTo(q), Zero);
    ZeroSum(s[i..]);
  }

  function Zero(e: WeightedPrice): int { 0 }

  lemma {:induction false} ZeroSum(s: seq<WeightedPrice>)
    ensures SumSeq(s, Zero) == 0
  {
    if s != [] {
      ZeroSum(s[..|s| - 1]);
    }
  }

  lemma MiddleIsCountMedian(s: seq<Dec>)
    requires s != [] && SortedBy(s, PriceBefore)
    ensures IsCountMedian(s, s[(|s| - 1) / 2])
  {
    var k := (|s| - 1) / 2;
    assert forall i, j :: 0 <= i < j < |s| ==> !PriceBefore(s[j], s[i]);
    CountFrom(s, k + 1, s[k]);
    forall i | 0 <= i < |s| && s[i] < s[k] ensures 2 * CountUpTo(s, s[i]) < |s| {
      CountBefore(s, k, s[i]);
    }
  }

  lemma {:induction false} CountFrom(s: seq<Dec>, n: nat, p: Dec)
    requires n <= |s| && forall i :: 0 <= i < n ==> s[i] <= p
    ensures CountUpTo(s, p) >= n
  {
    if n == 0 {
      SumSeqNonNegative(s, AtMost(p));
    } else if n < |s| {
      CountFrom(s[..|s| - 1], n, p);
    } else {
      CountFrom(s[..|s| - 1], n - 1, p);
    }
  }

  lemma {:induction false} CountBefore(s: seq<Dec>, n: nat, p: Dec)
    requires n <= |s| && forall i :: n <= i < |s| ==> s[i] > p
    ensures CountUpTo(s, p) <= n
  {
    if s != [] {
      CountBefore(s[..|s| - 1], if n < |s| then n else n - 1, p);
    }
  }

  // ----- properties of the published median

  function PricesOf(es: seq<WeightedPrice>): (ps: seq<Dec>)
    ensures |ps| == |es| && forall i :: 0 <= i < |es| ==> ps[i] == es[i].price
  {
    seq(|es|, i requires 0 <= i < |es| => es[i].price)
  }

  /** Summing over the prices is summing over the submissions. */
  lemma {:induction false} SumOverPrices(es: seq<WeightedPrice>, f: Dec -> int, g: WeightedPrice -> int)
    requires forall i :: 0 <= i < |es| ==> g(es[i]) == f(es[i].price)
    ensures SumSeq(PricesOf(es), f) == SumSeq(es, g)
  {
    if es != [] {
      var n := |es| - 1;
      SumOverPrices(es[..n], f, g);
      assert PricesOf(es)[..n] == PricesOf(es[..n]);
    }
  }

  /** The median lies at or below `h` exactly when somebody is there and their stake reaches half. */
  lemma StakeMedianAtMost(es: seq<WeightedPrice>, m: Dec, h: Dec)
    requires IsStakeMedian(es, m)
    ensures m <= h <==> (exists i :: 0 <= i < |es| && es[i].price <= h) && WeightUpTo(es, h) >= TotalWeight(es) / 2
  {
    if m <= h {
      SumSeqPointwise(es, UpTo(m), UpTo(h));
    } else if (exists i :: 0 <= i < |es| && es[i].price <= h) && WeightUpTo(es, h) >= TotalWeight(es) / 2 {
      var i :| 0 <= i < |es| && es[i].price <= h;
      var j := HighestUpTo(PricesOf(es), h, i);
      SumSeqPointwise(es, UpTo(h), UpTo(es[j].price));
    }
  }

  /** Among the prices at or below `h` there is a highest one. */
  lemma HighestUpTo(ps: seq<Dec>, h: Dec, i: nat) returns (j: nat)
    requires i < |ps| && ps[i] <= h
    ensures j < |ps| && ps[j] <= h
    ensures forall k :: 0 <= k < |ps| && ps[k] <= h ==> ps[k] <= ps[j]
  {
    j := i;
    for n := 0 to |ps|
      invariant j < |ps| && ps[j] <= h
      invariant forall k :: 0 <= k < n && ps[k] <= h ==> ps[k] <= ps[j]
    {
      if ps[j] < ps[n] <= h {
        j := n;
      }
    }
  }

  lemma StakeMedianUnique(es: seq<WeightedPrice>, m: Dec, m': Dec)
    requires IsStakeMedian(es, m) && IsStakeMedian(es, m')
    ensures m == m'
  {
  }

  /** The order in which submissions are read does not matter. */
  lemma StakeMedianPermutes(s: seq<WeightedPrice>, t: seq<WeightedPrice>, m: Dec)
    requires multiset(s) == multiset(t) && IsStakeMedian(s, m)
    ensures IsStakeMedian(t, m)
  {
    SumSeqPermutation(s, t, Weight);
    SumSeqPermutation(s, t, UpTo(m));
    assert Submitted(t, m) by {
      var i :| 0 <= i < |s| && s[i].price == m;
      assert s[i] in multiset(t);
    }
    forall i | 0 <= i < |t| && t[i].price < m
      ensures WeightUpTo(t, t[i].price) < TotalWeight(t) / 2
    {
      assert t[i] in multiset(s);
      SumSeqPermutation(s, t, UpTo(t[i].price));
    }
  }

  lemma CountMedianPermutes(s: seq<Dec>, t: seq<Dec>, m: Dec)
    requires multiset(s) == multiset(t) && IsCountMedian(s, m)
    ensures IsCountMedian(t, m)
  {
    assert |s| == |multiset(s)| && |t| == |multiset(t)|;
    SumSeqPermutation(s, t, AtMost(m));
    assert m in multiset(t);
    forall i | 0 <= i < |t| && t[i] < m ensures 2 * CountUpTo(t, t[i]) < |t| {
      assert t[i] in multiset(s);
      SumSeqPermutation(s, t, AtMost(t[i]));
    }
  }

  /** Less than half the stake is strictly below the median, and at most the larger half above it. */
  lemma StakeMedianSplits(es: seq<WeightedPrice>, m: Dec)
    requires IsStakeMedian(es, m)
    ensures TotalWeight(es) >= 2 ==> WeightUnder(es, m) < TotalWeight(es) / 2
    ensures TotalWeight(es) - WeightUpTo(es, m) <= TotalWeight(es) - TotalWeight(es) / 2
    ensures 2 * WeightUnder(es, m) <= TotalWeight(es)
  {
    if exists i :: 0 <= i < |es| && es[i].price < m {
      var i :| 0 <= i < |es| && es[i].price < m;
      var j := HighestUpTo(PricesOf(es), m - 1, i);
      SumSeqPointwise(es, Under(m), UpTo(es[j].price));
    } else {
      SumSeqPointwise(es, Under(m), Zero);
      ZeroSum(es);
      SumSeqNonNegative(es, Weight);
    }
  }

  /** A strict stake majority inside an interval keeps the median inside it. */
  lemma StakeMedianRobust(es: seq<WeightedPrice>, m: Dec, lo: Dec, hi: Dec)
    requires IsStakeMedian(es, m)
    requires WeightWithin(es, lo, hi) > TotalWeight(es) - TotalWeight(es) / 2
    ensures lo <= m <= hi
  {
    if m < lo {
      SumOfTwo(es, UpTo(m), Within(lo, hi));
    }
    if m > hi {
      SumSeqPointwise(es, Within(lo, hi), Under(m));
      StakeMedianSplits(es, m);
      SumSeqNonNegative(es, Weight);
    }
  }

  lemma {:induction false} SumOfTwo(es: seq<WeightedPrice>, f: WeightedPrice -> int, g: WeightedPrice -> int)
    requires forall i :: 0 <= i < |es| ==> f(es[i]) + g(es[i]) <= es[i].weight
    ensures SumSeq(es, f) + SumSeq(es, g) <= TotalWeight(es)
  {
    if es != [] {
      SumOfTwo(es[..|es| - 1], f, g);
    }
  }

  /** Raising one submitted price never lowers the median. */
  lemma StakeMedianMonotone(es: seq<WeightedPrice>, k: nat, price: Dec, m: Dec, m': Dec)
    requires k < |es| && price >= es[k].price
    requires IsStakeMedian(es, m) && IsStakeMedian(es[k := es[k].(price := price)], m')
    ensures m <= m'
  {
    var es' := es[k := es[k].(price := price)];
    RaisedSum(es, es', k, Weight);
    RaisedSum(es, es', k, UpTo(m'));
    var i :| 0 <= i < |es'| && es'[i].price == m';
    assert es[i].price <= m';
    StakeMedianAtMost(es, m, m');
  }

  lemma RaisedSum(es: seq<WeightedPrice>, es': seq<WeightedPrice>, k: nat, f: WeightedPrice -> int)
    requires k < |es| == |es'| && es' == es[k := es'[k]]
    ensures SumSeq(es', f) == SumSeq(es, f) - f(es[k]) + f(es'[k])
  {
  }

  /** A median in the textbook sense leaves at most half the stake strictly on either side. */
  ghost predicate IsTextbookMedian(es: seq<WeightedPrice>, m: Dec) {
    && 2 * WeightUnder(es, m) <= TotalWeight(es)
    && 2 * (TotalWeight(es) - WeightUpTo(es, m)) <= TotalWeight(es)
  }

  /** The stake is odd and some price cuts it exactly at the rounded-down half. */
  ghost predicate OddCut(es: seq<WeightedPrice>) {
    TotalWeight(es) % 2 == 1
    && exists i :: 0 <= i < |es| && WeightUpTo(es, es[i].price) == TotalWeight(es) / 2
  }

  /** The published price is a textbook median exactly when no price makes an odd cut. */
  lemma TextbookExactlyWithoutOddCut(es: seq<WeightedPrice>, m: Dec)
    requires IsStakeMedian(es, m)
    ensures IsTextbookMedian(es, m) <==> !OddCut(es)
  {
    StakeMedianSplits(es, m);
    var k :| 0 <= k < |es| && es[k].price == m;
    if OddCut(es) {
      var i :| 0 <= i < |es| && WeightUpTo(es, es[i].price) == TotalWeight(es) / 2;
      StakeMedianAtMost(es, m, es[i].price);
      SumSeqPointwise(es, UpTo(m), UpTo(es[i].price));
    }
  }

  /** Three equal stakes at three prices: the lowest is published and it is no textbook median. */
  lemma ThreeEqualStakes(a: Addr, b: Addr, c: Addr, p: Dec, q: Dec, r: Dec)
    requires p < q < r
    ensures var es := [WeightedPrice(p, 1, a), WeightedPrice(q, 1, b), WeightedPrice(r, 1, c)];
            IsStakeMedian(es, p) && !IsTextbookMedian(es, p)
  {
    var x, y, z := WeightedPrice(p, 1, a), WeightedPrice(q, 1, b), WeightedPrice(r, 1, c);
    var es := [x, y, z];
    SumOfThree(x, y, z, Weight);
    SumOfThree(x, y, z, UpTo(p));
    assert es[0].price == p;
  }

  lemma SumOfThree<T>(x: T, y: T, z: T, f: T -> int)
    ensures SumSeq([x, y, z], f) == f(x) + f(y) + f(z)
  {
    assert [x, y, z] == [] + [x] + [y] + [z];
    SumSeqAppend([] + [x] + [y], f, z);
    SumSeqAppend([] + [x], f, y);
    SumSeqAppend([], f, x);
  }

  // ----- properties of the count median

  /** The count median lies at or below `h` exactly when at least half of the prices do. */
  lemma CountMedianAtMost(ps: seq<Dec>, m: Dec, h: Dec)
    requires IsCountMedian(ps, m)
    ensures m <= h <==> |ps| <= 2 * CountUpTo(ps, h)
  {
    if m <= h {
      SumSeqPointwise(ps, AtMost(m), AtMost(h));
    } else if exists i :: 0 <= i < |ps| && ps[i] <= h {
      var i :| 0 <= i < |ps| && ps[i] <= h;
      var j := HighestUpTo(ps, h, i);
      SumSeqPointwise(ps, AtMost(h), AtMost(ps[j]));
    } else {
      CountBefore(ps, 0, h);
    }
  }

  /** A strict majority of the prices inside an interval keeps the count median inside it. */
  lemma CountMedianRobust(ps: seq<Dec>, m: Dec, lo: Dec, hi: Dec)
    requires IsCountMedian(ps, m)
    requires 2 * SumSeq(ps, CountIn(lo, hi)) > |ps|
    ensures lo <= m <= hi
  {
    CountMedianAtMost(ps, m, hi);
    SumSeqPointwise(ps, CountIn(lo, hi), AtMost(hi));
    CountMedianAtMost(ps, m, lo - 1);
    CountsApart(ps, lo, hi);
  }

  function CountIn(lo: Dec, hi: Dec): Dec -> int {
    (q: Dec) => if lo <= q <= hi then 1 else 0
  }

  lemma {:induction false} CountsApart(ps: seq<Dec>, lo: Dec, hi: Dec)
    ensures SumSeq(ps, CountIn(lo, hi)) + CountUpTo(ps, lo - 1) <= |ps|
  {
    if ps != [] {
      CountsApart(ps[..|ps| - 1], lo, hi);
    }
  }

  // ----- the quorum

  /** The power share the rounded quorum test really asks for: half a unit of the last digit less than the
      configured fraction, that half unit itself only if the fraction's last digit is even. */
  lemma QuorumExactly(submitted: nat, total: nat, fraction: Dec)
    requires total > 0 && fraction > 0
    ensures QuorumMet(submitted, total, fraction)
            <==> submitted * ONE * ONE >= (fraction * ONE - ONE / 2 + fraction % 2) * total
  {
    QuoReaches(FromInt(submitted), FromInt(total), fraction);
    var k := fraction * ONE - ONE / 2 + fraction % 2;
    FromIntScales(k, total);
  }

  /** A share at or above the fraction always passes. */
  lemma QuorumNeverRefusesShare(submitted: nat, total: nat, fraction: Dec)
    requires total > 0 && submitted * ONE >= fraction * total
    ensures QuorumMet(submitted, total, fraction)
  {
    FromIntScales(fraction, total);
    QuoAtLeast(FromInt(submitted), FromInt(total), fraction);
  }

  /** Two thirds of the power passes a fraction just above two thirds. */
  lemma QuorumCanRoundUp()
    ensures var fraction := 666_666_666_666_666_667;
            2 * ONE < fraction * 3 && QuorumMet(2, 3, fraction)
  {
    QuorumExactly(2, 3, 666_666_666_666_666_667);
  }
}
