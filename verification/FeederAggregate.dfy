/** The feeder's price quality policy: a median across sources, with deviating sources dropped first. */
module FeederAggregate {
  import opened Dec
  import opened Sums
  import opened Sorting
  import opened OracleAggregate

  datatype Quote = Price(value: Dec) | InsufficientSources | EmptySet

  // ----- what the median is

  /** `h` is the least price that more than half of the prices do not exceed. */
  ghost predicate IsUpperMedian(ps: seq<Dec>, h: Dec) {
    && h in ps
    && |ps| < 2 * CountUpTo(ps, h)
    && (forall i :: 0 <= i < |ps| && ps[i] < h ==> 2 * CountUpTo(ps, ps[i]) <= |ps|)
  }

  /** The midpoint of the lower and the upper median, which coincide for an odd number of prices. */
  ghost predicate IsMedian(ps: seq<Dec>, m: Dec) {
    exists lo, hi :: IsCountMedian(ps, lo) && IsUpperMedian(ps, hi) && m == QuoInt64(lo + hi, 2)
  }

  // ----- the code

  method SortedCopy(prices: seq<Dec>) returns (s: seq<Dec>)
    ensures SortedBy(s, PriceBefore) && multiset(s) == multiset(prices) && |s| == |prices|
  {
    var a := new Dec[|prices|](i requires 0 <= i < |prices| => prices[i]);
    assert a[..] == prices;
    Sort(a, PriceBefore);
    s := a[..];
  }

  /** Sorts a copy; takes the middle, or the truncated average of the two middles. */
  method Median(prices: seq<Dec>) returns (q: Quote)
    ensures prices == [] ==> q == EmptySet
    ensures prices != [] ==> q.Price? && IsMedian(prices, q.value)
  {
    var n := |prices|;
    if n == 0 {
      return EmptySet;
    }
    var sorted := SortedCopy(prices);
    MiddlesGiveMedian(sorted, prices);
    if n % 2 == 1 {
      return Price(sorted[n / 2]);
    }
    assert n / 2 - 1 == (n - 1) / 2;
    var lo, hi := sorted[n / 2 - 1], sorted[n / 2];
    return Price(QuoInt64(lo + hi, 2));
  }

  lemma MiddlesGiveMedian(s: seq<Dec>, ps: seq<Dec>)
    requires s != [] && SortedBy(s, PriceBefore) && multiset(s) == multiset(ps)
    ensures IsMedian(ps, QuoInt64(s[(|s| - 1) / 2] + s[|s| / 2], 2))
    ensures |s| % 2 == 1 ==> QuoInt64(s[(|s| - 1) / 2] + s[|s| / 2], 2) == s[|s| / 2]
  {
    MiddleIsCountMedian(s);
    MiddleIsUpperMedian(s);
    CountMedianPermutes(s, ps, s[(|s| - 1) / 2]);
    UpperMedianPermutes(s, ps, s[|s| / 2]);
    if |s| % 2 == 1 {
      assert (|s| - 1) / 2 == |s| / 2;
      MedianBetween(s[|s| / 2], s[|s| / 2]);
    }
  }

  /** The prices at most `band` away from `mid`, in order. */
  function Kept(ps: seq<Dec>, mid: Dec, band: Dec): seq<Dec> {
    if ps == [] then []
    else
      var p := ps[|ps| - 1];
      Kept(ps[..|ps| - 1], mid, band) + if Abs(p - mid) <= band then [p] else []
  }

  /** What survives of the prices around their own median; a median that is not positive drops nothing. */
  ghost predicate IsFiltered(ps: seq<Dec>, maxDeviation: Dec, out: seq<Dec>) {
    if ps == [] then out == ps
    else exists mid :: IsMedian(ps, mid) && out == if mid > 0 then Kept(ps, mid, Mul(mid, maxDeviation)) else ps
  }

  method DropDeviating(prices: seq<Dec>, maxDeviation: Dec) returns (out: seq<Dec>)
    ensures IsFiltered(prices, maxDeviation, out)
  {
    if |prices| == 0 {
      return prices;
    }
    var q := Median(prices);
    var mid := q.value;
    if mid <= 0 {
      return prices;
    }
    var band := Mul(mid, maxDeviation);
    out := [];
    for i := 0 to |prices|
      invariant out == Kept(prices[..i], mid, band)
    {
      assert prices[..i + 1][..i] == prices[..i];
      if Abs(prices[i] - mid) <= band {
        out := out + [prices[i]];
      }
    }
    assert prices[..|prices|] == prices;
  }

  /** Enough sources before and after dropping the deviating ones, then the median of the survivors. */
  ghost predicate IsCrossSource(ps: seq<Dec>, maxDeviation: Dec, minProviders: int, q: Quote) {
    if |ps| < minProviders then q == InsufficientSources
    else exists out :: IsFiltered(ps, maxDeviation, out) && IsVerdict(out, minProviders, q)
  }

  ghost predicate IsVerdict(out: seq<Dec>, minProviders: int, q: Quote) {
    if |out| < minProviders then q == InsufficientSources
    else if out == [] then q == EmptySet
    else q.Price? && IsMedian(out, q.value)
  }

  method CrossSourceMedian(prices: seq<Dec>, maxDeviation: Dec, minProviders: int) returns (q: Quote)
    ensures IsCrossSource(prices, maxDeviation, minProviders, q)
  {
    if |prices| < minProviders {
      return InsufficientSources;
    }
    var filtered := DropDeviating(prices, maxDeviation);
    if |filtered| < minProviders {
      return InsufficientSources;
    }
    q := Median(filtered);
  }

  // ----- facts about the upper median

  lemma MiddleIsUpperMedian(s: seq<Dec>)
    requires s != [] && SortedBy(s, PriceBefore)
    ensures IsUpperMedian(s, s[|s| / 2])
  {
    var k := |s| / 2;
    assert forall i, j :: 0 <= i < j < |s| ==> !PriceBefore(s[j], s[i]);
    CountFrom(s, k + 1, s[k]);
    forall i | 0 <= i < |s| && s[i] < s[k] ensures 2 * CountUpTo(s, s[i]) <= |s| {
      CountBefore(s, k, s[i]);
    }
  }

  lemma UpperMedianPermutes(s: seq<Dec>, t: seq<Dec>, h: Dec)
    requires multiset(s) == multiset(t) && IsUpperMedian(s, h)
    ensures IsUpperMedian(t, h)
  {
    assert |s| == |multiset(s)| && |t| == |multiset(t)|;
    SumSeqPermutation(s, t, AtMost(h));
    assert h in multiset(t);
    forall i | 0 <= i < |t| && t[i] < h ensures 2 * CountUpTo(t, t[i]) <= |t| {
      assert t[i] in multiset(s);
      SumSeqPermutation(s, t, AtMost(t[i]));
    }
  }

  /** The upper median lies at or below any bound that more than half of the prices respect. */
  lemma UpperMedianAtMost(ps: seq<Dec>, h: Dec, x: Dec)
    requires IsUpperMedian(ps, h) && |ps| < 2 * CountUpTo(ps, x)
    ensures h <= x
  {
    if x < h {
      if exists i :: 0 <= i < |ps| && ps[i] <= x {
        var i :| 0 <= i < |ps| && ps[i] <= x;
        var j := HighestUpTo(ps, x, i);
        SumSeqPointwise(ps, AtMost(x), AtMost(ps[j]));
      } else {
        CountBefore(ps, 0, x);
      }
    }
  }

  lemma MedianBetween(lo: Dec, hi: Dec)
    requires lo <= hi
    ensures lo <= QuoInt64(lo + hi, 2) <= hi
  {
  }

  /** A median never leaves the range of its prices. */
  lemma MedianInRange(ps: seq<Dec>, m: Dec, a: Dec, b: Dec)
    requires IsMedian(ps, m) && forall i :: 0 <= i < |ps| ==> a <= ps[i] <= b
    ensures a <= m <= b
  {
    var lo, hi :| IsCountMedian(ps, lo) && IsUpperMedian(ps, hi) && m == QuoInt64(lo + hi, 2);
    CountMedianAtMost(ps, lo, hi);
    MedianBetween(lo, hi);
  }

  /** If a strict majority of the prices lies in an interval, so does their median. */
  lemma MedianRobust(ps: seq<Dec>, m: Dec, a: Dec, b: Dec)
    requires IsMedian(ps, m) && 2 * SumSeq(ps, CountIn(a, b)) > |ps|
    ensures a <= m <= b
  {
    var lo, hi :| IsCountMedian(ps, lo) && IsUpperMedian(ps, hi) && m == QuoInt64(lo + hi, 2);
    CountMedianRobust(ps, lo, a, b);
    SumSeqPointwise(ps, CountIn(a, b), AtMost(b));
    UpperMedianAtMost(ps, hi, b);
    CountMedianAtMost(ps, lo, hi);
    MedianBetween(lo, hi);
  }

  lemma MedianUnique(ps: seq<Dec>, m: Dec, m': Dec)
    requires IsMedian(ps, m) && IsMedian(ps, m')
    ensures m == m'
  {
    var lo, hi :| IsCountMedian(ps, lo) && IsUpperMedian(ps, hi) && m == QuoInt64(lo + hi, 2);
    var lo', hi' :| IsCountMedian(ps, lo') && IsUpperMedian(ps, hi') && m' == QuoInt64(lo' + hi', 2);
    CountMedianAtMost(ps, lo, lo');
    CountMedianAtMost(ps, lo', lo);
    UpperMedianAtMost(ps, hi, hi');
    UpperMedianAtMost(ps, hi', hi);
  }

  /** Of a sorted list the median is the middle price or, of two middles, half their sum, cut off toward zero. */
  lemma MedianOfSorted(s: seq<Dec>, k: nat, m: Dec)
    requires SortedBy(s, PriceBefore) && (|s| == 2 * k + 1 || |s| == 2 * k + 2)
    ensures |s| == 2 * k + 1 ==> (IsMedian(s, m) <==> m == s[k])
    ensures |s| == 2 * k + 2 ==> (IsMedian(s, m) <==> IsHalf(s[k] + s[k + 1], m))
  {
    assert (|s| - 1) / 2 == k;
    if |s| == 2 * k + 1 {
      MedianOfMiddles(s, k, k, m);
      HalfExactly(s[k] + s[k], m);
    } else {
      MedianOfMiddles(s, k, k + 1, m);
      HalfExactly(s[k] + s[k + 1], m);
    }
  }

  lemma MedianOfMiddles(s: seq<Dec>, lo: nat, hi: nat, m: Dec)
    requires s != [] && SortedBy(s, PriceBefore) && lo == (|s| - 1) / 2 && hi == |s| / 2
    ensures IsMedian(s, m) <==> m == QuoInt64(s[lo] + s[hi], 2)
  {
    MiddlesGiveMedian(s, s);
    MedianIs(s, m, QuoInt64(s[lo] + s[hi], 2));
  }

  lemma MedianIs(ps: seq<Dec>, m: Dec, mid: Dec)
    requires IsMedian(ps, mid)
    ensures IsMedian(ps, m) <==> m == mid
  {
    if IsMedian(ps, m) {
      MedianUnique(ps, m, mid);
    }
  }

  ghost predicate IsHalf(sum: int, m: int) {
    if sum >= 0 then 0 <= sum - 2 * m <= 1 else -1 <= sum - 2 * m <= 0
  }

  lemma HalfExactly(sum: int, m: int)
    ensures QuoInt64(sum, 2) == m <==> IsHalf(sum, m)
  {
  }

  // ----- facts about what survives

  /** The price is no further from the middle than the deviation, a fraction of the middle rounded half to even. */
  ghost predicate Near(p: Dec, mid: Dec, maxDeviation: Dec) {
    var off := if p < mid then mid - p else p - mid;
    mid * maxDeviation >= off * ONE - ONE / 2 + off % 2
  }

  lemma NearExactly(p: Dec, mid: Dec, maxDeviation: Dec)
    requires mid > 0 && maxDeviation >= 0
    ensures Abs(p - mid) <= Mul(mid, maxDeviation) <==> Near(p, mid, maxDeviation)
  {
    MulMono(0, maxDeviation, mid);
    ChopReaches(mid * maxDeviation, Abs(p - mid));
  }

  lemma CountLast<T>(s: seq<T>, x: T, p: T)
    ensures multiset(s + [x])[p] == multiset(s)[p] + if x == p then 1 else 0
  {
  }

  lemma {:induction false} KeptExactly(ps: seq<Dec>, mid: Dec, band: Dec, p: Dec)
    ensures multiset(Kept(ps, mid, band))[p] == if Abs(p - mid) <= band then multiset(ps)[p] else 0
  {
    if ps != [] {
      var n := |ps| - 1;
      KeptExactly(ps[..n], mid, band, p);
      CountLast(ps[..n], ps[n], p);
      assert ps == ps[..n] + [ps[n]];
      if Abs(ps[n] - mid) <= band {
        CountLast(Kept(ps[..n], mid, band), ps[n], p);
      } else {
        assert Kept(ps, mid, band) == Kept(ps[..n], mid, band);
      }
    }
  }

  /** What survives around a given median. */
  lemma FilteredIs(ps: seq<Dec>, maxDeviation: Dec, out: seq<Dec>, mid: Dec)
    requires IsFiltered(ps, maxDeviation, out) && ps != [] && IsMedian(ps, mid)
    ensures out == if mid > 0 then Kept(ps, mid, Mul(mid, maxDeviation)) else ps
  {
    var mid' :| IsMedian(ps, mid') && out == if mid' > 0 then Kept(ps, mid', Mul(mid', maxDeviation)) else ps;
    MedianUnique(ps, mid, mid');
  }

  /** Around a positive middle exactly the near prices survive, each as often as it was quoted. */
  lemma SurvivesExactly(ps: seq<Dec>, maxDeviation: Dec, out: seq<Dec>, mid: Dec, p: Dec)
    requires IsFiltered(ps, maxDeviation, out) && ps != [] && IsMedian(ps, mid) && maxDeviation >= 0
    ensures multiset(out)[p] == if mid <= 0 || Near(p, mid, maxDeviation) then multiset(ps)[p] else 0
  {
    FilteredIs(ps, maxDeviation, out, mid);
    if mid > 0 {
      KeptExactly(ps, mid, Mul(mid, maxDeviation), p);
      NearExactly(p, mid, maxDeviation);
    }
  }

  lemma {:induction false} KeptCount(ps: seq<Dec>, mid: Dec, band: Dec)
    ensures |Kept(ps, mid, band)| == SumSeq(ps, CountIn(mid - band, mid + band))
  {
    if ps != [] {
      KeptCount(ps[..|ps| - 1], mid, band);
    }
  }

  /** How many prices survive around a given median. */
  ghost function Survivors(ps: seq<Dec>, mid: Dec, band: Dec): int {
    if mid > 0 then SumSeq(ps, CountIn(mid - band, mid + band)) else |ps|
  }

  lemma FilteredCount(ps: seq<Dec>, maxDeviation: Dec, out: seq<Dec>, mid: Dec)
    requires IsFiltered(ps, maxDeviation, out) && ps != [] && IsMedian(ps, mid)
    ensures |out| == Survivors(ps, mid, Mul(mid, maxDeviation))
  {
    FilteredIs(ps, maxDeviation, out, mid);
    KeptCount(ps, mid, Mul(mid, maxDeviation));
  }

  lemma SurvivorsAtMost(ps: seq<Dec>, mid: Dec, band: Dec)
    ensures Survivors(ps, mid, band) <= |ps|
  {
    KeptCount(ps, mid, band);
    KeptFacts(ps, mid, band);
  }

  /** The policy answers a price exactly when the prices within the deviation of a positive middle, or all prices around
      another one, are at least one and as many as required. */
  lemma AnswersExactly(ps: seq<Dec>, maxDeviation: Dec, minProviders: int, q: Quote, mid: Dec)
    requires IsCrossSource(ps, maxDeviation, minProviders, q) && ps != [] && IsMedian(ps, mid)
    ensures var near := Survivors(ps, mid, Mul(mid, maxDeviation));
            q.Price? <==> near >= 1 && near >= minProviders
  {
    SurvivorsAtMost(ps, mid, Mul(mid, maxDeviation));
    if |ps| >= minProviders {
      var out :| IsFiltered(ps, maxDeviation, out) && IsVerdict(out, minProviders, q);
      FilteredCount(ps, maxDeviation, out, mid);
    }
  }

  lemma {:induction false} KeptFacts(ps: seq<Dec>, mid: Dec, band: Dec)
    ensures forall i :: 0 <= i < |Kept(ps, mid, band)| ==> Abs(Kept(ps, mid, band)[i] - mid) <= band
    ensures |Kept(ps, mid, band)| <= |ps|
  {
    if ps != [] {
      KeptFacts(ps[..|ps| - 1], mid, band);
    }
  }

  /** Prices of an interval inside the band all survive. */
  lemma {:induction false} IntervalSurvives(ps: seq<Dec>, mid: Dec, band: Dec, a: Dec, b: Dec, i: nat)
    requires mid - band <= a && b <= mid + band && i < |ps| && a <= ps[i] <= b
    ensures ps[i] in Kept(ps, mid, band)
  {
    var n := |ps| - 1;
    if i < n {
      assert ps[i] == ps[..n][i];
      IntervalSurvives(ps[..n], mid, band, a, b, i);
    }
  }

  lemma {:induction false} IntervalCountKept(ps: seq<Dec>, mid: Dec, band: Dec, a: Dec, b: Dec)
    requires mid - band <= a && b <= mid + band
    ensures SumSeq(Kept(ps, mid, band), CountIn(a, b)) == SumSeq(ps, CountIn(a, b))
  {
    if ps != [] {
      var n := |ps| - 1;
      IntervalCountKept(ps[..n], mid, band, a, b);
      if Abs(ps[n] - mid) <= band {
        SumSeqAppend(Kept(ps[..n], mid, band), CountIn(a, b), ps[n]);
      } else {
        assert Kept(ps, mid, band) == Kept(ps[..n], mid, band);
      }
    }
  }

  // ----- the policy

  /** When the provisional median is positive, the result lies in the rounded deviation band around it. */
  lemma ResultInBand(ps: seq<Dec>, maxDeviation: Dec, minProviders: int, q: Quote, mid: Dec)
    requires IsCrossSource(ps, maxDeviation, minProviders, q) && q.Price?
    requires ps != [] && IsMedian(ps, mid) && mid > 0
    ensures Abs(q.value - mid) <= Mul(mid, maxDeviation)
  {
    var out :| IsFiltered(ps, maxDeviation, out) && IsVerdict(out, minProviders, q);
    FilteredIsKept(ps, maxDeviation, out, mid);
    MedianOfKept(ps, mid, Mul(mid, maxDeviation), q.value);
  }

  lemma FilteredIsKept(ps: seq<Dec>, maxDeviation: Dec, out: seq<Dec>, mid: Dec)
    requires IsFiltered(ps, maxDeviation, out) && ps != [] && IsMedian(ps, mid) && mid > 0
    ensures out == Kept(ps, mid, Mul(mid, maxDeviation))
  {
    FilteredIs(ps, maxDeviation, out, mid);
  }

  lemma MedianOfKept(ps: seq<Dec>, mid: Dec, band: Dec, m: Dec)
    requires IsMedian(Kept(ps, mid, band), m)
    ensures Abs(m - mid) <= band
  {
    var out := Kept(ps, mid, band);
    KeptFacts(ps, mid, band);
    forall i | 0 <= i < |out| ensures mid - band <= out[i] <= mid + band {
      assert Abs(out[i] - mid) <= band;
    }
    MedianInRange(out, m, mid - band, mid + band);
  }

  /** If a strict majority of the quotes lies in an interval no wider than the band at its lower end, none of them
      is dropped, and whatever price the policy returns lies in the interval. */
  lemma MajorityDecides(ps: seq<Dec>, maxDeviation: Dec, minProviders: int, q: Quote, lo: Dec, hi: Dec)
    requires IsCrossSource(ps, maxDeviation, minProviders, q)
    requires 0 < lo && 0 <= maxDeviation && hi - lo <= Mul(lo, maxDeviation)
    requires 2 * SumSeq(ps, CountIn(lo, hi)) > |ps|
    ensures forall out :: IsFiltered(ps, maxDeviation, out) ==>
              forall i :: 0 <= i < |ps| && lo <= ps[i] <= hi ==> ps[i] in out
    ensures q.Price? ==> lo <= q.value <= hi
  {
    forall out | IsFiltered(ps, maxDeviation, out)
      ensures forall i :: 0 <= i < |ps| && lo <= ps[i] <= hi ==> ps[i] in out
    {
      MajorityKept(ps, maxDeviation, out, lo, hi);
    }
    if q.Price? {
      var out :| IsFiltered(ps, maxDeviation, out) && IsVerdict(out, minProviders, q);
      MajorityKept(ps, maxDeviation, out, lo, hi);
      MedianRobust(out, q.value, lo, hi);
    }
  }

  lemma MajorityKept(ps: seq<Dec>, maxDeviation: Dec, out: seq<Dec>, lo: Dec, hi: Dec)
    requires IsFiltered(ps, maxDeviation, out)
    requires 0 < lo && 0 <= maxDeviation && hi - lo <= Mul(lo, maxDeviation)
    requires 2 * SumSeq(ps, CountIn(lo, hi)) > |ps|
    ensures 2 * SumSeq(out, CountIn(lo, hi)) > |out|
    ensures forall i :: 0 <= i < |ps| && lo <= ps[i] <= hi ==> ps[i] in out
  {
    assert ps != [];
    var mid :| IsMedian(ps, mid) && out == if mid > 0 then Kept(ps, mid, Mul(mid, maxDeviation)) else ps;
    MedianRobust(ps, mid, lo, hi);
    MulMonotone(lo, mid, maxDeviation);
    KeptMajority(ps, mid, Mul(mid, maxDeviation), lo, hi);
  }

  lemma KeptMajority(ps: seq<Dec>, mid: Dec, band: Dec, lo: Dec, hi: Dec)
    requires lo <= mid <= hi && hi - lo <= band && 2 * SumSeq(ps, CountIn(lo, hi)) > |ps|
    ensures 2 * SumSeq(Kept(ps, mid, band), CountIn(lo, hi)) > |Kept(ps, mid, band)|
    ensures forall i :: 0 <= i < |ps| && lo <= ps[i] <= hi ==> ps[i] in Kept(ps, mid, band)
  {
    KeptFacts(ps, mid, band);
    IntervalCountKept(ps, mid, band, lo, hi);
    forall i | 0 <= i < |ps| && lo <= ps[i] <= hi ensures ps[i] in Kept(ps, mid, band) {
      IntervalSurvives(ps, mid, band, lo, hi, i);
    }
  }
}
