/** Time-weighted prices: which samples a query uses, the area under the step curve they draw,
    and how the result relates to the prices it averages. */
module OracleTwap {
  import opened Dec
  import opened OracleKeys
  import opened OracleState

  datatype TwapEntry = TwapEntry(pair: Pair, price: Dec, time: Time)

  datatype Quote = Price(value: Dec) | PairNotAccepted | NoData | Stale

  // ----- the samples of a query

  /** The samples a query at `now` uses: those after `start`, and the newest one at or before it. */
  ghost predicate Contributes(twap: map<SampleId, Dec>, pair: Pair, now: int, start: int, t: Time) {
    && SampleId(pair, t) in twap && t <= now
    && (t > start || forall u: Time :: SampleId(pair, u) in twap && t < u <= now ==> u > start)
  }

  ghost predicate TimesAscend(es: seq<TwapEntry>) {
    forall i, j :: 0 <= i < j < |es| ==> es[i].time < es[j].time
  }

  ghost predicate HasTime(es: seq<TwapEntry>, t: Time) {
    exists i :: 0 <= i < |es| && es[i].time == t
  }

  ghost predicate IsSample(e: TwapEntry, twap: map<SampleId, Dec>, pair: Pair) {
    SampleId(pair, e.time) in twap && e.pair == pair && e.price == twap[SampleId(pair, e.time)]
  }

  /** `es` lists exactly the contributing samples, oldest first. */
  ghost predicate IsWindow(es: seq<TwapEntry>, twap: map<SampleId, Dec>, pair: Pair, now: int, start: int) {
    && TimesAscend(es)
    && (forall i :: 0 <= i < |es| ==> IsSample(es[i], twap, pair))
    && (forall t: Time :: HasTime(es, t) <==> Contributes(twap, pair, now, start, t))
  }

  // ----- the average

  /** Area under the step curve that holds each sampled price until the next sample, up to `end`. */
  function Area(es: seq<TwapEntry>, end: int): int {
    if es == [] then 0
    else
      var e := es[|es| - 1];
      Area(es[..|es| - 1], e.time) + e.price * (end - e.time)
  }

  ghost predicate EndsBy(es: seq<TwapEntry>, now: int) {
    TimesAscend(es) && forall i :: 0 <= i < |es| ==> es[i].time <= now
  }

  /** The answer for a list of samples: the newest must be fresh, one sample is quoted as it is. */
  ghost function QuoteOf(es: seq<TwapEntry>, now: int, maxAge: int): Quote
    requires EndsBy(es, now)
  {
    if es == [] then NoData
    else if now - es[|es| - 1].time > maxAge then Stale
    else if |es| == 1 then Price(es[0].price)
    else
      assert es[0].time < es[|es| - 1].time;
      Price(Quo(Area(es, now), FromInt(now - es[0].time)))
  }

  ghost predicate IsTwap(s: State, pair: Pair, now: int, window: int, q: Quote) {
    if pair !in s.params.acceptList then q == PairNotAccepted
    else exists es :: IsWindow(es, s.twap, pair, now, now - window) && EndsBy(es, now)
                   && q == QuoteOf(es, now, s.params.MaxAge())
  }

  // ----- the curve, instant by instant

  /** The sample is the newest one at instant `u`. */
  ghost predicate InForce(twap: map<SampleId, Dec>, pair: Pair, u: int, t: Time) {
    && SampleId(pair, t) in twap && t <= u
    && forall v: Time :: SampleId(pair, v) in twap && v <= u ==> v <= t
  }

  /** A sample is used by a query exactly when it is in force at some instant of the window. */
  lemma ContributesExactly(twap: map<SampleId, Dec>, pair: Pair, now: int, start: int, t: Time)
    requires start <= now
    ensures Contributes(twap, pair, now, start, t) <==> exists u :: start <= u <= now && InForce(twap, pair, u, t)
  {
    if Contributes(twap, pair, now, start, t) {
      assert InForce(twap, pair, if t > start then t else start, t);
    }
  }

  /** The price the list quotes at instant `u`: that of its newest sample then. */
  function PriceAt(es: seq<TwapEntry>, u: int): Dec {
    if es == [] then 0
    else if es[|es| - 1].time <= u then es[|es| - 1].price
    else PriceAt(es[..|es| - 1], u)
  }

  lemma {:induction false} NewestAt(es: seq<TwapEntry>, u: int) returns (i: nat)
    requires TimesAscend(es) && es != [] && es[0].time <= u
    ensures i < |es| && es[i].time <= u && PriceAt(es, u) == es[i].price
    ensures forall j :: i < j < |es| ==> es[j].time > u
  {
    var n := |es| - 1;
    if es[n].time <= u {
      i := n;
    } else {
      i := NewestAt(es[..n], u);
      assert forall j :: i < j < n ==> es[j] == es[..n][j];
    }
  }

  /** What a window quotes at an instant is the price of the pair's newest stored sample then. */
  lemma QuotesInForce(es: seq<TwapEntry>, twap: map<SampleId, Dec>, pair: Pair, now: int, start: int, u: int)
    requires IsWindow(es, twap, pair, now, start) && es != [] && es[0].time <= u <= now
    ensures exists t: Time :: InForce(twap, pair, u, t) && PriceAt(es, u) == twap[SampleId(pair, t)]
  {
    var i := NewestAt(es, u);
    assert IsSample(es[i], twap, pair);
    assert HasTime(es, es[i].time);
    forall v: Time | SampleId(pair, v) in twap && v <= u ensures v <= es[i].time {
      if v > start {
        assert Contributes(twap, pair, now, start, v);
        assert HasTime(es, v);
      }
    }
    assert InForce(twap, pair, u, es[i].time);
  }

  /** Summing the price over every nanosecond from `lo` on, up to but not including `hi`. */
  function PriceOver(es: seq<TwapEntry>, lo: int, hi: int): int
    decreases hi - lo
  {
    if hi <= lo then 0 else PriceOver(es, lo, hi - 1) + PriceAt(es, hi - 1)
  }

  lemma {:induction false} PriceOverFlat(es: seq<TwapEntry>, lo: int, hi: int)
    requires es != [] && es[|es| - 1].time <= lo <= hi
    ensures PriceOver(es, lo, hi) == es[|es| - 1].price * (hi - lo)
    decreases hi - lo
  {
    if lo < hi {
      PriceOverFlat(es, lo, hi - 1);
      Distributes(es[|es| - 1].price, hi - 1 - lo, 1);
    }
  }

  lemma {:induction false} PriceOverSplits(es: seq<TwapEntry>, lo: int, mid: int, hi: int)
    requires lo <= mid <= hi
    ensures PriceOver(es, lo, hi) == PriceOver(es, lo, mid) + PriceOver(es, mid, hi)
    decreases hi - mid
  {
    if mid < hi {
      PriceOverSplits(es, lo, mid, hi - 1);
    }
  }

  lemma {:induction false} PriceOverEarlier(es: seq<TwapEntry>, lo: int, hi: int)
    requires es != [] && hi <= es[|es| - 1].time
    ensures PriceOver(es, lo, hi) == PriceOver(es[..|es| - 1], lo, hi)
    decreases hi - lo
  {
    if lo < hi {
      PriceOverEarlier(es, lo, hi - 1);
    }
  }

  /** The area is the price in force summed over every nanosecond from the first sample on. */
  lemma {:induction false} AreaIsPriceOver(es: seq<TwapEntry>, end: int)
    requires es != [] && EndsBy(es, end)
    ensures Area(es, end) == PriceOver(es, es[0].time, end)
  {
    var n := |es| - 1;
    var t := es[n].time;
    PriceOverFlat(es, t, end);
    if n > 0 {
      AreaIsPriceOver(es[..n], t);
      PriceOverEarlier(es, es[0].time, t);
      PriceOverSplits(es, es[0].time, t, end);
    } else {
      assert Area(es[..0], t) == 0;
    }
  }

  /** The area splits at any sample, and a single sample's is its price times the time since. */
  lemma {:induction false} AreaSplits(es: seq<TwapEntry>, k: nat, end: int)
    requires 0 < k < |es|
    ensures Area(es, end) == Area(es[..k], es[k].time) + Area(es[k..], end)
    ensures Area(es[..1], end) == es[0].price * (end - es[0].time)
  {
    var n := |es| - 1;
    assert es[..1][..0] == [];
    assert Area([], es[0].time) == 0;
    if k < n {
      AreaSplits(es[..n], k, es[n].time);
      assert es[..n][..k] == es[..k];
      assert es[k..][..n - k] == es[..n][k..];
    } else {
      assert es[k..] == [es[n]];
      assert [es[n]][..0] == [];
      assert Area([], es[n].time) == 0;
    }
  }

  // ----- properties of the average

  lemma ScaleBounds(x: int, lo: int, hi: int, d: int)
    requires lo <= x <= hi && 0 <= d
    ensures lo * d <= x * d <= hi * d
  {
    MulMono(lo, x, d);
    MulMono(x, hi, d);
  }

  /** The area lies between that of the lowest and that of the highest price. */
  lemma {:induction false} AreaBounds(es: seq<TwapEntry>, end: int, lo: int, hi: int)
    requires es != [] && EndsBy(es, end)
    requires forall i :: 0 <= i < |es| ==> lo <= es[i].price <= hi
    ensures lo * (end - es[0].time) <= Area(es, end) <= hi * (end - es[0].time)
  {
    var n := |es| - 1;
    var e := es[n];
    ScaleBounds(e.price, lo, hi, end - e.time);
    if n > 0 {
      AreaBounds(es[..n], e.time, lo, hi);
      Distributes(lo, e.time - es[0].time, end - e.time);
      Distributes(hi, e.time - es[0].time, end - e.time);
    }
  }

  /** An average never leaves the range of the prices it averages, roundings included. */
  lemma AverageInRange(es: seq<TwapEntry>, now: int, maxAge: int, lo: int, hi: int)
    requires EndsBy(es, now) && QuoteOf(es, now, maxAge).Price?
    requires 0 <= lo && forall i :: 0 <= i < |es| ==> lo <= es[i].price <= hi
    ensures lo <= QuoteOf(es, now, maxAge).value <= hi
  {
    if |es| > 1 {
      var a, d := Area(es, now), now - es[0].time;
      assert es[0].time < es[|es| - 1].time;
      AreaBounds(es, now, lo, hi);
      QuoInRange(a, d, lo, hi);
    }
  }

  lemma WindowInRange(w: seq<TwapEntry>, twap: map<SampleId, Dec>, pair: Pair, now: int, start: int, lo: int, hi: int)
    requires IsWindow(w, twap, pair, now, start)
    requires forall t: Time :: Contributes(twap, pair, now, start, t) ==> lo <= twap[SampleId(pair, t)] <= hi
    ensures forall i :: 0 <= i < |w| ==> lo <= w[i].price <= hi
  {
    forall i | 0 <= i < |w| ensures lo <= w[i].price <= hi {
      assert HasTime(w, w[i].time) && IsSample(w[i], twap, pair);
    }
  }

  /** Every quote lies between the lowest and the highest price that contributes to it. */
  lemma QuoteInRange(s: State, pair: Pair, now: int, window: int, q: Quote, lo: int, hi: int)
    requires IsTwap(s, pair, now, window, q) && q.Price? && 0 <= lo
    requires forall t: Time :: Contributes(s.twap, pair, now, now - window, t) ==> lo <= s.twap[SampleId(pair, t)] <= hi
    ensures lo <= q.value <= hi
  {
    var w: seq<TwapEntry> :| IsWindow(w, s.twap, pair, now, now - window) && EndsBy(w, now)
                          && q == QuoteOf(w, now, s.params.MaxAge());
    WindowInRange(w, s.twap, pair, now, now - window, lo, hi);
    AverageInRange(w, now, s.params.MaxAge(), lo, hi);
  }

  /** The quoted average is the price in force averaged over every nanosecond since the first sample, to within half a
      unit of the last digit, plus 10^-18 of one. */
  lemma AverageIsRounded(es: seq<TwapEntry>, now: int, maxAge: int)
    requires EndsBy(es, now) && |es| > 1 && QuoteOf(es, now, maxAge).Price?
    requires forall i :: 0 <= i < |es| ==> 0 <= es[i].price
    ensures var d := now - es[0].time;
            d > 0 && 2 * ONE * Abs(QuoteOf(es, now, maxAge).value * d - PriceOver(es, es[0].time, now)) <= (ONE + 2) * d
  {
    var a, d := Area(es, now), now - es[0].time;
    assert es[0].time < es[|es| - 1].time;
    AreaNonNegative(es, now);
    AreaIsPriceOver(es, now);
    QuoByInt(a, d);
  }

  lemma {:induction false} AreaNonNegative(es: seq<TwapEntry>, end: int)
    requires EndsBy(es, end) && forall i :: 0 <= i < |es| ==> 0 <= es[i].price
    ensures Area(es, end) >= 0
  {
    if es != [] {
      var e := es[|es| - 1];
      AreaNonNegative(es[..|es| - 1], e.time);
      MulMono(0, e.price, end - e.time);
    }
  }

  // ----- a query has one answer

  lemma {:induction false} SameTimes(es: seq<TwapEntry>, fs: seq<TwapEntry>)
    requires TimesAscend(es) && TimesAscend(fs) && forall t: Time :: HasTime(es, t) <==> HasTime(fs, t)
    ensures |es| == |fs| && forall i :: 0 <= i < |es| ==> es[i].time == fs[i].time
  {
    if es == [] {
      assert fs != [] ==> HasTime(fs, fs[0].time);
    } else {
      var n, m := |es| - 1, |fs| - 1;
      assert HasTime(es, es[n].time);
      assert HasTime(fs, fs[m].time);
      forall t: Time ensures HasTime(es[..n], t) <==> HasTime(fs[..m], t) {
        assert HasTime(es[..n], t) <==> HasTime(es, t) && t != es[n].time;
        assert HasTime(fs[..m], t) <==> HasTime(fs, t) && t != fs[m].time;
      }
      SameTimes(es[..n], fs[..m]);
    }
  }

  /** The samples of a query, and so its answer, are determined by the state. */
  lemma TwapUnique(s: State, pair: Pair, now: int, window: int, q: Quote, q': Quote)
    requires IsTwap(s, pair, now, window, q) && IsTwap(s, pair, now, window, q')
    ensures q == q'
  {
    if pair in s.params.acceptList {
      var es: seq<TwapEntry> :| IsWindow(es, s.twap, pair, now, now - window) && EndsBy(es, now)
                             && q == QuoteOf(es, now, s.params.MaxAge());
      var fs: seq<TwapEntry> :| IsWindow(fs, s.twap, pair, now, now - window) && EndsBy(fs, now)
                             && q' == QuoteOf(fs, now, s.params.MaxAge());
      SameTimes(es, fs);
      assert es == fs;
    }
  }

  // ----- the leading sample is not clamped

  /** How long before the window the leading sample was taken. */
  function LeadIn(es: seq<TwapEntry>, start: int): int
    requires es != []
  {
    if es[0].time < start then start - es[0].time else 0
  }

  /** The samples as designed: the leading one counts from `start` only. */
  function Clamped(es: seq<TwapEntry>, start: int): (fs: seq<TwapEntry>)
    requires |es| > 1 && TimesAscend(es) && start < es[1].time
    ensures |fs| == |es| && fs[1..] == es[1..] && fs[0].price == es[0].price
    ensures TimesAscend(fs) && fs[0].time == es[0].time + LeadIn(es, start)
  {
    if es[0].time < start then es[0 := es[0].(time := start)] else es
  }

  /** Only the first sample of a window lies at or before its start. */
  lemma OnlyFirstLeads(es: seq<TwapEntry>, twap: map<SampleId, Dec>, pair: Pair, now: int, start: int)
    requires IsWindow(es, twap, pair, now, start) && |es| > 1
    ensures start < es[1].time
  {
    assert HasTime(es, es[0].time) && HasTime(es, es[1].time);
    assert IsSample(es[0], twap, pair) && IsSample(es[1], twap, pair);
  }

  lemma {:induction false} ClampedArea(es: seq<TwapEntry>, start: Time, end: int)
    requires es != []
    ensures Area(es[0 := es[0].(time := start)], end) == Area(es, end) - es[0].price * (start - es[0].time)
  {
    var n := |es| - 1;
    var fs := es[0 := es[0].(time := start)];
    if n > 0 {
      ClampedArea(es[..n], start, es[n].time);
      assert fs[..n] == es[..n][0 := es[0].(time := start)];
    } else {
      assert fs[..0] == es[..0];
      assert es[0].price * (end - start) == es[0].price * (end - es[0].time) - es[0].price * (start - es[0].time);
    }
  }

  /** The number t is what a ratio a / d is quoted as: t is the nearest, both roundings counted, a half going to the
      even number. */
  predicate RoundsTo(a: int, d: int, t: int) {
    && (t * ONE - ONE / 2 + t % 2) * d <= a * ONE
    && a * ONE < ((t + 1) * ONE - ONE / 2 + (t + 1) % 2) * d
  }

  lemma QuoRoundsTo(a: Dec, d: int, t: nat)
    requires 0 <= a && 0 < d
    ensures Quo(a, FromInt(d)) == t <==> RoundsTo(a, d, t)
  {
    QuoReachesInt(a, d, t);
    QuoReachesInt(a, d, t + 1);
  }

  lemma SameQuoExactly(a: Dec, d: int, b: Dec, e: int)
    requires 0 <= a && 0 < d && 0 <= b && 0 < e
    ensures Quo(a, FromInt(d)) == Quo(b, FromInt(e)) <==> exists t: nat :: RoundsTo(a, d, t) && RoundsTo(b, e, t)
  {
    QuoNonNegative(a, d);
    var q := Quo(a, FromInt(d));
    QuoRoundsTo(a, d, q);
    QuoRoundsTo(b, e, q);
    if t: nat :| RoundsTo(a, d, t) && RoundsTo(b, e, t) {
      QuoRoundsTo(a, d, t);
      QuoRoundsTo(b, e, t);
    }
  }

  lemma QuoNonNegative(a: Dec, d: int)
    requires 0 <= a && 0 < d
    ensures Quo(a, FromInt(d)) >= 0
  {
    QuoAtLeast(a, FromInt(d), 0);
  }

  /** Both averages of a query with more than one sample. */
  lemma AveragesAre(es: seq<TwapEntry>, now: int, start: int)
    requires |es| > 1 && EndsBy(es, now) && start < es[1].time && forall i :: 0 <= i < |es| ==> 0 <= es[i].price
    ensures now - es[0].time > LeadIn(es, start) >= 0
    ensures Area(Clamped(es, start), now) == Area(es, now) - es[0].price * LeadIn(es, start)
    ensures Area(es, now) >= 0 && Area(Clamped(es, start), now) >= 0
  {
    var fs := Clamped(es, start);
    if es[0].time < start {
      ClampedArea(es, start, now);
    }
    assert forall i :: 0 < i < |fs| ==> fs[i] == fs[1..][i - 1] == es[i];
    AreaNonNegative(es, now);
    AreaNonNegative(fs, now);
  }

  /** The quote equals the designed one exactly when both averages, that of the whole curve and that of the curve
      without its lead-in, are rounded to the same number. */
  lemma ClampMattersExactly(es: seq<TwapEntry>, now: int, start: int, maxAge: int)
    requires |es| > 1 && EndsBy(es, now) && start < es[1].time && forall i :: 0 <= i < |es| ==> 0 <= es[i].price
    requires now - es[|es| - 1].time <= maxAge
    ensures EndsBy(Clamped(es, start), now)
    ensures QuoteOf(es, now, maxAge) == QuoteOf(Clamped(es, start), now, maxAge) <==>
            var a, p, d, k := Area(es, now), es[0].price, now - es[0].time, LeadIn(es, start);
            exists t: nat :: RoundsTo(a, d, t) && RoundsTo(a - p * k, d - k, t)
  {
    AveragesAre(es, now, start);
    var a, p, d, k := Area(es, now), es[0].price, now - es[0].time, LeadIn(es, start);
    SameQuoExactly(a, d, a - p * k, d - k);
  }

  lemma FlatQuote(es: seq<TwapEntry>, now: int, maxAge: int, p: Dec)
    requires |es| > 1 && EndsBy(es, now) && 0 <= p && Area(es, now) == p * (now - es[0].time)
    ensures QuoteOf(es, now, maxAge) == if now - es[|es| - 1].time > maxAge then Stale else Price(p)
  {
    assert es[0].time < es[|es| - 1].time;
    QuoInRange(Area(es, now), now - es[0].time, p, p);
  }

  lemma FlatClamped(es: seq<TwapEntry>, now: int, start: int)
    requires |es| > 1 && EndsBy(es, now) && es[0].time < start < es[1].time
    requires Area(es, now) == es[0].price * (now - es[0].time)
    ensures EndsBy(Clamped(es, start), now)
    ensures Area(Clamped(es, start), now) == es[0].price * (now - Clamped(es, start)[0].time)
  {
    ClampedArea(es, start, now);
    Distributes(es[0].price, now - start, start - es[0].time);
  }

  /** It does when nothing precedes the window or the leading price is already the average of the whole curve. */
  lemma ClampHarmless(es: seq<TwapEntry>, now: int, start: int, maxAge: int)
    requires |es| > 1 && EndsBy(es, now) && start < es[1].time && forall i :: 0 <= i < |es| ==> 0 <= es[i].price
    requires es[0].time >= start || Area(es, now) == es[0].price * (now - es[0].time)
    ensures EndsBy(Clamped(es, start), now)
    ensures QuoteOf(es, now, maxAge) == QuoteOf(Clamped(es, start), now, maxAge)
  {
    if es[0].time < start {
      FlatClamped(es, now, start);
      FlatQuote(es, now, maxAge, es[0].price);
      FlatQuote(Clamped(es, start), now, maxAge, es[0].price);
    }
  }

  /** And only when the two averages are within little more than a unit of the last digit of each other: the leading
      price's distance from the average, over the lead-in's share of the rest of the window, is that small. */
  lemma ClampSmallWhenQuotesAgree(es: seq<TwapEntry>, now: int, start: int, maxAge: int)
    requires |es| > 1 && EndsBy(es, now) && start < es[1].time && forall i :: 0 <= i < |es| ==> 0 <= es[i].price
    requires now - es[|es| - 1].time <= maxAge && EndsBy(Clamped(es, start), now)
    requires QuoteOf(es, now, maxAge) == QuoteOf(Clamped(es, start), now, maxAge)
    ensures var a, p, d, k := Area(es, now), es[0].price, now - es[0].time, LeadIn(es, start);
            ONE * Abs((p * d - a) * k) <= (ONE + 2) * (d * (d - k))
  {
    AveragesAre(es, now, start);
    QuoteIs(es, now, maxAge, Area(es, now), now - es[0].time);
    QuoteIs(Clamped(es, start), now, maxAge, Area(Clamped(es, start), now), now - es[0].time - LeadIn(es, start));
    SameQuoClamped(Area(es, now), es[0].price, now - es[0].time, LeadIn(es, start));
  }

  lemma QuoteIs(es: seq<TwapEntry>, now: int, maxAge: int, a: int, d: int)
    requires |es| > 1 && EndsBy(es, now) && now - es[|es| - 1].time <= maxAge && a == Area(es, now) && d == now - es[0].time
    ensures d > 0 && QuoteOf(es, now, maxAge) == Price(Quo(a, FromInt(d)))
  {
    assert es[0].time < es[|es| - 1].time;
  }

  lemma SameQuoClamped(a: int, p: int, d: int, k: int)
    requires 0 <= a && 0 <= a - p * k && 0 <= k < d && Quo(a, FromInt(d)) == Quo(a - p * k, FromInt(d - k))
    ensures ONE * Abs((p * d - a) * k) <= (ONE + 2) * (d * (d - k))
  {
    SameQuoClose(a, d, a - p * k, d - k);
    ClampIdentity(a, p, d, k);
  }

  lemma ClampIdentity(a: int, p: int, d: int, k: int)
    ensures a * (d - k) - (a - p * k) * d == (p * d - a) * k
  {
    assert a * (d - k) == a * d - a * k;
    assert (a - p * k) * d == a * d - p * k * d;
    assert (p * d - a) * k == p * d * k - a * k;
  }

  ghost predicate HoldsTwo(s: State, pair: Pair, e0: TwapEntry, e1: TwapEntry) {
    && pair in s.params.acceptList && e0.pair == e1.pair == pair
    && s.twap == map[SampleId(pair, e0.time) := e0.price, SampleId(pair, e1.time) := e1.price]
  }

  lemma WindowOfTwo(s: State, pair: Pair, e0: TwapEntry, e1: TwapEntry, now: int, start: int)
    requires HoldsTwo(s, pair, e0, e1) && e0.time < e1.time <= now && start < e1.time
    ensures IsWindow([e0, e1], s.twap, pair, now, start) && EndsBy([e0, e1], now)
  {
    var es := [e0, e1];
    assert es[0] == e0 && es[1] == e1;
    forall t: Time ensures HasTime(es, t) <==> Contributes(s.twap, pair, now, start, t) {
      assert HasTime(es, t) <==> t == e0.time || t == e1.time;
      assert SampleId(pair, e1.time) in s.twap;
    }
  }

  lemma AreaOfTwo(e0: TwapEntry, e1: TwapEntry, now: int)
    ensures Area([e0, e1], now) == e0.price * (e1.time - e0.time) + e1.price * (now - e1.time)
  {
    assert [e0, e1][..1] == [e0] && [e0][..0] == [];
    assert Area([e0], e1.time) == Area([], e0.time) + e0.price * (e1.time - e0.time);
  }

  /** A query where it matters: two seconds, the first at price 2 and all but a nanosecond of it before the window.
      The answer is 1.5; as designed it would be at most 1.1. */
  lemma LeadingSampleNotClamped(s: State, pair: Pair, e0: TwapEntry, e1: TwapEntry, q: Quote)
    requires e0 == TwapEntry(pair, 2 * ONE, 0) && e1 == TwapEntry(pair, ONE, SECOND)
    requires HoldsTwo(s, pair, e0, e1) && s.params.MaxAge() >= SECOND
    requires IsTwap(s, pair, 2 * SECOND, SECOND + 1, q)
    ensures q == Price(3 * ONE / 2)
    ensures EndsBy(Clamped([e0, e1], SECOND - 1), 2 * SECOND)
    ensures var designed := QuoteOf(Clamped([e0, e1], SECOND - 1), 2 * SECOND, s.params.MaxAge());
            designed.Price? && designed.value <= 11 * ONE / 10
  {
    WindowOfTwo(s, pair, e0, e1, 2 * SECOND, SECOND - 1);
    QuotesOfTwo(pair, e0, e1, s.params.MaxAge());
    TwapUnique(s, pair, 2 * SECOND, SECOND + 1, q, Price(3 * ONE / 2));
  }

  lemma QuotesOfTwo(pair: Pair, e0: TwapEntry, e1: TwapEntry, maxAge: int)
    requires e0 == TwapEntry(pair, 2 * ONE, 0) && e1 == TwapEntry(pair, ONE, SECOND) && maxAge >= SECOND
    ensures EndsBy([e0, e1], 2 * SECOND) && QuoteOf([e0, e1], 2 * SECOND, maxAge) == Price(3 * ONE / 2)
    ensures EndsBy(Clamped([e0, e1], SECOND - 1), 2 * SECOND)
    ensures var designed := QuoteOf(Clamped([e0, e1], SECOND - 1), 2 * SECOND, maxAge);
            designed.Price? && designed.value <= 11 * ONE / 10
  {
    var fs := Clamped([e0, e1], SECOND - 1);
    assert fs[1] == fs[1..][0] == [e0, e1][1..][0];
    AreaOfTwo(e0, e1, 2 * SECOND);
    FlatQuote([e0, e1], 2 * SECOND, maxAge, 3 * ONE / 2);
    AreaOfTwo(fs[0], fs[1], 2 * SECOND);
    assert fs == [fs[0], fs[1]];
    QuoAtMost(Area(fs, 2 * SECOND), FromInt(SECOND + 1), 11 * ONE / 10);
  }

  /** Rounding can hide the lead-in: here both averages, 10.7 and about 10.8 units, are quoted as 11 although the
      leading price is not the average. */
  lemma RoundingHidesLeadIn(e0: TwapEntry, e1: TwapEntry)
    requires e0.price == 10 && e0.time == 0 && e1.price == 11 && e1.time == 30
    ensures EndsBy([e0, e1], 100) && EndsBy(Clamped([e0, e1], 12), 100)
    ensures QuoteOf([e0, e1], 100, 100) == QuoteOf(Clamped([e0, e1], 12), 100, 100) == Price(11)
    ensures e0.price * 100 != Area([e0, e1], 100)
  {
    AreaOfTwo(e0, e1, 100);
    AveragesAre([e0, e1], 100, 12);
    QuoRoundsTo(1070, 100, 11);
    QuoRoundsTo(950, 88, 11);
  }
}
