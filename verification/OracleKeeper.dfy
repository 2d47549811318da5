/** The x/oracle keeper over its store, proved against the records of `OracleState`. */
module OracleKeeper {
  import opened Bytes
  import opened Dec
  import opened Sums
  import opened Results
  import opened OracleKeys
  import opened OracleAggregate
  import opened OracleState
  import opened OracleTwap
  import opened OracleMsgs
  import Stores = OracleStores

  // ----- parameters

  /** Checks the values one by one, then the accept list pair by pair with the pairs seen so far. */
  method Validate(p: Params) returns (e: Option<Error>)
    ensures e == ParamsError(p) && (e.None? <==> p.Valid())
  {
    if !ValuesOk(p) {
      return Some(ErrInvalidParams);
    }
    var seen := {};
    for i := 0 to |p.acceptList|
      invariant forall pair: Pair :: pair in seen <==> pair in p.acceptList[..i]
      invariant ListErrorFrom(p.acceptList, 0) == ListErrorFrom(p.acceptList, i)
    {
      if !PairOk(p.acceptList[i]) {
        return Some(ErrInvalidPairFormat);
      }
      if p.acceptList[i] in seen {
        return Some(ErrInvalidParams);
      }
      seen := seen + {p.acceptList[i]};
    }
    return None;
  }

  // ----- validators

  ghost predicate IndexesValidators(byOper: map<Addr, Validator>, st: Staking) {
    && (forall v :: v in byOper ==> byOper[v] in st.vals && byOper[v].oper == v)
    && (forall i :: 0 <= i < |st.vals| ==> st.vals[i].oper in byOper && byOper[st.vals[i].oper] == st.vals[i])
  }

  method IndexValidators(st: Staking) returns (byOper: map<Addr, Validator>)
    requires st.Ok()
    ensures IndexesValidators(byOper, st)
  {
    byOper := map[];
    for i := 0 to |st.vals|
      invariant forall v :: v in byOper ==> byOper[v] in st.vals[..i] && byOper[v].oper == v
      invariant forall j :: 0 <= j < i ==> st.vals[j].oper in byOper && byOper[st.vals[j].oper] == st.vals[j]
    {
      byOper := byOper[st.vals[i].oper := st.vals[i]];
    }
  }

  /** Calls x/slashing unless the validator has no consensus address or no power. */
  method SlashValidator(st: Staking, v: Validator, rate: Dec, height: nat, cause: Cause) returns (calls: seq<SlashCall>)
    requires st.Ok() && v in st.vals
    ensures calls == if st.Slashable(v.oper) then [SlashCall(v.oper, rate, st.Power(v.oper), height, cause)] else []
  {
    if !v.hasConsAddr || st.Power(v.oper) == 0 {
      return [];
    }
    return [SlashCall(v.oper, rate, st.Power(v.oper), height, cause)];
  }

  /** Slashes a validator whose miss window is full if it missed too large a share of it. */
  method SlashRepeatMisser(v: Validator, st: Staking, params: Params, t: nat, m: nat, height: nat, ghost s: State)
    returns (calls: seq<SlashCall>)
    requires st.Ok() && v in st.vals && params == s.params
    requires t == TotalAfter(s, v.oper) && m == MissAfter(s, st, v.oper) && RollsOver(s, v.oper)
    ensures |calls| <= 1
    ensures forall c: SlashCall :: c in calls <==> IsMissCall(s, st, height, c) && c.val == v.oper
  {
    calls := [];
    assert st.Listed(v.oper) by {
      var i :| 0 <= i < |st.vals| && st.vals[i] == v;
    }
    if Quo(FromInt(m), FromInt(t)) > params.missThreshold {
      calls := SlashValidator(st, v, params.missSlashRate, height, Missed);
    }
  }

  // ----- one pair

  ghost predicate IsBallotAt(w: WeightedPrice, feeds: map<FeedId, Feed>, ids: seq<FeedId>, k: nat, st: Staking, pair: Pair) {
    k < |ids| && ids[k] == FeedId(w.valoper, pair)
    && Counts(feeds, st, pair, w.valoper) && w == BallotOf(feeds, st, pair)(w.valoper)
  }

  ghost predicate BallotIn(w: WeightedPrice, feeds: map<FeedId, Feed>, ids: seq<FeedId>, n: nat, st: Staking, pair: Pair) {
    exists k: nat :: k < n && IsBallotAt(w, feeds, ids, k, st, pair)
  }

  /** The ballot a visited feed gives, if any. */
  method ReadFeed(ghost feeds: map<FeedId, Feed>, ghost ids: seq<FeedId>, ghost k: nat, id: FeedId, feed: Feed, pair: Pair,
                  st: Staking, valByOper: map<Addr, Validator>)
    returns (ws: seq<WeightedPrice>)
    requires IndexesValidators(valByOper, st)
    requires k < |ids| && id == ids[k] && id in feeds && feed == feeds[id]
    ensures |ws| <= 1 && forall w :: w in ws <==> IsBallotAt(w, feeds, ids, k, st, pair)
  {
    if id.pair == pair && feed.price > 0 && id.val in valByOper && valByOper[id.val].bonded && st.Power(id.val) != 0 {
      return [WeightedPrice(feed.price, st.Power(id.val), id.val)];
    }
    return [];
  }

  /** Collects the ballots of a pair from the visited feeds, and their summed power. */
  method CollectBallots(ghost feeds: map<FeedId, Feed>, ids: seq<FeedId>, visits: seq<Feed>, pair: Pair, st: Staking,
                        valByOper: map<Addr, Validator>)
    returns (weighted: seq<WeightedPrice>, submittedPower: int)
    requires IndexesValidators(valByOper, st)
    requires Lists(ids, feeds.Keys) && Stores.FeedsInOrder(ids)
    requires |visits| == |ids| && forall i :: 0 <= i < |ids| ==> ids[i] in feeds && visits[i] == feeds[ids[i]]
    ensures Lists(weighted, Ballots(feeds, st, pair)) && BallotsInOrder(weighted, pair)
    ensures submittedPower == BallotPower(Ballots(feeds, st, pair))
  {
    weighted, submittedPower := [], 0;
    for i := 0 to |ids|
      invariant BallotsUpTo(feeds, ids, i, st, pair, weighted)
      invariant submittedPower == SumSeq(weighted, Weight)
    {
      var ws := ReadFeed(feeds, ids, i, ids[i], visits[i], pair, st, valByOper);
      BallotsAdd(feeds, ids, i, st, pair, weighted, ws);
      if |ws| == 1 {
        SumSeqAppend(weighted, Weight, ws[0]);
        assert ws == [ws[0]];
        submittedPower := submittedPower + ws[0].weight;
      } else {
        assert weighted + ws == weighted;
      }
      weighted := weighted + ws;
    }
    BallotsCollected(feeds, ids, st, pair, weighted);
    SumListing(weighted, Weight);
  }

  ghost predicate BallotsInOrder(ws: seq<WeightedPrice>, pair: Pair) {
    forall i, j :: 0 <= i < j < |ws| ==> FeedBefore(ws[i].valoper, ws[j].valoper, pair)
  }

  /** The ballots of the first n visited feeds, in the order of the feeds. */
  ghost predicate BallotsUpTo(feeds: map<FeedId, Feed>, ids: seq<FeedId>, n: nat, st: Staking, pair: Pair, ws: seq<WeightedPrice>) {
    && Distinct(ws) && BallotsInOrder(ws, pair)
    && forall w :: w in ws <==> BallotIn(w, feeds, ids, n, st, pair)
  }

  /** Each feed is visited once, so a later feed never repeats an earlier ballot. */
  lemma BallotsAdd(feeds: map<FeedId, Feed>, ids: seq<FeedId>, i: nat, st: Staking, pair: Pair,
                   before: seq<WeightedPrice>, ws: seq<WeightedPrice>)
    requires Distinct(ids) && Stores.FeedsInOrder(ids) && i < |ids|
    requires BallotsUpTo(feeds, ids, i, st, pair, before)
    requires |ws| <= 1 && forall w :: w in ws <==> IsBallotAt(w, feeds, ids, i, st, pair)
    ensures BallotsUpTo(feeds, ids, i + 1, st, pair, before + ws)
  {
    DistinctConcat(before, ws);
    LaterBallot(feeds, ids, i, st, pair, before, ws);
    forall w ensures w in before + ws <==> BallotIn(w, feeds, ids, i + 1, st, pair) {
      assert w in before + ws <==> w in before || w in ws;
    }
  }

  lemma LaterBallot(feeds: map<FeedId, Feed>, ids: seq<FeedId>, i: nat, st: Staking, pair: Pair,
                    before: seq<WeightedPrice>, ws: seq<WeightedPrice>)
    requires Stores.FeedsInOrder(ids) && i < |ids| && BallotsInOrder(before, pair)
    requires forall w :: w in before ==> BallotIn(w, feeds, ids, i, st, pair)
    requires |ws| <= 1 && forall w :: w in ws ==> IsBallotAt(w, feeds, ids, i, st, pair)
    ensures BallotsInOrder(before + ws, pair)
  {
    forall m, n | 0 <= m < n < |before + ws|
      ensures FeedBefore((before + ws)[m].valoper, (before + ws)[n].valoper, pair)
    {
      if n == |before| {
        assert before[m] in before && ws[0] in ws;
        var k: nat :| k < i && IsBallotAt(before[m], feeds, ids, k, st, pair);
        assert KeyBefore(ids[k], ids[i]);
      }
    }
  }

  lemma BallotsCollected(feeds: map<FeedId, Feed>, ids: seq<FeedId>, st: Staking, pair: Pair, weighted: seq<WeightedPrice>)
    requires Lists(ids, feeds.Keys) && BallotsUpTo(feeds, ids, |ids|, st, pair, weighted)
    ensures Lists(weighted, Ballots(feeds, st, pair))
  {
    forall w ensures w in weighted <==> w in Ballots(feeds, st, pair) {
      if w in weighted {
        BondedIsOperator(st, w.valoper);
      }
      if w in Ballots(feeds, st, pair) {
        var v :| v in Voters(feeds, st, pair) && w == BallotOf(feeds, st, pair)(v);
        assert FeedId(v, pair) in Elements(ids);
        var k :| 0 <= k < |ids| && ids[k] == FeedId(v, pair);
        assert IsBallotAt(w, feeds, ids, k, st, pair);
      }
    }
  }

  /** The two medians of a non-empty list of ballots. */
  method Medians(weighted: seq<WeightedPrice>, ghost ballots: set<WeightedPrice>) returns (median: Dec, refMedian: Dec)
    requires weighted != [] && Lists(weighted, ballots)
    ensures IsPublished(ballots, median) && IsReference(ballots, refMedian)
  {
    var entries := new WeightedPrice[|weighted|](i requires 0 <= i < |weighted| => weighted[i]);
    assert entries[..] == weighted;
    var raw := PricesOf(weighted);
    var rawPrices := new Dec[|raw|](i requires 0 <= i < |raw| => raw[i]);
    assert rawPrices[..] == raw;
    median := WeightedMedian(entries);
    refMedian := UnweightedMedian(rawPrices);
  }

  ghost predicate IsOutlierCallFor(s: State, st: Staking, height: nat, pair: Pair, c: SlashCall) {
    IsOutlierCall(s, st, height, c) && c.cause.pair == pair
  }

  lemma BallotIsOf(s: State, st: Staking, pair: Pair, ws: seq<WeightedPrice>, i: nat)
    requires Lists(ws, Ballots(s.feeds, st, pair)) && i < |ws|
    ensures Counts(s.feeds, st, pair, ws[i].valoper) && ws[i] == BallotOf(s.feeds, st, pair)(ws[i].valoper)
  {
    assert ws[i] in Elements(ws);
  }

  ghost predicate SlashedAt(w: WeightedPrice, st: Staking, params: Params, pair: Pair, height: nat, ref: Dec, c: SlashCall) {
    Deviates(w.price, ref, params.outlierThreshold) && st.Slashable(w.valoper)
    && c == SlashCall(w.valoper, params.outlierSlashRate, st.Power(w.valoper), height, Outlier(pair))
  }

  ghost predicate SlashedIn(ws: seq<WeightedPrice>, n: nat, st: Staking, params: Params, pair: Pair, height: nat, ref: Dec, c: SlashCall) {
    exists j: nat :: j < n && j < |ws| && SlashedAt(ws[j], st, params, pair, height, ref, c)
  }

  method SlashIfOutlier(st: Staking, params: Params, v: Validator, w: WeightedPrice, pair: Pair, height: nat, refMedian: Dec)
    returns (calls: seq<SlashCall>)
    requires st.Ok() && v in st.vals && v.oper == w.valoper && refMedian > 0
    ensures |calls| <= 1 && forall c: SlashCall :: c in calls <==> SlashedAt(w, st, params, pair, height, refMedian, c)
  {
    calls := [];
    if Quo(Abs(w.price - refMedian), refMedian) > params.outlierThreshold {
      calls := SlashValidator(st, v, params.outlierSlashRate, height, Outlier(pair));
    }
  }

  /** Slashes every ballot too far from the reference. */
  method SlashOutliers(st: Staking, params: Params, valByOper: map<Addr, Validator>, pair: Pair, height: nat,
                       ws: seq<WeightedPrice>, refMedian: Dec)
    returns (calls: seq<SlashCall>)
    requires st.Ok() && IndexesValidators(valByOper, st) && BallotsInOrder(ws, pair)
    requires forall i :: 0 <= i < |ws| ==> ws[i].valoper in valByOper
    ensures InOrder(params.acceptList, st, calls)
    ensures forall c: SlashCall :: c in calls <==> SlashedIn(ws, |ws|, st, params, pair, height, refMedian, c)
  {
    calls := [];
    if refMedian > 0 {
      for i := 0 to |ws|
        invariant InOrder(params.acceptList, st, calls)
        invariant forall c: SlashCall :: c in calls <==> SlashedIn(ws, i, st, params, pair, height, refMedian, c)
      {
        var more := SlashIfOutlier(st, params, valByOper[ws[i].valoper], ws[i], pair, height, refMedian);
        SlashesAdd(ws, i, st, params, pair, height, refMedian, calls, more);
        calls := calls + more;
      }
    }
  }

  lemma SlashesAdd(ws: seq<WeightedPrice>, i: nat, st: Staking, params: Params, pair: Pair, height: nat, ref: Dec,
                   before: seq<SlashCall>, more: seq<SlashCall>)
    requires BallotsInOrder(ws, pair) && i < |ws| && InOrder(params.acceptList, st, before)
    requires forall c: SlashCall :: c in before <==> SlashedIn(ws, i, st, params, pair, height, ref, c)
    requires |more| <= 1 && forall c: SlashCall :: c in more <==> SlashedAt(ws[i], st, params, pair, height, ref, c)
    ensures InOrder(params.acceptList, st, before + more)
    ensures forall c: SlashCall :: c in before + more <==> SlashedIn(ws, i + 1, st, params, pair, height, ref, c)
  {
    forall c, d | c in before && d in more ensures CallBefore(params.acceptList, st, c, d) {
      assert SlashedIn(ws, i, st, params, pair, height, ref, c);
      var j: nat :| j < i && SlashedAt(ws[j], st, params, pair, height, ref, c);
      assert FeedBefore(ws[j].valoper, ws[i].valoper, pair);
    }
    InOrderConcat(params.acceptList, st, before, more);
    forall c: SlashCall ensures c in before + more <==> SlashedIn(ws, i + 1, st, params, pair, height, ref, c) {
      assert c in before + more <==> c in before || c in more;
    }
  }

  /** The slashed ballots are the outliers of the pair. */
  lemma OutliersAreSlashed(s: State, st: Staking, pair: Pair, height: nat, ws: seq<WeightedPrice>, ref: Dec, c: SlashCall)
    requires Live(s, st, pair) && Lists(ws, Ballots(s.feeds, st, pair)) && IsReference(Ballots(s.feeds, st, pair), ref)
    ensures SlashedIn(ws, |ws|, st, s.params, pair, height, ref, c) <==> IsOutlierCallFor(s, st, height, pair, c)
  {
    if j: nat :| j < |ws| && SlashedAt(ws[j], st, s.params, pair, height, ref, c) {
      BallotIsOf(s, st, pair, ws, j);
    }
    if IsOutlierCallFor(s, st, height, pair, c) {
      var r :| IsReference(Ballots(s.feeds, st, pair), r)
            && Deviates(s.feeds[FeedId(c.val, pair)].price, r, s.params.outlierThreshold);
      ReferenceUnique(Ballots(s.feeds, st, pair), ref, r);
      BondedIsOperator(st, c.val);
      var w := BallotOf(s.feeds, st, pair)(c.val);
      assert w in Elements(ws);
      var j :| 0 <= j < |ws| && ws[j] == w;
      assert SlashedAt(ws[j], st, s.params, pair, height, ref, c);
    }
  }

  /** The outlier slashes of a live pair. */
  method SlashPair(ghost s: State, st: Staking, params: Params, valByOper: map<Addr, Validator>, pair: Pair, height: nat,
                   weighted: seq<WeightedPrice>, refMedian: Dec)
    returns (calls: seq<SlashCall>)
    requires st.Ok() && IndexesValidators(valByOper, st) && params == s.params
    requires Live(s, st, pair) && Lists(weighted, Ballots(s.feeds, st, pair))
    requires IsReference(Ballots(s.feeds, st, pair), refMedian) && BallotsInOrder(weighted, pair)
    ensures InOrder(params.acceptList, st, calls)
    ensures forall c: SlashCall :: c in calls <==> IsOutlierCallFor(s, st, height, pair, c)
  {
    forall i | 0 <= i < |weighted| ensures weighted[i].valoper in valByOper {
      BallotIsOf(s, st, pair, weighted, i);
    }
    calls := SlashOutliers(st, params, valByOper, pair, height, weighted, refMedian);
    forall c: SlashCall ensures c in calls <==> IsOutlierCallFor(s, st, height, pair, c) {
      OutliersAreSlashed(s, st, pair, height, weighted, refMedian, c);
    }
  }

  /** Weights every entry by the time to the next one, the last by the time to now. */
  method Average(a: array<TwapEntry>, now: Time, maxAge: int) returns (q: Quote)
    requires a.Length > 0 && EndsBy(a[..], now)
    ensures q == QuoteOf(a[..], now, maxAge)
  {
    var n := a.Length;
    ghost var es := a[..];
    if now - a[n - 1].time > maxAge {
      return Stale;
    }
    if n == 1 {
      return Price(a[0].price);
    }
    var weightedSum, totalWeight := 0, 0;
    for i := 0 to n
      invariant weightedSum == Area(es[..i], if i < n then es[i].time else now)
      invariant totalWeight == FromInt((if i < n then es[i].time else now) - es[0].time)
    {
      var end := if i + 1 < n then a[i + 1].time else now;
      var w := FromInt(end - a[i].time);
      MulByIntExact(a[i].price, end - a[i].time);
      assert es[..i + 1][..i] == es[..i];
      weightedSum := weightedSum + Mul(a[i].price, w);
      totalWeight := totalWeight + w;
    }
    assert es[..n] == es;
    assert es[0].time < es[n - 1].time;
    q := Price(Quo(weightedSum, totalWeight));
  }

  ghost predicate IsReverse<T>(a: seq<T>, b: seq<T>) {
    |a| == |b| && forall j :: 0 <= j < |a| ==> a[j] == b[|a| - 1 - j]
  }

  lemma SliceReversed<T>(s: seq<T>, lo: nat, hi: nat, r: seq<T>)
    requires lo <= hi <= |s| && |r| == hi - lo && forall j :: 0 <= j < |r| ==> r[j] == s[hi - 1 - j]
    ensures IsReverse(r, s[lo..hi])
  {
  }

  /** Walks back from the newest sample to the first one at or before `start`, skipping those after `now`. */
  method WalkBack(es: seq<TwapEntry>, now: int, start: int) returns (entries: seq<TwapEntry>, ghost lo: nat, ghost hi: nat)
    requires TimesAscend(es)
    ensures Stores.IsWalk(es, now, start, lo, hi)
    ensures |entries| == hi - lo && forall j :: 0 <= j < |entries| ==> entries[j] == es[hi - 1 - j]
  {
    entries := [];
    var i := |es|;
    hi := i;
    while i > 0
      invariant 0 <= i <= hi <= |es|
      invariant forall j :: hi <= j < |es| ==> es[j].time > now
      invariant i < hi ==> es[hi - 1].time <= now
      invariant |entries| == hi - i
      invariant forall j :: 0 <= j < |entries| ==> entries[j] == es[hi - 1 - j]
      invariant forall j :: i <= j < hi ==> es[j].time > start
    {
      i := i - 1;
      if es[i].time > now {
        hi := i;
        continue;
      }
      entries := entries + [es[i]];
      if es[i].time <= start {
        break;
      }
    }
    lo := i;
  }

  /** Turns the entries around in place. */
  method Reverse<T>(a: array<T>)
    modifies a
    ensures forall k :: 0 <= k < a.Length ==> a[k] == old(a[a.Length - 1 - k])
  {
    var i, j := 0, a.Length - 1;
    while i < j
      invariant i >= 0 && i + j == a.Length - 1
      invariant forall k :: 0 <= k < a.Length ==>
        a[k] == old(if i <= k <= j then a[k] else a[a.Length - 1 - k])
    {
      a[i], a[j] := a[j], a[i];
      i, j := i + 1, j - 1;
    }
  }

  /** Turns the samples to ascending order and averages them. */
  method ReverseAndAverage(entries: seq<TwapEntry>, ghost w: seq<TwapEntry>, now: Time, maxAge: int) returns (q: Quote)
    requires entries != [] && IsReverse(entries, w)
    requires EndsBy(w, now)
    ensures q == QuoteOf(w, now, maxAge)
  {
    var a := new TwapEntry[|entries|](j requires 0 <= j < |entries| => entries[j]);
    Reverse(a);
    assert a[..] == w;
    q := Average(a, now, maxAge);
  }

  lemma AcceptedHasNoSlash(params: Params, pair: Pair)
    requires params.Valid() && pair in params.acceptList
    ensures SLASH !in pair
  {
  }

  /** Quotes the samples from the first one at or before `start` up to `now`. */
  method QuoteWindow(raw: map<Bytes, TwapEntry>, ghost twap: map<SampleId, Dec>, pair: Pair, now: Time, start: int, maxAge: int)
    returns (q: Quote, ghost w: seq<TwapEntry>)
    requires Stores.TwapMatch(raw, twap) && SLASH !in pair
    ensures IsWindow(w, twap, pair, now, start) && EndsBy(w, now)
    ensures q == QuoteOf(w, now, maxAge)
  {
    var _, es := Stores.IterateSamples(raw, twap, pair);
    var entries, lo, hi := WalkBack(es, now, start);
    Stores.WalkIsWindow(es, twap, pair, now, start, lo, hi);
    w := es[lo..hi];
    assert IsReverse(entries, w) by { SliceReversed(es, lo, hi, entries); }
    if |entries| == 0 {
      q := NoData;
    } else {
      q := ReverseAndAverage(entries, w, now, maxAge);
    }
  }

  // ----- what one pair adds

  /** The pair gets a price and a sample, and loses the samples of more than a day ago. */
  ghost function WithPrice(s: State, pair: Pair, m: Dec, height: nat, time: Time): State {
    s.(prices := s.prices[pair := AggregatedPrice(m, height, time)],
       twap := Stores.Pruned(s.twap[SampleId(pair, time) := m], pair, time - DAY))
  }

  /** The records after the pairs in `done` have been aggregated. */
  ghost predicate PriceSoFar(s: State, st: Staking, height: nat, time: Time, done: seq<Pair>, s': State, pair: Pair) {
    if pair in done then PriceAfter(s, st, height, time, s', pair) else PriceKept(s, s', pair)
  }

  ghost predicate SampleSoFar(s: State, st: Staking, time: Time, done: seq<Pair>, s': State, id: SampleId) {
    if id.pair in done then SampleAfter(s, st, time, s', id) else SampleKept(s, s', id)
  }

  /** Which pairs are live depends on the feeds and parameters alone. */
  lemma SameWindow(s: State, t: State, st: Staking, pair: Pair)
    requires s.feeds == t.feeds && s.params == t.params
    ensures Live(s, st, pair) == Live(t, st, pair)
  {
  }

  lemma PriceAdds(s0: State, s1: State, st: Staking, height: nat, time: Time, done: seq<Pair>, pair: Pair, live: bool, m: Dec, s2: State)
    requires pair !in done && live == Live(s0, st, pair)
    requires forall p: Pair :: PriceSoFar(s0, st, height, time, done, s1, p)
    requires s2.prices == if live then s1.prices[pair := AggregatedPrice(m, height, time)] else s1.prices
    requires live ==> IsPublished(Ballots(s0.feeds, st, pair), m)
    ensures forall p: Pair :: PriceSoFar(s0, st, height, time, done + [pair], s2, p)
  {
    forall p: Pair ensures PriceSoFar(s0, st, height, time, done + [pair], s2, p) {
      assert PriceSoFar(s0, st, height, time, done, s1, p);
    }
  }

  lemma SampleAdds(s0: State, s1: State, st: Staking, height: nat, time: Time, done: seq<Pair>, pair: Pair, live: bool, m: Dec, s2: State)
    requires pair !in done && live == Live(s0, st, pair)
    requires forall id: SampleId :: SampleSoFar(s0, st, time, done, s1, id)
    requires s2.prices == if live then s1.prices[pair := AggregatedPrice(m, height, time)] else s1.prices
    requires s2.twap == if live then Stores.Pruned(s1.twap[SampleId(pair, time) := m], pair, time - DAY) else s1.twap
    ensures forall id: SampleId :: SampleSoFar(s0, st, time, done + [pair], s2, id)
  {
    forall id: SampleId ensures SampleSoFar(s0, st, time, done + [pair], s2, id) {
      assert SampleSoFar(s0, st, time, done, s1, id);
    }
  }

  lemma PairAdds(s0: State, s1: State, st: Staking, height: nat, time: Time, done: seq<Pair>, pair: Pair, live: bool, m: Dec, s2: State)
    requires pair !in done && s1 == s0.(prices := s1.prices, twap := s1.twap)
    requires forall p: Pair :: PriceSoFar(s0, st, height, time, done, s1, p)
    requires forall id: SampleId :: SampleSoFar(s0, st, time, done, s1, id)
    requires live == Live(s1, st, pair)
    requires !live ==> s2 == s1
    requires live ==> IsPublished(Ballots(s1.feeds, st, pair), m) && s2 == WithPrice(s1, pair, m, height, time)
    ensures s2 == s0.(prices := s2.prices, twap := s2.twap)
    ensures forall p: Pair :: PriceSoFar(s0, st, height, time, done + [pair], s2, p)
    ensures forall id: SampleId :: SampleSoFar(s0, st, time, done + [pair], s2, id)
  {
    SameWindow(s0, s1, st, pair);
    PriceAdds(s0, s1, st, height, time, done, pair, live, m, s2);
    SampleAdds(s0, s1, st, height, time, done, pair, live, m, s2);
  }

  lemma OutliersAdd(s0: State, s1: State, st: Staking, height: nat, done: seq<Pair>, pair: Pair, live: bool,
                    calls: seq<SlashCall>, more: seq<SlashCall>)
    requires done + [pair] <= s0.params.acceptList && s1 == s0.(prices := s1.prices, twap := s1.twap)
    requires live == Live(s1, st, pair) && (!live ==> more == [])
    requires live ==> forall c: SlashCall :: c in more <==> IsOutlierCallFor(s1, st, height, pair, c)
    requires InOrder(s0.params.acceptList, st, calls) && InOrder(s0.params.acceptList, st, more)
    requires forall c: SlashCall :: c in calls <==> IsOutlierCall(s0, st, height, c) && c.cause.pair in done
    ensures InOrder(s0.params.acceptList, st, calls + more)
    ensures forall c: SlashCall :: c in calls + more <==> IsOutlierCall(s0, st, height, c) && c.cause.pair in done + [pair]
  {
    forall c: SlashCall ensures c in more <==> IsOutlierCallFor(s0, st, height, pair, c) {
      SameWindow(s0, s1, st, pair);
      if live {
        assert IsOutlierCallFor(s1, st, height, pair, c) == IsOutlierCallFor(s0, st, height, pair, c);
      }
    }
    forall c, d | c in calls && d in more ensures CallBefore(s0.params.acceptList, st, c, d) {
      LaterPair(s0.params.acceptList, done, pair, c.cause.pair);
    }
    InOrderConcat(s0.params.acceptList, st, calls, more);
  }

  lemma LaterPair(accepted: seq<Pair>, done: seq<Pair>, pair: Pair, p: Pair)
    requires done + [pair] <= accepted && p in done
    ensures PairBefore(accepted, p, pair)
  {
    var i :| 0 <= i < |done| && done[i] == p;
    assert accepted[i] == (done + [pair])[i] && accepted[|done|] == (done + [pair])[|done|];
  }

  ghost predicate ListsLive(quorumLive: seq<Pair>, s: State, st: Staking) {
    forall pair: Pair :: pair in quorumLive <==> Live(s, st, pair)
  }

  /** One pair: untouched without a quorum, otherwise its median published and its outliers slashed in order. */
  ghost predicate PairAggregated(s: State, st: Staking, height: nat, time: Time, pair: Pair, live: bool, m: Dec, s': State,
                                 calls: seq<SlashCall>) {
    && live == Live(s, st, pair) && (!live ==> s' == s && calls == [])
    && (live ==> IsPublished(Ballots(s.feeds, st, pair), m) && s' == WithPrice(s, pair, m, height, time))
    && InOrder(s.params.acceptList, st, calls)
    && (live ==> forall c: SlashCall :: c in calls <==> IsOutlierCallFor(s, st, height, pair, c))
  }

  /** Prices, samples, live pairs and slashes after the pairs in `done` have been aggregated. */
  ghost predicate AggregatedSoFar(s0: State, st: Staking, height: nat, time: Time, done: seq<Pair>, s: State,
                                  quorumLive: seq<Pair>, calls: seq<SlashCall>) {
    && s == s0.(prices := s.prices, twap := s.twap)
    && (forall pair: Pair :: PriceSoFar(s0, st, height, time, done, s, pair))
    && (forall id: SampleId :: SampleSoFar(s0, st, time, done, s, id))
    && (forall pair: Pair :: pair in quorumLive <==> pair in done && Live(s0, st, pair))
    && InOrder(s0.params.acceptList, st, calls)
    && (forall c: SlashCall :: c in calls <==> IsOutlierCall(s0, st, height, c) && c.cause.pair in done)
  }

  lemma OnePairMore(s0: State, s1: State, st: Staking, height: nat, time: Time, done: seq<Pair>, pair: Pair, live: bool, m: Dec,
                    s2: State, quorumLive: seq<Pair>, calls: seq<SlashCall>, more: seq<SlashCall>)
    requires AggregatedSoFar(s0, st, height, time, done, s1, quorumLive, calls)
    requires s0.params.Valid() && done + [pair] <= s0.params.acceptList
    requires PairAggregated(s1, st, height, time, pair, live, m, s2, more)
    ensures AggregatedSoFar(s0, st, height, time, done + [pair], s2, if live then quorumLive + [pair] else quorumLive, calls + more)
  {
    assert pair !in done by {
      if pair in done {
        LaterPair(s0.params.acceptList, done, pair, pair);
      }
    }
    PairAdds(s0, s1, st, height, time, done, pair, live, m, s2);
    OutliersAdd(s0, s1, st, height, done, pair, live, calls, more);
    SameWindow(s0, s1, st, pair);
  }

  lemma AllPairsDone(s: State, st: Staking, height: nat, time: Time, done: seq<Pair>, s': State,
                     quorumLive: seq<Pair>, calls: seq<SlashCall>)
    requires done == s.params.acceptList && AggregatedSoFar(s, st, height, time, done, s', quorumLive, calls)
    ensures forall p: Pair :: PriceAfter(s, st, height, time, s', p)
    ensures forall id: SampleId :: SampleAfter(s, st, time, s', id)
    ensures ListsLive(quorumLive, s, st)
    ensures forall c: SlashCall :: c in calls <==> IsOutlierCall(s, st, height, c)
  {
    forall p: Pair ensures PriceAfter(s, st, height, time, s', p) {
      assert PriceSoFar(s, st, height, time, done, s', p);
    }
    forall id: SampleId ensures SampleAfter(s, st, time, s', id) {
      assert SampleSoFar(s, st, time, done, s', id);
    }
  }

  ghost predicate ListedBefore(st: Staking, n: nat, v: Addr)
    requires n <= |st.vals|
  {
    exists i :: 0 <= i < n && st.vals[i].oper == v
  }

  /** The counters after the first `n` validators have been counted. */
  ghost predicate CountersSoFar(s: State, st: Staking, n: nat, s': State, v: Addr)
    requires n <= |st.vals|
  {
    if ListedBefore(st, n, v) then CountersAfter(s, st, s', v)
    else Count(s'.miss, v) == Count(s.miss, v) && Count(s'.total, v) == Count(s.total, v)
  }

  ghost predicate SameForOthers(s: State, s': State, v: Addr) {
    forall u: Addr :: u != v ==> Count(s'.miss, u) == Count(s.miss, u) && Count(s'.total, u) == Count(s.total, u)
  }

  lemma CountersAdd(s0: State, st: Staking, n: nat, n': nat, s1: State, s2: State)
    requires st.Ok() && n < |st.vals| && n' == n + 1
    requires forall v: Addr :: CountersSoFar(s0, st, n, s1, v)
    requires CountersAfter(s0, st, s2, st.vals[n].oper)
    requires SameForOthers(s1, s2, st.vals[n].oper)
    ensures forall v: Addr :: CountersSoFar(s0, st, n', s2, v)
    ensures forall v: Addr :: ListedBefore(st, n', v) <==> ListedBefore(st, n, v) || v == st.vals[n].oper
  {
    forall v: Addr
      ensures CountersSoFar(s0, st, n', s2, v)
      ensures ListedBefore(st, n', v) <==> ListedBefore(st, n, v) || v == st.vals[n].oper
    {
      assert CountersSoFar(s0, st, n, s1, v);
      assert v == st.vals[n].oper ==> ListedBefore(st, n', v);
    }
  }

  lemma MissesAdd(s: State, st: Staking, height: nat, n: nat, calls: seq<SlashCall>, more: seq<SlashCall>)
    requires n < |st.vals| && InOrder(s.params.acceptList, st, calls)
    requires forall c: SlashCall :: c in calls <==> IsMissCall(s, st, height, c) && ListedBefore(st, n, c.val)
    requires |more| <= 1 && forall c: SlashCall :: c in more <==> IsMissCall(s, st, height, c) && c.val == st.vals[n].oper
    ensures InOrder(s.params.acceptList, st, calls + more)
  {
    forall c, d | c in calls && d in more ensures CallBefore(s.params.acceptList, st, c, d) {
      var i :| 0 <= i < n && st.vals[i].oper == c.val;
      assert st.vals[n].oper == d.val;
    }
    InOrderConcat(s.params.acceptList, st, calls, more);
  }

  lemma AllCounted(s: State, st: Staking, s': State)
    requires forall v: Addr :: CountersSoFar(s, st, |st.vals|, s', v)
    ensures forall v: Addr :: CountersAfter(s, st, s', v)
    ensures forall v: Addr :: ListedBefore(st, |st.vals|, v) == st.Listed(v)
  {
    forall v: Addr ensures CountersAfter(s, st, s', v) && ListedBefore(st, |st.vals|, v) == st.Listed(v) {
      assert CountersSoFar(s, st, |st.vals|, s', v);
    }
  }

  /** Aggregation, counting and clearing together are the boundary. */
  lemma BoundaryDone(s0: State, s1: State, s2: State, s3: State, st: Staking, height: nat, time: Time,
                     outliers: seq<SlashCall>, misses: seq<SlashCall>)
    requires s1 == s0.(prices := s1.prices, twap := s1.twap)
    requires forall pair: Pair :: PriceAfter(s0, st, height, time, s1, pair)
    requires forall id: SampleId :: SampleAfter(s0, st, time, s1, id)
    requires InOrder(s0.params.acceptList, st, outliers)
    requires forall c: SlashCall :: c in outliers <==> IsOutlierCall(s0, st, height, c)
    requires s2 == s1.(miss := s2.miss, total := s2.total)
    requires forall v: Addr :: CountersAfter(s1, st, s2, v)
    requires InOrder(s1.params.acceptList, st, misses)
    requires forall c: SlashCall :: c in misses <==> IsMissCall(s1, st, height, c)
    requires s3 == s2.(feeds := map[])
    ensures Boundary(s0, st, height, time, s3, outliers + misses)
  {
    PricesDone(s0, s1, s3, st, height, time);
    CountersDone(s0, s1, s2, s3, st);
    SlashesDone(s0, s1, st, height, outliers, misses);
  }

  lemma PricesDone(s0: State, s1: State, s3: State, st: Staking, height: nat, time: Time)
    requires forall pair: Pair :: PriceAfter(s0, st, height, time, s1, pair)
    requires forall id: SampleId :: SampleAfter(s0, st, time, s1, id)
    requires s3.prices == s1.prices && s3.twap == s1.twap
    ensures forall pair: Pair :: PriceAfter(s0, st, height, time, s3, pair)
    ensures forall id: SampleId :: SampleAfter(s0, st, time, s3, id)
  {
    forall pair: Pair ensures PriceAfter(s0, st, height, time, s3, pair) {
      assert PriceAfter(s0, st, height, time, s1, pair);
    }
    forall id: SampleId ensures SampleAfter(s0, st, time, s3, id) {
      assert SampleAfter(s0, st, time, s1, id);
    }
  }

  lemma CountersDone(s0: State, s1: State, s2: State, s3: State, st: Staking)
    requires s1 == s0.(prices := s1.prices, twap := s1.twap) && s3.miss == s2.miss && s3.total == s2.total
    requires forall v: Addr :: CountersAfter(s1, st, s2, v)
    ensures forall v: Addr :: CountersAfter(s0, st, s3, v)
  {
    forall v: Addr ensures CountersAfter(s0, st, s3, v) {
      assert CountersAfter(s1, st, s2, v);
      SameMisses(s0, s1, st, v);
    }
  }

  lemma SlashesDone(s0: State, s1: State, st: Staking, height: nat, outliers: seq<SlashCall>, misses: seq<SlashCall>)
    requires s1 == s0.(prices := s1.prices, twap := s1.twap)
    requires InOrder(s0.params.acceptList, st, outliers) && InOrder(s1.params.acceptList, st, misses)
    requires forall c: SlashCall :: c in outliers <==> IsOutlierCall(s0, st, height, c)
    requires forall c: SlashCall :: c in misses <==> IsMissCall(s1, st, height, c)
    ensures SlashesAre(s0, st, height, outliers + misses)
  {
    forall c: SlashCall ensures IsMissCall(s1, st, height, c) == IsMissCall(s0, st, height, c) {
      SameMisses(s0, s1, st, c.val);
    }
    forall c, d | c in outliers && d in misses ensures CallBefore(s0.params.acceptList, st, c, d) {
      assert c.cause.Outlier? && d.cause.Missed?;
    }
    InOrderConcat(s0.params.acceptList, st, outliers, misses);
  }

  lemma SameMisses(s: State, t: State, st: Staking, v: Addr)
    requires t == s.(prices := t.prices, twap := t.twap)
    ensures MissedWindow(s, st, v) == MissedWindow(t, st, v)
  {
  }

  class Keeper {
    var params: Params
    var feedStore: map<Bytes, Feed>
    var prices: map<Pair, AggregatedPrice>
    var twapStore: map<Bytes, TwapEntry>
    var miss: map<Addr, nat>
    var total: map<Addr, nat>
    var validatorOf: map<Addr, Addr>
    var feederOf: map<Addr, Addr>

    /** The typed records the store stands for. */
    ghost var s: State

    ghost predicate Valid()
      reads this
    {
      && params.Valid()
      && s == State(params, s.feeds, prices, s.twap, miss, total, validatorOf, feederOf)
      && Stores.FeedsMatch(feedStore, s.feeds)
      && Stores.TwapMatch(twapStore, s.twap)
    }

    constructor (p: Params)
      requires p.Valid()
      ensures Valid() && s == State(p, map[], map[], map[], map[], map[], map[], map[])
    {
      params, feedStore, prices, twapStore := p, map[], map[], map[];
      miss, total, validatorOf, feederOf := map[], map[], map[], map[];
      s := State(p, map[], map[], map[], map[], map[], map[], map[]);
    }

    // ----- prices and samples

    method SetAggregatedPrice(pair: Pair, ap: AggregatedPrice)
      requires Valid()
      modifies this
      ensures Valid() && s == old(s).(prices := old(s).prices[pair := ap])
    {
      prices := prices[pair := ap];
      s := s.(prices := prices);
    }

    method AppendTwapEntry(pair: Pair, price: Dec, time: Time)
      requires Valid() && SLASH !in pair
      modifies this
      ensures Valid() && s == old(s).(twap := old(s).twap[SampleId(pair, time) := price])
    {
      twapStore := Stores.PutSample(twapStore, s.twap, pair, price, time);
      s := s.(twap := s.twap[SampleId(pair, time) := price]);
    }

    method PruneTwapOlderThan(pair: Pair, cutoff: int)
      requires Valid() && SLASH !in pair
      modifies this
      ensures Valid() && s == old(s).(twap := Stores.Pruned(old(s).twap, pair, cutoff))
    {
      twapStore := Stores.PruneOlderThan(twapStore, s.twap, pair, cutoff);
      s := s.(twap := Stores.Pruned(s.twap, pair, cutoff));
    }

    /** Walks back from the newest sample to the first one at or before the window, then averages. */
    method GetTwap(pair: Pair, now: Time, window: int) returns (q: Quote)
      requires Valid()
      ensures IsTwap(s, pair, now, window, q)
    {
      if pair !in params.acceptList {
        return PairNotAccepted;
      }
      AcceptedHasNoSlash(params, pair);
      ghost var w;
      q, w := QuoteWindow(twapStore, s.twap, pair, now, now - window, params.MaxAge());
    }

    method GetPrice(pair: Pair, now: Time) returns (r: Result<Dec, Error>)
      requires Valid()
      ensures r == OracleMsgs.GetPrice(s, pair, now)
    {
      if pair !in params.acceptList {
        return Err(ErrPairNotAccepted);
      }
      if pair !in prices {
        return Err(ErrNoPrice);
      }
      if now - prices[pair].time > params.MaxAge() {
        return Err(ErrStalePrice);
      }
      return Ok(prices[pair].price);
    }

    // ----- messages

    method SetFeederDelegation(val: Addr, feeder: Addr) returns (err: Result<(), Error>)
      requires Valid()
      modifies this
      ensures Valid()
      ensures match Delegate(old(s), val, feeder)
              case Ok(t) => err.Ok? && s == t
              case Err(e) => err == Err(e) && s == old(s)
    {
      if feeder in validatorOf && validatorOf[feeder] != val {
        return Err(ErrFeederAlreadyBound);
      }
      validatorOf := validatorOf[feeder := val];
      feederOf := feederOf[val := feeder];
      s := s.(validatorOf := validatorOf, feederOf := feederOf);
      return Ok(());
    }

    method SetFeeder(st: Staking, val: Addr, feeder: Addr) returns (err: Result<(), Error>)
      requires Valid()
      modifies this
      ensures Valid()
      ensures match OracleMsgs.SetFeeder(old(s), st, val, feeder)
              case Ok(t) => err.Ok? && s == t
              case Err(e) => err == Err(e) && s == old(s)
    {
      if val !in st.known {
        return Err(ErrNoValidator);
      }
      if !st.known[val] {
        return Err(ErrNotBondedValidator);
      }
      err := SetFeederDelegation(val, feeder);
    }

    method ResolveAuthorizedFeeder(val: Addr) returns (feeder: Addr)
      requires Valid()
      ensures feeder == AuthorizedFeeder(s, val)
    {
      if val in feederOf {
        return feederOf[val];
      }
      return val;
    }

    method SubmitFeed(st: Staking, height: nat, feeder: Addr, val: Addr, pair: Pair, price: Dec) returns (err: Result<(), Error>)
      requires Valid()
      modifies this
      ensures Valid()
      ensures match OracleMsgs.SubmitFeed(old(s), st, height, feeder, val, pair, price)
              case Ok(t) => err.Ok? && s == t
              case Err(e) => err == Err(e) && s == old(s)
    {
      if pair == [] {
        return Err(ErrInvalidPairFormat);
      }
      if price <= 0 {
        return Err(ErrInvalidPrice);
      }
      var authorized := ResolveAuthorizedFeeder(val);
      if authorized != feeder {
        return Err(ErrFeederNotAuthorized);
      }
      if pair !in params.acceptList {
        return Err(ErrPairNotAccepted);
      }
      if val !in st.known {
        return Err(ErrNoValidator);
      }
      if !st.known[val] || st.Power(val) == 0 {
        return Err(ErrNotBondedValidator);
      }
      feedStore := Stores.PutFeed(feedStore, s.feeds, FeedId(val, pair), Feed(price, height));
      s := s.(feeds := s.feeds[FeedId(val, pair) := Feed(price, height)]);
      return Ok(());
    }

    method UpdateParams(fromAuthority: bool, p: Params) returns (err: Result<(), Error>)
      requires Valid()
      modifies this
      ensures Valid()
      ensures match OracleMsgs.UpdateParams(old(s), fromAuthority, p)
              case Ok(t) => err.Ok? && s == t
              case Err(e) => err == Err(e) && s == old(s)
    {
      if !fromAuthority {
        return Err(ErrInvalidSigner);
      }
      var invalid := Validate(p);
      if invalid.Some? {
        return Err(invalid.value);
      }
      if params.acceptList != p.acceptList {
        miss, total := map[], map[];
      }
      params := p;
      s := s.(params := params, miss := miss, total := total);
      return Ok(());
    }

    // ----- the end of a block

    /** The ballots of a pair, and whether they reach the quorum. */
    method ReadBallots(pair: Pair, st: Staking, valByOper: map<Addr, Validator>)
      returns (live: bool, weighted: seq<WeightedPrice>)
      requires Valid() && IndexesValidators(valByOper, st) && pair in params.acceptList
      ensures live == Live(s, st, pair)
      ensures Lists(weighted, Ballots(s.feeds, st, pair)) && BallotsInOrder(weighted, pair) && (live ==> weighted != [])
    {
      var ids, visits := Stores.IterateAllFeeds(feedStore, s.feeds);
      var submittedPower;
      weighted, submittedPower := CollectBallots(s.feeds, ids, visits, pair, st, valByOper);
      assert |weighted| == 0 ==> Elements(weighted) == {};
      assert |weighted| > 0 ==> weighted[0] in Elements(weighted);
      live := |weighted| != 0 && QuorumMet(submittedPower, st.totalPower, params.quorumFraction);
    }

    /** Stores the price and its sample and prunes the pair's history. */
    method Publish(pair: Pair, median: Dec, height: nat, time: Time)
      requires Valid() && SLASH !in pair
      modifies this
      ensures Valid() && s == WithPrice(old(s), pair, median, height, time)
    {
      SetAggregatedPrice(pair, AggregatedPrice(median, height, time));
      AppendTwapEntry(pair, median, time);
      PruneTwapOlderThan(pair, time - DAY);
    }

    /** Aggregates one pair: price, sample and outlier slashes, if the submissions reach the quorum. */
    method AggregatePair(pair: Pair, st: Staking, valByOper: map<Addr, Validator>, height: nat, time: Time)
      returns (live: bool, calls: seq<SlashCall>, ghost m: Dec)
      requires Valid() && st.Ok() && IndexesValidators(valByOper, st) && pair in params.acceptList
      modifies this
      ensures Valid() && params == old(params)
      ensures PairAggregated(old(s), st, height, time, pair, live, m, s, calls)
    {
      ghost var s0 := s;
      var weighted;
      live, weighted := ReadBallots(pair, st, valByOper);
      calls, m := [], 0;
      if live {
        var median, refMedian := Medians(weighted, Ballots(s0.feeds, st, pair));
        m := median;
        AcceptedHasNoSlash(params, pair);
        Publish(pair, median, height, time);
        calls := SlashPair(s0, st, params, valByOper, pair, height, weighted, refMedian);
      }
    }

    /** Aggregates the accepted pairs in turn. */
    method AggregatePairs(st: Staking, valByOper: map<Addr, Validator>, height: nat, time: Time)
      returns (quorumLive: seq<Pair>, calls: seq<SlashCall>)
      requires Valid() && st.Ok() && IndexesValidators(valByOper, st)
      modifies this
      ensures Valid() && params == old(params)
      ensures AggregatedSoFar(old(s), st, height, time, old(params).acceptList, s, quorumLive, calls)
    {
      ghost var s0 := s;
      quorumLive, calls := [], [];
      for i := 0 to |params.acceptList|
        invariant Valid() && params == s0.params
        invariant AggregatedSoFar(s0, st, height, time, params.acceptList[..i], s, quorumLive, calls)
      {
        var pair := params.acceptList[i];
        ghost var s1, done := s, params.acceptList[..i];
        var live, more, m := AggregatePair(pair, st, valByOper, height, time);
        assert params.acceptList[..i + 1] == done + [pair];
        OnePairMore(s0, s1, st, height, time, done, pair, live, m, s, quorumLive, calls, more);
        if live {
          quorumLive := quorumLive + [pair];
        }
        calls := calls + more;
      }
      assert params.acceptList[..|params.acceptList|] == params.acceptList;
    }

    /** Aggregates every accepted pair. */
    method AggregateAll(st: Staking, valByOper: map<Addr, Validator>, height: nat, time: Time)
      returns (quorumLive: seq<Pair>, calls: seq<SlashCall>)
      requires Valid() && st.Ok() && IndexesValidators(valByOper, st)
      modifies this
      ensures Valid()
      ensures s == old(s).(prices := s.prices, twap := s.twap)
      ensures forall pair: Pair :: PriceAfter(old(s), st, height, time, s, pair)
      ensures forall id: SampleId :: SampleAfter(old(s), st, time, s, id)
      ensures ListsLive(quorumLive, old(s), st)
      ensures InOrder(old(s).params.acceptList, st, calls)
      ensures forall c: SlashCall :: c in calls <==> IsOutlierCall(old(s), st, height, c)
    {
      ghost var s0 := s;
      quorumLive, calls := AggregatePairs(st, valByOper, height, time);
      AllPairsDone(s0, st, height, time, params.acceptList, s, quorumLive, calls);
    }

    /** The pairs a validator has a feed for. */
    method SubmittedPairs(val: Addr) returns (pairs: set<Pair>)
      requires Valid()
      ensures forall pair: Pair :: pair in pairs <==> FeedId(val, pair) in s.feeds
    {
      var ids, _ := Stores.IterateAllFeeds(feedStore, s.feeds);
      pairs := {};
      for i := 0 to |ids|
        invariant forall pair: Pair :: pair in pairs <==> FeedId(val, pair) in ids[..i]
      {
        if ids[i].val == val {
          pairs := pairs + {ids[i].pair};
        }
      }
      assert ids[..|ids|] == ids;
      assert forall id :: id in Elements(ids) <==> id in s.feeds;
    }

    /** Whether the validator submitted every pair that reached the quorum. */
    method SubmittedAll(val: Addr, quorumLive: seq<Pair>, ghost s0: State, ghost st: Staking) returns (all: bool)
      requires Valid() && s0.feeds == s.feeds && ListsLive(quorumLive, s0, st)
      ensures all == !MissedWindow(s0, st, val)
    {
      var submitted := SubmittedPairs(val);
      for i := 0 to |quorumLive|
        invariant forall j :: 0 <= j < i ==> FeedId(val, quorumLive[j]) in s.feeds
      {
        if quorumLive[i] !in submitted {
          assert Live(s0, st, quorumLive[i]);
          return false;
        }
      }
      return true;
    }

    method IncTotalWindows(val: Addr) returns (count: nat)
      requires Valid()
      modifies this
      ensures Valid() && count == Count(old(s).total, val) + 1
      ensures s == old(s).(total := old(s).total[val := count])
    {
      count := Count(total, val) + 1;
      total := total[val := count];
      s := s.(total := total);
    }

    method IncMissCounter(val: Addr) returns (count: nat)
      requires Valid()
      modifies this
      ensures Valid() && count == Count(old(s).miss, val) + 1
      ensures s == old(s).(miss := old(s).miss[val := count])
    {
      count := Count(miss, val) + 1;
      miss := miss[val := count];
      s := s.(miss := miss);
    }

    /** Counts one more window, and one more miss if there was one. */
    method BumpCounters(val: Addr, missed: bool) returns (t: nat, m: nat)
      requires Valid()
      modifies this
      ensures Valid() && s == old(s).(miss := s.miss, total := s.total)
      ensures t == Count(old(s).total, val) + 1 && m == Count(old(s).miss, val) + (if missed then 1 else 0)
      ensures Count(s.total, val) == t && Count(s.miss, val) == m
      ensures SameForOthers(old(s), s, val)
    {
      t := IncTotalWindows(val);
      if missed {
        m := IncMissCounter(val);
      } else {
        m := Count(miss, val);
      }
    }

    method ResetValidatorWindows(val: Addr)
      requires Valid()
      modifies this
      ensures Valid() && s == old(s).(miss := old(s).miss - {val}, total := old(s).total - {val})
    {
      miss := miss - {val};
      total := total - {val};
      s := s.(miss := miss, total := total);
    }

    /** Counts the window for one validator, slashing and restarting the counters when it is due. */
    method CountWindow(v: Validator, st: Staking, quorumLive: seq<Pair>, height: nat, ghost s0: State)
      returns (calls: seq<SlashCall>)
      requires Valid() && st.Ok() && v in st.vals
      requires s0.feeds == s.feeds && s0.params == params
      requires Count(s.miss, v.oper) == Count(s0.miss, v.oper) && Count(s.total, v.oper) == Count(s0.total, v.oper)
      requires ListsLive(quorumLive, s0, st)
      modifies this
      ensures Valid() && s == old(s).(miss := s.miss, total := s.total)
      ensures CountersAfter(s0, st, s, v.oper)
      ensures SameForOthers(old(s), s, v.oper)
      ensures |calls| <= 1
      ensures forall c: SlashCall :: c in calls <==> IsMissCall(s0, st, height, c) && c.val == v.oper
    {
      var submittedAllLive := SubmittedAll(v.oper, quorumLive, s0, st);
      var t, m := BumpCounters(v.oper, !submittedAllLive);
      calls := CloseWindow(v, st, t, m, height, s0);
    }

    /** Once the miss window is full: slashes a repeat misser and restarts the counters. */
    method CloseWindow(v: Validator, st: Staking, t: nat, m: nat, height: nat, ghost s0: State)
      returns (calls: seq<SlashCall>)
      requires Valid() && st.Ok() && v in st.vals && st.Listed(v.oper) && s0.params == params
      requires t == TotalAfter(s0, v.oper) && m == MissAfter(s0, st, v.oper)
      requires Count(s.total, v.oper) == t && Count(s.miss, v.oper) == m
      modifies this
      ensures Valid() && s == old(s).(miss := s.miss, total := s.total)
      ensures CountersAfter(s0, st, s, v.oper)
      ensures SameForOthers(old(s), s, v.oper)
      ensures |calls| <= 1
      ensures forall c: SlashCall :: c in calls <==> IsMissCall(s0, st, height, c) && c.val == v.oper
    {
      calls := [];
      if t >= params.missWindowSize {
        calls := SlashRepeatMisser(v, st, params, t, m, height, s0);
        ResetValidatorWindows(v.oper);
      }
    }

    /** Counts the window for every listed validator. */
    method CountWindows(st: Staking, quorumLive: seq<Pair>, height: nat) returns (calls: seq<SlashCall>)
      requires Valid() && st.Ok()
      requires ListsLive(quorumLive, s, st)
      modifies this
      ensures Valid() && s == old(s).(miss := s.miss, total := s.total)
      ensures forall v: Addr :: CountersAfter(old(s), st, s, v)
      ensures InOrder(old(s).params.acceptList, st, calls)
      ensures forall c: SlashCall :: c in calls <==> IsMissCall(old(s), st, height, c)
    {
      ghost var s0 := s;
      calls := [];
      for i := 0 to |st.vals|
        invariant Valid() && s == s0.(miss := s.miss, total := s.total)
        invariant forall v: Addr :: CountersSoFar(s0, st, i, s, v)
        invariant InOrder(s0.params.acceptList, st, calls)
        invariant forall c: SlashCall :: c in calls <==> IsMissCall(s0, st, height, c) && ListedBefore(st, i, c.val)
      {
        var v := st.vals[i];
        ghost var s1 := s;
        assert CountersSoFar(s0, st, i, s1, v.oper);
        var more := CountWindow(v, st, quorumLive, height, s0);
        CountersAdd(s0, st, i, i + 1, s1, s);
        MissesAdd(s0, st, height, i, calls, more);
        calls := calls + more;
      }
      AllCounted(s0, st, s);
    }

    /** Runs at the end of every block; only a vote-window boundary does anything. */
    method EndBlocker(st: Staking, height: nat, time: Time) returns (log: seq<SlashCall>)
      requires Valid() && st.Ok()
      modifies this
      ensures Valid()
      ensures EndBlock(old(s), st, height, time, s, log)
    {
      if height % params.voteWindow != 0 {
        return [];
      }
      ghost var s0 := s;
      var valByOper := IndexValidators(st);
      var quorumLive, outliers := AggregateAll(st, valByOper, height, time);
      ghost var s1 := s;
      forall pair: Pair ensures Live(s1, st, pair) == Live(s0, st, pair) {
        SameWindow(s0, s1, st, pair);
      }
      var misses := CountWindows(st, quorumLive, height);
      ghost var s2 := s;
      feedStore := Stores.DeleteAllFeeds(feedStore, s.feeds);
      s := s.(feeds := map[]);
      log := outliers + misses;
      BoundaryDone(s0, s1, s2, s, st, height, time, outliers, misses);
    }
  }
}
