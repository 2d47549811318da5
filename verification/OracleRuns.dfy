/** Whole runs of x/oracle: messages, block ends and block starts in any order the chain allows,
    from any genesis. What holds in every reachable state, and over every run. */
module OracleRuns {
  import opened Bytes
  import opened Dec
  import opened Sums
  import opened Results
  import opened OracleKeys
  import opened OracleAggregate
  import opened OracleState
  import opened OracleTwap
  import Msgs = OracleMsgs
  import Messages = OracleMessages

  datatype Chain = Chain(state: State, height: nat, time: Time, ended: bool)

  datatype Event =
    | SetFeeder(st: Staking, val: Addr, feeder: Addr)
    | SubmitFeed(st: Staking, feeder: Addr, val: Addr, pair: Pair, price: Dec)
    | UpdateParams(fromAuthority: bool, p: Params)
    | EndOfBlock(st: Staking, log: seq<SlashCall>)
    | NextBlock(time: Time)

  /** A failed message leaves the state as it was. */
  function OrSame(s: State, r: Result<State, Msgs.Error>): State {
    match r
    case Ok(t) => t
    case Err(_) => s
  }

  ghost predicate Step(c: Chain, e: Event, c': Chain) {
    match e
    case SetFeeder(st, val, feeder) =>
      !c.ended && c' == c.(state := OrSame(c.state, Msgs.SetFeeder(c.state, st, val, feeder)))
    case SubmitFeed(st, feeder, val, pair, price) =>
      !c.ended && c' == c.(state := OrSame(c.state, Msgs.SubmitFeed(c.state, st, c.height, feeder, val, pair, price)))
    case UpdateParams(auth, p) =>
      !c.ended && c' == c.(state := OrSame(c.state, Msgs.UpdateParams(c.state, auth, p)))
    case EndOfBlock(st, log) =>
      && !c.ended && st.Ok() && c.state.params.Valid()
      && EndBlock(c.state, st, c.height, c.time, c'.state, log) && c' == c.(state := c'.state, ended := true)
    case NextBlock(time) =>
      c.ended && c.time <= time && c' == Chain(c.state, c.height + 1, time, false)
  }

  ghost predicate IsBoundary(c: Chain, e: Event) {
    e.EndOfBlock? && c.state.params.voteWindow > 0 && c.height % c.state.params.voteWindow == 0
  }

  /** A genesis: prices and delegations may be imported, everything else starts empty. */
  ghost predicate Initial(c: Chain) {
    && c.state.params.Valid()
    && c.state.feeds == map[] && c.state.twap == map[] && c.state.miss == map[] && c.state.total == map[]
    && PricesOk(c) && DelegationOk(c.state)
  }

  ghost predicate StepAt(cs: seq<Chain>, es: seq<Event>, i: int)
    requires |cs| == |es| + 1 && 0 <= i < |es|
  {
    Step(cs[i], es[i], cs[i + 1])
  }

  ghost predicate IsRun(cs: seq<Chain>, es: seq<Event>) {
    && |cs| == |es| + 1 && Initial(cs[0])
    && forall i :: 0 <= i < |es| ==> StepAt(cs, es, i)
  }

  // ----- the invariant

  ghost predicate PricesOk(c: Chain) {
    forall p :: p in c.state.prices ==> c.state.prices[p].price > 0 && c.state.prices[p].time <= c.time
  }

  /** No sample is newer than the pair's price, and the sample at the price's time is that price. */
  ghost predicate SampleOk(s: State, id: SampleId) {
    id in s.twap ==>
      && s.twap[id] > 0 && id.pair in s.prices && id.time <= s.prices[id.pair].time
      && SampleId(id.pair, s.prices[id.pair].time) in s.twap
      && s.twap[SampleId(id.pair, s.prices[id.pair].time)] == s.prices[id.pair].price
  }

  ghost predicate DelegationOk(s: State) {
    forall v :: v in s.feederOf ==> s.feederOf[v] in s.validatorOf && s.validatorOf[s.feederOf[v]] == v
  }

  ghost predicate FeedOk(c: Chain, id: FeedId) {
    id in c.state.feeds ==> c.state.feeds[id].price > 0 && c.state.feeds[id].height <= c.height
  }

  ghost predicate CountersOk(s: State, v: Addr) {
    Count(s.miss, v) <= Count(s.total, v)
  }

  ghost predicate Inv(c: Chain) {
    && c.state.params.Valid()
    && PricesOk(c)
    && (forall id: SampleId :: SampleOk(c.state, id))
    && DelegationOk(c.state)
    && (forall id: FeedId :: FeedOk(c, id))
    && (forall v: Addr :: CountersOk(c.state, v))
  }

  lemma BoundaryKeepsPrices(c: Chain, st: Staking, s': State, log: seq<SlashCall>)
    requires Inv(c) && Boundary(c.state, st, c.height, c.time, s', log)
    ensures PricesOk(c.(state := s'))
  {
    forall p | p in s'.prices ensures s'.prices[p].price > 0 && s'.prices[p].time <= c.time {
      assert PriceAfter(c.state, st, c.height, c.time, s', p);
      if Live(c.state, st, p) {
        PublishedIsSubmitted(c.state.feeds, st, p, s'.prices[p].price);
      }
    }
  }

  lemma BoundaryKeepsSamples(c: Chain, st: Staking, s': State, log: seq<SlashCall>, id: SampleId)
    requires Inv(c) && Boundary(c.state, st, c.height, c.time, s', log)
    ensures SampleOk(s', id)
  {
    if id in s'.twap {
      BoundaryKeepsPrices(c, st, s', log);
      assert SampleAfter(c.state, st, c.time, s', id);
      assert PriceAfter(c.state, st, c.height, c.time, s', id.pair);
      assert SampleOk(c.state, id);
      if Live(c.state, st, id.pair) {
        assert SampleAfter(c.state, st, c.time, s', SampleId(id.pair, c.time));
      } else {
        assert SampleAfter(c.state, st, c.time, s', SampleId(id.pair, c.state.prices[id.pair].time));
      }
    }
  }

  lemma StepKeepsInv(c: Chain, e: Event, c': Chain)
    requires Inv(c) && Step(c, e, c')
    ensures Inv(c')
  {
    if IsBoundary(c, e) {
      BoundaryKeepsPrices(c, e.st, c'.state, e.log);
      forall id: SampleId ensures SampleOk(c'.state, id) {
        BoundaryKeepsSamples(c, e.st, c'.state, e.log, id);
      }
      forall v: Addr ensures CountersOk(c'.state, v) {
        assert CountersOk(c.state, v);
        assert CountersAfter(c.state, e.st, c'.state, v);
      }
    } else {
      MessageKeepsInv(c, e, c');
    }
  }

  lemma OnlySetFeederBinds(c: Chain, e: Event, c': Chain)
    requires Step(c, e, c') && !e.SetFeeder?
    ensures c'.state.validatorOf == c.state.validatorOf && c'.state.feederOf == c.state.feederOf
  {
    match e
    case SubmitFeed(_, _, _, _, _) =>
    case UpdateParams(_, _) =>
    case EndOfBlock(_, _) =>
    case NextBlock(_) =>
  }

  lemma DelegationKept(c: Chain, e: Event, c': Chain)
    requires Step(c, e, c') && DelegationOk(c.state)
    ensures DelegationOk(c'.state)
  {
    if !e.SetFeeder? {
      OnlySetFeederBinds(c, e, c');
    }
  }

  lemma ClockAdvances(c: Chain, e: Event, c': Chain)
    requires Step(c, e, c')
    ensures c.height <= c'.height && c.time <= c'.time && (c.state.params.Valid() ==> c'.state.params.Valid())
  {
  }

  lemma FeedKept(c: Chain, e: Event, c': Chain, id: FeedId)
    requires Step(c, e, c') && c.state.params.Valid() && FeedOk(c, id)
    ensures FeedOk(c', id)
  {
    FeedAfterStep(c, e, c', id);
    ClockAdvances(c, e, c');
  }

  lemma MessageKeepsInv(c: Chain, e: Event, c': Chain)
    requires Inv(c) && Step(c, e, c') && !IsBoundary(c, e)
    ensures Inv(c')
  {
    ClockAdvances(c, e, c');
    DelegationKept(c, e, c');
    OnlyBoundariesPublish(c, e, c');
    forall id: SampleId ensures SampleOk(c'.state, id) {
      assert SampleOk(c.state, id);
    }
    forall id: FeedId ensures FeedOk(c', id) {
      assert FeedOk(c, id);
      FeedKept(c, e, c', id);
    }
    forall v: Addr ensures CountersOk(c'.state, v) {
      assert CountersOk(c.state, v);
      OnlyBoundariesCount(c, e, c', v);
    }
  }

  /** The invariant holds in every reachable state. */
  lemma {:induction false} InvHolds(cs: seq<Chain>, es: seq<Event>, n: nat)
    requires IsRun(cs, es) && n < |cs|
    ensures Inv(cs[n])
  {
    if n > 0 {
      InvHolds(cs, es, n - 1);
      assert StepAt(cs, es, n - 1);
      StepKeepsInv(cs[n - 1], es[n - 1], cs[n]);
    }
  }

  // ----- price readers

  ghost predicate EndsAt(w: seq<TwapEntry>, ap: AggregatedPrice) {
    w != [] && w[|w| - 1].time == ap.time && w[|w| - 1].price == ap.price
  }

  /** The window of a query in a reachable state ends with the pair's stored price, if it has samples at all. */
  lemma WindowEndsWithPrice(c: Chain, pair: Pair, start: int, w: seq<TwapEntry>)
    requires Inv(c) && IsWindow(w, c.state.twap, pair, c.time, start)
    ensures w == [] <==> forall t: Time :: SampleId(pair, t) !in c.state.twap
    ensures w != [] ==> pair in c.state.prices && EndsAt(w, c.state.prices[pair])
  {
    if w != [] {
      var last := w[|w| - 1];
      assert IsSample(last, c.state.twap, pair);
      assert SampleOk(c.state, SampleId(pair, last.time));
      NewestContributes(c, pair, start, last.time, w);
    } else if t: Time :| SampleId(pair, t) in c.state.twap {
      NewestContributes(c, pair, start, t, w);
    }
  }

  lemma NewestContributes(c: Chain, pair: Pair, start: int, t: Time, w: seq<TwapEntry>)
    requires Inv(c) && SampleId(pair, t) in c.state.twap
    requires IsWindow(w, c.state.twap, pair, c.time, start)
    ensures pair in c.state.prices && HasTime(w, c.state.prices[pair].time)
  {
    assert SampleOk(c.state, SampleId(pair, t));
    var newest := c.state.prices[pair].time;
    forall u: Time | SampleId(pair, u) in c.state.twap ensures u <= newest {
      assert SampleOk(c.state, SampleId(pair, u));
    }
    assert Contributes(c.state.twap, pair, c.time, start, newest);
  }

  /** Both readers look at the age of the same price. */
  lemma ReadersOfWindow(c: Chain, pair: Pair, start: int, w: seq<TwapEntry>)
    requires Inv(c) && pair in c.state.params.acceptList
    requires IsWindow(w, c.state.twap, pair, c.time, start) && EndsBy(w, c.time) && w != []
    ensures var q, r := QuoteOf(w, c.time, c.state.params.MaxAge()), Msgs.GetPrice(c.state, pair, c.time);
            (q.Price? <==> r.Ok?) && (q.Stale? <==> r == Err(Msgs.ErrStalePrice)) && !q.NoData?
  {
    WindowEndsWithPrice(c, pair, start, w);
  }

  /** In every reachable state the two readers accept and reject together once the pair has a sample;
      without one only the stored price can be read, and neither reads a pair that is not accepted. */
  lemma ReadersAgree(cs: seq<Chain>, es: seq<Event>, n: nat, pair: Pair, window: int, q: Quote)
    requires IsRun(cs, es) && n < |cs| && IsTwap(cs[n].state, pair, cs[n].time, window, q)
    ensures var r := Msgs.GetPrice(cs[n].state, pair, cs[n].time);
            if pair !in cs[n].state.params.acceptList then q == PairNotAccepted && r == Err(Msgs.ErrPairNotAccepted)
            else if exists t: Time :: SampleId(pair, t) in cs[n].state.twap then
              (q.Price? <==> r.Ok?) && (q.Stale? <==> r == Err(Msgs.ErrStalePrice)) && !q.NoData?
            else q == NoData
  {
    InvHolds(cs, es, n);
    var c := cs[n];
    if pair in c.state.params.acceptList {
      var w: seq<TwapEntry> :| IsWindow(w, c.state.twap, pair, c.time, c.time - window) && EndsBy(w, c.time)
            && q == QuoteOf(w, c.time, c.state.params.MaxAge());
      WindowEndsWithPrice(c, pair, c.time - window, w);
      if w != [] {
        ReadersOfWindow(c, pair, c.time - window, w);
      }
    }
  }

  // ----- publishing

  /** At a boundary a pair that reaches the quorum gets the median of its ballots, stamped with the block's height and
      time; otherwise, and at any other step, its record stays. */
  lemma PublishesExactly(cs: seq<Chain>, es: seq<Event>, n: nat, pair: Pair)
    requires IsRun(cs, es) && n < |es|
    ensures var c, s' := cs[n], cs[n + 1].state;
            if IsBoundary(c, es[n]) && QuorumReached(c.state, es[n].st, pair) then
              && pair in s'.prices && s'.prices[pair] == AggregatedPrice(s'.prices[pair].price, c.height, c.time)
              && IsPublished(Ballots(c.state.feeds, es[n].st, pair), s'.prices[pair].price)
            else (pair in s'.prices <==> pair in c.state.prices) && (pair in c.state.prices ==> s'.prices[pair] == c.state.prices[pair])
  {
    InvHolds(cs, es, n);
    assert StepAt(cs, es, n);
    if IsBoundary(cs[n], es[n]) {
      LiveExactly(cs[n].state, es[n].st, pair);
      assert PriceAfter(cs[n].state, es[n].st, cs[n].height, cs[n].time, cs[n + 1].state, pair);
    } else {
      OnlyBoundariesPublish(cs[n], es[n], cs[n + 1]);
    }
  }

  // ----- samples are the last day of publications

  /** The prices published for a pair over a run, by block time. */
  ghost function Publications(cs: seq<Chain>, es: seq<Event>, n: nat, pair: Pair): map<Time, Dec>
    requires |cs| == |es| + 1 && n <= |es|
  {
    if n == 0 then map[] else Published(cs[n - 1], es[n - 1], cs[n], pair, Publications(cs, es, n - 1, pair))
  }

  /** A boundary at which the pair is live adds one publication. */
  ghost function Published(c: Chain, e: Event, c': Chain, pair: Pair, before: map<Time, Dec>): map<Time, Dec> {
    if IsBoundary(c, e) && Live(c.state, e.st, pair) && pair in c'.state.prices
    then before[c.time := c'.state.prices[pair].price] else before
  }

  ghost predicate LastDayStored(c: Chain, pubs: map<Time, Dec>, pair: Pair) {
    && (pubs != map[] ==> pair in c.state.prices && c.state.prices[pair].time in pubs)
    && (forall t: Time :: t in pubs ==> pair in c.state.prices && t <= c.state.prices[pair].time)
    && (forall t: Time :: SampleId(pair, t) in c.state.twap <==>
                            t in pubs && pair in c.state.prices && t >= c.state.prices[pair].time - 86_400_000_000_000)
    && (forall t: Time :: SampleId(pair, t) in c.state.twap && t in pubs ==> c.state.twap[SampleId(pair, t)] == pubs[t])
  }

  /** What a boundary does to one pair's records, applied to its last day. */
  lemma BoundaryStoresLastDay(c: Chain, st: Staking, s': State, pubs: map<Time, Dec>, pair: Pair)
    requires PriceAfter(c.state, st, c.height, c.time, s', pair) && PricesOk(c) && LastDayStored(c, pubs, pair)
    requires forall t: Time :: SampleAfter(c.state, st, c.time, s', SampleId(pair, t))
    ensures LastDayStored(c.(state := s'), if Live(c.state, st, pair) && pair in s'.prices
                                           then pubs[c.time := s'.prices[pair].price] else pubs, pair)
  {
    forall t: Time ensures SampleAfter(c.state, st, c.time, s', SampleId(pair, t)) {
    }
  }

  /** A pair's stored samples are exactly its publications of the day before the latest one. */
  lemma {:induction false} SamplesAreLastDay(cs: seq<Chain>, es: seq<Event>, n: nat, pair: Pair)
    requires IsRun(cs, es) && n < |cs|
    ensures LastDayStored(cs[n], Publications(cs, es, n, pair), pair)
  {
    if n > 0 {
      SamplesAreLastDay(cs, es, n - 1, pair);
      InvHolds(cs, es, n - 1);
      assert StepAt(cs, es, n - 1);
      StepStoresLastDay(cs[n - 1], es[n - 1], cs[n], Publications(cs, es, n - 1, pair), pair);
    }
  }

  lemma StepStoresLastDay(c: Chain, e: Event, c': Chain, pubs: map<Time, Dec>, pair: Pair)
    requires Inv(c) && Step(c, e, c') && LastDayStored(c, pubs, pair)
    ensures LastDayStored(c', Published(c, e, c', pair, pubs), pair)
  {
    if IsBoundary(c, e) {
      forall t: Time ensures SampleAfter(c.state, e.st, c.time, c'.state, SampleId(pair, t)) {
      }
      BoundaryStoresLastDay(c, e.st, c'.state, pubs, pair);
      SameRecordsStoreLastDay(c.(state := c'.state), c', Published(c, e, c', pair, pubs), pair);
    } else {
      OnlyBoundariesPublish(c, e, c');
      SameRecordsStoreLastDay(c, c', pubs, pair);
    }
  }

  lemma OnlyBoundariesPublish(c: Chain, e: Event, c': Chain)
    requires Step(c, e, c') && !IsBoundary(c, e)
    ensures c'.state.prices == c.state.prices && c'.state.twap == c.state.twap
  {
    match e
    case EndOfBlock(_, _) => assert c'.state == c.state;
    case _ =>
  }

  lemma SameRecordsStoreLastDay(c: Chain, c': Chain, pubs: map<Time, Dec>, pair: Pair)
    requires c'.state.prices == c.state.prices && c'.state.twap == c.state.twap && LastDayStored(c, pubs, pair)
    ensures LastDayStored(c', pubs, pair)
  {
  }

  /** The stored price of a pair that was ever published is its latest publication. */
  lemma PriceIsLatestPublication(cs: seq<Chain>, es: seq<Event>, n: nat, pair: Pair)
    requires IsRun(cs, es) && n < |cs| && Publications(cs, es, n, pair) != map[]
    ensures var pubs := Publications(cs, es, n, pair);
            && pair in cs[n].state.prices && cs[n].state.prices[pair].time in pubs
            && (forall t :: t in pubs ==> t <= cs[n].state.prices[pair].time)
            && cs[n].state.prices[pair].price == pubs[cs[n].state.prices[pair].time]
  {
    SamplesAreLastDay(cs, es, n, pair);
    InvHolds(cs, es, n);
    var latest := cs[n].state.prices[pair].time;
    assert SampleOk(cs[n].state, SampleId(pair, latest));
  }

  // ----- miss counters

  /** For one validator, whether it missed each window since its counters last restarted. */
  ghost function History(cs: seq<Chain>, es: seq<Event>, n: nat, v: Addr): seq<bool>
    requires |cs| == |es| + 1 && n <= |es|
  {
    if n == 0 then []
    else
      var h := History(cs, es, n - 1, v);
      var c, e := cs[n - 1], es[n - 1];
      if IsBoundary(c, e) && e.st.Listed(v) then
        var h' := h + [LeftOut(c.state, e.st, v)];
        if |h'| >= c.state.params.missWindowSize then [] else h'
      else if ChangesAcceptList(c, e) then []
      else h
  }

  ghost predicate ChangesAcceptList(c: Chain, e: Event) {
    e.UpdateParams? && e.fromAuthority && e.p.Valid() && e.p.acceptList != c.state.params.acceptList
  }

  function AsCount(missed: bool): int {
    if missed then 1 else 0
  }

  ghost function Misses(h: seq<bool>): int {
    SumSeq(h, AsCount)
  }

  lemma OnlyBoundariesCount(c: Chain, e: Event, c': Chain, v: Addr)
    requires Step(c, e, c') && !IsBoundary(c, e)
    ensures Count(c'.state.total, v) == if ChangesAcceptList(c, e) then 0 else Count(c.state.total, v)
    ensures Count(c'.state.miss, v) == if ChangesAcceptList(c, e) then 0 else Count(c.state.miss, v)
  {
  }

  lemma BoundaryCounts(c: Chain, e: Event, c': Chain, v: Addr)
    requires Step(c, e, c') && IsBoundary(c, e)
    ensures CountersAfter(c.state, e.st, c'.state, v)
  {
  }

  ghost predicate CountsHistory(s: State, v: Addr, h: seq<bool>) {
    Count(s.total, v) == |h| && Count(s.miss, v) == Misses(h)
  }

  lemma BoundaryExtendsHistory(c: Chain, e: Event, c': Chain, v: Addr, h: seq<bool>)
    requires Step(c, e, c') && IsBoundary(c, e) && e.st.Listed(v) && CountsHistory(c.state, v, h)
    ensures var h' := h + [LeftOut(c.state, e.st, v)];
            CountsHistory(c'.state, v, if |h'| >= c.state.params.missWindowSize then [] else h')
  {
    BoundaryCounts(c, e, c', v);
    MissedExactly(c.state, e.st, v);
    SumSeqAppend(h, AsCount, MissedWindow(c.state, e.st, v));
  }

  /** In every reachable state a validator's counters count the windows, and the missed ones, of its history. */
  lemma {:induction false} CountersRefineHistory(cs: seq<Chain>, es: seq<Event>, n: nat, v: Addr)
    requires IsRun(cs, es) && n < |cs|
    ensures CountsHistory(cs[n].state, v, History(cs, es, n, v))
  {
    if n > 0 {
      var c, e, c', h := cs[n - 1], es[n - 1], cs[n], History(cs, es, n - 1, v);
      CountersRefineHistory(cs, es, n - 1, v);
      assert StepAt(cs, es, n - 1);
      if IsBoundary(c, e) && e.st.Listed(v) {
        BoundaryExtendsHistory(c, e, c', v, h);
      } else if IsBoundary(c, e) {
        BoundaryCounts(c, e, c', v);
      } else {
        OnlyBoundariesCount(c, e, c', v);
      }
    }
  }

  /** x/slashing will take the validator: it has a consensus address and power. */
  ghost predicate CanBeSlashed(st: Staking, v: Addr) {
    && v in st.power && st.power[v] > 0
    && exists i :: 0 <= i < |st.vals| && st.vals[i].oper == v && st.vals[i].hasConsAddr
  }

  /** The share m / t of missed windows, in whole numbers, that the twice-rounded test lets pass no longer. */
  ghost predicate TooMany(m: int, t: int, threshold: Dec) {
    m * ONE * ONE >= ((threshold + 1) * ONE - ONE / 2 + (threshold + 1) % 2) * t
  }

  lemma TooManyExactly(m: nat, t: nat, threshold: nat)
    requires t > 0
    ensures Quo(FromInt(m), FromInt(t)) > threshold <==> TooMany(m, t, threshold)
  {
    QuoReachesInt(FromInt(m), t, threshold + 1);
  }

  /** At a boundary x/slashing is called for misses, at the miss rate and the validator's power, exactly when the
      validator can be slashed, its history is full and holds too large a share of misses; and in no other way. */
  lemma MissSlashExactly(cs: seq<Chain>, es: seq<Event>, n: nat, v: Addr)
    requires IsRun(cs, es) && n < |es| && IsBoundary(cs[n], es[n])
    ensures var st, p := es[n].st, cs[n].state.params;
            var call := SlashCall(v, p.missSlashRate, st.Power(v), cs[n].height, Missed);
            var h := History(cs, es, n, v) + [LeftOut(cs[n].state, st, v)];
            && (call in es[n].log <==> CanBeSlashed(st, v) && |h| >= p.missWindowSize && TooMany(Misses(h), |h|, p.missThreshold))
            && (forall c :: c in es[n].log && c.val == v && c.cause == Missed ==> c == call)
  {
    var s, st := cs[n].state, es[n].st;
    InvHolds(cs, es, n);
    CountersRefineHistory(cs, es, n, v);
    MissedExactly(s, st, v);
    SumSeqAppend(History(cs, es, n, v), AsCount, MissedWindow(s, st, v));
    assert StepAt(cs, es, n);
    TooManyExactly(MissAfter(s, st, v), TotalAfter(s, v), s.params.missThreshold);
    MissCallFor(s, st, cs[n].height, es[n].log, v);
  }

  lemma MissCallFor(s: State, st: Staking, height: nat, log: seq<SlashCall>, v: Addr)
    requires SlashesAre(s, st, height, log)
    ensures var call := SlashCall(v, s.params.missSlashRate, st.Power(v), height, Missed);
            && (call in log <==> CanBeSlashed(st, v) && MissesTooMuch(s, st, v))
            && (forall c :: c in log && c.val == v && c.cause == Missed ==> c == call)
  {
    var call := SlashCall(v, s.params.missSlashRate, st.Power(v), height, Missed);
    assert call in log <==> IsMissCall(s, st, height, call);
    assert st.Slashable(v) ==> st.Listed(v);
    forall c | c in log && c.val == v && c.cause == Missed ensures c == call {
      assert IsMissCall(s, st, height, c);
    }
  }

  /** At a boundary x/slashing is called for an outlier of a pair, at the outlier rate and the validator's power,
      exactly when the pair reaches the quorum, the validator submits it, can be slashed, and its price is too far, above
      or below, from the reference; and in no other way. */
  lemma OutlierSlashExactly(cs: seq<Chain>, es: seq<Event>, n: nat, pair: Pair, v: Addr, ref: Dec)
    requires IsRun(cs, es) && n < |es| && IsBoundary(cs[n], es[n])
    requires IsReference(Ballots(cs[n].state.feeds, es[n].st, pair), ref)
    ensures var s, st := cs[n].state, es[n].st;
            var call := SlashCall(v, s.params.outlierSlashRate, st.Power(v), cs[n].height, Outlier(pair));
            && (call in es[n].log <==>
                  && QuorumReached(s, st, pair) && Submitter(s.feeds, st, pair, v) && CanBeSlashed(st, v)
                  && TooFar(s.feeds[FeedId(v, pair)].price, ref, s.params.outlierThreshold))
            && (forall c :: c in es[n].log && c.val == v && c.cause == Outlier(pair) ==> c == call)
  {
    var s, st := cs[n].state, es[n].st;
    InvHolds(cs, es, n);
    assert StepAt(cs, es, n);
    LiveExactly(s, st, pair);
    SubmittersExactly(s.feeds, st, pair);
    OutlierCallFor(s, st, cs[n].height, es[n].log, pair, v, ref);
  }

  lemma OutlierCallFor(s: State, st: Staking, height: nat, log: seq<SlashCall>, pair: Pair, v: Addr, ref: Dec)
    requires SlashesAre(s, st, height, log) && s.params.Valid() && IsReference(Ballots(s.feeds, st, pair), ref)
    ensures var call := SlashCall(v, s.params.outlierSlashRate, st.Power(v), height, Outlier(pair));
            && (call in log <==> && Live(s, st, pair) && Counts(s.feeds, st, pair, v) && CanBeSlashed(st, v)
                                 && TooFar(s.feeds[FeedId(v, pair)].price, ref, s.params.outlierThreshold))
            && (forall c :: c in log && c.val == v && c.cause == Outlier(pair) ==> c == call)
  {
    var call := SlashCall(v, s.params.outlierSlashRate, st.Power(v), height, Outlier(pair));
    assert call in log <==> IsOutlierCall(s, st, height, call);
    ReferenceIsSubmitted(s.feeds, st, pair, ref);
    if Counts(s.feeds, st, pair, v) {
      var price := s.feeds[FeedId(v, pair)].price;
      DeviatesExactly(price, ref, s.params.outlierThreshold);
      forall r | IsReference(Ballots(s.feeds, st, pair), r) ensures r == ref {
        ReferenceUnique(Ballots(s.feeds, st, pair), ref, r);
      }
    }
    forall c | c in log && c.val == v && c.cause == Outlier(pair) ensures c == call {
      assert IsOutlierCall(s, st, height, c);
    }
  }

  /** At every boundary of the run the validator has a feed for every accepted pair. */
  ghost predicate Diligent(cs: seq<Chain>, es: seq<Event>, v: Addr)
    requires |cs| == |es| + 1
  {
    forall i, pair: Pair :: 0 <= i < |es| && IsBoundary(cs[i], es[i]) && pair in cs[i].state.params.acceptList
                        ==> FeedId(v, pair) in cs[i].state.feeds
  }

  /** A validator that submits every accepted pair in every window is never slashed for misses. */
  lemma DiligentNeverSlashed(cs: seq<Chain>, es: seq<Event>, n: nat, v: Addr)
    requires IsRun(cs, es) && Diligent(cs, es, v) && n < |es| && es[n].EndOfBlock?
    ensures forall c :: c in es[n].log && c.val == v ==> !c.cause.Missed?
  {
    var s, st := cs[n].state, es[n].st;
    assert StepAt(cs, es, n);
    if IsBoundary(cs[n], es[n]) {
      InvHolds(cs, es, n);
      DiligentHasNoMisses(cs, es, n, v);
      assert !MissedWindow(s, st, v);
      forall c | c in es[n].log && c.val == v ensures !c.cause.Missed? {
        assert IsMissCall(s, st, cs[n].height, c) ==> MissesTooMuch(s, st, v);
        QuoAtMost(0, FromInt(TotalAfter(s, v)), 0);
      }
    }
  }

  lemma {:induction false} DiligentHasNoMisses(cs: seq<Chain>, es: seq<Event>, n: nat, v: Addr)
    requires IsRun(cs, es) && Diligent(cs, es, v) && n < |cs|
    ensures Count(cs[n].state.miss, v) == 0
  {
    if n > 0 {
      DiligentHasNoMisses(cs, es, n - 1, v);
      assert StepAt(cs, es, n - 1);
      if IsBoundary(cs[n - 1], es[n - 1]) {
        BoundaryCounts(cs[n - 1], es[n - 1], cs[n], v);
      } else {
        OnlyBoundariesCount(cs[n - 1], es[n - 1], cs[n], v);
      }
    }
  }

  // ----- who can feed

  /** A feed appears or changes in a step exactly when the validator's authorized feeder submits it: a positive price
      for an accepted pair, for a bonded validator with power, stamped with the current height. */
  lemma FeedsOnlyFromAuthorized(c: Chain, e: Event, c': Chain, id: FeedId)
    requires Step(c, e, c') && id in c'.state.feeds && !(id in c.state.feeds && c.state.feeds[id] == c'.state.feeds[id])
    ensures e.SubmitFeed? && e.val == id.val && e.pair == id.pair && c'.state.feeds[id] == Feed(e.price, c.height)
    ensures e.feeder == Msgs.AuthorizedFeeder(c.state, id.val) && e.price > 0
    ensures id.pair in c.state.params.acceptList && id.val in e.st.known && e.st.known[id.val] && e.st.Power(id.val) > 0
  {
    match e
    case SetFeeder(_, _, _) =>
    case SubmitFeed(_, _, _, _, _) =>
    case UpdateParams(_, _) =>
    case EndOfBlock(_, _) =>
    case NextBlock(_) =>
  }

  // ----- window discipline

  /** Every stored feed was submitted after the last boundary, so no boundary reads a feed another one read. */
  lemma {:induction false} FeedsAreFromThisWindow(cs: seq<Chain>, es: seq<Event>, k: nat, n: nat, id: FeedId)
    requires IsRun(cs, es) && k < n < |cs| && IsBoundary(cs[k], es[k]) && id in cs[n].state.feeds
    ensures cs[k].height < cs[n].state.feeds[id].height <= cs[n].height
  {
    InvHolds(cs, es, n);
    assert FeedOk(cs[n], id);
    assert StepAt(cs, es, n - 1);
    if n > k + 1 {
      MessagesAfterBoundary(cs, es, k, n - 1);
      if id in cs[n - 1].state.feeds {
        FeedsAreFromThisWindow(cs, es, k, n - 1, id);
      }
    }
  }

  /** Messages after a boundary belong to a later block. */
  lemma {:induction false} MessagesAfterBoundary(cs: seq<Chain>, es: seq<Event>, k: nat, n: nat)
    requires IsRun(cs, es) && k < n < |cs| && IsBoundary(cs[k], es[k])
    ensures cs[k].height <= cs[n].height && (cs[n].ended || cs[k].height < cs[n].height)
  {
    assert StepAt(cs, es, n - 1);
    if n > k + 1 {
      MessagesAfterBoundary(cs, es, k, n - 1);
    }
  }

  /** Event e, in chain c, is a valid submission for the validator and pair. */
  ghost predicate Accepted(c: Chain, e: Event, id: FeedId) {
    && e.SubmitFeed? && e.val == id.val && e.pair == id.pair
    && Messages.ValidSubmission(c.state, e.st, e.feeder, e.val, e.pair, e.price)
  }

  /** The feed accepted by event k. */
  ghost predicate FeedOf(cs: seq<Chain>, es: seq<Event>, k: int, id: FeedId, f: Feed)
    requires |cs| == |es| + 1 && 0 <= k < |es|
  {
    Accepted(cs[k], es[k], id) && f == Feed(es[k].price, cs[k].height)
  }

  /** The latest accepted submission for the validator and pair that no boundary has followed yet. */
  ghost function Waiting(cs: seq<Chain>, es: seq<Event>, n: nat, id: FeedId): Option<nat>
    requires |cs| == |es| + 1 && n <= |es|
  {
    if n == 0 || IsBoundary(cs[n - 1], es[n - 1]) then None
    else if Accepted(cs[n - 1], es[n - 1], id) then Some(n - 1)
    else Waiting(cs, es, n - 1, id)
  }

  ghost predicate StoresWaiting(cs: seq<Chain>, es: seq<Event>, n: nat, id: FeedId)
    requires |cs| == |es| + 1 && n <= |es|
  {
    var w := Waiting(cs, es, n, id);
    && (id in cs[n].state.feeds <==> w.Some?)
    && (w.Some? ==> w.value < n && FeedOf(cs, es, w.value, id, cs[n].state.feeds[id]))
  }

  lemma FeedAfterStep(c: Chain, e: Event, c': Chain, id: FeedId)
    requires Step(c, e, c') && c.state.params.Valid()
    ensures IsBoundary(c, e) ==> id !in c'.state.feeds
    ensures Accepted(c, e, id) ==> id in c'.state.feeds && c'.state.feeds[id] == Feed(e.price, c.height)
    ensures !IsBoundary(c, e) && !Accepted(c, e, id) ==>
              (id in c'.state.feeds <==> id in c.state.feeds)
              && (id in c.state.feeds ==> c'.state.feeds[id] == c.state.feeds[id])
  {
    if e.SubmitFeed? {
      FeedAfterSubmission(c, e, c', id);
    } else {
      OnlySubmissionsFeed(c, e, c');
    }
  }

  lemma FeedAfterSubmission(c: Chain, e: Event, c': Chain, id: FeedId)
    requires Step(c, e, c') && e.SubmitFeed? && c.state.params.Valid()
    ensures if Accepted(c, e, id) then id in c'.state.feeds && c'.state.feeds[id] == Feed(e.price, c.height)
            else (id in c'.state.feeds <==> id in c.state.feeds) && (id in c.state.feeds ==> c'.state.feeds[id] == c.state.feeds[id])
  {
    var r := Msgs.SubmitFeed(c.state, e.st, c.height, e.feeder, e.val, e.pair, e.price);
    Messages.SubmitFeedExactly(c.state, e.st, c.height, e.feeder, e.val, e.pair, e.price);
    if r.Ok? {
      assert Messages.FeedWritten(c.state.feeds, r.value.feeds, id, FeedId(e.val, e.pair), Feed(e.price, c.height));
    }
  }

  lemma OnlySubmissionsFeed(c: Chain, e: Event, c': Chain)
    requires Step(c, e, c') && !e.SubmitFeed?
    ensures c'.state.feeds == if IsBoundary(c, e) then map[] else c.state.feeds
  {
    match e
    case SetFeeder(_, _, _) =>
    case UpdateParams(_, _) =>
    case EndOfBlock(_, _) =>
    case NextBlock(_) =>
  }

  /** In every reachable state the stored feeds are exactly the waiting submissions, with their price and height. */
  lemma {:induction false} FeedsAreWaiting(cs: seq<Chain>, es: seq<Event>, n: nat, id: FeedId)
    requires IsRun(cs, es) && n < |cs|
    ensures StoresWaiting(cs, es, n, id)
  {
    if n > 0 {
      FeedsAreWaiting(cs, es, n - 1, id);
      InvHolds(cs, es, n - 1);
      assert StepAt(cs, es, n - 1);
      FeedAfterStep(cs[n - 1], es[n - 1], cs[n], id);
    }
  }

  /** A submission waits exactly until a boundary or a later submission of the same validator and pair. */
  lemma {:induction false} WaitingExactly(cs: seq<Chain>, es: seq<Event>, k: nat, n: nat, id: FeedId)
    requires |cs| == |es| + 1 && k < n <= |es| && Accepted(cs[k], es[k], id)
    ensures Waiting(cs, es, n, id) == Some(k) <==>
            forall i :: k < i < n ==> !IsBoundary(cs[i], es[i]) && !Accepted(cs[i], es[i], id)
    decreases n
  {
    if k + 1 < n {
      WaitingExactly(cs, es, k, n - 1, id);
      NotWaitingAfter(cs, es, n - 1, id);
    }
  }

  lemma {:induction false} NotWaitingAfter(cs: seq<Chain>, es: seq<Event>, n: nat, id: FeedId)
    requires |cs| == |es| + 1 && n <= |es|
    ensures Waiting(cs, es, n, id).Some? ==> Waiting(cs, es, n, id).value < n
  {
    if n > 0 {
      NotWaitingAfter(cs, es, n - 1, id);
    }
  }

  /** Boundary n aggregates the submission of event k. */
  ghost predicate Reads(cs: seq<Chain>, es: seq<Event>, n: nat, k: nat, id: FeedId)
    requires |cs| == |es| + 1 && n < |es|
  {
    IsBoundary(cs[n], es[n]) && Waiting(cs, es, n, id) == Some(k)
  }

  /** Boundary n reads it for an accepted pair, and its price, weighted by the validator's power, is one of the
      pair's ballots. */
  ghost predicate Aggregates(cs: seq<Chain>, es: seq<Event>, n: nat, k: nat, id: FeedId)
    requires |cs| == |es| + 1 && n < |es| && k < |es|
  {
    && Reads(cs, es, n, k, id) && id.pair in cs[n].state.params.acceptList && es[k].SubmitFeed?
    && WeightedPrice(es[k].price, es[n].st.Power(id.val), id.val) in Ballots(cs[n].state.feeds, es[n].st, id.pair)
  }

  /** No later submission of the same validator and pair comes before event n. */
  ghost predicate NotReplaced(cs: seq<Chain>, es: seq<Event>, k: nat, n: nat, id: FeedId)
    requires |cs| == |es| + 1 && n <= |es|
  {
    forall i :: k < i < n ==> !Accepted(cs[i], es[i], id)
  }

  /** The first boundary after an accepted submission reads it, with its price, exactly when the validator has not
      replaced it by then; it then counts exactly when the pair is still accepted and the validator is bonded with power;
      and no other boundary of the run ever reads it. */
  lemma AggregatedOnce(cs: seq<Chain>, es: seq<Event>, k: nat, n: nat, m: nat, id: FeedId)
    requires IsRun(cs, es) && k < n < |es| && m < |es| && Accepted(cs[k], es[k], id)
    requires IsBoundary(cs[n], es[n]) && forall i :: k < i < n ==> !IsBoundary(cs[i], es[i])
    ensures Reads(cs, es, n, k, id) <==> NotReplaced(cs, es, k, n, id)
    ensures Reads(cs, es, n, k, id) ==> id in cs[n].state.feeds && FeedOf(cs, es, k, id, cs[n].state.feeds[id])
    ensures Aggregates(cs, es, n, k, id) <==>
            && NotReplaced(cs, es, k, n, id) && id.pair in cs[n].state.params.acceptList
            && es[n].st.Bonded(id.val) && es[n].st.Power(id.val) > 0
    ensures Reads(cs, es, m, k, id) ==> m == n
  {
    WaitingExactly(cs, es, k, n, id);
    FeedsAreWaiting(cs, es, n, id);
    NotWaitingAfter(cs, es, m, id);
    if k < m {
      WaitingExactly(cs, es, k, m, id);
    }
    if Reads(cs, es, n, k, id) {
      BallotExactly(cs[n].state.feeds, es[n].st, id.pair, id.val, es[k].price);
    }
  }

  /** Until a boundary comes a feed stays as it is, or is replaced by a later submission of the same validator and
      pair. */
  lemma {:induction false} FeedsWaitForBoundary(cs: seq<Chain>, es: seq<Event>, k: nat, n: nat, id: FeedId)
    requires IsRun(cs, es) && k <= n < |cs| && id in cs[k].state.feeds
    requires forall i :: k <= i < n ==> !IsBoundary(cs[i], es[i])
    ensures id in cs[n].state.feeds
    ensures cs[n].state.feeds[id] == cs[k].state.feeds[id]
            || exists i :: k <= i < n && FeedOf(cs, es, i, id, cs[n].state.feeds[id])
    decreases n
  {
    if k < n {
      FeedsWaitForBoundary(cs, es, k, n - 1, id);
      InvHolds(cs, es, n - 1);
      assert StepAt(cs, es, n - 1);
      FeedAfterStep(cs[n - 1], es[n - 1], cs[n], id);
      assert Accepted(cs[n - 1], es[n - 1], id) ==> FeedOf(cs, es, n - 1, id, cs[n].state.feeds[id]);
    }
  }

  // ----- feeder delegation

  lemma BindingStays(c: Chain, e: Event, c': Chain, feeder: Addr)
    requires Step(c, e, c') && feeder in c.state.validatorOf
    ensures feeder in c'.state.validatorOf && c'.state.validatorOf[feeder] == c.state.validatorOf[feeder]
  {
    if !e.SetFeeder? {
      OnlySetFeederBinds(c, e, c');
    }
  }

  /** A feeder, once bound, stays bound to the same validator. */
  lemma {:induction false} BindingsArePermanent(cs: seq<Chain>, es: seq<Event>, k: nat, n: nat, feeder: Addr)
    requires IsRun(cs, es) && k <= n < |cs| && feeder in cs[k].state.validatorOf
    ensures feeder in cs[n].state.validatorOf && cs[n].state.validatorOf[feeder] == cs[k].state.validatorOf[feeder]
    decreases n
  {
    if k < n {
      BindingsArePermanent(cs, es, k, n - 1, feeder);
      assert StepAt(cs, es, n - 1);
      BindingStays(cs[n - 1], es[n - 1], cs[n], feeder);
    }
  }

  /** No two validators have the same explicit feeder. */
  lemma ExplicitFeedersDiffer(cs: seq<Chain>, es: seq<Event>, n: nat, a: Addr, b: Addr)
    requires IsRun(cs, es) && n < |cs| && a in cs[n].state.feederOf && b in cs[n].state.feederOf && a != b
    ensures cs[n].state.feederOf[a] != cs[n].state.feederOf[b]
  {
    InvHolds(cs, es, n);
  }

  /** An account feeds for two validators exactly when it is the operator account of one that never
      delegated and the delegated feeder of the other. */
  lemma SharedFeederExactly(cs: seq<Chain>, es: seq<Event>, n: nat, a: Addr, b: Addr)
    requires IsRun(cs, es) && n < |cs| && a != b
    ensures var s := cs[n].state;
            Msgs.AuthorizedFeeder(s, a) == Msgs.AuthorizedFeeder(s, b) <==>
              || (a !in s.feederOf && b in s.feederOf && s.feederOf[b] == a)
              || (b !in s.feederOf && a in s.feederOf && s.feederOf[a] == b)
  {
    InvHolds(cs, es, n);
    var s := cs[n].state;
    if a in s.feederOf && b in s.feederOf {
      ExplicitFeedersDiffer(cs, es, n, a, b);
    }
  }

  /** It happens: from a genesis without delegations, b delegates to a's operator account. */
  lemma SharedFeederReached(c: Chain, c': Chain, st: Staking, a: Addr, b: Addr)
    requires Initial(c) && !c.ended && c.state.validatorOf == map[] && c.state.feederOf == map[]
    requires a != b && b in st.known && st.known[b]
    requires c' == c.(state := c.state.(validatorOf := map[a := b], feederOf := map[b := a]))
    ensures IsRun([c, c'], [SetFeeder(st, b, a)])
    ensures Msgs.AuthorizedFeeder(c'.state, a) == Msgs.AuthorizedFeeder(c'.state, b) == a
  {
    assert StepAt([c, c'], [SetFeeder(st, b, a)], 0);
  }

  // ----- safety of honest validators

  /** Stake of the ballots inside an interval. */
  ghost function PowerWithin(ballots: set<WeightedPrice>, lo: Dec, hi: Dec): int {
    SumSet(ballots, Within(lo, hi))
  }

  /** If more than half the submitted power, rounded up, reports inside an interval, the published price is in it. */
  lemma PublishedRobust(s: State, st: Staking, height: nat, time: Time, s': State, pair: Pair, lo: Dec, hi: Dec)
    requires PriceAfter(s, st, height, time, s', pair) && Live(s, st, pair)
    requires var b := Ballots(s.feeds, st, pair); PowerWithin(b, lo, hi) > BallotPower(b) - BallotPower(b) / 2
    ensures pair in s'.prices && lo <= s'.prices[pair].price <= hi
  {
    var b := Ballots(s.feeds, st, pair);
    var m := s'.prices[pair].price;
    var es: seq<WeightedPrice> :| Lists(es, b) && IsStakeMedian(es, m);
    SumListing(es, Weight);
    SumListing(es, Within(lo, hi));
    StakeMedianRobust(es, m, lo, hi);
  }

  function InBand(lo: Dec, hi: Dec): WeightedPrice -> int {
    (e: WeightedPrice) => if lo <= e.price <= hi then 1 else 0
  }

  lemma CountInBand(es: seq<WeightedPrice>, lo: Dec, hi: Dec)
    ensures SumSeq(PricesOf(es), CountIn(lo, hi)) == SumSeq(es, InBand(lo, hi))
  {
    SumOverPrices(es, CountIn(lo, hi), InBand(lo, hi));
  }

  /** If most of the counted validators report within a band no wider than the threshold allows at its
      lower end, none of them is slashed as an outlier for that pair, whatever the others report or weigh. */
  lemma HonestMajorityNotSlashed(s: State, st: Staking, height: nat, log: seq<SlashCall>,
                                 pair: Pair, lo: Dec, hi: Dec, c: SlashCall)
    requires SlashesAre(s, st, height, log) && s.params.Valid()
    requires 0 < lo <= hi && (hi - lo) * ONE <= s.params.outlierThreshold * lo
    requires var b := Ballots(s.feeds, st, pair); 2 * SumSet(b, InBand(lo, hi)) > |b|
    requires c in log && c.cause == Outlier(pair)
    ensures FeedId(c.val, pair) in s.feeds && !(lo <= s.feeds[FeedId(c.val, pair)].price <= hi)
  {
    assert IsOutlierCall(s, st, height, c);
    var b := Ballots(s.feeds, st, pair);
    var price := s.feeds[FeedId(c.val, pair)].price;
    var ref :| IsReference(b, ref) && Deviates(price, ref, s.params.outlierThreshold);
    var es: seq<WeightedPrice> :| Lists(es, b) && IsCountMedian(PricesOf(es), ref);
    SumListing(es, InBand(lo, hi));
    CountInBand(es, lo, hi);
    ListingCard(es);
    CountMedianRobust(PricesOf(es), ref, lo, hi);
    if lo <= price <= hi {
      WithinBand(price, ref, lo, hi, s.params.outlierThreshold);
    }
  }

  lemma WithinBand(price: Dec, ref: Dec, lo: Dec, hi: Dec, threshold: Dec)
    requires 0 < lo && lo <= price <= hi && lo <= ref <= hi && 0 <= threshold
    requires (hi - lo) * ONE <= threshold * lo
    ensures !Deviates(price, ref, threshold)
  {
    MulMono(lo, ref, threshold);
    QuoAtMost(Abs(price - ref), ref, threshold);
  }

  // ----- the published invariant of the module

  /** The module's registered invariant: every stored price is accept-listed and positive. */
  ghost predicate PricesInvariant(s: State) {
    forall p :: p in s.prices ==> p in s.params.acceptList && s.prices[p].price > 0
  }

  /** A step keeps the registered invariant except for one kind: a parameter update that drops a stored pair. */
  lemma PricesInvariantKeptExactly(cs: seq<Chain>, es: seq<Event>, n: nat)
    requires IsRun(cs, es) && n < |es| && PricesInvariant(cs[n].state)
    ensures PricesInvariant(cs[n + 1].state) <==>
            !(es[n].UpdateParams? && es[n].fromAuthority && es[n].p.Valid()
              && exists p :: p in cs[n].state.prices && p !in es[n].p.acceptList)
  {
    InvHolds(cs, es, n);
    InvHolds(cs, es, n + 1);
    var c, e, c' := cs[n], es[n], cs[n + 1];
    assert StepAt(cs, es, n);
    if IsBoundary(c, e) {
      forall p | p in c'.state.prices ensures p in c'.state.params.acceptList {
        assert PriceAfter(c.state, e.st, c.height, c.time, c'.state, p);
      }
    }
  }

  /** It happens: the authority's new accept list leaves out a pair whose price is stored. */
  lemma PricesInvariantBroken(c: Chain, c': Chain, pair: Pair, p: Params)
    requires Initial(c) && !c.ended && PricesInvariant(c.state) && pair in c.state.prices
    requires p.Valid() && pair !in p.acceptList
    requires c' == c.(state := OrSame(c.state, Msgs.UpdateParams(c.state, true, p)))
    ensures IsRun([c, c'], [UpdateParams(true, p)]) && !PricesInvariant(c'.state)
  {
    assert StepAt([c, c'], [UpdateParams(true, p)], 0);
  }
}
