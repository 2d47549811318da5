/** The records x/oracle keeps, and what one vote-window boundary does to them, stated
    record by record rather than as an algorithm. */
module OracleState {
  import opened Bytes
  import opened Dec
  import opened Sums
  import opened OracleKeys
  import opened OracleAggregate

  const SECOND: int := 1_000_000_000
  const DAY: int := 24 * 3600 * SECOND

  // ----- parameters

  predicate UpperOrDigit(b: Byte) {
    48 <= b <= 57 || 65 <= b <= 90
  }

  /** BASE:QUOTE, both sides non-empty upper-case letters or digits. */
  predicate PairOk(p: Pair) {
    exists c :: 0 < c < |p| - 1 && p[c] == 58 && forall i :: 0 <= i < |p| && i != c ==> UpperOrDigit(p[i])
  }

  predicate InOpenClosedUnit(d: Dec) {
    0 < d <= ONE
  }

  /** Slash rates stay under the 5% double-sign ceiling. */
  predicate SlashRateOk(d: Dec) {
    0 <= d < ONE / 20
  }

  datatype Params = Params(
    voteWindow: int, missThreshold: Dec, missSlashRate: Dec, outlierSlashRate: Dec, outlierThreshold: Dec,
    missWindowSize: int, quorumFraction: Dec, maxPriceAge: int, acceptList: seq<Pair>)
  {
    predicate Valid() {
      && voteWindow > 0 && missWindowSize > 0 && maxPriceAge > 0
      && InOpenClosedUnit(missThreshold) && InOpenClosedUnit(outlierThreshold) && InOpenClosedUnit(quorumFraction)
      && SlashRateOk(missSlashRate) && SlashRateOk(outlierSlashRate)
      && acceptList != []
      && (forall i :: 0 <= i < |acceptList| ==> PairOk(acceptList[i]))
      && (forall i, j :: 0 <= i < j < |acceptList| ==> acceptList[i] != acceptList[j])
    }

    /** The staleness limit in nanoseconds; the source multiplies in 64 bits. */
    function MaxAge(): int {
      WrapInt64(maxPriceAge * SECOND)
    }
  }

  function WrapInt64(x: int): int {
    (x + 0x8000_0000_0000_0000) % 0x1_0000_0000_0000_0000 - 0x8000_0000_0000_0000
  }

  // ----- records

  datatype FeedId = FeedId(val: Addr, pair: Pair)
  datatype Feed = Feed(price: Dec, height: nat)
  datatype AggregatedPrice = AggregatedPrice(price: Dec, height: nat, time: Time)
  datatype SampleId = SampleId(pair: Pair, time: Time)

  datatype State = State(
    params: Params,
    feeds: map<FeedId, Feed>,
    prices: map<Pair, AggregatedPrice>,
    twap: map<SampleId, Dec>,
    miss: map<Addr, nat>,
    total: map<Addr, nat>,
    validatorOf: map<Addr, Addr>,
    feederOf: map<Addr, Addr>)

  function Count(m: map<Addr, nat>, v: Addr): nat {
    if v in m then m[v] else 0
  }

  // ----- what x/staking reports

  datatype Validator = Validator(oper: Addr, bonded: bool, hasConsAddr: bool)

  /** The validators listed by power, which validators exist (and are bonded), and last powers. */
  datatype Staking = Staking(vals: seq<Validator>, known: map<Addr, bool>, power: map<Addr, nat>, totalPower: nat) {
    /** x/staking lists an operator once. */
    ghost predicate Ok() {
      forall i, j :: 0 <= i < j < |vals| ==> vals[i].oper != vals[j].oper
    }

    function Power(v: Addr): nat {
      if v in power then power[v] else 0
    }

    ghost predicate Listed(v: Addr) {
      exists i :: 0 <= i < |vals| && vals[i].oper == v
    }

    ghost predicate Bonded(v: Addr) {
      exists i :: 0 <= i < |vals| && vals[i].oper == v && vals[i].bonded
    }

    /** x/slashing is only called for a validator with a consensus address and some power. */
    ghost predicate Slashable(v: Addr) {
      Power(v) > 0 && exists i :: 0 <= i < |vals| && vals[i].oper == v && vals[i].hasConsAddr
    }

    ghost function Operators(): set<Addr> {
      set x | x in vals :: x.oper
    }
  }

  // ----- one window

  /** A feed that takes part in aggregation. */
  ghost predicate Counts(feeds: map<FeedId, Feed>, st: Staking, pair: Pair, v: Addr) {
    FeedId(v, pair) in feeds && feeds[FeedId(v, pair)].price > 0 && st.Bonded(v) && st.Power(v) > 0
  }

  ghost function Voters(feeds: map<FeedId, Feed>, st: Staking, pair: Pair): set<Addr> {
    set v | v in st.Operators() && Counts(feeds, st, pair, v)
  }

  ghost function BallotOf(feeds: map<FeedId, Feed>, st: Staking, pair: Pair): Addr -> WeightedPrice {
    (v: Addr) => WeightedPrice(if FeedId(v, pair) in feeds then feeds[FeedId(v, pair)].price else 0, st.Power(v), v)
  }

  /** The valid submissions for a pair, one per validator. */
  ghost function Ballots(feeds: map<FeedId, Feed>, st: Staking, pair: Pair): set<WeightedPrice> {
    Image(Voters(feeds, st, pair), BallotOf(feeds, st, pair))
  }

  ghost function BallotPower(ballots: set<WeightedPrice>): int {
    SumSet(ballots, Weight)
  }

  /** An accepted pair with submissions whose power reaches the quorum. */
  ghost predicate Live(s: State, st: Staking, pair: Pair) {
    var ballots := Ballots(s.feeds, st, pair);
    pair in s.params.acceptList && ballots != {}
    && QuorumMet(BallotPower(ballots), st.totalPower, s.params.quorumFraction)
  }

  ghost predicate Lists<T>(es: seq<T>, ballots: set<T>) {
    Distinct(es) && Elements(es) == ballots
  }

  /** `m` is the stake-weighted median of the ballots. */
  ghost predicate IsPublished(ballots: set<WeightedPrice>, m: Dec) {
    exists es :: Lists(es, ballots) && IsStakeMedian(es, m)
  }

  /** `r` is the count median of the ballots. */
  ghost predicate IsReference(ballots: set<WeightedPrice>, r: Dec) {
    exists es :: Lists(es, ballots) && IsCountMedian(PricesOf(es), r)
  }

  predicate Deviates(price: Dec, ref: Dec, threshold: Dec) {
    ref > 0 && Quo(Abs(price - ref), ref) > threshold
  }

  /** The deviation, in whole numbers, that the twice-rounded test lets pass no longer. */
  ghost predicate TooFar(price: Dec, ref: Dec, threshold: Dec) {
    (if price < ref then ref - price else price - ref) * ONE * ONE
      >= ((threshold + 1) * ONE - ONE / 2 + (threshold + 1) % 2) * ref
  }

  /** A price above or below the reference deviates exactly when it is too far from it. */
  lemma DeviatesExactly(price: Dec, ref: Dec, threshold: nat)
    requires ref > 0
    ensures Deviates(price, ref, threshold) <==> TooFar(price, ref, threshold)
  {
    QuoReaches(Abs(price - ref), ref, threshold + 1);
  }

  ghost predicate IsOutlier(s: State, st: Staking, pair: Pair, v: Addr) {
    && Live(s, st, pair)
    && Counts(s.feeds, st, pair, v)
    && exists ref :: IsReference(Ballots(s.feeds, st, pair), ref)
                  && Deviates(s.feeds[FeedId(v, pair)].price, ref, s.params.outlierThreshold)
  }

  /** The validator left out some pair that reached the quorum. */
  ghost predicate MissedWindow(s: State, st: Staking, v: Addr) {
    exists pair :: Live(s, st, pair) && FeedId(v, pair) !in s.feeds
  }

  ghost function TotalAfter(s: State, v: Addr): nat {
    Count(s.total, v) + 1
  }

  ghost function MissAfter(s: State, st: Staking, v: Addr): nat {
    Count(s.miss, v) + if MissedWindow(s, st, v) then 1 else 0
  }

  ghost predicate RollsOver(s: State, v: Addr) {
    TotalAfter(s, v) >= s.params.missWindowSize
  }

  ghost predicate MissesTooMuch(s: State, st: Staking, v: Addr) {
    RollsOver(s, v) && Quo(FromInt(MissAfter(s, st, v)), FromInt(TotalAfter(s, v))) > s.params.missThreshold
  }

  // ----- slashes

  /** Why a validator was slashed; the pair of an outlier is kept for the statement only. */
  datatype Cause = Outlier(pair: Pair) | Missed

  /** One call to x/slashing. */
  datatype SlashCall = SlashCall(val: Addr, rate: Dec, power: nat, height: nat, cause: Cause)

  ghost predicate IsOutlierCall(s: State, st: Staking, height: nat, c: SlashCall) {
    && c.cause.Outlier?
    && IsOutlier(s, st, c.cause.pair, c.val) && st.Slashable(c.val)
    && c.rate == s.params.outlierSlashRate && c.power == st.Power(c.val) && c.height == height
  }

  ghost predicate IsMissCall(s: State, st: Staking, height: nat, c: SlashCall) {
    && c.cause.Missed?
    && st.Listed(c.val) && MissesTooMuch(s, st, c.val) && st.Slashable(c.val)
    && c.rate == s.params.missSlashRate && c.power == st.Power(c.val) && c.height == height
  }

  // ----- the boundary

  ghost predicate PriceKept(s: State, s': State, pair: Pair) {
    if pair in s.prices then pair in s'.prices && s'.prices[pair] == s.prices[pair] else pair !in s'.prices
  }

  /** A live pair gets the median of its ballots, any other pair keeps its record. */
  ghost predicate PriceAfter(s: State, st: Staking, height: nat, time: Time, s': State, pair: Pair) {
    if Live(s, st, pair) then
      && pair in s'.prices
      && s'.prices[pair].height == height && s'.prices[pair].time == time
      && IsPublished(Ballots(s.feeds, st, pair), s'.prices[pair].price)
    else PriceKept(s, s', pair)
  }

  ghost predicate SampleKept(s: State, s': State, id: SampleId) {
    if id in s.twap then id in s'.twap && s'.twap[id] == s.twap[id] else id !in s'.twap
  }

  /** A live pair gains a sample and loses those older than a day; other pairs keep theirs. */
  ghost predicate SampleAfter(s: State, st: Staking, time: Time, s': State, id: SampleId) {
    if !Live(s, st, id.pair) then SampleKept(s, s', id)
    else if id.time < time - DAY then id !in s'.twap
    else if id.time == time then id in s'.twap && id.pair in s'.prices && s'.twap[id] == s'.prices[id.pair].price
    else SampleKept(s, s', id)
  }

  /** A listed validator's window is counted, and both counters restart when the miss window is full. */
  ghost predicate CountersAfter(s: State, st: Staking, s': State, v: Addr) {
    && Count(s'.total, v) == (if !st.Listed(v) then Count(s.total, v)
                              else if RollsOver(s, v) then 0 else TotalAfter(s, v))
    && Count(s'.miss, v) == (if !st.Listed(v) then Count(s.miss, v)
                             else if RollsOver(s, v) then 0 else MissAfter(s, st, v))
  }

  /** The feed store is read in the order of its keys. */
  ghost predicate KeyBefore(a: FeedId, b: FeedId) {
    Less(FeedKey(a.val, a.pair), FeedKey(b.val, b.pair))
  }

  ghost predicate FeedBefore(v: Addr, w: Addr, pair: Pair) {
    KeyBefore(FeedId(v, pair), FeedId(w, pair))
  }

  ghost predicate PairBefore(accepted: seq<Pair>, p: Pair, q: Pair) {
    exists i, j :: 0 <= i < j < |accepted| && accepted[i] == p && accepted[j] == q
  }

  ghost predicate ListedEarlier(st: Staking, v: Addr, w: Addr) {
    exists i, j :: 0 <= i < j < |st.vals| && st.vals[i].oper == v && st.vals[j].oper == w
  }

  /** Outliers come first, pair by pair in the order of the accept list and within a pair in the order the feeds are
      read; then the repeat missers in the order x/staking lists the validators. */
  ghost predicate CallBefore(accepted: seq<Pair>, st: Staking, c: SlashCall, d: SlashCall) {
    match c.cause
    case Missed => d.cause.Missed? && ListedEarlier(st, c.val, d.val)
    case Outlier(p) =>
      d.cause.Outlier? ==> PairBefore(accepted, p, d.cause.pair) || (p == d.cause.pair && FeedBefore(c.val, d.val, p))
  }

  ghost predicate InOrder(accepted: seq<Pair>, st: Staking, log: seq<SlashCall>) {
    forall i, j :: 0 <= i < j < |log| ==> CallBefore(accepted, st, log[i], log[j])
  }

  /** Exactly the outliers and the repeat missers are slashed, in this order. */
  ghost predicate SlashesAre(s: State, st: Staking, height: nat, log: seq<SlashCall>) {
    && InOrder(s.params.acceptList, st, log)
    && forall c: SlashCall :: c in log <==> IsOutlierCall(s, st, height, c) || IsMissCall(s, st, height, c)
  }

  /** What EndBlocker does at a vote-window boundary. */
  ghost predicate Boundary(s: State, st: Staking, height: nat, time: Time, s': State, log: seq<SlashCall>) {
    && s'.params == s.params && s'.validatorOf == s.validatorOf && s'.feederOf == s.feederOf
    && s'.feeds == map[]
    && (forall pair: Pair :: PriceAfter(s, st, height, time, s', pair))
    && (forall id: SampleId :: SampleAfter(s, st, time, s', id))
    && (forall v: Addr :: CountersAfter(s, st, s', v))
    && SlashesAre(s, st, height, log)
  }

  ghost predicate EndBlock(s: State, st: Staking, height: nat, time: Time, s': State, log: seq<SlashCall>)
    requires s.params.voteWindow > 0
  {
    if height % s.params.voteWindow == 0 then Boundary(s, st, height, time, s', log)
    else s' == s && log == []
  }

  // ----- facts about slashes

  lemma InOrderConcat(accepted: seq<Pair>, st: Staking, a: seq<SlashCall>, b: seq<SlashCall>)
    requires InOrder(accepted, st, a) && InOrder(accepted, st, b)
    requires forall c, d :: c in a && d in b ==> CallBefore(accepted, st, c, d)
    ensures InOrder(accepted, st, a + b)
  {
    forall i, j | 0 <= i < j < |a + b| ensures CallBefore(accepted, st, (a + b)[i], (a + b)[j]) {
      if i < |a| <= j {
        assert a[i] in a && b[j - |a|] in b;
      }
    }
  }

  /** Each outlier is slashed once per pair, each repeat misser once. */
  lemma SlashedOnce(s: State, st: Staking, height: nat, log: seq<SlashCall>)
    requires SlashesAre(s, st, height, log) && s.params.Valid() && st.Ok()
    ensures Distinct(log)
  {
    forall i, j | 0 <= i < j < |log| ensures log[i] != log[j] {
      assert CallBefore(s.params.acceptList, st, log[i], log[j]);
      if log[i] == log[j] && log[i].cause.Outlier? {
        LessIrreflexive(FeedKey(log[i].val, log[i].cause.pair));
      }
    }
  }

  // ----- facts about ballots

  lemma BondedIsOperator(st: Staking, v: Addr)
    requires st.Bonded(v)
    ensures v in st.Operators()
  {
  }

  /** A validator's ballot is its feed's price, and is there exactly when the feed counts. */
  lemma BallotExactly(feeds: map<FeedId, Feed>, st: Staking, pair: Pair, v: Addr, price: Dec)
    requires FeedId(v, pair) in feeds && feeds[FeedId(v, pair)].price == price
    ensures WeightedPrice(price, st.Power(v), v) in Ballots(feeds, st, pair) <==> Counts(feeds, st, pair, v)
  {
    if Counts(feeds, st, pair, v) {
      BondedIsOperator(st, v);
      assert v in Voters(feeds, st, pair);
      assert WeightedPrice(price, st.Power(v), v) == BallotOf(feeds, st, pair)(v);
    }
  }

  lemma {:induction false} ListingMultiset<T>(es: seq<T>)
    requires Distinct(es)
    ensures multiset(es) == multiset(Elements(es))
  {
    if es == [] {
      assert Elements(es) == {};
    } else {
      var n := |es| - 1;
      ListingMultiset(es[..n]);
      assert es == es[..n] + [es[n]];
      assert Elements(es) == Elements(es[..n]) + {es[n]};
    }
  }

  /** Two listings of the ballots are permutations of each other. */
  lemma ListingsPermute<T>(es: seq<T>, fs: seq<T>, ballots: set<T>)
    requires Lists(es, ballots) && Lists(fs, ballots)
    ensures multiset(es) == multiset(fs)
  {
    ListingMultiset(es);
    ListingMultiset(fs);
  }

  lemma PublishedUnique(ballots: set<WeightedPrice>, m: Dec, m': Dec)
    requires IsPublished(ballots, m) && IsPublished(ballots, m')
    ensures m == m'
  {
    var es :| Lists(es, ballots) && IsStakeMedian(es, m);
    var fs :| Lists(fs, ballots) && IsStakeMedian(fs, m');
    ListingsPermute(es, fs, ballots);
    StakeMedianPermutes(es, fs, m);
    StakeMedianUnique(fs, m, m');
  }

  ghost function PowerIn(st: Staking): Addr -> int {
    (v: Addr) => st.Power(v)
  }

  /** A validator's power is counted at most once per pair: submissions never outweigh the listed validators. */
  lemma SubmittedPowerBounded(feeds: map<FeedId, Feed>, st: Staking, pair: Pair)
    ensures BallotPower(Ballots(feeds, st, pair)) == SumSet(Voters(feeds, st, pair), PowerIn(st))
    ensures BallotPower(Ballots(feeds, st, pair)) <= SumSet(st.Operators(), PowerIn(st))
  {
    SumImage(Voters(feeds, st, pair), BallotOf(feeds, st, pair), Weight, PowerIn(st));
    SumSubset(Voters(feeds, st, pair), st.Operators(), PowerIn(st));
  }

  /** The published price is a positive price that some counted validator submitted. */
  lemma PublishedIsSubmitted(feeds: map<FeedId, Feed>, st: Staking, pair: Pair, m: Dec)
    requires IsPublished(Ballots(feeds, st, pair), m)
    ensures m > 0
    ensures exists v :: Counts(feeds, st, pair, v) && feeds[FeedId(v, pair)].price == m
  {
    var es: seq<WeightedPrice> :| Lists(es, Ballots(feeds, st, pair)) && IsStakeMedian(es, m);
    var i :| 0 <= i < |es| && es[i].price == m;
    assert es[i] in Elements(es);
    var v :| v in Voters(feeds, st, pair) && es[i] == BallotOf(feeds, st, pair)(v);
    assert Counts(feeds, st, pair, v);
  }

  /** The reference is a positive price that some counted validator submitted. */
  lemma ReferenceIsSubmitted(feeds: map<FeedId, Feed>, st: Staking, pair: Pair, ref: Dec)
    requires IsReference(Ballots(feeds, st, pair), ref)
    ensures ref > 0
    ensures exists v :: Counts(feeds, st, pair, v) && feeds[FeedId(v, pair)].price == ref
  {
    var es: seq<WeightedPrice> :| Lists(es, Ballots(feeds, st, pair)) && IsCountMedian(PricesOf(es), ref);
    var i :| 0 <= i < |PricesOf(es)| && PricesOf(es)[i] == ref;
    assert es[i] in Elements(es);
    var v :| v in Voters(feeds, st, pair) && es[i] == BallotOf(feeds, st, pair)(v);
    assert Counts(feeds, st, pair, v);
  }

  function PriceAtMost(p: Dec): WeightedPrice -> int {
    (e: WeightedPrice) => if e.price <= p then 1 else 0
  }

  lemma ReferenceUnique(ballots: set<WeightedPrice>, r: Dec, r': Dec)
    requires IsReference(ballots, r) && IsReference(ballots, r')
    ensures r == r'
  {
    ReferenceAtMost(ballots, r, r');
    ReferenceAtMost(ballots, r', r);
  }

  lemma ReferenceAtMost(ballots: set<WeightedPrice>, r: Dec, r': Dec)
    requires IsReference(ballots, r) && IsReference(ballots, r')
    ensures r <= r'
  {
    var es :| Lists(es, ballots) && IsCountMedian(PricesOf(es), r);
    var fs :| Lists(fs, ballots) && IsCountMedian(PricesOf(fs), r');
    ListingsPermute(es, fs, ballots);
    assert |es| == |multiset(es)| && |fs| == |multiset(fs)|;
    SumSeqPermutation(es, fs, PriceAtMost(r'));
    SumOverPrices(es, AtMost(r'), PriceAtMost(r'));
    SumOverPrices(fs, AtMost(r'), PriceAtMost(r'));
    CountMedianAtMost(PricesOf(es), r, r');
  }

  // ----- the window again, from its inputs

  /** The validator is listed as bonded, has power, and stored a positive price. */
  ghost predicate Submitter(feeds: map<FeedId, Feed>, st: Staking, pair: Pair, v: Addr) {
    && FeedId(v, pair) in feeds && feeds[FeedId(v, pair)].price > 0
    && v in st.power && st.power[v] > 0
    && exists i :: 0 <= i < |st.vals| && st.vals[i].oper == v && st.vals[i].bonded
  }

  ghost function Submitters(feeds: map<FeedId, Feed>, st: Staking, pair: Pair): set<Addr> {
    set i | 0 <= i < |st.vals| && Submitter(feeds, st, pair, st.vals[i].oper) :: st.vals[i].oper
  }

  /** A share of the total power that reaches the fraction as far as the twice-rounded test can tell. */
  ghost predicate ShareReached(power: int, total: int, fraction: Dec) {
    total > 0 && power * ONE * ONE >= (fraction * ONE - ONE / 2 + fraction % 2) * total
  }

  /** Somebody submits the accepted pair, and the submitters' share of all power reaches the quorum fraction. */
  ghost predicate QuorumReached(s: State, st: Staking, pair: Pair) {
    && pair in s.params.acceptList && Submitters(s.feeds, st, pair) != {}
    && ShareReached(SumSet(Submitters(s.feeds, st, pair), PowerIn(st)), st.totalPower, s.params.quorumFraction)
  }

  lemma ShareExactly(power: nat, total: nat, fraction: Dec)
    requires fraction > 0
    ensures QuorumMet(power, total, fraction) <==> ShareReached(power, total, fraction)
  {
    if total > 0 {
      QuorumExactly(power, total, fraction);
    }
  }

  lemma SubmittersExactly(feeds: map<FeedId, Feed>, st: Staking, pair: Pair)
    ensures Voters(feeds, st, pair) == Submitters(feeds, st, pair)
    ensures forall v: Addr :: Counts(feeds, st, pair, v) <==> Submitter(feeds, st, pair, v)
  {
    forall v: Addr ensures Counts(feeds, st, pair, v) <==> Submitter(feeds, st, pair, v) {
    }
    forall v: Addr ensures v in Voters(feeds, st, pair) <==> v in Submitters(feeds, st, pair) {
      if v in Voters(feeds, st, pair) {
        var x :| x in st.vals && x.oper == v;
        var i :| 0 <= i < |st.vals| && st.vals[i] == x;
        assert Submitter(feeds, st, pair, st.vals[i].oper);
      }
      if v in Submitters(feeds, st, pair) {
        assert st.Bonded(v);
        BondedIsOperator(st, v);
      }
    }
  }

  /** A pair is aggregated exactly when it reaches the quorum. */
  lemma LiveExactly(s: State, st: Staking, pair: Pair)
    requires s.params.Valid()
    ensures Live(s, st, pair) <==> QuorumReached(s, st, pair)
  {
    SubmittersExactly(s.feeds, st, pair);
    SubmittedPowerBounded(s.feeds, st, pair);
    var voters := Voters(s.feeds, st, pair);
    NobodyNoBallots(s.feeds, st, pair);
    SumNonNegative(voters, PowerIn(st));
    ShareExactly(SumSet(voters, PowerIn(st)), st.totalPower, s.params.quorumFraction);
  }

  lemma NobodyNoBallots(feeds: map<FeedId, Feed>, st: Staking, pair: Pair)
    ensures Ballots(feeds, st, pair) == {} <==> Voters(feeds, st, pair) == {}
  {
    if v :| v in Voters(feeds, st, pair) {
      assert BallotOf(feeds, st, pair)(v) in Ballots(feeds, st, pair);
    }
  }

  /** The validator has no feed for some pair that reaches the quorum. */
  ghost predicate LeftOut(s: State, st: Staking, v: Addr) {
    exists pair :: QuorumReached(s, st, pair) && FeedId(v, pair) !in s.feeds
  }

  lemma MissedExactly(s: State, st: Staking, v: Addr)
    requires s.params.Valid()
    ensures MissedWindow(s, st, v) <==> LeftOut(s, st, v)
  {
    if pair :| Live(s, st, pair) && FeedId(v, pair) !in s.feeds {
      LiveExactly(s, st, pair);
    }
    if pair :| QuorumReached(s, st, pair) && FeedId(v, pair) !in s.feeds {
      LiveExactly(s, st, pair);
    }
  }

  // ----- raising a price

  /** A counted validator raising its price never lowers the published one. */
  lemma PublishedMonotone(feeds: map<FeedId, Feed>, st: Staking, pair: Pair, v: Addr, feed: Feed, m: Dec, m': Dec)
    requires Counts(feeds, st, pair, v) && feed.price >= feeds[FeedId(v, pair)].price
    requires IsPublished(Ballots(feeds, st, pair), m)
    requires IsPublished(Ballots(feeds[FeedId(v, pair) := feed], st, pair), m')
    ensures m <= m'
  {
    var feeds' := feeds[FeedId(v, pair) := feed];
    var b, b' := BallotOf(feeds, st, pair)(v), BallotOf(feeds', st, pair)(v);
    var es: seq<WeightedPrice> :| Lists(es, Ballots(feeds, st, pair)) && IsStakeMedian(es, m);
    var fs: seq<WeightedPrice> :| Lists(fs, Ballots(feeds', st, pair)) && IsStakeMedian(fs, m');
    BallotExactly(feeds, st, pair, v, b.price);
    assert b in Elements(es);
    var k :| 0 <= k < |es| && es[k] == b;
    RaisedListing(feeds, st, pair, v, feed, es, k);
    ListingsPermute(fs, es[k := b'], Ballots(feeds', st, pair));
    StakeMedianPermutes(fs, es[k := b'], m');
    StakeMedianMonotone(es, k, b'.price, m, m');
  }

  /** Replacing the validator's ballot in a listing lists the new ballots. */
  lemma RaisedListing(feeds: map<FeedId, Feed>, st: Staking, pair: Pair, v: Addr, feed: Feed, es: seq<WeightedPrice>, k: nat)
    requires Counts(feeds, st, pair, v) && feed.price >= feeds[FeedId(v, pair)].price
    requires Lists(es, Ballots(feeds, st, pair)) && k < |es| && es[k] == BallotOf(feeds, st, pair)(v)
    ensures Lists(es[k := BallotOf(feeds[FeedId(v, pair) := feed], st, pair)(v)], Ballots(feeds[FeedId(v, pair) := feed], st, pair))
  {
    var feeds' := feeds[FeedId(v, pair) := feed];
    var b' := BallotOf(feeds', st, pair)(v);
    var gs := es[k := b'];
    forall i | 0 <= i < |es| && i != k ensures es[i].valoper != v && es[i] == BallotOf(feeds', st, pair)(es[i].valoper) {
      assert es[i] in Elements(es);
      var u :| u in Voters(feeds, st, pair) && es[i] == BallotOf(feeds, st, pair)(u);
    }
    assert Distinct(gs);
    forall w ensures w in Elements(gs) <==> w in Ballots(feeds', st, pair) {
      if w in Elements(gs) {
        var i :| 0 <= i < |gs| && gs[i] == w;
        OneBallot(feeds, st, pair, v, feed, es, k, i);
      }
      if w in Ballots(feeds', st, pair) {
        var u :| u in Voters(feeds', st, pair) && w == BallotOf(feeds', st, pair)(u);
        if u == v {
          assert gs[k] == w;
        } else {
          assert Counts(feeds, st, pair, u) && u in Voters(feeds, st, pair);
          assert BallotOf(feeds, st, pair)(u) in Elements(es);
          var i :| 0 <= i < |es| && es[i] == BallotOf(feeds, st, pair)(u);
          assert gs[i] == w;
        }
      }
    }
  }

  lemma OneBallot(feeds: map<FeedId, Feed>, st: Staking, pair: Pair, v: Addr, feed: Feed, es: seq<WeightedPrice>, k: nat, i: nat)
    requires Counts(feeds, st, pair, v) && feed.price >= feeds[FeedId(v, pair)].price
    requires Lists(es, Ballots(feeds, st, pair)) && k < |es| && i < |es| && es[k] == BallotOf(feeds, st, pair)(v)
    ensures es[k := BallotOf(feeds[FeedId(v, pair) := feed], st, pair)(v)][i] in Ballots(feeds[FeedId(v, pair) := feed], st, pair)
  {
    var feeds' := feeds[FeedId(v, pair) := feed];
    assert es[i] in Elements(es);
    var u :| u in Voters(feeds, st, pair) && es[i] == BallotOf(feeds, st, pair)(u);
    assert Counts(feeds', st, pair, u) && u in Voters(feeds', st, pair);
    assert v in Voters(feeds', st, pair) by { BondedIsOperator(st, v); assert Counts(feeds', st, pair, v); }
  }
}
