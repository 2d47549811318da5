/** What each message and query of x/oracle does, said in terms of its fields and the records, not of its code. */
module OracleMessages {
  import opened Bytes
  import opened Dec
  import opened Results
  import opened OracleKeys
  import opened OracleState
  import opened OracleMsgs

  // ----- submitting

  /** The account that may submit: the delegated one or, without a delegation, the operator's own. */
  ghost predicate MaySubmit(s: State, val: Addr, feeder: Addr) {
    if val in s.feederOf then feeder == s.feederOf[val] else feeder == val
  }

  /** The staking module knows the validator as bonded, with power. */
  ghost predicate BondedWithPower(st: Staking, val: Addr) {
    val in st.known && st.known[val] && val in st.power && st.power[val] > 0
  }

  ghost predicate ValidSubmission(s: State, st: Staking, feeder: Addr, val: Addr, pair: Pair, price: Dec) {
    price > 0 && MaySubmit(s, val, feeder) && pair in s.params.acceptList && BondedWithPower(st, val)
  }

  /** A submission succeeds exactly when it is a positive price for an accepted pair from the account that may submit
      for a bonded validator with power; it then writes that one feed and nothing else. Otherwise the answer names what
      is wrong, the message itself before the records, the feeder before the pair and the pair before the validator. */
  lemma SubmitFeedExactly(s: State, st: Staking, height: nat, feeder: Addr, val: Addr, pair: Pair, price: Dec)
    requires s.params.Valid()
    ensures SubmitFeed(s, st, height, feeder, val, pair, price).Ok? <==> ValidSubmission(s, st, feeder, val, pair, price)
    ensures SubmitFeed(s, st, height, feeder, val, pair, price).Ok? ==>
              && var s' := SubmitFeed(s, st, height, feeder, val, pair, price).value;
              && s' == s.(feeds := s'.feeds)
              && forall id: FeedId :: FeedWritten(s.feeds, s'.feeds, id, FeedId(val, pair), Feed(price, height))
    ensures var r := SubmitFeed(s, st, height, feeder, val, pair, price);
            && (r == Err(ErrInvalidPairFormat) <==> pair == [])
            && (r == Err(ErrInvalidPrice) <==> pair != [] && price <= 0)
            && (r == Err(ErrFeederNotAuthorized) <==> pair != [] && price > 0 && !MaySubmit(s, val, feeder))
            && (r == Err(ErrPairNotAccepted) <==>
                  pair != [] && price > 0 && MaySubmit(s, val, feeder) && pair !in s.params.acceptList)
            && (r.Err? && price > 0 && MaySubmit(s, val, feeder) && pair in s.params.acceptList ==>
                  r.error == if val in st.known then ErrNotBondedValidator else ErrNoValidator)
  {
    if pair in s.params.acceptList {
      var i :| 0 <= i < |s.params.acceptList| && s.params.acceptList[i] == pair;
      assert PairOk(pair);
    }
  }

  ghost predicate FeedWritten(feeds: map<FeedId, Feed>, feeds': map<FeedId, Feed>, id: FeedId, at: FeedId, feed: Feed) {
    if id == at then id in feeds' && feeds'[id] == feed
    else (id in feeds' <==> id in feeds) && (id in feeds ==> feeds'[id] == feeds[id])
  }

  // ----- delegating

  /** Delegating succeeds exactly for a bonded validator and an account no other validator is bound to. From then on
      that account submits for the validator; whoever submits for any other validator stays. */
  lemma SetFeederExactly(s: State, st: Staking, val: Addr, feeder: Addr, other: Addr, a: Addr)
    requires other != val
    ensures SetFeeder(s, st, val, feeder).Ok? <==>
            val in st.known && st.known[val] && forall v: Addr :: BoundTo(s, feeder, v) ==> v == val
    ensures var r := SetFeeder(s, st, val, feeder);
            r.Err? ==> r.error == if val !in st.known then ErrNoValidator else if !st.known[val] then ErrNotBondedValidator
                                  else ErrFeederAlreadyBound
    ensures SetFeeder(s, st, val, feeder).Ok? ==>
              && var s' := SetFeeder(s, st, val, feeder).value;
              && s' == s.(validatorOf := s'.validatorOf, feederOf := s'.feederOf)
              && (MaySubmit(s', val, a) <==> a == feeder) && (MaySubmit(s', other, a) <==> MaySubmit(s, other, a))
              && BoundTo(s', feeder, val) && (a != feeder ==> (BoundTo(s', a, other) <==> BoundTo(s, a, other)))
  {
    if feeder in s.validatorOf {
      assert BoundTo(s, feeder, s.validatorOf[feeder]);
    }
  }

  ghost predicate BoundTo(s: State, feeder: Addr, val: Addr) {
    feeder in s.validatorOf && s.validatorOf[feeder] == val
  }

  /** A validator can always go back to an account it was bound to before. */
  lemma RedelegationSucceeds(s: State, st: Staking, val: Addr, feeder: Addr)
    requires BoundTo(s, feeder, val) && val in st.known && st.known[val]
    ensures SetFeeder(s, st, val, feeder).Ok?
  {
  }

  // ----- parameters

  ghost predicate PairFormat(p: Pair) {
    exists base: Bytes, quote: Bytes :: p == base + [58] + quote && base != [] && quote != []
      && (forall b :: b in base ==> 48 <= b <= 57 || 65 <= b <= 90) && (forall b :: b in quote ==> 48 <= b <= 57 || 65 <= b <= 90)
  }

  /** A pair is upper-case letters or digits, a colon, and again upper-case letters or digits, both sides non-empty. */
  lemma PairOkExactly(p: Pair)
    ensures PairOk(p) <==> PairFormat(p)
  {
    if PairOk(p) {
      var c :| 0 < c < |p| - 1 && p[c] == 58 && forall i :: 0 <= i < |p| && i != c ==> UpperOrDigit(p[i]);
      assert p == p[..c] + [58] + p[c + 1..];
    }
    if PairFormat(p) {
      var base: Bytes, quote: Bytes :| p == base + [58] + quote && base != [] && quote != []
        && (forall b :: b in base ==> 48 <= b <= 57 || 65 <= b <= 90) && (forall b :: b in quote ==> 48 <= b <= 57 || 65 <= b <= 90);
      var c := |base|;
      assert p[c] == 58;
      forall i | 0 <= i < |p| && i != c ensures UpperOrDigit(p[i]) {
        if i < c {
          assert p[i] == base[i] && base[i] in base;
        } else {
          assert p[i] == quote[i - c - 1] && quote[i - c - 1] in quote;
        }
      }
    }
  }

  /** The bounds on the parameters, in units of 10^-18: fractions in (0, 1] and slash rates in [0, 0.05). */
  ghost predicate WithinBounds(p: Params) {
    && p.voteWindow >= 1 && p.missWindowSize >= 1 && p.maxPriceAge >= 1
    && 0 < p.missThreshold <= 1_000_000_000_000_000_000
    && 0 < p.outlierThreshold <= 1_000_000_000_000_000_000
    && 0 < p.quorumFraction <= 1_000_000_000_000_000_000
    && 0 <= p.missSlashRate < 50_000_000_000_000_000
    && 0 <= p.outlierSlashRate < 50_000_000_000_000_000
    && |p.acceptList| >= 1
    && (forall q :: q in p.acceptList ==> PairFormat(q))
    && (forall i, j :: 0 <= i < |p.acceptList| && 0 <= j < |p.acceptList| && p.acceptList[i] == p.acceptList[j] ==> i == j)
  }

  /** An update succeeds exactly from the authority and within the bounds. It installs the parameters, and takes
      everybody's window counters away exactly when the accept list changes. */
  lemma UpdateParamsExactly(s: State, fromAuthority: bool, p: Params)
    ensures UpdateParams(s, fromAuthority, p).Ok? <==> fromAuthority && WithinBounds(p)
    ensures UpdateParams(s, fromAuthority, p).Ok? ==>
              && var s' := UpdateParams(s, fromAuthority, p).value;
              && s' == s.(params := p, miss := s'.miss, total := s'.total)
              && (p.acceptList == s.params.acceptList ==> s'.miss == s.miss && s'.total == s.total)
              && (p.acceptList != s.params.acceptList ==> forall v: Addr :: v !in s'.miss && v !in s'.total)
  {
    forall q | q in p.acceptList ensures PairOk(q) <==> PairFormat(q) {
      PairOkExactly(q);
    }
    if p.Valid() {
      forall q | q in p.acceptList ensures PairFormat(q) {
        var i :| 0 <= i < |p.acceptList| && p.acceptList[i] == q;
      }
    }
    if WithinBounds(p) {
      forall i | 0 <= i < |p.acceptList| ensures PairOk(p.acceptList[i]) {
        assert p.acceptList[i] in p.acceptList;
      }
    }
  }

  /** The pair at position i is the first one that is malformed or was listed before. */
  ghost predicate FirstBadPair(ps: seq<Pair>, i: nat) {
    && i < |ps| && (!PairFormat(ps[i]) || ps[i] in ps[..i])
    && forall j :: 0 <= j < i ==> PairFormat(ps[j]) && ps[j] !in ps[..j]
  }

  /** A refused update names the sender, then the values, then the first bad pair: malformed, or a repetition. */
  lemma UpdateParamsRefusals(s: State, fromAuthority: bool, p: Params, i: nat)
    ensures !fromAuthority ==> UpdateParams(s, fromAuthority, p) == Err(ErrInvalidSigner)
    ensures fromAuthority && !ValuesOk(p) ==> UpdateParams(s, fromAuthority, p) == Err(ErrInvalidParams)
    ensures fromAuthority && ValuesOk(p) && FirstBadPair(p.acceptList, i) ==>
              UpdateParams(s, fromAuthority, p) == Err(if PairFormat(p.acceptList[i]) then ErrInvalidParams else ErrInvalidPairFormat)
  {
    if FirstBadPair(p.acceptList, i) {
      FirstBadIs(p.acceptList, 0, i);
    }
  }

  lemma {:induction false} FirstBadIs(ps: seq<Pair>, k: nat, i: nat)
    requires FirstBadPair(ps, i) && k <= i
    ensures ListErrorFrom(ps, k) == Some(if PairFormat(ps[i]) then ErrInvalidParams else ErrInvalidPairFormat)
    decreases i - k
  {
    PairOkExactly(ps[k]);
    if k < i {
      FirstBadIs(ps, k + 1, i);
    }
  }

  // ----- reading a price

  /** The staleness limit is the configured number of seconds exactly up to 9223372036 of them; beyond that the 64-bit
      product wraps around. */
  lemma MaxAgeIsSecondsExactly(p: Params)
    requires 0 < p.maxPriceAge < 0x8000_0000_0000_0000
    ensures p.MaxAge() == p.maxPriceAge * 1_000_000_000 <==> p.maxPriceAge <= 9_223_372_036
  {
  }

  /** One second more and the limit is negative, so that every price counts as stale. */
  lemma MaxAgeWraps(s: State, pair: Pair, now: int)
    requires s.params.maxPriceAge == 9_223_372_037 && pair in s.params.acceptList && pair in s.prices
    requires s.prices[pair].time <= now
    ensures GetPrice(s, pair, now) == Err(ErrStalePrice)
  {
  }

  /** A price can be read exactly when the pair is accepted and its stored price is that price, no older than the
      configured number of seconds. */
  lemma GetPriceExactly(s: State, pair: Pair, now: int, p: Dec)
    requires 0 < s.params.maxPriceAge <= 9_223_372_036
    ensures GetPrice(s, pair, now) == Ok(p) <==>
            && pair in s.params.acceptList && pair in s.prices && s.prices[pair].price == p
            && now <= s.prices[pair].time + s.params.maxPriceAge * 1_000_000_000
    ensures var r := GetPrice(s, pair, now);
            r.Err? ==> r.error == if pair !in s.params.acceptList then ErrPairNotAccepted
                                  else if pair !in s.prices then ErrNoPrice else ErrStalePrice
  {
    MaxAgeIsSecondsExactly(s.params);
  }
}
