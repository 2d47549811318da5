/** Export and import of x/oracle: what a genesis file carries and what comes back. */
module OracleGenesis {
  import opened Bytes
  import opened Sums
  import opened Results
  import opened KvStore
  import opened Sorting
  import opened OracleKeys
  import opened OracleState
  import Msgs = OracleMsgs
  import Runs = OracleRuns

  datatype PriceEntry = PriceEntry(pair: Pair, ap: AggregatedPrice)
  datatype FeederEntry = FeederEntry(val: Addr, feeder: Addr)
  datatype Genesis = Genesis(params: Params, prices: seq<PriceEntry>, feeders: seq<FeederEntry>)

  // ----- export

  ghost predicate ListsPrices(ps: seq<PriceEntry>, prices: map<Pair, AggregatedPrice>) {
    && (forall i :: 0 <= i < |ps| ==> ps[i].pair in prices && ps[i].ap == prices[ps[i].pair])
    && (forall p :: p in prices ==> PriceEntry(p, prices[p]) in ps)
    && (forall i, j :: 0 <= i < j < |ps| ==> ps[i].pair != ps[j].pair)
  }

  ghost predicate ListsFeeders(fs: seq<FeederEntry>, feederOf: map<Addr, Addr>) {
    && (forall i :: 0 <= i < |fs| ==> fs[i].val in feederOf && fs[i].feeder == feederOf[fs[i].val])
    && (forall v :: v in feederOf ==> FeederEntry(v, feederOf[v]) in fs)
    && (forall i, j :: 0 <= i < j < |fs| ==> fs[i].val != fs[j].val)
  }

  ghost predicate PairsAscend(ps: seq<PriceEntry>) {
    forall i, j :: 0 <= i < j < |ps| ==> Less(ps[i].pair, ps[j].pair)
  }

  /** The parameters, every price once and every explicit delegation once, in some order. */
  ghost predicate IsExport(s: State, g: Genesis) {
    g.params == s.params && ListsPrices(g.prices, s.prices) && ListsFeeders(g.feeders, s.feederOf)
  }

  method ExportPrices(prices: map<Pair, AggregatedPrice>) returns (ps: seq<PriceEntry>)
    ensures ListsPrices(ps, prices) && PairsAscend(ps)
  {
    var pairs := PrefixIterator(prices, []);
    ps := [];
    for i := 0 to |pairs|
      invariant |ps| == i && forall j :: 0 <= j < i ==> pairs[j] in prices && ps[j] == PriceEntry(pairs[j], prices[pairs[j]])
    {
      assert pairs[i] in pairs;
      ps := ps + [PriceEntry(pairs[i], prices[pairs[i]])];
    }
    AscendingDistinct(pairs);
    forall p | p in prices ensures PriceEntry(p, prices[p]) in ps {
      assert p in pairs;
      var i :| 0 <= i < |pairs| && pairs[i] == p;
      assert ps[i] in ps;
    }
  }

  /** Lists the explicit delegations, in whatever order the store gives them. */
  method ListFeeders(feederOf: map<Addr, Addr>) returns (fs: seq<FeederEntry>)
    ensures ListsFeeders(fs, feederOf)
  {
    fs := [];
    var rest := feederOf.Keys;
    while rest != {}
      invariant rest <= feederOf.Keys
      invariant forall i :: 0 <= i < |fs| ==> fs[i].val in feederOf && fs[i].val !in rest && fs[i].feeder == feederOf[fs[i].val]
      invariant forall v :: v in feederOf && v !in rest ==> FeederEntry(v, feederOf[v]) in fs
      invariant forall i, j :: 0 <= i < j < |fs| ==> fs[i].val != fs[j].val
      decreases |rest|
    {
      var v :| v in rest;
      fs := fs + [FeederEntry(v, feederOf[v])];
      rest := rest - {v};
    }
  }

  /** Sorts the delegations by `before`, which compares the validators' textual addresses. */
  method ExportFeeders(feederOf: map<Addr, Addr>, before: (FeederEntry, FeederEntry) -> bool) returns (fs: seq<FeederEntry>)
    requires StrictWeakOrder(before)
    ensures ListsFeeders(fs, feederOf) && SortedBy(fs, before)
  {
    var listed := ListFeeders(feederOf);
    var a := new FeederEntry[|listed|](i requires 0 <= i < |listed| => listed[i]);
    assert a[..] == listed;
    Sort(a, before);
    fs := a[..];
    FeedersPermute(listed, fs, feederOf);
  }

  lemma FeedersPermute(fs: seq<FeederEntry>, gs: seq<FeederEntry>, feederOf: map<Addr, Addr>)
    requires ListsFeeders(fs, feederOf) && multiset(fs) == multiset(gs)
    ensures ListsFeeders(gs, feederOf)
  {
    forall i | 0 <= i < |gs| ensures gs[i].val in feederOf && gs[i].feeder == feederOf[gs[i].val] {
      assert gs[i] in multiset(fs);
    }
    forall v | v in feederOf ensures FeederEntry(v, feederOf[v]) in gs {
      assert FeederEntry(v, feederOf[v]) in multiset(gs);
    }
    assert Distinct(fs);
    DistinctPermutes(fs, gs);
  }

  lemma DistinctPermutes<T>(s: seq<T>, t: seq<T>)
    requires Distinct(s) && multiset(s) == multiset(t)
    ensures Distinct(t)
  {
    ListingMultiset(s);
    forall i, j | 0 <= i < j < |t| ensures t[i] != t[j] {
      assert t == t[..j] + [t[j]] + t[j + 1..];
      assert multiset(t)[t[j]] == multiset(t[..j])[t[j]] + 1 + multiset(t[j + 1..])[t[j]];
      assert t[i] in multiset(t[..j]);
    }
  }

  method ExportGenesis(s: State, before: (FeederEntry, FeederEntry) -> bool) returns (g: Genesis)
    requires StrictWeakOrder(before)
    ensures IsExport(s, g) && PairsAscend(g.prices) && SortedBy(g.feeders, before)
  {
    var ps := ExportPrices(s.prices);
    var fs := ExportFeeders(s.feederOf, before);
    g := Genesis(s.params, ps, fs);
  }

  // ----- import

  /** What a genesis file must satisfy to be accepted at `chainTime` with these validators. */
  ghost predicate Acceptable(g: Genesis, chainTime: Time, known: map<Addr, bool>) {
    && g.params.Valid()
    && (forall i :: 0 <= i < |g.prices| ==> PriceAcceptable(g, i, chainTime))
    && (forall i, j :: 0 <= i < j < |g.prices| ==> g.prices[i].pair != g.prices[j].pair)
    && AllKnown(g.feeders, known)
    && NoFeederTwice(g.feeders)
  }

  ghost predicate PriceAcceptable(g: Genesis, i: nat, chainTime: Time)
    requires i < |g.prices|
  {
    g.prices[i].pair in g.params.acceptList && g.prices[i].ap.price > 0 && g.prices[i].ap.time <= chainTime
  }

  /** Checks the prices one by one and stores them. */
  method ImportPrices(g: Genesis, chainTime: Time) returns (r: Option<map<Pair, AggregatedPrice>>)
    ensures r.Some? <==> (forall i :: 0 <= i < |g.prices| ==> PriceAcceptable(g, i, chainTime))
                         && (forall i, j :: 0 <= i < j < |g.prices| ==> g.prices[i].pair != g.prices[j].pair)
    ensures r.Some? ==> ListsPrices(g.prices, r.value)
  {
    var prices: map<Pair, AggregatedPrice> := map[];
    for n := 0 to |g.prices|
      invariant forall i :: 0 <= i < n ==> PriceAcceptable(g, i, chainTime)
      invariant ListsPrices(g.prices[..n], prices)
    {
      var e := g.prices[n];
      if e.pair !in g.params.acceptList || e.ap.price <= 0 || e.ap.time > chainTime {
        assert !PriceAcceptable(g, n, chainTime);
        return None;
      }
      if e.pair in prices {
        var i :| 0 <= i < n && g.prices[i] == PriceEntry(e.pair, prices[e.pair]);
        return None;
      }
      prices := prices[e.pair := e.ap];
      assert g.prices[..n + 1] == g.prices[..n] + [e];
    }
    assert g.prices[..|g.prices|] == g.prices;
    return Some(prices);
  }

  /** Every listed feeder is bound as listed, and no other. */
  ghost predicate BoundAsListed(fs: seq<FeederEntry>, validatorOf: map<Addr, Addr>) {
    && (forall i :: 0 <= i < |fs| ==> fs[i].feeder in validatorOf && validatorOf[fs[i].feeder] == fs[i].val)
    && (forall f :: f in validatorOf ==> FeederEntry(validatorOf[f], f) in fs)
  }

  ghost predicate IsLast(fs: seq<FeederEntry>, v: Addr, feeder: Addr) {
    exists i :: 0 <= i < |fs| && fs[i] == FeederEntry(v, feeder) && forall j :: i < j < |fs| ==> fs[j].val != v
  }

  /** A validator's feeder is the last one listed for it. */
  ghost predicate LastAsListed(fs: seq<FeederEntry>, feederOf: map<Addr, Addr>) {
    && (forall i :: 0 <= i < |fs| ==> fs[i].val in feederOf)
    && (forall v :: v in feederOf ==> IsLast(fs, v, feederOf[v]))
  }

  ghost predicate NoFeederTwice(fs: seq<FeederEntry>) {
    forall i, j :: 0 <= i < j < |fs| ==> fs[i].feeder != fs[j].feeder
  }

  lemma LastAdds(fs: seq<FeederEntry>, feederOf: map<Addr, Addr>, e: FeederEntry)
    requires LastAsListed(fs, feederOf)
    ensures LastAsListed(fs + [e], feederOf[e.val := e.feeder])
  {
    var feederOf', gs := feederOf[e.val := e.feeder], fs + [e];
    forall v | v in feederOf' ensures IsLast(gs, v, feederOf'[v]) {
      if v == e.val {
        assert gs[|fs|] == FeederEntry(v, feederOf'[v]);
      } else {
        var i :| 0 <= i < |fs| && fs[i] == FeederEntry(v, feederOf[v]) && forall j :: i < j < |fs| ==> fs[j].val != v;
        assert gs[i] == FeederEntry(v, feederOf'[v]);
      }
    }
  }

  lemma BoundAdds(fs: seq<FeederEntry>, validatorOf: map<Addr, Addr>, e: FeederEntry)
    requires BoundAsListed(fs, validatorOf) && e.feeder !in validatorOf
    ensures BoundAsListed(fs + [e], validatorOf[e.feeder := e.val])
    ensures NoFeederTwice(fs) ==> NoFeederTwice(fs + [e])
  {
  }

  lemma FeederRepeats(fs: seq<FeederEntry>, n: nat, validatorOf: map<Addr, Addr>)
    requires n < |fs| && BoundAsListed(fs[..n], validatorOf) && fs[n].feeder in validatorOf
    ensures !NoFeederTwice(fs)
  {
  }

  ghost predicate AllKnown(fs: seq<FeederEntry>, known: map<Addr, bool>) {
    forall i :: 0 <= i < |fs| ==> fs[i].val in known
  }

  /** The delegations of a list that passes all checks, replayed on empty maps. */
  ghost predicate Replayed(fs: seq<FeederEntry>, known: map<Addr, bool>, s: State, s': State) {
    && s' == s.(validatorOf := s'.validatorOf, feederOf := s'.feederOf)
    && BoundAsListed(fs, s'.validatorOf) && LastAsListed(fs, s'.feederOf)
    && AllKnown(fs, known) && NoFeederTwice(fs)
  }

  lemma ReplayOne(fs: seq<FeederEntry>, n: nat, known: map<Addr, bool>, s: State, s': State)
    requires n < |fs| && Replayed(fs[..n], known, s, s')
    requires fs[n].val in known && fs[n].feeder !in s'.validatorOf
    ensures Msgs.Delegate(s', fs[n].val, fs[n].feeder).Ok?
    ensures Replayed(fs[..n + 1], known, s, Msgs.Delegate(s', fs[n].val, fs[n].feeder).value)
  {
    LastAdds(fs[..n], s'.feederOf, fs[n]);
    BoundAdds(fs[..n], s'.validatorOf, fs[n]);
    assert fs[..n + 1] == fs[..n] + [fs[n]];
  }

  /** Checks and replays the delegations. */
  method ImportFeeders(fs: seq<FeederEntry>, s: State, known: map<Addr, bool>) returns (r: Option<State>)
    requires s.validatorOf == map[] && s.feederOf == map[]
    ensures r.Some? <==> AllKnown(fs, known) && NoFeederTwice(fs)
    ensures r.Some? ==> Replayed(fs, known, s, r.value)
  {
    var cur := s;
    for n := 0 to |fs|
      invariant Replayed(fs[..n], known, s, cur)
    {
      if fs[n].val !in known {
        return None;
      }
      if fs[n].feeder in cur.validatorOf {
        FeederRepeats(fs, n, cur.validatorOf);
        return None;
      }
      ReplayOne(fs, n, known, s, cur);
      cur := Msgs.Delegate(cur, fs[n].val, fs[n].feeder).value;
    }
    assert fs[..|fs|] == fs;
    return Some(cur);
  }

  /** The state after an import: nothing but parameters, prices and delegations. */
  ghost predicate Imported(g: Genesis, s: State) {
    && s == State(g.params, map[], s.prices, map[], map[], map[], s.validatorOf, s.feederOf)
    && ListsPrices(g.prices, s.prices)
    && BoundAsListed(g.feeders, s.validatorOf) && LastAsListed(g.feeders, s.feederOf)
  }

  /** Validates and loads a genesis; a refusal stands for the panic that aborts the start. */
  method InitGenesis(g: Genesis, chainTime: Time, known: map<Addr, bool>) returns (r: Option<State>)
    ensures r.Some? <==> Acceptable(g, chainTime, known)
    ensures r.Some? ==> Imported(g, r.value)
  {
    if !g.params.Valid() {
      return None;
    }
    var prices := ImportPrices(g, chainTime);
    if prices.None? {
      return None;
    }
    r := ImportFeeders(g.feeders, State(g.params, map[], prices.value, map[], map[], map[], map[], map[]), known);
  }

  // ----- the round trip

  /** An export is accepted back exactly when every stored price is accept-listed and not from the future and
      every delegating validator still exists. */
  lemma ExportAcceptedExactly(c: Runs.Chain, g: Genesis, chainTime: Time, known: map<Addr, bool>)
    requires Runs.Inv(c) && IsExport(c.state, g)
    ensures Acceptable(g, chainTime, known) <==>
            && (forall p :: p in c.state.prices ==> p in c.state.params.acceptList && c.state.prices[p].time <= chainTime)
            && (forall v :: v in c.state.feederOf ==> v in known)
  {
    var s := c.state;
    if Acceptable(g, chainTime, known) {
      forall p | p in s.prices ensures p in s.params.acceptList && s.prices[p].time <= chainTime {
        var i :| 0 <= i < |g.prices| && g.prices[i] == PriceEntry(p, s.prices[p]);
        assert PriceAcceptable(g, i, chainTime);
      }
      forall v | v in s.feederOf ensures v in known {
        var i :| 0 <= i < |g.feeders| && g.feeders[i] == FeederEntry(v, s.feederOf[v]);
      }
    }
    forall i, j | 0 <= i < j < |g.feeders| ensures g.feeders[i].feeder != g.feeders[j].feeder {
      assert g.feeders[i].val != g.feeders[j].val;
    }
  }

  /** It happens that an export is refused: the authority's new accept list left out a pair whose price is stored. */
  lemma ExportRefused(c: Runs.Chain, c': Runs.Chain, pair: Pair, p: Params, g: Genesis, chainTime: Time, known: map<Addr, bool>)
    requires Runs.Initial(c) && !c.ended && Runs.PricesInvariant(c.state) && pair in c.state.prices
    requires p.Valid() && pair !in p.acceptList
    requires c' == c.(state := Runs.OrSame(c.state, Msgs.UpdateParams(c.state, true, p))) && IsExport(c'.state, g)
    ensures Runs.IsRun([c, c'], [Runs.UpdateParams(true, p)]) && !Acceptable(g, chainTime, known)
  {
    Runs.PricesInvariantBroken(c, c', pair, p);
    Runs.InvHolds([c, c'], [Runs.UpdateParams(true, p)], 1);
    ExportAcceptedExactly(c', g, chainTime, known);
  }

  /** The validator the feeder is bound to still delegates to it. */
  ghost predicate StillInUse(s: State, f: Addr)
    requires f in s.validatorOf
  {
    s.validatorOf[f] in s.feederOf && s.feederOf[s.validatorOf[f]] == f
  }

  /** Import after export restores parameters, prices and explicit delegations; the feeder bindings come back
      as exactly the inverse of the delegations, so they are all restored only if none was stale. */
  lemma RoundTrip(c: Runs.Chain, g: Genesis, s': State)
    requires Runs.Inv(c) && IsExport(c.state, g) && Imported(g, s')
    ensures s'.params == c.state.params && s'.prices == c.state.prices && s'.feederOf == c.state.feederOf
    ensures forall f, v :: f in s'.validatorOf && s'.validatorOf[f] == v <==> v in c.state.feederOf && c.state.feederOf[v] == f
    ensures s'.validatorOf == c.state.validatorOf <==>
            forall f :: f in c.state.validatorOf ==> StillInUse(c.state, f)
  {
    PricesRestored(g.prices, c.state.prices, s'.prices);
    FeedersRestored(g.feeders, c.state, s');
  }

  lemma PricesRestored(ps: seq<PriceEntry>, a: map<Pair, AggregatedPrice>, b: map<Pair, AggregatedPrice>)
    requires ListsPrices(ps, a) && ListsPrices(ps, b)
    ensures a == b
  {
    forall p ensures p in a <==> p in b {
      if p in a {
        var i :| 0 <= i < |ps| && ps[i] == PriceEntry(p, a[p]);
      }
      if p in b {
        var i :| 0 <= i < |ps| && ps[i] == PriceEntry(p, b[p]);
      }
    }
    forall p | p in a ensures a[p] == b[p] {
      var i :| 0 <= i < |ps| && ps[i] == PriceEntry(p, a[p]);
    }
  }

  lemma FeedersRestored(fs: seq<FeederEntry>, s: State, s': State)
    requires Runs.DelegationOk(s) && ListsFeeders(fs, s.feederOf)
    requires BoundAsListed(fs, s'.validatorOf) && LastAsListed(fs, s'.feederOf)
    ensures s'.feederOf == s.feederOf
    ensures forall f, v :: f in s'.validatorOf && s'.validatorOf[f] == v <==> v in s.feederOf && s.feederOf[v] == f
  {
    forall v | v in s.feederOf ensures v in s'.feederOf {
      var i :| 0 <= i < |fs| && fs[i] == FeederEntry(v, s.feederOf[v]);
    }
    forall v | v in s'.feederOf ensures v in s.feederOf && s'.feederOf[v] == s.feederOf[v] {
      assert IsLast(fs, v, s'.feederOf[v]);
    }
    forall f, v ensures f in s'.validatorOf && s'.validatorOf[f] == v <==> v in s.feederOf && s.feederOf[v] == f {
      if f in s'.validatorOf && s'.validatorOf[f] == v {
        assert FeederEntry(v, f) in fs;
      }
      if v in s.feederOf && s.feederOf[v] == f {
        var i :| 0 <= i < |fs| && fs[i] == FeederEntry(v, f);
      }
    }
  }

  /** What an import yields is a state a run can start from. */
  lemma ImportedIsInitial(g: Genesis, chainTime: Time, known: map<Addr, bool>, s: State, height: nat)
    requires Acceptable(g, chainTime, known) && Imported(g, s)
    ensures Runs.Initial(Runs.Chain(s, height, chainTime, false))
  {
    forall p | p in s.prices ensures s.prices[p].price > 0 && s.prices[p].time <= chainTime {
      var i :| 0 <= i < |g.prices| && g.prices[i] == PriceEntry(p, s.prices[p]);
      assert PriceAcceptable(g, i, chainTime);
    }
    forall v | v in s.feederOf ensures s.feederOf[v] in s.validatorOf && s.validatorOf[s.feederOf[v]] == v {
      assert IsLast(g.feeders, v, s.feederOf[v]);
    }
  }
}
