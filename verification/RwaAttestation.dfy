/** x/oracle and x/rwa on one chain: the price an attestation records. */
module RwaAttestation {
  import opened Dec
  import opened Results
  import opened OracleKeys
  import opened RwaState
  import opened RwaRuns
  import opened RwaTheorems
  import Oracle = OracleRuns
  import OracleMsgs

  /** The two modules of one chain. */
  datatype Both = Both(oracle: Oracle.Chain, rwa: Sys)

  datatype BothEvent = OracleEvent(oe: Oracle.Event) | RwaEvent(re: Event)

  /** What x/oracle answers x/rwa about a pair. */
  function PriceAnswer(c: Oracle.Chain, pair: Pair): Option<Dec> {
    match OracleMsgs.GetPrice(c.state, pair, c.time)
    case Ok(p) => Some(p)
    case Err(_) => None
  }

  /** An attestation asks x/oracle for the price of the asset's pair, now. */
  ghost predicate AsksOracle(b: Both, e: Event) {
    e.AttestAsset? && e.id in b.rwa.w.assets ==> e.price == PriceAnswer(b.oracle, b.rwa.w.assets[e.id].pair)
  }

  ghost predicate BothStep(b: Both, e: BothEvent, b': Both)
    requires Inv(b.rwa)
  {
    match e
    case OracleEvent(oe) => Oracle.Step(b.oracle, oe, b'.oracle) && b'.rwa == b.rwa
    case RwaEvent(re) => b'.oracle == b.oracle && AsksOracle(b, re) && b'.rwa == Next(b.rwa, re)
  }

  ghost predicate BothStepAt(bs: seq<Both>, es: seq<BothEvent>, i: int)
    requires |bs| == |es| + 1 && 0 <= i < |es|
  {
    Inv(bs[i].rwa) && BothStep(bs[i], es[i], bs[i + 1])
  }

  ghost predicate IsBothRun(bs: seq<Both>, es: seq<BothEvent>) {
    && |bs| == |es| + 1 && Oracle.Initial(bs[0].oracle) && Initial(bs[0].rwa)
    && forall i :: 0 <= i < |es| ==> BothStepAt(bs, es, i)
  }

  /** Both machines stay in their invariants, so asking for that of x/rwa in a run leaves nothing out. */
  lemma BothInvariants(bs: seq<Both>, es: seq<BothEvent>, n: nat)
    requires IsBothRun(bs, es) && n < |bs|
    ensures Oracle.Inv(bs[n].oracle) && Inv(bs[n].rwa)
  {
    OracleInvariant(bs, es, n);
    RwaInvariant(bs, es, n);
  }

  lemma {:induction false} OracleInvariant(bs: seq<Both>, es: seq<BothEvent>, n: nat)
    requires IsBothRun(bs, es) && n < |bs|
    ensures Oracle.Inv(bs[n].oracle)
  {
    if n > 0 {
      OracleInvariant(bs, es, n - 1);
      OracleStepAt(bs, es, n - 1);
    }
  }

  lemma OracleStepAt(bs: seq<Both>, es: seq<BothEvent>, i: nat)
    requires IsBothRun(bs, es) && i < |es| && Oracle.Inv(bs[i].oracle)
    ensures Oracle.Inv(bs[i + 1].oracle)
  {
    assert BothStepAt(bs, es, i);
    if es[i].OracleEvent? {
      Oracle.StepKeepsInv(bs[i].oracle, es[i].oe, bs[i + 1].oracle);
    }
  }

  lemma RwaInvariant(bs: seq<Both>, es: seq<BothEvent>, n: nat)
    requires IsBothRun(bs, es) && n < |bs|
    ensures Inv(bs[n].rwa)
  {
    if n == 0 {
      InitialInv(bs[0].rwa);
    } else {
      assert BothStepAt(bs, es, n - 1);
      if es[n - 1].RwaEvent? {
        NextKeepsInv(bs[n - 1].rwa, es[n - 1].re);
      }
    }
  }

  /** The pair is accepted and p is its stored price: positive, and not too old to be read. */
  ghost predicate FreshPrice(c: Oracle.Chain, pair: Pair, p: Dec) {
    && pair in c.state.params.acceptList && pair in c.state.prices
    && p == c.state.prices[pair].price && p > 0
    && c.time - c.state.prices[pair].time <= c.state.params.MaxAge()
  }

  lemma AnswerIsFresh(c: Oracle.Chain, pair: Pair, p: Dec)
    requires Oracle.Inv(c) && PriceAnswer(c, pair) == Some(p)
    ensures FreshPrice(c, pair, p)
  {
  }

  /** A new asset starts as a draft. */
  lemma NewAssetsAreDrafts(s: Sys, e: Event, id: AssetId)
    requires Inv(s) && id !in s.w.assets && id in Next(s, e).w.assets
    ensures Next(s, e).w.assets[id].status == Draft
  {
    if !AssetEvent(e) {
      OtherEventsLeaveAssets(s, e);
    } else if !e.RegisterAsset? {
      AssetEventLives(s, e);
    }
  }

  ghost predicate PriceKeptOrFresh(b: Both, a: Asset, a': Asset) {
    && a'.pair == a.pair
    && (if a.status != Draft then a'.attestedPrice == a.attestedPrice
        else FreshPrice(b.oracle, a'.pair, a'.attestedPrice))
  }

  /** An event of x/rwa leaves an asset past the draft status with the price it had, or gives it the oracle's. */
  lemma PriceStep(b: Both, e: Event, id: AssetId)
    requires Oracle.Inv(b.oracle) && Inv(b.rwa) && AsksOracle(b, e)
    requires id in Next(b.rwa, e).w.assets && Next(b.rwa, e).w.assets[id].status != Draft
    ensures id in b.rwa.w.assets && PriceKeptOrFresh(b, b.rwa.w.assets[id], Next(b.rwa, e).w.assets[id])
  {
    if id !in b.rwa.w.assets {
      NewAssetsAreDrafts(b.rwa, e, id);
    } else {
      LifeStep(b.rwa, e, id);
      if b.rwa.w.assets[id].status == Draft {
        AnswerIsFresh(b.oracle, b.rwa.w.assets[id].pair, Next(b.rwa, e).w.assets[id].attestedPrice);
      }
    }
  }

  /** The genesis already had the asset past the draft status, at this price. */
  ghost predicate AttestedBefore(s: Sys, id: AssetId, price: Dec) {
    id in s.w.assets && s.w.assets[id].status != Draft && s.w.assets[id].attestedPrice == price
  }

  /** An asset that has left the draft status carries the price it came with at genesis, or one that x/oracle held for
      its pair at some earlier point of the run: positive, of an accepted pair and fresh at that point. */
  lemma {:induction false} AttestedWhenFresh(bs: seq<Both>, es: seq<BothEvent>, n: nat, id: AssetId)
    requires IsBothRun(bs, es) && n < |bs| && id in bs[n].rwa.w.assets && bs[n].rwa.w.assets[id].status != Draft
    ensures var a := bs[n].rwa.w.assets[id];
            || AttestedBefore(bs[0].rwa, id, a.attestedPrice)
            || exists k :: 0 <= k < n && FreshPrice(bs[k].oracle, a.pair, a.attestedPrice)
  {
    if n > 0 {
      BothInvariants(bs, es, n - 1);
      PriceStepAt(bs, es, n - 1, id);
      if bs[n - 1].rwa.w.assets[id].status != Draft {
        AttestedWhenFresh(bs, es, n - 1, id);
      }
    }
  }

  lemma PriceStepAt(bs: seq<Both>, es: seq<BothEvent>, i: nat, id: AssetId)
    requires IsBothRun(bs, es) && i < |es| && Oracle.Inv(bs[i].oracle) && Inv(bs[i].rwa)
    requires id in bs[i + 1].rwa.w.assets && bs[i + 1].rwa.w.assets[id].status != Draft
    ensures id in bs[i].rwa.w.assets && PriceKeptOrFresh(bs[i], bs[i].rwa.w.assets[id], bs[i + 1].rwa.w.assets[id])
  {
    assert BothStepAt(bs, es, i);
    if es[i].RwaEvent? {
      PriceStep(bs[i], es[i].re, id);
    }
  }
}
