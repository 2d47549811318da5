/** The feeder and the chain together: where a submitted batch ends up. */
module FeederOnChain {
  import opened OracleState
  import Runs = OracleRuns
  import Loop = FeederLoop

  /** On a chain whose vote window stays v, a feed submitted in block b by a feeder that saw height h < b, with b no
      later than the end of window h / v, is read with its price by the boundary at height (h / v + 1) * v exactly when
      the validator has not replaced it by then, counts there exactly when the pair is still accepted and the validator
      is bonded with power, and is read by no other boundary of the run. */
  lemma SubmissionIsAggregated(cs: seq<Runs.Chain>, es: seq<Runs.Event>, k: nat, n: nat, id: FeedId, h: nat, v: int)
    requires Runs.IsRun(cs, es) && k < n < |es| && v > 0
    requires forall i :: k <= i <= n ==> cs[i].state.params.voteWindow == v
    requires Runs.Accepted(cs[k], es[k], id) && h < cs[k].height <= (h / v + 1) * v
    requires es[n].EndOfBlock? && cs[n].height == (h / v + 1) * v
    ensures Runs.Reads(cs, es, n, k, id) <==> Runs.NotReplaced(cs, es, k, n, id)
    ensures Runs.Reads(cs, es, n, k, id) ==>
              id in cs[n].state.feeds && cs[n].state.feeds[id] == Feed(es[k].price, cs[k].height)
    ensures Runs.Aggregates(cs, es, n, k, id) <==>
            && Runs.NotReplaced(cs, es, k, n, id) && id.pair in cs[n].state.params.acceptList
            && es[n].st.Bonded(id.val) && es[n].st.Power(id.val) > 0
    ensures forall m :: 0 <= m < |es| && m != n ==> !Runs.Reads(cs, es, m, k, id)
  {
    Loop.AggregatedInItsWindow(h, cs[k].height, v);
    assert Runs.StepAt(cs, es, n);
    forall i | k < i < n ensures !Runs.IsBoundary(cs[i], es[i]) {
      if Runs.IsBoundary(cs[i], es[i]) {
        Runs.MessagesAfterBoundary(cs, es, i, n);
        HeightsGrow(cs, es, k, i);
      }
    }
    forall m | 0 <= m < |es| && m != n ensures !Runs.Reads(cs, es, m, k, id) {
      Runs.AggregatedOnce(cs, es, k, n, m, id);
    }
    Runs.AggregatedOnce(cs, es, k, n, n, id);
  }

  lemma {:induction false} HeightsGrow(cs: seq<Runs.Chain>, es: seq<Runs.Event>, k: nat, n: nat)
    requires Runs.IsRun(cs, es) && k <= n < |cs|
    ensures cs[k].height <= cs[n].height
    decreases n
  {
    if k < n {
      HeightsGrow(cs, es, k, n - 1);
      assert Runs.StepAt(cs, es, n - 1);
    }
  }
}
