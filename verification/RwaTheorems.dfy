/** What the ledger machine of x/rwa and x/fees guarantees over every run. */
module RwaTheorems {
  import opened Bytes
  import opened Dec
  import opened Sums
  import opened Results
  import opened Ledger
  import opened RwaState
  import opened RwaRuns

  // ----- the registered invariants

  /** Non-settled bonds are covered by the module account, and every active asset is bonded. */
  ghost predicate BondInvariant(w: World) {
    && Escrowed(w.assets) <= Bal(w.bank, RWA, UVTX)
    && forall id :: id in w.assets && w.assets[id].status == Active ==> w.assets[id].bond > 0
  }

  /** An asset that was never minted has no coins. */
  ghost predicate DenomInvariant(w: World) {
    forall id :: id in w.assets && (w.assets[id].status == Draft || w.assets[id].status == Attested)
             ==> Supply(w.bank, w.assets[id].denom) == 0
  }

  /** The missing supply is what x/fees burned. */
  ghost predicate ReconcileInvariant(w: World) {
    w.genesisSupply - Supply(w.bank, UVTX) == w.burned
  }

  ghost predicate ModuleBalanceInvariant(w: World) {
    Bal(w.bank, FEES, UVTX) == 0
  }

  /** In every state reachable from a genesis the escrow holds exactly the non-settled bonds plus donations,
      so the two x/rwa invariants hold; the two x/fees invariants hold exactly while nobody else burns uvtx
      and nobody sends uvtx to the fees account. */
  lemma InvariantsHoldExactly(s0: Sys, es: seq<Event>)
    requires Initial(s0)
    ensures Inv(s0)
    ensures var s := After(s0, es);
            && Bal(s.w.bank, RWA, UVTX) == Escrowed(s.w.assets) + s.donated
            && s.w.genesisSupply - Supply(s.w.bank, UVTX) == s.w.burned + s.external
            && BondInvariant(s.w) && DenomInvariant(s.w)
            && (ReconcileInvariant(s.w) <==> s.external == 0)
            && (ModuleBalanceInvariant(s.w) <==> s.feesDonated == 0)
  {
    InitialInv(s0);
    var s := After(s0, es);
    forall id | id in s.w.assets
      ensures s.w.assets[id].status == Active ==> s.w.assets[id].bond > 0
      ensures s.w.assets[id].status == Draft || s.w.assets[id].status == Attested ==> Supply(s.w.bank, s.w.assets[id].denom) == 0
    {
      assert IdOk(s.w, id);
    }
  }

  /** In every reachable state the supply of an asset's denom is its minted notional until it is settled:
      zero after settling, unchanged after slashing, and zero for an id nobody registered. */
  lemma SupplyFollowsNotional(s0: Sys, es: seq<Event>, id: AssetId)
    requires Initial(s0)
    ensures Inv(s0)
    ensures var w := After(s0, es).w;
            Supply(w.bank, BuildDenom(id)) ==
              if id !in w.assets then 0
              else if w.assets[id].status == Settled && w.assets[id].bond > 0 then 0
              else w.assets[id].notional
  {
    InitialInv(s0);
    assert IdOk(After(s0, es).w, id);
  }

  // ----- settling and slashing

  /** Settling succeeds exactly for the issuer of an active asset that can pay the fee and holds the whole
      supply; the escrow itself never stands in the way. */
  lemma SettleSucceedsExactly(s: Sys, caller: Addr, id: AssetId)
    requires Inv(s) && CanSign(caller)
    ensures Settle(s.w, caller, id).Ok? <==>
            && id in s.w.assets && s.w.assets[id].issuer == caller && s.w.assets[id].status == Active
            && s.w.assets[id].notional * s.w.params.settleFeeRate / ONE <= Bal(s.w.bank, caller, UVTX)
            && Bal(s.w.bank, caller, BuildDenom(id)) == Supply(s.w.bank, BuildDenom(id))
  {
    assert IdOk(s.w, id);
    BalanceAtMostSupply(s.w.bank, caller, BuildDenom(id));
    if id in s.w.assets && s.w.assets[id].status == Active {
      var a := s.w.assets[id];
      var fee := ComputeFee(a.notional, s.w.params.settleFeeRate);
      FeeIsFloor(a.notional, s.w.params.settleFeeRate);
      DenomRoundTrip(id);
      EscrowAtLeast(s.w, id);
      if fee <= Bal(s.w.bank, caller, UVTX) {
        MoveKeepsBooks(s.w.bank, caller, FEE_COLLECTOR, UVTX, fee);
        var paid := Move(s.w.bank, caller, FEE_COLLECTOR, UVTX, fee);
        if a.notional <= Bal(paid, caller, a.denom) {
          BurnKeepsBooks(paid, caller, a.denom, a.notional);
        }
      }
    }
  }

  /** After settling nobody holds any coin of the asset, and the bond has left the escrow. */
  lemma SettleLeavesNothing(s: Sys, caller: Addr, id: AssetId, holder: Addr)
    requires Inv(s) && CanSign(caller) && Settle(s.w, caller, id).Ok?
    ensures var w' := Settle(s.w, caller, id).value;
            && Supply(w'.bank, BuildDenom(id)) == 0 && Bal(w'.bank, holder, BuildDenom(id)) == 0
            && Bal(w'.bank, RWA, UVTX) == Bal(s.w.bank, RWA, UVTX) - s.w.assets[id].bond
  {
    assert IdOk(s.w, id);
    SettleLegs(s, caller, id);
    BalanceAtMostSupply(Settle(s.w, caller, id).value.bank, holder, BuildDenom(id));
  }

  /** Governance can slash exactly the active assets: the bond is always there. */
  lemma SlashSucceedsExactly(s: Sys, auth: bool, id: AssetId)
    requires Inv(s)
    ensures Slash(s.w, auth, id).Ok? <==> auth && id in s.w.assets && s.w.assets[id].status == Active
  {
    assert IdOk(s.w, id);
    if id in s.w.assets && s.w.assets[id].status == Active {
      EscrowAtLeast(s.w, id);
    }
  }

  // ----- what money moves

  /** A mint costs the issuer the exact fee rounded down, all of it collected, and no uvtx besides. */
  lemma MintCosts(s: Sys, caller: Addr, id: AssetId, notional: int, a: Addr)
    requires Inv(s) && CanSign(caller) && Mint(s.w, caller, id, notional).Ok?
    ensures notional > 0
    ensures var l, l' := s.w.bank, Mint(s.w, caller, id, notional).value.bank;
            var fee := notional * s.w.params.mintFeeRate / ONE;
            Bal(l', a, UVTX) == Bal(l, a, UVTX) + if a == caller then -fee else if a == FEE_COLLECTOR then fee else 0
  {
    assert IdOk(s.w, id);
    DenomRoundTrip(id);
    FeeIsFloor(notional, s.w.params.mintFeeRate);
    var fee := ComputeFee(notional, s.w.params.mintFeeRate);
    MoveKeepsBooks(s.w.bank, caller, FEE_COLLECTOR, UVTX, fee);
    MintKeepsBooks(Move(s.w.bank, caller, FEE_COLLECTOR, UVTX, fee), caller, BuildDenom(id), notional);
  }

  /** Settling costs the issuer the exact fee rounded down and returns the bond from the escrow. */
  lemma SettlePays(s: Sys, caller: Addr, id: AssetId, a: Addr)
    requires Inv(s) && CanSign(caller) && Settle(s.w, caller, id).Ok?
    ensures var l, l' := s.w.bank, Settle(s.w, caller, id).value.bank;
            var bond, fee := s.w.assets[id].bond, s.w.assets[id].notional * s.w.params.settleFeeRate / ONE;
            Bal(l', a, UVTX) == Bal(l, a, UVTX)
              + if a == caller then bond - fee else if a == FEE_COLLECTOR then fee else if a == RWA then 0 - bond else 0
  {
    var x := s.w.assets[id];
    assert IdOk(s.w, id);
    DenomRoundTrip(id);
    FeeIsFloor(x.notional, s.w.params.settleFeeRate);
    EscrowAtLeast(s.w, id);
    SettleFunds(s, caller, id);
    PayBurnAndRelease(s.w.bank, caller, FEE_COLLECTOR, UVTX, ComputeFee(x.notional, s.w.params.settleFeeRate),
                      x.denom, x.notional, RWA, x.bond);
  }

  /** The fee leg leaves the asset's coins alone, so settling needs them before it. */
  lemma SettleFunds(s: Sys, caller: Addr, id: AssetId)
    requires Inv(s) && CanSign(caller) && Settle(s.w, caller, id).Ok?
    ensures s.w.assets[id].notional <= Bal(s.w.bank, caller, s.w.assets[id].denom)
  {
    var x := s.w.assets[id];
    assert IdOk(s.w, id);
    DenomRoundTrip(id);
    FeeAtMost(x.notional, s.w.params.settleFeeRate);
    MoveKeepsBooks(s.w.bank, caller, FEE_COLLECTOR, UVTX, ComputeFee(x.notional, s.w.params.settleFeeRate));
  }

  /** Slashing moves the whole bond from the escrow to the community pool and leaves everything else. */
  lemma SlashPays(s: Sys, auth: bool, id: AssetId, a: Addr, d: Denom)
    requires Inv(s) && Slash(s.w, auth, id).Ok?
    ensures var l, l' := s.w.bank, Slash(s.w, auth, id).value.bank;
            var bond := s.w.assets[id].bond;
            Bal(l', a, d) == Bal(l, a, d) + if d != UVTX then 0 else if a == DISTRIBUTION then bond else if a == RWA then 0 - bond else 0
  {
    assert IdOk(s.w, id);
    MoveKeepsBooks(s.w.bank, RWA, DISTRIBUTION, UVTX, Payable(s.w.assets[id].bond));
  }

  // ----- the life of an asset

  /** Along draft, attested, active, settled: attested by its issuer with an oracle price, active by a mint of its
      issuer, settled by its issuer or by governance. */
  ghost predicate StatusMoves(a: Asset, b: Asset, e: Event) {
    || (a.status == Draft && b.status == Attested && e.AttestAsset? && e.id == a.id && e.issuer == a.issuer)
    || (a.status == Attested && b.status == Active && e.MintRWA? && e.id == a.id && e.issuer == a.issuer)
    || (a.status == Active && b.status == Settled && e.SettleRWA? && e.id == a.id && e.issuer == a.issuer)
    || (a.status == Active && b.status == Settled && e.SlashBond? && e.id == a.id && e.fromAuthority)
  }

  /** A record's identity never changes. Its status moves along, the price comes with the attestation, the notional
      grows by mints of the issuer, only slashing takes the bond, and only the issuer opens or closes the asset to
      everybody, before it is settled. */
  ghost predicate LivesOn(a: Asset, b: Asset, e: Event) {
    && b.id == a.id && b.issuer == a.issuer && b.name == a.name && b.pair == a.pair && b.denom == a.denom
    && (a.status == b.status || StatusMoves(a, b, e))
    && (if a.status == Draft && b.status == Attested then e.AttestAsset? && e.price == Some(b.attestedPrice)
        else a.attestedPrice == b.attestedPrice)
    && (a.notional == b.notional
        || (e.MintRWA? && e.id == a.id && e.issuer == a.issuer && b.status == Active && e.notional > 0
            && b.notional == a.notional + e.notional))
    && (a.bond == b.bond || (e.SlashBond? && e.id == a.id && e.fromAuthority && a.status == Active && b.bond == 0))
    && (a.allowAll == b.allowAll
        || (e.ChangeRestrictions? && e.id == a.id && e.issuer == a.issuer && a.status != Settled && b.allowAll == e.allowAll))
  }

  lemma OtherEventsLeaveAssets(s: Sys, e: Event)
    requires Inv(s) && !AssetEvent(e)
    ensures Next(s, e).w.assets == s.w.assets
  {
  }

  /** The asset an asset event writes back is the one it read, moved along. */
  lemma AssetEventLives(s: Sys, e: Event)
    requires Inv(s) && Possible(e) && AssetEvent(e) && !e.RegisterAsset? && Outcome(s.w, e).Ok?
    ensures var w' := Outcome(s.w, e).value;
            && e.id in s.w.assets && e.id in w'.assets && w'.assets == s.w.assets[e.id := w'.assets[e.id]]
            && LivesOn(s.w.assets[e.id], w'.assets[e.id], e)
  {
    assert IdOk(s.w, e.id);
  }

  lemma LivesUnchanged(a: Asset, e: Event)
    ensures LivesOn(a, a, e)
  {
  }

  /** Any asset lives through an asset event, its own or another's. */
  lemma AssetLives(s: Sys, e: Event, id: AssetId)
    requires Inv(s) && Possible(e) && AssetEvent(e) && Outcome(s.w, e).Ok? && id in s.w.assets
    ensures id in Outcome(s.w, e).value.assets && LivesOn(s.w.assets[id], Outcome(s.w, e).value.assets[id], e)
  {
    LivesUnchanged(s.w.assets[id], e);
    if !e.RegisterAsset? {
      AssetEventLives(s, e);
    }
  }

  /** No event removes an asset or moves it along in any other way. */
  lemma LifeStep(s: Sys, e: Event, id: AssetId)
    requires Inv(s) && id in s.w.assets
    ensures id in Next(s, e).w.assets && LivesOn(s.w.assets[id], Next(s, e).w.assets[id], e)
  {
    LivesUnchanged(s.w.assets[id], e);
    if !AssetEvent(e) {
      OtherEventsLeaveAssets(s, e);
    } else if Possible(e) && Outcome(s.w, e).Ok? {
      AssetLives(s, e, id);
    }
  }

  ghost function Rank(st: Status): nat {
    match st
    case Draft => 0
    case Attested => 1
    case Active => 2
    case Settled => 3
  }

  /** Same identity, no step back, the attested price kept; a settled asset entirely unchanged. */
  ghost predicate Grown(a: Asset, b: Asset) {
    && b.id == a.id && b.issuer == a.issuer && b.name == a.name && b.pair == a.pair && b.denom == a.denom
    && Rank(a.status) <= Rank(b.status) && a.notional <= b.notional
    && (a.status != Draft ==> b.attestedPrice == a.attestedPrice)
    && (a.status == Settled ==> b == a)
  }

  lemma GrowsOn(a: Asset, b: Asset, c: Asset, e: Event)
    requires Grown(a, b) && LivesOn(b, c, e)
    ensures Grown(a, c)
  {
  }

  /** Over any run an asset keeps its identity and never moves back; once settled it stays as it is. */
  lemma {:induction false} LifeOverRun(s: Sys, es: seq<Event>, id: AssetId)
    requires Inv(s) && id in s.w.assets
    ensures id in After(s, es).w.assets
    ensures Grown(s.w.assets[id], After(s, es).w.assets[id])
    decreases |es|
  {
    if es != [] {
      var n := |es| - 1;
      LifeOverRun(s, es[..n], id);
      LifeStep(After(s, es[..n]), es[n], id);
      GrowsOn(s.w.assets[id], After(s, es[..n]).w.assets[id], After(s, es).w.assets[id], es[n]);
    }
  }

  // ----- what one event does to one balance of an asset's coins

  /** Coins of asset `id` that the event pays out to `a` by minting. */
  ghost function Payout(s: Sys, e: Event, id: AssetId, a: Addr): nat
    requires Inv(s)
  {
    if Possible(e) && e.MintRWA? && e.id == id && e.issuer == a && Outcome(s.w, e).Ok? && e.notional > 0 then e.notional else 0
  }

  /** Coins of asset `id` that the event takes from `a` by a transfer to the module account or by settling. */
  ghost function Surrender(s: Sys, e: Event, id: AssetId, a: Addr): nat
    requires Inv(s)
  {
    if !Possible(e) || Outcome(s.w, e).Err? then 0
    else if e.BankSend? && e.from == a && e.to == RWA then AmountOf(e.coins, BuildDenom(id))
    else if e.TransferRWA? && e.sender == a && e.recipient == RWA && e.id == id && e.amount > 0 then e.amount
    else if e.SettleRWA? && e.issuer == a && e.id == id && id in s.w.assets then Payable(s.w.assets[id].notional)
    else 0
  }

  /** The holder may neither send nor receive the asset's coins. */
  ghost predicate Frozen(w: World, id: AssetId, a: Addr) {
    && id in w.assets && a != RWA
    && (Member(id, a) in w.deny || (!w.assets[id].allowAll && Member(id, a) !in w.allow))
  }

  /** A send that goes through and involves a frozen holder, other than with the module, carries none of its coins. */
  lemma {:induction false} FrozenSend(w: World, id: AssetId, a: Addr, from: Addr, to: Addr, coins: seq<Coin>)
    requires Frozen(w, id, a) && (from == a || to == a) && from != RWA && to != RWA && id != []
    requires SendRestriction(w, from, to, coins).None?
    ensures AmountOf(coins, BuildDenom(id)) == 0
    decreases |coins|
  {
    if coins != [] {
      FrozenSend(w, id, a, from, to, coins[1..]);
      DenomRoundTrip(id);
    }
  }

  lemma FrozenBankSend(s: Sys, from: Addr, to: Addr, coins: seq<Coin>, id: AssetId, a: Addr)
    requires Inv(s) && Frozen(s.w, id, a) && from != RWA && Send(s.w, from, to, coins).Ok?
    ensures Bal(Send(s.w, from, to, coins).value.bank, a, BuildDenom(id)) ==
            Bal(s.w.bank, a, BuildDenom(id)) - if from == a && to == RWA then AmountOf(coins, BuildDenom(id)) else 0
  {
    MoveAllKeepsBooks(s.w.bank, from, to, coins);
    if (from == a || to == a) && to != RWA {
      assert IdOk(s.w, id);
      FrozenSend(s.w, id, a, from, to, coins);
    }
  }

  lemma FrozenMint(s: Sys, caller: Addr, id': AssetId, n: int, id: AssetId, a: Addr)
    requires Inv(s) && CanSign(caller) && id in s.w.assets && Mint(s.w, caller, id', n).Ok?
    ensures n > 0
    ensures Bal(Mint(s.w, caller, id', n).value.bank, a, BuildDenom(id)) ==
            Bal(s.w.bank, a, BuildDenom(id)) + if id' == id && caller == a then n else 0
  {
    MintLegs(s, caller, id', n);
    DenomRoundTrip(id);
    if BuildDenom(id) == BuildDenom(id') {
      DenomsDiffer(id, id');
    }
  }

  lemma FrozenSettle(s: Sys, caller: Addr, id': AssetId, id: AssetId, a: Addr)
    requires Inv(s) && CanSign(caller) && id in s.w.assets && Settle(s.w, caller, id').Ok?
    ensures Bal(Settle(s.w, caller, id').value.bank, a, BuildDenom(id)) ==
            Bal(s.w.bank, a, BuildDenom(id)) - if id' == id && caller == a then Payable(s.w.assets[id].notional) else 0
  {
    assert IdOk(s.w, id) && IdOk(s.w, id');
    DenomRoundTrip(id);
    if BuildDenom(id) == BuildDenom(id') {
      DenomsDiffer(id, id');
    }
    SettleLegs(s, caller, id');
  }

  /** The events that can move, create or destroy coins of an asset. */
  predicate CoinEvent(e: Event) {
    e.MintRWA? || e.TransferRWA? || e.SettleRWA? || e.BankSend?
  }

  /** The remaining events move or burn uvtx only. */
  lemma UvtxEvent(s: Sys, e: Event, id: AssetId, a: Addr)
    requires Inv(s) && Possible(e) && Outcome(s.w, e).Ok? && !CoinEvent(e)
    ensures Bal(Outcome(s.w, e).value.bank, a, BuildDenom(id)) == Bal(s.w.bank, a, BuildDenom(id))
  {
    DenomRoundTrip(id);
    match e
    case RegisterAsset(i, _, _, _, bond) => MoveKeepsBooks(s.w.bank, i, RWA, UVTX, bond);
    case SlashBond(_, id') => MoveKeepsBooks(s.w.bank, RWA, DISTRIBUTION, UVTX, Payable(s.w.assets[id'].bond));
    case OtherBurn(acct, amt) => BurnKeepsBooks(s.w.bank, acct, UVTX, amt);
    case BlockEnd =>
      FeeAtMost(Bal(s.w.bank, FEE_COLLECTOR, UVTX), s.w.fees.burnRatio);
      BurnKeepsBooks(s.w.bank, FEE_COLLECTOR, UVTX, BurnAmount(s.w));
    case _ =>
  }

  lemma FrozenTransfer(s: Sys, sender: Addr, recipient: Addr, id': AssetId, amt: int, id: AssetId, a: Addr)
    requires Inv(s) && CanSign(sender) && Frozen(s.w, id, a) && Transfer(s.w, sender, recipient, id', amt).Ok?
    ensures amt > 0
    ensures Bal(Transfer(s.w, sender, recipient, id', amt).value.bank, a, BuildDenom(id)) ==
            Bal(s.w.bank, a, BuildDenom(id)) - if sender == a && recipient == RWA && id' == id then amt else 0
  {
    assert IdOk(s.w, id');
    OneCoin(BuildDenom(id'), amt, BuildDenom(id));
    if BuildDenom(id) == BuildDenom(id') {
      DenomsDiffer(id, id');
    }
    FrozenBankSend(s, sender, recipient, [Coin(BuildDenom(id'), amt)], id, a);
  }

  lemma FrozenCoinEvent(s: Sys, e: Event, id: AssetId, a: Addr)
    requires Inv(s) && Frozen(s.w, id, a) && Possible(e) && Outcome(s.w, e).Ok? && CoinEvent(e)
    ensures Bal(Outcome(s.w, e).value.bank, a, BuildDenom(id)) ==
            Bal(s.w.bank, a, BuildDenom(id)) + Payout(s, e, id, a) - Surrender(s, e, id, a)
  {
    match e
    case MintRWA(i, id', n) => FrozenMint(s, i, id', n, id, a);
    case TransferRWA(f, t, id', amt) => FrozenTransfer(s, f, t, id', amt, id, a);
    case SettleRWA(i, id') => FrozenSettle(s, i, id', id, a);
    case BankSend(f, t, coins) => FrozenBankSend(s, f, t, coins, id, a);
  }

  /** While a holder is frozen, an event changes its balance only by a mint payout or by what it gives up to the module. */
  lemma FrozenStep(s: Sys, e: Event, id: AssetId, a: Addr)
    requires Inv(s) && Frozen(s.w, id, a)
    ensures Bal(Next(s, e).w.bank, a, BuildDenom(id)) ==
            Bal(s.w.bank, a, BuildDenom(id)) + Payout(s, e, id, a) - Surrender(s, e, id, a)
  {
    if Possible(e) && Outcome(s.w, e).Ok? {
      if CoinEvent(e) {
        FrozenCoinEvent(s, e, id, a);
      } else {
        UvtxEvent(s, e, id, a);
      }
    }
  }

  ghost function Payouts(s: Sys, es: seq<Event>, id: AssetId, a: Addr): nat
    requires Inv(s)
  {
    if es == [] then 0
    else Payouts(s, es[..|es| - 1], id, a) + Payout(After(s, es[..|es| - 1]), es[|es| - 1], id, a)
  }

  ghost function Surrenders(s: Sys, es: seq<Event>, id: AssetId, a: Addr): nat
    requires Inv(s)
  {
    if es == [] then 0
    else Surrenders(s, es[..|es| - 1], id, a) + Surrender(After(s, es[..|es| - 1]), es[|es| - 1], id, a)
  }

  /** The holder is frozen before every event of the run. */
  ghost predicate FrozenThroughout(s: Sys, es: seq<Event>, id: AssetId, a: Addr)
    requires Inv(s)
  {
    es != [] ==> FrozenThroughout(s, es[..|es| - 1], id, a) && Frozen(After(s, es[..|es| - 1]).w, id, a)
  }

  /** Over any run during which a holder stays frozen, its balance is what it was plus mint payouts minus what it
      gave up to the module: nothing else reaches it and nothing else leaves it. */
  lemma {:induction false} FrozenOverRun(s: Sys, es: seq<Event>, id: AssetId, a: Addr)
    requires Inv(s) && FrozenThroughout(s, es, id, a)
    ensures Bal(After(s, es).w.bank, a, BuildDenom(id)) ==
            Bal(s.w.bank, a, BuildDenom(id)) + Payouts(s, es, id, a) - Surrenders(s, es, id, a)
    decreases |es|
  {
    if es != [] {
      var n := |es| - 1;
      FrozenOverRun(s, es[..n], id, a);
      FrozenStep(After(s, es[..n]), es[n], id, a);
    }
  }

  // ----- coins sent to the module account

  lemma ModuleCoinEvent(s: Sys, e: Event, id: AssetId)
    requires Inv(s) && id in s.w.assets && Possible(e) && Outcome(s.w, e).Ok? && CoinEvent(e)
    ensures Bal(Outcome(s.w, e).value.bank, RWA, BuildDenom(id)) >= Bal(s.w.bank, RWA, BuildDenom(id))
  {
    match e
    case MintRWA(i, id', n) => FrozenMint(s, i, id', n, id, RWA);
    case TransferRWA(f, t, id', amt) => MoveAllKeepsBooks(s.w.bank, f, t, [Coin(s.w.assets[id'].denom, amt)]);
    case SettleRWA(i, id') => FrozenSettle(s, i, id', id, RWA);
    case BankSend(f, t, coins) => MoveAllKeepsBooks(s.w.bank, f, t, coins);
  }

  /** No event takes an asset's coins out of the module account. */
  lemma ModuleCoinsStep(s: Sys, e: Event, id: AssetId)
    requires Inv(s) && id in s.w.assets
    ensures Bal(Next(s, e).w.bank, RWA, BuildDenom(id)) >= Bal(s.w.bank, RWA, BuildDenom(id))
  {
    if Possible(e) && Outcome(s.w, e).Ok? {
      if CoinEvent(e) {
        ModuleCoinEvent(s, e, id);
      } else {
        UvtxEvent(s, e, id, RWA);
      }
    }
  }

  lemma {:induction false} ModuleCoinsStay(s: Sys, es: seq<Event>, id: AssetId)
    requires Inv(s) && id in s.w.assets
    ensures id in After(s, es).w.assets
    ensures Bal(After(s, es).w.bank, RWA, BuildDenom(id)) >= Bal(s.w.bank, RWA, BuildDenom(id))
    decreases |es|
  {
    if es != [] {
      var n := |es| - 1;
      ModuleCoinsStay(s, es[..n], id);
      ModuleCoinsStep(After(s, es[..n]), es[n], id);
      LifeStep(After(s, es[..n]), es[n], id);
    }
  }

  /** Once a coin of an asset has been sent to the module account, its issuer can never settle it again: the coin
      stays there and settling needs the whole supply. Only governance can then end the asset. */
  lemma StrandedCoinBlocksSettling(s: Sys, es: seq<Event>, id: AssetId, caller: Addr)
    requires Inv(s) && id in s.w.assets && Bal(s.w.bank, RWA, BuildDenom(id)) > 0 && CanSign(caller)
    ensures Settle(After(s, es).w, caller, id).Err?
  {
    var s' := After(s, es);
    ModuleCoinsStay(s, es, id);
    SettleSucceedsExactly(s', caller, id);
    TwoBalancesAtMostSupply(s'.w.bank, RWA, caller, BuildDenom(id));
  }

  // ----- the fee burn

  /** A block end burns the exact share, rounded down, of what the fee collector holds, and touches no other
      balance: in particular not the fees module's own account. */
  lemma BlockEndSplits(s: Sys, a: Addr, d: Denom)
    requires Inv(s)
    ensures var w, w' := s.w, EndBlockFees(s.w);
            var burn := Bal(w.bank, FEE_COLLECTOR, UVTX) * w.fees.burnRatio / ONE;
            && w'.burned == w.burned + burn && Supply(w'.bank, UVTX) == Supply(w.bank, UVTX) - burn
            && 0 <= burn <= Bal(w.bank, FEE_COLLECTOR, UVTX)
            && Bal(w'.bank, a, d) == Bal(w.bank, a, d) - if a == FEE_COLLECTOR && d == UVTX then burn else 0
  {
    var held := Bal(s.w.bank, FEE_COLLECTOR, UVTX);
    FeeIsFloor(held, s.w.fees.burnRatio);
    FeeAtMost(held, s.w.fees.burnRatio);
    BurnKeepsBooks(s.w.bank, FEE_COLLECTOR, UVTX, BurnAmount(s.w));
  }

  /** What the fee collector held at each block end of the run, and the ratio in force. */
  ghost function Collected(s: Sys, es: seq<Event>): seq<Charge>
    requires Inv(s)
  {
    if es == [] then []
    else
      var n := |es| - 1;
      Collected(s, es[..n]) + if es[n].BlockEnd? then [BlockFees(After(s, es[..n]).w)] else []
  }

  ghost function BlockFees(w: World): Charge {
    Charge(Bal(w.bank, FEE_COLLECTOR, UVTX), w.fees.burnRatio)
  }

  lemma BurnStep(s: Sys, e: Event)
    requires Inv(s)
    ensures Next(s, e).w.burned == s.w.burned + if e.BlockEnd? then FeeOf(BlockFees(s.w)) else 0
  {
  }

  /** Over any run the burned counter grows by the rounded share of every block's fees, at that block's ratio. */
  lemma {:induction false} BurnedIsSumOfShares(s: Sys, es: seq<Event>)
    requires Inv(s)
    ensures After(s, es).w.burned == s.w.burned + SumSeq(Collected(s, es), FeeOf)
    decreases |es|
  {
    if es != [] {
      var n := |es| - 1;
      var before := After(s, es[..n]);
      BurnedIsSumOfShares(s, es[..n]);
      BurnStep(before, es[n]);
      if es[n].BlockEnd? {
        SumSeqAppend(Collected(s, es[..n]), FeeOf, BlockFees(before.w));
      } else {
        assert Collected(s, es) == Collected(s, es[..n]);
      }
    }
  }

  lemma {:induction false} RatiosNonNegative(s: Sys, es: seq<Event>)
    requires Inv(s)
    ensures forall i :: 0 <= i < |Collected(s, es)| ==> Collected(s, es)[i].rate >= 0
    decreases |es|
  {
    if es != [] {
      RatiosNonNegative(s, es[..|es| - 1]);
    }
  }

  /** So over k block ends the burn falls short of the sum of each block's fees times its ratio by less than k units,
      and never exceeds it, however the ratio changes in between. */
  lemma BurnedWithinBlocks(s: Sys, es: seq<Event>)
    requires Inv(s)
    ensures var xs, burned := Collected(s, es), After(s, es).w.burned - s.w.burned;
            && burned * ONE <= SumSeq(xs, ExactFee)
            && (xs != [] ==> SumSeq(xs, ExactFee) < (burned + |xs|) * ONE)
  {
    BurnedIsSumOfShares(s, es);
    RatiosNonNegative(s, es);
    FeesWithinCount(Collected(s, es));
  }
}
