/** Runs of x/rwa and x/fees that reach the exceptions the theorems name. */
module RwaExamples {
  import opened Bytes
  import opened Dec
  import opened Results
  import opened Ledger
  import opened RwaState
  import opened RwaRuns
  import opened RwaTheorems
  import opened RwaMessages
  import OracleState
  import OracleMessages
  import Genesis = RwaGenesis

  lemma AfterOneMore(s: Sys, es: seq<Event>, e: Event)
    requires Inv(s)
    ensures After(s, es + [e]) == Next(After(s, es), e)
  {
    assert (es + [e])[..|es|] == es;
  }

  lemma AfterOne(s: Sys, e: Event)
    requires Inv(s)
    ensures After(s, [e]) == Next(s, e)
  {
    AfterOneMore(s, [], e);
    assert [] + [e] == [e];
  }

  // ----- the two x/fees invariants

  /** One unit burned by another module breaks the reconciliation of the supply. */
  lemma ReconcileBroken(s0: Sys, acct: Addr)
    requires Initial(s0) && acct != RWA && acct != FEES && Bal(s0.w.bank, acct, UVTX) > 0
    ensures Inv(s0) && !ReconcileInvariant(After(s0, [OtherBurn(acct, 1)]).w)
  {
    InvariantsHoldExactly(s0, [OtherBurn(acct, 1)]);
    AfterOne(s0, OtherBurn(acct, 1));
    BalanceAtMostSupply(s0.w.bank, acct, UVTX);
  }

  /** One unit sent to the fees account breaks the invariant that it is empty. */
  lemma ModuleBalanceBroken(s0: Sys, from: Addr)
    requires Initial(s0) && from != RWA && from != FEES && Bal(s0.w.bank, from, UVTX) > 0
    ensures Inv(s0) && !ModuleBalanceInvariant(After(s0, [BankSend(from, FEES, [Coin(UVTX, 1)])]).w)
  {
    var coins := [Coin(UVTX, 1)];
    InvariantsHoldExactly(s0, [BankSend(from, FEES, coins)]);
    AfterOne(s0, BankSend(from, FEES, coins));
    OneCoin(UVTX, 1, UVTX);
    assert SendRestriction(s0.w, from, FEES, coins).None?;
    assert MoveAll(s0.w.bank, from, FEES, coins).Some?;
  }

  // ----- an asset's first steps

  /** Registering brings a new id into being, as a draft, exactly when the id, name and pair are well-formed and the bond
      is positive, meets the minimum and is the issuer's to pay. */
  lemma DraftReached(s: Sys, issuer: Addr, id: AssetId, name: Bytes, pair: Bytes, bond: int)
    requires Inv(s) && CanSign(issuer) && id !in s.w.assets
    ensures var s' := After(s, [RegisterAsset(issuer, id, name, pair, bond)]);
            && s'.w.params == s.w.params
            && (id in s'.w.assets <==> && Slug(id) && name != [] && OracleMessages.PairFormat(pair)
                                       && 0 < bond && s.w.params.minIssuerBond <= bond <= Bal(s.w.bank, issuer, UVTX))
            && (id in s'.w.assets ==> HasAsset(s'.w, id, issuer, Draft, bond))
  {
    AfterOne(s, RegisterAsset(issuer, id, name, pair, bond));
    RegisterExactly(s, issuer, id, name, pair, bond);
    ValidAssetIdExactly(id);
    OracleMessages.PairOkExactly(pair);
  }

  ghost predicate HasAsset(w: World, id: AssetId, issuer: Addr, status: Status, bond: int) {
    id in w.assets && w.assets[id].issuer == issuer && w.assets[id].status == status && w.assets[id].bond == bond
  }

  /** Attesting it, given a price, succeeds next. */
  lemma AttestedReached(s: Sys, issuer: Addr, id: AssetId, bond: int, price: Dec)
    requires Inv(s) && CanSign(issuer) && HasAsset(s.w, id, issuer, Draft, bond)
    ensures var s' := After(s, [AttestAsset(issuer, id, Some(price))]);
            s'.w.params == s.w.params && HasAsset(s'.w, id, issuer, Attested, bond)
  {
    AfterOne(s, AttestAsset(issuer, id, Some(price)));
    assert IdOk(s.w, id);
  }

  /** Then the issuer can mint a first coin, free of charge, and holds it. */
  lemma ActiveReached(s: Sys, issuer: Addr, id: AssetId, bond: int)
    requires Inv(s) && CanSign(issuer) && HasAsset(s.w, id, issuer, Attested, bond)
    ensures var s' := After(s, [MintRWA(issuer, id, 1)]);
            HasAsset(s'.w, id, issuer, Active, bond) && Bal(s'.w.bank, issuer, BuildDenom(id)) > 0
  {
    AfterOne(s, MintRWA(issuer, id, 1));
    FirstMint(s, issuer, id, bond);
  }

  lemma FirstMint(s: Sys, issuer: Addr, id: AssetId, bond: int)
    requires Inv(s) && CanSign(issuer) && HasAsset(s.w, id, issuer, Attested, bond)
    ensures var r := Mint(s.w, issuer, id, 1);
            && r.Ok? && HasAsset(r.value, id, issuer, Active, bond)
            && Bal(r.value.bank, issuer, BuildDenom(id)) > 0
  {
    assert IdOk(s.w, id);
    FeeIsFloor(1, s.w.params.mintFeeRate);
    MintLegs(s, issuer, id, 1);
    DenomRoundTrip(id);
  }

  // ----- a stranded coin

  lemma CoinReachesModule(s: Sys, holder: Addr, id: AssetId)
    requires Inv(s) && id in s.w.assets && s.w.assets[id].status == Active
    requires CanSign(holder) && Bal(s.w.bank, holder, BuildDenom(id)) > 0
    ensures Transfer(s.w, holder, RWA, id, 1).Ok?
    ensures Bal(Transfer(s.w, holder, RWA, id, 1).value.bank, RWA, BuildDenom(id)) > 0
  {
    assert IdOk(s.w, id);
    var coins := [Coin(BuildDenom(id), 1)];
    assert SendRestriction(s.w, holder, RWA, coins).None?;
    assert MoveAll(s.w.bank, holder, RWA, coins).Some?;
    MoveAllKeepsBooks(s.w.bank, holder, RWA, coins);
    OneCoin(BuildDenom(id), 1, BuildDenom(id));
  }

  /** Whoever holds a coin of an active asset, whatever its restrictions, can send it to the module account; after
      that no run lets anybody settle the asset. */
  lemma AnyHolderCanStrand(s: Sys, holder: Addr, id: AssetId, es: seq<Event>, caller: Addr)
    requires Inv(s) && id in s.w.assets && s.w.assets[id].status == Active
    requires CanSign(holder) && Bal(s.w.bank, holder, BuildDenom(id)) > 0 && CanSign(caller)
    ensures Settle(After(After(s, [TransferRWA(holder, RWA, id, 1)]), es).w, caller, id).Err?
  {
    var e := TransferRWA(holder, RWA, id, 1);
    AfterOne(s, e);
    CoinReachesModule(s, holder, id);
    StrandedCoinBlocksSettling(After(s, [e]), es, id, caller);
  }

  // ----- a refused export

  /** Raising the minimum above an attested or active bond makes the next export one that no chain accepts. */
  lemma ExportRefused(s: Sys, id: AssetId, p: Params, g: Genesis.Genesis)
    requires Inv(s) && id in s.w.assets && (s.w.assets[id].status == Attested || s.w.assets[id].status == Active)
    requires p.Valid() && s.w.assets[id].bond < p.minIssuerBond
    requires Genesis.IsExport(Genesis.RecordsOf(After(s, [ChangeParams(true, p)]).w), g)
    ensures !Genesis.Acceptable(g)
  {
    AfterOne(s, ChangeParams(true, p));
    Genesis.ExportAcceptedExactly(After(s, [ChangeParams(true, p)]), g);
  }

  // ----- an unbacked genesis

  /** The module's own checks accept a genesis whose bond its account does not hold, and the chain then starts with the
      registered bond invariant broken. */
  lemma UnbackedGenesisAccepted(p: Params, a: Asset, l: Ledger, fp: FeesParams, g: Genesis.Genesis, r: Genesis.Records)
    requires p.Valid() && ValidAssetId(a.id) && OracleState.PairOk(a.pair) && a.status == Active
    requires a.bond >= p.minIssuerBond && a.bond > Bal(l, RWA, UVTX)
    requires g == Genesis.Genesis(p, [a], []) && Genesis.Imported(g, r)
    ensures Genesis.Acceptable(g) && !BondInvariant(Genesis.Start(r, l, fp))
  {
    assert g.assets[0] == a;
    EscrowUpdate(map[], a);
    assert r.assets == map[][a.id := a];
  }
}
