/** Whole runs of x/rwa and x/fees: messages, bank sends by anybody, burns by other modules and block ends
    in any order. What holds in every reachable state, and over every run. */
module RwaRuns {
  import opened Bytes
  import opened Dec
  import opened Results
  import opened Sums
  import opened Ledger
  import opened RwaState
  import OracleState

  /** The chain together with three totals no code keeps: uvtx sent to the two module accounts from outside,
      and uvtx other modules burned. */
  datatype Sys = Sys(w: World, donated: nat, feesDonated: nat, external: nat)

  datatype Event =
    | RegisterAsset(issuer: Addr, id: AssetId, name: Bytes, pair: Bytes, bond: int)
    | AttestAsset(issuer: Addr, id: AssetId, price: Option<Dec>)
    | MintRWA(issuer: Addr, id: AssetId, notional: int)
    | TransferRWA(sender: Addr, recipient: Addr, id: AssetId, amount: int)
    | ChangeRestrictions(issuer: Addr, id: AssetId, addAllow: seq<Addr>, delAllow: seq<Addr>,
                         addDeny: seq<Addr>, delDeny: seq<Addr>, allowAll: bool)
    | SettleRWA(issuer: Addr, id: AssetId)
    | SlashBond(fromAuthority: bool, id: AssetId)
    | ChangeParams(fromAuthority: bool, p: Params)
    | ChangeFees(fromAuthority: bool, fp: FeesParams)
    | BankSend(from: Addr, to: Addr, coins: seq<Coin>)
    | OtherBurn(acct: Addr, amt: nat)
    | BlockEnd

  /** Messages are signed, and only the keepers themselves move coins out of the rwa and fees accounts. */
  predicate Possible(e: Event) {
    match e
    case RegisterAsset(i, _, _, _, _) => CanSign(i)
    case AttestAsset(i, _, _) => CanSign(i)
    case MintRWA(i, _, _) => CanSign(i)
    case TransferRWA(s, _, _, _) => CanSign(s)
    case ChangeRestrictions(i, _, _, _, _, _, _) => CanSign(i)
    case SettleRWA(i, _) => CanSign(i)
    case BankSend(from, _, _) => from != RWA && from != FEES
    case OtherBurn(acct, _) => acct != RWA && acct != FEES
    case _ => true
  }

  /** What the message or block end answers. */
  ghost function Outcome(w: World, e: Event): Result<World, Error>
    requires w.params.Valid() && w.fees.Valid() && Balanced(w.bank)
  {
    match e
    case RegisterAsset(i, id, name, pair, bond) => Register(w, i, id, name, pair, bond)
    case AttestAsset(i, id, price) => Attest(w, i, id, price)
    case MintRWA(i, id, n) => Mint(w, i, id, n)
    case TransferRWA(s, r, id, amt) => Transfer(w, s, r, id, amt)
    case ChangeRestrictions(i, id, aa, da, ad, dd, all) => UpdateRestrictions(w, i, id, aa, da, ad, dd, all)
    case SettleRWA(i, id) => Settle(w, i, id)
    case SlashBond(auth, id) => Slash(w, auth, id)
    case ChangeParams(auth, p) => UpdateParams(w, auth, p)
    case ChangeFees(auth, fp) => UpdateFeesParams(w, auth, fp)
    case BankSend(from, to, coins) => Send(w, from, to, coins)
    case OtherBurn(acct, amt) =>
      if amt <= Bal(w.bank, acct, UVTX) && amt <= Supply(w.bank, UVTX) then Ok(w.(bank := BurnFrom(w.bank, acct, UVTX, amt)))
      else Err(ErrInsufficientFunds)
    case BlockEnd => Ok(EndBlockFees(w))
  }

  /** A failed or impossible event changes nothing. */
  ghost function Next(s: Sys, e: Event): Sys
    requires s.w.params.Valid() && s.w.fees.Valid() && Balanced(s.w.bank)
  {
    if !Possible(e) || Outcome(s.w, e).Err? then s
    else
      Sys(Outcome(s.w, e).value,
          s.donated + (if e.BankSend? && e.to == RWA then AmountOf(e.coins, UVTX) else 0),
          s.feesDonated + (if e.BankSend? && e.to == FEES then AmountOf(e.coins, UVTX) else 0),
          s.external + (if e.OtherBurn? then e.amt else 0))
  }

  // ----- the invariant

  ghost function BondIn(assets: map<AssetId, Asset>): AssetId -> int {
    (id: AssetId) => if id in assets && assets[id].status != Settled then assets[id].bond else 0
  }

  /** The bonds of all assets that are not settled. */
  ghost function Escrowed(assets: map<AssetId, Asset>): int {
    SumSet(assets.Keys, BondIn(assets))
  }

  /** Supply follows the life of the asset; only settling burns it, and only slashing leaves no bond. */
  ghost predicate StatusOk(l: Ledger, a: Asset) {
    match a.status
    case Draft => a.bond > 0 && a.notional == 0 && Supply(l, a.denom) == 0
    case Attested => a.bond > 0 && a.notional == 0 && Supply(l, a.denom) == 0
    case Active => a.bond > 0 && a.notional > 0 && Supply(l, a.denom) == a.notional
    case Settled => a.bond >= 0 && a.notional >= 0 && Supply(l, a.denom) == if a.bond > 0 then 0 else a.notional
  }

  ghost predicate IdOk(w: World, id: AssetId) {
    if id in w.assets then
      && w.assets[id].id == id && ValidAssetId(id) && OracleState.PairOk(w.assets[id].pair)
      && w.assets[id].denom == BuildDenom(id)
      && StatusOk(w.bank, w.assets[id])
    else Supply(w.bank, BuildDenom(id)) == 0
  }

  ghost predicate IndexOk(w: World) {
    && (forall id :: id in w.assets ==> IssuerEntry(w.assets[id].issuer, id) in w.issuerIndex)
    && (forall e :: e in w.issuerIndex ==> e.id in w.assets && w.assets[e.id].issuer == e.issuer)
    && (forall m :: m in w.allow || m in w.deny ==> m.id in w.assets)
  }

  ghost predicate Inv(s: Sys) {
    && s.w.params.Valid() && s.w.fees.Valid() && Balanced(s.w.bank)
    && (forall id: AssetId :: IdOk(s.w, id))
    && IndexOk(s.w)
    && Bal(s.w.bank, RWA, UVTX) == Escrowed(s.w.assets) + s.donated
    && Bal(s.w.bank, FEES, UVTX) == s.feesDonated
    && s.w.genesisSupply == Supply(s.w.bank, UVTX) + s.w.burned + s.external
  }

  /** A genesis: any assets the bank backs, the fee counter at zero. What the two module accounts hold beyond the
      bonds counts as donated. */
  ghost predicate Initial(s: Sys) {
    && s.w.params.Valid() && s.w.fees.Valid() && Balanced(s.w.bank)
    && (forall id: AssetId :: IdOk(s.w, id))
    && IndexOk(s.w)
    && Bal(s.w.bank, RWA, UVTX) == Escrowed(s.w.assets) + s.donated && Bal(s.w.bank, FEES, UVTX) == s.feesDonated
    && s.w.burned == 0 && s.external == 0 && s.w.genesisSupply == Supply(s.w.bank, UVTX)
  }

  // ----- pieces of preservation

  lemma EscrowUpdate(assets: map<AssetId, Asset>, a: Asset)
    ensures Escrowed(assets[a.id := a]) == Escrowed(assets) - BondIn(assets)(a.id) + if a.status != Settled then a.bond else 0
  {
    var assets' := assets[a.id := a];
    var rest := assets.Keys - {a.id};
    SumAgree(rest, BondIn(assets), BondIn(assets'));
    if a.id in assets {
      SumRemove(assets.Keys, BondIn(assets), a.id);
    } else {
      assert rest == assets.Keys;
    }
    assert assets'.Keys == rest + {a.id};
    SumAdd(rest, BondIn(assets'), a.id);
  }

  lemma EscrowAtLeast(w: World, id: AssetId)
    requires (forall x: AssetId :: IdOk(w, x)) && id in w.assets && w.assets[id].status != Settled
    ensures 0 <= w.assets[id].bond <= Escrowed(w.assets)
  {
    forall x | x in w.assets ensures w.assets[x].bond >= 0 {
      assert IdOk(w, x);
    }
    SumAtLeastElement(w.assets.Keys, BondIn(w.assets), id);
  }

  /** An asset's record may change only together with its own denom's supply. */
  lemma OtherIdsStay(w: World, w': World, a: Asset)
    requires forall id: AssetId :: IdOk(w, id)
    requires w'.assets == w.assets[a.id := a] && IdOk(w', a.id)
    requires forall d: Denom :: d != BuildDenom(a.id) && d != UVTX ==> Supply(w'.bank, d) == Supply(w.bank, d)
    ensures forall id: AssetId :: IdOk(w', id)
  {
    forall id: AssetId ensures IdOk(w', id) {
      assert IdOk(w, id);
      if id != a.id {
        DenomRoundTrip(id);
        if BuildDenom(id) == BuildDenom(a.id) {
          DenomsDiffer(id, a.id);
        }
      }
    }
  }

  lemma IndexStays(w: World, w': World, a: Asset)
    requires IndexOk(w) && a.id in w.assets && a.issuer == w.assets[a.id].issuer
    requires w'.assets == w.assets[a.id := a] && w'.issuerIndex == w.issuerIndex + {IssuerEntry(a.issuer, a.id)}
    requires w'.allow == w.allow && w'.deny == w.deny
    ensures IndexOk(w')
  {
  }

  lemma IdsStay(w: World, w': World)
    requires forall id: AssetId :: IdOk(w, id)
    requires w'.assets == w.assets
    requires forall d: Denom :: d != UVTX ==> Supply(w'.bank, d) == Supply(w.bank, d)
    ensures forall id: AssetId :: IdOk(w', id)
  {
    forall id: AssetId ensures IdOk(w', id) {
      assert IdOk(w, id);
      DenomRoundTrip(id);
    }
  }

  lemma RegisterKeeps(s: Sys, issuer: Addr, id: AssetId, name: Bytes, pair: Bytes, bond: int)
    requires Inv(s) && CanSign(issuer) && Register(s.w, issuer, id, name, pair, bond).Ok?
    ensures Inv(s.(w := Register(s.w, issuer, id, name, pair, bond).value))
  {
    var w, w' := s.w, Register(s.w, issuer, id, name, pair, bond).value;
    MoveKeepsBooks(w.bank, issuer, RWA, UVTX, bond);
    var a := w'.assets[id];
    assert IdOk(w, id);
    OtherIdsStay(w, w', a);
    EscrowUpdate(w.assets, a);
  }

  lemma AttestKeeps(s: Sys, caller: Addr, id: AssetId, price: Option<Dec>)
    requires Inv(s) && Attest(s.w, caller, id, price).Ok?
    ensures Inv(s.(w := Attest(s.w, caller, id, price).value))
  {
    var w, w' := s.w, Attest(s.w, caller, id, price).value;
    var a := w'.assets[id];
    assert IdOk(w, id);
    OtherIdsStay(w, w', a);
    IndexStays(w, w', a);
    EscrowUpdate(w.assets, a);
  }

  /** The ledger after minting, leg by leg. */
  lemma MintLegs(s: Sys, caller: Addr, id: AssetId, notional: int)
    requires Inv(s) && CanSign(caller) && Mint(s.w, caller, id, notional).Ok?
    ensures notional > 0 && IdOk(s.w, id)
    ensures var l, l', d := s.w.bank, Mint(s.w, caller, id, notional).value.bank, BuildDenom(id);
            && Balanced(l') && SupplyShifts(l, l', d, notional)
            && Bal(l', RWA, UVTX) == Bal(l, RWA, UVTX) && Bal(l', FEES, UVTX) == Bal(l, FEES, UVTX)
            && (forall b: Addr, e: Denom :: e != UVTX ==> Bal(l', b, e) == Bal(l, b, e) + if b == caller && e == d then notional else 0)
  {
    assert IdOk(s.w, id);
    DenomRoundTrip(id);
    FeeAtMost(notional, s.w.params.mintFeeRate);
    PayAndMint(s.w.bank, caller, FEE_COLLECTOR, UVTX, ComputeFee(notional, s.w.params.mintFeeRate), BuildDenom(id), notional);
  }

  lemma MintKeeps(s: Sys, caller: Addr, id: AssetId, notional: int)
    requires Inv(s) && CanSign(caller) && Mint(s.w, caller, id, notional).Ok?
    ensures Inv(s.(w := Mint(s.w, caller, id, notional).value))
  {
    var w, w' := s.w, Mint(s.w, caller, id, notional).value;
    MintLegs(s, caller, id, notional);
    DenomRoundTrip(id);
    OtherIdsStay(w, w', w'.assets[id]);
    IndexStays(w, w', w'.assets[id]);
    EscrowUpdate(w.assets, w'.assets[id]);
  }

  lemma RestrictionsKeep(s: Sys, caller: Addr, id: AssetId, aa: seq<Addr>, da: seq<Addr>, ad: seq<Addr>, dd: seq<Addr>, all: bool)
    requires Inv(s) && UpdateRestrictions(s.w, caller, id, aa, da, ad, dd, all).Ok?
    ensures Inv(s.(w := UpdateRestrictions(s.w, caller, id, aa, da, ad, dd, all).value))
  {
    var w, w' := s.w, UpdateRestrictions(s.w, caller, id, aa, da, ad, dd, all).value;
    var a := w'.assets[id];
    assert IdOk(w, id);
    OtherIdsStay(w, w', a);
    EscrowUpdate(w.assets, a);
  }

  /** The ledger after slashing. */
  lemma SlashLegs(s: Sys, auth: bool, id: AssetId)
    requires Inv(s) && Slash(s.w, auth, id).Ok?
    ensures var l, l' := s.w.bank, Slash(s.w, auth, id).value.bank;
            && Balanced(l') && SupplyShifts(l, l', UVTX, 0)
            && Bal(l', RWA, UVTX) == Bal(l, RWA, UVTX) - s.w.assets[id].bond && Bal(l', FEES, UVTX) == Bal(l, FEES, UVTX)
  {
    assert IdOk(s.w, id);
    MoveKeepsBooks(s.w.bank, RWA, DISTRIBUTION, UVTX, Payable(s.w.assets[id].bond));
  }

  lemma SlashKeeps(s: Sys, auth: bool, id: AssetId)
    requires Inv(s) && Slash(s.w, auth, id).Ok?
    ensures Inv(s.(w := Slash(s.w, auth, id).value))
  {
    var w, w' := s.w, Slash(s.w, auth, id).value;
    var a := w'.assets[id];
    assert IdOk(w, id);
    SlashLegs(s, auth, id);
    DenomRoundTrip(id);
    OtherIdsStay(w, w', a);
    IndexStays(w, w', a);
    EscrowUpdate(w.assets, a);
  }

  /** The ledger after settling, leg by leg. */
  lemma SettleLegs(s: Sys, caller: Addr, id: AssetId)
    requires Inv(s) && CanSign(caller) && Settle(s.w, caller, id).Ok?
    ensures var l, l' := s.w.bank, Settle(s.w, caller, id).value.bank;
            var a := s.w.assets[id];
            && Balanced(l') && SupplyShifts(l, l', a.denom, 0 - a.notional)
            && Bal(l', RWA, UVTX) == Bal(l, RWA, UVTX) - a.bond && Bal(l', FEES, UVTX) == Bal(l, FEES, UVTX)
            && (forall b: Addr, d: Denom :: d != UVTX ==>
                  Bal(l', b, d) == Bal(l, b, d) - if b == caller && d == a.denom then a.notional else 0)
  {
    var w := s.w;
    var a := w.assets[id];
    var fee := ComputeFee(a.notional, w.params.settleFeeRate);
    assert IdOk(w, id);
    DenomRoundTrip(id);
    FeeAtMost(a.notional, w.params.settleFeeRate);
    MoveKeepsBooks(w.bank, caller, FEE_COLLECTOR, UVTX, fee);
    EscrowAtLeast(w, id);
    PayBurnAndRelease(w.bank, caller, FEE_COLLECTOR, UVTX, fee, a.denom, a.notional, RWA, a.bond);
  }

  lemma SettleKeeps(s: Sys, caller: Addr, id: AssetId)
    requires Inv(s) && CanSign(caller) && Settle(s.w, caller, id).Ok?
    ensures Inv(s.(w := Settle(s.w, caller, id).value))
  {
    var w, w' := s.w, Settle(s.w, caller, id).value;
    var a := w'.assets[id];
    assert IdOk(w, id);
    DenomRoundTrip(id);
    SettleLegs(s, caller, id);
    OtherIdsStay(w, w', a);
    IndexStays(w, w', a);
    EscrowUpdate(w.assets, a);
  }

  lemma SendKeeps(s: Sys, from: Addr, to: Addr, coins: seq<Coin>)
    requires Inv(s) && from != RWA && from != FEES && Send(s.w, from, to, coins).Ok?
    ensures var w' := Send(s.w, from, to, coins).value;
            Inv(Sys(w', s.donated + (if to == RWA then AmountOf(coins, UVTX) else 0),
                    s.feesDonated + (if to == FEES then AmountOf(coins, UVTX) else 0), s.external))
  {
    MoveAllKeepsBooks(s.w.bank, from, to, coins);
    IdsStay(s.w, Send(s.w, from, to, coins).value);
  }

  lemma OneCoin(d: Denom, amt: nat, e: Denom)
    ensures AmountOf([Coin(d, amt)], e) == if e == d then amt else 0
  {
  }

  lemma TransferKeeps(s: Sys, sender: Addr, recipient: Addr, id: AssetId, amount: int)
    requires Inv(s) && CanSign(sender) && Transfer(s.w, sender, recipient, id, amount).Ok?
    ensures Inv(s.(w := Transfer(s.w, sender, recipient, id, amount).value))
  {
    assert IdOk(s.w, id);
    DenomRoundTrip(id);
    OneCoin(s.w.assets[id].denom, amount, UVTX);
    SendKeeps(s, sender, recipient, [Coin(s.w.assets[id].denom, amount)]);
  }

  lemma BurnKeeps(s: Sys, acct: Addr, amt: nat)
    requires Inv(s) && acct != RWA && acct != FEES && amt <= Bal(s.w.bank, acct, UVTX) && amt <= Supply(s.w.bank, UVTX)
    ensures Inv(s.(w := s.w.(bank := BurnFrom(s.w.bank, acct, UVTX, amt)), external := s.external + amt))
    ensures Inv(s.(w := s.w.(bank := BurnFrom(s.w.bank, acct, UVTX, amt), burned := s.w.burned + amt)))
  {
    BurnKeepsBooks(s.w.bank, acct, UVTX, amt);
    IdsStay(s.w, s.w.(bank := BurnFrom(s.w.bank, acct, UVTX, amt)));
    IdsStay(s.w, s.w.(bank := BurnFrom(s.w.bank, acct, UVTX, amt), burned := s.w.burned + amt));
  }

  lemma BlockEndKeeps(s: Sys)
    requires Inv(s)
    ensures Inv(s.(w := EndBlockFees(s.w)))
  {
    FeeAtMost(Bal(s.w.bank, FEE_COLLECTOR, UVTX), s.w.fees.burnRatio);
    BalanceAtMostSupply(s.w.bank, FEE_COLLECTOR, UVTX);
    BurnKeeps(s, FEE_COLLECTOR, BurnAmount(s.w));
  }

  lemma ParamsKeep(s: Sys, p: Params, fp: FeesParams)
    requires Inv(s)
    ensures p.Valid() ==> Inv(s.(w := s.w.(params := p)))
    ensures fp.Valid() ==> Inv(s.(w := s.w.(fees := fp)))
  {
    IdsStay(s.w, s.w.(params := p));
    IdsStay(s.w, s.w.(fees := fp));
  }

  predicate AssetEvent(e: Event) {
    e.RegisterAsset? || e.AttestAsset? || e.MintRWA? || e.ChangeRestrictions? || e.SettleRWA? || e.SlashBond?
  }

  lemma AssetEventKeeps(s: Sys, e: Event)
    requires Inv(s) && Possible(e) && AssetEvent(e) && Outcome(s.w, e).Ok?
    ensures Inv(s.(w := Outcome(s.w, e).value))
  {
    match e
    case RegisterAsset(i, id, name, pair, bond) => RegisterKeeps(s, i, id, name, pair, bond);
    case AttestAsset(i, id, price) => AttestKeeps(s, i, id, price);
    case MintRWA(i, id, n) => MintKeeps(s, i, id, n);
    case ChangeRestrictions(i, id, aa, da, ad, dd, all) => RestrictionsKeep(s, i, id, aa, da, ad, dd, all);
    case SettleRWA(i, id) => SettleKeeps(s, i, id);
    case SlashBond(auth, id) => SlashKeeps(s, auth, id);
  }

  /** Every step keeps the invariant. */
  lemma NextKeepsInv(s: Sys, e: Event)
    requires Inv(s)
    ensures Inv(Next(s, e))
  {
    if Possible(e) && Outcome(s.w, e).Ok? {
      match e
      case TransferRWA(a, r, id, amt) => TransferKeeps(s, a, r, id, amt);
      case ChangeParams(auth, p) => ParamsKeep(s, p, s.w.fees);
      case ChangeFees(auth, fp) => ParamsKeep(s, s.w.params, fp);
      case BankSend(from, to, coins) => SendKeeps(s, from, to, coins);
      case OtherBurn(acct, amt) => BurnKeeps(s, acct, amt);
      case BlockEnd => BlockEndKeeps(s);
      case _ => AssetEventKeeps(s, e);
    }
  }

  // ----- runs

  /** The state after a list of events. */
  ghost function After(s: Sys, es: seq<Event>): (s': Sys)
    requires Inv(s)
    ensures Inv(s')
    decreases |es|
  {
    if es == [] then s
    else
      var before := After(s, es[..|es| - 1]);
      NextKeepsInv(before, es[|es| - 1]);
      Next(before, es[|es| - 1])
  }

  lemma InitialInv(s: Sys)
    requires Initial(s)
    ensures Inv(s)
  {
  }
}
