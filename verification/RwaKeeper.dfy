/** The x/rwa and x/fees keepers: handlers that pay, mint and burn through module accounts step by step,
    proved against the closed forms of `RwaState`, and delivery that undoes a failed message. */
module RwaKeeper {
  import opened Bytes
  import opened Dec
  import opened Results
  import opened Ledger
  import opened RwaState
  import opened RwaRuns
  import OracleState

  // ----- module accounts are transparent

  /** Moving nothing changes nothing. */
  lemma MoveNothing(l: Ledger, a: Addr, b: Addr, d: Denom)
    requires Balanced(l)
    ensures Move(l, a, b, d, 0) == l
  {
    MoveKeepsBooks(l, a, b, d, 0);
    forall k: Slot ensures Get(Move(l, a, b, d, 0).bal, k) == Get(l.bal, k) {
      assert Bal(Move(l, a, b, d, 0), k.acct, k.denom) == Bal(l, k.acct, k.denom);
    }
    SameLedger(Move(l, a, b, d, 0), l);
  }

  /** Minting into the module account and paying out is minting to the payee. */
  lemma MintViaModule(l: Ledger, acct: Addr, a: Addr, d: Denom, n: nat)
    requires Balanced(l)
    ensures n <= Bal(MintTo(l, acct, d, n), acct, d)
    ensures Move(MintTo(l, acct, d, n), acct, a, d, n) == MintTo(l, a, d, n)
  {
    MintKeepsBooks(l, acct, d, n);
    MintKeepsBooks(l, a, d, n);
    var l1, l3 := MintTo(l, acct, d, n), MintTo(l, a, d, n);
    MoveKeepsBooks(l1, acct, a, d, n);
    var l2 := Move(l1, acct, a, d, n);
    forall k: Slot ensures Get(l2.bal, k) == Get(l3.bal, k) {
      assert Bal(l2, k.acct, k.denom) == Bal(l3, k.acct, k.denom);
    }
    SameLedger(l2, l3);
  }

  /** Collecting coins in the module account and burning them is burning them at the payer. */
  lemma BurnViaModule(l: Ledger, acct: Addr, a: Addr, d: Denom, n: nat)
    requires Balanced(l) && n <= Bal(l, a, d)
    ensures n <= Supply(l, d) && n <= Bal(Move(l, a, acct, d, n), acct, d)
    ensures BurnFrom(Move(l, a, acct, d, n), acct, d, n) == BurnFrom(l, a, d, n)
  {
    MoveKeepsBooks(l, a, acct, d, n);
    BurnKeepsBooks(l, a, d, n);
    var l1, l3 := Move(l, a, acct, d, n), BurnFrom(l, a, d, n);
    BurnKeepsBooks(l1, acct, d, n);
    var l2 := BurnFrom(l1, acct, d, n);
    forall k: Slot ensures Get(l2.bal, k) == Get(l3.bal, k) {
      assert Bal(l2, k.acct, k.denom) == Bal(l3, k.acct, k.denom);
    }
    SameLedger(l2, l3);
  }

  lemma MoveOneCoin(l: Ledger, from: Addr, to: Addr, d: Denom, n: nat)
    ensures MoveAll(l, from, to, [Coin(d, n)]) == if n > Bal(l, from, d) then None else Some(Move(l, from, to, d, n))
  {
  }

  /** Sends of uvtx, and sends of an asset's coins from or to the module account, are never restricted. */
  lemma OneCoinUnrestricted(w: World, from: Addr, to: Addr, d: Denom, n: nat)
    requires ParseRwaDenom(d).None? || from == RWA || to == RWA
    ensures SendRestriction(w, from, to, [Coin(d, n)]).None?
  {
  }

  lemma BurnNothing(l: Ledger, a: Addr, d: Denom)
    requires Balanced(l)
    ensures BurnFrom(l, a, d, 0) == l
  {
    BurnKeepsBooks(l, a, d, 0);
    var l' := BurnFrom(l, a, d, 0);
    forall k: Slot ensures Get(l'.bal, k) == Get(l.bal, k) {
      assert Bal(l', k.acct, k.denom) == Bal(l, k.acct, k.denom);
    }
    forall e: Denom ensures Get(l'.supply, e) == Get(l.supply, e) {
      assert Supply(l', e) == Supply(l, e);
    }
    SameLedger(l', l);
  }

  lemma MembersAdd(id: AssetId, list: seq<Addr>, i: nat)
    requires i < |list|
    ensures MembersOf(id, list[..i + 1]) == MembersOf(id, list[..i]) + {Member(id, list[i])}
  {
  }

  /** A handler's answer agrees with the closed form: same success, same new state, same error. */
  ghost predicate Answers(err: Option<Error>, w: World, r: Result<World, Error>) {
    match r
    case Ok(v) => err.None? && w == v
    case Err(e) => err == Some(e)
  }

  class Keeper {
    var bank: Ledger
    var params: Params
    var assets: map<AssetId, Asset>
    var issuerIndex: set<IssuerEntry>
    var allow: set<Member>
    var deny: set<Member>
    var fees: FeesParams
    var genesisSupply: nat
    var burned: nat

    function W(): World
      reads this
    {
      World(bank, params, assets, issuerIndex, allow, deny, fees, genesisSupply, burned)
    }

    ghost predicate Valid()
      reads this
    {
      params.Valid() && fees.Valid() && Balanced(bank)
    }

    constructor (l: Ledger, p: Params, fp: FeesParams)
      requires Balanced(l) && p.Valid() && fp.Valid()
      ensures Valid() && W() == World(l, p, map[], {}, {}, {}, fp, Supply(l, UVTX), 0)
    {
      bank, params, fees, genesisSupply, burned := l, p, fp, Supply(l, UVTX), 0;
      assets, issuerIndex, allow, deny := map[], {}, {}, {};
    }

    // ----- bank calls

    /** Every bank send: the restriction hook, then the balances. */
    method SendCoins(from: Addr, to: Addr, coins: seq<Coin>) returns (err: Option<Error>)
      requires Valid()
      modifies this`bank
      ensures Valid()
      ensures match Send(old(W()), from, to, coins)
              case Ok(w) => err.None? && W() == w
              case Err(e) => err == Some(e) && W() == old(W())
    {
      err := SendRestriction(W(), from, to, coins);
      if err.Some? {
        return;
      }
      var moved := MoveAll(bank, from, to, coins);
      if moved.None? {
        return Some(ErrInsufficientFunds);
      }
      MoveAllKeepsBooks(bank, from, to, coins);
      bank := moved.value;
    }

    /** A single unrestricted coin: it moves unless the balance is short. */
    method Pay(from: Addr, to: Addr, d: Denom, n: nat) returns (err: Option<Error>)
      requires Valid() && (ParseRwaDenom(d).None? || from == RWA || to == RWA)
      modifies this`bank
      ensures Valid()
      ensures n <= Bal(old(bank), from, d) ==> err.None? && bank == Move(old(bank), from, to, d, n)
      ensures n > Bal(old(bank), from, d) ==> err == Some(ErrInsufficientFunds) && bank == old(bank)
    {
      OneCoinUnrestricted(W(), from, to, d, n);
      MoveOneCoin(bank, from, to, d, n);
      err := SendCoins(from, to, [Coin(d, n)]);
    }

    /** Payments out of a module account refuse blocked recipients. */
    method PayFromModule(mod: Addr, to: Addr, d: Denom, n: nat) returns (err: Option<Error>)
      requires Valid() && (ParseRwaDenom(d).None? || mod == RWA)
      modifies this`bank
      ensures Valid()
      ensures Blocked(to) ==> err == Some(ErrBlocked) && bank == old(bank)
      ensures !Blocked(to) && n <= Bal(old(bank), mod, d) ==> err.None? && bank == Move(old(bank), mod, to, d, n)
      ensures !Blocked(to) && n > Bal(old(bank), mod, d) ==> err == Some(ErrInsufficientFunds) && bank == old(bank)
    {
      if Blocked(to) {
        return Some(ErrBlocked);
      }
      err := Pay(mod, to, d, n);
    }

    method MintCoins(mod: Addr, d: Denom, n: nat)
      requires Valid()
      modifies this`bank
      ensures Valid() && bank == MintTo(old(bank), mod, d, n)
    {
      MintKeepsBooks(bank, mod, d, n);
      bank := MintTo(bank, mod, d, n);
    }

    method BurnCoins(mod: Addr, d: Denom, n: nat) returns (err: Option<Error>)
      requires Valid()
      modifies this`bank
      ensures Valid()
      ensures n <= Bal(old(bank), mod, d) ==>
                err.None? && n <= Supply(old(bank), d) && bank == BurnFrom(old(bank), mod, d, n)
      ensures n > Bal(old(bank), mod, d) ==> err == Some(ErrInsufficientFunds) && bank == old(bank)
    {
      if n > Bal(bank, mod, d) {
        return Some(ErrInsufficientFunds);
      }
      BurnKeepsBooks(bank, mod, d, n);
      bank := BurnFrom(bank, mod, d, n);
      return None;
    }

    // ----- bonds, fees and records

    method LockBond(issuer: Addr, n: nat) returns (err: Option<Error>)
      requires Valid()
      modifies this`bank
      ensures Valid()
      ensures n <= Bal(old(bank), issuer, UVTX) ==> err.None? && bank == Move(old(bank), issuer, RWA, UVTX, n)
      ensures n > Bal(old(bank), issuer, UVTX) ==> err == Some(ErrInsufficientFunds) && bank == old(bank)
    {
      err := Pay(issuer, RWA, UVTX, n);
    }

    method ReleaseBond(issuer: Addr, n: nat) returns (err: Option<Error>)
      requires Valid()
      modifies this`bank
      ensures Valid()
      ensures Blocked(issuer) ==> err == Some(ErrBlocked) && bank == old(bank)
      ensures !Blocked(issuer) && n <= Bal(old(bank), RWA, UVTX) ==> err.None? && bank == Move(old(bank), RWA, issuer, UVTX, n)
      ensures !Blocked(issuer) && n > Bal(old(bank), RWA, UVTX) ==> err == Some(ErrInsufficientFunds) && bank == old(bank)
    {
      err := PayFromModule(RWA, issuer, UVTX, n);
    }

    method SlashBondToCommunityPool(n: nat) returns (err: Option<Error>)
      requires Valid()
      modifies this`bank
      ensures Valid()
      ensures n <= Bal(old(bank), RWA, UVTX) ==> err.None? && bank == Move(old(bank), RWA, DISTRIBUTION, UVTX, n)
      ensures n > Bal(old(bank), RWA, UVTX) ==> err == Some(ErrInsufficientFunds) && bank == old(bank)
    {
      err := Pay(RWA, DISTRIBUTION, UVTX, n);
    }

    /** A zero fee is not even attempted. */
    method CollectFee(payer: Addr, fee: nat) returns (err: Option<Error>)
      requires Valid()
      modifies this`bank
      ensures Valid()
      ensures fee <= Bal(old(bank), payer, UVTX) ==> err.None? && bank == Move(old(bank), payer, FEE_COLLECTOR, UVTX, fee)
      ensures fee > Bal(old(bank), payer, UVTX) ==> err == Some(ErrInsufficientFunds) && bank == old(bank)
    {
      if fee == 0 {
        MoveNothing(bank, payer, FEE_COLLECTOR, UVTX);
        return None;
      }
      err := Pay(payer, FEE_COLLECTOR, UVTX, fee);
    }

    method SetAsset(a: Asset)
      requires Valid()
      modifies this`assets, this`issuerIndex
      ensures Valid() && W() == WithAsset(old(W()), a)
    {
      assets := assets[a.id := a];
      issuerIndex := issuerIndex + {IssuerEntry(a.issuer, a.id)};
    }

    /** Loads an asset and insists that the caller is its issuer. */
    method RequireIssuer(caller: Addr, id: AssetId) returns (err: Option<Error>)
      requires Valid()
      ensures err == IssuerError(W(), caller, id)
    {
      if !ValidAssetId(id) {
        return Some(ErrInvalidAssetId);
      }
      if id !in assets {
        return Some(ErrAssetNotFound);
      }
      if assets[id].issuer != caller {
        return Some(ErrUnauthorized);
      }
      return None;
    }

    // ----- handlers; on an error the state is whatever was written so far

    method RegisterAsset(issuer: Addr, id: AssetId, name: Bytes, pair: Bytes, bond: int) returns (err: Option<Error>)
      requires Valid()
      modifies this
      ensures Valid() && Answers(err, W(), Register(old(W()), issuer, id, name, pair, bond))
    {
      if !ValidAssetId(id) {
        return Some(ErrInvalidAssetId);
      }
      if name == [] {
        return Some(ErrInvalidParams);
      }
      if !OracleState.PairOk(pair) {
        return Some(ErrInvalidParams);
      }
      if bond <= 0 {
        return Some(ErrInvalidAmount);
      }
      if id in assets {
        return Some(ErrAssetExists);
      }
      if bond < params.minIssuerBond {
        return Some(ErrBondTooLow);
      }
      err := LockBond(issuer, bond);
      if err.Some? {
        return;
      }
      SetAsset(Asset(id, issuer, name, Draft, pair, BuildDenom(id), bond, 0, true, 0));
    }

    method AttestAsset(caller: Addr, id: AssetId, price: Option<Dec>) returns (err: Option<Error>)
      requires Valid()
      modifies this
      ensures Valid() && Answers(err, W(), Attest(old(W()), caller, id, price))
    {
      err := RequireIssuer(caller, id);
      if err.Some? {
        return;
      }
      var a := assets[id];
      if a.status != Draft {
        return Some(ErrInvalidStatus);
      }
      if price.None? {
        return Some(ErrAttestationFailed);
      }
      SetAsset(a.(status := Attested, attestedPrice := price.value));
    }

    /** Mints into the module account and pays out from there. */
    method MintAndPay(to: Addr, d: Denom, n: nat) returns (err: Option<Error>)
      requires Valid()
      modifies this`bank
      ensures Valid()
      ensures !Blocked(to) ==> err.None? && bank == MintTo(old(bank), to, d, n)
      ensures Blocked(to) ==> err == Some(ErrBlocked)
    {
      MintViaModule(bank, RWA, to, d, n);
      MintCoins(RWA, d, n);
      err := PayFromModule(RWA, to, d, n);
    }

    /** Fee, mint into the module account, pay out, record. */
    method MintRWA(caller: Addr, id: AssetId, notional: int) returns (err: Option<Error>)
      requires Valid()
      modifies this
      ensures Valid() && Answers(err, W(), Mint(old(W()), caller, id, notional))
    {
      if !ValidAssetId(id) {
        return Some(ErrInvalidAssetId);
      }
      if notional <= 0 {
        return Some(ErrInvalidNotional);
      }
      err := RequireIssuer(caller, id);
      if err.Some? {
        return;
      }
      var a := assets[id];
      if a.status != Attested && a.status != Active {
        return Some(ErrInvalidStatus);
      }
      var fee := ComputeFee(notional, params.mintFeeRate);
      FeeAtMost(notional, params.mintFeeRate);
      err := CollectFee(caller, fee);
      if err.Some? {
        return;
      }
      err := MintAndPay(caller, a.denom, notional);
      if err.Some? {
        return;
      }
      SetAsset(a.(notional := a.notional + notional, status := Active));
    }

    method TransferRWA(sender: Addr, recipient: Addr, id: AssetId, amount: int) returns (err: Option<Error>)
      requires Valid()
      modifies this
      ensures Valid() && Answers(err, W(), Transfer(old(W()), sender, recipient, id, amount))
    {
      if !ValidAssetId(id) {
        return Some(ErrInvalidAssetId);
      }
      if amount <= 0 {
        return Some(ErrInvalidAmount);
      }
      if id !in assets {
        return Some(ErrAssetNotFound);
      }
      if assets[id].status != Active {
        return Some(ErrInvalidStatus);
      }
      err := CheckTransferAllowed(W(), id, sender, recipient);
      if err.Some? {
        return;
      }
      err := SendCoins(sender, recipient, [Coin(assets[id].denom, amount)]);
    }

    /** Adds or removes the listed addresses one by one on the allow list. */
    method ApplyAllow(id: AssetId, list: seq<Addr>, add: bool)
      requires Valid()
      modifies this`allow
      ensures Valid() && allow == if add then old(allow) + MembersOf(id, list) else old(allow) - MembersOf(id, list)
    {
      for i := 0 to |list|
        invariant Valid()
        invariant allow == if add then old(allow) + MembersOf(id, list[..i]) else old(allow) - MembersOf(id, list[..i])
      {
        MembersAdd(id, list, i);
        if add {
          allow := allow + {Member(id, list[i])};
        } else {
          allow := allow - {Member(id, list[i])};
        }
      }
      assert list[..|list|] == list;
    }

    method ApplyDeny(id: AssetId, list: seq<Addr>, add: bool)
      requires Valid()
      modifies this`deny
      ensures Valid() && deny == if add then old(deny) + MembersOf(id, list) else old(deny) - MembersOf(id, list)
    {
      for i := 0 to |list|
        invariant Valid()
        invariant deny == if add then old(deny) + MembersOf(id, list[..i]) else old(deny) - MembersOf(id, list[..i])
      {
        MembersAdd(id, list, i);
        if add {
          deny := deny + {Member(id, list[i])};
        } else {
          deny := deny - {Member(id, list[i])};
        }
      }
      assert list[..|list|] == list;
    }

    method UpdateRestrictions(caller: Addr, id: AssetId, addAllow: seq<Addr>, delAllow: seq<Addr>, addDeny: seq<Addr>,
                              delDeny: seq<Addr>, allowAll: bool) returns (err: Option<Error>)
      requires Valid()
      modifies this
      ensures Valid()
      ensures Answers(err, W(), RwaState.UpdateRestrictions(old(W()), caller, id, addAllow, delAllow, addDeny, delDeny, allowAll))
    {
      if !ValidAssetId(id) {
        return Some(ErrInvalidAssetId);
      }
      if |addAllow| > MAX_BATCH || |delAllow| > MAX_BATCH || |addDeny| > MAX_BATCH || |delDeny| > MAX_BATCH {
        return Some(ErrInvalidParams);
      }
      err := RequireIssuer(caller, id);
      if err.Some? {
        return;
      }
      var a := assets[id];
      if a.status == Settled {
        return Some(ErrInvalidStatus);
      }
      ApplyAllow(id, addAllow, true);
      ApplyAllow(id, delAllow, false);
      ApplyDeny(id, addDeny, true);
      ApplyDeny(id, delDeny, false);
      SetAsset(a.(allowAll := allowAll));
    }

    /** Takes the whole notional from the issuer into the module account and burns it there. */
    method CollectAndBurn(from: Addr, d: Denom, n: nat) returns (err: Option<Error>)
      requires Valid()
      modifies this`bank
      ensures Valid()
      ensures n <= Bal(old(bank), from, d) ==> err.None? && n <= Supply(old(bank), d) && bank == BurnFrom(old(bank), from, d, n)
      ensures n > Bal(old(bank), from, d) ==> err == Some(ErrInsufficientFunds)
    {
      if n == 0 {
        BurnNothing(bank, from, d);
        return None;
      }
      if n <= Bal(bank, from, d) {
        BurnViaModule(bank, RWA, from, d, n);
      }
      err := Pay(from, RWA, d, n);
      if err.Some? {
        return;
      }
      err := BurnCoins(RWA, d, n);
    }

    /** Fee, collection and burn of the notional, release of the bond, record. */
    method SettleRWA(caller: Addr, id: AssetId) returns (err: Option<Error>)
      requires Valid()
      modifies this
      ensures Valid() && Answers(err, W(), Settle(old(W()), caller, id))
    {
      err := RequireIssuer(caller, id);
      if err.Some? {
        return;
      }
      var a := assets[id];
      if a.status != Active {
        return Some(ErrInvalidStatus);
      }
      if a.notional < 0 {
        return Some(Panicked);
      }
      var fee := ComputeFee(a.notional, params.settleFeeRate);
      FeeAtMost(a.notional, params.settleFeeRate);
      err := CollectFee(caller, fee);
      if err.Some? {
        return;
      }
      err := CollectAndBurn(caller, a.denom, a.notional);
      if err.Some? {
        return;
      }
      if a.bond > 0 {
        err := ReleaseBond(caller, a.bond);
        if err.Some? {
          return;
        }
      } else {
        MoveNothing(bank, RWA, caller, UVTX);
      }
      SetAsset(a.(status := Settled));
    }

    method SlashBond(fromAuthority: bool, id: AssetId) returns (err: Option<Error>)
      requires Valid()
      modifies this
      ensures Valid() && Answers(err, W(), Slash(old(W()), fromAuthority, id))
    {
      if !fromAuthority {
        return Some(ErrUnauthorized);
      }
      if !ValidAssetId(id) {
        return Some(ErrInvalidAssetId);
      }
      if id !in assets {
        return Some(ErrAssetNotFound);
      }
      var a := assets[id];
      if a.status != Active {
        return Some(ErrInvalidStatus);
      }
      err := None;
      if a.bond > 0 {
        err := SlashBondToCommunityPool(a.bond);
        if err.Some? {
          return;
        }
      } else {
        MoveNothing(bank, RWA, DISTRIBUTION, UVTX);
      }
      SetAsset(a.(status := Settled, bond := 0));
    }

    // ----- delivery

    /** Dispatches the messages that write an asset record. */
    method HandleAsset(e: Event) returns (err: Option<Error>)
      requires Valid() && AssetEvent(e)
      modifies this
      ensures Valid() && Answers(err, W(), Outcome(old(W()), e))
    {
      match e {
        case RegisterAsset(i, id, name, pair, bond) => err := RegisterAsset(i, id, name, pair, bond);
        case AttestAsset(i, id, price) => err := AttestAsset(i, id, price);
        case MintRWA(i, id, n) => err := MintRWA(i, id, n);
        case ChangeRestrictions(i, id, aa, da, ad, dd, all) => err := UpdateRestrictions(i, id, aa, da, ad, dd, all);
        case SettleRWA(i, id) => err := SettleRWA(i, id);
        case SlashBond(auth, id) => err := SlashBond(auth, id);
      }
    }

    method HandleOther(e: Event) returns (err: Option<Error>)
      requires Valid() && (e.TransferRWA? || e.ChangeParams? || e.ChangeFees? || e.BankSend?)
      modifies this
      ensures Valid() && Answers(err, W(), Outcome(old(W()), e))
    {
      match e {
        case TransferRWA(s, r, id, amt) => err := TransferRWA(s, r, id, amt);
        case ChangeParams(auth, p) => err := UpdateParams(auth, p);
        case ChangeFees(auth, fp) => err := UpdateFees(auth, fp);
        case BankSend(from, to, coins) => err := SendCoins(from, to, coins);
      }
    }

    /** Runs a message; if it fails, every write it made is undone. */
    method Deliver(e: Event) returns (err: Option<Error>)
      requires Valid() && !e.OtherBurn? && !e.BlockEnd?
      modifies this
      ensures Valid()
      ensures match Outcome(old(W()), e)
              case Ok(w) => err.None? && W() == w
              case Err(x) => err == Some(x) && W() == old(W())
    {
      var saved := W();
      if AssetEvent(e) {
        err := HandleAsset(e);
      } else {
        err := HandleOther(e);
      }
      if err.Some? {
        Restore(saved);
      }
    }

    method Restore(w: World)
      requires w.params.Valid() && w.fees.Valid() && Balanced(w.bank)
      modifies this
      ensures Valid() && W() == w
    {
      bank, params, assets, issuerIndex := w.bank, w.params, w.assets, w.issuerIndex;
      allow, deny, fees, genesisSupply, burned := w.allow, w.deny, w.fees, w.genesisSupply, w.burned;
    }

    method UpdateParams(fromAuthority: bool, p: Params) returns (err: Option<Error>)
      requires Valid()
      modifies this`params
      ensures Valid() && Answers(err, W(), RwaState.UpdateParams(old(W()), fromAuthority, p))
    {
      if !fromAuthority {
        return Some(ErrInvalidSigner);
      }
      if !p.Valid() {
        return Some(ErrInvalidParams);
      }
      params := p;
      return None;
    }

    method UpdateFees(fromAuthority: bool, p: FeesParams) returns (err: Option<Error>)
      requires Valid()
      modifies this`fees
      ensures Valid() && Answers(err, W(), UpdateFeesParams(old(W()), fromAuthority, p))
    {
      if p.burnRatio < 0 || p.burnRatio > ONE || p.distributionRatio < 0 || p.distributionRatio > ONE {
        return Some(ErrInvalidParams);
      }
      if p.burnRatio + p.distributionRatio != ONE {
        return Some(ErrInvalidRatioSum);
      }
      if !fromAuthority {
        return Some(ErrUnauthorized);
      }
      fees := p;
      return None;
    }

    // ----- x/fees

    method AddCumulativeBurned(n: nat)
      requires Valid()
      modifies this`burned
      ensures Valid() && burned == old(burned) + n
    {
      burned := burned + n;
    }

    /** Moves the share from the fee collector to the fees account, burns it there and records it. The two bank
        errors the code logs and swallows cannot occur. */
    method EndBlocker()
      requires Valid()
      modifies this`bank, this`burned
      ensures Valid() && W() == EndBlockFees(old(W()))
    {
      var held := Bal(bank, FEE_COLLECTOR, UVTX);
      var burnAmt := ComputeFee(held, fees.burnRatio);
      FeeIsFloor(held, fees.burnRatio);
      FeeAtMost(held, fees.burnRatio);
      BurnNothing(bank, FEE_COLLECTOR, UVTX);
      BurnViaModule(bank, FEES, FEE_COLLECTOR, UVTX, burnAmt);
      if fees.burnRatio == 0 || held == 0 || burnAmt == 0 {
        return;
      }
      var err := Pay(FEE_COLLECTOR, FEES, UVTX, burnAmt);
      if err.Some? {
        assert false;
        return;
      }
      err := BurnCoins(FEES, UVTX, burnAmt);
      if err.Some? {
        assert false;
        return;
      }
      AddCumulativeBurned(burnAmt);
    }
  }
}
