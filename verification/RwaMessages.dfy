/** What each message of x/rwa and x/fees does, said in terms of its fields, the records and the balances, not of its
    code: exactly when it succeeds, and what it then changes. */
module RwaMessages {
  import opened Bytes
  import opened Dec
  import opened Results
  import opened Ledger
  import opened RwaState
  import opened RwaRuns
  import opened RwaTheorems
  import OracleState

  // ----- ids

  ghost predicate Slug(id: AssetId) {
    exists head: Byte, tail: Bytes :: id == [head] + tail && 2 <= |tail| <= 42
      && (48 <= head <= 57 || 97 <= head <= 122)
      && (forall b :: b in tail ==> 48 <= b <= 57 || 97 <= b <= 122 || b == 45)
  }

  /** An id is a lower-case letter or digit followed by 2 to 42 lower-case letters, digits or hyphens. */
  lemma ValidAssetIdExactly(id: AssetId)
    ensures ValidAssetId(id) <==> Slug(id)
  {
    if ValidAssetId(id) {
      var tail := id[1..];
      assert id == [id[0]] + tail;
      forall b | b in tail ensures 48 <= b <= 57 || 97 <= b <= 122 || b == 45 {
        var i :| 0 <= i < |tail| && tail[i] == b;
        assert id[i + 1] == b;
      }
    }
    if Slug(id) {
      var head: Byte, tail: Bytes :| id == [head] + tail && 2 <= |tail| <= 42
        && (48 <= head <= 57 || 97 <= head <= 122)
        && (forall b :: b in tail ==> 48 <= b <= 57 || 97 <= b <= 122 || b == 45);
      forall i | 1 <= i < |id| ensures LowerOrDigit(id[i]) || id[i] == 45 {
        assert id[i] == tail[i - 1] && tail[i - 1] in tail;
      }
    }
  }

  // ----- who may hold

  /** The asset is open to everybody or lists the account, and does not deny it. */
  ghost predicate Free(w: World, id: AssetId, a: Addr) {
    id in w.assets && (w.assets[id].allowAll || Member(id, a) in w.allow) && Member(id, a) !in w.deny
  }

  lemma FrozenIsNotFree(w: World, id: AssetId, a: Addr)
    requires id in w.assets && a != RWA
    ensures Frozen(w, id, a) <==> !Free(w, id, a)
  {
  }

  /** Coins of the asset may pass between two accounts: both are free, or one is the module account. */
  ghost predicate MayPass(w: World, id: AssetId, from: Addr, to: Addr) {
    from == RWA || to == RWA || (Free(w, id, from) && Free(w, id, to))
  }

  lemma CheckExactly(w: World, id: AssetId, from: Addr, to: Addr)
    ensures CheckTransferAllowed(w, id, from, to).None? <==> MayPass(w, id, from, to)
  {
  }

  // ----- sends

  ghost predicate CoinMayPass(w: World, c: Coin, from: Addr, to: Addr) {
    forall id: AssetId :: id != [] && c.denom == BuildDenom(id) ==> MayPass(w, id, from, to)
  }

  lemma CoinExactly(w: World, c: Coin, from: Addr, to: Addr)
    ensures CoinMayPass(w, c, from, to) <==>
            ParseRwaDenom(c.denom).None? || CheckTransferAllowed(w, ParseRwaDenom(c.denom).value, from, to).None?
  {
    var parsed := ParseRwaDenom(c.denom);
    if parsed.Some? {
      assert c.denom == BuildDenom(parsed.value);
      CheckExactly(w, parsed.value, from, to);
    }
    forall id: AssetId | id != [] && c.denom == BuildDenom(id) ensures parsed == Some(id) {
      DenomRoundTrip(id);
    }
  }

  /** No coin of the send is stopped. */
  lemma {:induction false} SendRestrictionExactly(w: World, from: Addr, to: Addr, coins: seq<Coin>)
    ensures SendRestriction(w, from, to, coins).None? <==>
            forall i :: 0 <= i < |coins| ==> CoinMayPass(w, coins[i], from, to)
    decreases |coins|
  {
    if coins != [] {
      SendRestrictionExactly(w, from, to, coins[1..]);
      CoinExactly(w, coins[0], from, to);
      assert forall i :: 1 <= i < |coins| ==> coins[i] == coins[1..][i - 1];
      assert forall i :: 0 <= i < |coins[1..]| ==> coins[1..][i] == coins[i + 1];
    }
  }

  /** The sender has the coins: all of them together, or, paying itself, each of them. */
  ghost predicate CanPay(l: Ledger, from: Addr, to: Addr, coins: seq<Coin>) {
    if from == to then forall i :: 0 <= i < |coins| ==> coins[i].amount <= Bal(l, from, coins[i].denom)
    else forall d: Denom :: AmountOf(coins, d) <= Bal(l, from, d)
  }

  lemma PayOneMore(l: Ledger, from: Addr, to: Addr, coins: seq<Coin>)
    requires Balanced(l) && coins != [] && coins[0].amount <= Bal(l, from, coins[0].denom)
    ensures Balanced(Move(l, from, to, coins[0].denom, coins[0].amount))
    ensures CanPay(l, from, to, coins) <==> CanPay(Move(l, from, to, coins[0].denom, coins[0].amount), from, to, coins[1..])
  {
    var c, rest := coins[0], coins[1..];
    var l' := Move(l, from, to, c.denom, c.amount);
    MoveKeepsBooks(l, from, to, c.denom, c.amount);
    if from == to {
      assert forall d: Denom :: Bal(l', from, d) == Bal(l, from, d);
      assert forall i :: 1 <= i < |coins| ==> coins[i] == rest[i - 1];
      assert forall i :: 0 <= i < |rest| ==> rest[i] == coins[i + 1];
    } else {
      assert forall d: Denom :: AmountOf(coins, d) == AmountOf(rest, d) + if d == c.denom then c.amount else 0;
    }
  }

  lemma {:induction false} MoveAllExactly(l: Ledger, from: Addr, to: Addr, coins: seq<Coin>)
    requires Balanced(l)
    ensures MoveAll(l, from, to, coins).Some? <==> CanPay(l, from, to, coins)
    decreases |coins|
  {
    if coins != [] {
      if coins[0].amount <= Bal(l, from, coins[0].denom) {
        PayOneMore(l, from, to, coins);
        MoveAllExactly(Move(l, from, to, coins[0].denom, coins[0].amount), from, to, coins[1..]);
      } else {
        assert AmountOf(coins, coins[0].denom) >= coins[0].amount;
      }
    }
  }

  /** A send goes through exactly when no coin is stopped and the sender has them; it then moves these coins and changes
      no other balance, no supply and no record. */
  lemma SendExactly(w: World, from: Addr, to: Addr, coins: seq<Coin>, a: Addr, d: Denom)
    requires Balanced(w.bank)
    ensures Send(w, from, to, coins).Ok? <==>
            (forall i :: 0 <= i < |coins| ==> CoinMayPass(w, coins[i], from, to)) && CanPay(w.bank, from, to, coins)
    ensures Send(w, from, to, coins).Ok? ==>
              && var w' := Send(w, from, to, coins).value;
              && w' == w.(bank := w'.bank) && w'.bank.supply == w.bank.supply
              && Bal(w'.bank, a, d) == Bal(w.bank, a, d) + (if a == to then AmountOf(coins, d) else 0)
                                                       - (if a == from then AmountOf(coins, d) else 0)
  {
    SendRestrictionExactly(w, from, to, coins);
    MoveAllExactly(w.bank, from, to, coins);
    if Send(w, from, to, coins).Ok? {
      MoveAllKeepsBooks(w.bank, from, to, coins);
    }
  }

  // ----- transfers

  lemma OneCoinSend(s: Sys, from: Addr, to: Addr, id: AssetId, amt: nat)
    requires Inv(s) && id in s.w.assets
    ensures Send(s.w, from, to, [Coin(BuildDenom(id), amt)]).Ok? <==>
            MayPass(s.w, id, from, to) && amt <= Bal(s.w.bank, from, BuildDenom(id))
    ensures var r := Send(s.w, from, to, [Coin(BuildDenom(id), amt)]);
            MayPass(s.w, id, from, to) && r.Err? ==> r.error == ErrInsufficientFunds
  {
    var w, coins := s.w, [Coin(BuildDenom(id), amt)];
    assert IdOk(w, id);
    SendExactly(w, from, to, coins, from, BuildDenom(id));
    DenomRoundTrip(id);
    OneCoin(BuildDenom(id), amt, BuildDenom(id));
    assert coins[0] == Coin(BuildDenom(id), amt);
    CoinExactly(w, coins[0], from, to);
    CheckExactly(w, id, from, to);
    SendRestrictionExactly(w, from, to, coins);
    if amt <= Bal(w.bank, from, BuildDenom(id)) {
      forall d: Denom ensures AmountOf(coins, d) <= Bal(w.bank, from, d) {
        OneCoin(BuildDenom(id), amt, d);
      }
    }
  }

  /** A transfer succeeds exactly for an active asset, with a positive amount the sender holds, between accounts that
      are free of restrictions or to the module account. */
  lemma TransferExactly(s: Sys, sender: Addr, recipient: Addr, id: AssetId, amt: int)
    requires Inv(s) && CanSign(sender)
    ensures Transfer(s.w, sender, recipient, id, amt).Ok? <==>
            && id in s.w.assets && s.w.assets[id].status == Active
            && 0 < amt <= Bal(s.w.bank, sender, BuildDenom(id))
            && (recipient == RWA || (Free(s.w, id, sender) && Free(s.w, id, recipient)))
    ensures var r := Transfer(s.w, sender, recipient, id, amt);
            r.Err? ==> r.error == if !ValidAssetId(id) then ErrInvalidAssetId else if amt <= 0 then ErrInvalidAmount
                                  else if id !in s.w.assets then ErrAssetNotFound
                                  else if s.w.assets[id].status != Active then ErrInvalidStatus
                                  else if !MayPass(s.w, id, sender, recipient) then ErrTransferRestricted
                                  else ErrInsufficientFunds
  {
    assert IdOk(s.w, id);
    if id in s.w.assets && amt > 0 {
      CheckExactly(s.w, id, sender, recipient);
      OneCoinSend(s, sender, recipient, id, amt);
    }
  }

  /** It moves the amount from the sender to the recipient and changes nothing else. */
  lemma TransferPays(s: Sys, sender: Addr, recipient: Addr, id: AssetId, amt: int, a: Addr, d: Denom)
    requires Inv(s) && CanSign(sender) && Transfer(s.w, sender, recipient, id, amt).Ok?
    ensures var w' := Transfer(s.w, sender, recipient, id, amt).value;
            && w' == s.w.(bank := w'.bank) && w'.bank.supply == s.w.bank.supply
            && Bal(w'.bank, a, d) == Bal(s.w.bank, a, d) + (if a == recipient && d == BuildDenom(id) then amt else 0)
                                                       - (if a == sender && d == BuildDenom(id) then amt else 0)
  {
    assert IdOk(s.w, id);
    SendExactly(s.w, sender, recipient, [Coin(BuildDenom(id), amt)], a, d);
    OneCoin(BuildDenom(id), amt, d);
  }

  // ----- restrictions

  /** Why an issuer's message is refused: there is no such asset, it is somebody else's, or else what is given. */
  ghost function NotIssuer(w: World, caller: Addr, id: AssetId, other: Error): Error {
    if id !in w.assets then ErrAssetNotFound else if w.assets[id].issuer != caller then ErrUnauthorized else other
  }

  /** The lists hold at most 100 entries each. */
  ghost predicate SmallBatches(aa: seq<Addr>, da: seq<Addr>, ad: seq<Addr>, dd: seq<Addr>) {
    |aa| <= 100 && |da| <= 100 && |ad| <= 100 && |dd| <= 100
  }

  /** Restrictions can be changed exactly by the issuer of an asset that is not settled, in small batches. An account is
      then on a list exactly when it was there or was added, and was not removed; other assets' lists stay. */
  lemma RestrictionsExactly(s: Sys, caller: Addr, id: AssetId, aa: seq<Addr>, da: seq<Addr>, ad: seq<Addr>, dd: seq<Addr>, all: bool,
                            m: Member)
    requires Inv(s)
    ensures UpdateRestrictions(s.w, caller, id, aa, da, ad, dd, all).Ok? <==>
            && id in s.w.assets && s.w.assets[id].issuer == caller && s.w.assets[id].status != Settled
            && SmallBatches(aa, da, ad, dd)
    ensures var r := UpdateRestrictions(s.w, caller, id, aa, da, ad, dd, all);
            r.Err? ==> r.error == if !ValidAssetId(id) then ErrInvalidAssetId
                                  else if !SmallBatches(aa, da, ad, dd) then ErrInvalidParams
                                  else NotIssuer(s.w, caller, id, ErrInvalidStatus)
    ensures UpdateRestrictions(s.w, caller, id, aa, da, ad, dd, all).Ok? ==>
              && var w' := UpdateRestrictions(s.w, caller, id, aa, da, ad, dd, all).value;
              && w'.bank == s.w.bank && w'.assets == s.w.assets[id := s.w.assets[id].(allowAll := all)]
              && (m in w'.allow <==> if m.id == id then (m in s.w.allow || m.addr in aa) && m.addr !in da else m in s.w.allow)
              && (m in w'.deny <==> if m.id == id then (m in s.w.deny || m.addr in ad) && m.addr !in dd else m in s.w.deny)
  {
    assert IdOk(s.w, id);
    assert m == Member(m.id, m.addr);
  }

  /** Denying an account freezes it, whatever else the message does. */
  lemma DenyingFreezes(s: Sys, caller: Addr, id: AssetId, aa: seq<Addr>, da: seq<Addr>, ad: seq<Addr>, dd: seq<Addr>, all: bool, a: Addr)
    requires Inv(s) && UpdateRestrictions(s.w, caller, id, aa, da, ad, dd, all).Ok?
    requires a in ad && a !in dd && a != RWA
    ensures Frozen(UpdateRestrictions(s.w, caller, id, aa, da, ad, dd, all).value, id, a)
  {
    RestrictionsExactly(s, caller, id, aa, da, ad, dd, all, Member(id, a));
  }

  // ----- registering and attesting

  /** Registering succeeds exactly for a new well-formed id with a name and a well-formed pair, and a positive bond that
      meets the minimum and that the issuer holds. */
  lemma RegisterExactly(s: Sys, issuer: Addr, id: AssetId, name: Bytes, pair: Bytes, bond: int)
    requires Inv(s)
    ensures Register(s.w, issuer, id, name, pair, bond).Ok? <==>
            && ValidAssetId(id) && id !in s.w.assets && name != [] && OracleState.PairOk(pair)
            && bond > 0 && s.w.params.minIssuerBond <= bond <= Bal(s.w.bank, issuer, UVTX)
    ensures var r := Register(s.w, issuer, id, name, pair, bond);
            r.Err? ==> r.error == if !ValidAssetId(id) then ErrInvalidAssetId
                                  else if name == [] || !OracleState.PairOk(pair) then ErrInvalidParams
                                  else if bond <= 0 then ErrInvalidAmount else if id in s.w.assets then ErrAssetExists
                                  else if bond < s.w.params.minIssuerBond then ErrBondTooLow else ErrInsufficientFunds
  {
  }

  /** It moves the bond into escrow and records an open draft with that bond; nothing else changes. */
  lemma RegisterPays(s: Sys, issuer: Addr, id: AssetId, name: Bytes, pair: Bytes, bond: int, a: Addr, d: Denom)
    requires Inv(s) && CanSign(issuer) && Register(s.w, issuer, id, name, pair, bond).Ok?
    ensures var w, w' := s.w, Register(s.w, issuer, id, name, pair, bond).value;
            && w' == w.(bank := w'.bank, assets := w'.assets, issuerIndex := w'.issuerIndex)
            && w'.assets == w.assets[id := Asset(id, issuer, name, Draft, pair, BuildDenom(id), bond, 0, true, 0)]
            && w'.bank.supply == w.bank.supply
            && Bal(w'.bank, a, d) == Bal(w.bank, a, d)
                 + if d != UVTX then 0 else if a == RWA then bond else if a == issuer then -bond else 0
  {
    MoveKeepsBooks(s.w.bank, issuer, RWA, UVTX, bond);
  }

  /** Attesting succeeds exactly for the issuer of a draft when x/oracle answers a price, and records it. */
  lemma AttestExactly(s: Sys, caller: Addr, id: AssetId, price: Option<Dec>)
    requires Inv(s)
    ensures Attest(s.w, caller, id, price).Ok? <==>
            id in s.w.assets && s.w.assets[id].issuer == caller && s.w.assets[id].status == Draft && price.Some?
    ensures var r := Attest(s.w, caller, id, price);
            r.Err? && ValidAssetId(id) ==>
              r.error == NotIssuer(s.w, caller, id, if id in s.w.assets && s.w.assets[id].status != Draft then ErrInvalidStatus
                                                    else ErrAttestationFailed)
    ensures Attest(s.w, caller, id, price).Ok? ==>
              && var w' := Attest(s.w, caller, id, price).value;
              && w'.bank == s.w.bank && w'.allow == s.w.allow && w'.deny == s.w.deny
              && w'.assets == s.w.assets[id := s.w.assets[id].(status := Attested, attestedPrice := price.value)]
  {
    assert IdOk(s.w, id);
  }

  // ----- minting

  /** Minting succeeds exactly for the issuer of an attested or active asset, with a positive notional and enough uvtx
      for the exact fee rounded down. */
  lemma MintExactly(s: Sys, caller: Addr, id: AssetId, n: int)
    requires Inv(s) && CanSign(caller)
    ensures Mint(s.w, caller, id, n).Ok? <==>
            && id in s.w.assets && s.w.assets[id].issuer == caller
            && (s.w.assets[id].status == Attested || s.w.assets[id].status == Active)
            && n > 0 && n * s.w.params.mintFeeRate / ONE <= Bal(s.w.bank, caller, UVTX)
    ensures var r := Mint(s.w, caller, id, n);
            r.Err? ==> r.error == if !ValidAssetId(id) then ErrInvalidAssetId else if n <= 0 then ErrInvalidNotional
                                  else NotIssuer(s.w, caller, id,
                                                 if id in s.w.assets && s.w.assets[id].status != Attested
                                                    && s.w.assets[id].status != Active then ErrInvalidStatus
                                                 else ErrInsufficientFunds)
  {
    assert IdOk(s.w, id);
    if n > 0 {
      FeeIsFloor(n, s.w.params.mintFeeRate);
    }
  }

  /** It creates that many coins at the issuer, adds them to the asset's notional and makes it active. */
  lemma MintPays(s: Sys, caller: Addr, id: AssetId, n: int, a: Addr, d: Denom)
    requires Inv(s) && CanSign(caller) && Mint(s.w, caller, id, n).Ok? && d != UVTX
    ensures var w, w' := s.w, Mint(s.w, caller, id, n).value;
            && id in w.assets && w'.allow == w.allow && w'.deny == w.deny
            && w'.assets == w.assets[id := w.assets[id].(status := Active, notional := w.assets[id].notional + n)]
            && Supply(w'.bank, d) == Supply(w.bank, d) + (if d == BuildDenom(id) then n else 0)
            && Bal(w'.bank, a, d) == Bal(w.bank, a, d) + if a == caller && d == BuildDenom(id) then n else 0
  {
    assert IdOk(s.w, id);
    MintLegs(s, caller, id, n);
  }

  // ----- ending an asset

  /** Settling or slashing leaves the record as it was, settled, a slashed one without its bond; no list changes. */
  lemma EndRecords(s: Sys, caller: Addr, auth: bool, id: AssetId)
    requires Inv(s)
    ensures Settle(s.w, caller, id).Ok? ==>
              && var w' := Settle(s.w, caller, id).value;
              && id in s.w.assets && w'.assets == s.w.assets[id := s.w.assets[id].(status := Settled)]
              && w'.allow == s.w.allow && w'.deny == s.w.deny && w'.params == s.w.params
    ensures Slash(s.w, auth, id).Ok? ==>
              && var w' := Slash(s.w, auth, id).value;
              && id in s.w.assets && w'.assets == s.w.assets[id := s.w.assets[id].(status := Settled, bond := 0)]
              && w'.allow == s.w.allow && w'.deny == s.w.deny && w'.params == s.w.params
  {
    assert IdOk(s.w, id);
  }

  /** Why settling and slashing are refused. */
  lemma EndRefusals(s: Sys, caller: Addr, auth: bool, id: AssetId)
    requires Inv(s) && CanSign(caller)
    ensures var r := Settle(s.w, caller, id);
            r.Err? && ValidAssetId(id) ==>
              r.error == NotIssuer(s.w, caller, id, if id in s.w.assets && s.w.assets[id].status != Active then ErrInvalidStatus
                                                    else ErrInsufficientFunds)
    ensures var r := Slash(s.w, auth, id);
            r.Err? ==> r.error == if !auth then ErrUnauthorized else if !ValidAssetId(id) then ErrInvalidAssetId
                                  else if id !in s.w.assets then ErrAssetNotFound else ErrInvalidStatus
  {
    assert IdOk(s.w, id);
    SlashSucceedsExactly(s, auth, id);
  }

  // ----- parameters

  /** Updates of x/rwa's and of x/fees' parameters succeed exactly from the authority and within the bounds, in units of
      10^-18: fee rates in [0, 1), ratios in [0, 1] that add up to 1. They change nothing but the parameters. */
  lemma ParamsExactly(w: World, auth: bool, p: Params, fp: FeesParams)
    ensures UpdateParams(w, auth, p) == Ok(w.(params := p)) <==>
            && auth && p.minIssuerBond >= 0
            && 0 <= p.mintFeeRate < 1_000_000_000_000_000_000 && 0 <= p.settleFeeRate < 1_000_000_000_000_000_000
    ensures UpdateParams(w, auth, p).Ok? ==> UpdateParams(w, auth, p) == Ok(w.(params := p))
    ensures UpdateFeesParams(w, auth, fp) == Ok(w.(fees := fp)) <==>
            auth && fp.burnRatio >= 0 && fp.distributionRatio >= 0 && fp.burnRatio + fp.distributionRatio == 1_000_000_000_000_000_000
    ensures UpdateFeesParams(w, auth, fp).Ok? ==> UpdateFeesParams(w, auth, fp) == Ok(w.(fees := fp))
  {
  }
}
