/** x/rwa and x/fees on the bank ledger: what each message and each block end does, in closed form. */
module RwaState {
  import opened Bytes
  import opened Dec
  import opened Sums
  import opened Results
  import opened Ledger
  import OracleState

  type AssetId = Bytes

  // ----- denoms

  const UVTX: Denom := [117, 118, 116, 120]
  const RWA_PREFIX: Bytes := [114, 119, 97, 47]

  function BuildDenom(id: AssetId): Denom {
    RWA_PREFIX + id
  }

  function ParseRwaDenom(d: Denom): Option<AssetId> {
    if !(RWA_PREFIX <= d) || |d| == |RWA_PREFIX| then None else Some(d[|RWA_PREFIX|..])
  }

  lemma DenomRoundTrip(id: AssetId)
    ensures ParseRwaDenom(BuildDenom(id)) == (if id == [] then None else Some(id))
    ensures BuildDenom(id) != UVTX
  {
    assert BuildDenom(id)[|RWA_PREFIX|..] == id;
    assert BuildDenom(id)[3] == 47;
  }

  lemma DenomsDiffer(a: AssetId, b: AssetId)
    requires BuildDenom(a) == BuildDenom(b)
    ensures a == b
  {
    assert a == BuildDenom(a)[|RWA_PREFIX|..] && b == BuildDenom(b)[|RWA_PREFIX|..];
  }

  predicate LowerOrDigit(b: Byte) {
    48 <= b <= 57 || 97 <= b <= 122
  }

  /** The slug format of asset ids: 3 to 43 characters, lower-case letters, digits and, after the first, hyphens. */
  predicate ValidAssetId(id: AssetId) {
    3 <= |id| <= 43 && LowerOrDigit(id[0]) && forall i :: 1 <= i < |id| ==> LowerOrDigit(id[i]) || id[i] == 45
  }

  // ----- accounts

  // Module accounts are named by the bytes of the module name, which stand for its hash.
  const RWA: Addr := [114, 119, 97]
  const FEES: Addr := [102, 101, 101, 115]
  const FEE_COLLECTOR: Addr := [102, 101, 101, 95, 99, 111, 108, 108]
  const DISTRIBUTION: Addr := [100, 105, 115, 116, 114]
  const BONDED_POOL: Addr := [98, 111, 110, 100, 101, 100]
  const NOT_BONDED_POOL: Addr := [110, 111, 116, 95, 98, 111, 110, 100, 101, 100]

  /** Accounts a module refuses to pay out to. */
  predicate Blocked(a: Addr) {
    a == FEE_COLLECTOR || a == DISTRIBUTION || a == BONDED_POOL || a == NOT_BONDED_POOL
  }

  /** Accounts that can sign a message: nobody holds a key of these module accounts. */
  predicate CanSign(a: Addr) {
    a != RWA && a != FEES && !Blocked(a)
  }

  // ----- records

  datatype Status = Draft | Attested | Active | Settled

  datatype Asset = Asset(
    id: AssetId, issuer: Addr, name: Bytes, status: Status, pair: Bytes, denom: Denom,
    bond: int, notional: int, allowAll: bool, attestedPrice: Dec)

  datatype Params = Params(minIssuerBond: int, mintFeeRate: Dec, settleFeeRate: Dec) {
    predicate Valid() {
      minIssuerBond >= 0 && 0 <= mintFeeRate < ONE && 0 <= settleFeeRate < ONE
    }
  }

  datatype Member = Member(id: AssetId, addr: Addr)
  datatype IssuerEntry = IssuerEntry(issuer: Addr, id: AssetId)

  datatype FeesParams = FeesParams(burnRatio: Dec, distributionRatio: Dec) {
    predicate Valid() {
      0 <= burnRatio <= ONE && 0 <= distributionRatio <= ONE && burnRatio + distributionRatio == ONE
    }
  }

  datatype World = World(
    bank: Ledger,
    params: Params,
    assets: map<AssetId, Asset>,
    issuerIndex: set<IssuerEntry>,
    allow: set<Member>,
    deny: set<Member>,
    fees: FeesParams,
    genesisSupply: nat,
    burned: nat)

  datatype Error =
    | ErrInvalidAssetId | ErrInvalidAmount | ErrInvalidNotional | ErrInvalidParams | ErrInvalidRatioSum
    | ErrAssetExists | ErrAssetNotFound | ErrBondTooLow | ErrUnauthorized | ErrInvalidSigner | ErrInvalidStatus
    | ErrAttestationFailed | ErrTransferRestricted | ErrInsufficientFunds | ErrBlocked
    | Panicked // a panic fails the message like an error

  // ----- fees

  /** The fee as the code computes it, through the rounding multiplication. */
  function ComputeFee(notional: nat, rate: Dec): int {
    TruncateInt(Mul(FromInt(notional), rate))
  }

  /** The fee is the exact product rounded down: the multiplication by a whole number rounds nothing. */
  lemma FeeIsFloor(notional: nat, rate: Dec)
    requires 0 <= rate
    ensures ComputeFee(notional, rate) == notional * rate / ONE
    ensures 0 <= ComputeFee(notional, rate)
    ensures ComputeFee(notional, rate) * ONE <= notional * rate < (ComputeFee(notional, rate) + 1) * ONE
  {
    MulByIntExact(rate, notional);
    MulMono(0, notional, rate);
    DivBounds(notional * rate, ONE);
  }

  lemma FeeAtMost(notional: nat, rate: Dec)
    requires 0 <= rate <= ONE
    ensures 0 <= ComputeFee(notional, rate) <= notional
  {
    FeeIsFloor(notional, rate);
    MulMono(rate, ONE, notional);
  }

  // ----- transfer restrictions

  /** Who may hold and move the coins of an asset; legs through the module account are exempt. */
  function CheckTransferAllowed(w: World, id: AssetId, from: Addr, to: Addr): Option<Error> {
    if from == RWA || to == RWA then None
    else if id !in w.assets then Some(ErrAssetNotFound)
    else if !w.assets[id].allowAll && (Member(id, from) !in w.allow || Member(id, to) !in w.allow) then Some(ErrTransferRestricted)
    else if Member(id, from) in w.deny || Member(id, to) in w.deny then Some(ErrTransferRestricted)
    else None
  }

  /** The first coin of a send that its restrictions forbid. */
  function SendRestriction(w: World, from: Addr, to: Addr, coins: seq<Coin>): Option<Error> {
    if coins == [] then None
    else
      var parsed := ParseRwaDenom(coins[0].denom);
      var first := if parsed.None? then None else CheckTransferAllowed(w, parsed.value, from, to);
      if first.Some? then first else SendRestriction(w, from, to, coins[1..])
  }

  /** Any bank send: restrictions first, then the balances. */
  function Send(w: World, from: Addr, to: Addr, coins: seq<Coin>): Result<World, Error> {
    var stop := SendRestriction(w, from, to, coins);
    if stop.Some? then Err(stop.value)
    else
      match MoveAll(w.bank, from, to, coins)
      case None => Err(ErrInsufficientFunds)
      case Some(l) => Ok(w.(bank := l))
  }

  // ----- messages

  function WithAsset(w: World, a: Asset): World {
    w.(assets := w.assets[a.id := a], issuerIndex := w.issuerIndex + {IssuerEntry(a.issuer, a.id)})
  }

  function Register(w: World, issuer: Addr, id: AssetId, name: Bytes, pair: Bytes, bond: int): Result<World, Error> {
    if !ValidAssetId(id) then Err(ErrInvalidAssetId)
    else if name == [] || !OracleState.PairOk(pair) then Err(ErrInvalidParams)
    else if bond <= 0 then Err(ErrInvalidAmount)
    else if id in w.assets then Err(ErrAssetExists)
    else if bond < w.params.minIssuerBond then Err(ErrBondTooLow)
    else if bond > Bal(w.bank, issuer, UVTX) then Err(ErrInsufficientFunds)
    else Ok(WithAsset(w.(bank := Move(w.bank, issuer, RWA, UVTX, bond)),
                      Asset(id, issuer, name, Draft, pair, BuildDenom(id), bond, 0, true, 0)))
  }

  /** The error an issuer-only message meets before anything else. */
  function IssuerError(w: World, caller: Addr, id: AssetId): Option<Error> {
    if !ValidAssetId(id) then Some(ErrInvalidAssetId)
    else if id !in w.assets then Some(ErrAssetNotFound)
    else if w.assets[id].issuer != caller then Some(ErrUnauthorized)
    else None
  }

  /** `price` is what the oracle answers for the asset's pair. */
  function Attest(w: World, caller: Addr, id: AssetId, price: Option<Dec>): Result<World, Error> {
    var e := IssuerError(w, caller, id);
    if e.Some? then Err(e.value)
    else if w.assets[id].status != Draft then Err(ErrInvalidStatus)
    else if price.None? then Err(ErrAttestationFailed)
    else Ok(WithAsset(w, w.assets[id].(status := Attested, attestedPrice := price.value)))
  }

  /** The issuer pays the fee and receives the newly minted coins. */
  function Mint(w: World, caller: Addr, id: AssetId, notional: int): Result<World, Error>
    requires w.params.Valid()
  {
    var e := if ValidAssetId(id) && notional <= 0 then Some(ErrInvalidNotional) else IssuerError(w, caller, id);
    if e.Some? then Err(e.value)
    else
      var a := w.assets[id];
      var fee := ComputeFee(notional, w.params.mintFeeRate);
      FeeAtMost(notional, w.params.mintFeeRate);
      if a.status != Attested && a.status != Active then Err(ErrInvalidStatus)
      else if fee > Bal(w.bank, caller, UVTX) then Err(ErrInsufficientFunds)
      else if Blocked(caller) then Err(ErrBlocked)
      else Ok(WithAsset(w.(bank := MintTo(Move(w.bank, caller, FEE_COLLECTOR, UVTX, fee), caller, a.denom, notional)),
                        a.(notional := a.notional + notional, status := Active)))
  }

  function Transfer(w: World, sender: Addr, recipient: Addr, id: AssetId, amount: int): Result<World, Error> {
    if !ValidAssetId(id) then Err(ErrInvalidAssetId)
    else if amount <= 0 then Err(ErrInvalidAmount)
    else if id !in w.assets then Err(ErrAssetNotFound)
    else if w.assets[id].status != Active then Err(ErrInvalidStatus)
    else
      var stop := CheckTransferAllowed(w, id, sender, recipient);
      if stop.Some? then Err(stop.value) else Send(w, sender, recipient, [Coin(w.assets[id].denom, amount)])
  }

  const MAX_BATCH: int := 100

  function MembersOf(id: AssetId, addrs: seq<Addr>): set<Member> {
    set a | a in addrs :: Member(id, a)
  }

  /** Additions first, then removals, on both lists. */
  function UpdateRestrictions(w: World, caller: Addr, id: AssetId, addAllow: seq<Addr>, delAllow: seq<Addr>,
                              addDeny: seq<Addr>, delDeny: seq<Addr>, allowAll: bool): Result<World, Error> {
    if !ValidAssetId(id) then Err(ErrInvalidAssetId)
    else if |addAllow| > MAX_BATCH || |delAllow| > MAX_BATCH || |addDeny| > MAX_BATCH || |delDeny| > MAX_BATCH
    then Err(ErrInvalidParams)
    else
      var e := IssuerError(w, caller, id);
      if e.Some? then Err(e.value)
      else if w.assets[id].status == Settled then Err(ErrInvalidStatus)
      else Ok(WithAsset(w.(allow := w.allow + MembersOf(id, addAllow) - MembersOf(id, delAllow),
                           deny := w.deny + MembersOf(id, addDeny) - MembersOf(id, delDeny)),
                        w.assets[id].(allowAll := allowAll)))
  }

  /** What a bond pays: nothing unless it is positive. */
  function Payable(bond: int): nat {
    if bond > 0 then bond else 0
  }

  /** The issuer pays the fee, its coins are burned for the whole notional, and the bond comes back. Only an imported
      asset can have a negative notional; naming an amount of coins by it panics. */
  function Settle(w: World, caller: Addr, id: AssetId): Result<World, Error>
    requires w.params.Valid()
  {
    var e := IssuerError(w, caller, id);
    if e.Some? then Err(e.value)
    else if w.assets[id].status != Active then Err(ErrInvalidStatus)
    else if w.assets[id].notional < 0 then Err(Panicked)
    else
      var a := w.assets[id];
      var fee := ComputeFee(a.notional, w.params.settleFeeRate);
      FeeAtMost(a.notional, w.params.settleFeeRate);
      if fee > Bal(w.bank, caller, UVTX) then Err(ErrInsufficientFunds)
      else
        var paid := Move(w.bank, caller, FEE_COLLECTOR, UVTX, fee);
        if a.notional > Bal(paid, caller, a.denom) || a.notional > Supply(paid, a.denom) then Err(ErrInsufficientFunds)
        else
          var burnt := BurnFrom(paid, caller, a.denom, a.notional);
          if a.bond > 0 && Blocked(caller) then Err(ErrBlocked)
          else if Payable(a.bond) > Bal(burnt, RWA, UVTX) then Err(ErrInsufficientFunds)
          else Ok(WithAsset(w.(bank := Move(burnt, RWA, caller, UVTX, Payable(a.bond))), a.(status := Settled)))
  }

  /** Governance sends the bond to the community pool; the coins stay in circulation. */
  function Slash(w: World, fromAuthority: bool, id: AssetId): Result<World, Error> {
    if !fromAuthority then Err(ErrUnauthorized)
    else if !ValidAssetId(id) then Err(ErrInvalidAssetId)
    else if id !in w.assets then Err(ErrAssetNotFound)
    else
      var a := w.assets[id];
      if a.status != Active then Err(ErrInvalidStatus)
      else if Payable(a.bond) > Bal(w.bank, RWA, UVTX) then Err(ErrInsufficientFunds)
      else Ok(WithAsset(w.(bank := Move(w.bank, RWA, DISTRIBUTION, UVTX, Payable(a.bond))), a.(status := Settled, bond := 0)))
  }

  function UpdateParams(w: World, fromAuthority: bool, p: Params): Result<World, Error> {
    if !fromAuthority then Err(ErrInvalidSigner)
    else if !p.Valid() then Err(ErrInvalidParams)
    else Ok(w.(params := p))
  }

  /** Unlike the other authority messages this one checks the parameters before the sender. */
  function UpdateFeesParams(w: World, fromAuthority: bool, p: FeesParams): Result<World, Error> {
    if !(0 <= p.burnRatio <= ONE && 0 <= p.distributionRatio <= ONE) then Err(ErrInvalidParams)
    else if p.burnRatio + p.distributionRatio != ONE then Err(ErrInvalidRatioSum)
    else if !fromAuthority then Err(ErrUnauthorized)
    else Ok(w.(fees := p))
  }

  // ----- the end of a block in x/fees

  /** The share of the collected fees that is burned. */
  function BurnAmount(w: World): int {
    ComputeFee(Bal(w.bank, FEE_COLLECTOR, UVTX), w.fees.burnRatio)
  }

  /** The share is destroyed at the fee collector and recorded; the rest stays there for the stakers. */
  function EndBlockFees(w: World): World
    requires w.fees.Valid() && Balanced(w.bank)
  {
    FeeAtMost(Bal(w.bank, FEE_COLLECTOR, UVTX), w.fees.burnRatio);
    BalanceAtMostSupply(w.bank, FEE_COLLECTOR, UVTX);
    w.(bank := BurnFrom(w.bank, FEE_COLLECTOR, UVTX, BurnAmount(w)), burned := w.burned + BurnAmount(w))
  }

  // ----- totals over many fees

  /** An amount and the rate it is charged at. */
  datatype Charge = Charge(amount: nat, rate: Dec)

  function AmountCharged(c: Charge): int {
    c.amount
  }

  function ExactFee(c: Charge): int {
    c.amount * c.rate
  }

  function FeeOf(c: Charge): int {
    ComputeFee(c.amount, c.rate)
  }

  /** Rounding down loses less than one unit per fee, and never gains. */
  lemma {:induction false} FeesWithinCount(cs: seq<Charge>)
    requires forall i :: 0 <= i < |cs| ==> cs[i].rate >= 0
    ensures SumSeq(cs, FeeOf) * ONE <= SumSeq(cs, ExactFee) <= (SumSeq(cs, FeeOf) + |cs|) * ONE
    ensures cs != [] ==> SumSeq(cs, ExactFee) < (SumSeq(cs, FeeOf) + |cs|) * ONE
  {
    if cs != [] {
      var n := |cs| - 1;
      FeesWithinCount(cs[..n]);
      FeeIsFloor(cs[n].amount, cs[n].rate);
    }
  }

  lemma {:induction false} ExactFeesAdd(cs: seq<Charge>, rate: Dec)
    requires forall i :: 0 <= i < |cs| ==> cs[i].rate == rate
    ensures SumSeq(cs, AmountCharged) >= 0 && SumSeq(cs, ExactFee) == SumSeq(cs, AmountCharged) * rate
  {
    if cs != [] {
      var n := |cs| - 1;
      ExactFeesAdd(cs[..n], rate);
      Distributes(rate, SumSeq(cs[..n], AmountCharged), cs[n].amount);
    }
  }

  /** Splitting a mint into several lowers the total fee, by less than one unit per part. */
  lemma SplittingSavesLittle(cs: seq<Charge>, rate: Dec)
    requires 0 <= rate && cs != [] && forall i :: 0 <= i < |cs| ==> cs[i].rate == rate
    ensures SumSeq(cs, AmountCharged) >= 0
    ensures SumSeq(cs, FeeOf) <= ComputeFee(SumSeq(cs, AmountCharged), rate) < SumSeq(cs, FeeOf) + |cs|
  {
    ExactFeesAdd(cs, rate);
    FeesWithinCount(cs);
    FeeIsFloor(SumSeq(cs, AmountCharged), rate);
  }
}
