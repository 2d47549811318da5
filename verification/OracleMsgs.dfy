/** The messages of x/oracle as functions on its state: the new state, or the error that leaves
    the state alone. */
module OracleMsgs {
  import opened Bytes
  import opened Dec
  import opened Results
  import opened OracleKeys
  import opened OracleState

  datatype Error =
    | ErrInvalidPairFormat | ErrInvalidPrice | ErrInvalidParams | ErrInvalidSigner
    | ErrFeederNotAuthorized | ErrFeederAlreadyBound | ErrPairNotAccepted
    | ErrNoValidator | ErrNotBondedValidator | ErrNoPrice | ErrStalePrice

  /** Binds a feeder to a validator unless another validator already holds it. */
  function Delegate(s: State, val: Addr, feeder: Addr): Result<State, Error> {
    if feeder in s.validatorOf && s.validatorOf[feeder] != val then Err(ErrFeederAlreadyBound)
    else Ok(s.(validatorOf := s.validatorOf[feeder := val], feederOf := s.feederOf[val := feeder]))
  }

  function SetFeeder(s: State, st: Staking, val: Addr, feeder: Addr): Result<State, Error> {
    if val !in st.known then Err(ErrNoValidator)
    else if !st.known[val] then Err(ErrNotBondedValidator)
    else Delegate(s, val, feeder)
  }

  /** The delegated feeder, or the operator's own account. */
  function AuthorizedFeeder(s: State, val: Addr): Addr {
    if val in s.feederOf then s.feederOf[val] else val
  }

  function SubmitFeed(s: State, st: Staking, height: nat, feeder: Addr, val: Addr, pair: Pair, price: Dec): Result<State, Error> {
    if pair == [] then Err(ErrInvalidPairFormat)
    else if price <= 0 then Err(ErrInvalidPrice)
    else if AuthorizedFeeder(s, val) != feeder then Err(ErrFeederNotAuthorized)
    else if pair !in s.params.acceptList then Err(ErrPairNotAccepted)
    else if val !in st.known then Err(ErrNoValidator)
    else if !st.known[val] || st.Power(val) == 0 then Err(ErrNotBondedValidator)
    else Ok(s.(feeds := s.feeds[FeedId(val, pair) := Feed(price, height)]))
  }

  /** The values other than the pairs. */
  predicate ValuesOk(p: Params) {
    && p.voteWindow > 0 && p.missWindowSize > 0 && p.maxPriceAge > 0
    && InOpenClosedUnit(p.missThreshold) && InOpenClosedUnit(p.outlierThreshold) && InOpenClosedUnit(p.quorumFraction)
    && SlashRateOk(p.missSlashRate) && SlashRateOk(p.outlierSlashRate)
    && p.acceptList != []
  }

  /** The error of the first bad pair from position i on: malformed, or listed before. */
  function ListErrorFrom(ps: seq<Pair>, i: nat): (e: Option<Error>)
    requires i <= |ps|
    ensures e.None? <==> forall j :: i <= j < |ps| ==> PairOk(ps[j]) && ps[j] !in ps[..j]
    decreases |ps| - i
  {
    if i == |ps| then None
    else if !PairOk(ps[i]) then Some(ErrInvalidPairFormat)
    else if ps[i] in ps[..i] then Some(ErrInvalidParams)
    else ListErrorFrom(ps, i + 1)
  }

  /** Why the parameters are refused, if they are. */
  function ParamsError(p: Params): (e: Option<Error>)
    ensures e.None? <==> p.Valid()
  {
    if !ValuesOk(p) then Some(ErrInvalidParams) else ListErrorFrom(p.acceptList, 0)
  }

  /** New parameters; a changed accept list restarts everybody's miss accounting. */
  function UpdateParams(s: State, fromAuthority: bool, p: Params): Result<State, Error> {
    if !fromAuthority then Err(ErrInvalidSigner)
    else if ParamsError(p).Some? then Err(ParamsError(p).value)
    else if s.params.acceptList != p.acceptList then Ok(s.(params := p, miss := map[], total := map[]))
    else Ok(s.(params := p))
  }

  /** The stored price of an accepted pair, unless it is too old. */
  function GetPrice(s: State, pair: Pair, now: int): Result<Dec, Error> {
    if pair !in s.params.acceptList then Err(ErrPairNotAccepted)
    else if pair !in s.prices then Err(ErrNoPrice)
    else if now - s.prices[pair].time > s.params.MaxAge() then Err(ErrStalePrice)
    else Ok(s.prices[pair].price)
  }
}
