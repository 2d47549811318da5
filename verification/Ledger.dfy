/** The bank ledger under x/rwa and x/fees: balances and supplies, with zero entries removed. */
module Ledger {
  import opened Bytes
  import opened Sums
  import opened Results

  type Denom = Bytes

  datatype Slot = Slot(acct: Addr, denom: Denom)

  datatype Ledger = Ledger(bal: map<Slot, nat>, supply: map<Denom, nat>)

  function Get<K>(m: map<K, nat>, k: K): nat {
    if k in m then m[k] else 0
  }

  /** A zero entry is deleted rather than stored. */
  function Put<K>(m: map<K, nat>, k: K, v: nat): map<K, nat> {
    if v == 0 then m - {k} else m[k := v]
  }

  function Bal(l: Ledger, a: Addr, d: Denom): nat {
    Get(l.bal, Slot(a, d))
  }

  function Supply(l: Ledger, d: Denom): nat {
    Get(l.supply, d)
  }

  function Credit(l: Ledger, a: Addr, d: Denom, amt: nat): Ledger {
    l.(bal := Put(l.bal, Slot(a, d), Bal(l, a, d) + amt))
  }

  function Debit(l: Ledger, a: Addr, d: Denom, amt: nat): Ledger
    requires amt <= Bal(l, a, d)
  {
    l.(bal := Put(l.bal, Slot(a, d), Bal(l, a, d) - amt))
  }

  /** Moves coins between two accounts. */
  function Move(l: Ledger, from: Addr, to: Addr, d: Denom, amt: nat): Ledger
    requires amt <= Bal(l, from, d)
  {
    Credit(Debit(l, from, d, amt), to, d, amt)
  }

  /** Creates coins in an account. */
  function MintTo(l: Ledger, a: Addr, d: Denom, amt: nat): Ledger {
    Credit(l, a, d, amt).(supply := Put(l.supply, d, Supply(l, d) + amt))
  }

  /** Destroys coins of an account. */
  function BurnFrom(l: Ledger, a: Addr, d: Denom, amt: nat): Ledger
    requires amt <= Bal(l, a, d) && amt <= Supply(l, d)
  {
    Debit(l, a, d, amt).(supply := Put(l.supply, d, Supply(l, d) - amt))
  }

  // ----- normal form

  ghost predicate Normal(l: Ledger) {
    (forall k :: k in l.bal ==> l.bal[k] > 0) && (forall d :: d in l.supply ==> l.supply[d] > 0)
  }

  /** Ledgers without zero entries are equal as soon as all balances and supplies are. */
  lemma SameLedger(l: Ledger, l': Ledger)
    requires Normal(l) && Normal(l')
    requires forall k :: Get(l.bal, k) == Get(l'.bal, k)
    requires forall d :: Get(l.supply, d) == Get(l'.supply, d)
    ensures l == l'
  {
    assert forall k :: k in l.bal <==> Get(l.bal, k) > 0;
    assert forall k :: k in l'.bal <==> Get(l'.bal, k) > 0;
    assert forall d :: d in l.supply <==> Get(l.supply, d) > 0;
    assert forall d :: d in l'.supply <==> Get(l'.supply, d) > 0;
    assert l.bal == l'.bal;
    assert l.supply == l'.supply;
  }

  // ----- holdings

  ghost function HeldIn(bal: map<Slot, nat>, d: Denom): Slot -> int {
    (k: Slot) => if k.denom == d then Get(bal, k) else 0
  }

  /** All coins of a denom in anybody's account. */
  ghost function Holdings(bal: map<Slot, nat>, d: Denom): int {
    SumSet(bal.Keys, HeldIn(bal, d))
  }

  /** Changing one balance changes the holdings of its denom by the same amount. */
  lemma HoldingsPut(bal: map<Slot, nat>, k: Slot, v: nat, d: Denom)
    ensures Holdings(Put(bal, k, v), d) == Holdings(bal, d) + if k.denom == d then v - Get(bal, k) else 0
  {
    var bal' := Put(bal, k, v);
    var rest := bal.Keys - {k};
    SumAgree(rest, HeldIn(bal, d), HeldIn(bal', d));
    if k in bal {
      SumRemove(bal.Keys, HeldIn(bal, d), k);
    } else {
      assert rest == bal.Keys;
    }
    if v == 0 {
      assert bal'.Keys == rest;
    } else {
      assert bal'.Keys == rest + {k};
      SumAdd(rest, HeldIn(bal', d), k);
    }
  }

  /** The bank's own invariant: what is held is what was issued. */
  ghost predicate BalancedIn(l: Ledger, d: Denom) {
    Holdings(l.bal, d) == Supply(l, d)
  }

  ghost predicate Balanced(l: Ledger) {
    Normal(l) && forall d: Denom :: BalancedIn(l, d)
  }

  lemma BalanceAtMostHoldings(bal: map<Slot, nat>, a: Addr, d: Denom)
    ensures Get(bal, Slot(a, d)) <= Holdings(bal, d)
  {
    if Slot(a, d) in bal {
      SumAtLeastElement(bal.Keys, HeldIn(bal, d), Slot(a, d));
    } else {
      SumNonNegative(bal.Keys, HeldIn(bal, d));
    }
  }

  /** Two accounts together never hold more than was issued. */
  lemma TwoBalancesAtMostSupply(l: Ledger, a: Addr, b: Addr, d: Denom)
    requires Balanced(l) && a != b
    ensures Bal(l, a, d) + Bal(l, b, d) <= Supply(l, d)
  {
    var bal' := Put(l.bal, Slot(a, d), 0);
    assert BalancedIn(l, d);
    HoldingsPut(l.bal, Slot(a, d), 0, d);
    BalanceAtMostHoldings(bal', b, d);
  }

  lemma BalanceAtMostSupply(l: Ledger, a: Addr, d: Denom)
    requires Balanced(l)
    ensures Bal(l, a, d) <= Supply(l, d)
  {
    assert BalancedIn(l, d);
    BalanceAtMostHoldings(l.bal, a, d);
  }

  // ----- the operations keep the books

  /** All balances as before, except one account's in one denom. */
  ghost predicate BalancesShift(l: Ledger, l': Ledger, a: Addr, d: Denom, delta: int) {
    forall b: Addr, e: Denom :: Bal(l', b, e) == Bal(l, b, e) + if b == a && e == d then delta else 0
  }

  ghost predicate SupplyShifts(l: Ledger, l': Ledger, d: Denom, delta: int) {
    forall e: Denom :: Supply(l', e) == Supply(l, e) + if e == d then delta else 0
  }

  lemma CreditEffect(l: Ledger, a: Addr, d: Denom, amt: nat)
    requires Normal(l)
    ensures Normal(Credit(l, a, d, amt)) && BalancesShift(l, Credit(l, a, d, amt), a, d, amt)
  {
  }

  lemma DebitEffect(l: Ledger, a: Addr, d: Denom, amt: nat)
    requires Normal(l) && amt <= Bal(l, a, d)
    ensures Normal(Debit(l, a, d, amt)) && BalancesShift(l, Debit(l, a, d, amt), a, d, 0 - amt)
  {
  }

  ghost predicate MovedBy(l: Ledger, l': Ledger, from: Addr, to: Addr, d: Denom, amt: nat) {
    && l'.supply == l.supply
    && forall a: Addr, e: Denom :: Bal(l', a, e) == Bal(l, a, e)
         + (if a == to && e == d then amt else 0) - (if a == from && e == d then amt else 0)
  }

  /** A move conserves every denom. */
  lemma MoveKeepsBooks(l: Ledger, from: Addr, to: Addr, d: Denom, amt: nat)
    requires Balanced(l) && amt <= Bal(l, from, d)
    ensures Balanced(Move(l, from, to, d, amt)) && MovedBy(l, Move(l, from, to, d, amt), from, to, d, amt)
  {
    var m, l' := Debit(l, from, d, amt), Move(l, from, to, d, amt);
    DebitEffect(l, from, d, amt);
    CreditEffect(m, to, d, amt);
    forall e: Denom ensures BalancedIn(l', e) {
      MoveConserves(l, from, to, d, amt, e);
    }
  }

  lemma MoveConserves(l: Ledger, from: Addr, to: Addr, d: Denom, amt: nat, e: Denom)
    requires amt <= Bal(l, from, d) && BalancedIn(l, e)
    ensures BalancedIn(Move(l, from, to, d, amt), e)
  {
    DebitHoldings(l, from, d, amt, e);
    CreditHoldings(Debit(l, from, d, amt), to, d, amt, e);
  }

  lemma CreditHoldings(l: Ledger, a: Addr, d: Denom, amt: nat, e: Denom)
    ensures Holdings(Credit(l, a, d, amt).bal, e) == Holdings(l.bal, e) + if e == d then amt else 0
  {
    HoldingsPut(l.bal, Slot(a, d), Bal(l, a, d) + amt, e);
  }

  lemma DebitHoldings(l: Ledger, a: Addr, d: Denom, amt: nat, e: Denom)
    requires amt <= Bal(l, a, d)
    ensures Holdings(Debit(l, a, d, amt).bal, e) == Holdings(l.bal, e) - if e == d then amt else 0
  {
    HoldingsPut(l.bal, Slot(a, d), Bal(l, a, d) - amt, e);
  }

  lemma MintKeepsBooks(l: Ledger, a: Addr, d: Denom, amt: nat)
    requires Balanced(l)
    ensures var l' := MintTo(l, a, d, amt); Balanced(l') && SupplyShifts(l, l', d, amt) && BalancesShift(l, l', a, d, amt)
  {
    CreditEffect(l, a, d, amt);
    forall e: Denom ensures BalancedIn(MintTo(l, a, d, amt), e) {
      assert BalancedIn(l, e);
      CreditHoldings(l, a, d, amt, e);
    }
  }

  /** A burn never lacks supply: the coins it destroys were issued. */
  lemma BurnKeepsBooks(l: Ledger, a: Addr, d: Denom, amt: nat)
    requires Balanced(l) && amt <= Bal(l, a, d)
    ensures amt <= Supply(l, d)
    ensures var l' := BurnFrom(l, a, d, amt); Balanced(l') && SupplyShifts(l, l', d, 0 - amt) && BalancesShift(l, l', a, d, 0 - amt)
  {
    BalanceAtMostSupply(l, a, d);
    DebitEffect(l, a, d, amt);
    forall e: Denom ensures BalancedIn(BurnFrom(l, a, d, amt), e) {
      assert BalancedIn(l, e);
      DebitHoldings(l, a, d, amt, e);
    }
  }

  /** A fee paid in one denom, then coins minted in another. */
  lemma PayAndMint(l: Ledger, payer: Addr, collector: Addr, u: Denom, fee: nat, d: Denom, amt: nat)
    requires Balanced(l) && d != u && fee <= Bal(l, payer, u)
    ensures var l' := MintTo(Move(l, payer, collector, u, fee), payer, d, amt);
            && Balanced(l') && SupplyShifts(l, l', d, amt)
            && (forall b: Addr, e: Denom :: e != u ==> Bal(l', b, e) == Bal(l, b, e) + if b == payer && e == d then amt else 0)
            && (forall b: Addr :: b != payer && b != collector ==> Bal(l', b, u) == Bal(l, b, u))
  {
    MoveKeepsBooks(l, payer, collector, u, fee);
    MintKeepsBooks(Move(l, payer, collector, u, fee), payer, d, amt);
  }

  /** A fee paid in one denom, coins of another burned, then a payment back in the first. */
  lemma PayBurnAndRelease(l: Ledger, payer: Addr, collector: Addr, u: Denom, fee: nat, d: Denom, amt: nat, escrow: Addr, back: nat)
    requires Balanced(l) && d != u && fee <= Bal(l, payer, u) && amt <= Bal(l, payer, d) && back <= Bal(l, escrow, u)
    requires escrow != payer && escrow != collector
    ensures var paid := Move(l, payer, collector, u, fee);
            && amt <= Bal(paid, payer, d) && amt <= Supply(paid, d)
            && var burnt := BurnFrom(paid, payer, d, amt);
            && back <= Bal(burnt, escrow, u)
            && var l' := Move(burnt, escrow, payer, u, back);
            && Balanced(l') && SupplyShifts(l, l', d, 0 - amt)
            && (forall b: Addr :: Bal(l', b, u) == Bal(l, b, u) + (if b == payer then back - fee else 0)
                                    + (if b == collector then fee else 0) - (if b == escrow then back else 0))
            && (forall b: Addr, e: Denom :: e != u ==> Bal(l', b, e) == Bal(l, b, e) - if b == payer && e == d then amt else 0)
  {
    MoveKeepsBooks(l, payer, collector, u, fee);
    var paid := Move(l, payer, collector, u, fee);
    BurnKeepsBooks(paid, payer, d, amt);
    var burnt := BurnFrom(paid, payer, d, amt);
    MoveKeepsBooks(burnt, escrow, payer, u, back);
  }

  // ----- several coins at once

  datatype Coin = Coin(denom: Denom, amount: nat)

  function AmountOf(coins: seq<Coin>, d: Denom): nat {
    if coins == [] then 0
    else AmountOf(coins[1..], d) + if coins[0].denom == d then coins[0].amount else 0
  }

  /** Moves every coin, or fails if one balance does not suffice. */
  function MoveAll(l: Ledger, from: Addr, to: Addr, coins: seq<Coin>): Option<Ledger>
    decreases |coins|
  {
    if coins == [] then Some(l)
    else if coins[0].amount > Bal(l, from, coins[0].denom) then None
    else MoveAll(Move(l, from, to, coins[0].denom, coins[0].amount), from, to, coins[1..])
  }

  ghost predicate MovedAllBy(l: Ledger, l': Ledger, from: Addr, to: Addr, coins: seq<Coin>) {
    && l'.supply == l.supply
    && forall a: Addr, e: Denom :: Bal(l', a, e) == Bal(l, a, e)
         + (if a == to then AmountOf(coins, e) else 0) - (if a == from then AmountOf(coins, e) else 0)
  }

  lemma {:induction false} MoveAllKeepsBooks(l: Ledger, from: Addr, to: Addr, coins: seq<Coin>)
    requires Balanced(l) && MoveAll(l, from, to, coins).Some?
    ensures var l' := MoveAll(l, from, to, coins).value; Balanced(l') && MovedAllBy(l, l', from, to, coins)
    decreases |coins|
  {
    if coins != [] {
      var d, amt := coins[0].denom, coins[0].amount;
      MoveKeepsBooks(l, from, to, d, amt);
      MoveAllKeepsBooks(Move(l, from, to, d, amt), from, to, coins[1..]);
    }
  }
}
