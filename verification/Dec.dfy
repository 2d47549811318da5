/** Fixed-point decimals: the chain's `LegacyDec`, an integer scaled by 10^18.

    `Mul` and `Quo` follow the library step by step: a product is chopped back to 18 digits
    with ties to even; a quotient is first scaled by 10^36, truncated, and only then chopped,
    so a quotient is rounded twice. */
module Dec {

  const ONE: int := 1_000_000_000_000_000_000

  type Dec = int

  function Abs(x: int): int {
    if x < 0 then -x else x
  }

  /** Quotient truncated toward zero, as `big.Int.Quo` computes it. */
  function TruncDiv(a: int, b: int): int
    requires b > 0
  {
    if a >= 0 then a / b else -((-a) / b)
  }

  /** Drops 18 digits of a non-negative number, rounding half to even. */
  function ChopNat(x: nat): int {
    var quo, rem := x / ONE, x % ONE;
    if 2 * rem < ONE then quo
    else if 2 * rem > ONE then quo + 1
    else if quo % 2 == 0 then quo
    else quo + 1
  }

  /** Drops 18 digits, rounding half to even, symmetrically in the sign. */
  function ChopRound(x: int): int {
    if x >= 0 then ChopNat(x) else -ChopNat(-x)
  }

  function FromInt(n: int): Dec {
    n * ONE
  }

  function TruncateInt(d: Dec): int {
    TruncDiv(d, ONE)
  }

  function Mul(a: Dec, b: Dec): Dec {
    ChopRound(a * b)
  }

  function Quo(a: Dec, b: Dec): Dec
    requires b > 0
  {
    ChopRound(TruncDiv(a * ONE * ONE, b))
  }

  function QuoInt64(a: Dec, n: int): Dec
    requires n > 0
  {
    TruncDiv(a, n)
  }

  // ----- rounding

  /** Chopping is rounding to a nearest multiple of 10^18, and a tie goes to the even one. */
  lemma ChopIsNearest(x: int)
    ensures 2 * Abs(ChopRound(x) * ONE - x) <= ONE
    ensures 2 * Abs(ChopRound(x) * ONE - x) == ONE ==> ChopRound(x) % 2 == 0
  {
    ChopNatIsNearest(Abs(x));
  }

  lemma ChopNatIsNearest(x: nat)
    ensures 2 * Abs(ChopNat(x) * ONE - x) <= ONE
    ensures 2 * Abs(ChopNat(x) * ONE - x) == ONE ==> ChopNat(x) % 2 == 0
  {
    var quo, rem := x / ONE, x % ONE;
    assert x == quo * ONE + rem;
    assert ChopNat(x) == quo || ChopNat(x) == quo + 1;
  }

  lemma ChopExact(k: int)
    ensures ChopRound(k * ONE) == k
  {
    ChopIsNearest(k * ONE);
  }

  lemma ChopMonotone(x: int, y: int)
    requires x <= y
    ensures ChopRound(x) <= ChopRound(y)
  {
    ChopIsNearest(x);
    ChopIsNearest(y);
  }

  // ----- products and quotients

  lemma MulMono(a: int, b: int, c: int)
    requires a <= b && 0 <= c
    ensures a * c <= b * c
  {
  }

  /** The quotient is the largest `q` with `q * b <= a`. */
  lemma DivBounds(a: nat, b: int)
    requires b > 0
    ensures (a / b) * b <= a < (a / b + 1) * b
    ensures a / b >= 0
  {
    assert a == (a / b) * b + a % b;
    assert (a / b + 1) * b == (a / b) * b + b;
    if a / b < 0 {
      MulMono(a / b, -1, b);
    }
  }

  lemma DivAtMost(a: nat, b: int, q: int)
    requires b > 0 && a < (q + 1) * b
    ensures a / b <= q
  {
    DivBounds(a, b);
    if a / b > q {
      MulMono(q + 1, a / b, b);
    }
  }

  lemma DivAtLeast(a: nat, b: int, q: int)
    requires b > 0 && q * b <= a
    ensures q <= a / b
  {
    DivBounds(a, b);
    if a / b < q {
      MulMono(a / b + 1, q, b);
    }
  }

  /** Multiplying by a whole number loses nothing. */
  lemma MulByIntExact(d: Dec, n: int)
    ensures Mul(d, FromInt(n)) == d * n
    ensures Mul(FromInt(n), d) == n * d
  {
    assert d * FromInt(n) == (d * n) * ONE;
    assert FromInt(n) * d == (n * d) * ONE;
    ChopExact(d * n);
    ChopExact(n * d);
  }

  lemma MulMonotone(a: Dec, b: Dec, c: Dec)
    requires a <= b && 0 <= c
    ensures Mul(a, c) <= Mul(b, c)
  {
    MulMono(a, b, c);
    ChopMonotone(a * c, b * c);
  }

  /** A ratio at most `t` is still at most `t` after both roundings. */
  lemma QuoAtMost(a: Dec, b: Dec, t: Dec)
    requires 0 <= a && 0 < b
    requires a * ONE <= t * b
    ensures Quo(a, b) <= t
  {
    var x := a * ONE * ONE;
    assert x <= (t * b) * ONE;
    assert (t * b) * ONE == (t * ONE) * b;
    assert (t * ONE + 1) * b == (t * ONE) * b + b;
    DivAtMost(x, b, t * ONE);
    ChopMonotone(x / b, t * ONE);
    ChopExact(t);
  }

  /** A ratio at least `t` is still at least `t` after both roundings. */
  lemma QuoAtLeast(a: Dec, b: Dec, t: Dec)
    requires 0 <= a && 0 < b
    requires a * ONE >= t * b
    ensures Quo(a, b) >= t
  {
    var x := a * ONE * ONE;
    assert x >= (t * b) * ONE;
    assert (t * b) * ONE == (t * ONE) * b;
    DivAtLeast(x, b, t * ONE);
    ChopMonotone(t * ONE, x / b);
    ChopExact(t);
  }

  /** The doubly rounded quotient is within half a unit plus 10^-18 of a unit of the true ratio. */
  lemma QuoNearest(a: Dec, b: Dec)
    requires 0 <= a && 0 < b
    ensures 2 * ONE * Abs(Quo(a, b) * b - a * ONE) <= (ONE + 2) * b
  {
    var x := a * ONE * ONE;
    var q := x / b;
    DivBounds(x, b);
    ChopIsNearest(q);
    var r := ChopRound(q);
    var e := r * ONE - q;
    assert -ONE <= 2 * e <= ONE;
    ScaledError(r, q, b, e, a);
  }

  lemma ScaledError(r: int, q: int, b: int, e: int, a: int)
    requires 0 < b && e == r * ONE - q && -ONE <= 2 * e <= ONE
    requires q * b <= a * ONE * ONE < (q + 1) * b
    ensures 2 * ONE * Abs(r * b - a * ONE) <= (ONE + 2) * b
  {
    assert (q + 1) * b == q * b + b;
    var w := r * b;
    assert ONE * w == (q + e) * b by { assert ONE * w == (r * ONE) * b; }
    assert (q + e) * b == q * b + e * b;
    MulMono(2 * e, ONE, b);
    MulMono(-ONE, 2 * e, b);
    assert (2 * e) * b == 2 * (e * b);
    assert (-ONE) * b == -(ONE * b);
  }

  /** The same bound for a whole divisor. */
  lemma QuoByInt(a: Dec, d: int)
    requires 0 <= a && 0 < d
    ensures 2 * ONE * Abs(Quo(a, FromInt(d)) * d - a) <= (ONE + 2) * d
  {
    QuoNearest(a, FromInt(d));
    var q := Quo(a, FromInt(d));
    FromIntScales(q, d);
    Unscale(q * d, a, d);
  }

  /** A whole-number average of values between `lo` and `hi` stays between them. */
  lemma QuoInRange(a: Dec, d: int, lo: int, hi: int)
    requires 0 <= lo && 0 < d && lo * d <= a <= hi * d
    ensures lo <= Quo(a, FromInt(d)) <= hi
  {
    MulMono(0, lo, d);
    FromIntScales(lo, d);
    FromIntScales(hi, d);
    QuoAtLeast(a, FromInt(d), lo);
    QuoAtMost(a, FromInt(d), hi);
  }

  lemma Distributes(a: int, x: int, y: int)
    ensures a * (x + y) == a * x + a * y
  {
  }

  lemma FromIntScales(q: int, d: int)
    ensures q * FromInt(d) == FromInt(q * d)
  {
  }

  lemma Unscale(x: int, a: int, d: int)
    requires 2 * ONE * Abs(FromInt(x) - a * ONE) <= (ONE + 2) * FromInt(d)
    ensures 2 * ONE * Abs(x - a) <= (ONE + 2) * d
  {
  }

  /** Exactly when a chopped number reaches `t`: from the half below on, the half itself only if `t` is even. */
  lemma ChopReaches(x: nat, t: nat)
    ensures ChopNat(x) >= t <==> x >= t * ONE - ONE / 2 + t % 2
  {
    assert x == (x / ONE) * ONE + x % ONE;
  }

  /** Exactly when a quotient reaches `t`, both roundings taken into account. */
  lemma QuoReaches(a: Dec, b: Dec, t: nat)
    requires 0 <= a && 0 < b
    ensures Quo(a, b) >= t <==> a * ONE * ONE >= (t * ONE - ONE / 2 + t % 2) * b
  {
    var x, k := a * ONE * ONE, t * ONE - ONE / 2 + t % 2;
    DivBounds(x, b);
    ChopReaches(x / b, t);
    if x >= k * b {
      DivAtLeast(x, b, k);
    } else {
      assert (k - 1 + 1) * b == k * b;
      DivAtMost(x, b, k - 1);
    }
  }

  /** The same for a whole divisor. */
  lemma QuoReachesInt(a: Dec, d: int, t: nat)
    requires 0 <= a && 0 < d
    ensures Quo(a, FromInt(d)) >= t <==> a * ONE >= (t * ONE - ONE / 2 + t % 2) * d
  {
    QuoReaches(a, FromInt(d), t);
    FromIntScales(t * ONE - ONE / 2 + t % 2, d);
  }

  /** Two ratios with the same quotient differ by little more than a unit of the last digit. */
  lemma SameQuoClose(a: Dec, d: int, b: Dec, e: int)
    requires 0 <= a && 0 < d && 0 <= b && 0 < e && Quo(a, FromInt(d)) == Quo(b, FromInt(e))
    ensures ONE * Abs(a * e - b * d) <= (ONE + 2) * (d * e)
  {
    QuoByInt(a, d);
    QuoByInt(b, e);
    CloseRatios(a, d, b, e, Quo(a, FromInt(d)));
  }

  lemma CloseRatios(a: int, d: int, b: int, e: int, q: int)
    requires 0 < d && 0 < e
    requires 2 * ONE * Abs(q * d - a) <= (ONE + 2) * d && 2 * ONE * Abs(q * e - b) <= (ONE + 2) * e
    ensures ONE * Abs(a * e - b * d) <= (ONE + 2) * (d * e)
  {
    var x, y := q * d - a, q * e - b;
    ScaledAbs(x, d, e);
    ScaledAbs(y, e, d);
    CrossError(a, d, b, e, q);
    assert e * d == d * e;
    HalvesAdd(y * d, x * e, d * e);
  }

  lemma HalvesAdd(u: int, v: int, m: int)
    requires 2 * ONE * Abs(u) <= (ONE + 2) * m && 2 * ONE * Abs(v) <= (ONE + 2) * m
    ensures ONE * Abs(u - v) <= (ONE + 2) * m
  {
  }

  lemma CrossError(a: int, d: int, b: int, e: int, q: int)
    ensures a * e - b * d == (q * e - b) * d - (q * d - a) * e
  {
    assert (q * e - b) * d == q * e * d - b * d;
    assert (q * d - a) * e == q * d * e - a * e;
  }

  lemma ScaledAbs(x: int, d: int, e: int)
    requires 2 * ONE * Abs(x) <= (ONE + 2) * d && 0 < e
    ensures 2 * ONE * Abs(x * e) <= (ONE + 2) * (d * e)
  {
    MulMono(2 * ONE * x, (ONE + 2) * d, e);
    MulMono(-2 * ONE * x, (ONE + 2) * d, e);
    assert (2 * ONE * x) * e == 2 * ONE * (x * e);
    assert (-2 * ONE * x) * e == -2 * ONE * (x * e);
    assert ((ONE + 2) * d) * e == (ONE + 2) * (d * e);
  }
}
